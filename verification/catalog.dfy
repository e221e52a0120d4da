/** The managed entity: a financial product as the remote service returns it. */
module Catalog {

  /** Dates travel as `YYYY-MM-DD` strings, as in the service's JSON. */
  datatype Product = Product(
    id: string,
    name: string,
    description: string,
    logo: string,
    dateRelease: string,
    dateRevision: string)
}
