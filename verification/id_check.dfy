/**
 * `idNotExistsValidator`: the asynchronous rule that flags an `id` the remote
 * service already knows. The service is an oracle; its answer for one query is
 * `Exists`, `NotExists`, or `Failed` (any error, including a synchronous throw
 * and the service's own mapping of HTTP failures).
 */
module IdCheck {
  import opened Text

  datatype Oracle = Exists | NotExists | Failed

  /** The validator's value: `null` or `{idExists: true}`; nothing else can be produced. */
  datatype IdResult = NoError | IdExists

  /** What one validation run yields, and which ids it asked the service about. */
  datatype Run = Run(result: IdResult, queried: seq<string>)

  /** Values the validator answers immediately, without the service. */
  predicate TooShort(value: string) {
    value == [] || |Trim(value)| < 3
  }

  /** Maps the service's answer to the validator's value; failures fail open. */
  function Resolve(answer: Oracle): (r: IdResult)
    ensures r == IdExists <==> answer == Exists
  {
    match answer
    case Exists => IdExists
    case NotExists => NoError
    case Failed => NoError
  }

  /** One run of the validator on `value`, with `service` answering existence queries. */
  function Validate(value: string, service: string -> Oracle): (r: Run)
    ensures TooShort(value) ==> r == Run(NoError, [])
    ensures !TooShort(value) ==> r.queried == [value]
    ensures r.result == IdExists <==> !TooShort(value) && service(value) == Exists
  {
    if TooShort(value) then Run(NoError, [])
    else Run(Resolve(service(value)), [value])
  }

  /** A failing service is indistinguishable from one that does not know the id. */
  lemma FailOpen(value: string, failing: string -> Oracle, unknown: string -> Oracle)
    requires failing(value) == Failed && unknown(value) == NotExists
    ensures Validate(value, failing) == Validate(value, unknown)
    ensures Validate(value, failing).result == NoError
  {
  }
}
