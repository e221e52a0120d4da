/**
 * `ProductsComponent`: the authoritative `allProducts` sequence and the
 * displayed `listProducts` derived from it by a search or by a quantity cap,
 * plus the row dropdown and the route test that shows the form outlet.
 */
module ProductList {
  import opened Wrappers
  import opened Text
  import opened Seqs
  import opened Catalog

  datatype ListView = ListView(
    allProducts: seq<Product>,
    listProducts: seq<Product>,
    searchTerm: string,
    selectedQuantity: nat,
    showForm: bool,
    openDropdownId: Option<string>)

  const DefaultQuantity: nat := 5

  /** The displayed products are drawn, in order, from the authoritative ones. */
  predicate Inv(v: ListView) {
    IsSubsequence(v.listProducts, v.allProducts)
  }

  /** The component's field initialisers. */
  function Initial(): (v: ListView)
    ensures v.allProducts == [] && v.listProducts == [] && v.searchTerm == []
    ensures v.selectedQuantity == DefaultQuantity && !v.showForm && v.openDropdownId == None
  {
    ListView([], [], [], DefaultQuantity, false, None)
  }

  /** The search term as compared: lower-cased, then trimmed. */
  function NormalizeTerm(t: string): string {
    Trim(ToLower(t))
  }

  /** A product matches a (normalised) term when its lower-cased name or description contains it. */
  predicate Matches(p: Product, term: string) {
    Contains(ToLower(p.name), term) || Contains(ToLower(p.description), term)
  }

  /**
   * `searchProducts()`: a blank term shows every product; any other term shows
   * exactly the matching products, in order, each as often as in `allProducts`.
   * No other field changes, and the quantity cap plays no part.
   */
  function SearchProducts(v: ListView): (r: ListView)
    ensures r == v.(listProducts := r.listProducts)
    ensures AllSpace(v.searchTerm) ==> r.listProducts == v.allProducts
    ensures NormalizeTerm(v.searchTerm) == [] ==> r.listProducts == v.allProducts
    ensures IsSubsequence(r.listProducts, v.allProducts)
    ensures NormalizeTerm(v.searchTerm) != [] ==>
              forall p :: p in r.listProducts <==> p in v.allProducts && Matches(p, NormalizeTerm(v.searchTerm))
    ensures NormalizeTerm(v.searchTerm) != [] ==>
              forall p :: multiset(r.listProducts)[p] ==
                          if Matches(p, NormalizeTerm(v.searchTerm)) then multiset(v.allProducts)[p] else 0
  {
    var term := NormalizeTerm(v.searchTerm);
    TrimEmptyIffBlank(v.searchTerm);
    TrimCommutesWithLower(v.searchTerm);
    if term == [] then
      SubsequenceReflexive(v.allProducts);
      v.(listProducts := v.allProducts)
    else
      v.(listProducts := Filter(v.allProducts, p => Matches(p, term)))
  }

  /** `updateDisplayedProducts()`: the first `selectedQuantity` products, or all when there are fewer. */
  function UpdateDisplayedProducts(v: ListView): (r: ListView)
    ensures r == v.(listProducts := r.listProducts)
    ensures |r.listProducts| == Min(v.selectedQuantity, |v.allProducts|)
    ensures forall i :: 0 <= i < |r.listProducts| ==> r.listProducts[i] == v.allProducts[i]
    ensures IsSubsequence(r.listProducts, v.allProducts)
  {
    v.(listProducts := Take(v.allProducts, v.selectedQuantity))
  }

  /** The listing the service delivers to `ngOnInit`, or its failure. */
  datatype Fetch = Fetched(products: seq<Product>) | FetchFailed

  /**
   * `ngOnInit()`: a delivered listing replaces `allProducts` and the display
   * shows its capped prefix; a failed fetch has no handler and changes nothing.
   */
  function Load(v: ListView, fetch: Fetch): (r: ListView)
    ensures fetch.FetchFailed? ==> r == v
    ensures fetch.Fetched? ==> r.allProducts == fetch.products
    ensures fetch.Fetched? ==> r.listProducts == Take(fetch.products, v.selectedQuantity)
    ensures r.searchTerm == v.searchTerm && r.selectedQuantity == v.selectedQuantity
    ensures r.showForm == v.showForm && r.openDropdownId == v.openDropdownId
  {
    match fetch
    case FetchFailed => v
    case Fetched(products) =>
      UpdateDisplayedProducts(v.(listProducts := products, allProducts := products))
  }

  /** `onQuantityChange(event)` with the selected number already parsed. */
  function OnQuantityChange(v: ListView, quantity: nat): (r: ListView)
    ensures r.selectedQuantity == quantity
    ensures r.allProducts == v.allProducts
    ensures r.listProducts == Take(v.allProducts, quantity)
    ensures r.searchTerm == v.searchTerm && r.showForm == v.showForm && r.openDropdownId == v.openDropdownId
  {
    UpdateDisplayedProducts(v.(selectedQuantity := quantity))
  }

  /** The outcome of the service's delete call. */
  datatype DeleteOutcome = Deleted | DeleteFailed

  predicate HasId(p: Product, id: string) {
    p.id == id
  }

  /**
   * `deleteProduct(id)`: on success no product with that id remains, the
   * others keep their order and multiplicity, and the display is the capped
   * prefix of what is left. A failure has no handler and changes nothing.
   */
  function DeleteProduct(v: ListView, id: string, outcome: DeleteOutcome): (r: ListView)
    ensures outcome.DeleteFailed? ==> r == v
    ensures outcome.Deleted? ==> forall p :: p in r.allProducts ==> p.id != id
    ensures outcome.Deleted? ==> forall p :: p in r.listProducts ==> p.id != id
    ensures outcome.Deleted? ==> forall p :: p in v.allProducts && p.id != id ==> p in r.allProducts
    ensures outcome.Deleted? ==> forall p: Product :: p.id != id ==> multiset(r.allProducts)[p] == multiset(v.allProducts)[p]
    ensures IsSubsequence(r.allProducts, v.allProducts)
    ensures outcome.Deleted? ==> IsSubsequence(r.listProducts, v.allProducts)
    ensures outcome.Deleted? ==> Inv(r)
    ensures outcome.Deleted? ==> r.listProducts == Take(r.allProducts, v.selectedQuantity)
    ensures r.searchTerm == v.searchTerm && r.selectedQuantity == v.selectedQuantity
    ensures r.showForm == v.showForm && r.openDropdownId == v.openDropdownId
  {
    match outcome
    case DeleteFailed =>
      SubsequenceReflexive(v.allProducts);
      v
    case Deleted =>
      var keep := (p: Product) => !HasId(p, id);
      var remaining := Filter(v.allProducts, keep);
      var r := UpdateDisplayedProducts(v.(listProducts := Filter(v.listProducts, keep), allProducts := remaining));
      SubsequenceTransitive(r.listProducts, remaining, v.allProducts);
      r
  }

  /** `toggleDropdown(id)`: closes the dropdown open on `id`, otherwise opens `id`. */
  function ToggleDropdown(v: ListView, id: string): (r: ListView)
    ensures r == v.(openDropdownId := r.openDropdownId)
    ensures r.openDropdownId == None <==> v.openDropdownId == Some(id)
    ensures r.openDropdownId != None ==> r.openDropdownId == Some(id)
  {
    v.(openDropdownId := if v.openDropdownId == Some(id) then None else Some(id))
  }

  /** Toggling the same row twice restores a closed or same-row state; another open row ends closed. */
  lemma ToggleTwice(v: ListView, id: string)
    ensures v.openDropdownId == None || v.openDropdownId == Some(id) ==>
              ToggleDropdown(ToggleDropdown(v, id), id) == v
    ensures v.openDropdownId != None && v.openDropdownId != Some(id) ==>
              ToggleDropdown(ToggleDropdown(v, id), id).openDropdownId == None
  {
  }

  /** The router-event handler's test: the form outlet shows on the create and edit routes. */
  predicate ShowForm(url: string) {
    Contains(url, "new-product") || Contains(url, "edit-product")
  }

  /** A router event: `showForm` follows the current URL and nothing else changes. */
  function OnNavigation(v: ListView, url: string): (r: ListView)
    ensures r == v.(showForm := r.showForm)
    ensures r.showForm <==> (exists i :: OccursAt(url, "new-product", i)) || (exists i :: OccursAt(url, "edit-product", i))
  {
    ContainsIffOccurs(url, "new-product");
    ContainsIffOccurs(url, "edit-product");
    v.(showForm := ShowForm(url))
  }

  /** The application's routes: the list alone hides the form, the create and edit routes show it. */
  lemma ShowFormOnRoutes()
    ensures !ShowForm("/")
    ensures ShowForm("/new-product")
    ensures ShowForm("/edit-product/abc")
  {
    ContainsNeedsRoom("/", "new-product");
    ContainsNeedsRoom("/", "edit-product");
    assert "/new-product"[1..] == "new-product";
    assert StartsWith("/new-product"[1..], "new-product");
    assert "/edit-product/abc"[1..][..12] == "edit-product";
    assert StartsWith("/edit-product/abc"[1..], "edit-product");
  }

  /** Upper-casing the search term does not change what the search shows. */
  lemma SearchCaseInsensitive(v: ListView)
    ensures SearchProducts(v.(searchTerm := ToUpper(v.searchTerm))).listProducts
         == SearchProducts(v).listProducts
  {
    ToLowerForgetsUpper(v.searchTerm);
  }

  /** The search reads only `allProducts` and the term: an earlier cap or search is discarded. */
  lemma SearchIgnoresCap(v: ListView, quantity: nat)
    ensures SearchProducts(OnQuantityChange(v, quantity)).listProducts == SearchProducts(v).listProducts
  {
  }

  /** The cap reads only `allProducts` and the quantity: an earlier search is discarded. */
  lemma CapIgnoresSearch(v: ListView, term: string)
    ensures UpdateDisplayedProducts(SearchProducts(v.(searchTerm := term))).listProducts
         == UpdateDisplayedProducts(v).listProducts
  {
  }

  /** Re-applying the cap or the search changes nothing. */
  lemma ProjectionsIdempotent(v: ListView)
    ensures UpdateDisplayedProducts(UpdateDisplayedProducts(v)) == UpdateDisplayedProducts(v)
    ensures SearchProducts(SearchProducts(v)) == SearchProducts(v)
  {
  }

  /**
   * Every handler keeps the displayed products a subsequence of the
   * authoritative ones; the search, the cap, a delivered listing and a
   * successful delete establish it whatever the state before.
   */
  lemma InvariantKept(v: ListView, fetch: Fetch, quantity: nat, id: string, outcome: DeleteOutcome, url: string)
    ensures Inv(Initial())
    ensures Inv(SearchProducts(v)) && Inv(UpdateDisplayedProducts(v)) && Inv(OnQuantityChange(v, quantity))
    ensures fetch.Fetched? ==> Inv(Load(v, fetch))
    ensures outcome.Deleted? ==> Inv(DeleteProduct(v, id, outcome))
    ensures Inv(v) ==> Inv(Load(v, fetch)) && Inv(DeleteProduct(v, id, outcome))
    ensures Inv(v) ==> Inv(ToggleDropdown(v, id)) && Inv(OnNavigation(v, url))
  {
  }
}
