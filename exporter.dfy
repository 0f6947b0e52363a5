/**
 * `main`: the two guards around fetching and writing. Writing itself (the
 * CSV file) is not modelled; the outcome names the rows that would be
 * written.
 */
module Exporter {
  import opened Wrappers
  import opened Catalog
  import opened Pagination

  const ApiVersion: string := "2024-01"

  /** `https://{shop_name}.myshopify.com/admin/api/{api_version}`. */
  function BaseUrl(shopName: string): (url: string)
    ensures "https://" <= url && |url| >= |shopName| + |ApiVersion|
    ensures url[|url| - |ApiVersion|..] == ApiVersion
  {
    "https://" + shopName + ".myshopify.com/admin/api/" + ApiVersion
  }

  datatype Outcome = MissingCredentials | NothingFetched | Written(rows: seq<Row>)

  /**
   * No request without both credentials; no file when nothing was fetched
   * (an error on the first page included); otherwise the rows of whatever
   * was fetched, partial or not.
   */
  method Export(shopName: Option<string>, accessToken: Option<string>, pages: seq<Response>)
    returns (outcome: Outcome)
    ensures outcome == MissingCredentials <==> !(Truthy(shopName) && Truthy(accessToken))
    ensures Truthy(shopName) && Truthy(accessToken) ==>
      var fetched := Run(pages, Start(BaseUrl(shopName.value)), Some(PageLimit)).products;
      outcome == if fetched == [] then NothingFetched else Written(Flatten(fetched))
  {
    if !Truthy(shopName) || !Truthy(accessToken) {
      return MissingCredentials;
    }
    var products, _, _ := FetchProducts(BaseUrl(shopName.value), pages);
    if products == [] {
      return NothingFetched;
    }
    var rows := ParseProducts(products);
    outcome := Written(rows);
  }

  /** An error on the second page after a good first one exports the first page's rows only. */
  lemma SecondPageError(pages: seq<Response>, shopName: string)
    requires |pages| >= 2 && Continues(pages[0]) && pages[1].status != StatusOk
    ensures Flatten(Run(pages, Start(BaseUrl(shopName)), Some(PageLimit)).products) == Flatten(PageProducts(pages[0]))
  {
    var start := Start(BaseUrl(shopName));
    assert |start.value| > 0;
    FirstPageOnly(pages, start);
  }

  /** The pagination half: only the first page's products are fetched. */
  lemma FirstPageOnly(pages: seq<Response>, start: Option<string>)
    requires |pages| >= 2 && Continues(pages[0]) && pages[1].status != StatusOk && Truthy(start)
    ensures Run(pages, start, Some(PageLimit)).products == PageProducts(pages[0])
  {
    StopsAtFirstError(pages, 1, start, Some(PageLimit));
    var first := pages[..1];
    assert first[0] == pages[0] && first[1..] == [];
    assert AllProducts(first) == PageProducts(pages[0]) + AllProducts([]);
  }
}
