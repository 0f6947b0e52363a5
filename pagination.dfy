/**
 * `fetch_products`: the cursor-pagination loop, run against a finite
 * sequence of server responses instead of the network. The i-th request
 * the loop issues receives pages[i].
 */
module Pagination {
  import opened Wrappers
  import opened PyStr
  import opened Catalog
  import opened LinkHeader

  /** The page size sent as `limit` with the first request. */
  const PageLimit: int := 250

  /** The only status the loop accepts. */
  const StatusOk: int := 200

  /** The path appended to the base URL for the first request. */
  const ProductsPath: string := "/products.json"

  /** One response: its status, the body's `products` key and the `Link` header, each possibly absent. */
  datatype Response = Response(status: int, products: Option<seq<Product>>, link: Option<string>)

  /** One request: the URL and the query parameters (Some(n) is `{"limit": n}`, None is no parameters). */
  datatype Request = Request(url: string, limit: Option<int>)

  /** Why the loop stopped. OutOfResponses: it wanted a response beyond those supplied. */
  datatype Stop = NoNextPage | HttpError(status: int) | OutOfResponses

  datatype Fetched = Fetched(products: seq<Product>, requests: seq<Request>, stop: Stop)

  /** Python truthiness of the loop variable `url`: neither None nor "". */
  predicate Truthy(url: Option<string>) {
    url.Some? && url.value != ""
  }

  /** `data.get("products", [])`. */
  function PageProducts(r: Response): seq<Product> {
    r.products.GetOr([])
  }

  /** `response.headers.get("Link", "")`. */
  function LinkOf(r: Response): (link: string)
    ensures r.link.None? ==> !Contains(link, NextRel)
  {
    r.link.GetOr("")
  }

  /** The parameters after a successful page: dropped once a `rel="next"` header was seen. */
  function NextParams(link: string, params: Option<int>): Option<int> {
    if Contains(link, NextRel) then None else params
  }

  /** A page that the loop accepts and then continues from. */
  predicate Continues(r: Response) {
    r.status == StatusOk && Truthy(FollowNext(LinkOf(r)))
  }

  /** The products of the pages, in page order. */
  function AllProducts(pages: seq<Response>): seq<Product> {
    if pages == [] then [] else PageProducts(pages[0]) + AllProducts(pages[1..])
  }

  /** The loop from state (url, params) onward, as a function of the remaining responses. */
  function Run(pages: seq<Response>, url: Option<string>, params: Option<int>): (f: Fetched)
    ensures |f.requests| <= |pages|
    ensures f.stop == OutOfResponses ==> |f.requests| == |pages|
    ensures f.stop.HttpError? ==> f.requests != []
    decreases |pages|
  {
    if !Truthy(url) then Fetched([], [], NoNextPage)
    else if pages == [] then Fetched([], [], OutOfResponses)
    else
      var request := Request(url.value, params);
      var r := pages[0];
      if r.status != StatusOk then Fetched([], [request], HttpError(r.status))
      else
        var link := LinkOf(r);
        var rest := Run(pages[1..], FollowNext(link), NextParams(link, params));
        Fetched(PageProducts(r) + rest.products, [request] + rest.requests, rest.stop)
  }

  /** The first request of `fetch_products`. */
  function Start(baseUrl: string): (url: Option<string>)
    ensures Truthy(url)
  {
    Some(baseUrl + ProductsPath)
  }

  /** The loop's result once it has already gathered `products` and issued `requests`. */
  function After(products: seq<Product>, requests: seq<Request>, rest: Fetched): Fetched {
    Fetched(products + rest.products, requests + rest.requests, rest.stop)
  }

  /** One accepted page: its products and its request come first, then the run from the state it leads to. */
  lemma RunUnfold(pages: seq<Response>, url: Option<string>, params: Option<int>)
    requires Truthy(url) && pages != [] && pages[0].status == StatusOk
    ensures var link := LinkOf(pages[0]);
      var rest := Run(pages[1..], FollowNext(link), NextParams(link, params));
      Run(pages, url, params)
      == Fetched(PageProducts(pages[0]) + rest.products, [Request(url.value, params)] + rest.requests, rest.stop)
  {
  }

  /** Gathering is associative: what one step adds can be moved into what is gathered. */
  lemma AfterShift(products: seq<Product>, requests: seq<Request>,
                   page: seq<Product>, request: Request, rest: Fetched)
    ensures After(products, requests, Fetched(page + rest.products, [request] + rest.requests, rest.stop))
         == After(products + page, requests + [request], rest)
  {
    assert products + (page + rest.products) == products + page + rest.products;
    assert requests + ([request] + rest.requests) == requests + [request] + rest.requests;
  }

  /** One accepted page moves its products and its request from the run into what is gathered. */
  lemma RunStep(products: seq<Product>, requests: seq<Request>,
                pages: seq<Response>, url: Option<string>, params: Option<int>)
    requires Truthy(url) && pages != [] && pages[0].status == StatusOk
    ensures var link := LinkOf(pages[0]);
      After(products, requests, Run(pages, url, params))
      == After(products + PageProducts(pages[0]), requests + [Request(url.value, params)],
               Run(pages[1..], FollowNext(link), NextParams(link, params)))
  {
    var link := LinkOf(pages[0]);
    RunUnfold(pages, url, params);
    AfterShift(products, requests, PageProducts(pages[0]), Request(url.value, params),
               Run(pages[1..], FollowNext(link), NextParams(link, params)));
  }

  /** `fetch_products`, with the requests it issues and the reason it stopped. */
  method FetchProducts(baseUrl: string, pages: seq<Response>)
    returns (allProducts: seq<Product>, requests: seq<Request>, stop: Stop)
    ensures Fetched(allProducts, requests, stop) == Run(pages, Start(baseUrl), Some(PageLimit))
  {
    var url := Start(baseUrl);
    var params := Some(PageLimit);
    allProducts, requests, stop := [], [], NoNextPage;
    var i := 0;
    ghost var total := Run(pages, url, params);
    assert total == After([], [], total);
    while Truthy(url)
      invariant i == |requests| <= |pages|
      invariant total == After(allProducts, requests, Run(pages[i..], url, params))
      decreases |pages| - i
    {
      if i == |pages| {
        stop := OutOfResponses;
        assert pages[i..] == [];
        break;
      }
      var response := pages[i];
      if response.status != StatusOk {
        requests := requests + [Request(url.value, params)];
        stop := HttpError(response.status);
        break;
      }
      RunStep(allProducts, requests, pages[i..], url, params);
      assert pages[i..][1..] == pages[i + 1..];
      requests := requests + [Request(url.value, params)];
      i := i + 1;
      var products := PageProducts(response);
      allProducts := allProducts + products;
      var link := LinkOf(response);
      if Contains(link, NextRel) {
        var nextLinks := NextLinks(link);
        url := if nextLinks != [] then Some(nextLinks[0]) else None;
        params := None;
        FirstNextIsHead(Split(link, ','));
      } else {
        url := None;
      }
    }
  }

  /** Only the first request carries `limit`; every later one has no parameters. */
  lemma {:induction false} LimitOnFirstRequestOnly(pages: seq<Response>, url: Option<string>, params: Option<int>)
    ensures var f := Run(pages, url, params);
      (f.requests != [] ==> f.requests[0].limit == params)
      && (forall k :: 1 <= k < |f.requests| ==> f.requests[k].limit == None)
  {
    var f := Run(pages, url, params);
    if Truthy(url) && pages != [] && pages[0].status == StatusOk {
      var link := LinkOf(pages[0]);
      if Contains(link, NextRel) {
        NoParamsAfter(pages[1..], FollowNext(link));
      } else {
        NextIffMarker(link);
      }
    }
  }

  /** Without parameters, no request gets any. */
  lemma {:induction false} NoParamsAfter(pages: seq<Response>, url: Option<string>)
    ensures forall k :: 0 <= k < |Run(pages, url, None).requests| ==> Run(pages, url, None).requests[k].limit == None
    decreases |pages|
  {
    if Truthy(url) && pages != [] && pages[0].status == StatusOk {
      var link := LinkOf(pages[0]);
      NoParamsAfter(pages[1..], FollowNext(link));
    }
  }

  /**
   * Partial result on error: if pages 0..e-1 succeed with a next link and
   * page e fails, exactly e+1 requests are made and the products of pages
   * 0..e-1 are returned, in page order.
   */
  lemma {:induction false} StopsAtFirstError(pages: seq<Response>, e: nat, url: Option<string>, params: Option<int>)
    requires e < |pages| && Truthy(url)
    requires forall k :: 0 <= k < e ==> Continues(pages[k])
    requires pages[e].status != StatusOk
    ensures var f := Run(pages, url, params);
      f.products == AllProducts(pages[..e]) && |f.requests| == e + 1 && f.stop == HttpError(pages[e].status)
    decreases e
  {
    if e > 0 {
      var link := LinkOf(pages[0]);
      assert Continues(pages[0]);
      RunUnfold(pages, url, params);
      assert forall k :: 0 <= k < e - 1 ==> pages[1..][k] == pages[k + 1];
      StopsAtFirstError(pages[1..], e - 1, FollowNext(link), NextParams(link, params));
      var prefix := pages[..e];
      assert prefix[0] == pages[0] && prefix[1..] == pages[1..][..e - 1];
      assert AllProducts(prefix) == PageProducts(pages[0]) + AllProducts(pages[1..][..e - 1]);
    }
  }

  /**
   * Termination: if pages 0..k-2 succeed with a next link and page k-1
   * succeeds without one (or with an empty one), exactly k requests are made
   * and all products of pages 0..k-1 are returned, in page order.
   */
  lemma {:induction false} StopsAfterLastPage(pages: seq<Response>, k: nat, url: Option<string>, params: Option<int>)
    requires 1 <= k <= |pages| && Truthy(url)
    requires forall j :: 0 <= j < k - 1 ==> Continues(pages[j])
    requires pages[k - 1].status == StatusOk && !Truthy(FollowNext(LinkOf(pages[k - 1])))
    ensures var f := Run(pages, url, params);
      f.products == AllProducts(pages[..k]) && |f.requests| == k && f.stop == NoNextPage
    decreases k
  {
    var link := LinkOf(pages[0]);
    if k > 1 {
      assert Continues(pages[0]);
      RunUnfold(pages, url, params);
      assert forall j :: 0 <= j < k - 2 ==> pages[1..][j] == pages[j + 1];
      StopsAfterLastPage(pages[1..], k - 1, FollowNext(link), NextParams(link, params));
      var prefix := pages[..k];
      assert prefix[0] == pages[0] && prefix[1..] == pages[1..][..k - 1];
      assert AllProducts(prefix) == PageProducts(pages[0]) + AllProducts(pages[1..][..k - 1]);
    } else {
      assert pages[..1][1..] == [];
    }
  }

  /** The number of pages the run accepted: all its requests but a failed last one. */
  function Accepted(f: Fetched): int {
    if f.stop.HttpError? then |f.requests| - 1 else |f.requests|
  }

  /**
   * Whatever the responses: the pages answered before the last request were
   * all 200, a stop on error names the failing page's status, and the
   * products returned are exactly those of the accepted pages, in order.
   */
  lemma {:induction false} RunProducts(pages: seq<Response>, url: Option<string>, params: Option<int>)
    ensures var f := Run(pages, url, params);
      var n := Accepted(f);
      && 0 <= n <= |pages|
      && (forall k :: 0 <= k < n ==> pages[k].status == StatusOk)
      && (f.stop.HttpError? ==> n < |pages| && f.stop.status == pages[n].status && f.stop.status != StatusOk)
      && f.products == AllProducts(pages[..n])
    decreases |pages|
  {
    if Truthy(url) && pages != [] && pages[0].status == StatusOk {
      var link := LinkOf(pages[0]);
      var rest := Run(pages[1..], FollowNext(link), NextParams(link, params));
      RunUnfold(pages, url, params);
      RunProducts(pages[1..], FollowNext(link), NextParams(link, params));
      var m := Accepted(rest);
      assert Accepted(Run(pages, url, params)) == m + 1;
      assert pages[..m + 1][1..] == pages[1..][..m];
      assert pages[..m + 1][0] == pages[0];
    } else if Truthy(url) && pages != [] {
      assert pages[..0] == [];
    }
  }

  /**
   * The first request goes to the starting URL, and every later request to
   * the URL extracted from the previous page's Link header.
   */
  lemma {:induction false} RunUrls(pages: seq<Response>, url: Option<string>, params: Option<int>)
    ensures var f := Run(pages, url, params);
      && (f.requests != [] ==> Truthy(url) && f.requests[0].url == url.value)
      && (forall k :: 0 <= k < |f.requests| - 1 ==> FollowNext(LinkOf(pages[k])) == Some(f.requests[k + 1].url))
    decreases |pages|
  {
    if Truthy(url) && pages != [] && pages[0].status == StatusOk {
      var link := LinkOf(pages[0]);
      RunUnfold(pages, url, params);
      RunUrls(pages[1..], FollowNext(link), NextParams(link, params));
    }
  }
}
