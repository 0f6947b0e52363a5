# Shopify product export — a verified model

`shopify_export.py` pulls every product of one Shopify store through the
Admin REST API and writes one CSV row per product variant. This project
models the parts of it that hold logic, and proves what they do:

- **Flattening** (`parse_products`). Each product becomes one row per variant.
  The row copies the product's `id`, `title`, `vendor` and `status`. It takes the
  variant's `sku`, `price` and `inventory_quantity`, or `""`, `"0.00"` and `0`
  when the key is absent.
- **Pagination** (`fetch_products`). A `while url:` loop sends a GET per page,
  with `limit=250` on the first request only. It accumulates each page's
  `products` and follows the `rel="next"` entry of the `Link` header. It stops
  at the first non-200 status and returns what it has so far.
- **Link extraction** (line 51 of the script). The script reads the next URL
  with Python string operations: `split(",")`, `'rel="next"' in …`,
  `split(";")[0]` and `strip("<>")`. The header syntax loosely follows section 3
  of RFC 8288 (Web Linking).
- **Main guards** (`main`). Nothing is fetched without both credentials, and
  nothing is written when no product was fetched.

The model has one module per concern:

| file | module | what it holds |
|---|---|---|
| `wrappers.dfy` | `Wrappers` | `Option`, with `GetOr` standing for `dict.get(key, default)` |
| `pystr.dfy` | `PyStr` | Python's `in`, `str.split`, `str.lstrip/rstrip/strip` on `string` |
| `link_header.dfy` | `LinkHeader` | the next-link extraction of lines 48-55 |
| `catalog.dfy` | `Catalog` | products, variants, rows, and `parse_products` as a method with nested loops |
| `pagination.dfy` | `Pagination` | `fetch_products` as a method with a `while` loop, run against a finite sequence of responses |
| `exporter.dfy` | `Exporter` | the two guards of `main` |

How JSON is modelled. A JSON object field is an `Option<Value>`: `None` when
the key is absent and `Some(v)` when it is present. `v` may be `Null`, the JSON
`null`. This follows Python's `get(key, default)`, which returns the default
only for an absent key. So a variant whose `sku` is present but `null` gives a
row with `sku` equal to `Null`, not `""`: only an absent key takes the default.

How the network is modelled. The loop runs against `pages: seq<Response>`. The
i-th request the loop sends is answered by `pages[i]`. Each response carries a
status, an optional `products` list and an optional `Link` header. The model
also returns the requests sent (URL and parameters) and the reason the loop
stopped. That reason is one of: no next page, an HTTP error, or the supplied
responses running out. The last one exists only in the model: the real loop
would send another request.

Two quirks of the code are reproduced, not fixed:

- `strip("<>")` removes only angle brackets. The space after a comma is kept.
  An entry other than the first therefore keeps its leading space, and then its
  `<` too. Shopify's usual header on later pages is
  `<p>; rel="previous", <u>; rel="next"`. From it the script follows ` <u`,
  not `u`. `LinkHeader.FollowsLaterEntryVerbatim` proves this.
- `while url:` also stops on an empty extracted URL. The header `<>; rel="next"`
  ends the loop exactly as a missing link does. `Pagination.StopsAfterLastPage`
  covers both cases.

Order is kept throughout: products are returned in page order and, within a
page, in the order the response lists them (`Pagination.RunProducts`); rows
follow product order and, within a product, variant order (`Catalog.FlattenAt`).

## Model

| member | source | states |
|---|---|---|
| `Catalog.VariantsOf` | shopify_export.py:72 | a product's variant list, `get("variants", [])`: the empty list when the key is absent |
| `Catalog.MakeRow` | shopify_export.py:76-84 | the row of one variant: the product's `id`, `title`, `vendor`, `status` (`None` when absent) and the variant's `sku`, `price`, `inventory_quantity`, or `""`, `"0.00"`, `0` when absent; its fields are stated by `Catalog.FlattenAt` |
| `Catalog.ProductRows` | shopify_export.py:75-85 | the inner `for variant in variants` loop's rows: one `MakeRow` per variant of the product, in variant order, none when the product has no `variants` key |
| `Catalog.Flatten` | shopify_export.py:65-85 | the rows of all products, each product's rows after those of the products before it; the specification `Catalog.ParseProducts` is proved against |
| `Catalog.ParseProducts` | shopify_export.py:59-88 | the nested loops build exactly `Flatten(rawProducts)`: the rows of each product in turn, in product order, each product's rows in variant order |
| `Catalog.FlattenLength` | shopify_export.py:72-85 | the number of rows is the total number of variants over all products; a product without a `variants` key counts zero |
| `Catalog.FlattenAppend` | shopify_export.py:65-85 | flattening a concatenation of product lists is the concatenation of their flattenings (order preserved) |
| `Catalog.FlattenSplit` | shopify_export.py:65-85 | the rows of product i sit between the rows of the products before it and those after it |
| `Catalog.FlattenAt` | shopify_export.py:66-83 | the row of variant j of product i is at position (variants of products before i) + j; it carries that product's id, title, vendor and status (Python `None` when absent) and the variant's sku, price and quantity, or `""`, `"0.00"`, `0` when the key is absent |
| `Catalog.RowOrigin` | shopify_export.py:65-85 | every row is the row of one variant of one product, at that variant's position; nothing comes from anywhere else |
| `Catalog.Locate` | shopify_export.py:65-85 | every row position falls in the block of some product, at one of its variants |
| `Catalog.TotalMono` | shopify_export.py:65-85 | the number of rows built before product a is at most the number built before any later product b |
| `Catalog.LocateUnique` | shopify_export.py:65-85 | two (product, variant) pairs at the same row position are the same pair, so the block found by `Catalog.Locate` is the only one |
| `Catalog.Example` | shopify_export.py:76-84 | one product with a full variant and a variant with only a sku gives two rows, the second with price "0.00" and quantity 0 |
| `PyStr.Contains` | shopify_export.py:49 | `t in s` for strings, as a recursive search; `PyStr.ContainsAt` and `PyStr.ContainsWitness` prove it means "t occurs at some position of s" |
| `PyStr.ContainsAt` | shopify_export.py:49 | `t in s` holds when t occurs at some position of s |
| `PyStr.ContainsWitness` | shopify_export.py:49 | `t in s` holds only when t occurs at some position of s |
| `PyStr.Split` | shopify_export.py:51 | `str.split(sep)` gives at least one piece; the first piece is a prefix of the input; no piece contains the separator |
| `PyStr.SplitJoin` | shopify_export.py:51 | joining the pieces with the separator gives back the original string |
| `PyStr.JoinSplit` | shopify_export.py:51 | splitting a join of separator-free pieces gives back the pieces |
| `PyStr.SplitNoSep` | shopify_export.py:51 | a string without the separator splits into itself alone |
| `PyStr.SplitAfterSep` | shopify_export.py:51 | a separator-free head followed by the separator becomes the first piece, and the rest splits on its own |
| `PyStr.Before` | shopify_export.py:51 | `s.split(sep)[0]`, the first piece of the split; characterised by `PyStr.BeforeSpec` |
| `PyStr.BeforeSpec` | shopify_export.py:51 | `split(";")[0]` is the longest prefix free of ';': it ends at the end of the entry or just before its first ';' |
| `PyStr.TrimLeft` | shopify_export.py:51 | `lstrip(chars)` drops a leading run of chars and keeps the rest as a suffix, which then starts outside chars |
| `PyStr.TrimRight` | shopify_export.py:51 | `rstrip(chars)` drops a trailing run of chars and keeps the rest as a prefix, which then ends outside chars |
| `PyStr.Strip` | shopify_export.py:51 | `s.strip(chars)` as `rstrip` of `lstrip`; characterised by `PyStr.StripSpec` |
| `PyStr.StripSpec` | shopify_export.py:51 | `strip(chars)` yields a contiguous block of the input; everything outside it is in chars, and its end characters are not |
| `PyStr.StripBlock` | shopify_export.py:51 | proof step of `PyStr.StripSpec`: the stripped text is the contiguous block of the input that starts where the leading run of chars ends |
| `PyStr.StripTrailing` | shopify_export.py:51 | proof step of `PyStr.StripSpec`: every character after the stripped block is in chars |
| `PyStr.StripEnds` | shopify_export.py:51 | proof step of `PyStr.StripSpec`: the stripped text neither starts nor ends with a character of chars |
| `PyStr.KeepsLeadingOther` | shopify_export.py:51 | a first character outside chars, such as a space, survives `strip(chars)` |
| `LinkHeader.Target` | shopify_export.py:51 | the URL part of one entry, `link.split(";")[0].strip("<>")`; its shape is stated by `LinkHeader.TargetShape` |
| `LinkHeader.TargetShape` | shopify_export.py:51 | the URL taken from an entry holds no ';' and neither starts nor ends with '<' or '>' |
| `LinkHeader.NextTargets` | shopify_export.py:51 | the filter and map of the comprehension over a list of entries: the `Target` of each entry that mentions `rel="next"`, in entry order; never more targets than entries |
| `LinkHeader.FirstNext` | shopify_export.py:52 | `next_link[0] if next_link else None`, computed directly on the entries: the target of the first entry mentioning `rel="next"`, or None; shown equal to the head of `NextTargets` by `LinkHeader.FirstNextIsHead` |
| `LinkHeader.NextLinks` | shopify_export.py:51 | the comprehension `next_link`: the target of every comma-separated entry that mentions `rel="next"`, in header order; never more targets than entries |
| `LinkHeader.FollowNext` | shopify_export.py:48-55 | the next URL after a 200 page: None without `rel="next"` in the header, else the first element of `next_link`, or None if it is empty; characterised by `LinkHeader.NextIffMarker` and `LinkHeader.FollowsFirstNextEntry` |
| `LinkHeader.FirstNextIsHead` | shopify_export.py:51-52 | the URL chosen is the head of the comprehension's list of `rel="next"` targets, or None when that list is empty |
| `LinkHeader.FirstTarget` | shopify_export.py:51-52 | among the entries, the first one that mentions `rel="next"` supplies the URL; later ones are ignored |
| `LinkHeader.NoTarget` | shopify_export.py:51-52 | when no entry mentions `rel="next"`, the comprehension is empty and no URL is chosen |
| `LinkHeader.SomeTarget` | shopify_export.py:51-52 | when some entry mentions `rel="next"`, the comprehension is non-empty and a URL is chosen |
| `LinkHeader.ContainedInSomePiece` | shopify_export.py:49-51 | a comma-free marker found in the header is found in some comma-separated entry |
| `LinkHeader.PrefixOfFirstPiece` | shopify_export.py:51 | a separator-free prefix of a string is a prefix of its first piece |
| `LinkHeader.PieceContained` | shopify_export.py:49-51 | whatever an entry contains, the header contains |
| `LinkHeader.PieceOffset` | shopify_export.py:51 | each comma-separated entry is a contiguous block of the header |
| `LinkHeader.NextIffMarker` | shopify_export.py:49-55 | `FollowNext` returns a URL, possibly empty, exactly when the header contains `rel="next"`; then the comprehension's list is non-empty, and without the marker the next URL is None. The loop follows the URL only when it is non-empty (`Pagination.Truthy`) |
| `LinkHeader.FollowsFirstNextEntry` | shopify_export.py:49-52 | the followed URL is the first `rel="next"` entry's text before its first ';', with '<' and '>' stripped from both ends |
| `LinkHeader.NoNextEntry` | shopify_export.py:49-55 | a header none of whose entries mentions `rel="next"` yields no URL |
| `LinkHeader.TargetOfFirstEntry` | shopify_export.py:51 | a first entry `<u>;params` yields u itself |
| `LinkHeader.StripClosing` | shopify_export.py:51 | stripping `v>` removes only the '>' when v begins and ends outside the brackets |
| `LinkHeader.BeforeSemicolon` | shopify_export.py:51 | the text before the first ';' of `x;rest` is x when x has no ';' |
| `LinkHeader.TargetOfLaterEntry` | shopify_export.py:51 | an entry ` <u>;params` (after a comma) yields ` <u`: neither the space nor the '<' is removed |
| `LinkHeader.FollowsLaterEntryVerbatim` | shopify_export.py:49-52 | for `first, <u>;params` where only the second entry mentions `rel="next"`, the followed URL is ` <u` |
| `LinkHeader.LaterEntry` | shopify_export.py:51 | `first, <u>;params` splits on ',' into `first` and ` <u>;params`, and the second entry mentions `rel="next"` when params does |
| `LinkHeader.TwoPieces` | shopify_export.py:51 | two comma-free strings joined by ',' split back into the two |
| `LinkHeader.ContainedAfter` | shopify_export.py:49 | putting text in front of a string keeps every occurrence of a substring |
| `Pagination.Start` | shopify_export.py:19 | the first URL, `base_url + "/products.json"`: never empty, so the first request is always sent |
| `Pagination.Truthy` | shopify_export.py:33 | the loop condition `while url:` holds for a present, non-empty URL only |
| `Pagination.PageProducts` | shopify_export.py:42 | a page's products, `data.get("products", [])`: the empty list when the key is absent |
| `Pagination.LinkOf` | shopify_export.py:48 | the `Link` header, `headers.get("Link", "")`: a page without the header never mentions `rel="next"` |
| `Pagination.NextParams` | shopify_export.py:49-55 | the parameters after a 200 page: dropped (`params = None`) once the header mentions `rel="next"`, otherwise kept (the loop then ends); `Pagination.LimitOnFirstRequestOnly` states the consequence |
| `Pagination.Run` | shopify_export.py:33-55 | the loop as a function of the remaining responses: it never issues more requests than there are responses, it runs out only after using them all, and an error stop always follows a request |
| `Pagination.RunUnfold` | shopify_export.py:33-55 | proof step (an unfolding of `Run` used by `Pagination.FetchProducts`): after an accepted page, the page's products and its request come first, followed by the run from the next URL and parameters |
| `Pagination.RunStep` | shopify_export.py:33-55 | proof step for the loop invariant of `Pagination.FetchProducts`: one loop iteration on a 200 page moves that page's products (`extend`) and its request into the accumulated state |
| `Pagination.FetchProducts` | shopify_export.py:17-57 | the `while url:` loop returns exactly the products, requests and stop reason of `Run` from the products URL with `limit=250` |
| `Pagination.LimitOnFirstRequestOnly` | shopify_export.py:26-28 | the first request carries the starting parameters (`limit=250`) and every later request carries none |
| `Pagination.NoParamsAfter` | shopify_export.py:33-53 | once `params` is None, no later request carries parameters |
| `Pagination.StopsAtFirstError` | shopify_export.py:33-43 | if pages 0..e-1 are 200 with a next link and page e is not 200, exactly e+1 requests are made, the loop stops with that status, and the products of pages 0..e-1 are returned in page order |
| `Pagination.StopsAfterLastPage` | shopify_export.py:33-55 | if pages 0..k-2 are 200 with a next link and page k-1 is 200 without one, or with an empty one, exactly k requests are made and the products of all k pages are returned in page order |
| `Pagination.RunProducts` | shopify_export.py:33-43 | for any responses, every page accepted before the stop was a 200, an error stop carries the failing page's status, and the products returned are exactly those of the accepted pages, in order; a missing `products` key counts as empty |
| `Pagination.RunUrls` | shopify_export.py:33-53 | the first request goes to the starting URL, and each later request goes to the URL extracted from the previous page's Link header |
| `Exporter.BaseUrl` | shopify_export.py:15 | `https://{shop}.myshopify.com/admin/api/{version}`: it starts with `https://` and ends with the API version `2024-01` |
| `Exporter.Export` | shopify_export.py:120-141 | missing credentials means no fetch; otherwise an empty fetch means no file, and any other fetch, partial or complete, is written as its flattened rows |
| `Exporter.FirstPageOnly` | shopify_export.py:33-43 | an error on the second page after a good first page fetches only the first page's products |
| `Exporter.SecondPageError` | shopify_export.py:131-141 | in that case the rows exported are exactly the first page's rows |

## Left out

- HTTP itself is not modelled: `requests.get` and `response.json()` (lines 34 and 41). Responses are given as data, and a 200 response is a JSON object that may or may not have a `products` key. A body that is not JSON raises an exception at line 41, and a JSON body that is not an object (a list, say) raises an `AttributeError` at `data.get`, line 42; the model has neither kind of response.
- Request headers (access token and content type, lines 21-24) are not recorded, because they are the same on every request.
- What `requests` does with a URL such as ` <u` is not modelled. The model records the URL exactly as the script passes it.
- Termination against a server that always answers with a next link is not modelled. The response sequence is finite, and the model stops with `OutOfResponses` when it is used up.
- `products` and `variants` are modelled as lists, absent or present; any other value is not modelled. In the script such values behave differently from one another:
  - `null` or a non-iterable scalar (a number, a boolean) raises a `TypeError`, at `extend` (line 43) for `products` and at `for variant in variants` (line 75) for `variants`.
  - An empty string or an empty object adds nothing and raises nothing: no products at line 43, no rows at line 75.
  - A non-empty string under `products` adds its characters at line 43, and `parse_products` then raises an `AttributeError` at `product.get` (line 66); a non-empty object adds its keys, with the same result.
  - A non-empty string or object under `variants` iterates over characters or keys and raises an `AttributeError` at `variant.get` (line 80).
- An element of `products` or `variants` that is not an object (`null`, a number, a string) is not modelled: the script raises an `AttributeError` at `product.get` (line 66) or `variant.get` (line 80).
- JSON values are limited to null, booleans, integers and strings. Floating-point numbers, nested objects and arrays are not modelled; the fields copied here hold scalars.
- Environment loading (`load_dotenv`, `os.getenv`, lines 8-13) is not modelled. The shop name and token are parameters of `Exporter.Export`.
- `save_csv` (lines 90-118) is not modelled: creating the directory, opening the file and quoting the CSV. `Exporter.Export` returns the rows it would write.
- All console output (`print`) is left out.
