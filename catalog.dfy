/**
 * Products as the store API returns them, and their flattening into one
 * export row per variant (`parse_products`).
 *
 * A JSON object field is an `Option<Value>`: None when the key is absent,
 * Some(v) when present, even when v is the JSON null.
 */
module Catalog {
  import opened Wrappers

  /** The scalar JSON values the exporter copies (Python None is Null). */
  datatype Value = Null | Bool(b: bool) | Int(i: int) | Str(s: string)

  datatype Variant = Variant(sku: Option<Value>, price: Option<Value>, inventoryQuantity: Option<Value>)

  datatype Product = Product(
    id: Option<Value>,
    title: Option<Value>,
    vendor: Option<Value>,
    status: Option<Value>,
    variants: Option<seq<Variant>>)

  /** One output row, its fields in the order of the CSV header. */
  datatype Row = Row(
    productId: Value,
    title: Value,
    vendor: Value,
    sku: Value,
    price: Value,
    inventoryQuantity: Value,
    status: Value)

  const DefaultSku: Value := Str("")
  const DefaultPrice: Value := Str("0.00")
  const DefaultInventory: Value := Int(0)

  /** `product.get("variants", [])`. */
  function VariantsOf(p: Product): seq<Variant> {
    p.variants.GetOr([])
  }

  /** The row built for variant v of product p. */
  function MakeRow(p: Product, v: Variant): Row {
    Row(
      p.id.GetOr(Null),
      p.title.GetOr(Null),
      p.vendor.GetOr(Null),
      v.sku.GetOr(DefaultSku),
      v.price.GetOr(DefaultPrice),
      v.inventoryQuantity.GetOr(DefaultInventory),
      p.status.GetOr(Null))
  }

  /** The rows of one product, in variant order. */
  function ProductRows(p: Product): seq<Row> {
    var vs := VariantsOf(p);
    seq(|vs|, j requires 0 <= j < |vs| => MakeRow(p, vs[j]))
  }

  /** All rows: those of each product in turn, in product order. */
  function Flatten(ps: seq<Product>): seq<Row> {
    if ps == [] then [] else Flatten(ps[..|ps| - 1]) + ProductRows(ps[|ps| - 1])
  }

  /** The number of variants over all products, a missing list counting as none. */
  function TotalVariants(ps: seq<Product>): nat {
    if ps == [] then 0 else TotalVariants(ps[..|ps| - 1]) + |VariantsOf(ps[|ps| - 1])|
  }

  /** `parse_products`: the nested loops that append one row per variant. */
  method ParseProducts(rawProducts: seq<Product>) returns (rows: seq<Row>)
    ensures rows == Flatten(rawProducts)
  {
    rows := [];
    for i := 0 to |rawProducts|
      invariant rows == Flatten(rawProducts[..i])
    {
      var product := rawProducts[i];
      var variants := VariantsOf(product);
      for j := 0 to |variants|
        invariant rows == Flatten(rawProducts[..i]) + ProductRows(product)[..j]
      {
        rows := rows + [MakeRow(product, variants[j])];
      }
      assert rawProducts[..i + 1][..i] == rawProducts[..i];
      assert ProductRows(product)[..|variants|] == ProductRows(product);
    }
    assert rawProducts[..|rawProducts|] == rawProducts;
  }

  /** Row count: one row per variant. */
  lemma {:induction false} FlattenLength(ps: seq<Product>)
    ensures |Flatten(ps)| == TotalVariants(ps)
    decreases |ps|
  {
    if ps != [] {
      FlattenLength(ps[..|ps| - 1]);
    }
  }

  /** Flattening distributes over concatenation of product lists. */
  lemma {:induction false} FlattenAppend(a: seq<Product>, b: seq<Product>)
    ensures Flatten(a + b) == Flatten(a) + Flatten(b)
    decreases |b|
  {
    if b == [] {
      assert a + b == a;
    } else {
      var b', last := b[..|b| - 1], b[|b| - 1];
      var ab := a + b;
      assert ab != [];
      assert ab[..|ab| - 1] == a + b' && ab[|ab| - 1] == last;
      FlattenAppend(a, b');
      calc {
        Flatten(ab);
        Flatten(a + b') + ProductRows(last);
        Flatten(a) + Flatten(b') + ProductRows(last);
        Flatten(a) + Flatten(b);
      }
    }
  }

  /**
   * Order preservation and defaults: the row of variant j of product i sits
   * at position TotalVariants(ps[..i]) + j, carries that product's id, title,
   * vendor and status, and takes that variant's sku, price and quantity, or
   * "", "0.00" and 0 when the key is absent.
   */
  lemma FlattenAt(ps: seq<Product>, i: nat, j: nat)
    requires i < |ps| && j < |VariantsOf(ps[i])|
    ensures TotalVariants(ps[..i]) + j < |Flatten(ps)|
    ensures var r := Flatten(ps)[TotalVariants(ps[..i]) + j];
      var p, v := ps[i], VariantsOf(ps[i])[j];
      && r.productId == (if p.id.Some? then p.id.value else Null)
      && r.title == (if p.title.Some? then p.title.value else Null)
      && r.vendor == (if p.vendor.Some? then p.vendor.value else Null)
      && r.status == (if p.status.Some? then p.status.value else Null)
      && r.sku == (if v.sku.Some? then v.sku.value else Str(""))
      && r.price == (if v.price.Some? then v.price.value else Str("0.00"))
      && r.inventoryQuantity == (if v.inventoryQuantity.Some? then v.inventoryQuantity.value else Int(0))
  {
    FlattenSplit(ps, i);
  }

  /** The rows of product i sit between those of the products before and after it. */
  lemma FlattenSplit(ps: seq<Product>, i: nat)
    requires i < |ps|
    ensures Flatten(ps) == Flatten(ps[..i]) + ProductRows(ps[i]) + Flatten(ps[i + 1..])
    ensures |Flatten(ps[..i])| == TotalVariants(ps[..i])
  {
    assert ps == ps[..i] + [ps[i]] + ps[i + 1..];
    FlattenAppend(ps[..i] + [ps[i]], ps[i + 1..]);
    FlattenAppend(ps[..i], [ps[i]]);
    FlattenLength(ps[..i]);
    assert Flatten([ps[i]]) == ProductRows(ps[i]) by {
      assert [ps[i]][..0] == [];
    }
  }

  /** Nothing leaks between products: every row is the row of one variant of one product. */
  lemma RowOrigin(ps: seq<Product>, k: nat) returns (i: nat, j: nat)
    requires k < |Flatten(ps)|
    ensures i < |ps| && j < |VariantsOf(ps[i])| && k == TotalVariants(ps[..i]) + j
    ensures Flatten(ps)[k] == MakeRow(ps[i], VariantsOf(ps[i])[j])
  {
    i, j := Locate(ps, k);
    FlattenSplit(ps, i);
  }

  /** Position k of the flattened list falls in the rows of some product, at one of its variants. */
  lemma {:induction false} Locate(ps: seq<Product>, k: nat) returns (i: nat, j: nat)
    requires k < |Flatten(ps)|
    ensures i < |ps| && j < |VariantsOf(ps[i])| && k == TotalVariants(ps[..i]) + j
    decreases |ps|
  {
    var init := ps[..|ps| - 1];
    FlattenLength(init);
    FlattenLength(ps);
    if k < TotalVariants(init) {
      i, j := Locate(init, k);
      assert ps[..i] == init[..i];
    } else {
      i, j := |ps| - 1, k - TotalVariants(init);
      assert ps[..i] == init;
    }
  }

  /** One more product adds its variants to the running total. */
  lemma TotalNext(ps: seq<Product>, i: nat)
    requires i < |ps|
    ensures TotalVariants(ps[..i + 1]) == TotalVariants(ps[..i]) + |VariantsOf(ps[i])|
  {
    assert ps[..i + 1][..i] == ps[..i];
  }

  /** The running total never decreases along the product list. */
  lemma {:induction false} TotalMono(ps: seq<Product>, a: nat, b: nat)
    requires a <= b <= |ps|
    ensures TotalVariants(ps[..a]) <= TotalVariants(ps[..b])
    decreases b - a
  {
    if a < b {
      TotalNext(ps, a);
      TotalMono(ps, a + 1, b);
    }
  }

  /** Distinct (product, variant) pairs occupy distinct positions: the block found by Locate is the only one. */
  lemma LocateUnique(ps: seq<Product>, i: nat, j: nat, i': nat, j': nat)
    requires i < |ps| && j < |VariantsOf(ps[i])| && i' < |ps| && j' < |VariantsOf(ps[i'])|
    requires TotalVariants(ps[..i]) + j == TotalVariants(ps[..i']) + j'
    ensures i == i' && j == j'
  {
    if i < i' {
      TotalNext(ps, i);
      TotalMono(ps, i + 1, i');
    } else if i' < i {
      TotalNext(ps, i');
      TotalMono(ps, i' + 1, i);
    }
  }

  /** The single-product example: a full variant and one with only a sku. */
  lemma Example()
    ensures Flatten([Product(Some(Int(1)), Some(Str("T")), Some(Str("V")), Some(Str("active")),
                             Some([Variant(Some(Str("A")), Some(Str("9.99")), Some(Int(5))),
                                   Variant(Some(Str("B")), None, None)]))])
         == [Row(Int(1), Str("T"), Str("V"), Str("A"), Str("9.99"), Int(5), Str("active")),
             Row(Int(1), Str("T"), Str("V"), Str("B"), Str("0.00"), Int(0), Str("active"))]
  {
    var p := Product(Some(Int(1)), Some(Str("T")), Some(Str("V")), Some(Str("active")),
                     Some([Variant(Some(Str("A")), Some(Str("9.99")), Some(Int(5))),
                           Variant(Some(Str("B")), None, None)]));
    assert [p][..0] == [];
  }
}
