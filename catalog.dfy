/** The catalog side of the matcher: products, listings, and the inventory
    that indexes products by manufacturer. */
module Catalog {
  import opened Text

  datatype Option<+T> = None | Some(value: T)

  /** A catalog product. `family` is optional in the catalog feed. */
  datatype Product = Product(
    manufacturer: string,
    model: string,
    productName: string,
    announcedDate: string,
    family: Option<string>)

  /** A marketplace listing. Only `title` takes part in matching; the
      self-reported `manufacturer`, `currency` and `price` are carried along
      unread (`price` is kept as the feed's text). */
  datatype Listing = Listing(
    title: string,
    manufacturer: string,
    currency: string,
    price: string)

  /** The products of `ps` whose manufacturer is exactly `m`, in catalog order:
      the bucket the inventory keeps under key `m`. */
  function Bucket(ps: seq<Product>, m: string): (r: seq<Product>)
    ensures |r| <= |ps|
    ensures forall p :: p in r <==> p in ps && p.manufacturer == m
  {
    if ps == [] then []
    else (if ps[0].manufacturer == m then [ps[0]] else []) + Bucket(ps[1..], m)
  }

  /** Adding a product extends its own bucket at the end and leaves every
      other bucket as it was. */
  lemma {:induction false} BucketAppend(ps: seq<Product>, p: Product, m: string)
    ensures Bucket(ps + [p], m) == Bucket(ps, m) + (if p.manufacturer == m then [p] else [])
  {
    if ps != [] {
      assert (ps + [p])[1..] == ps[1..] + [p];
      BucketAppend(ps[1..], p, m);
    }
  }

  /** The distinct manufacturers of `ps` in order of first appearance: the
      keys of a dictionary filled by appending `ps` one product at a time,
      in the dictionary's (insertion) order. */
  function Manufacturers(ps: seq<Product>): (r: seq<string>)
    ensures Distinct(r)
    ensures forall m :: m in r <==> exists p :: p in ps && p.manufacturer == m
    decreases |ps|
  {
    if ps == [] then []
    else
      var init := ps[..|ps| - 1];
      var known := Manufacturers(init);
      var m := ps[|ps| - 1].manufacturer;
      assert ps == init + [ps[|ps| - 1]];
      if m in known then known else known + [m]
  }

  /** The sum of the bucket sizes of `ps` over the keys `ks`. */
  function BucketSizes(ps: seq<Product>, ks: seq<string>): nat
  {
    if ks == [] then 0
    else BucketSizes(ps, ks[..|ks| - 1]) + |Bucket(ps, ks[|ks| - 1])|
  }

  lemma {:induction false} BucketSizesAppend(ps: seq<Product>, p: Product, ks: seq<string>)
    requires Distinct(ks)
    ensures BucketSizes(ps + [p], ks) == BucketSizes(ps, ks) + (if p.manufacturer in ks then 1 else 0)
    decreases |ks|
  {
    if ks != [] {
      var init, k := ks[..|ks| - 1], ks[|ks| - 1];
      assert ks == init + [k];
      BucketSizesAppend(ps, p, init);
      BucketAppend(ps, p, k);
    }
  }

  lemma {:induction false} BucketOfNone(ps: seq<Product>, m: string)
    requires forall p :: p in ps ==> p.manufacturer != m
    ensures Bucket(ps, m) == []
  {
    if ps != [] {
      assert ps[0] in ps;
      BucketOfNone(ps[1..], m);
    }
  }

  /** A manufacturer that no product names has an empty bucket. */
  lemma BucketOfUnknown(ps: seq<Product>, m: string)
    requires m !in Manufacturers(ps)
    ensures Bucket(ps, m) == []
  {
    BucketOfNone(ps, m);
  }

  /** The buckets partition the catalog: a product sits only in the bucket of
      its own manufacturer (the contract of `Bucket`), and over all keys the
      bucket sizes add up to the number of products. */
  lemma {:induction false} BucketsPartitionCatalog(ps: seq<Product>)
    ensures BucketSizes(ps, Manufacturers(ps)) == |ps|
    decreases |ps|
  {
    if ps != [] {
      var init, p := ps[..|ps| - 1], ps[|ps| - 1];
      assert ps == init + [p];
      BucketsPartitionCatalog(init);
      var known := Manufacturers(init);
      BucketSizesAppend(init, p, known);
      if p.manufacturer !in known {
        BucketAppend(init, p, p.manufacturer);
        BucketOfUnknown(init, p.manufacturer);
        assert (known + [p.manufacturer])[..|known|] == known;
      }
    }
  }

  /** The per-manufacturer index built by adding the products of `ps` one at a
      time: each product is appended to the bucket under its manufacturer,
      which is created when missing. */
  function IndexOf(ps: seq<Product>): map<string, seq<Product>>
    decreases |ps|
  {
    if ps == [] then map[]
    else
      var index := IndexOf(ps[..|ps| - 1]);
      var p := ps[|ps| - 1];
      var m := p.manufacturer;
      index[m := (if m in index then index[m] else []) + [p]]
  }

  /** The index has a key for exactly the manufacturers of the catalog, and
      under each key exactly that manufacturer's bucket, in catalog order. */
  lemma {:induction false} IndexHoldsBuckets(ps: seq<Product>)
    ensures forall m :: m in IndexOf(ps) <==> m in Manufacturers(ps)
    ensures forall m :: m in IndexOf(ps) ==> IndexOf(ps)[m] == Bucket(ps, m)
    decreases |ps|
  {
    if ps != [] {
      var init, p := ps[..|ps| - 1], ps[|ps| - 1];
      assert ps == init + [p];
      IndexHoldsBuckets(init);
      if p.manufacturer !in IndexOf(init) {
        BucketOfUnknown(init, p.manufacturer);
      }
      forall m | m in IndexOf(ps)
        ensures IndexOf(ps)[m] == Bucket(ps, m)
      {
        BucketAppend(init, p, m);
      }
    }
  }

  /** Adding a product extends the bucket of its manufacturer, created empty
      when missing, and leaves every other key and bucket as it was. */
  lemma AddToIndex(ps: seq<Product>, p: Product)
    ensures IndexOf(ps + [p]) == IndexOf(ps)[p.manufacturer := Bucket(ps, p.manufacturer) + [p]]
  {
    assert (ps + [p])[..|ps|] == ps;
    IndexHoldsBuckets(ps);
    if p.manufacturer !in IndexOf(ps) {
      BucketOfUnknown(ps, p.manufacturer);
    }
  }

  /** Adding a product appends its manufacturer to the key order when the
      manufacturer is new, and leaves the order as it was otherwise. */
  lemma AddToOrder(ps: seq<Product>, p: Product)
    ensures Manufacturers(ps + [p]) ==
      Manufacturers(ps) + (if p.manufacturer in Manufacturers(ps) then [] else [p.manufacturer])
  {
    assert (ps + [p])[..|ps|] == ps;
  }

  /** The product catalog with its per-manufacturer index.

      `manufacturerIndex` maps a manufacturer to its products in insertion
      order; `manufacturerOrder` lists the index's keys in the order they were
      inserted, which is the order in which the dictionary yields them. */
  class Inventory {
    var productList: seq<Product>
    var manufacturerIndex: map<string, seq<Product>>
    var manufacturerOrder: seq<string>

    /** The index and its key order are those that adding `productList`
        product by product builds. */
    ghost predicate Valid()
      reads this
    {
      && manufacturerIndex == IndexOf(productList)
      && manufacturerOrder == Manufacturers(productList)
    }

    /** `Inventory(product_list)`: an empty inventory to which every product is
        added in turn. A missing list behaves as an empty one. */
    constructor (products: seq<Product>)
      ensures Valid()
      ensures productList == products
    {
      productList := [];
      manufacturerIndex := map[];
      manufacturerOrder := [];
      new;
      for i := 0 to |products|
        invariant Valid()
        invariant productList == products[..i]
      {
        AddProduct(products[i]);
        assert products[..i + 1] == products[..i] + [products[i]];
      }
    }

    /** The products added under exactly the key `m`, in insertion order; the
        empty sequence for an unknown key or for no key at all. */
    function ItemsByManufacturer(m: Option<string>): (r: seq<Product>)
      reads this
      requires Valid()
      ensures forall p :: p in r <==> m.Some? && p in productList && p.manufacturer == m.value
      ensures m.Some? ==> r == Bucket(productList, m.value)
      ensures m.None? || m.value !in manufacturerIndex ==> r == []
    {
      IndexHoldsBuckets(productList);
      if m.Some? && m.value in manufacturerIndex then manufacturerIndex[m.value]
      else if m.Some? then BucketOfUnknown(productList, m.value); []
      else []
    }

    /** Appends `p` to the catalog and to the bucket of its manufacturer,
        creating that bucket (and its key) when the manufacturer is new;
        every other bucket is left as it was. */
    method AddProduct(p: Product)
      requires Valid()
      modifies this
      ensures Valid()
      ensures productList == old(productList) + [p]
      ensures manufacturerIndex == old(manufacturerIndex)[p.manufacturer :=
        (if p.manufacturer in old(manufacturerIndex) then old(manufacturerIndex)[p.manufacturer] else []) + [p]]
      ensures manufacturerOrder == old(manufacturerOrder) +
        (if p.manufacturer in old(manufacturerIndex) then [] else [p.manufacturer])
    {
      var m := p.manufacturer;
      ghost var before := productList;
      IndexHoldsBuckets(before);
      AddToIndex(before, p);
      AddToOrder(before, p);
      var bucket := [];
      if m in manufacturerIndex {
        bucket := manufacturerIndex[m];
      } else {
        BucketOfUnknown(before, m);
        manufacturerOrder := manufacturerOrder + [m];
      }
      manufacturerIndex := manufacturerIndex[m := bucket + [p]];
      productList := productList + [p];
    }
  }
}
