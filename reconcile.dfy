/** The reconciliation pass: every listing is paired with at most one catalog
    product, and the pairs are collected in a dictionary keyed by listing
    title. */
module Reconciliation {
  import opened Text
  import opened Catalog
  import opened Matcher

  /** The product one listing is paired with by the main loop over a catalog
      `ps`: resolve the manufacturer against the catalog's manufacturers, take
      that manufacturer's products, skip the listing when there are none, and
      otherwise ask for the best keyword match among them. */
  function ListingMatch(ps: seq<Product>, l: Listing): Option<Product>
  {
    var brand := ResolveBrand(Manufacturers(ps), l.title);
    var items := if brand.Some? then Bucket(ps, brand.value) else [];
    if items == [] then None else BestMatch(items, l)
  }

  /** A listing is paired with a product only when the product's manufacturer
      is the one catalog manufacturer that starts the title, the title carries
      the product's name keywords, and no other matching product of that
      manufacturer has a greater name. */
  lemma ListingMatchFound(ps: seq<Product>, l: Listing)
    requires ListingMatch(ps, l).Some?
    ensures var p := ListingMatch(ps, l).value;
      && p in ps
      && OnlyBrandStarting(Manufacturers(ps), l.title, p.manufacturer)
      && NameMatches(p, l)
      && forall q :: q in ps && q.manufacturer == p.manufacturer && NameMatches(q, l) ==>
           LexLe(q.productName, p.productName)
  {
    var brand := ResolveBrand(Manufacturers(ps), l.title);
    ResolveBrandUnique(Manufacturers(ps), l.title);
    var items := Bucket(ps, brand.value);
    BestMatchFound(items, l);
  }

  /** None of the products of manufacturer `b` in `ps` has its name keywords
      in the listing's title. */
  ghost predicate NoneMatchUnder(ps: seq<Product>, b: string, l: Listing)
  {
    forall q :: q in ps && q.manufacturer == b ==> !NameMatches(q, l)
  }

  /** A listing is left unpaired exactly when no catalog manufacturer alone
      starts its title, or when none of that manufacturer's products has its
      name keywords in the title. */
  lemma ListingMatchNone(ps: seq<Product>, l: Listing)
    ensures ListingMatch(ps, l).None? <==>
      forall b :: OnlyBrandStarting(Manufacturers(ps), l.title, b) ==> NoneMatchUnder(ps, b, l)
  {
    var brand := ResolveBrand(Manufacturers(ps), l.title);
    ResolveBrandUnique(Manufacturers(ps), l.title);
    if brand.Some? {
      var b := brand.value;
      var items := Bucket(ps, b);
      assert ListingMatch(ps, l).None? <==> NoneMatchUnder(ps, b, l) by {
        assert ListingMatch(ps, l) == if items == [] then None else BestMatch(items, l);
        BestMatchNone(items, l);
      }
      assert OnlyBrandStarting(Manufacturers(ps), l.title, b);
      assert forall b' :: OnlyBrandStarting(Manufacturers(ps), l.title, b') ==> b' == b;
    }
  }

  /** The pairing the main loop applies to each listing of a catalog `ps`. */
  function PairingFor(ps: seq<Product>): Listing -> Option<Product>
  {
    l => ListingMatch(ps, l)
  }

  /** The dictionary the main loop builds from the listings `ls`: one entry per
      listing that `pairing` pairs with a product, keyed by its title, a later
      listing overwriting an earlier one with the same title. */
  function Reconciled(ls: seq<Listing>, pairing: Listing -> Option<Product>): map<string, Product>
    decreases |ls|
  {
    if ls == [] then map[]
    else
      var matches := Reconciled(ls[..|ls| - 1], pairing);
      var l := ls[|ls| - 1];
      match pairing(l)
      case None => matches
      case Some(p) => matches[l.title := p]
  }

  /** The listing of `ls` at index `i` is the last one titled `t` that
      `pairing` pairs with a product. */
  ghost predicate LastPairedWithTitle(ls: seq<Listing>, pairing: Listing -> Option<Product>, t: string, i: int)
  {
    && 0 <= i < |ls|
    && ls[i].title == t
    && pairing(ls[i]).Some?
    && forall j :: i < j < |ls| && ls[j].title == t ==> pairing(ls[j]).None?
  }

  /** The dictionary has an entry for a title exactly when some listing with
      that title is paired. */
  lemma {:induction false} ReconciledKeys(ls: seq<Listing>, pairing: Listing -> Option<Product>)
    ensures forall t :: t in Reconciled(ls, pairing) <==>
      exists i :: 0 <= i < |ls| && ls[i].title == t && pairing(ls[i]).Some?
    decreases |ls|
  {
    if ls != [] {
      var init, n := ls[..|ls| - 1], |ls| - 1;
      ReconciledKeys(init, pairing);
      forall t
        ensures t in Reconciled(ls, pairing) <==>
          exists i :: 0 <= i < |ls| && ls[i].title == t && pairing(ls[i]).Some?
      {
        if i :| 0 <= i < n && init[i].title == t && pairing(init[i]).Some? {
          assert ls[i] == init[i];
        }
        if i :| 0 <= i < n && ls[i].title == t && pairing(ls[i]).Some? {
          assert init[i] == ls[i];
        }
      }
    }
  }

  /** The entry for a title holds the product paired with the last listing of
      that title that is paired at all. */
  lemma {:induction false} ReconciledValues(ls: seq<Listing>, pairing: Listing -> Option<Product>)
    ensures forall t :: t in Reconciled(ls, pairing) ==>
      exists i :: LastPairedWithTitle(ls, pairing, t, i) && pairing(ls[i]) == Some(Reconciled(ls, pairing)[t])
    decreases |ls|
  {
    if ls != [] {
      var init, l, n := ls[..|ls| - 1], ls[|ls| - 1], |ls| - 1;
      ReconciledValues(init, pairing);
      var before, after := Reconciled(init, pairing), Reconciled(ls, pairing);
      forall t | t in after
        ensures exists i :: LastPairedWithTitle(ls, pairing, t, i) && pairing(ls[i]) == Some(after[t])
      {
        if pairing(l).Some? && l.title == t {
          assert LastPairedWithTitle(ls, pairing, t, n);
        } else {
          var i :| LastPairedWithTitle(init, pairing, t, i) && pairing(init[i]) == Some(before[t]);
          assert ls[i] == init[i];
          assert LastPairedWithTitle(ls, pairing, t, i);
        }
      }
    }
  }

  /** The main loop of the program: builds the inventory, then for every
      listing resolves its manufacturer among the inventory's keys (in their
      insertion order), fetches that manufacturer's products, skips the
      listing when there are none, and records the best keyword match under
      the listing's title. */
  method Reconcile(products: seq<Product>, listings: seq<Listing>) returns (matches: map<string, Product>)
    ensures matches == Reconciled(listings, PairingFor(products))
  {
    matches := map[];
    var inventory := new Inventory(products);
    for i := 0 to |listings|
      invariant inventory.Valid() && inventory.productList == products
      invariant matches == Reconciled(listings[..i], PairingFor(products))
    {
      var listing := listings[i];
      assert listings[..i + 1][..i] == listings[..i];
      var invManufacturers := inventory.manufacturerOrder;
      var listingManufacturer := ManufacturerMatch(invManufacturers, listing);
      var potentialItems := inventory.ItemsByManufacturer(listingManufacturer);
      if potentialItems == [] {
        continue;
      }
      var matchedItem := FindMatch(potentialItems, listing);
      if matchedItem.Some? {
        matches := matches[listing.title := matchedItem.value];
      }
    }
    assert listings[..|listings|] == listings;
  }
}
