/** The three matching rules: which manufacturer a listing title names, whether
    a title carries a product's name keywords, and which of several candidate
    products fits a listing best. */
module Matcher {
  import opened Text
  import opened Catalog

  // ---------------------------------------------------------------------------
  // Manufacturer resolution (`manufacturer_match`)

  /** The entries of `brands` (repeats kept, order kept) that `title` starts
      with, ignoring case. */
  function PrefixingBrands(brands: seq<string>, title: string): (r: seq<string>)
    ensures |r| <= |brands|
    ensures forall b :: b in r <==> b in brands && StartsWithI(b, title)
  {
    if brands == [] then []
    else (if StartsWithI(brands[0], title) then [brands[0]] else []) + PrefixingBrands(brands[1..], title)
  }

  lemma {:induction false} PrefixingBrandsAppend(brands: seq<string>, b: string, title: string)
    ensures PrefixingBrands(brands + [b], title)
         == PrefixingBrands(brands, title) + (if StartsWithI(b, title) then [b] else [])
  {
    if brands != [] {
      assert (brands + [b])[1..] == brands[1..] + [b];
      PrefixingBrandsAppend(brands[1..], b, title);
    }
  }

  /** The manufacturer a title names: the brand found when exactly one entry of
      `brands` starts the title; nothing when none or several do. */
  function ResolveBrand(brands: seq<string>, title: string): Option<string>
  {
    var found := PrefixingBrands(brands, title);
    if |found| == 1 then Some(found[0]) else None
  }

  /** `b` is the one and only brand of `brands` that starts `title`. */
  ghost predicate OnlyBrandStarting(brands: seq<string>, title: string, b: string)
  {
    && b in brands
    && StartsWithI(b, title)
    && forall b' :: b' in brands && StartsWithI(b', title) ==> b' == b
  }

  lemma {:induction false} PrefixingBrandsNone(brands: seq<string>, title: string)
    requires forall b :: b in brands ==> !StartsWithI(b, title)
    ensures PrefixingBrands(brands, title) == []
  {
    if brands != [] {
      PrefixingBrandsNone(brands[1..], title);
    }
  }

  /** When `b` is the only one of the distinct `brands` that starts the
      title, it is all that the collection step finds. */
  lemma {:induction false} PrefixingBrandsSingle(brands: seq<string>, title: string, b: string)
    requires Distinct(brands)
    requires OnlyBrandStarting(brands, title, b)
    ensures PrefixingBrands(brands, title) == [b]
  {
    var rest := brands[1..];
    if brands[0] == b {
      forall x | x in rest
        ensures !StartsWithI(x, title)
      {
        var k :| 0 <= k < |rest| && rest[k] == x;
        assert brands[k + 1] != brands[0];
      }
      PrefixingBrandsNone(rest, title);
    } else {
      assert b in rest;
      PrefixingBrandsSingle(rest, title, b);
    }
  }

  /** Over distinct brand names (the keys of the inventory), a brand is
      resolved exactly when it is the only one starting the title; ambiguity
      and absence both resolve to nothing. */
  lemma ResolveBrandUnique(brands: seq<string>, title: string)
    requires Distinct(brands)
    ensures forall b :: ResolveBrand(brands, title) == Some(b) <==> OnlyBrandStarting(brands, title, b)
    ensures ResolveBrand(brands, title).None? <==> forall b :: !OnlyBrandStarting(brands, title, b)
  {
    var found := PrefixingBrands(brands, title);
    if |found| == 1 {
      assert found == [found[0]];
      assert found[0] in found;
    }
    forall b | OnlyBrandStarting(brands, title, b)
      ensures found == [b]
    {
      PrefixingBrandsSingle(brands, title, b);
    }
  }

  /** `manufacturer_match`: collects, in order, every brand whose pattern
      matches at the start of the title, and answers the brand only when there
      is exactly one. */
  method ManufacturerMatch(manufacturers: seq<string>, listing: Listing) returns (r: Option<string>)
    ensures r == ResolveBrand(manufacturers, listing.title)
    ensures r.Some? ==> r.value in manufacturers && StartsWithI(r.value, listing.title)
    ensures r.Some? ==> forall b :: b in manufacturers && StartsWithI(b, listing.title) ==> b == r.value
  {
    var matched: seq<string> := [];
    for i := 0 to |manufacturers|
      invariant matched == PrefixingBrands(manufacturers[..i], listing.title)
    {
      PrefixingBrandsAppend(manufacturers[..i], manufacturers[i], listing.title);
      assert manufacturers[..i + 1] == manufacturers[..i] + [manufacturers[i]];
      if StartsWithI(manufacturers[i], listing.title) {
        matched := matched + [manufacturers[i]];
      }
    }
    assert manufacturers[..|manufacturers|] == manufacturers;
    if |matched| == 1 {
      assert matched[0] in matched;
      r := Some(matched[0]);
    } else {
      r := None;
    }
  }

  // ---------------------------------------------------------------------------
  // Product-name keywords (`product_name_match`)

  /** The upper-cased keywords of a product name. */
  function Keywords(productName: string): (r: seq<string>)
    ensures |r| == SeparatorCount(productName) + 1
  {
    var words := SplitKeywords(productName);
    seq(|words|, i requires 0 <= i < |words| => UpperString(words[i]))
  }

  /** The keywords of a name joined from separator-free words are those
      words, upper-cased. */
  lemma KeywordsOfJoin(ws: seq<string>)
    requires |ws| >= 1
    requires forall i, k :: 0 <= i < |ws| && 0 <= k < |ws[i]| ==> !IsSeparator(ws[i][k])
    ensures |Keywords(Join(ws, '_'))| == |ws|
    ensures forall i :: 0 <= i < |ws| ==> Keywords(Join(ws, '_'))[i] == UpperString(ws[i])
  {
    JoinSplit(ws);
  }

  /** The pattern `(K1){1}.*(K2){1}.*…` for `kws` matches `t` from position
      `from` on: the first keyword occurs at some position reachable from
      `from` by `.*`, and the rest match from the end of that occurrence.
      The existential is the regular-expression engine's backtracking. */
  predicate MatchesFrom(kws: seq<string>, t: string, from: nat)
    requires from <= |t|
    decreases |kws|
  {
    kws == [] ||
    exists q | from <= q <= |t| ::
      && GapWithoutBreak(t, from, q)
      && OccursAtI(kws[0], t, q)
      && MatchesFrom(kws[1..], t, q + |kws[0]|)
  }

  /** The keyword pattern matched with `re.match`: anchored at the start of
      `t`, with nothing required after the last keyword. */
  predicate PatternMatches(kws: seq<string>, t: string)
  {
    kws == [] || (OccursAtI(kws[0], t, 0) && MatchesFrom(kws[1..], t, |kws[0]|))
  }

  /** `pos` places the keywords in `t` from `from` on: keyword `k` occurs at
      `pos[k]`, and the text before it, back to `from` for the first keyword
      and to the end of keyword `k - 1` otherwise, holds no line break. */
  ghost predicate PlacedFrom(kws: seq<string>, t: string, from: nat, pos: seq<nat>)
  {
    && |pos| == |kws|
    && (forall k :: 0 <= k < |kws| ==> OccursAtI(kws[k], t, pos[k]))
    && (|kws| > 0 ==> GapWithoutBreak(t, from, pos[0]))
    && (forall k :: 0 < k < |kws| ==> GapWithoutBreak(t, pos[k - 1] + |kws[k - 1]|, pos[k]))
  }

  /** A placement of the keywords with the first one at the very start. */
  ghost predicate Placement(kws: seq<string>, t: string, pos: seq<nat>)
  {
    PlacedFrom(kws, t, 0, pos) && (|kws| > 0 ==> pos[0] == 0)
  }

  lemma PlacedCons(kws: seq<string>, t: string, from: nat, q: nat, rest: seq<nat>)
    requires kws != []
    requires GapWithoutBreak(t, from, q) && OccursAtI(kws[0], t, q)
    requires PlacedFrom(kws[1..], t, q + |kws[0]|, rest)
    ensures PlacedFrom(kws, t, from, [q] + rest)
  {
    var pos := [q] + rest;
    forall k | 1 <= k < |kws|
      ensures OccursAtI(kws[k], t, pos[k])
      ensures GapWithoutBreak(t, pos[k - 1] + |kws[k - 1]|, pos[k])
    {
      assert kws[k] == kws[1..][k - 1] && pos[k] == rest[k - 1];
      assert OccursAtI(kws[1..][k - 1], t, rest[k - 1]);
      if k > 1 {
        assert kws[k - 1] == kws[1..][k - 2] && pos[k - 1] == rest[k - 2];
        assert GapWithoutBreak(t, rest[k - 2] + |kws[1..][k - 2]|, rest[k - 1]);
      }
    }
  }

  lemma PlacedTail(kws: seq<string>, t: string, from: nat, pos: seq<nat>)
    requires kws != []
    requires PlacedFrom(kws, t, from, pos)
    ensures pos[0] + |kws[0]| <= |t|
    ensures PlacedFrom(kws[1..], t, pos[0] + |kws[0]|, pos[1..])
  {
    assert OccursAtI(kws[0], t, pos[0]);
    forall k | 0 <= k < |kws| - 1
      ensures OccursAtI(kws[1..][k], t, pos[1..][k])
    {
      assert OccursAtI(kws[k + 1], t, pos[k + 1]);
    }
    if |kws| > 1 {
      assert GapWithoutBreak(t, pos[0] + |kws[0]|, pos[1]);
    }
    forall k | 0 < k < |kws| - 1
      ensures GapWithoutBreak(t, pos[1..][k - 1] + |kws[1..][k - 1]|, pos[1..][k])
    {
      assert GapWithoutBreak(t, pos[k] + |kws[k]|, pos[k + 1]);
    }
  }

  /** The backtracking search succeeds exactly when a placement exists. */
  lemma {:induction false} MatchesFromIffPlaced(kws: seq<string>, t: string, from: nat)
    requires from <= |t|
    ensures MatchesFrom(kws, t, from) <==> exists pos :: PlacedFrom(kws, t, from, pos)
    decreases |kws|
  {
    if kws == [] {
      assert PlacedFrom(kws, t, from, []);
    } else {
      if MatchesFrom(kws, t, from) {
        var q :| from <= q <= |t| && GapWithoutBreak(t, from, q) && OccursAtI(kws[0], t, q)
          && MatchesFrom(kws[1..], t, q + |kws[0]|);
        MatchesFromIffPlaced(kws[1..], t, q + |kws[0]|);
        var rest :| PlacedFrom(kws[1..], t, q + |kws[0]|, rest);
        PlacedCons(kws, t, from, q, rest);
      }
      if pos :| PlacedFrom(kws, t, from, pos) {
        PlacedTail(kws, t, from, pos);
        MatchesFromIffPlaced(kws[1..], t, pos[0] + |kws[0]|);
        assert OccursAtI(kws[0], t, pos[0]);
      }
    }
  }

  /** The anchored keyword pattern matches exactly when the first keyword
      starts the title and every later keyword occurs, in order, after the
      end of the one before it, separated only by text without line breaks. */
  lemma {:induction false} PatternMatchesIffPlacement(kws: seq<string>, t: string)
    ensures PatternMatches(kws, t) <==> exists pos :: Placement(kws, t, pos)
  {
    if kws == [] {
      assert Placement(kws, t, []);
    } else {
      if PatternMatches(kws, t) {
        MatchesFromIffPlaced(kws[1..], t, |kws[0]|);
        var rest :| PlacedFrom(kws[1..], t, |kws[0]|, rest);
        PlacedCons(kws, t, 0, 0, rest);
        assert Placement(kws, t, [0] + rest);
      }
      if pos :| Placement(kws, t, pos) {
        PlacedTail(kws, t, 0, pos);
        MatchesFromIffPlaced(kws[1..], t, |kws[0]|);
      }
    }
  }

  /** `product_name_match`: whether the listing's title carries the product's
      name keywords (the first one at the very start, the rest after it, in
      order, ignoring case), with the fixed confidence 80. */
  function ProductNameMatch(product: Product, listing: Listing): (r: (bool, int))
    ensures r.1 == 80
    ensures r.0 <==> exists pos :: Placement(Keywords(product.productName), listing.title, pos)
  {
    PatternMatchesIffPlacement(Keywords(product.productName), listing.title);
    (NameMatches(product, listing), 80)
  }

  /** The listing's title carries the product's name keywords. */
  predicate NameMatches(p: Product, l: Listing)
  {
    PatternMatches(Keywords(p.productName), l.title)
  }

  // ---------------------------------------------------------------------------
  // Best candidate (`find_match`)

  /** Inserts `p` before the first element whose name is not smaller. */
  function Insert(p: Product, s: seq<Product>): (r: seq<Product>)
    ensures multiset(r) == multiset(s) + multiset{p}
  {
    if s == [] || LexLe(p.productName, s[0].productName) then [p] + s
    else
      assert s == [s[0]] + s[1..];
      [s[0]] + Insert(p, s[1..])
  }

  ghost predicate SortedByName(s: seq<Product>)
  {
    forall i, j :: 0 <= i < j < |s| ==> LexLe(s[i].productName, s[j].productName)
  }

  lemma {:induction false} InsertSorted(p: Product, s: seq<Product>)
    requires SortedByName(s)
    ensures SortedByName(Insert(p, s))
  {
    var r := Insert(p, s);
    if s == [] {
    } else if LexLe(p.productName, s[0].productName) {
      forall j | 1 <= j < |r|
        ensures LexLe(p.productName, r[j].productName)
      {
        if j > 1 {
          LexLeTransitive(p.productName, s[0].productName, s[j - 1].productName);
        }
      }
    } else {
      InsertSorted(p, s[1..]);
      LexLeTotal(p.productName, s[0].productName);
      var tail := Insert(p, s[1..]);
      forall j | 0 <= j < |tail|
        ensures LexLe(s[0].productName, tail[j].productName)
      {
        assert tail[j] in multiset(tail);
        if tail[j] != p {
          assert tail[j] in s[1..];
        }
      }
    }
  }

  /** `sorted(products, key=product_name)`: ordered by name, products with
      equal names kept in their input order (Python's sort is stable). */
  function SortByName(ps: seq<Product>): (r: seq<Product>)
    ensures multiset(r) == multiset(ps)
  {
    if ps == [] then []
    else
      assert ps == [ps[0]] + ps[1..];
      Insert(ps[0], SortByName(ps[1..]))
  }

  lemma {:induction false} SortByNameSorted(ps: seq<Product>)
    ensures SortedByName(SortByName(ps))
  {
    if ps != [] {
      SortByNameSorted(ps[1..]);
      InsertSorted(ps[0], SortByName(ps[1..]));
    }
  }

  /** The name matcher for one listing, as a predicate on products. */
  function MatchesListing(l: Listing): Product -> bool
  {
    q => NameMatches(q, l)
  }

  /** The products of `ps` that `keep` accepts, in order. */
  function Select(ps: seq<Product>, keep: Product -> bool): (r: seq<Product>)
    ensures forall p :: p in r <==> p in ps && keep(p)
  {
    if ps == [] then []
    else (if keep(ps[0]) then [ps[0]] else []) + Select(ps[1..], keep)
  }

  lemma {:induction false} SelectAppend(ps: seq<Product>, p: Product, keep: Product -> bool)
    ensures Select(ps + [p], keep) == Select(ps, keep) + (if keep(p) then [p] else [])
  {
    if ps != [] {
      assert (ps + [p])[1..] == ps[1..] + [p];
      SelectAppend(ps[1..], p, keep);
    }
  }

  /** Selecting over one more element of `s` extends the selection by that
      element when `keep` accepts it. */
  lemma SelectPrefix(s: seq<Product>, i: nat, keep: Product -> bool)
    requires i < |s|
    ensures Select(s[..i + 1], keep) == Select(s[..i], keep) + (if keep(s[i]) then [s[i]] else [])
  {
    assert s[..i + 1] == s[..i] + [s[i]];
    SelectAppend(s[..i], s[i], keep);
  }

  /** The products of `ps` that `keep` accepts and that are named exactly
      `n`, in order. */
  function SelectNamed(ps: seq<Product>, keep: Product -> bool, n: string): (r: seq<Product>)
    ensures forall p :: p in r <==> p in ps && keep(p) && p.productName == n
  {
    if ps == [] then []
    else
      (if keep(ps[0]) && ps[0].productName == n then [ps[0]] else [])
      + SelectNamed(ps[1..], keep, n)
  }

  /** What `find_match` returns: the last matching product once the candidates
      are sorted by name. */
  function BestMatch(ps: seq<Product>, l: Listing): Option<Product>
  {
    var fits := Select(SortByName(ps), MatchesListing(l));
    if fits == [] then None else Some(fits[|fits| - 1])
  }

  lemma {:induction false} SelectNamedConcat(a: seq<Product>, b: seq<Product>, keep: Product -> bool, n: string)
    ensures SelectNamed(a + b, keep, n) == SelectNamed(a, keep, n) + SelectNamed(b, keep, n)
  {
    if a == [] {
      assert a + b == b;
    } else {
      assert (a + b)[1..] == a[1..] + b;
      SelectNamedConcat(a[1..], b, keep, n);
    }
  }

  lemma SelectNamedOne(q: Product, keep: Product -> bool, n: string)
    ensures SelectNamed([q], keep, n) == if keep(q) && q.productName == n then [q] else []
  {
    assert [q][1..] == [];
  }

  lemma SwapWhenOneEmpty(a: seq<Product>, b: seq<Product>, c: seq<Product>)
    requires a == [] || b == []
    ensures a + (b + c) == b + (a + c)
  {
    if a == [] {
      assert a + (b + c) == b + c == b + (a + c);
    } else {
      assert a + (b + c) == a + c == b + (a + c);
    }
  }

  /** Inserting `p` by name does not reorder it among the products of its
      own name: it still comes first among them. */
  lemma {:induction false} SelectNamedInsert(p: Product, s: seq<Product>, keep: Product -> bool, n: string)
    ensures SelectNamed(Insert(p, s), keep, n) == SelectNamed([p] + s, keep, n)
  {
    if s != [] && !LexLe(p.productName, s[0].productName) {
      var x, rest := s[0], s[1..];
      var mx, mp := SelectNamed([x], keep, n), SelectNamed([p], keep, n);
      var tail := SelectNamed(rest, keep, n);
      assert mx == [] || mp == [] by {
        LexLeReflexive(p.productName);
        SelectNamedOne(x, keep, n);
        SelectNamedOne(p, keep, n);
      }
      calc {
        SelectNamed(Insert(p, s), keep, n);
        { SelectNamedConcat([x], Insert(p, rest), keep, n); }
        mx + SelectNamed(Insert(p, rest), keep, n);
        { SelectNamedInsert(p, rest, keep, n); SelectNamedConcat([p], rest, keep, n); }
        mx + (mp + tail);
        { SwapWhenOneEmpty(mx, mp, tail); }
        mp + (mx + tail);
        { assert s == [x] + rest; SelectNamedConcat([x], rest, keep, n); }
        mp + SelectNamed(s, keep, n);
        { SelectNamedConcat([p], s, keep, n); }
        SelectNamed([p] + s, keep, n);
      }
    }
  }

  /** Sorting by name keeps products with equal names in their input order. */
  lemma {:induction false} SortKeepsTies(ps: seq<Product>, keep: Product -> bool, n: string)
    ensures SelectNamed(SortByName(ps), keep, n) == SelectNamed(ps, keep, n)
  {
    if ps != [] {
      var p, rest := ps[0], ps[1..];
      var sortedRest := SortByName(rest);
      calc {
        SelectNamed(SortByName(ps), keep, n);
        SelectNamed(Insert(p, sortedRest), keep, n);
        { SelectNamedInsert(p, sortedRest, keep, n); }
        SelectNamed([p] + sortedRest, keep, n);
        { SelectNamedConcat([p], sortedRest, keep, n); }
        SelectNamed([p], keep, n) + SelectNamed(sortedRest, keep, n);
        { SortKeepsTies(rest, keep, n); }
        SelectNamed([p], keep, n) + SelectNamed(rest, keep, n);
        { SelectNamedConcat([p], rest, keep, n); assert ps == [p] + rest; }
        SelectNamed(ps, keep, n);
      }
    }
  }

  lemma SortKeepsMembers(ps: seq<Product>)
    ensures forall p :: p in SortByName(ps) <==> p in ps
  {
    var sorted := SortByName(ps);
    forall p
      ensures p in sorted <==> p in ps
    {
      assert p in sorted <==> p in multiset(sorted);
    }
  }

  /** In a name-sorted sequence the last selected product has the greatest
      name among the selected ones. */
  lemma {:induction false} LastSelectedIsGreatest(s: seq<Product>, keep: Product -> bool)
    requires SortedByName(s)
    requires Select(s, keep) != []
    ensures var fits := Select(s, keep);
      forall p :: p in s && keep(p) ==> LexLe(p.productName, fits[|fits| - 1].productName)
  {
    var fits := Select(s, keep);
    var last := fits[|fits| - 1];
    var tail := s[1..];
    var rest := Select(tail, keep);
    assert s == [s[0]] + tail;
    if rest != [] {
      assert SortedByName(tail) by {
        forall i, j | 0 <= i < j < |tail|
          ensures LexLe(tail[i].productName, tail[j].productName)
        {
          assert tail[i] == s[i + 1] && tail[j] == s[j + 1];
        }
      }
      LastSelectedIsGreatest(tail, keep);
      assert last == rest[|rest| - 1];
      assert LexLe(s[0].productName, last.productName) by {
        assert last in rest;
        var k :| 0 <= k < |tail| && tail[k] == last;
        assert s[k + 1] == last;
      }
    } else {
      assert last == s[0];
      LexLeReflexive(last.productName);
    }
  }

  /** The last selected product of `s` is also the last selected product of
      its own name. */
  lemma {:induction false} LastSelectedIsLastOfName(s: seq<Product>, keep: Product -> bool)
    requires Select(s, keep) != []
    ensures var fits := Select(s, keep);
      var last := fits[|fits| - 1];
      var tied := SelectNamed(s, keep, last.productName);
      tied != [] && tied[|tied| - 1] == last
  {
    var fits := Select(s, keep);
    var last := fits[|fits| - 1];
    var rest := Select(s[1..], keep);
    if rest != [] {
      LastSelectedIsLastOfName(s[1..], keep);
      assert last == rest[|rest| - 1];
    } else {
      assert last == s[0];
      var tiedRest := SelectNamed(s[1..], keep, last.productName);
      assert forall p :: p !in tiedRest;
    }
  }

  /** `find_match` answers nothing exactly when no candidate matches. */
  lemma BestMatchNone(ps: seq<Product>, l: Listing)
    ensures BestMatch(ps, l).None? <==> forall p :: p in ps ==> !NameMatches(p, l)
  {
    var fits := Select(SortByName(ps), MatchesListing(l));
    SortKeepsMembers(ps);
    if fits != [] {
      assert fits[0] in fits;
    }
  }

  /** What `find_match` promises when it answers: a matching candidate whose
      name no other matching candidate's name exceeds, and among the matching
      candidates of that name the last one in input order. */
  lemma BestMatchFound(ps: seq<Product>, l: Listing)
    requires BestMatch(ps, l).Some?
    ensures var best := BestMatch(ps, l).value;
      && best in ps
      && NameMatches(best, l)
      && (forall p :: p in ps && NameMatches(p, l) ==> LexLe(p.productName, best.productName))
      && var tied := SelectNamed(ps, MatchesListing(l), best.productName);
         tied != [] && tied[|tied| - 1] == best
  {
    var keep := MatchesListing(l);
    var sorted := SortByName(ps);
    var fits := Select(sorted, keep);
    var best := fits[|fits| - 1];
    assert best in fits;
    SortKeepsMembers(ps);
    SortByNameSorted(ps);
    LastSelectedIsGreatest(sorted, keep);
    LastSelectedIsLastOfName(sorted, keep);
    SortKeepsTies(ps, keep, best.productName);
  }

  /** `find_match`: runs the name matcher over the candidates in name order,
      collects the matching ones and answers the last of them. */
  method FindMatch(products: seq<Product>, listing: Listing) returns (r: Option<Product>)
    ensures r == BestMatch(products, listing)
    ensures r.None? <==> forall p :: p in products ==> !NameMatches(p, listing)
    ensures r.Some? ==> r.value in products && NameMatches(r.value, listing)
    ensures r.Some? ==>
      forall p :: p in products && NameMatches(p, listing) ==> LexLe(p.productName, r.value.productName)
  {
    var sorted := SortByName(products);
    var keep := MatchesListing(listing);
    var fits: seq<Product> := [];
    for i := 0 to |sorted|
      invariant fits == Select(sorted[..i], keep)
    {
      var outcome := ProductNameMatch(sorted[i], listing);
      SelectPrefix(sorted, i, keep);
      if outcome.0 {
        fits := fits + [sorted[i]];
      }
    }
    assert sorted[..|sorted|] == sorted;
    r := if fits == [] then None else Some(fits[|fits| - 1]);
    BestMatchNone(products, listing);
    if r.Some? {
      BestMatchFound(products, listing);
    }
  }
}
