/** The listing titles of the worked examples, and where the brands and
    keywords sit in them. */
module ScenarioTitles {
  import opened Text

  const canonTitle := "Canon PowerShot A20 Digital Camera"
  const preambleTitle := "New Canon PowerShot A20"
  const bareTitle := "Canon Camera"
  const sonyTitle := "Sony A Pro Digital Camera"
  const ericssonTitle := "SonyEricsson W800"
  const bundleTitle := "Sony A Pro B Bundle"

  lemma CanonTitleStartsWithBrand()
    ensures StartsWithI("Canon", canonTitle)
  {
  }

  lemma CanonTitleKeywordAt0()
    ensures OccursAtI("CANON", canonTitle, 0)
  {
  }

  lemma CanonTitleKeywordAt6()
    ensures OccursAtI("POWERSHOT", canonTitle, 6)
  {
  }

  lemma CanonTitleKeywordAt16()
    ensures OccursAtI("A20", canonTitle, 16)
  {
  }

  lemma BareTitleStartsWithBrand()
    ensures StartsWithI("Canon", bareTitle)
    ensures OccursAtI("CANON", bareTitle, 0)
  {
  }

  lemma PreambleTitleKeywords()
    ensures !OccursAtI("CANON", preambleTitle, 0)
    ensures OccursAtI("CANON", preambleTitle, 4)
  {
    assert Upper("CANON"[0]) != Upper(preambleTitle[0]);
  }

  lemma PreambleTitleKeywordAt10()
    ensures OccursAtI("POWERSHOT", preambleTitle, 10)
  {
  }

  lemma PreambleTitleKeywordAt20()
    ensures OccursAtI("A20", preambleTitle, 20)
  {
  }

  lemma SonyTitleKeywordAt0()
    ensures OccursAtI("SONY", sonyTitle, 0)
  {
  }

  lemma SonyTitleKeywordsAt5And7()
    ensures OccursAtI("A", sonyTitle, 5)
    ensures OccursAtI("PRO", sonyTitle, 7)
  {
  }

  lemma BundleTitleKeywordsAt0And5()
    ensures OccursAtI("SONY", bundleTitle, 0)
    ensures OccursAtI("A", bundleTitle, 5)
  {
  }

  lemma BundleTitleKeywordsAt7And11()
    ensures OccursAtI("PRO", bundleTitle, 7)
    ensures OccursAtI("B", bundleTitle, 11)
  {
  }

  /** A name sorts after its own proper prefix. */
  lemma ProNameSortsAfterPrefix()
    ensures !LexLe("Sony_A_Pro", "Sony_A")
  {
  }

  /** At the first difference, `B` comes after `A`. */
  lemma BNameSortsAfterAName()
    ensures !LexLe("Sony_B", "Sony_A_Pro")
  {
  }

  lemma EricssonTitleStartsWithBoth()
    ensures StartsWithI("Sony", ericssonTitle)
    ensures StartsWithI("SonyEricsson", ericssonTitle)
  {
  }
}

/** Worked examples: small catalogs and listings taken through the model. */
module Scenarios {
  import opened Text
  import opened Catalog
  import opened Matcher
  import opened Reconciliation
  import opened ScenarioTitles

  // ---------------------------------------------------------------------------
  // A listing that names its product outright.

  /** The product named `Canon_PowerShot_A20` (see `CanonName`). */
  const canonWords := ["Canon", "PowerShot", "A20"]
  const canonA20 := Product("Canon", "PowerShot A20", Join(canonWords, '_'), "2001-02-27", Some("PowerShot"))
  const canonListing := Listing(canonTitle, "Canon", "CAD", "99.99")

  lemma CanonName()
    ensures canonA20.productName == "Canon_PowerShot_A20"
  {
    assert Join(canonWords[2..], '_') == "A20";
    assert Join(canonWords[1..], '_') == "PowerShot_A20";
  }

  lemma CanonKeywords()
    ensures Keywords(canonA20.productName) == ["CANON", "POWERSHOT", "A20"]
  {
    assert forall i, k :: 0 <= i < |canonWords| && 0 <= k < |canonWords[i]| ==> !IsSeparator(canonWords[i][k]);
    KeywordsOfJoin(canonWords);
    assert UpperString("Canon") == "CANON";
    assert UpperString("PowerShot") == "POWERSHOT";
    assert UpperString("A20") == "A20";
    var kws := Keywords(canonA20.productName);
    assert kws == [kws[0], kws[1], kws[2]];
  }

  lemma CanonPlacement()
    ensures Placement(["CANON", "POWERSHOT", "A20"], canonTitle, [0, 6, 16])
  {
    CanonTitleKeywordAt0();
    CanonTitleKeywordAt6();
    CanonTitleKeywordAt16();
  }

  lemma CanonNameMatches()
    ensures NameMatches(canonA20, canonListing)
  {
    CanonKeywords();
    CanonPlacement();
    PatternMatchesIffPlacement(Keywords(canonA20.productName), canonListing.title);
  }

  /** The listing resolves to the catalog's only manufacturer and is paired
      with its only product; the dictionary holds that one entry. */
  lemma CanonExample()
    ensures ResolveBrand(Manufacturers([canonA20]), canonListing.title) == Some("Canon")
    ensures ListingMatch([canonA20], canonListing) == Some(canonA20)
    ensures Reconciled([canonListing], PairingFor([canonA20])) == map[canonTitle := canonA20]
  {
    var ps := [canonA20];
    assert Manufacturers(ps) == ["Canon"];
    CanonTitleStartsWithBrand();
    assert PrefixingBrands(["Canon"], canonTitle) == ["Canon"];
    assert Bucket(ps, "Canon") == ps;
    CanonNameMatches();
    assert SortByName(ps) == ps;
    assert Select(ps, MatchesListing(canonListing)) == ps;
  }

  // ---------------------------------------------------------------------------
  // A listing whose manufacturer resolves but whose title lacks the keywords.

  const bareListing := Listing(bareTitle, "Canon", "CAD", "49.99")

  /** After `CANON` at the start, the rest of the title is too short to hold
      `POWERSHOT`, so the listing stays unpaired. */
  lemma BareListingUnpaired()
    ensures ResolveBrand(Manufacturers([canonA20]), bareTitle) == Some("Canon")
    ensures !NameMatches(canonA20, bareListing)
    ensures ListingMatch([canonA20], bareListing).None?
    ensures Reconciled([bareListing], PairingFor([canonA20])) == map[]
  {
    var ps := [canonA20];
    assert Manufacturers(ps) == ["Canon"];
    BareTitleStartsWithBrand();
    assert PrefixingBrands(["Canon"], bareTitle) == ["Canon"];
    CanonKeywords();
    assert !MatchesFrom(["POWERSHOT", "A20"], bareTitle, 5);
    assert ["CANON", "POWERSHOT", "A20"][1..] == ["POWERSHOT", "A20"];
    BestMatchNone(Bucket(ps, "Canon"), bareListing);
  }

  // ---------------------------------------------------------------------------
  // A title that carries every keyword in order, but not at its start.

  const preambleListing := Listing(preambleTitle, "Canon", "CAD", "99.99")

  /** The keywords of `Canon_PowerShot_A20` occur in order in
      `New Canon PowerShot A20`, yet the anchored pattern does not match. */
  lemma KeywordsInOrderAreNotEnough()
    ensures var kws := Keywords(canonA20.productName);
      && |kws| == 3
      && OccursAtI(kws[0], preambleTitle, 4)
      && OccursAtI(kws[1], preambleTitle, 10)
      && OccursAtI(kws[2], preambleTitle, 20)
    ensures !NameMatches(canonA20, preambleListing)
  {
    CanonKeywords();
    PreambleTitleKeywords();
    PreambleTitleKeywordAt10();
    PreambleTitleKeywordAt20();
  }

  // ---------------------------------------------------------------------------
  // Two products of one manufacturer that both match: the later name wins.

  /** The products named `Sony_A` and `Sony_A_Pro` (see `SonyNames`). */
  const sonyAWords := ["Sony", "A"]
  const sonyAProWords := ["Sony", "A", "Pro"]
  const sonyA := Product("Sony", "A", Join(sonyAWords, '_'), "2010-01-01", None)
  const sonyAPro := Product("Sony", "A Pro", Join(sonyAProWords, '_'), "2010-01-01", None)
  const sonyListing := Listing(sonyTitle, "Sony", "USD", "499.00")

  lemma SonyNames()
    ensures sonyA.productName == "Sony_A"
    ensures sonyAPro.productName == "Sony_A_Pro"
  {
    assert Join(sonyAWords[1..], '_') == "A";
    assert Join(sonyAProWords[2..], '_') == "Pro";
    assert Join(sonyAProWords[1..], '_') == "A_Pro";
  }

  lemma SonyAKeywords()
    ensures Keywords(sonyA.productName) == ["SONY", "A"]
  {
    var ws := sonyAWords;
    assert forall i, k :: 0 <= i < |ws| && 0 <= k < |ws[i]| ==> !IsSeparator(ws[i][k]);
    KeywordsOfJoin(ws);
    assert UpperString("Sony") == "SONY";
    assert UpperString("A") == "A";
    var kws := Keywords(sonyA.productName);
    assert kws == [kws[0], kws[1]];
  }

  lemma SonyAProKeywords()
    ensures Keywords(sonyAPro.productName) == ["SONY", "A", "PRO"]
  {
    var ws := sonyAProWords;
    assert forall i, k :: 0 <= i < |ws| && 0 <= k < |ws[i]| ==> !IsSeparator(ws[i][k]);
    KeywordsOfJoin(ws);
    assert UpperString("Sony") == "SONY";
    assert UpperString("A") == "A";
    assert UpperString("Pro") == "PRO";
    var kws := Keywords(sonyAPro.productName);
    assert kws == [kws[0], kws[1], kws[2]];
  }

  lemma SonyPlacements()
    ensures Placement(["SONY", "A"], sonyTitle, [0, 5])
    ensures Placement(["SONY", "A", "PRO"], sonyTitle, [0, 5, 7])
  {
    SonyTitleKeywordAt0();
    SonyTitleKeywordsAt5And7();
  }

  lemma SonyBothMatch()
    ensures NameMatches(sonyA, sonyListing) && NameMatches(sonyAPro, sonyListing)
  {
    SonyAKeywords();
    SonyAProKeywords();
    SonyPlacements();
    PatternMatchesIffPlacement(Keywords(sonyA.productName), sonyTitle);
    PatternMatchesIffPlacement(Keywords(sonyAPro.productName), sonyTitle);
  }

  /** Whatever order the catalog lists them in, `Sony_A_Pro` sorts after
      `Sony_A` and is the product the listing is paired with. */
  lemma SonyExample(ps: seq<Product>)
    requires ps == [sonyA, sonyAPro] || ps == [sonyAPro, sonyA]
    ensures BestMatch(ps, sonyListing) == Some(sonyAPro)
  {
    SonyBothMatch();
    assert BestMatch(ps, sonyListing).Some? by {
      BestMatchNone(ps, sonyListing);
      assert sonyAPro in ps;
    }
    BestMatchFound(ps, sonyListing);
    SonyAProSortsLater();
  }

  /** `Sony_A_Pro` sorts after its own prefix `Sony_A`. */
  lemma SonyAProSortsLater()
    ensures !LexLe(sonyAPro.productName, sonyA.productName)
  {
    SonyNames();
    ProNameSortsAfterPrefix();
  }

  // ---------------------------------------------------------------------------
  // The candidates are ordered by name, not by name length: a shorter name
  // that sorts later wins over a longer, more specific one.

  /** The product named `Sony_B` (see `SonyBName`). */
  const sonyBWords := ["Sony", "B"]
  const sonyB := Product("Sony", "B", Join(sonyBWords, '_'), "2010-01-01", None)
  const bundleListing := Listing(bundleTitle, "Sony", "USD", "899.00")

  lemma SonyBName()
    ensures sonyB.productName == "Sony_B"
  {
    assert Join(sonyBWords[1..], '_') == "B";
  }

  lemma SonyBKeywords()
    ensures Keywords(sonyB.productName) == ["SONY", "B"]
  {
    var ws := sonyBWords;
    assert forall i, k :: 0 <= i < |ws| && 0 <= k < |ws[i]| ==> !IsSeparator(ws[i][k]);
    KeywordsOfJoin(ws);
    assert UpperString("Sony") == "SONY";
    assert UpperString("B") == "B";
    var kws := Keywords(sonyB.productName);
    assert kws == [kws[0], kws[1]];
  }

  lemma BundlePlacements()
    ensures Placement(["SONY", "B"], bundleTitle, [0, 11])
    ensures Placement(["SONY", "A", "PRO"], bundleTitle, [0, 5, 7])
  {
    BundleTitleKeywordsAt0And5();
    BundleTitleKeywordsAt7And11();
  }

  lemma SonyBMatchesBundle()
    ensures NameMatches(sonyB, bundleListing)
  {
    SonyBKeywords();
    BundlePlacements();
    PatternMatchesIffPlacement(Keywords(sonyB.productName), bundleTitle);
  }

  lemma SonyAProMatchesBundle()
    ensures NameMatches(sonyAPro, bundleListing)
  {
    SonyAProKeywords();
    BundlePlacements();
    PatternMatchesIffPlacement(Keywords(sonyAPro.productName), bundleTitle);
  }

  /** `Sony_B` is the shorter name and sorts after `Sony_A_Pro`. */
  lemma SonyBSortsLater()
    ensures |sonyB.productName| < |sonyAPro.productName|
    ensures !LexLe(sonyB.productName, sonyAPro.productName)
  {
    SonyBName();
    SonyNames();
    BNameSortsAfterAName();
  }

  /** Both `Sony_B` and the longer `Sony_A_Pro` match `Sony A Pro B Bundle`;
      whatever order the catalog lists them in, the shorter `Sony_B` is
      chosen, because it sorts later. */
  lemma ShorterNameSortingLaterWins(ps: seq<Product>)
    requires ps == [sonyB, sonyAPro] || ps == [sonyAPro, sonyB]
    ensures |sonyB.productName| < |sonyAPro.productName|
    ensures BestMatch(ps, bundleListing) == Some(sonyB)
  {
    SonyBMatchesBundle();
    SonyAProMatchesBundle();
    assert BestMatch(ps, bundleListing).Some? by {
      BestMatchNone(ps, bundleListing);
      assert sonyB in ps;
    }
    BestMatchFound(ps, bundleListing);
    SonyBSortsLater();
  }

  // ---------------------------------------------------------------------------
  // A title that starts with two manufacturers' names.

  const ericssonW800 := Product("SonyEricsson", "W800", Join(["SonyEricsson", "W800"], '_'), "2005-03-01", None)
  const ericssonListing := Listing(ericssonTitle, "Sony Ericsson", "EUR", "120.00")

  /** Both `Sony` and `SonyEricsson` start the title, so the manufacturer is
      ambiguous and the listing gets no entry. */
  lemma AmbiguousBrandExample()
    ensures ResolveBrand(Manufacturers([sonyA, ericssonW800]), ericssonTitle).None?
    ensures ListingMatch([sonyA, ericssonW800], ericssonListing).None?
    ensures Reconciled([ericssonListing], PairingFor([sonyA, ericssonW800])) == map[]
  {
    var ps := [sonyA, ericssonW800];
    assert ps[..1] == [sonyA];
    assert Manufacturers([sonyA]) == ["Sony"];
    assert Manufacturers(ps) == ["Sony", "SonyEricsson"];
    EricssonTitleStartsWithBoth();
    assert ["Sony", "SonyEricsson"][1..] == ["SonyEricsson"];
    assert PrefixingBrands(["Sony", "SonyEricsson"], ericssonTitle) == ["Sony", "SonyEricsson"];
  }
}
