# Listing-to-catalog matcher, modelled in Dafny

The program links free-text marketplace listings to the products of a catalog.
For each listing it does four things:

1. It finds the one catalog manufacturer whose name starts the listing's title, ignoring case.
   No such manufacturer, or more than one, means the listing is skipped.
2. It fetches that manufacturer's products from an inventory indexed by manufacturer.
3. Among those products it keeps the ones whose name keywords match the title, and it picks the one whose name sorts last.
4. It records that product under the listing's title.

The model has six modules in five files:

- `Text` (`text.dfy`) holds the string primitives:
  - ASCII case folding;
  - case-insensitive literal occurrence and prefix tests;
  - the `_`/`-` keyword split and joining back;
  - Python's code-point order on strings.
- `Catalog` (`catalog.dfy`) holds the records and the inventory:
  - the `Product` and `Listing` records;
  - the specification functions `Bucket`, `Manufacturers` and `IndexOf`;
  - the `Inventory` class, which updates its product list, its manufacturer index and that index's key order in place.
- `Matcher` (`matcher.dfy`) holds the three matching rules:
  - `ManufacturerMatch` and `FindMatch` are methods with accumulator loops, proved against `ResolveBrand` and `BestMatch`;
  - `product_name_match` is the pure predicate `NameMatches`, with its characterisation by keyword placements.
- `Reconciliation` (`reconcile.dfy`) holds the main loop:
  - the `Reconcile` method, proved against the fold `Reconciled`;
  - lemmas saying which listings get an entry and which product that entry holds.
- `ScenarioTitles` and `Scenarios` (`scenarios.dfy`) work through concrete cases:
  - the Canon PowerShot A20 example;
  - a listing whose manufacturer resolves but no name matches;
  - an ambiguous `Sony`/`SonyEricsson` title;
  - two Sony products that both match.

Some modelling choices:

- **Literal patterns.** Brand names and keywords are used as regular expressions with IGNORECASE. The model reads them as literal text (see "Left out").
- **The keyword pattern.** The pattern `(K1){1}.*(K2){1}.*…` is passed to `re.match`, so it is anchored at the start of the title.
  - The first keyword must start the title.
  - Each later keyword must occur after the end of the previous one.
  - `.` does not cross a line break, so the text between keywords holds no `'\n'`.
  - Nothing is required after the last keyword.
- **Keyword matching versus the docstring.** The docstring of `product_name_match` (`main.py:79-84`) says it tries to find all the parts of the product name in the title, and succeeds when the entire product name is present in it. That reads as "anywhere in the title". But `re.match` (`main.py:95`) anchors the pattern, so the first keyword must start the title. The model follows the code. `Scenarios.KeywordsInOrderAreNotEnough` exhibits a title that carries every keyword in order and still does not match.
- **Manufacturer versus the docstring.** The docstring of `manufacturer_match` (`main.py:64`) promises a capitalized string. The code returns the matching index key unchanged, and so does the model: `ManufacturerMatch` answers a listed key as it is.
- **Key order.** Python dictionaries yield keys in insertion order. `Inventory.manufacturerOrder` is that order, and `Valid()` ties it to `Manufacturers(productList)`.
- **Sorting.** `sorted(..., key=product_name)` is a stable sort on code-point order. It is modelled as insertion sort (`SortByName`). A stable sort's output is determined by its input, so any stable sort gives the same sequence. The comment at `main.py:115-116` says the candidates are ordered by the length of the product name. The sort key is the name itself, in code-point order, and the model follows the code. So the "most specific" answer is the matching name that sorts last, not the longest one: `Scenarios.ShorterNameSortingLaterWins` shows `Sony_B` chosen over the longer `Sony_A_Pro`.

## Model

| member | source | states |
|---|---|---|
| Text.OccursAtUpper | main.py:86-93 | Upper-casing the keywords does not change where they match case-insensitively. |
| Text.SplitKeywords | main.py:86 | Splitting on `_`/`-` gives one more piece than there are separators, and no piece holds a separator. |
| Text.SplitJoin | main.py:86 | Joining the split pieces with `_` gives back the name with every `-` written as `_`; only the kind of separator is lost. |
| Text.JoinSplit | main.py:86 | Splitting a `_`-joined sequence of separator-free words gives back exactly those words. |
| Text.LexLeReflexive | main.py:114 | The string order used by the sort is reflexive. |
| Text.LexLeTransitive | main.py:114 | The string order used by the sort is transitive. |
| Text.LexLeTotal | main.py:114 | Any two strings are comparable. |
| Text.LexLeAntisymmetric | main.py:114 | Two strings ordered both ways are equal. |
| Catalog.Bucket | main.py:19-27 | A bucket holds exactly the products with that manufacturer, and is no longer than the catalog. |
| Catalog.BucketAppend | main.py:22-27 | Adding a product appends it to its own manufacturer's bucket and leaves every other bucket unchanged. |
| Catalog.Manufacturers | main.py:22-27 | The index keys, in insertion order, are distinct and are exactly the manufacturers of the catalog's products. |
| Catalog.BucketOfUnknown | main.py:19-20 | A manufacturer no product names has an empty bucket. |
| Catalog.BucketsPartitionCatalog | main.py:11-27 | Over all index keys, the bucket sizes add up to the number of products added. |
| Catalog.IndexHoldsBuckets | main.py:11-27 | The index built product by product has a key for exactly each manufacturer. Under each key it holds exactly that manufacturer's products, in insertion order. |
| Catalog.AddToIndex | main.py:22-27 | Adding a product gives the old index with the product's manufacturer's bucket extended by the product. The bucket is created empty when missing. All other keys are unchanged. |
| Catalog.AddToOrder | main.py:22-27 | Adding a product appends its manufacturer to the key order exactly when the manufacturer is new. |
| Catalog.Inventory.constructor | main.py:11-17 | After adding every given product in turn, the product list is the given list and the index and key order are consistent with it (`Valid`). An empty list gives an empty inventory. |
| Catalog.Inventory.AddProduct | main.py:22-27 | Appends the product to the list. Appends it to its manufacturer's bucket, creating the bucket and a new last key when the manufacturer is new. Leaves every other bucket as it was and keeps `Valid`. |
| Catalog.Inventory.ItemsByManufacturer | main.py:19-20 | Returns exactly the products added with manufacturer `m`, in insertion order. Returns the empty sequence for an unknown key and for `None`. |
| Matcher.PrefixingBrands | main.py:66-71 | The collected brands are exactly the listed brands that start the title, ignoring case. |
| Matcher.PrefixingBrandsNone | main.py:73-75 | When no brand starts the title, nothing is collected. |
| Matcher.PrefixingBrandsSingle | main.py:73-75 | When exactly one of distinct brands starts the title, exactly that brand is collected. |
| Matcher.ResolveBrandUnique | main.py:66-75 | For distinct brands: the answer is `b` if and only if `b` is the only listed brand starting the title. The answer is `None` if and only if there is no such brand, i.e. zero or several match. |
| Matcher.ManufacturerMatch | main.py:58-75 | The loop computes `ResolveBrand`. A non-None answer is in the list and starts the title, and every listed brand that starts the title is that answer. |
| Matcher.Keywords | main.py:86 | There is one keyword per separator plus one. |
| Matcher.KeywordsOfJoin | main.py:86 | The keywords of a `_`-joined name are its words, upper-cased. |
| Matcher.MatchesFromIffPlaced | main.py:88-95 | The backtracking search for `(K){1}.*…` succeeds if and only if there are positions placing every keyword in order with line-break-free gaps. |
| Matcher.PatternMatchesIffPlacement | main.py:88-95 | The anchored pattern matches if and only if there is a placement whose first keyword is at position 0. |
| Matcher.ProductNameMatch | main.py:78-97 | Matches if and only if the first keyword is a case-insensitive prefix of the title, each later keyword occurs after the end of the previous one, and the text between consecutive keywords holds no line break. The confidence is always 80. |
| Matcher.Insert | main.py:114 | Insertion adds exactly the one product; the result is a permutation of the input plus that product. |
| Matcher.InsertSorted | main.py:114 | Inserting into a name-sorted sequence keeps it name-sorted. |
| Matcher.SortByName | main.py:114 | The sorted sequence is a permutation of the candidates. |
| Matcher.SortByNameSorted | main.py:114 | The sorted sequence is ordered by `product_name`. |
| Matcher.SortKeepsTies | main.py:114 | The sort is stable: products of one name keep their input order. |
| Matcher.SortKeepsMembers | main.py:114 | The sort neither adds nor drops a product. |
| Matcher.Select | main.py:112-121 | The collected fits are exactly the products that pass the matcher. |
| Matcher.SelectAppend | main.py:118-121 | Each loop step appends the product when it matches and nothing otherwise. |
| Matcher.LastSelectedIsGreatest | main.py:123-127 | In a name-sorted sequence, the last fit has the greatest name among all fits. |
| Matcher.LastSelectedIsLastOfName | main.py:123-127 | The last fit is also the last fit of its own name. |
| Matcher.BestMatchNone | main.py:112-128 | `find_match` answers `None` if and only if no candidate matches the listing. |
| Matcher.BestMatchFound | main.py:112-128 | An answer is a candidate that matches the listing. No matching candidate has a greater name. Among the matching candidates with its name, it is the last in input order. |
| Matcher.FindMatch | main.py:100-128 | The loop computes `BestMatch`. It answers `None` if and only if no candidate matches. Otherwise the answer is a matching candidate whose name no matching candidate's name exceeds. |
| Reconciliation.ListingMatchFound | main.py:176-189 | A paired listing is paired with a catalog product whose manufacturer is the one catalog manufacturer starting the title. The product's keywords match the title, and no matching product of that manufacturer has a greater name. |
| Reconciliation.ListingMatchNone | main.py:176-189 | A listing stays unpaired if and only if no manufacturer alone starts its title, or none of that manufacturer's products matches. |
| Reconciliation.ReconciledKeys | main.py:173-189 | The result has an entry for a title exactly when some listing with that title is paired. |
| Reconciliation.ReconciledValues | main.py:188-189 | The entry for a title holds the product of the last paired listing with that title; later listings overwrite earlier ones. |
| Reconciliation.Reconcile | main.py:173-189 | The loop over the listings, using the inventory, the manufacturer match and `find_match`, builds exactly `Reconciled(listings, PairingFor(products))`. |
| Scenarios.CanonKeywords | main.py:86 | `Canon_PowerShot_A20` splits into `CANON`, `POWERSHOT`, `A20`. |
| Scenarios.CanonPlacement | main.py:88-95 | Those keywords sit at 0, 6 and 16 in `Canon PowerShot A20 Digital Camera`. |
| Scenarios.CanonExample | main.py:173-189 | For that catalog and listing the manufacturer resolves to `Canon`, the product is found, and the result maps the title to it. |
| Scenarios.BareListingUnpaired | main.py:183-189 | For `Canon Camera` the manufacturer resolves but no product matches, so there is no entry. |
| Scenarios.KeywordsInOrderAreNotEnough | main.py:86-95 | `New Canon PowerShot A20` holds every keyword in order, yet the anchored pattern does not match. |
| Scenarios.SonyBothMatch | main.py:86-97 | Both `Sony_A` and `Sony_A_Pro` match `Sony A Pro Digital Camera`. |
| Scenarios.SonyExample | main.py:112-128 | For either input order of those two products, `find_match` answers `Sony_A_Pro`, the later name. |
| Scenarios.SonyBSortsLater | main.py:114-116 | `Sony_B` is shorter than `Sony_A_Pro` yet sorts after it in the name order the sort uses. |
| Scenarios.ShorterNameSortingLaterWins | main.py:112-128 | Both `Sony_B` and `Sony_A_Pro` match `Sony A Pro B Bundle`. For either input order `find_match` answers the shorter `Sony_B`, because it sorts later. |
| Scenarios.AmbiguousBrandExample | main.py:66-75 | `SonyEricsson W800` starts with both `Sony` and `SonyEricsson`. The manufacturer does not resolve, and there is no entry. |

## Left out

- Reading products and listings (`main.py:131-160`) is not modelled: it is file and JSON I/O with error printing. The reconciliation takes the two already-decoded sequences as parameters.
  - The listing reader at `main.py:158` assigns the result of `list.append`, which would fail at run time. It lies outside the model for the same reason.
- Opening the input files and writing the result as JSON (`main.py:163-171`, `191-192`) is not modelled: it is I/O. The file-name constants (`main.py:5-7`) are configuration.
- The `__repr__` methods (`main.py:37-41`, `51-52`) are display only.
- Regular-expression semantics of brand names and keywords (`main.py:68`, `91`) are not modelled.
  - Both are treated as literal text, so metacharacters in them are not interpreted.
  - A name that is an invalid pattern, and would raise, is not modelled.
- Case-insensitivity covers ASCII letters only; Unicode case folding is not modelled.
- The result maps titles to `Product` values. The source stores the product's own attribute dictionary (`__dict__`, `main.py:189`) by reference. Nothing mutates a product after construction, so the two agree.
- Buckets are values, so the model does not capture that Python's bucket lists are shared objects the index hands out by reference.
- Falsy product lists other than the empty one, such as `None`, are not modelled. The constructor takes a sequence, and the empty sequence stands for "no list".
