# Natural State Sheds dealer directory, modelled in Dafny

This project models the dealer-directory logic of the Natural State Sheds
locator site and proves properties about it. The site is a small Next.js
application. Its only real logic lives in `src/lib/dealers.ts`:

- a gazetteer of 61 Arkansas cities with their coordinates;
- the mapping of spreadsheet rows to dealer records;
- the nearest-dealer search;
- the list queries behind the pages.

Two expressions in the UI are modelled too:

- the search-box filter of `SearchDealers.tsx`;
- the city URL slug used by the locations page and by the dealer cards.

Files:

- `seqs.dfy` (module `Seqs`): `Option` and the array operations the
  code uses. These are `map`, `filter` and `[...new Set(xs)]`. The module
  also defines the order-preserving subsequence relation.
- `strings.dfy` (module `Strings`): the ASCII string operations.
  These are `toLowerCase`, `trim`, `includes`, the `\s` class and the
  default `sort` order, with insertion sort standing in for `sort()`.
- `dealers.dfy` (module `Dealers`): the gazetteer `CityTable` /
  `ArkansasCities`, `ToDealer`, `ParseDealers`, the method
  `FindClosestDealer`, `UniqueCities`, `MajorCities` and `DealersInCity`.
- `search.dfy` (module `SearchDealers`): `HandleSearch`.
- `locations.dfy` (module `Locations`): `Slug`, the locations-page links
  and the dealer-card link.

Modelling choices:

- The gazetteer is a parameter of the operations that use it. `g` is the
  lookup map and `t` the entry table. The site passes
  `ArkansasCities == ToMap(CityTable)` and `CityTable`. `CityTable` lists
  the object literal's entries in source order. `ToMap` gives each key
  the value of its last entry, as an object literal does.
- `calculateDistance` is the parameter `dist` of `FindClosestDealer`. The
  result is proved to be the first minimum for whatever `dist` returns.
- `minDistance = Infinity` is `None`.
- The test `dealer.latitude && dealer.longitude` is `HasCoords`: both
  values present and neither zero.
- The CSV parser's output is the input: a sequence of header-keyed rows
  (`map<string, string>`).
- `facebookUrl`, `email` and `threeDBuilderUrl` are optional in the
  `Dealer` type. `parseDealers` always sets them, to `''` when the cell
  is missing, so `ToDealer` yields `Some(...)` for all three.

Points of the code a reader might not expect:

- Zip search is a plain substring test (`includes`), not a prefix test.
- Parsing has no error path. The code ignores the parser's error list and
  maps whatever rows come back.
- The optional text fields are never absent after parsing.

## Model

| member | source | states |
|---|---|---|
| `Dealers.ToMap` | src/lib/dealers.ts:19-82 | The gazetteer's keys are exactly the table's city names. |
| `Dealers.ToMapLastWins` | src/lib/dealers.ts:19-82 | A key whose entry is the last with that name maps to that entry's pair, as with duplicate keys in an object literal. |
| `Dealers.ObjectKeys` | src/lib/dealers.ts:156 | `Object.keys` lists every gazetteer key once and nothing else. |
| `Dealers.ToDealer` | src/lib/dealers.ts:101-119 | Each field is read from its exact header (`'Website Disp'`, `'Shipping Stre'`, `'Shipping Zip/'`, `'Email Addres'`, `'3D Builder Si'`, ...). A missing header gives `''`. The three optional text fields are always present. Coordinates exist iff the city string is exactly a gazetteer key, and then they equal that key's pair. |
| `Dealers.ParseDealers` | src/lib/dealers.ts:98-121 | Every returned dealer has a non-empty name and city. Its coordinates come from the gazetteer as in `ToDealer`. There are never more dealers than rows. |
| `Dealers.ParseDealersKeepsRows` | src/lib/dealers.ts:101-120 | The output is the rows with non-empty `'Website Disp'` and `'Shipping City'` cells, mapped in input order. Its length is the number of such rows. |
| `Dealers.ParseDealersIsSubseq` | src/lib/dealers.ts:120 | The parsed dealers are an order-preserving subsequence of the per-row records. |
| `Dealers.ParsedHasCoords` | src/lib/dealers.ts:132 | The test `dealer.latitude && dealer.longitude` (`HasCoords`) passes for a parsed dealer exactly when its city is a gazetteer key whose latitude and longitude are both non-zero. |
| `Dealers.FindClosestDealer` | src/lib/dealers.ts:124-146 | A city that is not a gazetteer key gives None, whatever the dealers. For a known city, the result is None iff no dealer has both coordinates present and non-zero. Otherwise it is a dealer at minimum `dist` among those with coordinates, and every earlier such dealer is strictly farther (the first minimum wins ties). |
| `Dealers.NearestAtOwnCoordinates` | src/lib/dealers.ts:131-143 | Take a distance that is non-negative and zero exactly between equal points. Then the first dealer standing at the city's own coordinates is the only admissible result. |
| `Dealers.UniqueCities` | src/lib/dealers.ts:149-152 | The result is strictly ascending, so it has no duplicates. Its elements are exactly the dealers' cities. |
| `Dealers.UniqueCitiesDependsOnlyOnCitySet` | src/lib/dealers.ts:149-152 | Two dealer lists naming the same set of cities give the same list, whatever their order or repetitions. |
| `Dealers.MajorCities` | src/lib/dealers.ts:155-157 | The result is strictly ascending. Its elements are exactly the gazetteer keys. |
| `Dealers.MajorCitiesCount` | src/lib/dealers.ts:155-157 | It has as many entries as the gazetteer has keys. |
| `Dealers.DealersInCity` | src/lib/dealers.ts:160-164 | The result is an order-preserving subsequence of the input. It keeps a dealer iff its lower-cased city equals the lower-cased query. Each kept dealer appears as often as in the input, and no other dealer appears. |
| `Dealers.DealersInCityIgnoresCase` | src/lib/dealers.ts:160-164 | Queries that differ only in the case of their ASCII letters select identical lists. |
| `SearchDealers.HandleSearch` | src/components/SearchDealers.tsx:15-30 | The result is always an order-preserving subsequence of the input, never longer. |
| `SearchDealers.BlankTermShowsAll` | src/components/SearchDealers.tsx:16-18 | A term made only of white space returns the input list unchanged, in either mode. |
| `SearchDealers.CitySearchSelects` | src/components/SearchDealers.tsx:21-23 | In city mode, with a non-blank term, a dealer is kept iff the lower-cased term occurs in its lower-cased city. A kept dealer appears as often as in the input. |
| `SearchDealers.CitySearchIgnoresCase` | src/components/SearchDealers.tsx:16-23 | In city mode, two terms that differ only in the case of their ASCII letters give the same list, blank or not. |
| `SearchDealers.ZipSearchSelects` | src/components/SearchDealers.tsx:21-25 | In zip mode, with a non-blank term, a dealer is kept iff the term occurs in its zip code, case-sensitively. A kept dealer appears as often as in the input. |
| `SearchDealers.NoMatchGivesEmpty` | src/components/SearchDealers.tsx:21-29 | A non-blank term that matches no dealer gives the empty list, not the full list. |
| `SearchDealers.UntrimmedTermMatchesNothing` | src/components/SearchDealers.tsx:16-25 | Trimming is only used for the blank test. A non-blank term containing white space therefore matches no dealer whose searched field (the city in city mode, the zip in zip mode) has none. |
| `Strings.TrimEmptyIffBlank` | src/components/SearchDealers.tsx:16 | `trim()` returns `''` exactly when every character is white space. |
| `Strings.TrimStartSuffix` | src/components/SearchDealers.tsx:16 | Trimming the front drops exactly the leading white space: the result is a suffix of the input, everything dropped is white space, and the result does not start with white space. |
| `Strings.TrimEndPrefix` | src/components/SearchDealers.tsx:16 | Trimming the end drops exactly the trailing white space, symmetrically. |
| `Strings.LowerChar` | src/components/SearchDealers.tsx:23 | `toLowerCase` on one character: an ASCII capital becomes the small form of the same letter, and every other character is unchanged. |
| `Strings.ToLower` | src/lib/dealers.ts:162 | `toLowerCase` keeps the length and lower-cases each character in place. |
| `Strings.ToLowerEqualIffSameUpToCase` | src/lib/dealers.ts:162 | Two strings lower-case to the same string exactly when they have the same length and each pair of characters is equal or is the capital and small form of one letter. |
| `Strings.IncludesIffOccurs` | src/components/SearchDealers.tsx:23-25 | `includes` holds exactly when the term equals some slice of the string. |
| `Strings.Sort` | src/lib/dealers.ts:151 | `sort()` returns a permutation of its input (same multiset). |
| `Strings.SortSorted` | src/lib/dealers.ts:151 | The output of `sort()` is in non-decreasing character-wise order. |
| `Strings.SortedUnique` | src/lib/dealers.ts:151 | `[...new Set(xs)].sort()` is strictly ascending and holds exactly the values of `xs`. |
| `Strings.SortDistinctStrict` | src/lib/dealers.ts:151-156 | Sorting values that are already distinct gives a strictly ascending list of the same values. |
| `Strings.StrictlySortedUnique` | src/lib/dealers.ts:151 | A strictly ascending list is determined by its set of elements. |
| `Seqs.Dedup` | src/lib/dealers.ts:151 | `[...new Set(xs)]` is duplicate-free, holds exactly the values of `xs`, and is no longer than `xs`. |
| `Seqs.Map` | src/lib/dealers.ts:150 | `map` keeps the length and applies the function at each index. |
| `Seqs.Filter` | src/lib/dealers.ts:161-163 | `filter` is never longer than its input. Everything it returns comes from the input and passes the test, and every passing input value is returned. |
| `Seqs.FilterCount` | src/components/SearchDealers.tsx:21-27 | `filter` keeps each passing value as many times as it occurs in the input and drops every copy of the others. |
| `Locations.Hyphenate` | src/app/locations/page.tsx:36 | `replace(/\s+/g, '-')` leaves no white space. It is never longer than its input. |
| `Locations.HyphenateChars` | src/app/locations/page.tsx:36 | Every character of the replacement's output is a `'-'` or comes from its input. |
| `Locations.Slug` | src/app/locations/page.tsx:36 | The slug contains no white space and is never longer than the city. |
| `Locations.SlugOfWord` | src/app/locations/page.tsx:36 | A city without white space slugs to its lower-cased self. |
| `Locations.SlugRun` | src/app/locations/page.tsx:36 | A word followed by a maximal white-space run slugs to the lower-cased word, then exactly one `'-'`, then the slug of the rest. |
| `Locations.SlugKeepsOthers` | src/app/locations/page.tsx:36 | Leaving out `'-'`, the slug's characters are the city's lower-cased characters other than white space and `'-'`, in order. |
| `Locations.SlugIdempotent` | src/app/locations/page.tsx:36 | Slugging a slug changes nothing. |
| `Locations.LocationLinks` | src/app/locations/page.tsx:33-46 | There is one link per entry of `getMajorArkansasCities()`, in that order. Each link's target is `/locations/` plus its city's slug. |
| `Locations.LocationHref` | src/app/locations/page.tsx:36 | The target starts with `/locations/` and contains no white space. |
| `Locations.HrefIdentifiesSlug` | src/app/locations/page.tsx:36 | Two cities have the same target exactly when they have the same slug. |
| `Locations.DealerCardHref` | src/components/DealerList.tsx:91 | The card's own copy of the template gives the same target as the locations page's for the dealer's city. |
| `Locations.OneLinkPerCity` | src/app/locations/page.tsx:6-46 | The page has as many links as the gazetteer has keys. A city has a link exactly when it is a gazetteer key. |
| `Locations.LinksAscending` | src/app/locations/page.tsx:6-46 | The links appear in strictly ascending city order. |
| `Locations.DealerCardLinksToCityPage` | src/components/DealerList.tsx:91 | A dealer card whose city is a gazetteer key links to exactly the target of that city's link on the locations page. Both use the same slug rule. |

## Left out

- `calculateDistance` (src/lib/dealers.ts:85-95) is not modelled: the Haversine formula, its floating-point `sin`/`cos`/`atan2` and the 3959-mile radius. The distance is a parameter, so the argmin is proved for any distance function.
- CSV tokenising by the Papa Parse library (src/lib/dealers.ts:99) is a foreign library. The model starts from its header-keyed rows, and it ignores the parser's error list as the code does.
- JavaScript numbers are modelled as reals. NaN coordinates, which are falsy in the source, and infinite distances do not occur in the model.
- `toLowerCase`, `trim` and `\s` cover ASCII only. Unicode case mapping and non-ASCII white space are not modelled.
- `sort()` compares UTF-16 code units. The model compares characters, and the two agree on the Basic Multilingual Plane.
- Lookups are on a plain finite map. The inherited properties of `ARKANSAS_CITIES[city]` (for example the key `"constructor"`) are not modelled.
- No lemma is about the concrete 61-entry table, for example that its slugs are pairwise distinct. Unfolding the 61-entry literal exceeds Dafny's resource limit, so every property is proved for any table and therefore holds for `CityTable`.
- React state, effects and rendering are not modelled (`useState`, `useEffect`, JSX). Neither are `src/components/DealerMap.tsx`, whose coordinate filter is the same test as `HasCoords`, and the static `Header.tsx` and `layout.tsx`.
- The per-city page (`src/app/locations/[city]/page.tsx`) is not modelled. It turns a slug back into a city name for a lookup.
