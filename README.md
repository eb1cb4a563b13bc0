# Price catalog server: a Dafny model

The server (`server.js`) keeps a directory of JSON price files. It has no
database: on every request it rebuilds a catalog from that directory. The
catalog is an object that maps a category name to a list of enriched product
records. Three JSON endpoints read the catalog:

- `/api/categories` lists the category names;
- `/api/items` returns one category's records;
- `/api/search` returns up to 1000 records whose lower-cased serialization
  contains the query.

This project models that core in Dafny and proves properties of it:

- `Shape` models `readFlexible`. A parsed file is either a flat list of items
  or an object of named buckets. An object without any list values falls back
  to the list of its values. Anything else, and any read or parse failure,
  is an empty list.
- `Tax` models `withTax`. It coerces with `Number`, then rounds to cents
  half-up, and answers `null` for a non-finite price.
- `Enrich` models the per-item copy `{...item, _id, _category, price_with_tax}`
  and the name `base_bucket` that a bucket gets.
- `CatalogLoader` models `loadFromDir`:
  - keep the names ending in `.json` in any letter case, and sort them;
  - strip the suffix to get the base name;
  - assign each file's categories into the catalog in that order, where a
    later assignment replaces an earlier one and keeps its position.
- `Api` models the three endpoints.

The modules below them describe the JavaScript they rely on:

- `Assoc`: a plain object as an insertion-ordered list of distinct keys;
  assigning to an existing key keeps its place.
- `Js`: JSON values, own properties and the spread, and `Number()`.
- `Text`: ASCII `toLowerCase`, `trim` and `\s` over the ECMAScript whitespace
  set, `replace(/\s+/g, "_")`, the `.json` suffix, and `includes`.
- `Decimal`: how an index prints.
- `Sorting`: the default `sort`, which orders strings lexicographically.

The outside world enters as parameters:

- The directory is a `Dir` value: the names it lists, plus the parsed contents
  of each name that can be read and parsed. A missing directory is `None`.
- `Runtime` carries `TAX_RATE` and two builtins that are not modelled:
  - `Number()` on a string;
  - `JSON.stringify`, where `None` means it throws.

The model follows the code as written, with two exceptions. The two defects
listed under "## Findings" are modelled both ways, and the catalog and the
handlers use the corrected half (see "## Left out"). The model keeps these
details of the code, which a reader might not expect:

- The base name of a list file is not lower-cased. Only bucket category names
  are.
- A file that cannot be read or parsed still assigns an empty category under
  its base name. That replaces any category of the same name from an earlier
  file (`CatalogLoader.CatalogLastFile`).
- `Number(null)` is 0, so an explicit `null` price gets `price_with_tax` 0.
  Only a price that `Number()` does not turn into a finite number gets `null`
  (`Tax.WithTaxMissingAndNull`). So `true`, `[]` and `[null]` count as 1, 0
  and 0.
- `Math.round` rounds halves up, not away from zero.
- A key repeated in one JSON object keeps its last value at the place of its
  first occurrence.
- A category named by the empty string (from a file called `.json`) exists
  but can never be fetched through `/api/items`.

## Model

| member | source | states |
|---|---|---|
| Shape.ReadFlexible | server.js:15-30 | the loop that collects list-valued entries produces exactly the document `Detect` describes |
| Shape.DetectCases | server.js:19-29 | a list is taken as is; an object is buckets exactly when some own value is a list, the bucket keys being its list-valued keys in the object's order, each bucket holding exactly that value; otherwise the list of its values in order; anything else, or a failed read, is an empty list |
| Shape.ListEntriesInOrder | server.js:22-23 | the buckets keep the object's order: their keys are exactly its list-valued keys, in sequence |
| Shape.ListEntriesGet | server.js:21-24 | looking up a key in the buckets gives the list that key held in the object, and nothing for a non-list value |
| Tax.WithTax | server.js:32-39 | `null` exactly when `Number(price)` is not finite; otherwise a finite number that is a whole number of cents, within half a cent of price times (1 + rate) |
| Tax.RoundCents | server.js:36 | the result is a whole number of cents within half a cent of the input |
| Tax.RoundCentsExact | server.js:36 | an amount already in whole cents is unchanged by the rounding |
| Js.ToNumberFacts | server.js:33 | `Number`: `undefined` and an object are NaN; `null`, a boolean and `[]` are finite; a number is itself; an array of two or more elements is NaN |
| Js.ArrayToNumberSingleton | server.js:33 | `Number([x])` equals `Number(x)` exactly when `x` is not a boolean; `Number([true])` is NaN |
| Tax.WithTaxMissingAndNull | server.js:33-38 | a missing price gives `null`; a `null` price counts as 0 |
| Js.Indexed | server.js:52 | spreading a list or string yields keys "0", "1", … in order, each holding its element, all distinct |
| Js.OwnPropsOfObject | server.js:22 | the entries of a parsed object without repeated keys are its fields, in order |
| Decimal.ValueOfNatToString | server.js:52 | the printed index reads back as the index |
| Decimal.NatToStringInjective | server.js:52 | distinct indices print differently |
| Enrich.MakeIdInjective | server.js:52 | an `_id` `cat:idx` determines both its category and its index |
| Enrich.BuildRecordFields | server.js:52 | the three reserved keys hold the id, the category and the tax value; every other key keeps the spread value; the spread keys keep their order, and the reserved keys it lacks follow in the order `_id`, `_category`, `price_with_tax` |
| Enrich.EnrichFields | server.js:52 | an enriched record holds `cat:idx`, `cat`, and `withTax(item.price)` under the reserved keys, and the item's own value under every other key |
| Enrich.EnrichAllRecords | server.js:52 | N items become N records in order; record i has `_id` `cat:i` and `_category` `cat`; the ids are pairwise distinct |
| Enrich.EnrichAsWritten | server.js:52 | as written, the enrichment fails exactly on a `null` item, and otherwise agrees with `Enrich` |
| Enrich.CategoryNameShape | server.js:55 | a bucket category name has no whitespace and no upper-case letter; it ignores the letter case of the file and bucket names; an already clean `base_bucket` is kept as is |
| Text.ToLowerFacts | server.js:46 | lower-casing keeps the length, leaves no upper-case letter, and is idempotent |
| Text.StripJsonSuffix | server.js:49 | a name ending in `.json` in any case loses exactly those five characters; any other name is unchanged |
| Text.TrimFacts | server.js:71 | the result is a contiguous piece of the input, with only whitespace removed at either end and none left there |
| Text.TrimEmpty | server.js:79 | trimming gives the empty string exactly when the input is all whitespace |
| Text.TrimIdempotent | server.js:71 | trimming twice is trimming once |
| Text.ReplaceSpaceRuns | server.js:55 | the result contains no whitespace and is no longer than the input |
| Text.ReplaceSpaceRunsSplit | server.js:55 | a whitespace run between two pieces becomes one underscore between their replacements |
| Text.ReplaceSpaceRunsNoSpace | server.js:55 | a string without whitespace is unchanged |
| Text.ReplaceSpaceRunsNoUpper | server.js:55 | the replacement introduces no upper-case letter |
| Text.ContainsIff | server.js:84 | `includes` holds exactly when the query occurs at some position of the text |
| Sorting.Sort | server.js:46 | the result is sorted and a permutation of the input |
| Sorting.SortedUnique | server.js:46 | two sorted permutations of the same names are equal |
| Sorting.SortIgnoresOrder | server.js:46 | the sorted names do not depend on the order they were listed in |
| Assoc.PutGet | server.js:52 | after `m[k] = v`, `m[k]` is `v` and every other key reads as before |
| Assoc.PutKeys | server.js:23 | a new key is appended at the end; an existing key keeps its place |
| Assoc.PutAllKeys | server.js:53-57 | after a run of assignments the old keys keep their places and the new keys follow in order of first assignment; a re-assigned key keeps its first place |
| Assoc.PutAllLastWins | server.js:56 | in a run of assignments, the last one to a key decides its value |
| CatalogLoader.EligibleCount | server.js:46 | the filter keeps every copy of a `.json` name and drops every other name |
| CatalogLoader.ProcessedFacts | server.js:46 | the names visited are sorted, all end in `.json`, and are exactly the listed `.json` names |
| CatalogLoader.Catalog | server.js:43-61 | the catalog's category names are distinct |
| CatalogLoader.LoadFromDir | server.js:43-61 | the nested loops build exactly the catalog `Catalog` describes, and an empty one for a missing directory |
| CatalogLoader.AssignFile | server.js:48-58 | one file's pass assigns exactly that file's categories, in order |
| CatalogLoader.AssignBuckets | server.js:54-57 | the bucket loop assigns one category per bucket, in bucket order |
| CatalogLoader.CatalogNumbered | server.js:51-57 | every record of category c carries `_category` c, and the one at position i carries `_id` `c:i` |
| CatalogLoader.CatalogIdsDistinct | server.js:51-57 | no two records anywhere in the catalog share an `_id` |
| CatalogLoader.FileWritesKeys | server.js:51-57 | a list file names the category of its base name; a bucket file names one category per bucket |
| CatalogLoader.CatalogOrder | server.js:47-58 | the categories come in the order they are first assigned, file after file and bucket after bucket; a re-assigned category keeps its first place |
| CatalogLoader.CatalogPrefix | server.js:47-58 | the categories the first files give come first, in the same order |
| CatalogLoader.CatalogKeys | server.js:46-58 | the categories are exactly the names that the visited files give |
| CatalogLoader.CatalogLastWriteWins | server.js:47-58 | an assignment that no later one overwrites decides its category |
| CatalogLoader.CatalogUntouched | server.js:47-58 | a category that no later file names keeps exactly what the earlier files gave it |
| CatalogLoader.CatalogLastFile | server.js:47-52 | the last file, if it is a list or is read as one, owns its base-name category; if it cannot be read, that category is empty |
| CatalogLoader.CatalogIgnoresListing | server.js:46 | the catalog depends only on the listed `.json` names, with multiplicity, and the files' contents |
| CatalogLoader.NullPriceObjectThrows | server.js:26 | a single product object with a `null` price is read as a list whose second item is `null`, and enriching that item as written fails |
| Api.ListCategories | server.js:65-68 | the reply is the catalog's category names in order, which is the order in which categories are first assigned |
| Api.CategoriesListed | server.js:67 | the names listed are distinct, and exactly those names have records |
| Api.ItemsFor | server.js:73 | the corrected lookup never answers with an inherited member |
| Api.ItemsForCases | server.js:73-74 | records are returned exactly for a non-empty name that is a category, and they are that category's records; every other name is refused |
| Api.ItemsForAsWritten | server.js:73 | as written, a name inherited from `Object.prototype` that is not a category gets through; every other name gets the corrected reply |
| Api.ConstructorCategory | server.js:73 | `category=constructor` gets through as written and is refused when corrected |
| Api.ListItems | server.js:70-75 | the handler trims the name, loads the catalog and replies as `ItemsFor` |
| Api.QueryParam | server.js:71 | a given parameter is taken as it is; the result is empty exactly when the parameter is absent or empty |
| Api.NormalizeQuery | server.js:78 | the query has no upper-case letter and no whitespace at either end |
| Api.NormalizeQueryEmpty | server.js:78 | the normalized query is empty exactly when the raw query is absent or all whitespace |
| Api.NormalizeQueryIgnoresCase | server.js:78 | the normalized query ignores the letter case of the raw query |
| Api.FuseTextFacts | server.js:41 | the searchable text has no upper-case letter; it is the serialization lower-cased letter by letter, or empty when serializing throws |
| Api.MatchingFacts | server.js:84-85 | the matches are records that contain the query, and every such record is among them |
| Api.ScanRows | server.js:83-88 | the inner loop appends the category's matches and stops once there are 1000 results |
| Api.Scan | server.js:82-90 | the nested loops return the first 1000 matches in catalog order, or all of them if there are fewer |
| Api.Search | server.js:77-92 | an empty query answers nothing without loading; otherwise the handler replies with the capped matches |
| Api.SearchResultsFacts | server.js:79-91 | at most 1000 results, each a catalog record that matches; exactly min(1000, number of matches) of them; below the cap, every match is returned; an empty query returns nothing |
| Api.MatchesIff | server.js:84 | a record matches exactly when the query occurs in its lower-cased serialization |
| Api.SearchIgnoresCase | server.js:78 | lower-casing the raw query does not change the results |

## Left out

- Reading the directory and its files, Express routing, static files, the
  catch-all route and logging are not modelled. The directory is a value.
- `PORT`, `PRICE_DIR` and `TAX_RATE` come from the environment. The rate is a
  parameter; `parseFloat` is not modelled.
- Floating point is not modelled. `withTax` computes in exact reals, so binary
  rounding in `p * (1 + TAX_RATE)` and `total * 100` is not captured.
- `Number()` on a string is a parameter, because its numeric-literal grammar is
  not modelled. `JSON.stringify` is a parameter as well.
- `toLowerCase` maps only ASCII letters. Unicode case mapping is not modelled.
- `sort` compares UTF-16 code units. The model compares characters, which
  differs only for names with characters outside the Basic Multilingual Plane.
- Integer-like keys (`"0"`, `"12"`) come first in a JS object's key order. The
  model keeps plain insertion order for the catalog, the buckets and parsed
  objects.
- Assigning a category named `__proto__` calls a setter instead of creating a
  key. The model treats it as an ordinary key.
- Shape.Detect: in `readFlexible`, `buckets["__proto__"] = v` replaces the
  prototype of `buckets` and adds no bucket. So an object whose only list sits
  under `__proto__` falls back to `Object.values`. The model makes an ordinary
  bucket of it, which gets the category `base___proto__`.
- Js.ToNumber: `Number()` throws a TypeError for an object with an own
  `toString` property, such as `{"price": {"toString": 0}}`, and for an array
  holding such an object. The model answers NaN, so `Tax.WithTax` gives
  `null` where the source throws. Objects are always NaN in the model.
- Js.OwnProps: spreading a string gives one key per UTF-16 code unit. The
  model gives one key per character, which differs only for characters
  outside the Basic Multilingual Plane.
- CatalogLoader.Catalog uses the corrected enrichment `Enrich.Enrich`, not
  `Enrich.EnrichAsWritten`. As written, a `null` item makes `loadFromDir`
  throw. The model instead builds a catalog with a record for that item, so
  it does not promise that loading fails.
- CatalogLoader.LoadFromDir builds exactly `CatalogLoader.Catalog`. So on a
  directory holding a `null` item it returns a catalog where the source
  throws.
- Api.ListCategories loads the catalog through `CatalogLoader.LoadFromDir`.
  It therefore lists categories where the source fails with an error on a
  directory holding a `null` item.
- Api.Search loads the catalog through `CatalogLoader.LoadFromDir`. It
  therefore answers where the source fails with an error on a directory
  holding a `null` item, unless the query is empty.
- Api.ListItems loads the catalog through `CatalogLoader.LoadFromDir`. It
  therefore answers where the source fails with an error on a directory
  holding a `null` item.
- Api.ListItems replies as the corrected `Api.ItemsFor`, not as
  `Api.ItemsForAsWritten`. For a name inherited from `Object.prototype` that
  is not a category, such as `constructor`, it refuses the name. The source
  answers `ok: true` for such a name.
- A query parameter given more than once arrives as an array, and `String()`
  would join it. The model takes a parameter to be a string or absent.
- A repeated entry in a directory listing cannot occur on a real file system.
  The model allows it and processes each copy.

## Findings

| source | as written | input that shows it | evidently intended | confidence | as-written member | corrected member |
|---|---|---|---|---|---|---|
| server.js:52 | `withTax(item.price)` reads `price` from every item, including `null`, which throws a TypeError. That ends `loadFromDir`, and every request that loads the catalog fails. | a file holding `{"name": "milk", "price": null}`, read as the items `["milk", null]` (`CatalogLoader.NullPriceObjectThrows`); or a file holding `[null]` | a `null` item is enriched like an empty object: a record with only `_id`, `_category` and `price_with_tax` `null` | medium, not executed | Enrich.EnrichAsWritten | Enrich.Enrich |
| server.js:73 | `!db[cat]` also finds members that every object inherits from `Object.prototype`. The handler then answers `ok: true` without a list of items. | `/api/items?category=constructor` (`Api.ConstructorCategory`); also `toString`, `valueOf`, `__proto__` and the rest of `Api.PrototypeNames` | only the catalog's own categories are found; any other name gets the 400 "Unknown category" | high, not executed | Api.ItemsForAsWritten | Api.ItemsFor |
