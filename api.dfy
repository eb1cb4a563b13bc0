/**
  The three JSON endpoints over the catalog: `/api/categories`, `/api/items`
  and `/api/search`. Every request rebuilds the catalog from the directory.
 */
module Api {
  import opened Wrappers
  import opened Seqs
  import opened Assoc
  import opened Text
  import opened Js
  import opened CatalogLoader

  /** `String(req.query.x || "")`: a missing (or empty) parameter is the empty string. */
  function QueryParam(raw: Option<string>): (r: string)
    ensures raw.Some? ==> r == raw.value
    ensures r == "" <==> raw.None? || raw.value == ""
  {
    raw.GetOr("")
  }

  // ---- GET /api/categories ----

  /** `{ok: true, categories: Object.keys(db)}`: the category names in insertion order. */
  method ListCategories(dir: Option<Dir>, rt: Runtime) returns (cats: seq<string>)
    ensures cats == Keys(Catalog(dir, rt))
    ensures dir.Some? ==> cats == Fresh([], Keys(AllWrites(Processed(dir.value), dir.value.files, rt)))
  {
    var db := LoadFromDir(dir, rt);
    cats := Keys(db);
    if dir.Some? {
      CatalogOrder(dir.value, rt);
    }
  }

  /** The names listed are pairwise distinct, and every one of them, and only those, has a list of records. */
  lemma CategoriesListed(dir: Option<Dir>, rt: Runtime)
    ensures forall i, j :: 0 <= i < j < |Keys(Catalog(dir, rt))| ==> Keys(Catalog(dir, rt))[i] != Keys(Catalog(dir, rt))[j]
    ensures forall c :: c in Keys(Catalog(dir, rt)) <==> Get(Catalog(dir, rt), c).Some?
  {
    var db := Catalog(dir, rt);
    KeysLength(db);
    forall i, j | 0 <= i < j < |Keys(db)| ensures Keys(db)[i] != Keys(db)[j] {
      KeysAt(db, i);
      KeysAt(db, j);
    }
  }

  // ---- GET /api/items ----

  /**
    The reply of `/api/items`. `UnknownCategory` is the 400 reply
    `{ok: false, error: "Unknown category"}`; `Inherited` is a 200 reply whose
    `items` is a member every object inherits rather than a list of records.
   */
  datatype ItemsReply = Items(items: seq<Props>) | UnknownCategory | Inherited(name: string)

  /** The names every plain object inherits from `Object.prototype`; each is truthy. */
  const PrototypeNames: set<string> := {
    "constructor", "__defineGetter__", "__defineSetter__", "hasOwnProperty",
    "__lookupGetter__", "__lookupSetter__", "isPrototypeOf", "propertyIsEnumerable",
    "toString", "valueOf", "__proto__", "toLocaleString"
  }

  /**
    `if(!cat || !db[cat]) ...` as written: an inherited member passes the test.
    A name inherited from `Object.prototype` that is not a category is answered
    as if it were one; every other name gets the same reply as the corrected
    check `ItemsFor`.
   */
  function ItemsForAsWritten(cat: string, db: CatMap): (r: ItemsReply)
    ensures r.Inherited? <==> cat in PrototypeNames && cat !in Keys(db)
    ensures r.Inherited? ==> r.name == cat && ItemsFor(cat, db) == UnknownCategory
    ensures !r.Inherited? ==> r == ItemsFor(cat, db)
  {
    if cat == "" then UnknownCategory
    else match Get(db, cat)
      case Some(recs) => Items(recs)
      case None => if cat in PrototypeNames then Inherited(cat) else UnknownCategory
  }

  /** The reply for a trimmed category name, looking only at the catalog's own categories. */
  function ItemsFor(cat: string, db: CatMap): (r: ItemsReply)
    ensures !r.Inherited?
  {
    if cat == "" then UnknownCategory
    else match Get(db, cat)
      case Some(recs) => Items(recs)
      case None => UnknownCategory
  }

  /**
    A category's records are returned exactly when the name is non-empty and
    one of the catalog's categories; any other name is refused. A category
    named by the empty string (from a file called `.json`) can therefore never
    be listed.
   */
  lemma ItemsForCases(cat: string, db: CatMap)
    ensures ItemsFor(cat, db).Items? <==> cat != "" && cat in Keys(db)
    ensures ItemsFor(cat, db).Items? ==> (cat, ItemsFor(cat, db).items) in db
    ensures ItemsFor(cat, db) == UnknownCategory <==> cat == "" || cat !in Keys(db)
  {
  }

  /** `/api/items?category=constructor` on a directory that does not exist. */
  lemma ConstructorCategory(rt: Runtime)
    ensures ItemsForAsWritten("constructor", Catalog(None, rt)) == Inherited("constructor")
    ensures ItemsFor("constructor", Catalog(None, rt)) == UnknownCategory
  {
    assert "constructor" in PrototypeNames;
  }

  /** GET /api/items: trim the requested name, load the catalog, look the category up. */
  method ListItems(rawCategory: Option<string>, dir: Option<Dir>, rt: Runtime) returns (reply: ItemsReply)
    ensures reply == ItemsFor(Trim(QueryParam(rawCategory)), Catalog(dir, rt))
  {
    var cat := Trim(QueryParam(rawCategory));
    var db := LoadFromDir(dir, rt);
    if cat == "" {
      return UnknownCategory;
    }
    var found := Get(db, cat);
    if found.None? {
      return UnknownCategory;
    }
    reply := Items(found.value);
  }

  // ---- GET /api/search ----

  /** The most results one search returns. */
  const MaxResults: nat := 1000

  /**
    `String(req.query.q || "").toLowerCase().trim()`: the query has no
    upper-case letter and no whitespace at either end.
   */
  function NormalizeQuery(raw: Option<string>): (q: string)
    ensures NoUpper(q)
    ensures q == [] || (!IsSpace(q[0]) && !IsSpace(q[|q| - 1]))
  {
    var lowered := ToLower(QueryParam(raw));
    ToLowerFacts(QueryParam(raw));
    TrimNoUpper(lowered);
    TrimFacts(lowered);
    Trim(lowered)
  }

  /** Lowercasing keeps exactly the whitespace there was. */
  lemma ToLowerAllSpace(s: string)
    ensures AllSpace(ToLower(s)) <==> AllSpace(s)
  {
    forall k | 0 <= k < |s| ensures IsSpace(ToLower(s)[k]) <==> IsSpace(s[k]) {
      LowerCharSpace(s[k]);
    }
  }

  /** A piece of a string without upper-case letters has none either. */
  lemma TrimNoUpper(s: string)
    requires NoUpper(s)
    ensures NoUpper(Trim(s))
  {
    var t := TrimStart(s);
    NoUpperSuffix(s, |s| - |t|);
    NoUpperPrefix(t, |TrimEnd(t)|);
  }

  /** The normalized query is empty exactly when the raw query is all whitespace (or absent). */
  lemma NormalizeQueryEmpty(raw: Option<string>)
    ensures NormalizeQuery(raw) == [] <==> AllSpace(QueryParam(raw))
  {
    TrimEmpty(ToLower(QueryParam(raw)));
    ToLowerAllSpace(QueryParam(raw));
  }

  /** The normalized query does not depend on the letter case of the raw query. */
  lemma NormalizeQueryIgnoresCase(raw: Option<string>)
    ensures NormalizeQuery(Some(ToLower(QueryParam(raw)))) == NormalizeQuery(raw)
  {
    ToLowerFacts(QueryParam(raw));
  }

  /** `fuseText`: the record serialized and lower-cased; `""` when serializing throws. */
  function FuseText(item: Props, rt: Runtime): string {
    match rt.stringify(JObject(item))
    case None => ""
    case Some(text) => ToLower(text)
  }

  /**
    The searchable text has no upper-case letter; it is the serialization
    letter by letter in lower case, or empty when serializing throws.
   */
  lemma FuseTextFacts(item: Props, rt: Runtime)
    ensures NoUpper(FuseText(item, rt))
    ensures rt.stringify(JObject(item)).None? ==> FuseText(item, rt) == ""
    ensures rt.stringify(JObject(item)).Some? ==>
      var text := rt.stringify(JObject(item)).value;
      |FuseText(item, rt)| == |text| && forall k :: 0 <= k < |text| ==> FuseText(item, rt)[k] == LowerChar(text[k])
  {
  }

  predicate Matches(item: Props, q: string, rt: Runtime) {
    Contains(FuseText(item, rt), q)
  }

  /** All records, category after category in insertion order. */
  function Flatten(db: CatMap): seq<Props> {
    if db == [] then [] else Flatten(db[..|db| - 1]) + db[|db| - 1].1
  }

  /** The matching records, in order. */
  function Matching(items: seq<Props>, q: string, rt: Runtime): seq<Props> {
    if items == [] then []
    else Matching(items[..|items| - 1], q, rt) + if Matches(items[|items| - 1], q, rt) then [items[|items| - 1]] else []
  }

  /** At most the first `n` elements. */
  function Take<T>(s: seq<T>, n: nat): seq<T> {
    if |s| <= n then s else s[..n]
  }

  /** What `/api/search` answers for a normalized query. */
  function SearchResults(q: string, db: CatMap, rt: Runtime): seq<Props> {
    if q == "" then [] else Take(Matching(Flatten(db), q, rt), MaxResults)
  }

  lemma {:induction false} FlattenAppend(a: CatMap, b: CatMap)
    ensures Flatten(a + b) == Flatten(a) + Flatten(b)
    decreases |b|
  {
    if b == [] {
      assert a + b == a;
    } else {
      var b' := b[..|b| - 1];
      assert (a + b)[..|a + b| - 1] == a + b';
      assert (a + b)[|a + b| - 1] == b[|b| - 1];
      FlattenAppend(a, b');
      assert Flatten(a + b) == Flatten(a + b') + b[|b| - 1].1;
      ConcatAssoc(Flatten(a), Flatten(b'), b[|b| - 1].1);
    }
  }

  lemma {:induction false} MatchingAppend(a: seq<Props>, b: seq<Props>, q: string, rt: Runtime)
    ensures Matching(a + b, q, rt) == Matching(a, q, rt) + Matching(b, q, rt)
    decreases |b|
  {
    if b == [] {
      assert a + b == a;
    } else {
      var b' := b[..|b| - 1];
      assert (a + b)[..|a + b| - 1] == a + b';
      assert (a + b)[|a + b| - 1] == b[|b| - 1];
      MatchingAppend(a, b', q, rt);
    }
  }

  /** Every match is one of the given records and matches the query; every record that matches is kept. */
  lemma {:induction false} MatchingFacts(items: seq<Props>, q: string, rt: Runtime)
    ensures |Matching(items, q, rt)| <= |items|
    ensures forall r :: r in Matching(items, q, rt) ==> r in items && Matches(r, q, rt)
    ensures forall r :: r in items && Matches(r, q, rt) ==> r in Matching(items, q, rt)
    decreases |items|
  {
    if items != [] {
      var init := items[..|items| - 1];
      MatchingFacts(init, q, rt);
      assert items == init + [items[|items| - 1]];
    }
  }

  /** Once the first part already fills the quota, what follows does not matter. */
  lemma TakeAppend<T>(x: seq<T>, y: seq<T>, n: nat)
    requires |x| >= n
    ensures Take(x + y, n) == Take(x, n)
  {
    assert (x + y)[..n] == x[..n];
  }

  lemma FlattenSplit(db: CatMap, c: nat)
    requires c < |db|
    ensures Flatten(db) == Flatten(db[..c + 1]) + Flatten(db[c + 1..])
  {
    assert db == db[..c + 1] + db[c + 1..];
    FlattenAppend(db[..c + 1], db[c + 1..]);
  }

  lemma FlattenNext(db: CatMap, c: nat)
    requires c < |db|
    ensures Flatten(db[..c + 1]) == Flatten(db[..c]) + db[c].1
  {
    assert db[..c + 1][..c] == db[..c];
  }

  lemma MatchingNext(rows: seq<Props>, i: nat, q: string, rt: Runtime)
    requires i < |rows|
    ensures Matching(rows[..i + 1], q, rt) == Matching(rows[..i], q, rt) + if Matches(rows[i], q, rt) then [rows[i]] else []
  {
    assert rows[..i + 1][..i] == rows[..i];
  }

  /** When the matches up to row `i` fill the quota, the later rows do not matter. */
  lemma RowsCapped(found: seq<Props>, rows: seq<Props>, i: nat, q: string, rt: Runtime)
    requires i < |rows|
    requires |found + Matching(rows[..i + 1], q, rt)| >= MaxResults
    ensures Take(found + Matching(rows, q, rt), MaxResults) == Take(found + Matching(rows[..i + 1], q, rt), MaxResults)
  {
    var x, y := rows[..i + 1], rows[i + 1..];
    assert rows == x + y;
    MatchingAppend(x, y, q, rt);
    assert Matching(rows, q, rt) == Matching(x, q, rt) + Matching(y, q, rt);
    TakeCapped(found, Matching(x, q, rt), Matching(y, q, rt), MaxResults);
  }

  lemma TakeCapped<T>(found: seq<T>, a: seq<T>, b: seq<T>, n: nat)
    requires |found + a| >= n
    ensures Take(found + (a + b), n) == Take(found + a, n)
  {
    ConcatAssoc(found, a, b);
    TakeAppend(found + a, b, n);
  }

  /**
    The inner loop of `/api/search` over one category's records: append the
    matches to `found` and stop as soon as there are `MaxResults` results.
   */
  method ScanRows(found: seq<Props>, rows: seq<Props>, q: string, rt: Runtime) returns (results: seq<Props>)
    requires |found| < MaxResults
    ensures results == Take(found + Matching(rows, q, rt), MaxResults)
  {
    results := found;
    var i := 0;
    while i < |rows|
      invariant i <= |rows|
      invariant results == found + Matching(rows[..i], q, rt)
      invariant |results| < MaxResults
    {
      MatchingNext(rows, i, q, rt);
      if Matches(rows[i], q, rt) {
        results := results + [rows[i]];
        if |results| >= MaxResults {
          RowsCapped(found, rows, i, q, rt);
          break;
        }
      }
      i := i + 1;
    }
    if i == |rows| {
      assert rows[..|rows|] == rows;
    }
  }

  /** The outer loop of `/api/search` over the categories, stopping at the cap. */
  method Scan(db: CatMap, q: string, rt: Runtime) returns (results: seq<Props>)
    ensures results == Take(Matching(Flatten(db), q, rt), MaxResults)
  {
    results := [];
    var c := 0;
    while c < |db|
      invariant c <= |db|
      invariant results == Matching(Flatten(db[..c]), q, rt)
      invariant |results| < MaxResults
    {
      results := ScanRows(results, db[c].1, q, rt);
      FlattenNext(db, c);
      MatchingAppend(Flatten(db[..c]), db[c].1, q, rt);
      if |results| >= MaxResults {
        FlattenSplit(db, c);
        MatchingAppend(Flatten(db[..c + 1]), Flatten(db[c + 1..]), q, rt);
        TakeAppend(Matching(Flatten(db[..c + 1]), q, rt), Matching(Flatten(db[c + 1..]), q, rt), MaxResults);
        break;
      }
      c := c + 1;
    }
    if c == |db| {
      assert db[..|db|] == db;
    }
  }

  /**
    GET /api/search: an empty query answers `[]` without loading the catalog;
    otherwise the matches across all categories, at most `MaxResults` of them.
   */
  method Search(rawQuery: Option<string>, dir: Option<Dir>, rt: Runtime) returns (items: seq<Props>)
    ensures items == SearchResults(NormalizeQuery(rawQuery), Catalog(dir, rt), rt)
  {
    var q := NormalizeQuery(rawQuery);
    if q == "" {
      return [];
    }
    var db := LoadFromDir(dir, rt);
    items := Scan(db, q, rt);
  }

  /**
    The results are catalog records that contain the query in their
    lower-cased serialization, at most `MaxResults` of them, in catalog order;
    below the cap every matching record is returned; an empty query returns
    nothing.
   */
  lemma SearchResultsFacts(q: string, db: CatMap, rt: Runtime)
    ensures |SearchResults(q, db, rt)| <= MaxResults
    ensures forall r :: r in SearchResults(q, db, rt) ==> r in Flatten(db) && Matches(r, q, rt)
    ensures q != "" ==> |SearchResults(q, db, rt)| == if |Matching(Flatten(db), q, rt)| < MaxResults then |Matching(Flatten(db), q, rt)| else MaxResults
    ensures q != "" && |Matching(Flatten(db), q, rt)| <= MaxResults ==>
      forall r :: r in Flatten(db) && Matches(r, q, rt) ==> r in SearchResults(q, db, rt)
    ensures q == "" ==> SearchResults(q, db, rt) == []
  {
    var all := Matching(Flatten(db), q, rt);
    MatchingFacts(Flatten(db), q, rt);
    forall r | r in SearchResults(q, db, rt) ensures r in all {
      if |all| > MaxResults {
        assert all == all[..MaxResults] + all[MaxResults..];
      }
    }
  }

  /** A record matches exactly when the query occurs somewhere in its lower-cased serialization. */
  lemma MatchesIff(item: Props, q: string, rt: Runtime)
    ensures Matches(item, q, rt) <==> exists i: nat :: OccursAt(FuseText(item, rt), q, i)
  {
    ContainsIff(FuseText(item, rt), q);
  }

  /** The search does not depend on the letter case of the query. */
  lemma SearchIgnoresCase(raw: Option<string>, db: CatMap, rt: Runtime)
    ensures SearchResults(NormalizeQuery(Some(ToLower(QueryParam(raw)))), db, rt) == SearchResults(NormalizeQuery(raw), db, rt)
  {
    NormalizeQueryIgnoresCase(raw);
  }
}
