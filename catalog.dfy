/**
  `loadFromDir`: reads every `.json` file of the price directory in sorted order
  and builds the catalog, a plain object from category name to enriched records.
 */
module CatalogLoader {
  import opened Wrappers
  import opened Seqs
  import opened Assoc
  import opened Text
  import opened Sorting
  import opened Js
  import opened Shape
  import opened Enrich

  /**
    A price directory: the names it lists, and the parsed contents of every
    file that can be read and parsed as JSON. A listed name that is missing
    from `files` is a file whose reading or parsing throws.
   */
  datatype Dir = Dir(listing: seq<string>, files: map<string, JSON>)

  /** A catalog: category name to its records, in insertion order. */
  type CatMap = Assoc<seq<Props>>

  /** What `readFlexible` gets to classify; `None` when reading or parsing throws. */
  function Parsed(files: map<string, JSON>, name: string): Option<JSON> {
    if name in files then Some(files[name]) else None
  }

  /** `.filter(f => f.toLowerCase().endsWith(".json"))` */
  function Eligible(names: seq<string>): (r: seq<string>)
    ensures forall f :: f in r ==> HasJsonSuffix(f)
  {
    if names == [] then []
    else (if HasJsonSuffix(names[0]) then [names[0]] else []) + Eligible(names[1..])
  }

  /** The filter keeps every copy of a `.json` name and drops every other name. */
  lemma {:induction false} EligibleCount(names: seq<string>, x: string)
    ensures multiset(Eligible(names))[x] == if HasJsonSuffix(x) then multiset(names)[x] else 0
    decreases |names|
  {
    if names != [] {
      assert names == [names[0]] + names[1..];
      EligibleCount(names[1..], x);
    }
  }

  /** The names the loop visits: the `.json` names, sorted. */
  function Processed(d: Dir): seq<string> {
    Sort(Eligible(d.listing))
  }

  /** The names visited are sorted, all end in `.json`, and are exactly the `.json` names listed. */
  lemma ProcessedFacts(d: Dir)
    ensures Sorted(Processed(d))
    ensures forall f :: f in Processed(d) ==> HasJsonSuffix(f)
    ensures forall f :: HasJsonSuffix(f) ==> multiset(Processed(d))[f] == multiset(d.listing)[f]
  {
    forall f | f in Processed(d) ensures HasJsonSuffix(f) {
      assert f in multiset(Eligible(d.listing));
    }
    forall f | HasJsonSuffix(f) ensures multiset(Processed(d))[f] == multiset(d.listing)[f] {
      EligibleCount(d.listing, f);
    }
  }

  /** The assignments one bucket file makes: `map[cat] = rows.map(...)` per bucket. */
  function BucketWrites(base: string, buckets: Assoc<seq<JSON>>, rt: Runtime): CatMap {
    seq(|buckets|, j requires 0 <= j < |buckets| =>
      var cat := CategoryName(base, buckets[j].0);
      (cat, EnrichAll(buckets[j].1, cat, rt)))
  }

  /** The assignments to the catalog that one file makes, in order. */
  function FileWrites(name: string, files: map<string, JSON>, rt: Runtime): CatMap {
    var base := StripJsonSuffix(name);
    match Detect(Parsed(files, name))
    case ArrayDoc(items) => [(base, EnrichAll(items, base, rt))]
    case BucketsDoc(buckets) => BucketWrites(base, buckets, rt)
  }

  /** The assignments all the given files make, file after file. */
  function AllWrites(names: seq<string>, files: map<string, JSON>, rt: Runtime): CatMap {
    if names == [] then []
    else AllWrites(names[..|names| - 1], files, rt) + FileWrites(names[|names| - 1], files, rt)
  }

  /** The catalog built from a directory; a directory that does not exist gives an empty one. */
  function Catalog(dir: Option<Dir>, rt: Runtime): (r: CatMap)
    ensures UniqueKeys(r)
  {
    match dir
    case None => []
    case Some(d) => PutAll([], AllWrites(Processed(d), d.files, rt))
  }

  lemma PutAllNext(m0: CatMap, writes: CatMap, j: nat)
    requires j < |writes|
    ensures PutAll(m0, writes[..j + 1]) == Put(PutAll(m0, writes[..j]), writes[j].0, writes[j].1)
  {
    assert writes[..j + 1] == writes[..j] + [writes[j]];
    PutAllOne(PutAll(m0, writes[..j]), writes[j].0, writes[j].1);
    PutAllAppend(m0, writes[..j], [writes[j]]);
  }

  /** The bucket loop `for (const [bucket, rows] of Object.entries(doc.buckets))`. */
  method AssignBuckets(m0: CatMap, base: string, buckets: Assoc<seq<JSON>>, rt: Runtime) returns (m: CatMap)
    ensures m == PutAll(m0, BucketWrites(base, buckets, rt))
  {
    m := m0;
    ghost var writes := BucketWrites(base, buckets, rt);
    for j := 0 to |buckets|
      invariant m == PutAll(m0, writes[..j])
    {
      var cat := CategoryName(base, buckets[j].0);
      PutAllNext(m0, writes, j);
      assert writes[j] == (cat, EnrichAll(buckets[j].1, cat, rt));
      m := Put(m, cat, EnrichAll(buckets[j].1, cat, rt));
    }
    assert writes[..|buckets|] == writes;
  }

  /** The body of the file loop: classify one file and assign its categories. */
  method AssignFile(m0: CatMap, name: string, files: map<string, JSON>, rt: Runtime) returns (m: CatMap)
    ensures m == PutAll(m0, FileWrites(name, files, rt))
  {
    var base := StripJsonSuffix(name);
    var doc := ReadFlexible(Parsed(files, name));
    match doc {
      case ArrayDoc(items) =>
        m := Put(m0, base, EnrichAll(items, base, rt));
        PutAllOne(m0, base, EnrichAll(items, base, rt));
      case BucketsDoc(buckets) =>
        m := AssignBuckets(m0, base, buckets, rt);
    }
  }

  lemma AllWritesPrefix(names: seq<string>, i: nat, files: map<string, JSON>, rt: Runtime)
    requires i < |names|
    ensures AllWrites(names[..i + 1], files, rt) == AllWrites(names[..i], files, rt) + FileWrites(names[i], files, rt)
  {
    assert names[..i + 1][..i] == names[..i];
  }

  /** `loadFromDir`: the loop over the sorted `.json` names, assigning into the catalog. */
  method LoadFromDir(dir: Option<Dir>, rt: Runtime) returns (m: CatMap)
    ensures m == Catalog(dir, rt)
  {
    m := [];
    if dir.None? {
      return;
    }
    var d := dir.value;
    var names := Processed(d);
    for i := 0 to |names|
      invariant m == PutAll([], AllWrites(names[..i], d.files, rt))
    {
      m := AssignFile(m, names[i], d.files, rt);
      AllWritesPrefix(names, i, d.files, rt);
      PutAllAppend([], AllWrites(names[..i], d.files, rt), FileWrites(names[i], d.files, rt));
    }
    assert names[..|names|] == names;
  }

  /** Every assignment gives a category records numbered for it. */
  lemma {:induction false} AllWritesNumbered(names: seq<string>, files: map<string, JSON>, rt: Runtime)
    ensures forall j :: 0 <= j < |AllWrites(names, files, rt)| ==>
      WellNumbered(AllWrites(names, files, rt)[j].1, AllWrites(names, files, rt)[j].0)
    decreases |names|
  {
    if names != [] {
      var init := AllWrites(names[..|names| - 1], files, rt);
      var last := FileWrites(names[|names| - 1], files, rt);
      AllWritesNumbered(names[..|names| - 1], files, rt);
      forall j | 0 <= j < |last| ensures WellNumbered(last[j].1, last[j].0) {
        match Detect(Parsed(files, names[|names| - 1]))
        case ArrayDoc(items) =>
          EnrichAllRecords(items, last[j].0, rt);
        case BucketsDoc(buckets) =>
          EnrichAllRecords(buckets[j].1, last[j].0, rt);
      }
      forall j | 0 <= j < |init + last|
        ensures WellNumbered((init + last)[j].1, (init + last)[j].0)
      {
        if j >= |init| {
          assert (init + last)[j] == last[j - |init|];
        }
      }
    }
  }

  /**
    Every record of a category `c` carries `_category` `c` and, at position
    `i`, the `_id` `c:i`.
   */
  lemma CatalogNumbered(dir: Option<Dir>, rt: Runtime, cat: string)
    requires Get(Catalog(dir, rt), cat).Some?
    ensures WellNumbered(Get(Catalog(dir, rt), cat).value, cat)
  {
    var d := dir.value;
    var writes := AllWrites(Processed(d), d.files, rt);
    PutAllValuesFrom([], writes, cat);
    AllWritesNumbered(Processed(d), d.files, rt);
  }

  /** No two records anywhere in the catalog share an `_id`. */
  lemma CatalogIdsDistinct(dir: Option<Dir>, rt: Runtime, c1: string, i1: nat, c2: string, i2: nat)
    requires Get(Catalog(dir, rt), c1).Some? && i1 < |Get(Catalog(dir, rt), c1).value|
    requires Get(Catalog(dir, rt), c2).Some? && i2 < |Get(Catalog(dir, rt), c2).value|
    requires c1 != c2 || i1 != i2
    ensures Get(Get(Catalog(dir, rt), c1).value[i1], "_id") != Get(Get(Catalog(dir, rt), c2).value[i2], "_id")
  {
    CatalogNumbered(dir, rt, c1);
    CatalogNumbered(dir, rt, c2);
    if MakeId(c1, i1) == MakeId(c2, i2) {
      MakeIdInjective(c1, i1, c2, i2);
    }
  }

  /** The categories one file names: its base name, or one name per bucket. */
  lemma FileWritesKeys(name: string, files: map<string, JSON>, rt: Runtime, k: string)
    ensures k in Keys(FileWrites(name, files, rt)) <==>
      match Detect(Parsed(files, name))
      case ArrayDoc(_) => k == StripJsonSuffix(name)
      case BucketsDoc(buckets) => exists b :: b in Keys(buckets) && k == CategoryName(StripJsonSuffix(name), b)
  {
    var w := FileWrites(name, files, rt);
    InKeys(w, k);
    match Detect(Parsed(files, name))
    case ArrayDoc(_) =>
    case BucketsDoc(buckets) =>
      var base := StripJsonSuffix(name);
      if exists b :: b in Keys(buckets) && k == CategoryName(base, b) {
        var b :| b in Keys(buckets) && k == CategoryName(base, b);
        var j := KeyIndex(buckets, b);
        assert w[j].0 == k;
      }
      if k in Keys(w) {
        var j :| 0 <= j < |w| && w[j].0 == k;
        KeysAt(buckets, j);
        assert buckets[j].0 in Keys(buckets);
      }
  }

  lemma {:induction false} AllWritesKeys(names: seq<string>, files: map<string, JSON>, rt: Runtime, k: string)
    ensures k in Keys(AllWrites(names, files, rt)) <==>
      exists f :: f in names && k in Keys(FileWrites(f, files, rt))
    decreases |names|
  {
    if names != [] {
      var init, last := names[..|names| - 1], names[|names| - 1];
      assert names == init + [last];
      KeysAppend(AllWrites(init, files, rt), FileWrites(last, files, rt));
      AllWritesKeys(init, files, rt, k);
    }
  }

  /** The categories are exactly the names the visited files give, each once. */
  lemma CatalogKeys(d: Dir, rt: Runtime, k: string)
    ensures k in Keys(Catalog(Some(d), rt)) <==>
      exists f :: f in Processed(d) && k in Keys(FileWrites(f, d.files, rt))
  {
    AllWritesKeys(Processed(d), d.files, rt, k);
  }

  /**
    The categories come in the order they are first assigned, file after file
    and bucket after bucket; a category assigned again keeps its first place.
    This is the order of `Object.keys(db)`.
   */
  lemma CatalogOrder(d: Dir, rt: Runtime)
    ensures Keys(Catalog(Some(d), rt)) == Fresh([], Keys(AllWrites(Processed(d), d.files, rt)))
  {
    PutAllKeys([], AllWrites(Processed(d), d.files, rt));
  }

  /** The categories the first `i` files give come first, in the order they had after those files. */
  lemma CatalogPrefix(d: Dir, rt: Runtime, i: nat)
    requires i <= |Processed(d)|
    ensures Keys(PutAll([], AllWrites(Processed(d)[..i], d.files, rt))) <= Keys(Catalog(Some(d), rt))
  {
    var names := Processed(d);
    assert names == names[..i] + names[i..];
    AllWritesAppend(names[..i], names[i..], d.files, rt);
    PutAllAppend([], AllWrites(names[..i], d.files, rt), AllWrites(names[i..], d.files, rt));
  }

  /** An assignment no later assignment overwrites decides its category: the last write wins. */
  lemma CatalogLastWriteWins(d: Dir, rt: Runtime, j: nat)
    requires j < |AllWrites(Processed(d), d.files, rt)|
    requires forall j' :: j < j' < |AllWrites(Processed(d), d.files, rt)| ==>
      AllWrites(Processed(d), d.files, rt)[j'].0 != AllWrites(Processed(d), d.files, rt)[j].0
    ensures Get(Catalog(Some(d), rt), AllWrites(Processed(d), d.files, rt)[j].0) ==
      Some(AllWrites(Processed(d), d.files, rt)[j].1)
  {
    PutAllLastWins([], AllWrites(Processed(d), d.files, rt), j);
  }

  lemma {:induction false} AllWritesAppend(a: seq<string>, b: seq<string>, files: map<string, JSON>, rt: Runtime)
    ensures AllWrites(a + b, files, rt) == AllWrites(a, files, rt) + AllWrites(b, files, rt)
    decreases |b|
  {
    if b == [] {
      assert a + b == a;
    } else {
      var b' := b[..|b| - 1];
      assert (a + b)[..|a + b| - 1] == a + b';
      assert (a + b)[|a + b| - 1] == b[|b| - 1];
      AllWritesAppend(a, b', files, rt);
      ConcatAssoc(AllWrites(a, files, rt), AllWrites(b', files, rt), FileWrites(b[|b| - 1], files, rt));
    }
  }

  /**
    A category that none of the files from position `i` on names keeps what
    the files before `i` gave it: later files leave it unchanged.
   */
  lemma CatalogUntouched(d: Dir, rt: Runtime, i: nat, k: string)
    requires i <= |Processed(d)|
    requires forall f :: f in Processed(d)[i..] ==> k !in Keys(FileWrites(f, d.files, rt))
    ensures Get(Catalog(Some(d), rt), k) == Get(PutAll([], AllWrites(Processed(d)[..i], d.files, rt)), k)
  {
    var names := Processed(d);
    assert names == names[..i] + names[i..];
    AllWritesAppend(names[..i], names[i..], d.files, rt);
    var later := AllWrites(names[i..], d.files, rt);
    PutAllAppend([], AllWrites(names[..i], d.files, rt), later);
    AllWritesKeys(names[i..], d.files, rt, k);
    forall j | 0 <= j < |later| ensures later[j].0 != k {
      KeysAt(later, j);
    }
    PutAllUntouched(PutAll([], AllWrites(names[..i], d.files, rt)), later, k);
  }

  /**
    The last file visited owns the category of its base name when it is a list
    or is read as one; a file that cannot be read or parsed replaces that
    category by an empty one.
   */
  lemma CatalogLastFile(d: Dir, rt: Runtime)
    requires Processed(d) != []
    requires Detect(Parsed(d.files, Processed(d)[|Processed(d)| - 1])).ArrayDoc?
    ensures var f := Processed(d)[|Processed(d)| - 1];
      var items := Detect(Parsed(d.files, f)).items;
      Get(Catalog(Some(d), rt), StripJsonSuffix(f)) == Some(EnrichAll(items, StripJsonSuffix(f), rt))
    ensures var f := Processed(d)[|Processed(d)| - 1];
      f !in d.files ==> Get(Catalog(Some(d), rt), StripJsonSuffix(f)) == Some([])
  {
    var names := Processed(d);
    var f := names[|names| - 1];
    var base := StripJsonSuffix(f);
    var items := Detect(Parsed(d.files, f)).items;
    var writes := AllWrites(names, d.files, rt);
    assert FileWrites(f, d.files, rt) == [(base, EnrichAll(items, base, rt))];
    assert writes == AllWrites(names[..|names| - 1], d.files, rt) + [(base, EnrichAll(items, base, rt))];
    assert writes[|writes| - 1] == (base, EnrichAll(items, base, rt));
    PutAllLastWins([], writes, |writes| - 1);
    if f !in d.files {
      assert items == [];
      assert EnrichAll(items, base, rt) == [];
    }
  }

  /**
    The catalog depends only on the `.json` names listed (each with its
    multiplicity) and the files' contents: not on the listing order and not
    on other names.
   */
  lemma CatalogIgnoresListing(d1: Dir, d2: Dir, rt: Runtime)
    requires d1.files == d2.files
    requires forall f :: HasJsonSuffix(f) ==> multiset(d1.listing)[f] == multiset(d2.listing)[f]
    ensures Catalog(Some(d1), rt) == Catalog(Some(d2), rt)
  {
    forall f ensures multiset(Eligible(d1.listing))[f] == multiset(Eligible(d2.listing))[f] {
      EligibleCount(d1.listing, f);
      EligibleCount(d2.listing, f);
    }
    assert multiset(Eligible(d1.listing)) == multiset(Eligible(d2.listing));
    SortIgnoresOrder(Eligible(d1.listing), Eligible(d2.listing));
  }

  /**
    A file holding one product object whose price is `null` is read as the
    list of its values, so its second item is `null`, on which the enrichment
    as written throws.
   */
  lemma NullPriceObjectThrows(rt: Runtime)
    ensures Detect(Some(JObject([("name", JStr("milk")), ("price", JNull)]))) == ArrayDoc([JStr("milk"), JNull])
    ensures EnrichAsWritten(JNull, "milk", 1, rt).None?
  {
    var fields := [("name", JStr("milk")), ("price", JNull)];
    assert UniqueKeys(fields);
    OwnPropsOfObject(fields);
    assert ListEntries(fields[..1]) == [] by {
      assert fields[..1][..0] == [];
    }
    assert fields[..|fields| - 1] == fields[..1];
    assert ListEntries(fields) == [];
    assert Values(fields) == [JStr("milk"), JNull];
    assert Detect(Some(JObject(fields))) == ArrayDoc(Values(fields));
  }
}
