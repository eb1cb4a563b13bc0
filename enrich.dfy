/**
  The per-record enrichment of `loadFromDir`: a copy of the item with the three
  reserved keys `_id`, `_category` and `price_with_tax` written over it, and the
  category name derived for a bucket.
 */
module Enrich {
  import opened Wrappers
  import opened Assoc
  import opened Decimal
  import opened Text
  import opened Js
  import opened Tax

  predicate IsReserved(k: string) {
    k == "_id" || k == "_category" || k == "price_with_tax"
  }

  /** `${cat}:${idx}` */
  function MakeId(cat: string, idx: nat): string {
    cat + ":" + NatToString(idx)
  }

  /** In `cat:digits` the colon before the digits is the last one. */
  lemma IdColon(c: string, d: string)
    requires AllDigits(d)
    ensures (c + ":" + d)[|c|] == ':'
    ensures forall j :: |c| < j < |c + ":" + d| ==> (c + ":" + d)[j] != ':'
  {
    var s := c + ":" + d;
    forall j | |c| < j < |s| ensures s[j] != ':' {
      assert s[j] == d[j - |c| - 1];
    }
  }

  /**
    An identifier determines its category and index: the index is the digits
    after the last colon, and digits contain no colon.
   */
  lemma MakeIdInjective(c1: string, i1: nat, c2: string, i2: nat)
    requires MakeId(c1, i1) == MakeId(c2, i2)
    ensures c1 == c2 && i1 == i2
  {
    var s := MakeId(c1, i1);
    var d1, d2 := NatToString(i1), NatToString(i2);
    IdColon(c1, d1);
    IdColon(c2, d2);
    assert |c1| == |c2|;
    assert d1 == s[|s| - |d1|..] == d2;
    assert c1 == s[..|c1|] == c2;
    NatToStringInjective(i1, i2);
  }

  /** `{...spread, _id: id, _category: cat, price_with_tax: tax}`: later keys overwrite in place. */
  function BuildRecord(spread: Props, cat: string, idx: nat, tax: JSON): (r: Props)
    requires UniqueKeys(spread)
    ensures UniqueKeys(r)
  {
    var r1 := Put(spread, "_id", JStr(MakeId(cat, idx)));
    var r2 := Put(r1, "_category", JStr(cat));
    PutUnique(spread, "_id", JStr(MakeId(cat, idx)));
    PutUnique(r1, "_category", JStr(cat));
    PutUnique(r2, "price_with_tax", tax);
    Put(r2, "price_with_tax", tax)
  }

  /**
    The reserved keys hold the identifier, the category and the tax value;
    every other key holds the spread value; the spread's keys are all kept.
   */
  lemma BuildRecordFields(spread: Props, cat: string, idx: nat, tax: JSON)
    requires UniqueKeys(spread)
    ensures Get(BuildRecord(spread, cat, idx, tax), "_id") == Some(JStr(MakeId(cat, idx)))
    ensures Get(BuildRecord(spread, cat, idx, tax), "_category") == Some(JStr(cat))
    ensures Get(BuildRecord(spread, cat, idx, tax), "price_with_tax") == Some(tax)
    ensures forall k :: !IsReserved(k) ==> Get(BuildRecord(spread, cat, idx, tax), k) == Get(spread, k)
    ensures Keys(spread) <= Keys(BuildRecord(spread, cat, idx, tax))
    ensures Keys(BuildRecord(spread, cat, idx, tax)) == Keys(spread) + Fresh(Keys(spread), ["_id", "_category", "price_with_tax"])
  {
    BuildRecordKeys(spread, cat, idx, tax);
    var id := JStr(MakeId(cat, idx));
    var r1 := Put(spread, "_id", id);
    var r2 := Put(r1, "_category", JStr(cat));
    assert BuildRecord(spread, cat, idx, tax) == Put(r2, "price_with_tax", tax);
    PutKeys(spread, "_id", id);
    PutKeys(r1, "_category", JStr(cat));
    PutKeys(r2, "price_with_tax", tax);
    Put3Get(spread, "_id", id, "_category", JStr(cat), "price_with_tax", tax, "_id");
    Put3Get(spread, "_id", id, "_category", JStr(cat), "price_with_tax", tax, "_category");
    Put3Get(spread, "_id", id, "_category", JStr(cat), "price_with_tax", tax, "price_with_tax");
    forall k | !IsReserved(k) ensures Get(BuildRecord(spread, cat, idx, tax), k) == Get(spread, k) {
      Put3Get(spread, "_id", id, "_category", JStr(cat), "price_with_tax", tax, k);
    }
  }

  /** The record is the three assignments in a row, so the reserved keys it adds follow in that order. */
  lemma BuildRecordKeys(spread: Props, cat: string, idx: nat, tax: JSON)
    requires UniqueKeys(spread)
    ensures Keys(BuildRecord(spread, cat, idx, tax)) == Keys(spread) + Fresh(Keys(spread), ["_id", "_category", "price_with_tax"])
  {
    var us := Reserved(cat, idx, tax);
    BuildRecordAsAssignments(spread, cat, idx, tax);
    KeysOfThree(us);
    PutAllKeys(spread, us);
  }

  /** The three reserved assignments, in the order the literal writes them. */
  function Reserved(cat: string, idx: nat, tax: JSON): Props {
    [("_id", JStr(MakeId(cat, idx))), ("_category", JStr(cat)), ("price_with_tax", tax)]
  }

  lemma BuildRecordAsAssignments(spread: Props, cat: string, idx: nat, tax: JSON)
    requires UniqueKeys(spread)
    ensures BuildRecord(spread, cat, idx, tax) == PutAll(spread, Reserved(cat, idx, tax))
  {
    var us := Reserved(cat, idx, tax);
    var r1 := Put(spread, "_id", JStr(MakeId(cat, idx)));
    var r2 := Put(r1, "_category", JStr(cat));
    assert us[1..][1..] == [("price_with_tax", tax)];
    PutAllOne(r2, "price_with_tax", tax);
    assert PutAll(r1, us[1..]) == PutAll(r2, us[1..][1..]);
  }

  lemma KeysOfThree(us: Props)
    requires |us| == 3
    ensures Keys(us) == [us[0].0, us[1].0, us[2].0]
  {
    assert us[1..][1..][1..] == [];
    assert Keys(us[1..][1..]) == [us[2].0];
  }

  /** Reading back after three assignments in a row. */
  lemma Put3Get(m: Props, k1: string, v1: JSON, k2: string, v2: JSON, k3: string, v3: JSON, k: string)
    ensures Get(Put(Put(Put(m, k1, v1), k2, v2), k3, v3), k) ==
      if k == k3 then Some(v3) else if k == k2 then Some(v2) else if k == k1 then Some(v1) else Get(m, k)
  {
    PutGet(Put(Put(m, k1, v1), k2, v2), k3, v3, k);
    PutGet(Put(m, k1, v1), k2, v2, k);
    PutGet(m, k1, v1, k);
  }

  /**
    The enriched record for the item at position `idx` of category `cat`. A
    `null` item spreads to no properties and has no price, so it becomes a
    record holding just the three reserved keys (see `EnrichAsWritten`).
   */
  function Enrich(item: JSON, cat: string, idx: nat, rt: Runtime): (r: Props)
    ensures UniqueKeys(r)
  {
    BuildRecord(OwnProps(item), cat, idx, WithTax(Price(item), rt))
  }

  /**
    The record as a copy of the item: the three reserved keys hold the
    identifier, the category and the tax-inclusive price, and every other key
    holds what the item held, with the item's keys in their original order.
   */
  lemma EnrichFields(item: JSON, cat: string, idx: nat, rt: Runtime)
    ensures Get(Enrich(item, cat, idx, rt), "_id") == Some(JStr(MakeId(cat, idx)))
    ensures Get(Enrich(item, cat, idx, rt), "_category") == Some(JStr(cat))
    ensures Get(Enrich(item, cat, idx, rt), "price_with_tax") == Some(WithTax(Price(item), rt))
    ensures forall k :: !IsReserved(k) ==> Get(Enrich(item, cat, idx, rt), k) == Get(OwnProps(item), k)
    ensures Keys(OwnProps(item)) <= Keys(Enrich(item, cat, idx, rt))
  {
    BuildRecordFields(OwnProps(item), cat, idx, WithTax(Price(item), rt));
  }

  /** `item.price` as written: reading a property of `null` throws a TypeError. */
  datatype Read = Value(v: Option<JSON>) | TypeError

  function PriceAsWritten(item: JSON): Read {
    if item == JNull then TypeError else Value(Price(item))
  }

  /**
    The enrichment as the source writes it; `None` when it throws. It throws
    exactly on a `null` item, and otherwise agrees with `Enrich`.
   */
  function EnrichAsWritten(item: JSON, cat: string, idx: nat, rt: Runtime): (r: Option<Props>)
    ensures r.None? <==> item == JNull
    ensures item != JNull ==> r == Some(Enrich(item, cat, idx, rt))
  {
    match PriceAsWritten(item)
    case TypeError => None
    case Value(p) => Some(BuildRecord(OwnProps(item), cat, idx, WithTax(p, rt)))
  }

  /** `items.map((item, idx) => ...)`: one record per item, numbered from 0. */
  function EnrichAll(items: seq<JSON>, cat: string, rt: Runtime): seq<Props> {
    seq(|items|, i requires 0 <= i < |items| => Enrich(items[i], cat, i, rt))
  }

  /** The records of one category: as many as items, each naming its category and position. */
  predicate WellNumbered(recs: seq<Props>, cat: string) {
    forall i :: 0 <= i < |recs| ==>
      Get(recs[i], "_id") == Some(JStr(MakeId(cat, i))) && Get(recs[i], "_category") == Some(JStr(cat))
  }

  /**
    A list of N items becomes exactly N records in the same order; record `i`
    has `_id` `cat:i` and `_category` `cat`, and the identifiers are pairwise
    distinct.
   */
  lemma {:induction false} EnrichAllRecords(items: seq<JSON>, cat: string, rt: Runtime)
    ensures |EnrichAll(items, cat, rt)| == |items|
    ensures forall i :: 0 <= i < |items| ==> EnrichAll(items, cat, rt)[i] == Enrich(items[i], cat, i, rt)
    ensures WellNumbered(EnrichAll(items, cat, rt), cat)
    ensures forall i, j :: 0 <= i < j < |items| ==>
      Get(EnrichAll(items, cat, rt)[i], "_id") != Get(EnrichAll(items, cat, rt)[j], "_id")
  {
    var recs := EnrichAll(items, cat, rt);
    forall i | 0 <= i < |items|
      ensures Get(recs[i], "_id") == Some(JStr(MakeId(cat, i))) && Get(recs[i], "_category") == Some(JStr(cat))
    {
      EnrichFields(items[i], cat, i, rt);
    }
    forall i, j | 0 <= i < j < |items| ensures Get(recs[i], "_id") != Get(recs[j], "_id") {
      if MakeId(cat, i) == MakeId(cat, j) { MakeIdInjective(cat, i, cat, j); }
    }
  }

  /** `${base}_${bucket}`.toLowerCase().replace(/\s+/g, "_") */
  function CategoryName(base: string, bucket: string): string {
    ReplaceSpaceRuns(ToLower(base + "_" + bucket))
  }

  /**
    A bucket's category name has no whitespace and no upper-case letter, does
    not depend on the letter case of the file or bucket name, and is plain
    `base_bucket` when that already is lower-case without whitespace.
   */
  lemma CategoryNameShape(base: string, bucket: string)
    ensures NoSpace(CategoryName(base, bucket)) && NoUpper(CategoryName(base, bucket))
    ensures CategoryName(ToLower(base), ToLower(bucket)) == CategoryName(base, bucket)
    ensures NoSpace(base + "_" + bucket) && NoUpper(base + "_" + bucket) ==> CategoryName(base, bucket) == base + "_" + bucket
  {
    var s := base + "_" + bucket;
    ToLowerFacts(s);
    ReplaceSpaceRunsNoUpper(ToLower(s));
    ToLowerAppend(base, "_");
    ToLowerAppend(ToLower(base), "_");
    ToLowerAppend(base + "_", bucket);
    ToLowerAppend(ToLower(base) + "_", ToLower(bucket));
    ToLowerFacts(base);
    ToLowerFacts(bucket);
    if NoSpace(s) && NoUpper(s) {
      ReplaceSpaceRunsNoSpace(s);
    }
  }
}
