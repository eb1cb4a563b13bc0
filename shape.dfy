/**
  `readFlexible`, after the file has been read and parsed: classifies a parsed
  document as a flat list of items or as named buckets of items.
 */
module Shape {
  import opened Wrappers
  import opened Assoc
  import opened Js

  /** `{type:'array', items}` or `{type:'buckets', buckets}`. */
  datatype Doc = ArrayDoc(items: seq<JSON>) | BucketsDoc(buckets: Assoc<seq<JSON>>)

  /** The list a property holds, if it holds one. */
  function ListOf(v: Option<JSON>): Option<seq<JSON>> {
    if v.Some? && v.value.JArray? then Some(v.value.items) else None
  }

  /** The list-valued entries of an object, under their own keys, in enumeration order. */
  function ListEntries(ps: Props): Assoc<seq<JSON>> {
    if ps == [] then []
    else
      var last := ps[|ps| - 1];
      ListEntries(ps[..|ps| - 1]) + if last.1.JArray? then [(last.0, last.1.items)] else []
  }

  /** The keys of the entries that hold a list, in enumeration order. */
  function ListKeys(ps: Props): seq<string> {
    if ps == [] then [] else (if ps[0].1.JArray? then [ps[0].0] else []) + ListKeys(ps[1..])
  }

  /**
    The shape of a document; `None` is a file that could not be read or parsed.
    A list is taken as it is; an object with list-valued entries becomes those
    buckets; an object without any becomes the list of its values; anything
    else is an empty list.
   */
  function Detect(parsed: Option<JSON>): Doc {
    match parsed
    case Some(JArray(items)) => ArrayDoc(items)
    case Some(JObject(fields)) =>
      var entries := OwnProps(JObject(fields));
      var buckets := ListEntries(entries);
      if |buckets| > 0 then BucketsDoc(buckets) else ArrayDoc(Values(entries))
    case _ => ArrayDoc([])
  }

  /** Every bucket key is a key of the object. */
  lemma {:induction false} ListEntriesKeys(ps: Props, k: string)
    requires k in Keys(ListEntries(ps))
    ensures k in Keys(ps)
    decreases |ps|
  {
    var init := ps[..|ps| - 1];
    var last := ps[|ps| - 1];
    var tail: Assoc<seq<JSON>> := if last.1.JArray? then [(last.0, last.1.items)] else [];
    InKeys(ListEntries(ps), k);
    var j :| 0 <= j < |ListEntries(ps)| && ListEntries(ps)[j].0 == k;
    InKeys(ps, k);
    if j < |ListEntries(init)| {
      assert ListEntries(ps)[j] == ListEntries(init)[j];
      InKeys(ListEntries(init), k);
      ListEntriesKeys(init, k);
      InKeys(init, k);
      var i :| 0 <= i < |init| && init[i].0 == k;
      assert ps[i] == init[i];
    } else {
      assert ps[|ps| - 1].0 == k;
    }
  }

  /**
    The buckets are exactly the list-valued entries: a key holds a bucket
    precisely when the object maps it to a list, and the bucket is that list.
   */
  lemma {:induction false} ListEntriesGet(ps: Props, k: string)
    requires UniqueKeys(ps)
    ensures Get(ListEntries(ps), k) == ListOf(Get(ps, k))
    decreases |ps|
  {
    if ps != [] {
      var init := ps[..|ps| - 1];
      var last := ps[|ps| - 1];
      UniqueKeysSnoc(ps);
      ListEntriesGet(init, k);
      assert ps == init + [last];
      GetSnoc(init, last, k);
      if last.1.JArray? {
        if last.0 in Keys(ListEntries(init)) {
          ListEntriesKeys(init, last.0);
          InKeys(init, last.0);
        }
        GetSnoc(ListEntries(init), (last.0, last.1.items), k);
      } else {
        assert ListEntries(ps) == ListEntries(init);
      }
    }
  }

  /** Looking up in a list extended by one pair whose key is new. */
  lemma {:induction false} GetSnoc<V>(m: Assoc<V>, p: (string, V), k: string)
    requires p.0 !in Keys(m)
    ensures Get(m + [p], k) == if k in Keys(m) then Get(m, k) else if k == p.0 then Some(p.1) else None
  {
    PutNew(m, p.0, p.1);
    PutGet(m, p.0, p.1, k);
  }

  lemma {:induction false} ListKeysSnoc(ps: Props, p: (string, JSON))
    ensures ListKeys(ps + [p]) == ListKeys(ps) + if p.1.JArray? then [p.0] else []
    decreases |ps|
  {
    if ps == [] {
      assert [] + [p] == [p] && [p][1..] == [];
    } else {
      assert (ps + [p])[0] == ps[0] && (ps + [p])[1..] == ps[1..] + [p];
      ListKeysSnoc(ps[1..], p);
      var h := if ps[0].1.JArray? then [ps[0].0] else [];
      var t := if p.1.JArray? then [p.0] else [];
      assert h + (ListKeys(ps[1..]) + t) == (h + ListKeys(ps[1..])) + t;
    }
  }

  /** The buckets keep the object's order: their keys are its list-valued keys, in sequence. */
  lemma {:induction false} ListEntriesInOrder(ps: Props)
    ensures Keys(ListEntries(ps)) == ListKeys(ps)
    decreases |ps|
  {
    if ps != [] {
      var init := ps[..|ps| - 1];
      var last := ps[|ps| - 1];
      var tail: Assoc<seq<JSON>> := if last.1.JArray? then [(last.0, last.1.items)] else [];
      ListEntriesInOrder(init);
      assert ps == init + [last];
      ListKeysSnoc(init, last);
      KeysAppend(ListEntries(init), tail);
      assert Keys(tail) == if last.1.JArray? then [last.0] else [];
    }
  }

  /** The bucket list never repeats a key. */
  lemma {:induction false} ListEntriesUnique(ps: Props)
    requires UniqueKeys(ps)
    ensures UniqueKeys(ListEntries(ps))
    decreases |ps|
  {
    if ps != [] {
      var init := ps[..|ps| - 1];
      var last := ps[|ps| - 1];
      assert UniqueKeys(init);
      ListEntriesUnique(init);
      if last.1.JArray? {
        if last.0 in Keys(ListEntries(init)) {
          ListEntriesKeys(init, last.0);
          InKeys(init, last.0);
        }
        PutNew(ListEntries(init), last.0, last.1.items);
        PutUnique(ListEntries(init), last.0, last.1.items);
      }
    }
  }

  /** An object has buckets exactly when one of its entries is a list. */
  lemma {:induction false} ListEntriesEmpty(ps: Props)
    ensures |ListEntries(ps)| == 0 <==> forall i :: 0 <= i < |ps| ==> !ps[i].1.JArray?
    decreases |ps|
  {
    if ps != [] {
      var init := ps[..|ps| - 1];
      ListEntriesEmpty(init);
      assert forall i :: 0 <= i < |init| ==> init[i] == ps[i];
    }
  }

  /**
    What `readFlexible` yields for each kind of document: a list as it is; an
    object with a list-valued entry as exactly its list-valued entries, in the
    object's order; an object without one as its values in order; anything
    else, or a failed read, as an empty list.
   */
  lemma DetectCases(parsed: Option<JSON>)
    ensures parsed.Some? && parsed.value.JArray? ==> Detect(parsed) == ArrayDoc(parsed.value.items)
    ensures parsed.Some? && parsed.value.JObject? ==>
      var entries := OwnProps(parsed.value);
      && (Detect(parsed).BucketsDoc? <==> exists i :: 0 <= i < |entries| && entries[i].1.JArray?)
      && (Detect(parsed).BucketsDoc? ==>
            UniqueKeys(Detect(parsed).buckets) &&
            Keys(Detect(parsed).buckets) == ListKeys(entries) &&
            forall k :: Get(Detect(parsed).buckets, k) == ListOf(Get(entries, k)))
      && (Detect(parsed).ArrayDoc? ==> Detect(parsed).items == Values(entries))
    ensures parsed.None? || !(parsed.value.JArray? || parsed.value.JObject?) ==> Detect(parsed) == ArrayDoc([])
  {
    if parsed.Some? && parsed.value.JObject? {
      var entries := OwnProps(parsed.value);
      ListEntriesEmpty(entries);
      ListEntriesUnique(entries);
      ListEntriesInOrder(entries);
      forall k ensures Get(ListEntries(entries), k) == ListOf(Get(entries, k)) {
        ListEntriesGet(entries, k);
      }
    }
  }

  /** `readFlexible(filePath)`, given the outcome of reading and parsing the file. */
  method ReadFlexible(parsed: Option<JSON>) returns (doc: Doc)
    ensures doc == Detect(parsed)
  {
    match parsed {
      case Some(JArray(items)) =>
        return ArrayDoc(items);
      case Some(JObject(fields)) =>
        var entries := OwnProps(JObject(fields));
        var buckets: Assoc<seq<JSON>> := [];
        for i := 0 to |entries|
          invariant buckets == ListEntries(entries[..i])
        {
          assert entries[..i + 1][..i] == entries[..i];
          if entries[i].1.JArray? {
            assert entries[i].0 !in Keys(buckets) by {
              if entries[i].0 in Keys(buckets) {
                ListEntriesKeys(entries[..i], entries[i].0);
                InKeys(entries[..i], entries[i].0);
              }
            }
            PutNew(buckets, entries[i].0, entries[i].1.items);
            buckets := Put(buckets, entries[i].0, entries[i].1.items);
          }
        }
        assert entries[..|entries|] == entries;
        if |buckets| > 0 {
          return BucketsDoc(buckets);
        }
        return ArrayDoc(Values(entries));
      case _ =>
        return ArrayDoc([]);
    }
  }
}
