/**
  A JavaScript plain object used as a dictionary: an insertion-ordered list of
  (key, value) pairs. Assigning to a key that is already present replaces its
  value and keeps its position; assigning to a new key appends it. `Keys` is
  what `Object.keys` returns.
 */
module Assoc {
  import opened Wrappers
  import opened Seqs

  type Assoc<V> = seq<(string, V)>

  function Keys<V>(m: Assoc<V>): seq<string> {
    if m == [] then [] else [m[0].0] + Keys(m[1..])
  }

  function Values<V>(m: Assoc<V>): seq<V> {
    seq(|m|, i requires 0 <= i < |m| => m[i].1)
  }

  predicate UniqueKeys<V>(m: Assoc<V>) {
    forall i, j :: 0 <= i < j < |m| ==> m[i].0 != m[j].0
  }

  lemma {:induction false} KeysAt<V>(m: Assoc<V>, i: nat)
    requires i < |m|
    ensures |Keys(m)| == |m| && Keys(m)[i] == m[i].0
  {
    if i > 0 { KeysAt(m[1..], i - 1); } else { KeysLength(m); }
  }

  lemma {:induction false} KeysLength<V>(m: Assoc<V>)
    ensures |Keys(m)| == |m|
  {
    if m != [] { KeysLength(m[1..]); }
  }

  /** `m[k]`: the value stored under `k`, or `None` (`undefined`). */
  function Get<V>(m: Assoc<V>, k: string): (r: Option<V>)
    ensures r.Some? <==> k in Keys(m)
    ensures r.Some? ==> (k, r.value) in m
  {
    if m == [] then None
    else
      if m[0].0 == k then Some(m[0].1) else Get(m[1..], k)
  }

  /** With unique keys, a lookup finds exactly the pair stored in the list. */
  lemma {:induction false} GetUnique<V>(m: Assoc<V>, i: nat)
    requires UniqueKeys(m) && i < |m|
    ensures Get(m, m[i].0) == Some(m[i].1)
  {
    if i > 0 {
      assert m[1..][i - 1] == m[i];
      GetUnique(m[1..], i - 1);
    }
  }

  /** `m[k] = v`: replace in place when `k` is present, append otherwise. */
  function Put<V>(m: Assoc<V>, k: string, v: V): Assoc<V> {
    if m == [] then [(k, v)]
    else if m[0].0 == k then [(k, v)] + m[1..]
    else [m[0]] + Put(m[1..], k, v)
  }

  /** After `m[k] = v`, `m[k]` is `v` and every other key reads as before. */
  lemma {:induction false} PutGet<V>(m: Assoc<V>, k: string, v: V, k': string)
    ensures Get(Put(m, k, v), k') == if k' == k then Some(v) else Get(m, k')
  {
    if m != [] && m[0].0 != k {
      var r := Put(m, k, v);
      assert r[1..] == Put(m[1..], k, v);
      PutGet(m[1..], k, v, k');
    } else if m != [] {
      assert Put(m, k, v)[1..] == m[1..];
    }
  }

  /** Assignment keeps the position of an existing key and appends a new one. */
  lemma {:induction false} PutKeys<V>(m: Assoc<V>, k: string, v: V)
    ensures Keys(Put(m, k, v)) == if k in Keys(m) then Keys(m) else Keys(m) + [k]
  {
    if m != [] && m[0].0 != k {
      var r := Put(m, k, v);
      assert r[1..] == Put(m[1..], k, v);
      PutKeys(m[1..], k, v);
    } else if m != [] {
      assert Put(m, k, v)[1..] == m[1..];
    }
  }

  /** A key is present exactly when some pair carries it. */
  lemma {:induction false} InKeys<V>(m: Assoc<V>, k: string)
    ensures k in Keys(m) <==> exists j :: 0 <= j < |m| && m[j].0 == k
  {
    KeysLength(m);
    if k in Keys(m) {
      var j :| 0 <= j < |Keys(m)| && Keys(m)[j] == k;
      KeysAt(m, j);
    }
    if exists j :: 0 <= j < |m| && m[j].0 == k {
      var j :| 0 <= j < |m| && m[j].0 == k;
      KeysAt(m, j);
    }
  }

  lemma {:induction false} UniqueKeysCons<V>(m: Assoc<V>)
    requires m != []
    ensures UniqueKeys(m) <==> UniqueKeys(m[1..]) && m[0].0 !in Keys(m[1..])
  {
    InKeys(m[1..], m[0].0);
    if UniqueKeys(m[1..]) && m[0].0 !in Keys(m[1..]) {
      forall i, j | 0 <= i < j < |m| ensures m[i].0 != m[j].0 {
        assert m[j] == m[1..][j - 1];
        if i > 0 {
          assert m[i] == m[1..][i - 1];
        }
      }
    }
    if UniqueKeys(m) {
      forall i, j | 0 <= i < j < |m[1..]| ensures m[1..][i].0 != m[1..][j].0 {
        assert m[1..][i] == m[i + 1] && m[1..][j] == m[j + 1];
      }
      forall j | 0 <= j < |m[1..]| ensures m[1..][j].0 != m[0].0 {
        assert m[1..][j] == m[j + 1];
      }
    }
  }

  /** Dropping the last pair of a list with unique keys leaves unique keys that do not include the dropped key. */
  lemma UniqueKeysSnoc<V>(m: Assoc<V>)
    requires m != [] && UniqueKeys(m)
    ensures UniqueKeys(m[..|m| - 1]) && m[|m| - 1].0 !in Keys(m[..|m| - 1])
  {
    var init := m[..|m| - 1];
    forall j | 0 <= j < |init| ensures init[j].0 != m[|m| - 1].0 {
      assert init[j] == m[j];
    }
    InKeys(init, m[|m| - 1].0);
  }

  /** The position at which a present key is stored. */
  lemma {:induction false} KeyIndex<V>(m: Assoc<V>, k: string) returns (j: nat)
    requires k in Keys(m)
    ensures j < |m| && m[j].0 == k
  {
    if m[0].0 == k { j := 0; } else {
      j := KeyIndex(m[1..], k);
      j := j + 1;
    }
  }

  /** Assignment never creates a duplicate key. */
  lemma {:induction false} PutUnique<V>(m: Assoc<V>, k: string, v: V)
    requires UniqueKeys(m)
    ensures UniqueKeys(Put(m, k, v))
  {
    if m != [] {
      UniqueKeysCons(m);
      var r := Put(m, k, v);
      if m[0].0 == k {
        assert r[1..] == m[1..];
      } else {
        assert r[1..] == Put(m[1..], k, v);
        PutUnique(m[1..], k, v);
        PutKeys(m[1..], k, v);
      }
      UniqueKeysCons(r);
    }
  }

  /** Assigning a key that is not yet present appends the pair at the end. */
  lemma {:induction false} PutNew<V>(m: Assoc<V>, k: string, v: V)
    requires k !in Keys(m)
    ensures Put(m, k, v) == m + [(k, v)]
  {
    if m != [] {
      PutNew(m[1..], k, v);
    }
  }

  lemma {:induction false} KeysAppend<V>(a: Assoc<V>, b: Assoc<V>)
    ensures Keys(a + b) == Keys(a) + Keys(b)
    decreases |a|
  {
    if a != [] {
      assert (a + b)[0] == a[0] && (a + b)[1..] == a[1..] + b;
      KeysAppend(a[1..], b);
      assert [a[0].0] + (Keys(a[1..]) + Keys(b)) == [a[0].0] + Keys(a[1..]) + Keys(b);
    } else {
      assert a + b == b;
    }
  }

  /** A sequence of assignments `m[k0] = v0; m[k1] = v1; ...` in order. */
  function PutAll<V>(m: Assoc<V>, us: Assoc<V>): (r: Assoc<V>)
    ensures UniqueKeys(m) ==> UniqueKeys(r)
    ensures Keys(m) <= Keys(r)
    ensures forall k :: k in Keys(r) <==> k in Keys(m) || k in Keys(us)
    decreases |us|
  {
    if us == [] then m
    else
      var m' := Put(m, us[0].0, us[0].1);
      PutKeys(m, us[0].0, us[0].1);
      assert UniqueKeys(m) ==> UniqueKeys(m') by {
        if UniqueKeys(m) { PutUnique(m, us[0].0, us[0].1); }
      }
      PutAll(m', us[1..])
  }

  /** The keys of `ks` not in `seen`, each at its first occurrence, in order. */
  function Fresh(seen: seq<string>, ks: seq<string>): seq<string>
    decreases |ks|
  {
    if ks == [] then []
    else if ks[0] in seen then Fresh(seen, ks[1..])
    else [ks[0]] + Fresh(seen + [ks[0]], ks[1..])
  }

  /**
    After a run of assignments the keys of `m` stay where they were, and the
    new keys follow in the order they were first assigned; a key assigned
    again keeps its first place.
   */
  lemma {:induction false} PutAllKeys<V>(m: Assoc<V>, us: Assoc<V>)
    ensures Keys(PutAll(m, us)) == Keys(m) + Fresh(Keys(m), Keys(us))
    decreases |us|
  {
    if us == [] {
      assert Keys(us) == [];
    } else {
      var k := us[0].0;
      var m' := Put(m, k, us[0].1);
      PutKeys(m, k, us[0].1);
      PutAllKeys(m', us[1..]);
      assert Keys(us) == [k] + Keys(us[1..]);
      if k !in Keys(m) {
        ConcatAssoc(Keys(m), [k], Fresh(Keys(m) + [k], Keys(us[1..])));
      }
    }
  }

  lemma PutAllOne<V>(m: Assoc<V>, k: string, v: V)
    ensures PutAll(m, [(k, v)]) == Put(m, k, v)
  {
    assert [(k, v)][1..] == [];
  }

  lemma {:induction false} PutAllAppend<V>(m: Assoc<V>, a: Assoc<V>, b: Assoc<V>)
    ensures PutAll(m, a + b) == PutAll(PutAll(m, a), b)
    decreases |a|
  {
    if a != [] {
      assert (a + b)[0] == a[0] && (a + b)[1..] == a[1..] + b;
      PutAllAppend(Put(m, a[0].0, a[0].1), a[1..], b);
    } else {
      assert a + b == b;
    }
  }

  /** The last assignment to a key decides its value: earlier ones are overwritten entirely. */
  lemma {:induction false} PutAllLastWins<V>(m: Assoc<V>, us: Assoc<V>, i: nat)
    requires i < |us|
    requires forall j :: i < j < |us| ==> us[j].0 != us[i].0
    ensures Get(PutAll(m, us), us[i].0) == Some(us[i].1)
    decreases |us|
  {
    if i == 0 {
      forall j | 0 <= j < |us[1..]| ensures us[1..][j].0 != us[0].0 {
        assert us[1..][j] == us[j + 1];
      }
      PutAllUntouched(Put(m, us[0].0, us[0].1), us[1..], us[0].0);
      PutGet(m, us[0].0, us[0].1, us[0].0);
    } else {
      assert us[1..][i - 1] == us[i];
      PutAllLastWins(Put(m, us[0].0, us[0].1), us[1..], i - 1);
    }
  }

  /** A key that no assignment writes keeps the value it had before. */
  lemma {:induction false} PutAllUntouched<V>(m: Assoc<V>, us: Assoc<V>, k: string)
    requires forall j :: 0 <= j < |us| ==> us[j].0 != k
    ensures Get(PutAll(m, us), k) == Get(m, k)
    decreases |us|
  {
    if us != [] {
      forall j | 0 <= j < |us[1..]| ensures us[1..][j].0 != k {
        assert us[1..][j] == us[j + 1];
      }
      PutAllUntouched(Put(m, us[0].0, us[0].1), us[1..], k);
      PutGet(m, us[0].0, us[0].1, k);
    }
  }

  /** Every value a run of assignments leaves in `m` is either the one `m` held before or one of the values assigned. */
  lemma {:induction false} PutAllValuesFrom<V>(m: Assoc<V>, us: Assoc<V>, k: string)
    requires Get(PutAll(m, us), k).Some?
    ensures Get(PutAll(m, us), k) == Get(m, k) || exists j :: 0 <= j < |us| && us[j] == (k, Get(PutAll(m, us), k).value)
    decreases |us|
  {
    if us != [] {
      var m' := Put(m, us[0].0, us[0].1);
      PutAllValuesFrom(m', us[1..], k);
      PutGet(m, us[0].0, us[0].1, k);
      if Get(PutAll(m', us[1..]), k) == Get(m', k) {
        if k == us[0].0 {
          assert us[0] == (k, Get(PutAll(m, us), k).value);
        }
      } else {
        var j :| 0 <= j < |us[1..]| && us[1..][j] == (k, Get(PutAll(m', us[1..]), k).value);
        assert us[j + 1] == us[1..][j];
      }
    }
  }
}
