/**
  The string operations the catalog uses: `toLowerCase` (ASCII letters only),
  `trim`, `replace(/\s+/g, "_")`, the `.json` suffix test and strip, and
  `includes`. Whitespace is the set JavaScript's `\s` and `trim` share: the
  WhiteSpace and LineTerminator code points of ECMAScript.
 */
module Text {
  import opened Seqs

  predicate IsUpper(c: char) {
    'A' <= c <= 'Z'
  }

  function LowerChar(c: char): char {
    if IsUpper(c) then (c as int + 32) as char else c
  }

  /** `s.toLowerCase()` restricted to the ASCII letters. */
  function ToLower(s: string): string {
    seq(|s|, i requires 0 <= i < |s| => LowerChar(s[i]))
  }

  predicate NoUpper(s: string) {
    forall i :: 0 <= i < |s| ==> !IsUpper(s[i])
  }

  /** Lowercasing leaves no upper-case letter, is idempotent and changes nothing already lower-case. */
  lemma ToLowerFacts(s: string)
    ensures |ToLower(s)| == |s| && NoUpper(ToLower(s))
    ensures ToLower(ToLower(s)) == ToLower(s)
    ensures NoUpper(s) ==> ToLower(s) == s
  {
  }

  lemma ToLowerAppend(a: string, b: string)
    ensures ToLower(a + b) == ToLower(a) + ToLower(b)
  {
  }

  lemma ToLowerSuffix(s: string, k: nat)
    requires k <= |s|
    ensures ToLower(s)[k..] == ToLower(s[k..])
  {
  }

  /** The code points ECMAScript counts as WhiteSpace or LineTerminator. */
  const Whitespace: set<char> := {
    '\t', '\n', '\U{000B}', '\U{000C}', '\r', ' ', '\U{00A0}', '\U{1680}',
    '\U{2000}', '\U{2001}', '\U{2002}', '\U{2003}', '\U{2004}', '\U{2005}',
    '\U{2006}', '\U{2007}', '\U{2008}', '\U{2009}', '\U{200A}',
    '\U{2028}', '\U{2029}', '\U{202F}', '\U{205F}', '\U{3000}', '\U{FEFF}'
  }

  predicate IsSpace(c: char) {
    c in Whitespace
  }

  predicate NoSpace(s: string) {
    forall i :: 0 <= i < |s| ==> !IsSpace(s[i])
  }

  predicate AllSpace(s: string) {
    forall i :: 0 <= i < |s| ==> IsSpace(s[i])
  }

  /** Lowercasing neither creates nor removes whitespace. */
  lemma LowerCharSpace(c: char)
    ensures IsSpace(LowerChar(c)) <==> IsSpace(c)
  {
  }

  /** Removes the leading whitespace: the result is the rest of `s` from its first non-space character. */
  function TrimStart(s: string): (r: string)
    ensures |r| <= |s| && r == s[|s| - |r|..]
    ensures AllSpace(s[..|s| - |r|])
    ensures r == [] || !IsSpace(r[0])
  {
    if s != [] && IsSpace(s[0]) then
      var r := TrimStart(s[1..]);
      TrimStartStep(s, r);
      r
    else s
  }

  lemma TrimStartStep(s: string, r: string)
    requires s != [] && IsSpace(s[0])
    requires |r| <= |s| - 1 && r == s[1..][|s| - 1 - |r|..] && AllSpace(s[1..][..|s| - 1 - |r|])
    ensures r == s[|s| - |r|..] && AllSpace(s[..|s| - |r|])
  {
    var n := |s| - |r|;
    assert s[1..][n - 1..] == s[n..];
    forall k | 0 <= k < n ensures IsSpace(s[..n][k]) {
      if k > 0 {
        assert s[..n][k] == s[1..][..n - 1][k - 1];
      }
    }
  }

  /** Removes the trailing whitespace: the result is `s` up to its last non-space character. */
  function TrimEnd(s: string): (r: string)
    ensures |r| <= |s| && r == s[..|r|]
    ensures AllSpace(s[|r|..])
    ensures r == [] || !IsSpace(r[|r| - 1])
  {
    if s != [] && IsSpace(s[|s| - 1]) then
      var r := TrimEnd(s[..|s| - 1]);
      TrimEndStep(s, r);
      r
    else s
  }

  lemma TrimEndStep(s: string, r: string)
    requires s != [] && IsSpace(s[|s| - 1])
    requires |r| <= |s| - 1 && r == s[..|s| - 1][..|r|] && AllSpace(s[..|s| - 1][|r|..])
    ensures r == s[..|r|] && AllSpace(s[|r|..])
  {
    forall k | 0 <= k < |s| - |r| ensures IsSpace(s[|r|..][k]) {
      if k < |s| - 1 - |r| {
        assert s[|r|..][k] == s[..|s| - 1][|r|..][k];
      }
    }
  }

  /** `r` is the piece of `s` at offset `i`, with only whitespace around it. */
  predicate TrimmedAt(s: string, r: string, i: nat) {
    i + |r| <= |s| && r == s[i..i + |r|] && AllSpace(s[..i]) && AllSpace(s[i + |r|..])
  }

  lemma TrimWitness(s: string, t: string, r: string)
    requires |t| <= |s| && t == s[|s| - |t|..] && AllSpace(s[..|s| - |t|])
    requires |r| <= |t| && r == t[..|r|] && AllSpace(t[|r|..])
    ensures TrimmedAt(s, r, |s| - |t|)
  {
    var i := |s| - |t|;
    assert r == s[i..i + |r|];
    assert s[i + |r|..] == t[|r|..];
  }

  /** `s.trim()`: cuts the leading, then the trailing whitespace. */
  function Trim(s: string): string {
    TrimEnd(TrimStart(s))
  }

  /** `s.trim()` is a contiguous piece of `s`, with only whitespace cut on either side and none left at its ends. */
  lemma TrimFacts(s: string)
    ensures exists i :: TrimmedAt(s, Trim(s), i)
    ensures Trim(s) == [] || (!IsSpace(Trim(s)[0]) && !IsSpace(Trim(s)[|Trim(s)| - 1]))
  {
    TrimPieces(s, TrimStart(s), Trim(s));
  }

  /** Cutting the leading and then the trailing whitespace leaves a trimmed piece. */
  lemma TrimPieces(s: string, t: string, r: string)
    requires |t| <= |s| && t == s[|s| - |t|..] && AllSpace(s[..|s| - |t|])
    requires t == [] || !IsSpace(t[0])
    requires |r| <= |t| && r == t[..|r|] && AllSpace(t[|r|..])
    requires r == [] || !IsSpace(r[|r| - 1])
    ensures exists i :: TrimmedAt(s, r, i)
    ensures r == [] || (!IsSpace(r[0]) && !IsSpace(r[|r| - 1]))
  {
    TrimWitness(s, t, r);
    assert TrimmedAt(s, r, |s| - |t|);
    TrimEnds(t, r);
  }

  lemma TrimEnds(t: string, r: string)
    requires t == [] || !IsSpace(t[0])
    requires |r| <= |t| && r == t[..|r|]
    requires r == [] || !IsSpace(r[|r| - 1])
    ensures r == [] || (!IsSpace(r[0]) && !IsSpace(r[|r| - 1]))
  {
    if r != [] {
      assert r[0] == t[0];
    }
  }

  /** A string without boundary whitespace is its own trim; in particular trimming is idempotent. */
  lemma TrimUnchanged(s: string)
    requires s == [] || (!IsSpace(s[0]) && !IsSpace(s[|s| - 1]))
    ensures Trim(s) == s
  {
  }

  lemma TrimIdempotent(s: string)
    ensures Trim(Trim(s)) == Trim(s)
  {
    TrimFacts(s);
    TrimUnchanged(Trim(s));
  }

  /** Trimming yields the empty string exactly when `s` is all whitespace. */
  lemma TrimEmpty(s: string)
    ensures Trim(s) == [] <==> AllSpace(s)
  {
    TrimFacts(s);
    var r := Trim(s);
    var i: nat :| TrimmedAt(s, r, i);
    if r == [] {
      forall k | 0 <= k < |s| ensures IsSpace(s[k]) {
        if k < i {
          assert s[k] == s[..i][k];
        } else {
          assert s[k] == s[i..][k - i];
        }
      }
    } else {
      assert r[0] == s[i];
    }
  }

  lemma {:induction false} TrimStartAppend(x: string, y: string)
    requires !AllSpace(x)
    ensures TrimStart(x + y) == TrimStart(x) + y
    decreases |x|
  {
    if IsSpace(x[0]) {
      assert (x + y)[1..] == x[1..] + y;
      assert !AllSpace(x[1..]) by {
        var i :| 0 <= i < |x| && !IsSpace(x[i]);
        assert x[1..][i - 1] == x[i];
      }
      TrimStartAppend(x[1..], y);
    } else {
      assert (x + y)[0] == x[0];
    }
  }

  lemma {:induction false} TrimStartOfSpaces(w: string, y: string)
    requires AllSpace(w)
    requires y == [] || !IsSpace(y[0])
    ensures TrimStart(w + y) == y
    decreases |w|
  {
    if w != [] {
      assert (w + y)[1..] == w[1..] + y;
      TrimStartOfSpaces(w[1..], y);
    } else {
      assert w + y == y;
    }
  }

  /** `s.replace(/\s+/g, "_")`: every maximal run of whitespace becomes one underscore. */
  function ReplaceSpaceRuns(s: string): (r: string)
    ensures NoSpace(r)
    ensures |r| <= |s|
    decreases |s|
  {
    if s == [] then []
    else if IsSpace(s[0]) then "_" + ReplaceSpaceRuns(TrimStart(s[1..]))
    else [s[0]] + ReplaceSpaceRuns(s[1..])
  }

  /** Replacing whitespace runs adds only underscores, so it keeps a string free of upper-case letters. */
  lemma {:induction false} ReplaceSpaceRunsNoUpper(s: string)
    requires NoUpper(s)
    ensures NoUpper(ReplaceSpaceRuns(s))
    decreases |s|
  {
    if s != [] {
      var rest := s[1..];
      NoUpperSuffix(s, 1);
      if IsSpace(s[0]) {
        var t := TrimStart(rest);
        NoUpperSuffix(rest, |rest| - |t|);
        ReplaceSpaceRunsNoUpper(t);
        UnfoldSpace(s);
        NoUpperConcat("_", ReplaceSpaceRuns(t));
      } else {
        ReplaceSpaceRunsNoUpper(rest);
        UnfoldOther(s);
        NoUpperConcat([s[0]], ReplaceSpaceRuns(rest));
      }
    }
  }

  lemma NoUpperConcat(a: string, b: string)
    requires NoUpper(a) && NoUpper(b)
    ensures NoUpper(a + b)
  {
    forall i | 0 <= i < |a + b| ensures !IsUpper((a + b)[i]) {
      if i >= |a| {
        assert (a + b)[i] == b[i - |a|];
      }
    }
  }

  lemma NoUpperSuffix(s: string, k: nat)
    requires NoUpper(s) && k <= |s|
    ensures NoUpper(s[k..])
  {
    forall i | 0 <= i < |s| - k ensures !IsUpper(s[k..][i]) {
      assert s[k..][i] == s[k + i];
    }
  }

  lemma NoUpperPrefix(s: string, k: nat)
    requires NoUpper(s) && k <= |s|
    ensures NoUpper(s[..k])
  {
    forall i | 0 <= i < k ensures !IsUpper(s[..k][i]) {
      assert s[..k][i] == s[i];
    }
  }

  /** A string without whitespace is left unchanged. */
  lemma {:induction false} ReplaceSpaceRunsNoSpace(s: string)
    requires NoSpace(s)
    ensures ReplaceSpaceRuns(s) == s
    decreases |s|
  {
    if s != [] {
      assert NoSpace(s[1..]);
      ReplaceSpaceRunsNoSpace(s[1..]);
    }
  }

  lemma RunAtStart(w: string, b: string)
    requires w != [] && AllSpace(w)
    requires b == [] || !IsSpace(b[0])
    ensures ReplaceSpaceRuns(w + b) == "_" + ReplaceSpaceRuns(b)
  {
    assert (w + b)[0] == w[0];
    assert (w + b)[1..] == w[1..] + b;
    TrimStartOfSpaces(w[1..], b);
  }

  lemma UnfoldSpace(x: string)
    requires x != [] && IsSpace(x[0])
    ensures ReplaceSpaceRuns(x) == "_" + ReplaceSpaceRuns(TrimStart(x[1..]))
  {
  }

  lemma UnfoldOther(x: string)
    requires x != [] && !IsSpace(x[0])
    ensures ReplaceSpaceRuns(x) == [x[0]] + ReplaceSpaceRuns(x[1..])
  {
  }

  /**
    The run replacement is compositional: a whitespace run `w` that separates
    two pieces which do not themselves touch it with whitespace becomes a single
    underscore between their replacements.
   */
  lemma {:induction false} ReplaceSpaceRunsSplit(a: string, w: string, b: string)
    requires w != [] && AllSpace(w)
    requires a == [] || !IsSpace(a[|a| - 1])
    requires b == [] || !IsSpace(b[0])
    ensures ReplaceSpaceRuns(a + w + b) == ReplaceSpaceRuns(a) + "_" + ReplaceSpaceRuns(b)
    decreases |a|, 1
  {
    if a == [] {
      assert a + w + b == w + b;
      RunAtStart(w, b);
    } else if IsSpace(a[0]) {
      SplitSpaceLed(a, w, b);
    } else {
      SplitOtherLed(a, w, b);
    }
  }

  lemma {:induction false} SplitSpaceLed(a: string, w: string, b: string)
    requires w != [] && AllSpace(w)
    requires a != [] && IsSpace(a[0]) && !IsSpace(a[|a| - 1])
    requires b == [] || !IsSpace(b[0])
    ensures ReplaceSpaceRuns(a + w + b) == ReplaceSpaceRuns(a) + "_" + ReplaceSpaceRuns(b)
    decreases |a|, 0
  {
    SpaceLedShape(a);
    var t := TrimStart(a[1..]);
    ReplaceSpaceRunsSplit(t, w, b);
    SpaceLedStep(a, w, b);
    UnfoldSpace(a);
    ConcatAssoc("_", ReplaceSpaceRuns(t) + "_", ReplaceSpaceRuns(b));
    ConcatAssoc("_", ReplaceSpaceRuns(t), "_");
  }

  lemma {:induction false} SplitOtherLed(a: string, w: string, b: string)
    requires w != [] && AllSpace(w)
    requires a != [] && !IsSpace(a[0]) && !IsSpace(a[|a| - 1])
    requires b == [] || !IsSpace(b[0])
    ensures ReplaceSpaceRuns(a + w + b) == ReplaceSpaceRuns(a) + "_" + ReplaceSpaceRuns(b)
    decreases |a|, 0
  {
    OtherLedStep(a, w, b);
    ReplaceSpaceRunsSplit(a[1..], w, b);
    ConcatAssoc([a[0]], ReplaceSpaceRuns(a[1..]) + "_", ReplaceSpaceRuns(b));
    ConcatAssoc([a[0]], ReplaceSpaceRuns(a[1..]), "_");
  }

  lemma SpaceLedShape(a: string)
    requires a != [] && IsSpace(a[0]) && !IsSpace(a[|a| - 1])
    ensures !AllSpace(a[1..]) && |TrimStart(a[1..])| < |a|
    ensures TrimStart(a[1..]) != [] && !IsSpace(TrimStart(a[1..])[|TrimStart(a[1..])| - 1])
  {
    assert !AllSpace(a[1..]) by {
      assert a[1..][|a| - 2] == a[|a| - 1];
    }
    TrimStartAppend(a[1..], []);
    assert a[1..] + [] == a[1..];
  }

  lemma SpaceLedStep(a: string, w: string, b: string)
    requires a != [] && IsSpace(a[0]) && !AllSpace(a[1..])
    ensures ReplaceSpaceRuns(a + w + b) == "_" + ReplaceSpaceRuns(TrimStart(a[1..]) + w + b)
  {
    var s := a + w + b;
    assert s[0] == a[0];
    UnfoldSpace(s);
    TrimStartTail(a, w, b);
  }

  lemma TrimStartTail(a: string, w: string, b: string)
    requires a != [] && !AllSpace(a[1..])
    ensures TrimStart((a + w + b)[1..]) == TrimStart(a[1..]) + w + b
  {
    assert (a + w + b)[1..] == a[1..] + (w + b);
    TrimStartAppend(a[1..], w + b);
    assert TrimStart(a[1..]) + (w + b) == TrimStart(a[1..]) + w + b;
  }

  lemma OtherLedStep(a: string, w: string, b: string)
    requires a != [] && !IsSpace(a[0]) && !IsSpace(a[|a| - 1])
    ensures a[1..] == [] || !IsSpace(a[1..][|a[1..]| - 1])
    ensures ReplaceSpaceRuns(a + w + b) == [a[0]] + ReplaceSpaceRuns(a[1..] + w + b)
    ensures ReplaceSpaceRuns(a) == [a[0]] + ReplaceSpaceRuns(a[1..])
  {
    var s := a + w + b;
    assert s[0] == a[0];
    assert s[1..] == a[1..] + w + b;
    UnfoldOther(s);
    UnfoldOther(a);
  }

  /** `f.toLowerCase().endsWith(".json")` */
  predicate HasJsonSuffix(f: string) {
    |f| >= 5 && ToLower(f)[|f| - 5..] == ".json"
  }

  /** `f.replace(/\.json$/i, "")`: drops a final `.json` in any letter case. */
  function StripJsonSuffix(f: string): (b: string)
    ensures HasJsonSuffix(f) ==> |b| == |f| - 5 && f == b + f[|b|..]
    ensures !HasJsonSuffix(f) ==> b == f
  {
    if |f| >= 5 && ToLower(f[|f| - 5..]) == ".json" then
      ToLowerSuffix(f, |f| - 5);
      f[..|f| - 5]
    else
      if |f| >= 5 then ToLowerSuffix(f, |f| - 5); f else f
  }

  /** `text.includes(q)` */
  function Contains(text: string, q: string): bool
    decreases |text|
  {
    q <= text || (text != [] && Contains(text[1..], q))
  }

  predicate OccursAt(text: string, q: string, i: nat) {
    i + |q| <= |text| && text[i..i + |q|] == q
  }

  /** `includes` holds exactly when `q` occurs at some position of `text`. */
  lemma {:induction false} ContainsIff(text: string, q: string)
    ensures Contains(text, q) <==> exists i: nat :: OccursAt(text, q, i)
  {
    if Contains(text, q) {
      var i := ContainsWitness(text, q);
    }
    if exists i: nat :: OccursAt(text, q, i) {
      var i: nat :| OccursAt(text, q, i);
      OccursContains(text, q, i);
    }
  }

  lemma {:induction false} ContainsWitness(text: string, q: string) returns (i: nat)
    requires Contains(text, q)
    ensures OccursAt(text, q, i)
    decreases |text|
  {
    if q <= text {
      i := 0;
      assert text[..|q|] == q;
    } else {
      var j := ContainsWitness(text[1..], q);
      i := j + 1;
      assert text[1..][j..j + |q|] == text[i..i + |q|];
    }
  }

  lemma {:induction false} OccursContains(text: string, q: string, i: nat)
    requires OccursAt(text, q, i)
    ensures Contains(text, q)
    decreases i
  {
    if i == 0 {
      assert q <= text;
    } else {
      assert text[1..][i - 1..i - 1 + |q|] == text[i..i + |q|];
      OccursContains(text[1..], q, i - 1);
    }
  }
}
