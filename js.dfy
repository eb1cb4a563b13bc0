/**
  The JavaScript values a parsed catalog file can hold, and the two pieces of
  JavaScript semantics the catalog relies on: the own enumerable properties of
  a value (what `Object.entries`, `Object.values` and the spread `{...v}` see)
  and the numeric coercion `Number(v)`.
 */
module Js {
  import opened Wrappers
  import opened Assoc
  import opened Decimal

  /** A JavaScript number. Floating-point rounding is not modelled: a finite number is a real. */
  datatype Num = Finite(value: real) | NaN | Infinity(positive: bool)

  /** A value produced by `JSON.parse`; an object lists its members in source order. */
  datatype JSON =
    | JNull
    | JBool(b: bool)
    | JNum(n: Num)
    | JStr(s: string)
    | JArray(items: seq<JSON>)
    | JObject(fields: seq<(string, JSON)>)

  /** A plain object: insertion-ordered properties. */
  type Props = Assoc<JSON>

  /**
    The built-ins the catalog calls whose exact behaviour is not modelled: the
    configured tax rate, `Number(s)` on a string, and `JSON.stringify` (None when
    it throws).
   */
  datatype Runtime = Runtime(taxRate: real, stringToNumber: string -> Num, stringify: JSON -> Option<string>)

  /** Properties keyed "0", "1", ... in index order, as an array or a string exposes them. */
  function Indexed(xs: seq<JSON>): (p: Props)
    ensures |p| == |xs|
    ensures forall i :: 0 <= i < |xs| ==> p[i] == (NatToString(i), xs[i])
    ensures UniqueKeys(p)
  {
    var p := seq(|xs|, i requires 0 <= i < |xs| => (NatToString(i), xs[i]));
    assert UniqueKeys(p) by {
      forall i, j | 0 <= i < j < |p| ensures p[i].0 != p[j].0 {
        if p[i].0 == p[j].0 { NatToStringInjective(i, j); }
      }
    }
    p
  }

  /**
    The own enumerable properties of `v`, in enumeration order. An object parsed
    with a repeated key keeps the last value at the first key's place; an array
    and a string expose their elements under index keys; other values have none.
   */
  function OwnProps(v: JSON): (p: Props)
    ensures UniqueKeys(p)
  {
    match v
    case JObject(fields) => PutAll([], fields)
    case JArray(items) => Indexed(items)
    case JStr(s) => Indexed(seq(|s|, i requires 0 <= i < |s| => JStr([s[i]])))
    case _ => []
  }

  /** An object's members are its own properties; for a parsed object without repeated keys, exactly its fields. */
  lemma {:induction false} OwnPropsOfObject(fields: seq<(string, JSON)>)
    requires UniqueKeys(fields)
    ensures OwnProps(JObject(fields)) == fields
  {
    PutAllDistinct([], fields);
  }

  lemma {:induction false} PutAllDistinct(m: Props, us: Props)
    requires UniqueKeys(m + us)
    ensures PutAll(m, us) == m + us
    decreases |us|
  {
    if us != [] {
      assert us[0].0 !in Keys(m) by {
        forall j | 0 <= j < |m| ensures m[j].0 != us[0].0 {
          assert (m + us)[j] == m[j] && (m + us)[|m|] == us[0];
        }
        InKeys(m, us[0].0);
      }
      PutNew(m, us[0].0, us[0].1);
      assert m + us == (m + [us[0]]) + us[1..];
      PutAllDistinct(m + [us[0]], us[1..]);
    }
  }

  /**
    `item.price` for an item that is not null. Arrays, strings and primitives
    have no own `price`, and `Object.prototype` has none either.
   */
  function Price(item: JSON): Option<JSON> {
    Get(OwnProps(item), "price")
  }

  /** `Number(v)`, with `None` standing for `undefined`. */
  function ToNumber(v: Option<JSON>, stringToNumber: string -> Num): Num {
    match v
    case None => NaN
    case Some(JNull) => Finite(0.0)
    case Some(JBool(b)) => Finite(if b then 1.0 else 0.0)
    case Some(JNum(n)) => n
    case Some(JStr(s)) => stringToNumber(s)
    case Some(JArray(items)) => ArrayToNumber(items, stringToNumber)
    case Some(JObject(_)) => NaN
  }

  /**
    `Number(array)` goes through `array.join(",")`: an empty array is 0, two or
    more elements leave a comma (never numeric), and a single element counts
    by its own text, where `null` joins as the empty string.
   */
  function ArrayToNumber(items: seq<JSON>, stringToNumber: string -> Num): Num
    decreases items
  {
    if |items| == 0 then Finite(0.0)
    else if |items| >= 2 then NaN
    else
      match items[0]
      case JNull => Finite(0.0)
      case JBool(_) => NaN
      case JNum(n) => n
      case JStr(s) => stringToNumber(s)
      case JArray(inner) => ArrayToNumber(inner, stringToNumber)
      case JObject(_) => NaN
  }

  /**
    The coercions `withTax` relies on: `undefined` and an object are NaN;
    `null`, a boolean and the empty array are finite; a number is itself; an
    array of two or more elements joins with a comma and is never a number.
   */
  lemma ToNumberFacts(v: Option<JSON>, stringToNumber: string -> Num)
    ensures v.None? ==> ToNumber(v, stringToNumber) == NaN
    ensures v.Some? && v.value.JObject? ==> ToNumber(v, stringToNumber) == NaN
    ensures v.Some? && v.value.JNum? ==> ToNumber(v, stringToNumber) == v.value.n
    ensures v.Some? && (v.value.JNull? || v.value.JBool? || v.value == JArray([])) ==> ToNumber(v, stringToNumber).Finite?
    ensures v.Some? && v.value.JArray? && |v.value.items| >= 2 ==> ToNumber(v, stringToNumber) == NaN
  {
  }

  /**
    A one-element array coerces as its element does, except a boolean: its
    text `"true"` or `"false"` is not numeric, though the boolean is 1 or 0.
   */
  lemma ArrayToNumberSingleton(x: JSON, stringToNumber: string -> Num)
    ensures ArrayToNumber([x], stringToNumber) == ToNumber(Some(x), stringToNumber) <==> !x.JBool?
    ensures x.JBool? ==> ArrayToNumber([x], stringToNumber) == NaN
  {
  }
}
