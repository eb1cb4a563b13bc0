/** `withTax`: the tax-inclusive price, rounded to cents, or null when the price is not a finite number. */
module Tax {
  import opened Wrappers
  import opened Js

  /**
    `Math.round(x * 100) / 100` in exact arithmetic: a whole number of cents,
    within half a cent of `x`, with halves rounded up.
   */
  function RoundCents(x: real): (r: real)
    ensures (r * 100.0).Floor as real == r * 100.0
    ensures x - 0.005 < r <= x + 0.005
  {
    var c := (x * 100.0 + 0.5).Floor;
    assert c as real * 0.01 * 100.0 == c as real;
    (c as real) / 100.0
  }

  /** A price that already is a whole number of cents comes back unchanged. */
  lemma RoundCentsExact(k: int)
    ensures RoundCents(k as real / 100.0) == k as real / 100.0
  {
    var x := k as real / 100.0;
    assert x * 100.0 + 0.5 == k as real + 0.5;
    assert (k as real + 0.5).Floor == k;
  }

  /** `withTax(price)` */
  function WithTax(price: Option<JSON>, rt: Runtime): (r: JSON)
    ensures r == JNull <==> !ToNumber(price, rt.stringToNumber).Finite?
    ensures r != JNull ==> r.JNum? && r.n.Finite?
    ensures r != JNull ==> (r.n.value * 100.0).Floor as real == r.n.value * 100.0
    ensures r != JNull ==>
      var p := ToNumber(price, rt.stringToNumber).value;
      p * (1.0 + rt.taxRate) - 0.005 < r.n.value <= p * (1.0 + rt.taxRate) + 0.005
  {
    match ToNumber(price, rt.stringToNumber)
    case Finite(p) => JNum(Finite(RoundCents(p * (1.0 + rt.taxRate))))
    case _ => JNull
  }

  /** A missing price (`undefined`) gives null; an explicit `null` counts as 0, as `Number(null)` does. */
  lemma WithTaxMissingAndNull(rt: Runtime)
    ensures WithTax(None, rt) == JNull
    ensures WithTax(Some(JNull), rt) == JNum(Finite(0.0))
  {
  }
}
