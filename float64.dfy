/** The part of IEEE-754 double arithmetic the model needs: a finite value,
    carried exactly as a real, or NaN, which is what Go yields for 0.0/0.0.
    Rounding is not modelled. */
module Float64 {

  datatype F64 = Num(r: real) | NaN

  /** Go's `a > b` on float64: false whenever either side is NaN. */
  predicate Greater(a: F64, b: F64)
  {
    a.Num? && b.Num? && a.r > b.r
  }

  /** Go's `a < b` on float64: false whenever either side is NaN. */
  predicate Less(a: F64, b: F64)
  {
    a.Num? && b.Num? && a.r < b.r
  }

  /** The comparisons are mirror images of each other, and a NaN on
      either side makes both false. */
  lemma ComparisonsMirror(a: F64, b: F64)
    ensures Greater(a, b) <==> Less(b, a)
    ensures (a.NaN? || b.NaN?) ==> !Greater(a, b) && !Less(a, b)
    ensures !(Greater(a, b) && Less(a, b))
  {
  }
}
