/** The integers of the metrics document. */
module MetricsInts {
  /** The largest one JSON can hold. */
  const INT_MAX: int := 0x7fff_ffff_ffff_ffff

  predicate IsOverflow(cur: int, add: int)
    ensures IsOverflow(cur, add) <==> cur + add >= 9_223_372_036_854_775_808
  {
    add > INT_MAX - cur
  }
}
