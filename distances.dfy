/** The two distance measures between the argument lists of two records
    (get_log2_dist and get_data_dists). */
module Distances {
  import opened Numerics
  import opened Records

  /** get_log2_dist: how far |a| sits from the nearest power of two, measured in
      binary orders of magnitude; zero for zero. */
  function Log2Dist(log2: real -> real, a: real): (d: real)
    ensures 0.0 <= d <= 0.5
    ensures a == 0.0 ==> d == 0.0
  {
    var m := Abs(a);
    if m > 0.0 then
      var l := Abs(log2(m));
      RoundToWhole(l);
      Abs(Round(l, 0) - l)
    else 0.0
  }

  /** The measure looks only at the magnitude of its argument. */
  lemma Log2DistEven(log2: real -> real, a: real)
    ensures Log2Dist(log2, -a) == Log2Dist(log2, a)
  {
    assert Abs(-a) == Abs(a);
  }

  /** The pair [dist1, dist2] that get_data_dists returns. */
  datatype Dist = Dist(raw: real, log2: real)

  /** dist1: the sum of the element-wise absolute differences. */
  function RawDistance(a: seq<real>, b: seq<real>): (r: real)
    requires |a| == |b|
    ensures r >= 0.0
  {
    if a == [] then 0.0
    else RawDistance(a[..|a| - 1], b[..|b| - 1]) + Abs(a[|a| - 1] - b[|b| - 1])
  }

  /** dist2: the sum of Log2Dist over the elements of both lists. */
  function Log2Distance(log2: real -> real, a: seq<real>, b: seq<real>): (r: real)
    requires |a| == |b|
    ensures 0.0 <= r <= |a| as real
  {
    if a == [] then 0.0
    else Log2Distance(log2, a[..|a| - 1], b[..|b| - 1]) + Log2Dist(log2, a[|a| - 1]) + Log2Dist(log2, b[|b| - 1])
  }

  /** get_data_dists: a length mismatch is fatal; otherwise both distances. */
  function DataDists(log2: real -> real, a: seq<real>, b: seq<real>): (r: Result<Dist>)
    ensures r.Err? <==> |a| != |b|
    ensures r.Err? ==> r.error == LengthMismatch(|a|, |b|)
    ensures r.Ok? ==> r.value.raw >= 0.0 && 0.0 <= r.value.log2 <= |a| as real
  {
    if |a| != |b| then Err(LengthMismatch(|a|, |b|))
    else Ok(Dist(RawDistance(a, b), Log2Distance(log2, a, b)))
  }

  /** get_data_dists as the source runs it: one pass accumulating both sums. */
  method GetDataDists(log2: real -> real, a: seq<real>, b: seq<real>) returns (r: Result<Dist>)
    ensures r == DataDists(log2, a, b)
  {
    if |a| != |b| {
      return Err(LengthMismatch(|a|, |b|));
    }
    var dist1, dist2 := 0.0, 0.0;
    for i := 0 to |a|
      invariant dist1 == RawDistance(a[..i], b[..i])
      invariant dist2 == Log2Distance(log2, a[..i], b[..i])
    {
      assert a[..i + 1][..i] == a[..i] && b[..i + 1][..i] == b[..i];
      dist1 := dist1 + Abs(a[i] - b[i]);
      dist2 := dist2 + (Log2Dist(log2, a[i]) + Log2Dist(log2, b[i]));
    }
    assert a[..|a|] == a && b[..|b|] == b;
    return Ok(Dist(dist1, dist2));
  }

  lemma {:induction false} RawDistanceSymmetric(a: seq<real>, b: seq<real>)
    requires |a| == |b|
    ensures RawDistance(a, b) == RawDistance(b, a)
  {
    if a != [] {
      RawDistanceSymmetric(a[..|a| - 1], b[..|b| - 1]);
      assert Abs(a[|a| - 1] - b[|b| - 1]) == Abs(b[|b| - 1] - a[|a| - 1]);
    }
  }

  lemma {:induction false} RawDistanceSelf(a: seq<real>)
    ensures RawDistance(a, a) == 0.0
  {
    if a != [] {
      RawDistanceSelf(a[..|a| - 1]);
    }
  }

  lemma {:induction false} Log2DistanceSymmetric(log2: real -> real, a: seq<real>, b: seq<real>)
    requires |a| == |b|
    ensures Log2Distance(log2, a, b) == Log2Distance(log2, b, a)
  {
    if a != [] {
      Log2DistanceSymmetric(log2, a[..|a| - 1], b[..|b| - 1]);
    }
  }

  /** Swapping the two argument lists changes neither distance (and a length
      mismatch is reported either way round). */
  lemma DataDistsSymmetric(log2: real -> real, a: seq<real>, b: seq<real>)
    ensures DataDists(log2, a, b).Ok? == DataDists(log2, b, a).Ok?
    ensures DataDists(log2, a, b).Ok? ==> DataDists(log2, a, b) == DataDists(log2, b, a)
  {
    if |a| == |b| {
      RawDistanceSymmetric(a, b);
      Log2DistanceSymmetric(log2, a, b);
    }
  }

  /** Identical argument lists are at raw distance zero. */
  lemma DataDistsSelf(log2: real -> real, a: seq<real>)
    ensures DataDists(log2, a, a).Ok? && DataDists(log2, a, a).value.raw == 0.0
  {
    RawDistanceSelf(a);
  }
}
