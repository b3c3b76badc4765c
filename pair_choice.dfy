/** Choosing one representative pair in an exact bucket of three or more
    records: every pair (i, j) with i < j, in enumeration order, is measured with
    get_data_dists; the pairs are then stable-sorted by dist2 ascending and
    stable-sorted again by dist1 descending, and the first pair is printed. */
module PairChoice {
  import opened Records
  import opened Distances

  /** The pair of records at positions first < second of the bucket, with the
      two distances between their argument lists. */
  datatype Candidate = Candidate(first: nat, second: nat, dist1: real, dist2: real)

  /** `c` is measured from records `c.first < c.second` of bucket b. */
  predicate MeasuredFrom(log2: real -> real, b: seq<Entry>, c: Candidate)
  {
    c.first < c.second < |b| &&
    DataDists(log2, b[c.first].data, b[c.second].data) == Ok(Dist(c.dist1, c.dist2))
  }

  function Prepend(c: Candidate, r: Result<seq<Candidate>>): Result<seq<Candidate>>
  {
    match r
    case Ok(cs) => Ok([c] + cs)
    case Err(e) => Err(e)
  }

  /** The candidates for the pairs from (i, j) onwards in the order of the two
      nested loops (outer i, inner j, both over the whole bucket, keeping i < j);
      the first length mismatch met aborts. */
  function PairsFrom(log2: real -> real, b: seq<Entry>, i: nat, j: nat): (r: Result<seq<Candidate>>)
    requires i <= |b| && j <= |b|
    ensures r.Ok? ==> forall c :: c in r.value ==> MeasuredFrom(log2, b, c) && i <= c.first
    ensures r.Ok? && i + 1 < |b| && j < |b| ==> r.value != []
    decreases |b| - i, |b| - j
  {
    if i == |b| then Ok([])
    else if j == |b| then PairsFrom(log2, b, i + 1, 0)
    else if i < j then
      match DataDists(log2, b[i].data, b[j].data)
      case Err(e) => Err(e)
      case Ok(d) => Prepend(Candidate(i, j, d.raw, d.log2), PairsFrom(log2, b, i, j + 1))
    else PairsFrom(log2, b, i, j + 1)
  }

  /** Every pair of distinct positions of the bucket is measured exactly when no
      two argument lists differ in length. */
  lemma {:induction false} PairsFromFails(log2: real -> real, b: seq<Entry>, i: nat, j: nat)
    requires i <= |b| && j <= |b|
    ensures PairsFrom(log2, b, i, j).Err? <==>
      exists p, q :: i <= p < q < |b| && (p > i || q >= j) && |b[p].data| != |b[q].data|
    decreases |b| - i, |b| - j
  {
    if i == |b| {
    } else if j == |b| {
      PairsFromFails(log2, b, i + 1, 0);
      if exists p, q :: i <= p < q < |b| && (p > i || q >= j) && |b[p].data| != |b[q].data| {
        var p, q :| i <= p < q < |b| && (p > i || q >= j) && |b[p].data| != |b[q].data|;
        assert p > i;
      }
    } else if i < j {
      PairsFromFails(log2, b, i, j + 1);
      if |b[i].data| == |b[j].data| {
        if exists p, q :: i <= p < q < |b| && (p > i || q >= j) && |b[p].data| != |b[q].data| {
          var p, q :| i <= p < q < |b| && (p > i || q >= j) && |b[p].data| != |b[q].data|;
          assert p > i || q >= j + 1;
        }
      }
    } else {
      PairsFromFails(log2, b, i, j + 1);
      if exists p, q :: i <= p < q < |b| && (p > i || q >= j) && |b[p].data| != |b[q].data| {
        var p, q :| i <= p < q < |b| && (p > i || q >= j) && |b[p].data| != |b[q].data|;
        assert p > i || q >= j + 1;
      }
    }
  }

  function Combine(done: seq<Candidate>, rest: Result<seq<Candidate>>): Result<seq<Candidate>>
  {
    match rest
    case Ok(cs) => Ok(done + cs)
    case Err(e) => Err(e)
  }

  lemma CombinePrepend(done: seq<Candidate>, c: Candidate, rest: Result<seq<Candidate>>)
    ensures Combine(done, Prepend(c, rest)) == Combine(done + [c], rest)
  {
    if rest.Ok? {
      assert done + ([c] + rest.value) == (done + [c]) + rest.value;
    }
  }

  /** The two nested loops of do_prints that fill dist1_dict and dist2_dict. */
  method RankPairs(log2: real -> real, b: seq<Entry>) returns (r: Result<seq<Candidate>>)
    ensures r == PairsFrom(log2, b, 0, 0)
  {
    var pairs: seq<Candidate> := [];
    var all := PairsFrom(log2, b, 0, 0);
    if all.Ok? {
      assert [] + all.value == all.value;
    }
    var i := 0;
    while i < |b|
      invariant 0 <= i <= |b|
      invariant Combine(pairs, PairsFrom(log2, b, i, 0)) == all
    {
      var j := 0;
      while j < |b|
        invariant 0 <= j <= |b|
        invariant Combine(pairs, PairsFrom(log2, b, i, j)) == all
      {
        if i < j {
          var d := GetDataDists(log2, b[i].data, b[j].data);
          if d.Err? {
            assert PairsFrom(log2, b, i, j) == Err(d.error);
            return Err(d.error);
          }
          var c := Candidate(i, j, d.value.raw, d.value.log2);
          assert PairsFrom(log2, b, i, j) == Prepend(c, PairsFrom(log2, b, i, j + 1));
          CombinePrepend(pairs, c, PairsFrom(log2, b, i, j + 1));
          pairs := pairs + [c];
        } else {
          assert PairsFrom(log2, b, i, j) == PairsFrom(log2, b, i, j + 1);
        }
        j := j + 1;
      }
      assert PairsFrom(log2, b, i, j) == PairsFrom(log2, b, i + 1, 0);
      i := i + 1;
    }
    assert PairsFrom(log2, b, i, 0) == Ok([]);
    assert pairs + [] == pairs;
    return Ok(pairs);
  }

  /** x is placed before y by the two stable sorts: larger dist1 first, and for
      equal dist1 the smaller dist2 first. */
  predicate Outranks(x: Candidate, y: Candidate)
  {
    x.dist1 > y.dist1 || (x.dist1 == y.dist1 && x.dist2 < y.dist2)
  }

  /** The position of poss_pairs[0] after the two sorts: a candidate no other
      outranks, and the earliest such (both sorts are stable). */
  function BestPair(cs: seq<Candidate>): (k: nat)
    requires cs != []
    ensures k < |cs|
    ensures forall m :: 0 <= m < |cs| ==> !Outranks(cs[m], cs[k])
    ensures forall m :: 0 <= m < k ==> Outranks(cs[k], cs[m])
    decreases |cs|
  {
    if |cs| == 1 then 0
    else
      var k := BestPair(cs[1..]) + 1;
      if Outranks(cs[k], cs[0]) then k else 0
  }

  /** x comes before y in the order of the two nested loops. */
  predicate Before(x: Candidate, y: Candidate)
  {
    x.first < y.first || (x.first == y.first && x.second < y.second)
  }

  /** The pair (p, q) is among the candidates. */
  predicate Listed(cs: seq<Candidate>, p: nat, q: nat)
  {
    exists c :: c in cs && c.first == p && c.second == q
  }

  /** The candidates come in loop order, all at or after (i, j). */
  lemma {:induction false} PairsFromOrdered(log2: real -> real, b: seq<Entry>, i: nat, j: nat)
    requires i <= |b| && j <= |b|
    requires PairsFrom(log2, b, i, j).Ok?
    ensures forall c :: c in PairsFrom(log2, b, i, j).value ==> c.first > i || (c.first == i && c.second >= j)
    ensures var cs := PairsFrom(log2, b, i, j).value;
      forall x, y :: 0 <= x < y < |cs| ==> Before(cs[x], cs[y])
    decreases |b| - i, |b| - j
  {
    if i == |b| {
    } else if j == |b| {
      PairsFromOrdered(log2, b, i + 1, 0);
    } else if i < j {
      PairsFromOrdered(log2, b, i, j + 1);
      var cs := PairsFrom(log2, b, i, j).value;
      var rest := PairsFrom(log2, b, i, j + 1).value;
      assert cs == [cs[0]] + rest;
      forall x, y | 0 <= x < y < |cs|
        ensures Before(cs[x], cs[y])
      {
        assert cs[y] == rest[y - 1];
        if x > 0 {
          assert cs[x] == rest[x - 1];
        }
      }
    } else {
      PairsFromOrdered(log2, b, i, j + 1);
    }
  }

  /** Every pair of positions p < q at or after (i, j) is measured. */
  lemma {:induction false} PairsFromComplete(log2: real -> real, b: seq<Entry>, i: nat, j: nat)
    requires i <= |b| && j <= |b|
    requires PairsFrom(log2, b, i, j).Ok?
    ensures forall p: nat, q: nat :: i <= p < q < |b| && (p > i || q >= j) ==>
      Listed(PairsFrom(log2, b, i, j).value, p, q)
    decreases |b| - i, |b| - j
  {
    if i == |b| {
    } else if j == |b| {
      PairsFromComplete(log2, b, i + 1, 0);
    } else if i < j {
      PairsFromComplete(log2, b, i, j + 1);
      var cs := PairsFrom(log2, b, i, j).value;
      var rest := PairsFrom(log2, b, i, j + 1).value;
      assert cs == [cs[0]] + rest;
      forall p: nat, q: nat | i <= p < q < |b| && (p > i || q >= j)
        ensures Listed(cs, p, q)
      {
        if p == i && q == j {
          assert cs[0] in cs;
        } else {
          assert Listed(rest, p, q);
          var c :| c in rest && c.first == p && c.second == q;
          assert c in cs;
        }
      }
    } else {
      PairsFromComplete(log2, b, i, j + 1);
    }
  }

  /** The pair the source prints, stated without the sorts: a measured pair that
      no measured pair outranks, and that outranks every measured pair coming
      before it in loop order. */
  ghost predicate Chosen(log2: real -> real, b: seq<Entry>, c: Candidate)
  {
    MeasuredFrom(log2, b, c) &&
    (forall d :: MeasuredFrom(log2, b, d) ==> !Outranks(d, c)) &&
    (forall d :: MeasuredFrom(log2, b, d) && Before(d, c) ==> Outranks(c, d))
  }

  /** BestPair over the enumerated candidates picks the chosen pair. */
  lemma BestPairChosen(log2: real -> real, b: seq<Entry>)
    requires |b| >= 2
    requires PairsFrom(log2, b, 0, 0).Ok?
    ensures var cs := PairsFrom(log2, b, 0, 0).value;
      Chosen(log2, b, cs[BestPair(cs)])
  {
    var cs := PairsFrom(log2, b, 0, 0).value;
    var k := BestPair(cs);
    var c := cs[k];
    PairsFromComplete(log2, b, 0, 0);
    PairsFromOrdered(log2, b, 0, 0);
    forall d | MeasuredFrom(log2, b, d)
      ensures !Outranks(d, c) && (Before(d, c) ==> Outranks(c, d))
    {
      assert Listed(cs, d.first, d.second);
      var x :| x in cs && x.first == d.first && x.second == d.second;
      var a :| 0 <= a < |cs| && cs[a] == x;
      assert x == d;
      if Before(d, c) {
        assert !Before(cs[k], cs[a]);
        assert a < k;
      }
    }
  }

  /** At most one pair is chosen. */
  lemma ChosenUnique(log2: real -> real, b: seq<Entry>, c1: Candidate, c2: Candidate)
    requires Chosen(log2, b, c1) && Chosen(log2, b, c2)
    ensures c1 == c2
  {
    assert !Before(c1, c2);
    assert !Before(c2, c1);
  }
}
