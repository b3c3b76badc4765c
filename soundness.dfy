/** What the lines printed by do_prints mean for the records they were printed
    from, which values each sweep marks as printed, and which pair an exact
    bucket of three or more records is represented by. */
module Soundness {
  import opened Numerics
  import opened Records
  import opened Buckets
  import opened PairChoice
  import opened Phases

  /** A printed line is true of the records in `log`: a literal names a record
      with that result, an equality names two records within 1e-06 of each other,
      a negation two records whose sum is within 1e-06 of zero. */
  ghost predicate Holds(line: Line, log: seq<Entry>)
  {
    match line
    case Literal(n, v, _) => exists e :: e in log && e.name == n && e.result == v
    case Equal(n1, n2) =>
      exists e1, e2 :: e1 in log && e2 in log && e1.name == n1 && e2.name == n2 &&
        Abs(e1.result - e2.result) < Close
    case Negated(n1, n2) =>
      exists e1, e2 :: e1 in log && e2 in log && e1.name == n1 && e2.name == n2 &&
        Abs(e1.result + e2.result) < Close
    case Comment(_) => true
  }

  ghost predicate AllHold(out: seq<Line>, log: seq<Entry>)
  {
    forall l :: l in out ==> Holds(l, log)
  }

  /** Every record of the index is a record of the log. */
  predicate FromLog(idx: IndexMap, log: seq<Entry>)
  {
    forall k, e :: k in idx && e in idx[k] ==> e in log
  }

  /** As FromLog, and every record is filed under its own exact result. */
  predicate ExactFromLog(idx: IndexMap, log: seq<Entry>)
  {
    forall k, e :: k in idx && e in idx[k] ==> e in log && e.result == k
  }

  // ------------------------------------------------------------ soundness

  lemma AbsStepSound(dig: nat, k: real, b: seq<Entry>, m: Marks, out: seq<Line>, log: seq<Entry>)
    requires forall e :: e in b ==> e in log
    requires AllHold(out, log)
    ensures AllHold(AbsStep(dig, k, b, m, out).out, log)
  {
  }

  lemma SignedStepSound(k: real, b: seq<Entry>, m: Marks, out: seq<Line>, log: seq<Entry>)
    requires forall e :: e in b ==> e in log
    requires AllHold(out, log)
    ensures AllHold(SignedStep(k, b, m, out).out, log)
  {
  }

  lemma ExactStepSound(env: Env, v: real, b: seq<Entry>, m: Marks, out: seq<Line>, log: seq<Entry>)
    requires b != []
    requires forall e :: e in b ==> e in log && e.result == v
    requires AllHold(out, log)
    ensures AllHold(ExactStep(env, v, b, m, out).out, log)
  {
  }

  lemma {:induction false} AbsPhaseSound(dig: nat, idx: IndexMap, keys: seq<real>, p: Progress, log: seq<Entry>)
    requires forall k :: k in keys ==> k in idx
    requires FromLog(idx, log)
    requires AllHold(p.out, log)
    ensures AllHold(AbsPhase(dig, idx, keys, p).out, log)
    decreases |keys|
  {
    if keys != [] && p.Going? {
      AbsStepSound(dig, keys[0], idx[keys[0]], p.marks, p.out, log);
      AbsPhaseSound(dig, idx, keys[1..], AbsStep(dig, keys[0], idx[keys[0]], p.marks, p.out), log);
    }
  }

  lemma {:induction false} SignedPhaseSound(idx: IndexMap, keys: seq<real>, p: Progress, log: seq<Entry>)
    requires forall k :: k in keys ==> k in idx
    requires FromLog(idx, log)
    requires AllHold(p.out, log)
    ensures AllHold(SignedPhase(idx, keys, p).out, log)
    decreases |keys|
  {
    if keys != [] && p.Going? {
      SignedStepSound(keys[0], idx[keys[0]], p.marks, p.out, log);
      SignedPhaseSound(idx, keys[1..], SignedStep(keys[0], idx[keys[0]], p.marks, p.out), log);
    }
  }

  lemma {:induction false} ExactPhaseSound(env: Env, idx: IndexMap, keys: seq<real>, p: Progress, log: seq<Entry>)
    requires forall k :: k in keys ==> k in idx && idx[k] != []
    requires ExactFromLog(idx, log)
    requires AllHold(p.out, log)
    ensures AllHold(ExactPhase(env, idx, keys, p).out, log)
    decreases |keys|
  {
    if keys != [] && p.Going? {
      ExactStepSound(env, keys[0], idx[keys[0]], p.marks, p.out, log);
      ExactPhaseSound(env, idx, keys[1..], ExactStep(env, keys[0], idx[keys[0]], p.marks, p.out), log);
    }
  }

  /** Every line do_prints prints, up to a raise or to the end, is true of the
      records the indices were filled from. */
  lemma FlushSound(env: Env, abs: IndexMap, signed: IndexMap, exact: IndexMap, log: seq<Entry>)
    requires NonEmptyBuckets(exact)
    requires FromLog(abs, log) && FromLog(signed, log) && ExactFromLog(exact, log)
    ensures AllHold(Flush(env, abs, signed, exact).out, log)
  {
    if signed != map[] {
      var p1 := AbsPhase(env.dig, abs, SortedKeys(abs.Keys), Going(NoMarks, []));
      AbsPhaseSound(env.dig, abs, SortedKeys(abs.Keys), Going(NoMarks, []), log);
      if p1.Going? {
        var keys2 := SortedKeys(signed.Keys - p1.marks.result);
        var p2 := SignedPhase(signed, keys2, p1);
        SignedPhaseSound(signed, keys2, p1, log);
        if p2.Going? {
          ExactPhaseSound(env, exact, SortedKeys(exact.Keys - p2.marks.exact), p2, log);
        }
      }
    }
  }

  // --------------------------------------------------------------- raises

  /** A two-record abs bucket whose results are neither equal nor opposite
      to within 1e-06. */
  predicate AbsClash(b: seq<Entry>)
  {
    |b| == 2 && Abs(b[0].result - b[1].result) >= Close && Abs(b[0].result + b[1].result) >= Close
  }

  /** A two-record signed bucket whose results differ by 1e-06 or more. */
  predicate SignedClash(b: seq<Entry>)
  {
    |b| == 2 && Abs(b[0].result - b[1].result) >= Close
  }

  /** An exact bucket of three or more records two of whose argument lists
      differ in length. */
  predicate ExactClash(b: seq<Entry>)
  {
    |b| >= 3 && exists p, q :: 0 <= p < q < |b| && |b[p].data| != |b[q].data|
  }

  /** The abs sweep raises exactly when one of its buckets clashes. */
  lemma {:induction false} AbsPhaseFails(dig: nat, idx: IndexMap, keys: seq<real>, m: Marks, out: seq<Line>)
    requires forall k :: k in keys ==> k in idx
    ensures AbsPhase(dig, idx, keys, Going(m, out)).Aborted? <==>
      exists k :: k in keys && AbsClash(idx[k])
    decreases |keys|
  {
    if keys != [] {
      var next := AbsStep(dig, keys[0], idx[keys[0]], m, out);
      if next.Aborted? {
        assert keys[0] in keys && AbsClash(idx[keys[0]]);
      } else {
        AbsPhaseFails(dig, idx, keys[1..], next.marks, next.out);
        if exists k :: k in keys && AbsClash(idx[k]) {
          var k :| k in keys && AbsClash(idx[k]);
          assert k in keys[1..];
        }
      }
    }
  }

  /** The signed sweep raises exactly when one of the keys it visits clashes. */
  lemma {:induction false} SignedPhaseFails(idx: IndexMap, keys: seq<real>, m: Marks, out: seq<Line>)
    requires forall k :: k in keys ==> k in idx
    ensures SignedPhase(idx, keys, Going(m, out)).Aborted? <==>
      exists k :: k in keys && SignedClash(idx[k])
    decreases |keys|
  {
    if keys != [] {
      var next := SignedStep(keys[0], idx[keys[0]], m, out);
      if next.Aborted? {
        assert keys[0] in keys && SignedClash(idx[keys[0]]);
      } else {
        SignedPhaseFails(idx, keys[1..], next.marks, next.out);
        if exists k :: k in keys && SignedClash(idx[k]) {
          var k :| k in keys && SignedClash(idx[k]);
          assert k in keys[1..];
        }
      }
    }
  }

  /** The exact sweep raises exactly when one of the buckets it visits clashes. */
  lemma {:induction false} ExactPhaseFails(env: Env, idx: IndexMap, keys: seq<real>, m: Marks, out: seq<Line>)
    requires forall k :: k in keys ==> k in idx && idx[k] != []
    ensures ExactPhase(env, idx, keys, Going(m, out)).Aborted? <==>
      exists k :: k in keys && ExactClash(idx[k])
    decreases |keys|
  {
    if keys != [] {
      var k0 := keys[0];
      assert k0 in keys;
      assert k0 in idx;
      var b := idx[k0];
      var next := ExactStep(env, keys[0], b, m, out);
      if |b| >= 3 {
        ExactStepChoice(env, keys[0], b, m, out);
      }
      if next.Aborted? {
        assert keys[0] in keys && ExactClash(b);
      } else {
        ExactPhaseFails(env, idx, keys[1..], next.marks, next.out);
        if exists k :: k in keys && ExactClash(idx[k]) {
          var k :| k in keys && ExactClash(idx[k]);
          assert k in keys[1..];
        }
      }
    }
  }

  /** do_prints raises before emptying any index exactly when save_to_print is
      non-empty and some bucket of the abs index clashes. */
  lemma FlushFailsFirst(env: Env, abs: IndexMap, signed: IndexMap, exact: IndexMap)
    requires NonEmptyBuckets(exact)
    ensures var s := Flush(env, abs, signed, exact);
      s.err.Some? && s.cleared == 0 <==> signed != map[] && exists k :: k in abs && AbsClash(abs[k])
  {
    AbsPhaseFails(env.dig, abs, SortedKeys(abs.Keys), NoMarks, []);
  }

  // ---------------------------------------------------------------- marks

  /** A sweep that finishes has only added to the three sets. */
  lemma {:induction false} AbsPhaseGrows(dig: nat, idx: IndexMap, keys: seq<real>, p: Progress)
    requires forall k :: k in keys ==> k in idx
    requires p.Going? && AbsPhase(dig, idx, keys, p).Going?
    ensures Grows(p.marks, AbsPhase(dig, idx, keys, p).marks)
    decreases |keys|
  {
    if keys != [] {
      AbsPhaseGrows(dig, idx, keys[1..], AbsStep(dig, keys[0], idx[keys[0]], p.marks, p.out));
    }
  }

  lemma {:induction false} SignedPhaseGrows(idx: IndexMap, keys: seq<real>, p: Progress)
    requires forall k :: k in keys ==> k in idx
    requires p.Going? && SignedPhase(idx, keys, p).Going?
    ensures Grows(p.marks, SignedPhase(idx, keys, p).marks)
    decreases |keys|
  {
    if keys != [] {
      SignedPhaseGrows(idx, keys[1..], SignedStep(keys[0], idx[keys[0]], p.marks, p.out));
    }
  }

  lemma {:induction false} ExactPhaseGrows(env: Env, idx: IndexMap, keys: seq<real>, p: Progress)
    requires forall k :: k in keys ==> k in idx && idx[k] != []
    requires p.Going? && ExactPhase(env, idx, keys, p).Going?
    ensures Grows(p.marks, ExactPhase(env, idx, keys, p).marks)
    decreases |keys|
  {
    if keys != [] {
      ExactPhaseGrows(env, idx, keys[1..], ExactStep(env, keys[0], idx[keys[0]], p.marks, p.out));
    }
  }

  /** After a finished abs sweep, every record of a one- or two-record bucket
      has its rounded result and its exact result marked as printed. */
  lemma {:induction false} AbsPhaseSettles(dig: nat, idx: IndexMap, keys: seq<real>, p: Progress)
    requires forall k :: k in keys ==> k in idx
    requires p.Going? && AbsPhase(dig, idx, keys, p).Going?
    ensures var q := AbsPhase(dig, idx, keys, p);
      forall k, e :: k in keys && |idx[k]| <= 2 && e in idx[k] ==>
        Round(e.result, dig) in q.marks.result && e.result in q.marks.exact
    decreases |keys|
  {
    if keys != [] {
      var q := AbsPhase(dig, idx, keys, p);
      var next := AbsStep(dig, keys[0], idx[keys[0]], p.marks, p.out);
      AbsPhaseSettles(dig, idx, keys[1..], next);
      AbsPhaseGrows(dig, idx, keys[1..], next);
      forall k, e | k in keys && |idx[k]| <= 2 && e in idx[k]
        ensures Round(e.result, dig) in q.marks.result && e.result in q.marks.exact
      {
        if k != keys[0] {
          assert k in keys[1..];
        }
      }
    }
  }

  /** A record settled by the abs sweep is not visited again: its rounded result
      is not among the keys of the signed sweep, and its exact result not among
      the keys of the exact sweep. */
  lemma FlushSkips(env: Env, abs: IndexMap, signed: IndexMap, exact: IndexMap)
    requires NonEmptyBuckets(exact)
    ensures var p1 := AbsPhase(env.dig, abs, SortedKeys(abs.Keys), Going(NoMarks, []));
      p1.Going? ==>
        var keys2 := SortedKeys(signed.Keys - p1.marks.result);
        var p2 := SignedPhase(signed, keys2, p1);
        forall k, e :: k in abs && |abs[k]| <= 2 && e in abs[k] ==>
          Round(e.result, env.dig) !in keys2 &&
          (p2.Going? ==> e.result !in SortedKeys(exact.Keys - p2.marks.exact))
  {
    var p1 := AbsPhase(env.dig, abs, SortedKeys(abs.Keys), Going(NoMarks, []));
    if p1.Going? {
      AbsPhaseSettles(env.dig, abs, SortedKeys(abs.Keys), Going(NoMarks, []));
      var keys2 := SortedKeys(signed.Keys - p1.marks.result);
      var p2 := SignedPhase(signed, keys2, p1);
      if p2.Going? {
        SignedPhaseGrows(signed, keys2, p1);
      }
    }
  }

  // ------------------------------------------------------- the chosen pair

  /** An exact bucket of three or more records raises exactly when two of its
      argument lists differ in length; otherwise it prints its comment and then
      one equality, naming the chosen pair. */
  lemma ExactStepChoice(env: Env, v: real, b: seq<Entry>, m: Marks, out: seq<Line>)
    requires |b| >= 3
    ensures ExactStep(env, v, b, m, out).Aborted? <==>
      exists p, q :: 0 <= p < q < |b| && |b[p].data| != |b[q].data|
    ensures ExactStep(env, v, b, m, out).Going? ==>
      exists c :: Chosen(env.log2, b, c) &&
        ExactStep(env, v, b, m, out).out ==
          out + [Comment(Choosing(|b|, v)), Equal(b[c.first].name, b[c.second].name)]
  {
    PairsFromFails(env.log2, b, 0, 0);
    if PairsFrom(env.log2, b, 0, 0).Ok? {
      var cs := PairsFrom(env.log2, b, 0, 0).value;
      var c := cs[BestPair(cs)];
      BestPairChosen(env.log2, b);
      assert out + [Comment(Choosing(|b|, v))] + [Equal(b[c.first].name, b[c.second].name)]
          == out + [Comment(Choosing(|b|, v)), Equal(b[c.first].name, b[c.second].name)];
    }
  }
}
