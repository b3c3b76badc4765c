/** The three ordered sweeps of do_prints: over the abs-rounded index, then the
    signed-rounded index, then the exact index, each in ascending key order,
    sharing three "already printed" sets. Each sweep is a recursive function over
    its sorted keys and a method with the source's loop proved equal to it. */
module Phases {
  import opened Numerics
  import opened Records
  import opened Buckets
  import opened PairChoice

  /** Two results closer than this are printed as equal (1e-06). */
  const Close: real := 0.000001

  /** did_print_result (rounded results), did_print_result_exact (exact results)
      and did_print_result_abs (absolute rounded results). */
  datatype Marks = Marks(result: set<real>, exact: set<real>, abs: set<real>)

  const NoMarks := Marks({}, {}, {})

  /** Every set of `m` is contained in the matching set of `n`. */
  predicate Grows(m: Marks, n: Marks)
  {
    m.result <= n.result && m.exact <= n.exact && m.abs <= n.abs
  }

  /** The state of a sweep: still going with its marks and the lines printed so
      far, or aborted by a raise after printing `out`. */
  datatype Progress =
    | Going(marks: Marks, out: seq<Line>)
    | Aborted(out: seq<Line>, error: Fatal)

  // ---------------------------------------------------------------- abs phase

  /** One key of the abs-rounded sweep. */
  function AbsStep(dig: nat, k: real, b: seq<Entry>, m: Marks, out: seq<Line>): Progress
  {
    if |b| == 1 then
      Going(Marks(m.result + {Round(b[0].result, dig)}, m.exact + {b[0].result}, m.abs + {k}),
            out + [Literal(b[0].name, b[0].result, false)])
    else if |b| == 2 then
      var r1, r2 := b[0].result, b[1].result;
      var m' := Marks(m.result + {Round(r1, dig), Round(r2, dig)}, m.exact + {r1, r2}, m.abs + {k});
      if Abs(r1 - r2) < Close then Going(m', out + [Equal(b[0].name, b[1].name)])
      else if Abs(r1 + r2) < Close then Going(m', out + [Negated(b[0].name, b[1].name)])
      else Aborted(out, InconsistentGroup(AbsRounded, b[0].name, r1, b[1].name, r2))
    else Going(m, out)
  }

  function AbsPhase(dig: nat, idx: IndexMap, keys: seq<real>, p: Progress): Progress
    requires forall k :: k in keys ==> k in idx
    decreases |keys|
  {
    if keys == [] || p.Aborted? then p
    else AbsPhase(dig, idx, keys[1..], AbsStep(dig, keys[0], idx[keys[0]], p.marks, p.out))
  }

  /** The first loop of do_prints. */
  method AbsSweep(dig: nat, idx: IndexMap, keys: seq<real>, m0: Marks, out0: seq<Line>) returns (p: Progress)
    requires forall k :: k in keys ==> k in idx
    ensures p == AbsPhase(dig, idx, keys, Going(m0, out0))
  {
    var didResult, didExact, didAbs := m0.result, m0.exact, m0.abs;
    var out := out0;
    for i := 0 to |keys|
      invariant AbsPhase(dig, idx, keys[i..], Going(Marks(didResult, didExact, didAbs), out))
                == AbsPhase(dig, idx, keys, Going(m0, out0))
    {
      var absResult := keys[i];
      var b := idx[absResult];
      assert keys[i..][1..] == keys[i + 1..];
      ghost var next := AbsStep(dig, absResult, b, Marks(didResult, didExact, didAbs), out);
      if |b| == 1 {
        out := out + [Literal(b[0].name, b[0].result, false)];
        didResult := didResult + {Round(b[0].result, dig)};
        didExact := didExact + {b[0].result};
        didAbs := didAbs + {absResult};
      } else if |b| == 2 {
        var name1, result1 := b[0].name, b[0].result;
        var name2, result2 := b[1].name, b[1].result;
        didResult := didResult + {Round(result1, dig), Round(result2, dig)};
        didExact := didExact + {result1, result2};
        didAbs := didAbs + {absResult};
        if Abs(result1 - result2) < Close {
          out := out + [Equal(name1, name2)];
        } else if Abs(result1 + result2) < Close {
          out := out + [Negated(name1, name2)];
        } else {
          return Aborted(out, InconsistentGroup(AbsRounded, name1, result1, name2, result2));
        }
      }
      assert next == Going(Marks(didResult, didExact, didAbs), out);
    }
    assert keys[|keys|..] == [];
    return Going(Marks(didResult, didExact, didAbs), out);
  }

  // ------------------------------------------------------------- signed phase

  /** One key of the signed-rounded sweep. */
  function SignedStep(k: real, b: seq<Entry>, m: Marks, out: seq<Line>): Progress
  {
    if |b| == 1 then
      if Abs(k) !in m.abs then
        Going(Marks(m.result, m.exact + {b[0].result}, m.abs + {Abs(k)}),
              out + [Literal(b[0].name, b[0].result, false)])
      else Going(m, out)
    else if |b| == 2 then
      var r1, r2 := b[0].result, b[1].result;
      if Abs(r1 - r2) < Close then
        Going(Marks(m.result, m.exact + {r1, r2}, m.abs + {Abs(k)}), out + [Equal(b[0].name, b[1].name)])
      else Aborted(out, InconsistentGroup(SignedRounded, b[0].name, r1, b[1].name, r2))
    else Going(m, out)
  }

  function SignedPhase(idx: IndexMap, keys: seq<real>, p: Progress): Progress
    requires forall k :: k in keys ==> k in idx
    decreases |keys|
  {
    if keys == [] || p.Aborted? then p
    else SignedPhase(idx, keys[1..], SignedStep(keys[0], idx[keys[0]], p.marks, p.out))
  }

  /** The second loop of do_prints. */
  method SignedSweep(idx: IndexMap, keys: seq<real>, m0: Marks, out0: seq<Line>) returns (p: Progress)
    requires forall k :: k in keys ==> k in idx
    ensures p == SignedPhase(idx, keys, Going(m0, out0))
  {
    var didResult, didExact, didAbs := m0.result, m0.exact, m0.abs;
    var out := out0;
    for i := 0 to |keys|
      invariant SignedPhase(idx, keys[i..], Going(Marks(didResult, didExact, didAbs), out))
                == SignedPhase(idx, keys, Going(m0, out0))
    {
      var saveResult := keys[i];
      var b := idx[saveResult];
      assert keys[i..][1..] == keys[i + 1..];
      ghost var next := SignedStep(saveResult, b, Marks(didResult, didExact, didAbs), out);
      if |b| == 1 {
        if Abs(saveResult) !in didAbs {
          out := out + [Literal(b[0].name, b[0].result, false)];
          didExact := didExact + {b[0].result};
          didAbs := didAbs + {Abs(saveResult)};
        }
      } else if |b| == 2 {
        var name1, result1 := b[0].name, b[0].result;
        var name2, result2 := b[1].name, b[1].result;
        if Abs(result1 - result2) < Close {
          out := out + [Equal(name1, name2)];
        } else {
          return Aborted(out, InconsistentGroup(SignedRounded, name1, result1, name2, result2));
        }
        didExact := didExact + {result1, result2};
        didAbs := didAbs + {Abs(saveResult)};
      }
      assert next == Going(Marks(didResult, didExact, didAbs), out);
    }
    assert keys[|keys|..] == [];
    return Going(Marks(didResult, didExact, didAbs), out);
  }

  // -------------------------------------------------------------- exact phase

  /** One key of the exact sweep; a bucket of three or more records prints a
      comment and then the equality for the best-ranked pair. */
  function ExactStep(env: Env, v: real, b: seq<Entry>, m: Marks, out: seq<Line>): Progress
    requires b != []
  {
    var rounded := Round(v, env.dig);
    var absRounded := Round(Abs(v), env.dig);
    var m' := Marks(m.result + {rounded}, m.exact, m.abs + {absRounded});
    if |b| == 1 then
      if rounded !in m.result && absRounded !in m.abs then Going(m', out + [Literal(b[0].name, v, false)])
      else Going(m, out)
    else if |b| == 2 then Going(m', out + [Equal(b[0].name, b[1].name)])
    else
      var out' := out + [Comment(Choosing(|b|, v))];
      match PairsFrom(env.log2, b, 0, 0)
      case Err(e) => Aborted(out', e)
      case Ok(cs) =>
        var c := cs[BestPair(cs)];
        Going(m', out' + [Equal(b[c.first].name, b[c.second].name)])
  }

  function ExactPhase(env: Env, idx: IndexMap, keys: seq<real>, p: Progress): Progress
    requires forall k :: k in keys ==> k in idx && idx[k] != []
    decreases |keys|
  {
    if keys == [] || p.Aborted? then p
    else ExactPhase(env, idx, keys[1..], ExactStep(env, keys[0], idx[keys[0]], p.marks, p.out))
  }

  /** The third loop of do_prints. */
  method ExactSweep(env: Env, idx: IndexMap, keys: seq<real>, m0: Marks, out0: seq<Line>) returns (p: Progress)
    requires forall k :: k in keys ==> k in idx && idx[k] != []
    ensures p == ExactPhase(env, idx, keys, Going(m0, out0))
  {
    var didResult, didExact, didAbs := m0.result, m0.exact, m0.abs;
    var out := out0;
    for i := 0 to |keys|
      invariant ExactPhase(env, idx, keys[i..], Going(Marks(didResult, didExact, didAbs), out))
                == ExactPhase(env, idx, keys, Going(m0, out0))
    {
      var result := keys[i];
      var b := idx[result];
      assert keys[i..][1..] == keys[i + 1..];
      var rounded := Round(result, env.dig);
      var absRounded := Round(Abs(result), env.dig);
      if |b| == 1 {
        if rounded !in didResult && absRounded !in didAbs {
          out := out + [Literal(b[0].name, result, false)];
          didResult := didResult + {rounded};
          didAbs := didAbs + {absRounded};
        }
      } else if |b| == 2 {
        out := out + [Equal(b[0].name, b[1].name)];
        didResult := didResult + {rounded};
        didAbs := didAbs + {absRounded};
      } else {
        out := out + [Comment(Choosing(|b|, result))];
        var ranked := RankPairs(env.log2, b);
        if ranked.Err? {
          return Aborted(out, ranked.error);
        }
        var possPairs := ranked.value;
        var c := possPairs[BestPair(possPairs)];
        out := out + [Equal(b[c.first].name, b[c.second].name)];
        didResult := didResult + {rounded};
        didAbs := didAbs + {absRounded};
      }
    }
    assert keys[|keys|..] == [];
    return Going(Marks(didResult, didExact, didAbs), out);
  }

  // ------------------------------------------------------------ whole flush

  /** What one do_prints call does: the lines it prints, the error it raises
      if any, and how many of the indices (abs, then signed, then exact) it
      emptied before stopping. */
  datatype Sweep = Sweep(out: seq<Line>, err: Option<Fatal>, cleared: nat)

  /** do_prints on the three indices: nothing when save_to_print is empty;
      otherwise the three sweeps in order, each index emptied once its own loop
      has finished without raising. */
  function Flush(env: Env, abs: IndexMap, signed: IndexMap, exact: IndexMap): (s: Sweep)
    requires NonEmptyBuckets(exact)
    ensures s.cleared <= 3
    ensures s.err.None? <==> s.cleared == 3 || signed == map[]
    ensures signed == map[] ==> s == Sweep([], None, 0)
  {
    if signed == map[] then Sweep([], None, 0)
    else
      var p1 := AbsPhase(env.dig, abs, SortedKeys(abs.Keys), Going(NoMarks, []));
      if p1.Aborted? then Sweep(p1.out, Some(p1.error), 0)
      else
        var p2 := SignedPhase(signed, SortedKeys(signed.Keys - p1.marks.result), p1);
        if p2.Aborted? then Sweep(p2.out, Some(p2.error), 1)
        else
          var p3 := ExactPhase(env, exact, SortedKeys(exact.Keys - p2.marks.exact), p2);
          if p3.Aborted? then Sweep(p3.out, Some(p3.error), 2)
          else Sweep(p3.out, None, 3)
  }
}
