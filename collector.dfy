/** The module-level state of the canonicaliser and its two entry points:
    print_for_testing, which files one sample, and do_prints, which drains the
    indices into assertion lines. */
module Canonicalizer {
  import opened Numerics
  import opened Records
  import opened Buckets
  import opened Phases
  import opened Soundness

  /** A result within this of its `dig`-place rounding is safe to key by it (1e-07). */
  const SaveTolerance: real := 0.0000001

  /** A zero whose sign bit is set: `not (result or copysign(1.0, result) > 0)`. */
  predicate NegativeZero(result: real, signBit: bool)
  {
    result == 0.0 && signBit
  }

  /** The three tests a result must pass to be filed rather than skipped: it
      survives ".7g" formatting to within 1e-06, it is farther than NORM_EPSILON
      from a whole number, and farther than sqrt(epsilon) from its two-place
      rounding. */
  predicate Eligible(env: Env, result: real)
  {
    Abs(result - env.sevenDigits(result)) < Close &&
    Abs(result - Round(result, 0)) > env.normEpsilon &&
    Abs(result - Round(result, 2)) > env.sqrtEpsilon
  }

  /** Every record's signature is in `seen` and no two records share a name. */
  predicate Registered(log: seq<Entry>, seen: set<string>)
  {
    (forall i :: 0 <= i < |log| ==> SigOf(log[i].name) in seen) &&
    (forall i, j :: 0 <= i < j < |log| ==> log[i].name != log[j].name)
  }

  lemma LogAppend(log: seq<Entry>, e: Entry, seen: set<string>)
    requires Registered(log, seen)
    requires SigOf(e.name) in seen
    requires forall i :: 0 <= i < |log| ==> SigOf(log[i].name) != SigOf(e.name)
    ensures Registered(log + [e], seen)
  {
  }

  class Collector {
    const env: Env
    /** strings_done: every call signature ever offered. */
    var seen: set<string>
    /** save_to_print: keyed by the result rounded to `dig` places. */
    var signedIndex: IndexMap
    /** save_to_print_abs: keyed by the absolute value of that rounding. */
    var absIndex: IndexMap
    /** save_exact_to_print: keyed by the exact result. */
    var exactIndex: IndexMap
    /** The records filed since the indices were last emptied, in arrival order. */
    ghost var log: seq<Entry>

    /** Each index is the log grouped by that index's key, every record's
        signature has been seen, and no two records share a name. */
    ghost predicate Valid()
      reads this
    {
      signedIndex == Grouped(env.dig, log, SignedRounded) &&
      absIndex == Grouped(env.dig, log, AbsRounded) &&
      exactIndex == Grouped(env.dig, log, ExactValue) &&
      NonEmptyBuckets(exactIndex) &&
      Registered(log, seen)
    }

    constructor (env: Env)
      ensures Valid()
      ensures this.env == env && seen == {} && log == []
      ensures signedIndex == map[] && absIndex == map[] && exactIndex == map[]
    {
      this.env := env;
      seen := {};
      signedIndex, absIndex, exactIndex := map[], map[], map[];
      log := [];
    }

    /** print_for_testing(sig, result, data). `signBit` is the sign bit of the
        double `result`, which a real number does not carry. */
    method PrintForTesting(sig: string, result: real, signBit: bool, data: seq<real>)
      returns (lines: seq<Line>, err: Option<Fatal>)
      requires Valid()
      modifies this
      ensures Valid()
      ensures seen == old(seen) + {sig}
      ensures log == old(log) ==>
        signedIndex == old(signedIndex) && absIndex == old(absIndex) && exactIndex == old(exactIndex)
      ensures Total(signedIndex) == Total(absIndex) == Total(exactIndex) == |log|
      ensures sig in old(seen) ==> lines == [] && err == None && log == old(log)
      ensures sig !in old(seen) ==>
        var name := Name(sig);
        var saved := Round(result, env.dig);
        if NegativeZero(result, signBit) then
          lines == [Comment(Skipped(name, result))] && err == None && log == old(log)
        else if Round(result, 6) == result then
          lines == [Literal(name, result, true)] && err == None && log == old(log)
        else if !Eligible(env, result) then
          lines == [Comment(Skipped(name, result))] && err == None && log == old(log)
        else if Abs(result - saved) >= SaveTolerance then
          lines == [] && err == Some(RoundTripViolation(result, saved)) && log == old(log)
        else
          lines == [] && err == None && log == old(log) + [Entry(name, result, data)]
    {
      CountsAgree();
      if sig in seen {
        return [], None;
      }
      seen := seen + {sig};
      var name := Name(sig);
      if NegativeZero(result, signBit) {
        return [Comment(Skipped(name, result))], None;
      }
      var rounded := Round(result, 6);
      if rounded == result {
        return [Literal(name, result, true)], None;
      } else if Eligible(env, result) {
        var saveResult := Round(result, env.dig);
        if Abs(result - saveResult) >= SaveTolerance {
          return [], Some(RoundTripViolation(result, saveResult));
        }
        SigOfName(sig);
        FileRecord(Entry(name, result, data), saveResult);
        CountsAgree();
        return [], None;
      } else {
        return [Comment(Skipped(name, result))], None;
      }
    }

    /** The three indices hold as many records as the log. */
    lemma CountsAgree()
      requires Valid()
      ensures Total(signedIndex) == Total(absIndex) == Total(exactIndex) == |log|
    {
      TotalGrouped(env.dig, log, SignedRounded);
      TotalGrouped(env.dig, log, AbsRounded);
      TotalGrouped(env.dig, log, ExactValue);
    }

    /** Whatever do_prints prints is true of the records filed so far. */
    lemma FlushTrue()
      requires Valid()
      ensures AllHold(Flush(env, absIndex, signedIndex, exactIndex).out, log)
    {
      GroupedMembers(env.dig, log, AbsRounded);
      GroupedMembers(env.dig, log, SignedRounded);
      GroupedMembers(env.dig, log, ExactValue);
      FlushSound(env, absIndex, signedIndex, exactIndex, log);
    }

    /** An empty save_to_print means nothing is filed, so the other two indices
        are empty too. */
    lemma NothingFiled()
      requires Valid()
      requires signedIndex == map[]
      ensures log == [] && absIndex == map[] && exactIndex == map[]
    {
      TotalGrouped(env.dig, log, SignedRounded);
    }

    /** Lines 58-69 of print_for_testing: append the record to the end of its
        list in all three indices at once. */
    method FileRecord(e: Entry, saveResult: real)
      requires Valid()
      requires saveResult == Round(e.result, env.dig)
      requires SigOf(e.name) in seen
      requires forall i :: 0 <= i < |log| ==> SigOf(log[i].name) != SigOf(e.name)
      modifies this`signedIndex, this`absIndex, this`exactIndex, this`log
      ensures Valid()
      ensures log == old(log) + [e]
    {
      var signed, abs, exact := signedIndex, absIndex, exactIndex;
      FiledCases(signed, saveResult, e);
      FiledCases(abs, Abs(saveResult), e);
      FiledCases(exact, e.result, e);
      if saveResult in signed {
        signed := signed[saveResult := signed[saveResult] + [e]];
      } else {
        signed := signed[saveResult := [e]];
      }
      if Abs(saveResult) in abs {
        abs := abs[Abs(saveResult) := abs[Abs(saveResult)] + [e]];
      } else {
        abs := abs[Abs(saveResult) := [e]];
      }
      if e.result in exact {
        exact := exact[e.result := exact[e.result] + [e]];
      } else {
        exact := exact[e.result := [e]];
      }
      GroupedAppend(env.dig, log, e, SignedRounded);
      GroupedAppend(env.dig, log, e, AbsRounded);
      GroupedAppend(env.dig, log, e, ExactValue);
      FiledNonEmpty(exactIndex, e.result, e);
      assert signed == Grouped(env.dig, log + [e], SignedRounded);
      assert abs == Grouped(env.dig, log + [e], AbsRounded);
      assert exact == Grouped(env.dig, log + [e], ExactValue);
      assert NonEmptyBuckets(exact);
      LogAppend(log, e, seen);
      signedIndex, absIndex, exactIndex, log := signed, abs, exact, log + [e];
    }

    /** do_prints(). A raise leaves the indices its loops had not finished with
        as they were; a completed call empties all three. */
    method DoPrints() returns (lines: seq<Line>, err: Option<Fatal>)
      requires Valid()
      modifies this
      ensures var s := Flush(env, old(absIndex), old(signedIndex), old(exactIndex));
        lines == s.out && err == s.err &&
        absIndex == (if s.cleared >= 1 then map[] else old(absIndex)) &&
        signedIndex == (if s.cleared >= 2 then map[] else old(signedIndex)) &&
        exactIndex == (if s.cleared == 3 then map[] else old(exactIndex)) &&
        log == (if s.cleared == 3 then [] else old(log))
      ensures seen == old(seen)
      ensures err == None ==> Valid()
      ensures err == None ==> absIndex == map[] && signedIndex == map[] && exactIndex == map[] && log == []
      ensures AllHold(lines, old(log))
    {
      FlushTrue();
      if signedIndex == map[] {
        NothingFiled();
        return [], None;
      }
      var p := AbsSweep(env.dig, absIndex, SortedKeys(absIndex.Keys), NoMarks, []);
      if p.Aborted? {
        return p.out, Some(p.error);
      }
      absIndex := map[];
      p := SignedSweep(signedIndex, SortedKeys(signedIndex.Keys - p.marks.result), p.marks, p.out);
      if p.Aborted? {
        return p.out, Some(p.error);
      }
      signedIndex := map[];
      p := ExactSweep(env, exactIndex, SortedKeys(exactIndex.Keys - p.marks.exact), p.marks, p.out);
      if p.Aborted? {
        return p.out, Some(p.error);
      }
      exactIndex := map[];
      log := [];
      return p.out, None;
    }
  }
}
