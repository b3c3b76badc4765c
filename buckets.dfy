/** The three indices (save_to_print, save_to_print_abs, save_exact_to_print):
    dictionaries from a key to the list of records filed under it, in the
    order they arrived. */
module Buckets {
  import opened Numerics
  import opened Records

  type IndexMap = map<real, seq<Entry>>

  /** The key a record is filed under in each index: the result rounded to
      `dig` places, its absolute value, or the exact result. */
  function KeyOf(dig: nat, index: Index, e: Entry): real
  {
    match index
    case SignedRounded => Round(e.result, dig)
    case AbsRounded => Abs(Round(e.result, dig))
    case ExactValue => e.result
  }

  /** The list under key k, or the empty list when k is absent. */
  function Bucket(g: IndexMap, k: real): seq<Entry>
  {
    if k in g then g[k] else []
  }

  /** The index that results from appending each record of `log`, in order, to
      the end of the list under its key (creating the list on first use). */
  function Grouped(dig: nat, log: seq<Entry>, index: Index): IndexMap
  {
    if log == [] then map[]
    else
      var g := Grouped(dig, log[..|log| - 1], index);
      var e := log[|log| - 1];
      var k := KeyOf(dig, index, e);
      Filed(g, k, e)
  }

  /** Reference definition: the records of `log` whose key is k, in order. */
  function Filter(dig: nat, log: seq<Entry>, index: Index, k: real): (r: seq<Entry>)
    ensures forall e :: e in r <==> e in log && KeyOf(dig, index, e) == k
  {
    if log == [] then []
    else
      var e := log[|log| - 1];
      assert log == log[..|log| - 1] + [e];
      Filter(dig, log[..|log| - 1], index, k) + (if KeyOf(dig, index, e) == k then [e] else [])
  }

  /** Each list of the grouped index holds exactly the records with that key, in
      arrival order, and no key maps to an empty list. */
  lemma {:induction false} GroupedIsFilter(dig: nat, log: seq<Entry>, index: Index)
    ensures forall k :: k in Grouped(dig, log, index) <==> Filter(dig, log, index, k) != []
    ensures forall k :: k in Grouped(dig, log, index) ==> Grouped(dig, log, index)[k] == Filter(dig, log, index, k)
  {
    if log != [] {
      GroupedIsFilter(dig, log[..|log| - 1], index);
    }
  }

  /** Every record of the log sits in the list under its own key, and every
      record of a list has that list's key. */
  lemma GroupedMembers(dig: nat, log: seq<Entry>, index: Index)
    ensures forall e :: e in log ==> KeyOf(dig, index, e) in Grouped(dig, log, index)
    ensures forall e :: e in log ==> e in Grouped(dig, log, index)[KeyOf(dig, index, e)]
    ensures forall k, e :: k in Grouped(dig, log, index) && e in Grouped(dig, log, index)[k] ==>
              e in log && KeyOf(dig, index, e) == k
  {
    GroupedIsFilter(dig, log, index);
    forall e | e in log
      ensures KeyOf(dig, index, e) in Grouped(dig, log, index)
    {
      assert e in Filter(dig, log, index, KeyOf(dig, index, e));
    }
  }

  /** No key of a grouped index maps to an empty list. */
  predicate NonEmptyBuckets(g: IndexMap)
  {
    forall k :: k in g ==> g[k] != []
  }

  /** The index g with e appended to the end of the list under k. */
  function Filed(g: IndexMap, k: real, e: Entry): IndexMap
  {
    g[k := Bucket(g, k) + [e]]
  }

  /** Filing one more record appends it to the end of the list under its key
      and leaves every other list as it was. */
  lemma GroupedAppend(dig: nat, log: seq<Entry>, e: Entry, index: Index)
    ensures Grouped(dig, log + [e], index) == Filed(Grouped(dig, log, index), KeyOf(dig, index, e), e)
  {
    assert (log + [e])[..|log|] == log;
  }

  /** Filed, spelt as the source's two branches: extend an existing list, or
      start a new one. */
  lemma FiledCases(g: IndexMap, k: real, e: Entry)
    ensures k in g ==> Filed(g, k, e) == g[k := g[k] + [e]]
    ensures k !in g ==> Filed(g, k, e) == g[k := [e]]
  {
    if k !in g {
      assert [] + [e] == [e];
    }
  }

  lemma FiledNonEmpty(g: IndexMap, k: real, e: Entry)
    requires NonEmptyBuckets(g)
    ensures NonEmptyBuckets(Filed(g, k, e))
  {
  }

  /** The number of records held in an index, over all its keys. */
  ghost function Total(g: IndexMap): nat
    decreases g.Keys
  {
    if g.Keys == {} then 0
    else
      HasElement(g.Keys);
      var k :| k in g.Keys;
      |g[k]| + Total(g - {k})
  }

  lemma {:induction false} TotalRemove(g: IndexMap, k: real)
    requires k in g
    ensures Total(g) == |g[k]| + Total(g - {k})
    decreases g.Keys
  {
    var j :| j in g && Total(g) == |g[j]| + Total(g - {j});
    if j != k {
      var gj := g - {j};
      var gk := g - {k};
      assert gj.Keys < g.Keys;
      assert gk.Keys < g.Keys;
      TotalRemove(gj, k);
      TotalRemove(gk, j);
      assert gj - {k} == gk - {j};
    }
  }

  /** Appending one record to the list under k adds one record to the index. */
  lemma TotalAppend(g: IndexMap, k: real, e: Entry)
    ensures Total(Filed(g, k, e)) == Total(g) + 1
  {
    var h := Filed(g, k, e);
    TotalRemove(h, k);
    assert h - {k} == g - {k};
    if k in g {
      TotalRemove(g, k);
    } else {
      assert g - {k} == g;
    }
  }

  /** An index built from a log holds exactly as many records as the log, so the
      three indices, filled in lock step, always hold equal counts. */
  lemma {:induction false} TotalGrouped(dig: nat, log: seq<Entry>, index: Index)
    ensures Total(Grouped(dig, log, index)) == |log|
  {
    if log != [] {
      var init := log[..|log| - 1];
      TotalGrouped(dig, init, index);
      TotalAppend(Grouped(dig, init, index), KeyOf(dig, index, log[|log| - 1]), log[|log| - 1]);
    }
  }

  lemma HasElement(s: set<real>)
    requires s != {}
    ensures exists x :: x in s
  {
    if forall y :: y !in s {
      assert false;
    }
  }

  /** The smallest element of a non-empty finite set of keys. */
  function Least(s: set<real>): (m: real)
    requires s != {}
    ensures m in s && forall y :: y in s ==> m <= y
  {
    LeastExists(s);
    var m :| m in s && forall y :: y in s ==> m <= y;
    m
  }

  lemma {:induction false} LeastExists(s: set<real>)
    requires s != {}
    ensures exists m :: m in s && forall y :: y in s ==> m <= y
    decreases s
  {
    HasElement(s);
    var x :| x in s;
    var rest := s - {x};
    if rest == {} {
      forall y | y in s ensures x <= y {
        assert y !in rest;
      }
    } else {
      LeastExists(rest);
      var m :| m in rest && forall y :: y in rest ==> m <= y;
      var least := if x < m then x else m;
      forall y | y in s ensures least <= y {
        if y != x {
          assert y in rest;
        }
      }
      assert least in s;
    }
  }

  /** Python's `sorted(keys)`: the keys in strictly ascending order. */
  function SortedKeys(s: set<real>): (r: seq<real>)
    ensures forall x :: x in r <==> x in s
    ensures forall i, j :: 0 <= i < j < |r| ==> r[i] < r[j]
    decreases s
  {
    if s == {} then []
    else
      var m := Least(s);
      [m] + SortedKeys(s - {m})
  }
}
