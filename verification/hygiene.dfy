/** Rule hygiene of LIS4930-knuthbendix.py: `remduplicates`, `remtrivial`, `simplifyrules`.
    Both removers delete from the list they are iterating over; Python's list iterator walks
    by position, so the entry that slides into a freed slot is never visited. The functions
    below iterate by position over the changing list in exactly that way. */
module Hygiene {
  import opened Lists
  import opened Words

  /** Iteration of `remduplicates` from position `idx` on: the entry `x` at `idx` is
      counted and, if it has `c > 1` copies, its first `c - 1` copies are removed. */
  function RemDuplicatesFrom<T(==)>(s: seq<T>, idx: nat): seq<T>
    decreases |s| - idx
  {
    if idx >= |s| then s
    else
      var c := multiset(s)[s[idx]];
      RemDuplicatesFrom(if c > 1 then RemoveCopies(s, s[idx], c - 1) else s, idx + 1)
  }

  /** `remduplicates(list)`. */
  function RemDuplicates<T(==)>(s: seq<T>): seq<T>
  {
    RemDuplicatesFrom(s, 0)
  }

  lemma {:induction false} RemDuplicatesFromSubseq<T>(s: seq<T>, idx: nat)
    ensures SubseqOf(RemDuplicatesFrom(s, idx), s)
    decreases |s| - idx
  {
    if idx >= |s| {
      SubseqRefl(s);
    } else {
      var x := s[idx];
      var c := multiset(s)[x];
      var s' := if c > 1 then RemoveCopies(s, x, c - 1) else s;
      var r := RemDuplicatesFrom(s', idx + 1);
      assert RemDuplicatesFrom(s, idx) == r;
      if c > 1 {
        RemoveCopiesSubseq(s, x, c - 1);
      } else {
        SubseqRefl(s);
      }
      RemDuplicatesFromSubseq(s', idx + 1);
      SubseqTrans(r, s', s);
    }
  }

  lemma {:induction false} RemDuplicatesFromKeeps<T>(s: seq<T>, idx: nat)
    ensures forall x :: x in s ==> x in RemDuplicatesFrom(s, idx)
    decreases |s| - idx
  {
    if idx < |s| {
      var x := s[idx];
      var c := multiset(s)[x];
      var s' := if c > 1 then RemoveCopies(s, x, c - 1) else s;
      assert RemDuplicatesFrom(s, idx) == RemDuplicatesFrom(s', idx + 1);
      if c > 1 {
        RemoveCopiesKeeps(s, x, c - 1);
      }
      RemDuplicatesFromKeeps(s', idx + 1);
    }
  }

  /** `remduplicates(list)` only deletes entries, and keeps at least one copy of every
      value it was given. */
  lemma RemDuplicatesSpec<T>(s: seq<T>)
    ensures SubseqOf(RemDuplicates(s), s)
    ensures forall x :: x in s <==> x in RemDuplicates(s)
  {
    RemDuplicatesFromSubseq(s, 0);
    RemDuplicatesFromKeeps(s, 0);
    SubseqMembers(RemDuplicates(s), s);
  }

  /** Iteration of `remtrivial` from position `idx` on: a trivial entry is removed with
      `list.remove`, which deletes its leftmost copy. */
  function RemTrivialFrom(s: seq<Rule>, idx: nat): seq<Rule>
    decreases |s| - idx
  {
    if idx >= |s| then s
    else if s[idx].lhs == s[idx].rhs then RemTrivialFrom(RemoveFirst(s, s[idx]), idx + 1)
    else RemTrivialFrom(s, idx + 1)
  }

  /** `remtrivial(list)`. */
  function RemTrivial(s: seq<Rule>): seq<Rule>
  {
    RemTrivialFrom(s, 0)
  }

  lemma {:induction false} RemTrivialFromSubseq(s: seq<Rule>, idx: nat)
    ensures SubseqOf(RemTrivialFrom(s, idx), s)
    decreases |s| - idx
  {
    if idx >= |s| {
      SubseqRefl(s);
    } else if s[idx].lhs == s[idx].rhs {
      var s' := RemoveFirst(s, s[idx]);
      var r := RemTrivialFrom(s', idx + 1);
      assert RemTrivialFrom(s, idx) == r;
      RemTrivialFromSubseq(s', idx + 1);
      RemoveFirstSpec(s, s[idx]);
      SubseqTrans(r, s', s);
    } else {
      RemTrivialFromSubseq(s, idx + 1);
    }
  }

  lemma {:induction false} RemTrivialFromCounts(s: seq<Rule>, idx: nat)
    ensures forall x: Rule :: !x.IsTrivial() ==> multiset(RemTrivialFrom(s, idx))[x] == multiset(s)[x]
    decreases |s| - idx
  {
    if idx < |s| && s[idx].lhs == s[idx].rhs {
      var s' := RemoveFirst(s, s[idx]);
      assert RemTrivialFrom(s, idx) == RemTrivialFrom(s', idx + 1);
      RemTrivialFromCounts(s', idx + 1);
      RemoveFirstSpec(s, s[idx]);
    } else if idx < |s| {
      RemTrivialFromCounts(s, idx + 1);
    }
  }

  /** `remtrivial(list)` only deletes entries, and deletes only trivial rules, so every
      copy of every non-trivial rule survives. */
  lemma RemTrivialSpec(s: seq<Rule>)
    ensures SubseqOf(RemTrivial(s), s)
    ensures forall x: Rule :: !x.IsTrivial() ==> multiset(RemTrivial(s))[x] == multiset(s)[x]
  {
    RemTrivialFromSubseq(s, 0);
    RemTrivialFromCounts(s, 0);
  }

  /** `simplifyrules(list)` = `remtrivial(remduplicates(list))`. */
  function Simplify(s: seq<Rule>): seq<Rule>
  {
    RemTrivial(RemDuplicates(s))
  }

  /** `simplifyrules` deletes entries only, and every non-trivial rule of the input is
      still present afterwards. */
  lemma SimplifySpec(s: seq<Rule>)
    ensures SubseqOf(Simplify(s), s)
    ensures |Simplify(s)| <= |s|
    ensures forall x :: x in Simplify(s) ==> x in s
    ensures forall x :: x in s && !x.IsTrivial() ==> x in Simplify(s)
  {
    var d := RemDuplicates(s);
    var r := Simplify(s);
    RemDuplicatesSpec(s);
    RemTrivialSpec(d);
    SubseqTrans(r, d, s);
    SubseqMembers(r, s);
    assert forall x :: x in s && !x.IsTrivial() ==> x in multiset(d) && x in multiset(r);
  }

  /** On a list without repeated values `remduplicates` changes nothing. */
  lemma {:induction false} RemDuplicatesFromDistinct<T>(s: seq<T>, idx: nat)
    requires forall x :: multiset(s)[x] <= 1
    ensures RemDuplicatesFrom(s, idx) == s
    decreases |s| - idx
  {
    if idx < |s| {
      RemDuplicatesFromDistinct(s, idx + 1);
    }
  }

  lemma RemDuplicatesDistinct<T>(s: seq<T>)
    requires NoDuplicates(s)
    ensures RemDuplicates(s) == s
  {
    NoDuplicatesCount(s);
    RemDuplicatesFromDistinct(s, 0);
  }

  /** On a list without trivial rules `remtrivial` changes nothing. */
  lemma {:induction false} RemTrivialFromNone(s: seq<Rule>, idx: nat)
    requires forall i :: 0 <= i < |s| ==> !s[i].IsTrivial()
    ensures RemTrivialFrom(s, idx) == s
    decreases |s| - idx
  {
    if idx < |s| {
      RemTrivialFromNone(s, idx + 1);
    }
  }

  /** A list with neither repeats nor trivial rules is a fixed point of `simplifyrules`. */
  lemma SimplifyClean(s: seq<Rule>)
    requires NoDuplicates(s)
    requires forall i :: 0 <= i < |s| ==> !s[i].IsTrivial()
    ensures Simplify(s) == s
  {
    RemDuplicatesDistinct(s);
    RemTrivialFromNone(s, 0);
  }

  /** A non-empty list of copies of one value shrinks to a single copy. */
  lemma RemDuplicatesConstant<T>(s: seq<T>)
    requires |s| > 0
    requires forall i :: 0 <= i < |s| ==> s[i] == s[0]
    ensures RemDuplicates(s) == [s[0]]
  {
    var x := s[0];
    CountConstant(s, x);
    var s' := RemoveCopies(s, x, |s| - 1);
    RemoveCopiesConstant(s, x, |s| - 1);
    assert s' == [x];
    if |s| == 1 {
      assert RemDuplicatesFrom(s, 0) == RemDuplicatesFrom(s, 1);
    } else {
      assert RemDuplicatesFrom(s, 0) == RemDuplicatesFrom(s', 1);
    }
  }

  /** `len(remduplicates(xs)) == 1` holds exactly when `xs` is non-empty and all its
      entries are equal: the test `testlocalconfluence` applies to the normal forms. */
  lemma RemDuplicatesSingleton<T>(s: seq<T>)
    ensures |RemDuplicates(s)| == 1 <==> (|s| > 0 && forall i :: 0 <= i < |s| ==> s[i] == s[0])
  {
    var r := RemDuplicates(s);
    RemDuplicatesSpec(s);
    if |s| > 0 && forall i :: 0 <= i < |s| ==> s[i] == s[0] {
      RemDuplicatesConstant(s);
    }
    if |r| == 1 {
      assert r[0] in r;
      assert s[0] in s;
      forall i | 0 <= i < |s|
        ensures s[i] == s[0]
      {
        assert s[i] in s;
      }
    }
  }

  /** A visit at an entry with a single copy removes nothing. */
  lemma VisitSingle<T>(s: seq<T>, idx: nat)
    requires idx < |s| && multiset(s)[s[idx]] == 1
    ensures RemDuplicatesFrom(s, idx) == RemDuplicatesFrom(s, idx + 1)
  {
  }

  /** A visit at an entry with two copies removes the first of them. */
  lemma VisitPair<T>(s: seq<T>, idx: nat, s': seq<T>)
    requires idx < |s| && multiset(s)[s[idx]] == 2 && s' == RemoveFirst(s, s[idx])
    ensures RemDuplicatesFrom(s, idx) == RemDuplicatesFrom(s', idx + 1)
  {
    RemoveCopiesOne(s, s[idx]);
  }

  /** The copy kept is the LAST one, not the first: with `x != y`, `[x, y, x]` becomes
      `[y, x]`. */
  lemma RemDuplicatesKeepsLastCopy<T>(x: T, y: T)
    requires x != y
    ensures RemDuplicates([x, y, x]) == [y, x]
  {
    CountsXYX(x, y);
    RemoveXFromXYX(x, y);
    VisitPair([x, y, x], 0, [y, x]);
    VisitSingle([y, x], 1);
  }

  lemma CountsXYX<T>(x: T, y: T)
    requires x != y
    ensures multiset([x, y, x])[x] == 2 && multiset([y, x])[x] == 1
  {
    assert [x, y, x] == [x] + [y] + [x];
    assert [y, x] == [y] + [x];
  }

  lemma RemoveXFromXYX<T>(x: T, y: T)
    ensures RemoveFirst([x, y, x], x) == [y, x]
  {
    assert IndexOf([x, y, x], x) == 0;
  }

  /** Duplicates can survive: removing the first copy of the entry just visited slides the
      next entry into the visited slot, so it is skipped. With `x, y, z` distinct,
      `[x, y, z, y, x, z]` ends up as `[y, y, x, z]`. */
  lemma RemDuplicatesCanLeaveDuplicates<T>(x: T, y: T, z: T)
    requires x != y && y != z && x != z
    ensures RemDuplicates([x, y, z, y, x, z]) == [y, y, x, z]
    ensures !NoDuplicates(RemDuplicates([x, y, z, y, x, z]))
  {
    SkipFirstStep(x, y, z);
    SkipSecondStep(x, y, z);
    SkipLastSteps(x, y, z);
    assert [y, y, x, z][0] == [y, y, x, z][1];
  }

  /** Visiting position 0 of `[x, y, z, y, x, z]` removes the first `x`. */
  lemma SkipFirstStep<T>(x: T, y: T, z: T)
    requires x != y && y != z && x != z
    ensures RemDuplicatesFrom([x, y, z, y, x, z], 0) == RemDuplicatesFrom([y, z, y, x, z], 1)
  {
    CountFirst(x, y, z);
    RemoveFirstCopy(x, y, z);
    VisitPair([x, y, z, y, x, z], 0, [y, z, y, x, z]);
  }

  lemma CountFirst<T>(x: T, y: T, z: T)
    requires x != y && y != z && x != z
    ensures multiset([x, y, z, y, x, z])[x] == 2
  {
    assert [x, y, z, y, x, z] == [x] + [y, z, y] + [x] + [z];
  }

  lemma RemoveFirstCopy<T>(x: T, y: T, z: T)
    ensures RemoveFirst([x, y, z, y, x, z], x) == [y, z, y, x, z]
  {
    assert IndexOf([x, y, z, y, x, z], x) == 0;
  }

  /** Position 1 now holds `z` (the `y` slid to position 0 unvisited); its first copy goes. */
  lemma SkipSecondStep<T>(x: T, y: T, z: T)
    requires x != y && y != z && x != z
    ensures RemDuplicatesFrom([y, z, y, x, z], 1) == RemDuplicatesFrom([y, y, x, z], 2)
  {
    CountSecond(x, y, z);
    RemoveSecondCopy(x, y, z);
    VisitPair([y, z, y, x, z], 1, [y, y, x, z]);
  }

  lemma CountSecond<T>(x: T, y: T, z: T)
    requires x != y && y != z && x != z
    ensures multiset([y, z, y, x, z])[z] == 2
  {
    assert [y, z, y, x, z] == [y] + [z] + [y, x] + [z];
  }

  lemma RemoveSecondCopy<T>(x: T, y: T, z: T)
    requires y != z
    ensures RemoveFirst([y, z, y, x, z], z) == [y, y, x, z]
  {
    var s := [y, z, y, x, z];
    RemoveFirstAt(s, z, 1);
    assert s[..1] + s[2..] == [y, y, x, z];
  }

  /** Positions 2 and 3 hold single copies; nothing more is removed. */
  lemma SkipLastSteps<T>(x: T, y: T, z: T)
    requires x != y && y != z && x != z
    ensures RemDuplicatesFrom([y, y, x, z], 2) == [y, y, x, z]
  {
    CountLast(x, y, z);
    VisitSingle([y, y, x, z], 2);
    VisitSingle([y, y, x, z], 3);
  }

  lemma CountLast<T>(x: T, y: T, z: T)
    requires x != y && y != z && x != z
    ensures multiset([y, y, x, z])[x] == 1 && multiset([y, y, x, z])[z] == 1
  {
    assert [y, y, x, z] == [y, y] + [x] + [z];
  }

  /** A trivial rule right after a removed one survives:
      `[[a, a], [b, b]]` becomes `[[b, b]]`. */
  lemma RemTrivialSkipsNeighbour()
    ensures RemTrivial([Rule("a", "a"), Rule("b", "b")]) == [Rule("b", "b")]
  {
    var s := [Rule("a", "a"), Rule("b", "b")];
    assert RemoveFirst(s, s[0]) == [Rule("b", "b")];
  }
}
