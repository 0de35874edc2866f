/** `testlocalconfluence` of LIS4930-knuthbendix.py, and the pieces of it that `knuthbendix`
    repeats: the critical words of a pair of rules, their one-step rewrites, and the
    normal forms of those rewrites. Every `reduce` runs with the same `fuel`. */
module Confluence {
  import opened Outcomes
  import opened Words
  import opened Hygiene
  import opened Reduction
  import opened Overlapping

  /** The list `knuthbendix.py` builds for a pair `r, s`: `overlaps(r[0], s[0])`, then `s[0]`
      when `r[0] in s[0]`, then `r[0]` when `s[0] in r[0]`. */
  function CriticalWords(r: Rule, s: Rule): seq<Word>
  {
    Overlaps(r.lhs, s.lhs)
      + (if Occurs(r.lhs, s.lhs) then [s.lhs] else [])
      + (if Occurs(s.lhs, r.lhs) then [r.lhs] else [])
  }

  /** Both left-hand sides occur in every critical word of the pair. */
  lemma CriticalWordsContainBoth(r: Rule, s: Rule)
    ensures forall x :: x in CriticalWords(r, s) ==> Occurs(r.lhs, x) && Occurs(s.lhs, x)
  {
    forall x | x in CriticalWords(r, s)
      ensures Occurs(r.lhs, x) && Occurs(s.lhs, x)
    {
      if x in Overlaps(r.lhs, s.lhs) {
        OverlapContainsBoth(r.lhs, s.lhs, x);
      } else {
        assert MatchAt(x, x, 0);
      }
    }
  }

  lemma OverlapContainsBoth(u: Word, v: Word, x: Word)
    requires x in Overlaps(u, v)
    ensures Occurs(u, x) && Occurs(v, x)
  {
    OverlapsShape(u, v);
    if x[..|u|] == u && x[|x| - |v|..] == v {
      assert MatchAt(x, u, 0) && MatchAt(x, v, |x| - |v|);
    } else {
      assert MatchAt(x, v, 0) && MatchAt(x, u, |x| - |u|);
    }
  }

  /** The `for j in range(0, len(i))` loop from position `j` on: at each position, the
      rewrite by `r` when `r[0]` sits there, then the rewrite by `s` when `s[0]` does. */
  function RewritesFrom(r: Rule, s: Rule, x: Word, j: nat): seq<Word>
    decreases |x| - j
  {
    if j >= |x| then []
    else
      var byR := if MatchAt(x, r.lhs, j) then [Splice(x, j, r)] else [];
      var byS := if MatchAt(x, s.lhs, j) then [Splice(x, j, s)] else [];
      byR + byS + RewritesFrom(r, s, x, j + 1)
  }

  /** `reductions`: every rewrite of `x` by `r` or `s` at one position before its end. */
  function OneStepRewrites(r: Rule, s: Rule, x: Word): seq<Word>
  {
    RewritesFrom(r, s, x, 0)
  }

  /** `v` rewrites `x` by `r` or by `s` at a position `p` with `lo <= p < |x|`. */
  predicate RewriteBetween(r: Rule, s: Rule, x: Word, lo: int, v: Word)
  {
    exists p: nat :: lo <= p < |x| &&
      ((MatchAt(x, r.lhs, p) && v == Splice(x, p, r)) || (MatchAt(x, s.lhs, p) && v == Splice(x, p, s)))
  }

  lemma {:induction false} RewritesFromSpec(r: Rule, s: Rule, x: Word, j: nat)
    ensures forall v :: v in RewritesFrom(r, s, x, j) <==> RewriteBetween(r, s, x, j, v)
    decreases |x| - j
  {
    if j < |x| {
      RewritesFromSpec(r, s, x, j + 1);
      RewritesFromStep(r, s, x, j, j + 1);
    }
  }

  /** One position of the loop: the rewrites at `j` followed by the rewrites beyond it. */
  lemma RewritesFromStep(r: Rule, s: Rule, x: Word, j: nat, next: nat)
    requires j < |x| && next == j + 1
    requires forall v :: v in RewritesFrom(r, s, x, next) <==> RewriteBetween(r, s, x, next, v)
    ensures forall v :: v in RewritesFrom(r, s, x, j) <==> RewriteBetween(r, s, x, j, v)
  {
    var a := if MatchAt(x, r.lhs, j) then [Splice(x, j, r)] else [];
    var b := if MatchAt(x, s.lhs, j) then [Splice(x, j, s)] else [];
    var tail := RewritesFrom(r, s, x, j + 1);
    assert RewritesFrom(r, s, x, j) == a + b + tail;
    forall v | RewriteBetween(r, s, x, j, v)
      ensures v in a + b + tail
    {
      var p: nat :| j <= p < |x| &&
        ((MatchAt(x, r.lhs, p) && v == Splice(x, p, r)) || (MatchAt(x, s.lhs, p) && v == Splice(x, p, s)));
      if p != j {
        assert RewriteBetween(r, s, x, j + 1, v);
      }
    }
    forall v | v in a + b + tail
      ensures RewriteBetween(r, s, x, j, v)
    {
      if v in tail {
        var p: nat :| j + 1 <= p < |x| &&
          ((MatchAt(x, r.lhs, p) && v == Splice(x, p, r)) || (MatchAt(x, s.lhs, p) && v == Splice(x, p, s)));
      }
    }
  }

  /** The one-step rewrites of `x` are exactly the words obtained by rewriting one
      occurrence of `r[0]` or `s[0]` that starts before the end of `x`; when both rules
      belong to `rules`, each is one rewriting step by `rules`. */
  lemma OneStepRewritesSpec(rules: seq<Rule>, r: Rule, s: Rule, x: Word)
    ensures forall v :: v in OneStepRewrites(r, s, x) <==> RewriteBetween(r, s, x, 0, v)
    ensures r in rules && s in rules ==> forall v :: v in OneStepRewrites(r, s, x) ==> StepsTo(rules, x, v)
  {
    RewritesFromSpec(r, s, x, 0);
    if r in rules && s in rules {
      forall v | v in OneStepRewrites(r, s, x)
        ensures StepsTo(rules, x, v)
      {
        var p: nat :| 0 <= p < |x| &&
          ((MatchAt(x, r.lhs, p) && v == Splice(x, p, r)) || (MatchAt(x, s.lhs, p) && v == Splice(x, p, s)));
      }
    }
  }

  /** `irreducibles`: `reduce(rules, j)` for each `j` in order; `None` when some call
      runs out of fuel. */
  function NormalForms(rules: seq<Rule>, ws: seq<Word>, fuel: nat): Option<seq<Word>>
    decreases |ws|
  {
    if |ws| == 0 then Some([])
    else match Reduce(rules, ws[0], fuel)
      case None => None
      case Some(v) =>
        match NormalForms(rules, ws[1..], fuel)
        case None => None
        case Some(vs) => Some([v] + vs)
  }

  /** `irreducibles` exists exactly when every word has a normal form within `fuel`, and
      then it lists those normal forms position by position. */
  lemma {:induction false} NormalFormsSpec(rules: seq<Rule>, ws: seq<Word>, fuel: nat)
    ensures NormalForms(rules, ws, fuel).Some? <==> forall j :: 0 <= j < |ws| ==> Reduce(rules, ws[j], fuel).Some?
    ensures NormalForms(rules, ws, fuel).Some? ==>
      |NormalForms(rules, ws, fuel).value| == |ws| &&
      forall j :: 0 <= j < |ws| ==> Reduce(rules, ws[j], fuel) == Some(NormalForms(rules, ws, fuel).value[j])
    decreases |ws|
  {
    if |ws| > 0 {
      NormalFormsSpec(rules, ws[1..], fuel);
      assert forall j :: 1 <= j < |ws| ==> ws[j] == ws[1..][j - 1];
    }
  }

  /** The reference meaning of "the rewrites join": there is at least one, and all of them
      reduce (within `fuel`) to one and the same normal form. */
  predicate Joinable(rules: seq<Rule>, ws: seq<Word>, fuel: nat)
  {
    |ws| > 0 && Reduce(rules, ws[0], fuel).Some? &&
    forall j :: 0 <= j < |ws| ==> Reduce(rules, ws[j], fuel) == Reduce(rules, ws[0], fuel)
  }

  /** The verdict on one critical word `x`: `len(remduplicates(irreducibles)) != 1`
      rejects it. */
  function WordJoins(rules: seq<Rule>, r: Rule, s: Rule, x: Word, fuel: nat): Option<bool>
  {
    match NormalForms(rules, OneStepRewrites(r, s, x), fuel)
    case None => None
    case Some(nfs) => Some(|RemDuplicates(nfs)| == 1)
  }

  /** A critical word passes exactly when its rewrites are joinable; the verdict is
      missing exactly when some rewrite has no normal form within `fuel`. */
  lemma WordJoinsSpec(rules: seq<Rule>, r: Rule, s: Rule, x: Word, fuel: nat)
    ensures WordJoins(rules, r, s, x, fuel) == Some(true) <==> Joinable(rules, OneStepRewrites(r, s, x), fuel)
    ensures WordJoins(rules, r, s, x, fuel).None? <==>
      exists j :: 0 <= j < |OneStepRewrites(r, s, x)| && Reduce(rules, OneStepRewrites(r, s, x)[j], fuel).None?
  {
    var ws := OneStepRewrites(r, s, x);
    var n := NormalForms(rules, ws, fuel);
    NormalFormsSpec(rules, ws, fuel);
    if n.Some? {
      RemDuplicatesSingleton(n.value);
      if |ws| > 0 {
        assert Reduce(rules, ws[0], fuel) == Some(n.value[0]);
      }
    }
  }

  /** The shape shared by the three nested loops of the tester: visit `xs` from position
      `m` on and stop at the first element whose verdict is not `Some(true)`, returning
      that verdict; `Some(true)` when every element passes. */
  function FirstVerdict<X>(xs: seq<X>, verdict: X -> Option<bool>, m: nat): Option<bool>
    decreases |xs| - m
  {
    if m >= |xs| then Some(true)
    else
      var v := verdict(xs[m]);
      if v == Some(true) then FirstVerdict(xs, verdict, m + 1) else v
  }

  /** The loop passes exactly when every remaining element passes, and otherwise returns
      the verdict of some remaining element. */
  lemma {:induction false} FirstVerdictSpec<X>(xs: seq<X>, verdict: X -> Option<bool>, m: nat)
    ensures FirstVerdict(xs, verdict, m) == Some(true) <==> forall k :: m <= k < |xs| ==> verdict(xs[k]) == Some(true)
    ensures FirstVerdict(xs, verdict, m) != Some(true) ==>
      exists k :: m <= k < |xs| && verdict(xs[k]) == FirstVerdict(xs, verdict, m)
    decreases |xs| - m
  {
    if m < |xs| {
      FirstVerdictSpec(xs, verdict, m + 1);
    }
  }

  /** The verdict on one ordered pair of rules: the `for i in list` loop over its
      critical words. */
  function PairJoins(rules: seq<Rule>, r: Rule, s: Rule, fuel: nat): Option<bool>
  {
    FirstVerdict(CriticalWords(r, s), x => WordJoins(rules, r, s, x, fuel), 0)
  }

  /** The verdict on one rule `r`: the inner `for s in rules` loop. */
  function PartnersJoin(rules: seq<Rule>, r: Rule, fuel: nat): Option<bool>
  {
    FirstVerdict(rules, s => PairJoins(rules, r, s, fuel), 0)
  }

  /** `testlocalconfluence(rules)`: `None` when a `reduce` it calls runs out of fuel before
      the verdict is reached. */
  function TestLocalConfluence(rules: seq<Rule>, fuel: nat): Option<bool>
  {
    FirstVerdict(rules, r => PartnersJoin(rules, r, fuel), 0)
  }

  /** The reference meaning: for every ordered pair of rules (a rule with itself
      included) and every critical word of the pair, the one-step rewrites are joinable. */
  predicate CriticalPairsJoin(rules: seq<Rule>, fuel: nat)
  {
    forall i, k :: 0 <= i < |rules| && 0 <= k < |rules| ==>
      forall x :: x in CriticalWords(rules[i], rules[k]) ==> Joinable(rules, OneStepRewrites(rules[i], rules[k], x), fuel)
  }

  /** One ordered pair passes exactly when every one of its critical words has joinable
      rewrites. */
  lemma PairJoinsSpec(rules: seq<Rule>, r: Rule, s: Rule, fuel: nat)
    ensures PairJoins(rules, r, s, fuel) == Some(true) <==>
      forall x :: x in CriticalWords(r, s) ==> Joinable(rules, OneStepRewrites(r, s, x), fuel)
  {
    var list := CriticalWords(r, s);
    FirstVerdictSpec(list, x => WordJoins(rules, r, s, x, fuel), 0);
    forall x | x in list
      ensures WordJoins(rules, r, s, x, fuel) == Some(true) <==> Joinable(rules, OneStepRewrites(r, s, x), fuel)
    {
      WordJoinsSpec(rules, r, s, x, fuel);
    }
  }

  /** The tester answers True exactly when every critical pair joins. */
  lemma TestLocalConfluenceSpec(rules: seq<Rule>, fuel: nat)
    ensures TestLocalConfluence(rules, fuel) == Some(true) <==> CriticalPairsJoin(rules, fuel)
  {
    FirstVerdictSpec(rules, r => PartnersJoin(rules, r, fuel), 0);
    forall i | 0 <= i < |rules|
      ensures PartnersJoin(rules, rules[i], fuel) == Some(true) <==>
        forall k :: 0 <= k < |rules| ==> PairJoins(rules, rules[i], rules[k], fuel) == Some(true)
    {
      FirstVerdictSpec(rules, s => PairJoins(rules, rules[i], s, fuel), 0);
    }
    forall i, k | 0 <= i < |rules| && 0 <= k < |rules|
      ensures PairJoins(rules, rules[i], rules[k], fuel) == Some(true) <==>
        forall x :: x in CriticalWords(rules[i], rules[k]) ==> Joinable(rules, OneStepRewrites(rules[i], rules[k], x), fuel)
    {
      PairJoinsSpec(rules, rules[i], rules[k], fuel);
    }
  }

  /** The tester answers False only on a critical word whose rewrites all have normal
      forms within `fuel` that are not all equal (or that has no rewrite at all). */
  lemma TestLocalConfluenceRejects(rules: seq<Rule>, fuel: nat)
    requires TestLocalConfluence(rules, fuel) == Some(false)
    ensures exists i, k, x ::
      && 0 <= i < |rules| && 0 <= k < |rules| && x in CriticalWords(rules[i], rules[k])
      && NormalForms(rules, OneStepRewrites(rules[i], rules[k], x), fuel).Some?
      && !Joinable(rules, OneStepRewrites(rules[i], rules[k], x), fuel)
  {
    FirstVerdictSpec(rules, r => PartnersJoin(rules, r, fuel), 0);
    var i :| 0 <= i < |rules| && PartnersJoin(rules, rules[i], fuel) == Some(false);
    FirstVerdictSpec(rules, s => PairJoins(rules, rules[i], s, fuel), 0);
    var k :| 0 <= k < |rules| && PairJoins(rules, rules[i], rules[k], fuel) == Some(false);
    var list := CriticalWords(rules[i], rules[k]);
    FirstVerdictSpec(list, x => WordJoins(rules, rules[i], rules[k], x, fuel), 0);
    var m :| 0 <= m < |list| && WordJoins(rules, rules[i], rules[k], list[m], fuel) == Some(false);
    WordJoinsSpec(rules, rules[i], rules[k], list[m], fuel);
    assert list[m] in list;
  }

  /** A rule with an empty left-hand side makes the tester fail: the empty word is one of
      its critical words with itself, and the empty word has no rewrite at a position
      before its end. */
  lemma EmptyLhsNotConfluent(rules: seq<Rule>, i: nat, fuel: nat)
    requires i < |rules| && rules[i].lhs == []
    ensures TestLocalConfluence(rules, fuel) != Some(true)
  {
    var r := rules[i];
    assert MatchAt(r.lhs, r.lhs, 0);
    assert [] in CriticalWords(r, r);
    assert OneStepRewrites(r, r, []) == [];
    TestLocalConfluenceSpec(rules, fuel);
  }
}
