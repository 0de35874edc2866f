/** `testnoetherian` and `testnormalized` of LIS4930-knuthbendix.py: read-only scans over a
    rule list that return False at the first offending rule. */
module Testers {
  import opened Outcomes
  import opened Lists
  import opened Words
  import opened Reduction

  /** No rule's right-hand side is literally some rule's left-hand side (the rule itself
      included). */
  predicate NoRhsIsLhs(rules: seq<Rule>)
  {
    forall i, k :: 0 <= i < |rules| && 0 <= k < |rules| ==> rules[i].rhs != rules[k].lhs
  }

  /** The inner loop `for s in rules: if r[1] == s[0]: return False`, from position `k` on. */
  function LhsFrom(rules: seq<Rule>, w: Word, k: nat): (found: bool)
    ensures found <==> exists j :: k <= j < |rules| && rules[j].lhs == w
    decreases |rules| - k
  {
    if k >= |rules| then false
    else rules[k].lhs == w || LhsFrom(rules, w, k + 1)
  }

  /** The outer loop of `testnoetherian` from position `i` on. The copy `rules_sans` that
      the Python code builds here is never read, so it does not appear. */
  function NoetherianFrom(rules: seq<Rule>, i: nat): (b: bool)
    ensures b <==> forall m, k :: i <= m < |rules| && 0 <= k < |rules| ==> rules[m].rhs != rules[k].lhs
    decreases |rules| - i
  {
    if i >= |rules| then true
    else if LhsFrom(rules, rules[i].rhs, 0) then false
    else NoetherianFrom(rules, i + 1)
  }

  /** `testnoetherian(rules)`: False exactly when some right-hand side is also a
      left-hand side. */
  function TestNoetherian(rules: seq<Rule>): (b: bool)
    ensures b <==> NoRhsIsLhs(rules)
  {
    NoetherianFrom(rules, 0)
  }

  /** A trivial rule `x -> x` fails the test: its right-hand side is its own left-hand side. */
  lemma TrivialRuleNotNoetherian(rules: seq<Rule>, i: nat)
    requires i < |rules| && rules[i].IsTrivial()
    ensures !TestNoetherian(rules)
  {
    assert rules[i].rhs == rules[i].lhs;
  }

  /** The test is only a heuristic: `[a -> aa]` passes it, yet `reduce` never stops on any
      word containing `a`, whatever fuel it is given. */
  lemma NoetherianTestIsNotTermination(a: char, w: Word, fuel: nat)
    requires a in w
    ensures TestNoetherian([Rule([a], [a, a])])
    ensures Reduce([Rule([a], [a, a])], w, fuel).None?
  {
    var rules := [Rule([a], [a, a])];
    assert [a] != [a, a];
    assert NoRhsIsLhs(rules);
    GrowingRuleDiverges(rules, a, w, fuel);
  }

  lemma {:induction false} GrowingRuleDiverges(rules: seq<Rule>, a: char, w: Word, fuel: nat)
    requires rules == [Rule([a], [a, a])] && a in w
    ensures Reduce(rules, w, fuel).None?
    decreases fuel
  {
    GrowingRuleStep(a, w);
    if fuel > 0 {
      var w' := Pass(rules, w);
      GrowingRuleDiverges(rules, a, w', fuel - 1);
      ReduceUnfold(rules, w, fuel);
    }
  }

  /** One pass of `[a -> aa]` over a word holding `a` rewrites it into another word
      holding `a`. */
  lemma GrowingRuleStep(a: char, w: Word)
    requires a in w
    ensures !IsReduced([Rule([a], [a, a])], w)
    ensures a in Pass([Rule([a], [a, a])], w)
  {
    var rule := Rule([a], [a, a]);
    var i :| 0 <= i < |w| && w[i] == a;
    assert MatchAt(w, rule.lhs, i);
    assert rule in [rule];
    PassOfOne(rule, w);
    RewriteLeftmostSpec(rule, w);
    var p: nat :| MatchAt(w, rule.lhs, p) && RewriteLeftmost(rule, w) == Splice(w, p, rule);
    SpliceHoldsRhs(w, p, rule);
  }

  lemma PassOfOne(rule: Rule, w: Word)
    ensures Pass([rule], w) == RewriteLeftmost(rule, w)
  {
    assert [rule][1..] == [];
  }

  /** After a splice at `p`, the right-hand side sits at `p`. */
  lemma SpliceHoldsRhs(w: Word, p: nat, rule: Rule)
    requires MatchAt(w, rule.lhs, p)
    ensures MatchAt(Splice(w, p, rule), rule.rhs, p)
  {
    var v := Splice(w, p, rule);
    assert v[p..p + |rule.rhs|] == rule.rhs;
  }

  /** The reference meaning of "normalized": every left-hand side is irreducible by the
      list with one copy of its rule removed, and every right-hand side by the whole list. */
  predicate Normalized(rules: seq<Rule>)
  {
    forall i :: 0 <= i < |rules| ==>
      IsReduced(RemoveFirst(rules, rules[i]), rules[i].lhs) && IsReduced(rules, rules[i].rhs)
  }

  /** The loop of `testnormalized` from position `i` on. */
  function NormalizedFrom(rules: seq<Rule>, i: nat): (b: bool)
    ensures b <==> forall m :: i <= m < |rules| ==>
      IsReduced(RemoveFirst(rules, rules[m]), rules[m].lhs) && IsReduced(rules, rules[m].rhs)
    decreases |rules| - i
  {
    if i >= |rules| then true
    else if !(IsReduced(RemoveFirst(rules, rules[i]), rules[i].lhs) && IsReduced(rules, rules[i].rhs)) then false
    else NormalizedFrom(rules, i + 1)
  }

  /** `testnormalized(rules)`. */
  function TestNormalized(rules: seq<Rule>): (b: bool)
    ensures b <==> Normalized(rules)
  {
    NormalizedFrom(rules, 0)
  }

  /** A normalized list holds no trivial rule: `x` occurs in `x`. */
  lemma NormalizedNoTrivial(rules: seq<Rule>)
    requires Normalized(rules)
    ensures forall i :: 0 <= i < |rules| ==> !rules[i].IsTrivial()
  {
    forall i | 0 <= i < |rules|
      ensures !rules[i].IsTrivial()
    {
      var r := rules[i];
      assert r in rules;
      assert MatchAt(r.lhs, r.lhs, 0);
      assert IsReduced(rules, r.rhs);
    }
  }

  /** A normalized list holds no rule twice: with one copy removed, the other copy's
      left-hand side still occurs in itself. */
  lemma NormalizedNoDuplicates(rules: seq<Rule>)
    requires Normalized(rules)
    ensures NoDuplicates(rules)
  {
    forall i, j | 0 <= i < j < |rules|
      ensures rules[i] != rules[j]
    {
      if rules[i] == rules[j] {
        TwoCopiesNotNormalized(rules, i, j);
      }
    }
  }

  /** Two copies of one rule make its left-hand side reducible by the list with one
      copy removed. */
  lemma TwoCopiesNotNormalized(rules: seq<Rule>, i: nat, j: nat)
    requires i < j < |rules| && rules[i] == rules[j]
    ensures !IsReduced(RemoveFirst(rules, rules[i]), rules[i].lhs)
  {
    var r := rules[i];
    var k := IndexOf(rules, r);
    var rest := RemoveFirst(rules, r);
    assert rest == rules[..k] + rules[k + 1..];
    assert rest[j - 1] == r;
    assert MatchAt(r.lhs, r.lhs, 0);
  }

  /** In a non-empty normalized list no left-hand side is empty: the empty word occurs in
      every word, so no right-hand side would be irreducible. */
  lemma NormalizedNonEmptyLhs(rules: seq<Rule>)
    requires Normalized(rules)
    ensures forall i :: 0 <= i < |rules| ==> |rules[i].lhs| > 0
  {
    forall i | 0 <= i < |rules|
      ensures |rules[i].lhs| > 0
    {
      if |rules[i].lhs| == 0 {
        assert rules[i] in rules;
        assert MatchAt(rules[i].rhs, rules[i].lhs, 0);
      }
    }
  }
}
