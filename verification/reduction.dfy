/** `isreduced` and `reduce` of LIS4930-knuthbendix.py. The `while` loop of `reduce` has no
    bound in the Python code; here it runs at most `fuel` times and reports `None` when the word
    is still reducible after that. */
module Reduction {
  import opened Outcomes
  import opened Words

  /** `isreduced(rules, w)`: no rule's left-hand side occurs in `w` (the Python loop
      returns False at the first rule whose left-hand side does). */
  predicate IsReduced(rules: seq<Rule>, w: Word)
  {
    forall r | r in rules :: !Occurs(r.lhs, w)
  }

  /** Every rule strictly shortens the word it rewrites. */
  predicate Shortening(rules: seq<Rule>)
  {
    forall r :: r in rules ==> |r.rhs| < |r.lhs|
  }

  /** One iteration of the `while` loop of `reduce`: the `for r in rules` loop, which
      visits the rules in list order and lets each one rewrite the leftmost occurrence
      of its left-hand side in the CURRENT word, without starting over. */
  function Pass(rules: seq<Rule>, w: Word): Word
    decreases |rules|
  {
    if |rules| == 0 then w
    else Pass(rules[1..], RewriteLeftmost(rules[0], w))
  }

  /** A pass leaves a reduced word alone. */
  lemma {:induction false} PassFixesReduced(rules: seq<Rule>, w: Word)
    requires IsReduced(rules, w)
    ensures Pass(rules, w) == w
    decreases |rules|
  {
    if |rules| > 0 {
      assert rules[0] in rules;
      assert IsReduced(rules[1..], w) by {
        assert forall r :: r in rules[1..] ==> r in rules;
      }
      PassFixesReduced(rules[1..], w);
    }
  }

  /** With shortening rules a pass never lengthens the word, and it strictly shortens
      every word that is not yet reduced: some rule then still finds its left-hand side
      when the pass reaches it. */
  lemma {:induction false} PassShortens(rules: seq<Rule>, w: Word)
    requires Shortening(rules)
    ensures |Pass(rules, w)| <= |w|
    ensures !IsReduced(rules, w) ==> |Pass(rules, w)| < |w|
    decreases |rules|
  {
    if |rules| > 0 {
      assert rules[0] in rules;
      assert forall r :: r in rules[1..] ==> r in rules;
      var w1 := RewriteLeftmost(rules[0], w);
      RewriteLeftmostSpec(rules[0], w);
      PassShortens(rules[1..], w1);
      assert Pass(rules, w) == Pass(rules[1..], w1);
      if !IsReduced(rules, w) && !Occurs(rules[0].lhs, w) {
        var r :| r in rules && Occurs(r.lhs, w);
        assert r in rules[1..];
      }
    }
  }

  /** `reduce(rules, w)` with at most `fuel` iterations of its `while` loop. */
  function Reduce(rules: seq<Rule>, w: Word, fuel: nat): (r: Option<Word>)
    ensures r.Some? ==> IsReduced(rules, r.value)
    decreases fuel
  {
    if IsReduced(rules, w) then Some(w)
    else if fuel == 0 then None
    else Reduce(rules, Pass(rules, w), fuel - 1)
  }

  /** A word that is already reduced comes back unchanged, with any fuel. */
  lemma ReduceFixesReduced(rules: seq<Rule>, w: Word, fuel: nat)
    requires IsReduced(rules, w)
    ensures Reduce(rules, w, fuel) == Some(w)
  {
  }

  /** `reduce(R, reduce(R, w)) == reduce(R, w)`, whatever fuel either call gets. */
  lemma ReduceIdempotent(rules: seq<Rule>, w: Word, fuel: nat, fuel': nat)
    requires Reduce(rules, w, fuel).Some?
    ensures Reduce(rules, Reduce(rules, w, fuel).value, fuel') == Reduce(rules, w, fuel)
  {
    ReduceFixesReduced(rules, Reduce(rules, w, fuel).value, fuel');
  }

  /** The empty word occurs in every word, so with a rule whose left-hand side is empty no
      word is ever reduced and the `while` loop never stops, whatever the fuel. */
  lemma EmptyLhsNeverReduces(rules: seq<Rule>, i: nat, w: Word, fuel: nat)
    requires i < |rules| && rules[i].lhs == []
    ensures Reduce(rules, w, fuel).None?
  {
    var r := Reduce(rules, w, fuel);
    assert rules[i] in rules;
    if r.Some? {
      assert MatchAt(r.value, rules[i].lhs, 0);
    }
  }

  /** Fuel only cuts the loop short: more fuel never changes an answer already found. */
  lemma {:induction false} ReduceMoreFuel(rules: seq<Rule>, w: Word, fuel: nat, fuel': nat)
    requires Reduce(rules, w, fuel).Some? && fuel <= fuel'
    ensures Reduce(rules, w, fuel') == Reduce(rules, w, fuel)
    decreases fuel
  {
    if !IsReduced(rules, w) {
      ReduceMoreFuel(rules, Pass(rules, w), fuel - 1, fuel' - 1);
    }
  }

  /** When every rule shortens the word, `reduce` stops within `|w|` iterations: each
      iteration on a reducible word makes it strictly shorter. */
  lemma {:induction false} ReduceTerminates(rules: seq<Rule>, w: Word, fuel: nat)
    requires Shortening(rules) && |w| <= fuel
    ensures Reduce(rules, w, fuel).Some?
    decreases fuel
  {
    if !IsReduced(rules, w) {
      var w' := Pass(rules, w);
      assert |w'| < |w| by { PassShortens(rules, w); }
      ReduceTerminates(rules, w', fuel - 1);
      ReduceUnfold(rules, w, fuel);
    }
  }

  /** `v` results from `u` by rewriting one occurrence of some rule's left-hand side. */
  ghost predicate StepsTo(rules: seq<Rule>, u: Word, v: Word)
  {
    exists r, p :: r in rules && MatchAt(u, r.lhs, p) && v == Splice(u, p, r)
  }

  /** `chain` is a rewriting derivation from its first word to its last, each word
      obtained from the previous one by a single rewrite. */
  ghost predicate Derivation(rules: seq<Rule>, chain: seq<Word>)
  {
    |chain| > 0 && forall i :: 0 <= i < |chain| - 1 ==> StepsTo(rules, chain[i], chain[i + 1])
  }

  /** Two derivations that meet chain together. */
  lemma DerivationJoin(rules: seq<Rule>, c1: seq<Word>, c2: seq<Word>)
    requires Derivation(rules, c1) && Derivation(rules, c2) && c1[|c1| - 1] == c2[0]
    ensures Derivation(rules, c1 + c2[1..])
  {
    var c := c1 + c2[1..];
    forall i | 0 <= i < |c| - 1
      ensures StepsTo(rules, c[i], c[i + 1])
    {
      if i < |c1| - 1 {
        assert c[i] == c1[i] && c[i + 1] == c1[i + 1];
      } else {
        assert c[i] == c2[i - |c1| + 1] && c[i + 1] == c2[i - |c1| + 2];
      }
    }
  }

  /** Rewriting the leftmost occurrence of a rule drawn from `all` takes zero or one step. */
  lemma RewriteLeftmostDerives(all: seq<Rule>, rule: Rule, w: Word) returns (chain: seq<Word>)
    requires rule in all
    ensures Derivation(all, chain) && chain[0] == w && chain[|chain| - 1] == RewriteLeftmost(rule, w)
  {
    var w1 := RewriteLeftmost(rule, w);
    RewriteLeftmostSpec(rule, w);
    if Occurs(rule.lhs, w) {
      var p :| MatchAt(w, rule.lhs, p) && w1 == Splice(w, p, rule);
      assert StepsTo(all, w, w1);
      chain := [w, w1];
    } else {
      chain := [w];
    }
  }

  /** One pass over `rules` (all of them drawn from `all`) is a derivation by `all`. */
  lemma {:induction false} PassDerives(all: seq<Rule>, rules: seq<Rule>, w: Word) returns (chain: seq<Word>)
    requires forall r :: r in rules ==> r in all
    ensures Derivation(all, chain) && chain[0] == w && chain[|chain| - 1] == Pass(rules, w)
    decreases |rules|
  {
    if |rules| == 0 {
      chain := [w];
    } else {
      var w1 := RewriteLeftmost(rules[0], w);
      var c1 := RewriteLeftmostDerives(all, rules[0], w);
      assert forall r :: r in rules[1..] ==> r in rules;
      var c2 := PassDerives(all, rules[1..], w1);
      DerivationJoin(all, c1, c2);
      chain := c1 + c2[1..];
      assert chain[|chain| - 1] == c2[|c2| - 1];
    }
  }

  /** What `reduce` returns is a normal form OF `w`: irreducible, and reached from `w`
      by a derivation with the rules. */
  lemma {:induction false} ReduceDerives(rules: seq<Rule>, w: Word, fuel: nat) returns (chain: seq<Word>)
    requires Reduce(rules, w, fuel).Some?
    ensures Derivation(rules, chain) && chain[0] == w
    ensures chain[|chain| - 1] == Reduce(rules, w, fuel).value
    ensures IsReduced(rules, chain[|chain| - 1])
    decreases fuel
  {
    if IsReduced(rules, w) {
      chain := [w];
    } else {
      var w' := Pass(rules, w);
      ReduceUnfold(rules, w, fuel);
      var c1 := PassDerives(rules, rules, w);
      var c2 := ReduceDerives(rules, w', fuel - 1);
      DerivationJoin(rules, c1, c2);
      chain := c1 + c2[1..];
      assert chain[|chain| - 1] == c2[|c2| - 1];
    }
  }

  /** The rules `aa -> a, bb -> b, ab -> ba`, over two distinct symbols. */
  function ExampleRules(a: char, b: char): seq<Rule>
  {
    [Rule([a, a], [a]), Rule([b, b], [b]), Rule([a, b], [b, a])]
  }

  /** These rules take `abab` to `ba` in three passes (`abab`, `baab`, `bba`, `ba`):
      each pass lets every rule fire at most once, in list order. */
  lemma ReduceExample(a: char, b: char)
    requires a != b
    ensures Reduce(ExampleRules(a, b), [a, b, a, b], 3) == Some([b, a])
  {
    var rules := ExampleRules(a, b);
    PassExample1(a, b);
    PassExample2(a, b);
    PassExample3(a, b);
    ExampleReducibility(a, b);
    ReduceUnfold(rules, [a, b, a, b], 3);
    ReduceUnfold(rules, [b, a, a, b], 2);
    ReduceUnfold(rules, [b, b, a], 1);
    ReduceFixesReduced(rules, [b, a], 0);
  }

  /** One iteration of the `while` loop of `reduce`. */
  lemma ReduceUnfold(rules: seq<Rule>, w: Word, fuel: nat)
    requires !IsReduced(rules, w) && fuel > 0
    ensures Reduce(rules, w, fuel) == Reduce(rules, Pass(rules, w), fuel - 1)
  {
  }

  lemma ExampleReducibility(a: char, b: char)
    requires a != b
    ensures !IsReduced(ExampleRules(a, b), [a, b, a, b])
    ensures !IsReduced(ExampleRules(a, b), [b, a, a, b])
    ensures !IsReduced(ExampleRules(a, b), [b, b, a])
    ensures IsReduced(ExampleRules(a, b), [b, a])
  {
    var rules := ExampleRules(a, b);
    assert rules[2] in rules && MatchAt([a, b, a, b], [a, b], 0);
    assert rules[0] in rules && MatchAt([b, a, a, b], [a, a], 1);
    assert rules[1] in rules && MatchAt([b, b, a], [b, b], 0);
    Mismatch([b, a], [a, a], 0, 0);
    Mismatch([b, a], [b, b], 0, 1);
    Mismatch([b, a], [a, b], 0, 0);
  }

  /** A pass of three rules, unfolded. */
  lemma PassOfThree(r0: Rule, r1: Rule, r2: Rule, w: Word)
    ensures Pass([r0, r1, r2], w) == RewriteLeftmost(r2, RewriteLeftmost(r1, RewriteLeftmost(r0, w)))
  {
    var rules := [r0, r1, r2];
    assert rules[1..] == [r1, r2] && [r1, r2][1..] == [r2] && [r2][1..] == [];
    assert Pass([r2], RewriteLeftmost(r1, RewriteLeftmost(r0, w)))
        == Pass([], RewriteLeftmost(r2, RewriteLeftmost(r1, RewriteLeftmost(r0, w))));
  }

  lemma PassExample1(a: char, b: char)
    requires a != b
    ensures Pass(ExampleRules(a, b), [a, b, a, b]) == [b, a, a, b]
  {
    PassOfThree(Rule([a, a], [a]), Rule([b, b], [b]), Rule([a, b], [b, a]), [a, b, a, b]);
    StepAbab(a, b);
  }

  lemma StepAbab(a: char, b: char)
    requires a != b
    ensures RewriteLeftmost(Rule([a, a], [a]), [a, b, a, b]) == [a, b, a, b]
    ensures RewriteLeftmost(Rule([b, b], [b]), [a, b, a, b]) == [a, b, a, b]
    ensures RewriteLeftmost(Rule([a, b], [b, a]), [a, b, a, b]) == [b, a, a, b]
  {
    var w := [a, b, a, b];
    Mismatch(w, [a, a], 0, 1);
    Mismatch(w, [a, a], 1, 0);
    Mismatch(w, [a, a], 2, 1);
    RewriteAbsent(Rule([a, a], [a]), w);
    Mismatch(w, [b, b], 0, 0);
    Mismatch(w, [b, b], 1, 1);
    Mismatch(w, [b, b], 2, 0);
    RewriteAbsent(Rule([b, b], [b]), w);
    assert MatchAt(w, [a, b], 0);
    RewriteAt(Rule([a, b], [b, a]), w, 0, [b, a, a, b]);
  }

  lemma PassExample2(a: char, b: char)
    requires a != b
    ensures Pass(ExampleRules(a, b), [b, a, a, b]) == [b, b, a]
  {
    PassOfThree(Rule([a, a], [a]), Rule([b, b], [b]), Rule([a, b], [b, a]), [b, a, a, b]);
    StepBaab(a, b);
    StepBab(a, b);
  }

  lemma StepBaab(a: char, b: char)
    requires a != b
    ensures RewriteLeftmost(Rule([a, a], [a]), [b, a, a, b]) == [b, a, b]
  {
    var w := [b, a, a, b];
    Mismatch(w, [a, a], 0, 0);
    assert MatchAt(w, [a, a], 1);
    RewriteAt(Rule([a, a], [a]), w, 1, [b, a, b]);
  }

  lemma StepBab(a: char, b: char)
    requires a != b
    ensures RewriteLeftmost(Rule([b, b], [b]), [b, a, b]) == [b, a, b]
    ensures RewriteLeftmost(Rule([a, b], [b, a]), [b, a, b]) == [b, b, a]
  {
    var w := [b, a, b];
    Mismatch(w, [b, b], 0, 1);
    Mismatch(w, [b, b], 1, 0);
    RewriteAbsent(Rule([b, b], [b]), w);
    Mismatch(w, [a, b], 0, 0);
    assert MatchAt(w, [a, b], 1);
    RewriteAt(Rule([a, b], [b, a]), w, 1, [b, b, a]);
  }

  lemma PassExample3(a: char, b: char)
    requires a != b
    ensures Pass(ExampleRules(a, b), [b, b, a]) == [b, a]
  {
    PassOfThree(Rule([a, a], [a]), Rule([b, b], [b]), Rule([a, b], [b, a]), [b, b, a]);
    StepBba(a, b);
  }

  lemma StepBba(a: char, b: char)
    requires a != b
    ensures RewriteLeftmost(Rule([a, a], [a]), [b, b, a]) == [b, b, a]
    ensures RewriteLeftmost(Rule([b, b], [b]), [b, b, a]) == [b, a]
    ensures RewriteLeftmost(Rule([a, b], [b, a]), [b, a]) == [b, a]
  {
    var w := [b, b, a];
    Mismatch(w, [a, a], 0, 0);
    Mismatch(w, [a, a], 1, 0);
    RewriteAbsent(Rule([a, a], [a]), w);
    assert MatchAt(w, [b, b], 0);
    RewriteAt(Rule([b, b], [b]), w, 0, [b, a]);
    Mismatch([b, a], [a, b], 0, 0);
    RewriteAbsent(Rule([a, b], [b, a]), [b, a]);
  }
}
