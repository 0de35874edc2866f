/** `normalize(rules, order, order_alph)` of LIS4930-knuthbendix.py. The list is simplified,
    then, while `testnormalized` fails, two passes run over it: the first replaces each
    right-hand side by its normal form with respect to the other rules, the second
    replaces each rule by its reduced left-hand side and its right-hand side, larger first
    in shortlex order. Both passes mutate and simplify the list they walk over, so they
    iterate by position over the current list. The `order` parameter is never read and
    does not appear; the `while` loop runs at most `fuel` times, as does every `reduce`. */
module Normalize {
  import opened Outcomes
  import opened Lists
  import opened Words
  import opened Hygiene
  import opened Ordering
  import opened Reduction
  import opened Testers
  import opened Congruence

  /** `r[1] = reduce(rules_sans, r[1])` for the rule at `idx`, where `rules_sans` is the
      list with the first copy of that rule removed. */
  function RhsRewrite(rules: seq<Rule>, idx: nat, fuel: nat): Option<Rule>
    requires idx < |rules|
  {
    var r := rules[idx];
    match Reduce(RemoveFirst(rules, r), r.rhs, fuel)
    case None => None
    case Some(v) => Some(Rule(r.lhs, v))
  }

  /** The new rule keeps its left-hand side; its right-hand side is a normal form of the
      old one for the other rules, reached by rewriting with them. */
  lemma RhsRewriteSpec(rules: seq<Rule>, idx: nat, fuel: nat) returns (chain: seq<Word>)
    requires idx < |rules| && RhsRewrite(rules, idx, fuel).Some?
    ensures RhsRewrite(rules, idx, fuel).value.lhs == rules[idx].lhs
    ensures IsReduced(RemoveFirst(rules, rules[idx]), RhsRewrite(rules, idx, fuel).value.rhs)
    ensures Derivation(RemoveFirst(rules, rules[idx]), chain) && chain[0] == rules[idx].rhs
    ensures chain[|chain| - 1] == RhsRewrite(rules, idx, fuel).value.rhs
  {
    var r := rules[idx];
    chain := ReduceDerives(RemoveFirst(rules, r), r.rhs, fuel);
  }

  /** Rewriting a right-hand side keeps the congruence: the old and the new right-hand
      side are linked by rewrites with rules that stay in the list. */
  lemma RhsRewriteEquivalent(rules: seq<Rule>, idx: nat, fuel: nat)
    requires idx < |rules| && RhsRewrite(rules, idx, fuel).Some?
    ensures Equivalent(rules, rules[idx := RhsRewrite(rules, idx, fuel).value])
  {
    var x := rules[idx];
    var r' := RhsRewrite(rules, idx, fuel).value;
    var t := rules[idx := r'];
    var sans := RemoveFirst(rules, x);
    var chain := RhsRewriteSpec(rules, idx, fuel);
    SansInReplaced(rules, idx, r');
    DerivationConverts(sans, rules, chain);
    MemberConverts(rules, x);
    ConvertibleTrans(rules, x.lhs, x.rhs, r'.rhs);
    DerivationConverts(sans, t, chain);
    ConvertibleSym(t, x.rhs, r'.rhs);
    assert t[idx] == r';
    MemberConverts(t, r');
    ConvertibleTrans(t, x.lhs, r'.rhs, x.rhs);
    ReplaceEquivalent(rules, idx, r');
  }

  /** The first `for r in rules` loop of the `while` body, from position `idx` on. The
      list it leaves has the congruence of the list it was given. */
  function RhsPass(rules: seq<Rule>, idx: nat, fuel: nat): (r: Option<seq<Rule>>)
    ensures r.Some? ==> Equivalent(rules, r.value)
    decreases |rules| - idx
  {
    if idx >= |rules| then
      EquivalentRefl(rules);
      Some(rules)
    else
      match RhsRewrite(rules, idx, fuel)
      case None => None
      case Some(r') =>
        var next := Simplify(rules[idx := r']);
        SimplifySpec(rules[idx := r']);
        RhsRewriteEquivalent(rules, idx, fuel);
        SimplifyEquivalent(rules[idx := r']);
        EquivalentTrans(rules, rules[idx := r'], next);
        var out := RhsPass(next, idx + 1, fuel);
        if out.Some? then
          EquivalentTrans(rules, next, out.value);
          out
        else out
  }

  /** `shortlex([reduce(rules_sans, r[0]), r[1]], order_alph)` reversed, for the rule at
      `idx`: the larger of the two words becomes the left-hand side. */
  function LhsRewrite(rules: seq<Rule>, idx: nat, order: Option<seq<char>>, fuel: nat): (r: Run<Rule>)
    requires idx < |rules|
    ensures order.None? ==> !r.UnrankedSymbol?
  {
    var r := rules[idx];
    match Reduce(RemoveFirst(rules, r), r.lhs, fuel)
    case None => OutOfFuel
    case Some(nf) =>
      match Shortlex([nf, r.rhs], order)
      case None => UnrankedSymbol
      case Some(sorted) =>
        assert |sorted| == |multiset(sorted)| == 2;
        Ok(Rule(sorted[1], sorted[0]))
  }

  /** Sorting two words: a `KeyError` exactly when one of them has an unranked symbol,
      otherwise the two words in key order. */
  lemma ShortlexPair(x: Word, y: Word, order: Option<seq<char>>)
    ensures Shortlex([x, y], order).None? <==> !(Ranked(order, x) && Ranked(order, y))
    ensures Shortlex([x, y], order).Some? ==>
      var s := Shortlex([x, y], order).value;
      |s| == 2 && multiset{s[0], s[1]} == multiset{x, y} && KeyLe(order, s[0], s[1])
  {
    var ws := [x, y];
    var r := Shortlex(ws, order);
    assert multiset(ws) == multiset{x, y};
    if r.None? {
      var w :| w in ws && !Ranked(order, w);
      assert w == x || w == y;
    } else {
      var s := r.value;
      assert x in multiset(s) && y in multiset(s);
      PairSequence(s, x, y);
    }
  }

  lemma PairSequence(s: seq<Word>, x: Word, y: Word)
    requires multiset(s) == multiset{x, y}
    ensures |s| == 2 && multiset{s[0], s[1]} == multiset{x, y}
  {
    assert |s| == |multiset(s)| == 2;
    assert s == [s[0], s[1]];
  }

  /** The replacement rule is made of the reduced left-hand side and the old right-hand
      side, oriented so that its right-hand side comes first in shortlex order. It is
      missing when the reduction runs out of fuel or a symbol has no rank. */
  lemma LhsRewriteSpec(rules: seq<Rule>, idx: nat, order: Option<seq<char>>, fuel: nat)
    requires idx < |rules|
    ensures LhsRewrite(rules, idx, order, fuel).OutOfFuel? <==>
      Reduce(RemoveFirst(rules, rules[idx]), rules[idx].lhs, fuel).None?
    ensures LhsRewrite(rules, idx, order, fuel).UnrankedSymbol? <==>
      Reduce(RemoveFirst(rules, rules[idx]), rules[idx].lhs, fuel).Some? &&
      !(Ranked(order, Reduce(RemoveFirst(rules, rules[idx]), rules[idx].lhs, fuel).value) && Ranked(order, rules[idx].rhs))
    ensures LhsRewrite(rules, idx, order, fuel).Ok? ==>
      var nf := Reduce(RemoveFirst(rules, rules[idx]), rules[idx].lhs, fuel).value;
      var r' := LhsRewrite(rules, idx, order, fuel).value;
      && multiset{r'.lhs, r'.rhs} == multiset{nf, rules[idx].rhs}
      && KeyLe(order, r'.rhs, r'.lhs)
  {
    var r := rules[idx];
    var red := Reduce(RemoveFirst(rules, r), r.lhs, fuel);
    if red.Some? {
      ShortlexPair(red.value, r.rhs, order);
    }
  }

  /** Replacing a rule by its reduced left-hand side and its right-hand side keeps the
      congruence, whichever way the pair is oriented: the old left-hand side rewrites to
      the new word with rules that stay in the list. */
  lemma LhsRewriteEquivalent(rules: seq<Rule>, idx: nat, order: Option<seq<char>>, fuel: nat)
    requires idx < |rules| && LhsRewrite(rules, idx, order, fuel).Ok?
    ensures Equivalent(rules, rules[IndexOf(rules, rules[idx]) := LhsRewrite(rules, idx, order, fuel).value])
  {
    var x := rules[idx];
    var at := IndexOf(rules, x);
    var r' := LhsRewrite(rules, idx, order, fuel).value;
    var t := rules[at := r'];
    var sans := RemoveFirst(rules, x);
    LhsRewriteSpec(rules, idx, order, fuel);
    var nf := Reduce(sans, x.lhs, fuel).value;
    var chain := ReduceDerives(sans, x.lhs, fuel);
    SansInReplaced(rules, at, r');
    LhsRewriteOld(rules, x, nf, chain, r');
    LhsRewriteNew(t, at, sans, x, nf, chain, r');
    ReplaceEquivalent(rules, at, r');
  }

  /** The new rule is a consequence of the old list. */
  lemma LhsRewriteOld(rules: seq<Rule>, x: Rule, nf: Word, chain: seq<Word>, r': Rule)
    requires x in rules && forall y :: y in RemoveFirst(rules, x) ==> y in rules
    requires Derivation(RemoveFirst(rules, x), chain) && chain[0] == x.lhs && chain[|chain| - 1] == nf
    requires multiset{r'.lhs, r'.rhs} == multiset{nf, x.rhs}
    ensures Convertible(rules, r'.lhs, r'.rhs)
  {
    DerivationConverts(RemoveFirst(rules, x), rules, chain);
    MemberConverts(rules, x);
    ConvertibleSym(rules, x.lhs, nf);
    ConvertibleTrans(rules, nf, x.lhs, x.rhs);
    OrientedConverts(rules, r'.lhs, r'.rhs, nf, x.rhs);
  }

  /** The old rule is a consequence of the new list `t`, which holds `r'` at `at` and
      every rule of `sub`. */
  lemma LhsRewriteNew(t: seq<Rule>, at: nat, sub: seq<Rule>, x: Rule, nf: Word, chain: seq<Word>, r': Rule)
    requires at < |t| && t[at] == r'
    requires (forall y :: y in sub ==> y in t) && Derivation(sub, chain)
    requires chain[0] == x.lhs && chain[|chain| - 1] == nf
    requires multiset{r'.lhs, r'.rhs} == multiset{nf, x.rhs}
    ensures Convertible(t, x.lhs, x.rhs)
  {
    DerivationConverts(sub, t, chain);
    MemberConverts(t, r');
    OrientedConverts(t, nf, x.rhs, r'.lhs, r'.rhs);
    ConvertibleTrans(t, x.lhs, nf, x.rhs);
  }

  /** The second `for r in rules` loop: `rules[rules.index(r)] = new`, where `index` finds
      the FIRST rule equal to `r`, then `simplifyrules`. The list it leaves has the
      congruence of the list it was given. */
  function LhsPass(rules: seq<Rule>, idx: nat, order: Option<seq<char>>, fuel: nat): (r: Run<seq<Rule>>)
    ensures order.None? ==> !r.UnrankedSymbol?
    ensures r.Ok? ==> Equivalent(rules, r.value)
    decreases |rules| - idx
  {
    if idx >= |rules| then
      EquivalentRefl(rules);
      Ok(rules)
    else
      match LhsRewrite(rules, idx, order, fuel)
      case OutOfFuel => OutOfFuel
      case UnrankedSymbol => UnrankedSymbol
      case Ok(r') =>
        var at := IndexOf(rules, rules[idx]);
        var next := Simplify(rules[at := r']);
        SimplifySpec(rules[at := r']);
        LhsRewriteEquivalent(rules, idx, order, fuel);
        SimplifyEquivalent(rules[at := r']);
        EquivalentTrans(rules, rules[at := r'], next);
        var out := LhsPass(next, idx + 1, order, fuel);
        if out.Ok? then
          EquivalentTrans(rules, next, out.value);
          out
        else out
  }

  /** One iteration of the `while` body: the right-hand-side pass, then the
      left-hand-side pass. */
  function Round(rules: seq<Rule>, order: Option<seq<char>>, fuel: nat): (r: Run<seq<Rule>>)
    ensures order.None? ==> !r.UnrankedSymbol?
    ensures r.Ok? ==> Equivalent(rules, r.value)
  {
    match RhsPass(rules, 0, fuel)
    case None => OutOfFuel
    case Some(rules') =>
      var out := LhsPass(rules', 0, order, fuel);
      if out.Ok? then
        EquivalentTrans(rules, rules', out.value);
        out
      else out
  }

  /** The `while not(testnormalized(rules))` loop, at most `fuel` iterations. */
  function NormalizeLoop(rules: seq<Rule>, order: Option<seq<char>>, fuel: nat): (r: Run<seq<Rule>>)
    ensures r.Ok? ==> TestNormalized(r.value)
    ensures r.Ok? ==> Equivalent(rules, r.value)
    ensures order.None? ==> !r.UnrankedSymbol?
    decreases fuel
  {
    if TestNormalized(rules) then
      EquivalentRefl(rules);
      Ok(rules)
    else if fuel == 0 then OutOfFuel
    else
      match Round(rules, order, fuel)
      case OutOfFuel => OutOfFuel
      case UnrankedSymbol => UnrankedSymbol
      case Ok(next) =>
        var out := NormalizeLoop(next, order, fuel - 1);
        if out.Ok? then
          EquivalentTrans(rules, next, out.value);
          out
        else out
  }

  /** `normalize(rules, order_alph=order)`. Without an alphabet order (as `knuthbendix`
      calls it) every word has a rank, so it fails only by running out of fuel. */
  function Normalize(rules: seq<Rule>, order: Option<seq<char>>, fuel: nat): (r: Run<seq<Rule>>)
    ensures r.Ok? ==> TestNormalized(r.value)
    ensures r.Ok? ==> Equivalent(rules, r.value)
    ensures order.None? ==> !r.UnrankedSymbol?
  {
    var out := NormalizeLoop(Simplify(rules), order, fuel);
    if out.Ok? then
      SimplifyEquivalent(rules);
      EquivalentTrans(rules, Simplify(rules), out.value);
      out
    else out
  }

  /** A list that `normalize` returns is normalized: so it holds no trivial rule, no rule
      twice, and no empty left-hand side. It has the congruence of the list `normalize`
      was given. */
  lemma NormalizeSpec(rules: seq<Rule>, order: Option<seq<char>>, fuel: nat)
    requires Normalize(rules, order, fuel).Ok?
    ensures Normalized(Normalize(rules, order, fuel).value)
    ensures Equivalent(rules, Normalize(rules, order, fuel).value)
    ensures NoDuplicates(Normalize(rules, order, fuel).value)
    ensures forall i :: 0 <= i < |Normalize(rules, order, fuel).value| ==>
      !Normalize(rules, order, fuel).value[i].IsTrivial() && |Normalize(rules, order, fuel).value[i].lhs| > 0
  {
    var r := Normalize(rules, order, fuel).value;
    NormalizedNoDuplicates(r);
    NormalizedNoTrivial(r);
    NormalizedNonEmptyLhs(r);
  }

  /** A normalized list comes back unchanged, with any order and any fuel: `simplifyrules`
      has nothing to remove and the `while` loop does not run. */
  lemma NormalizeFixesNormalized(rules: seq<Rule>, order: Option<seq<char>>, fuel: nat)
    requires Normalized(rules)
    ensures Normalize(rules, order, fuel) == Ok(rules)
  {
    NormalizedNoDuplicates(rules);
    NormalizedNoTrivial(rules);
    SimplifyClean(rules);
  }

  /** `normalize` is idempotent: normalizing its result again changes nothing. */
  lemma NormalizeIdempotent(rules: seq<Rule>, order: Option<seq<char>>, fuel: nat, order': Option<seq<char>>, fuel': nat)
    requires Normalize(rules, order, fuel).Ok?
    ensures Normalize(Normalize(rules, order, fuel).value, order', fuel') == Normalize(rules, order, fuel)
  {
    NormalizeSpec(rules, order, fuel);
    NormalizeFixesNormalized(Normalize(rules, order, fuel).value, order', fuel');
  }

  /** The rule `a -> bb` is already normalized, so `normalize` returns it as it is, even
      though its right-hand side is the longer side: `normalize` orients a rule only when
      the `while` loop runs. */
  lemma NormalizeDoesNotOrient(a: char, b: char, order: Option<seq<char>>, fuel: nat)
    requires a != b
    ensures Normalize([Rule([a], [b, b])], order, fuel) == Ok([Rule([a], [b, b])])
    ensures !KeyLe(order, [b, b], [a])
  {
    var rules := [Rule([a], [b, b])];
    var r := rules[0];
    assert RemoveFirst(rules, r) == [];
    forall j | 0 <= j <= 1
      ensures !MatchAt([b, b], [a], j)
    {
      Mismatch([b, b], [a], j, 0);
    }
    assert IsReduced(rules, r.rhs);
    NormalizeFixesNormalized(rules, order, fuel);
  }
}
