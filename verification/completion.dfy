/** `knuthbendix(rules, order_alph)` of LIS4930-knuthbendix.py: while `testlocalconfluence`
    fails, normalize and simplify the list, stage a rule `k -> m` for every critical word
    whose rewrites reach several normal forms (`m` the shortlex-least of them, `k` each
    other one), and merge the staged rules in. `alreadyfound` is the very list object
    `rules` (`normalize` and `simplifyrules` mutate and return the list they are given),
    so the merge appends every unseen staged rule and then extends the list with all of
    them once more; that aliasing is modelled as it is. Every `while` loop and every
    `reduce` runs at most `fuel` times; the `printrules` output is not modelled. */
module Completion {
  import opened Outcomes
  import opened Lists
  import opened Words
  import opened Hygiene
  import opened Ordering
  import opened Reduction
  import opened Testers
  import opened Confluence
  import opened Normalize
  import opened Congruence

  /** `for k in shortlex(irreducibles): if irreducibles.index(k) != 0:
      newrules.append([k, irreducibles[0]])`, from position `p` of the sorted list on.
      Sorting a sorted list changes nothing (`ShortlexSortedIsFixed`), so the loop walks
      `sorted` itself. */
  function StageFrom(sorted: seq<Word>, p: nat): seq<Rule>
    requires |sorted| > 0
    decreases |sorted| - p
  {
    if p >= |sorted| then []
    else
      var k := sorted[p];
      (if IndexOf(sorted, k) != 0 then [Rule(k, sorted[0])] else []) + StageFrom(sorted, p + 1)
  }

  /** The rules staged from one sorted list of normal forms: nothing when it has exactly
      one entry (or none), otherwise `k -> sorted[0]` for every later entry `k` that
      differs from the head. */
  function StageSorted(sorted: seq<Word>): seq<Rule>
  {
    if |sorted| == 1 || |sorted| == 0 then [] else StageFrom(sorted, 0)
  }

  lemma {:induction false} StageFromSpec(sorted: seq<Word>, p: nat)
    requires |sorted| > 0
    ensures forall y :: y in StageFrom(sorted, p) <==>
      exists q :: p <= q < |sorted| && sorted[q] != sorted[0] && y == Rule(sorted[q], sorted[0])
    decreases |sorted| - p
  {
    if p < |sorted| {
      StageFromSpec(sorted, p + 1);
      var k := sorted[p];
      assert IndexOf(sorted, k) != 0 <==> k != sorted[0];
      assert StageFrom(sorted, p) == (if k != sorted[0] then [Rule(k, sorted[0])] else []) + StageFrom(sorted, p + 1);
    }
  }

  /** Staging from a sorted list yields exactly the rules `k -> head` for the entries `k`
      that differ from the head; each such rule is non-trivial and oriented towards the
      shortlex-least word. */
  lemma StageSortedSpec(sorted: seq<Word>, order: Option<seq<char>>)
    requires Sorted(order, sorted)
    ensures forall y :: y in StageSorted(sorted) <==> |sorted| > 0 && y.rhs == sorted[0] && y.lhs in sorted && y.lhs != y.rhs
    ensures forall y :: y in StageSorted(sorted) ==> KeyLe(order, y.rhs, y.lhs)
  {
    if |sorted| > 1 {
      StageFromSpec(sorted, 0);
    }
    forall y | y in StageSorted(sorted)
      ensures KeyLe(order, y.rhs, y.lhs)
    {
      SortedHeadIsLeast(order, sorted, y.lhs);
    }
  }

  /** The staging for one critical word `x` of the pair `r, s`: normal forms of its
      one-step rewrites, `remduplicates`, `shortlex` with `order_alph`, then
      `StageSorted`. */
  function StageWord(rules: seq<Rule>, r: Rule, s: Rule, x: Word, order: Option<seq<char>>, fuel: nat): Run<seq<Rule>>
  {
    match NormalForms(rules, OneStepRewrites(r, s, x), fuel)
    case None => OutOfFuel
    case Some(nfs) =>
      match Shortlex(RemDuplicates(nfs), order)
      case None => UnrankedSymbol
      case Some(sorted) => Ok(StageSorted(sorted))
  }

  /** The two sides of a staged rule are distinct normal forms (for the current rules) of
      two one-step rewrites of `x`, and the right-hand side is the shortlex-smaller one. */
  predicate StagedFrom(rules: seq<Rule>, r: Rule, s: Rule, x: Word, order: Option<seq<char>>, fuel: nat, y: Rule)
  {
    && y.lhs != y.rhs
    && KeyLe(order, y.rhs, y.lhs)
    && IsReduced(rules, y.lhs) && IsReduced(rules, y.rhs)
    && (exists v :: v in OneStepRewrites(r, s, x) && Reduce(rules, v, fuel) == Some(y.lhs))
    && (exists v :: v in OneStepRewrites(r, s, x) && Reduce(rules, v, fuel) == Some(y.rhs))
  }

  lemma StageWordSpec(rules: seq<Rule>, r: Rule, s: Rule, x: Word, order: Option<seq<char>>, fuel: nat)
    requires StageWord(rules, r, s, x, order, fuel).Ok?
    ensures forall y :: y in StageWord(rules, r, s, x, order, fuel).value ==> StagedFrom(rules, r, s, x, order, fuel, y)
  {
    var ws := OneStepRewrites(r, s, x);
    var nfs := NormalForms(rules, ws, fuel).value;
    NormalFormsSpec(rules, ws, fuel);
    RemDuplicatesSpec(nfs);
    var sorted := Shortlex(RemDuplicates(nfs), order).value;
    StageSortedSpec(sorted, order);
    forall w | w in sorted
      ensures exists v :: v in ws && Reduce(rules, v, fuel) == Some(w)
      ensures IsReduced(rules, w)
    {
      assert w in multiset(sorted);
      assert w in nfs;
      var j :| 0 <= j < |nfs| && nfs[j] == w;
      assert ws[j] in ws && Reduce(rules, ws[j], fuel) == Some(w);
    }
  }

  /** The shape shared by the three nested staging loops: the staged rules of every
      element of `xs` from `m` on, concatenated in order; the first failure aborts. */
  function CollectFrom<X>(xs: seq<X>, stage: X -> Run<seq<Rule>>, m: nat): Run<seq<Rule>>
    decreases |xs| - m
  {
    if m >= |xs| then Ok([])
    else
      match stage(xs[m])
      case OutOfFuel => OutOfFuel
      case UnrankedSymbol => UnrankedSymbol
      case Ok(here) =>
        match CollectFrom(xs, stage, m + 1)
        case OutOfFuel => OutOfFuel
        case UnrankedSymbol => UnrankedSymbol
        case Ok(later) => Ok(here + later)
  }

  /** A collected rule was staged by some element, and every element's staged rules are
      collected. */
  lemma {:induction false} CollectFromSpec<X>(xs: seq<X>, stage: X -> Run<seq<Rule>>, m: nat)
    requires CollectFrom(xs, stage, m).Ok?
    ensures forall k :: m <= k < |xs| ==> stage(xs[k]).Ok?
    ensures forall y :: y in CollectFrom(xs, stage, m).value <==>
      exists k :: m <= k < |xs| && y in stage(xs[k]).value
    decreases |xs| - m
  {
    if m < |xs| {
      CollectFromSpec(xs, stage, m + 1);
      forall y | exists k :: m <= k < |xs| && y in stage(xs[k]).value
        ensures y in CollectFrom(xs, stage, m).value
      {
        var k :| m <= k < |xs| && y in stage(xs[k]).value;
        if k > m {
          assert y in CollectFrom(xs, stage, m + 1).value;
        }
      }
    }
  }

  /** When no element's staging meets an unranked symbol, neither does the whole loop. */
  lemma {:induction false} CollectFromRanked<X>(xs: seq<X>, stage: X -> Run<seq<Rule>>, m: nat)
    requires forall k :: m <= k < |xs| ==> !stage(xs[k]).UnrankedSymbol?
    ensures !CollectFrom(xs, stage, m).UnrankedSymbol?
    decreases |xs| - m
  {
    if m < |xs| {
      CollectFromRanked(xs, stage, m + 1);
    }
  }

  /** The staging for one ordered pair: the `for i in list` loop over its critical words. */
  function StagePair(rules: seq<Rule>, r: Rule, s: Rule, order: Option<seq<char>>, fuel: nat): Run<seq<Rule>>
  {
    CollectFrom(CriticalWords(r, s), x => StageWord(rules, r, s, x, order, fuel), 0)
  }

  /** The staging for one rule `r`: the `for s in rules` loop. */
  function StagePartners(rules: seq<Rule>, r: Rule, order: Option<seq<char>>, fuel: nat): Run<seq<Rule>>
  {
    CollectFrom(rules, s => StagePair(rules, r, s, order, fuel), 0)
  }

  /** `newrules`, built by the outermost `for r in rules` loop of the `while` body. */
  function Stage(rules: seq<Rule>, order: Option<seq<char>>, fuel: nat): Run<seq<Rule>>
  {
    CollectFrom(rules, r => StagePartners(rules, r, order, fuel), 0)
  }

  /** Without an alphabet order every word has a rank, so staging never meets a
      `KeyError`. */
  lemma StageDefaultOrder(rules: seq<Rule>, order: Option<seq<char>>, fuel: nat)
    ensures order.None? ==> !Stage(rules, order, fuel).UnrankedSymbol?
  {
    if order.None? {
      forall i | 0 <= i < |rules|
        ensures !StagePartners(rules, rules[i], order, fuel).UnrankedSymbol?
      {
        forall k | 0 <= k < |rules|
          ensures !StagePair(rules, rules[i], rules[k], order, fuel).UnrankedSymbol?
        {
          var list := CriticalWords(rules[i], rules[k]);
          CollectFromRanked(list, x => StageWord(rules, rules[i], rules[k], x, order, fuel), 0);
        }
        CollectFromRanked(rules, s => StagePair(rules, rules[i], s, order, fuel), 0);
      }
      CollectFromRanked(rules, r => StagePartners(rules, r, order, fuel), 0);
    }
  }

  /** Every staged rule comes from a critical word of some ordered pair of current rules:
      its sides are two distinct normal forms of one-step rewrites of that word, both
      irreducible by the current rules, and it rewrites the shortlex-larger one to the
      smaller one. */
  lemma StageSpec(rules: seq<Rule>, order: Option<seq<char>>, fuel: nat)
    requires Stage(rules, order, fuel).Ok?
    ensures forall y :: y in Stage(rules, order, fuel).value ==>
      exists i, k, x ::
        && 0 <= i < |rules| && 0 <= k < |rules| && x in CriticalWords(rules[i], rules[k])
        && StagedFrom(rules, rules[i], rules[k], x, order, fuel, y)
  {
    var staged := Stage(rules, order, fuel).value;
    CollectFromSpec(rules, r => StagePartners(rules, r, order, fuel), 0);
    forall y | y in staged
      ensures exists i, k, x ::
        && 0 <= i < |rules| && 0 <= k < |rules| && x in CriticalWords(rules[i], rules[k])
        && StagedFrom(rules, rules[i], rules[k], x, order, fuel, y)
    {
      var i :| 0 <= i < |rules| && y in StagePartners(rules, rules[i], order, fuel).value;
      StagePartnersSpec(rules, rules[i], order, fuel);
      var k, x :| 0 <= k < |rules| && x in CriticalWords(rules[i], rules[k])
        && StagedFrom(rules, rules[i], rules[k], x, order, fuel, y);
    }
  }

  /** The same for the rules staged for one rule `r`. */
  lemma StagePartnersSpec(rules: seq<Rule>, r: Rule, order: Option<seq<char>>, fuel: nat)
    requires StagePartners(rules, r, order, fuel).Ok?
    ensures forall y :: y in StagePartners(rules, r, order, fuel).value ==>
      exists k, x :: 0 <= k < |rules| && x in CriticalWords(r, rules[k]) && StagedFrom(rules, r, rules[k], x, order, fuel, y)
  {
    CollectFromSpec(rules, s => StagePair(rules, r, s, order, fuel), 0);
    forall y | y in StagePartners(rules, r, order, fuel).value
      ensures exists k, x :: 0 <= k < |rules| && x in CriticalWords(r, rules[k]) && StagedFrom(rules, r, rules[k], x, order, fuel, y)
    {
      var k :| 0 <= k < |rules| && y in StagePair(rules, r, rules[k], order, fuel).value;
      StagePairSpec(rules, r, rules[k], order, fuel);
      var x :| x in CriticalWords(r, rules[k]) && StagedFrom(rules, r, rules[k], x, order, fuel, y);
    }
  }

  /** The same for the rules staged for one ordered pair `r, s`. */
  lemma StagePairSpec(rules: seq<Rule>, r: Rule, s: Rule, order: Option<seq<char>>, fuel: nat)
    requires StagePair(rules, r, s, order, fuel).Ok?
    ensures forall y :: y in StagePair(rules, r, s, order, fuel).value ==>
      exists x :: x in CriticalWords(r, s) && StagedFrom(rules, r, s, x, order, fuel, y)
  {
    var list := CriticalWords(r, s);
    CollectFromSpec(list, x => StageWord(rules, r, s, x, order, fuel), 0);
    forall y | y in StagePair(rules, r, s, order, fuel).value
      ensures exists x :: x in list && StagedFrom(rules, r, s, x, order, fuel, y)
    {
      var m :| 0 <= m < |list| && y in StageWord(rules, r, s, list[m], order, fuel).value;
      StageWordSpec(rules, r, s, list[m], order, fuel);
      assert list[m] in list;
    }
  }

  /** A staged rule is a consequence of the rules it was staged from: both of its sides
      are reached by rewriting from the same critical word. */
  lemma StagedConverts(rules: seq<Rule>, r: Rule, s: Rule, x: Word, order: Option<seq<char>>, fuel: nat, y: Rule)
    requires r in rules && s in rules && StagedFrom(rules, r, s, x, order, fuel, y)
    ensures Convertible(rules, y.lhs, y.rhs)
  {
    var v1 :| v1 in OneStepRewrites(r, s, x) && Reduce(rules, v1, fuel) == Some(y.lhs);
    var v2 :| v2 in OneStepRewrites(r, s, x) && Reduce(rules, v2, fuel) == Some(y.rhs);
    RewriteConverts(rules, r, s, x, v1, fuel);
    RewriteConverts(rules, r, s, x, v2, fuel);
    ConvertibleSym(rules, x, y.lhs);
    ConvertibleTrans(rules, y.lhs, x, y.rhs);
  }

  /** The normal form of a one-step rewrite of `x` is congruent to `x`. */
  lemma RewriteConverts(rules: seq<Rule>, r: Rule, s: Rule, x: Word, v: Word, fuel: nat)
    requires r in rules && s in rules && v in OneStepRewrites(r, s, x) && Reduce(rules, v, fuel).Some?
    ensures Convertible(rules, x, Reduce(rules, v, fuel).value)
  {
    OneStepRewritesSpec(rules, r, s, x);
    var c := ReduceDerives(rules, v, fuel);
    DerivationJoin(rules, [x, v], c);
    DerivationConverts(rules, rules, [x] + c);
  }

  /** Every rule `newrules` collects is a consequence of the rules it was staged from. */
  lemma StageEntailed(rules: seq<Rule>, order: Option<seq<char>>, fuel: nat)
    requires Stage(rules, order, fuel).Ok?
    ensures forall y :: y in Stage(rules, order, fuel).value ==> Convertible(rules, y.lhs, y.rhs)
  {
    StageSpec(rules, order, fuel);
    forall y | y in Stage(rules, order, fuel).value
      ensures Convertible(rules, y.lhs, y.rhs)
    {
      var i, k, x :|
        && 0 <= i < |rules| && 0 <= k < |rules| && x in CriticalWords(rules[i], rules[k])
        && StagedFrom(rules, rules[i], rules[k], x, order, fuel, y);
      StagedConverts(rules, rules[i], rules[k], x, order, fuel, y);
    }
  }

  /** `for i in newrules: if not(i in alreadyfound): rules.append(i)`, where
      `alreadyfound` is the growing list itself. */
  function AppendUnseen(acc: seq<Rule>, staged: seq<Rule>): seq<Rule>
    decreases |staged|
  {
    if |staged| == 0 then acc
    else AppendUnseen(if staged[0] in acc then acc else acc + [staged[0]], staged[1..])
  }

  /** Lines 209-212: append the unseen staged rules, then `alreadyfound.extend(newrules)`
      extends the same list with all of them. */
  function Merge(rules: seq<Rule>, staged: seq<Rule>): seq<Rule>
  {
    AppendUnseen(rules, staged) + staged
  }

  lemma {:induction false} AppendUnseenSpec(acc: seq<Rule>, staged: seq<Rule>)
    ensures |AppendUnseen(acc, staged)| >= |acc| && AppendUnseen(acc, staged)[..|acc|] == acc
    ensures forall y :: y in AppendUnseen(acc, staged) <==> y in acc || y in staged
    decreases |staged|
  {
    if |staged| > 0 {
      var acc' := if staged[0] in acc then acc else acc + [staged[0]];
      AppendUnseenSpec(acc', staged[1..]);
      assert acc'[..|acc|] == acc;
      var out := AppendUnseen(acc, staged);
      assert out[..|acc|] == out[..|acc'|][..|acc|];
    }
  }

  /** Rules already present keep their number of copies; each staged rule not present
      before is appended exactly once. */
  lemma {:induction false} AppendUnseenCounts(acc: seq<Rule>, staged: seq<Rule>)
    ensures forall y :: y in acc ==> multiset(AppendUnseen(acc, staged))[y] == multiset(acc)[y]
    ensures forall y :: y in staged && y !in acc ==> multiset(AppendUnseen(acc, staged))[y] == 1
    decreases |staged|
  {
    if |staged| > 0 {
      var y0 := staged[0];
      var acc' := if y0 in acc then acc else acc + [y0];
      AppendUnseenCounts(acc', staged[1..]);
      forall y | y in staged && y !in acc
        ensures multiset(AppendUnseen(acc, staged))[y] == 1
      {
        if y != y0 {
          assert y in staged[1..];
        }
      }
    }
  }

  /** The merged list starts with the old rules and holds exactly the old and the staged
      rules; because of the aliasing, a staged rule that was not present before ends up in
      it at least twice. */
  lemma MergeSpec(rules: seq<Rule>, staged: seq<Rule>)
    ensures |Merge(rules, staged)| >= |rules| && Merge(rules, staged)[..|rules|] == rules
    ensures forall y :: y in Merge(rules, staged) <==> y in rules || y in staged
    ensures forall y :: y in staged && y !in rules ==> multiset(Merge(rules, staged))[y] >= 2
  {
    AppendUnseenSpec(rules, staged);
    AppendUnseenCounts(rules, staged);
    var a := AppendUnseen(rules, staged);
    assert Merge(rules, staged)[..|rules|] == a[..|rules|];
    assert multiset(Merge(rules, staged)) == multiset(a) + multiset(staged);
  }

  /** Merging rules that are consequences of the list keeps its congruence. */
  lemma MergeEquivalent(rules: seq<Rule>, staged: seq<Rule>)
    requires forall y :: y in staged ==> Convertible(rules, y.lhs, y.rhs)
    ensures Equivalent(rules, Merge(rules, staged))
  {
    MergeSpec(rules, staged);
    ExtendEquivalent(rules, Merge(rules, staged));
  }

  /** One iteration of the `while` body: `normalize` (without `order_alph`), `simplifyrules`,
      staging with `order_alph`, and the merge. */
  function Round(rules: seq<Rule>, order: Option<seq<char>>, fuel: nat): (r: Run<seq<Rule>>)
    ensures order.None? ==> !r.UnrankedSymbol?
    ensures r.Ok? ==> Equivalent(rules, r.value)
  {
    match Normalize.Normalize(rules, None, fuel)
    case OutOfFuel => OutOfFuel
    case UnrankedSymbol => UnrankedSymbol
    case Ok(normal) =>
      var current := Simplify(normal);
      StageDefaultOrder(current, order, fuel);
      match Stage(current, order, fuel)
      case OutOfFuel => OutOfFuel
      case UnrankedSymbol => UnrankedSymbol
      case Ok(staged) =>
        StageEntailed(current, order, fuel);
        RoundEquivalent(rules, normal, current, staged);
        Ok(Merge(current, staged))
  }

  lemma RoundEquivalent(rules: seq<Rule>, normal: seq<Rule>, current: seq<Rule>, staged: seq<Rule>)
    requires Equivalent(rules, normal) && current == Simplify(normal)
    requires forall y :: y in staged ==> Convertible(current, y.lhs, y.rhs)
    ensures Equivalent(rules, Merge(current, staged))
  {
    SimplifyEquivalent(normal);
    MergeEquivalent(current, staged);
    EquivalentTrans(rules, normal, current);
    EquivalentTrans(rules, current, Merge(current, staged));
  }

  /** The `while not(testlocalconfluence(rules))` loop, at most `fuel` iterations. The loop
      only exits on a list that passes the test. */
  function CompletionLoop(rules: seq<Rule>, order: Option<seq<char>>, fuel: nat, rounds: nat): (r: Run<seq<Rule>>)
    ensures r.Ok? ==> TestLocalConfluence(r.value, fuel) == Some(true)
    ensures r.Ok? ==> Equivalent(rules, r.value)
    ensures order.None? ==> !r.UnrankedSymbol?
    decreases rounds
  {
    match TestLocalConfluence(rules, fuel)
    case None => OutOfFuel
    case Some(confluent) =>
      if confluent then
        EquivalentRefl(rules);
        Ok(rules)
      else if rounds == 0 then OutOfFuel
      else
        match Round(rules, order, fuel)
        case OutOfFuel => OutOfFuel
        case UnrankedSymbol => UnrankedSymbol
        case Ok(next) =>
          var out := CompletionLoop(next, order, fuel, rounds - 1);
          if out.Ok? then
            EquivalentTrans(rules, next, out.value);
            out
          else out
  }

  /** `knuthbendix(rules, order_alph)`: the loop, then a last `normalize` (again without
      `order_alph`) and `simplifyrules`. Without an alphabet order it fails only by
      running out of fuel. */
  function KnuthBendix(rules: seq<Rule>, order: Option<seq<char>>, fuel: nat): (r: Run<seq<Rule>>)
    ensures order.None? ==> !r.UnrankedSymbol?
    ensures r.Ok? ==> Equivalent(rules, r.value)
  {
    match CompletionLoop(rules, order, fuel, fuel)
    case OutOfFuel => OutOfFuel
    case UnrankedSymbol => UnrankedSymbol
    case Ok(done) =>
      match Normalize.Normalize(done, None, fuel)
      case OutOfFuel => OutOfFuel
      case UnrankedSymbol => UnrankedSymbol
      case Ok(normal) =>
        SimplifyEquivalent(normal);
        EquivalentTrans(rules, done, normal);
        EquivalentTrans(rules, normal, Simplify(normal));
        Ok(Simplify(normal))
  }

  /** When the loop exits, every critical pair of the list it exits with joins; what
      `knuthbendix` returns is normalized (the last `simplifyrules` has nothing left to
      remove). Local confluence of the returned list is NOT claimed: the last `normalize`
      may change the rules after the test. The returned list has the congruence of the
      list `knuthbendix` was given. */
  lemma KnuthBendixSpec(rules: seq<Rule>, order: Option<seq<char>>, fuel: nat)
    requires KnuthBendix(rules, order, fuel).Ok?
    ensures Equivalent(rules, KnuthBendix(rules, order, fuel).value)
    ensures CriticalPairsJoin(CompletionLoop(rules, order, fuel, fuel).value, fuel)
    ensures Normalized(KnuthBendix(rules, order, fuel).value)
    ensures KnuthBendix(rules, order, fuel).value == Normalize.Normalize(CompletionLoop(rules, order, fuel, fuel).value, None, fuel).value
  {
    var done := CompletionLoop(rules, order, fuel, fuel).value;
    TestLocalConfluenceSpec(done, fuel);
    var normal := Normalize.Normalize(done, None, fuel).value;
    NormalizeSpec(done, None, fuel);
    NormalizedNoTrivial(normal);
    SimplifyClean(normal);
  }

  /** A list that already passes both testers comes back unchanged. */
  lemma KnuthBendixFixesComplete(rules: seq<Rule>, order: Option<seq<char>>, fuel: nat)
    requires TestLocalConfluence(rules, fuel) == Some(true) && Normalized(rules)
    ensures KnuthBendix(rules, order, fuel) == Ok(rules)
  {
    NormalizeFixesNormalized(rules, None, fuel);
    NormalizedNoDuplicates(rules);
    NormalizedNoTrivial(rules);
    SimplifyClean(rules);
  }
}
