/** The `rewritingsystem` class of LIS4930-knuthbendix.py: an alphabet, a list of rules
    and three cached answers (`noetherian`, `confluent`, `normalized`), each `None` until
    its property is first asked for. Every method that reads or changes the object is a
    function from the old object to the new one; a property query returns its answer
    together with the object it leaves behind. */
module System {
  import opened Outcomes
  import opened Words
  import opened Reduction
  import opened Testers
  import opened Confluence
  import opened Completion
  import opened Congruence

  datatype RewritingSystem = RewritingSystem(
    alphabet: seq<char>, rules: seq<Rule>,
    noetherian: Option<bool>, confluent: Option<bool>, normalized: Option<bool>)

  /** A property's answer and the object after the query. */
  datatype Answer = Answer(value: bool, system: RewritingSystem)

  /** `rewritingsystem(alphabet, rules)`: nothing is known yet. */
  function NewSystem(alphabet: seq<char>, rules: seq<Rule>): (s: RewritingSystem)
    ensures s.alphabet == alphabet && s.rules == rules
    ensures s.noetherian.None? && s.confluent.None? && s.normalized.None?
    ensures forall fuel: nat :: CachesAgree(s, fuel)
  {
    RewritingSystem(alphabet, rules, None, None, None)
  }

  /** Every cached answer is what its tester says of the current rules. The confluence
      answer depends on the fuel its tester is given. */
  predicate CachesAgree(s: RewritingSystem, fuel: nat)
  {
    && (s.noetherian.Some? ==> s.noetherian.value == TestNoetherian(s.rules))
    && (s.normalized.Some? ==> s.normalized.value == TestNormalized(s.rules))
    && (s.confluent.Some? ==> TestLocalConfluence(s.rules, fuel) == Some(s.confluent.value))
  }

  /** `isnoetherian`: the cached answer if there is one, otherwise `testnoetherian(rules)`,
      which is then cached. */
  function IsNoetherian(s: RewritingSystem): Answer
  {
    match s.noetherian
    case Some(b) => Answer(b, s)
    case None =>
      var b := TestNoetherian(s.rules);
      Answer(b, s.(noetherian := Some(b)))
  }

  /** `isnormalized`, in the same way with `testnormalized`. */
  function IsNormalized(s: RewritingSystem): Answer
  {
    match s.normalized
    case Some(b) => Answer(b, s)
    case None =>
      var b := TestNormalized(s.rules);
      Answer(b, s.(normalized := Some(b)))
  }

  /** `isconfluent`, in the same way with `testlocalconfluence`; missing when that test
      runs out of fuel. */
  function IsConfluent(s: RewritingSystem, fuel: nat): Option<Answer>
  {
    match s.confluent
    case Some(b) => Some(Answer(b, s))
    case None =>
      match TestLocalConfluence(s.rules, fuel)
      case None => None
      case Some(b) => Some(Answer(b, s.(confluent := Some(b))))
  }

  /** On an object whose caches agree with its rules, `isnoetherian` answers whether no
      right-hand side is a left-hand side; afterwards the answer is cached, the caches
      still agree, and nothing else has changed. */
  lemma IsNoetherianSpec(s: RewritingSystem, fuel: nat)
    requires CachesAgree(s, fuel)
    ensures IsNoetherian(s).value <==> NoRhsIsLhs(s.rules)
    ensures IsNoetherian(s).system == s.(noetherian := Some(IsNoetherian(s).value))
    ensures CachesAgree(IsNoetherian(s).system, fuel)
  {
  }

  /** The same for `isnormalized`: the answer is whether the rules are normalized. */
  lemma IsNormalizedSpec(s: RewritingSystem, fuel: nat)
    requires CachesAgree(s, fuel)
    ensures IsNormalized(s).value <==> Normalized(s.rules)
    ensures IsNormalized(s).system == s.(normalized := Some(IsNormalized(s).value))
    ensures CachesAgree(IsNormalized(s).system, fuel)
  {
  }

  /** The same for `isconfluent`: when an answer comes back it is whether every critical
      pair of the rules joins. */
  lemma IsConfluentSpec(s: RewritingSystem, fuel: nat)
    requires CachesAgree(s, fuel)
    ensures IsConfluent(s, fuel).None? <==> s.confluent.None? && TestLocalConfluence(s.rules, fuel).None?
    ensures IsConfluent(s, fuel).Some? ==>
      var a := IsConfluent(s, fuel).value;
      && (a.value <==> CriticalPairsJoin(s.rules, fuel))
      && a.system == s.(confluent := Some(a.value))
      && CachesAgree(a.system, fuel)
  {
    var t := TestLocalConfluence(s.rules, fuel);
    TestLocalConfluenceSpec(s.rules, fuel);
    if s.confluent.Some? {
      assert IsConfluent(s, fuel) == Some(Answer(s.confluent.value, s));
    } else if t.Some? {
      assert IsConfluent(s, fuel) == Some(Answer(t.value, s.(confluent := t)));
    }
  }

  /** Asking twice gives the same answer, and the second query changes nothing. */
  lemma QueriesIdempotent(s: RewritingSystem, fuel: nat)
    ensures IsNoetherian(IsNoetherian(s).system) == Answer(IsNoetherian(s).value, IsNoetherian(s).system)
    ensures IsNormalized(IsNormalized(s).system) == Answer(IsNormalized(s).value, IsNormalized(s).system)
    ensures IsConfluent(s, fuel).Some? ==>
      IsConfluent(IsConfluent(s, fuel).value.system, fuel) == IsConfluent(s, fuel)
  {
  }

  /** The body of the `changealphabet` loop for one rule: both sides replaced by their
      normal forms for the rules of `renaming`. */
  function MapRule(renaming: seq<Rule>, rule: Rule, fuel: nat): Option<Rule>
  {
    match Reduce(renaming, rule.lhs, fuel)
    case None => None
    case Some(l) =>
      match Reduce(renaming, rule.rhs, fuel)
      case None => None
      case Some(r) => Some(Rule(l, r))
  }

  /** A `for` loop that applies a failing step to each element in turn, from position `i`
      on, and stops at the first failure. */
  function MapAll<X, Y>(xs: seq<X>, f: X -> Option<Y>, i: nat): Option<seq<Y>>
    decreases |xs| - i
  {
    if i >= |xs| then Some([])
    else
      match f(xs[i])
      case None => None
      case Some(y) =>
        match MapAll(xs, f, i + 1)
        case None => None
        case Some(rest) => Some([y] + rest)
  }

  /** The loop fails exactly when the step fails on some element; otherwise entry `k` of
      the result is the step's result on element `i + k`. */
  lemma {:induction false} MapAllSpec<X, Y>(xs: seq<X>, f: X -> Option<Y>, i: nat)
    requires i <= |xs|
    ensures MapAll(xs, f, i).None? <==> exists k :: i <= k < |xs| && f(xs[k]).None?
    ensures MapAll(xs, f, i).Some? ==>
      && |MapAll(xs, f, i).value| == |xs| - i
      && forall k :: i <= k < |xs| ==> f(xs[k]) == Some(MapAll(xs, f, i).value[k - i])
    decreases |xs| - i
  {
    if i < |xs| {
      MapAllSpec(xs, f, i + 1);
    }
  }

  /** `changealphabet(renaming)` with `user=False`. Neither the alphabet nor any cached answer
      is touched. */
  function ChangeAlphabet(s: RewritingSystem, renaming: seq<Rule>, fuel: nat): Option<RewritingSystem>
  {
    match MapAll(s.rules, r => MapRule(renaming, r, fuel), 0)
    case None => None
    case Some(rules') => Some(s.(rules := rules'))
  }

  /** Each rule keeps its place and has both sides rewritten to normal form by `renaming`, so
      no left-hand side of `renaming` occurs in any side; alphabet and caches stay as they were. */
  lemma ChangeAlphabetSpec(s: RewritingSystem, renaming: seq<Rule>, fuel: nat)
    ensures ChangeAlphabet(s, renaming, fuel).None? <==>
      exists k :: 0 <= k < |s.rules| && (Reduce(renaming, s.rules[k].lhs, fuel).None? || Reduce(renaming, s.rules[k].rhs, fuel).None?)
    ensures ChangeAlphabet(s, renaming, fuel).Some? ==>
      var t := ChangeAlphabet(s, renaming, fuel).value;
      && t == s.(rules := t.rules)
      && |t.rules| == |s.rules|
      && forall k :: 0 <= k < |t.rules| ==>
           && Some(t.rules[k].lhs) == Reduce(renaming, s.rules[k].lhs, fuel)
           && Some(t.rules[k].rhs) == Reduce(renaming, s.rules[k].rhs, fuel)
           && IsReduced(renaming, t.rules[k].lhs) && IsReduced(renaming, t.rules[k].rhs)
  {
    var f := r => MapRule(renaming, r, fuel);
    MapAllSpec(s.rules, f, 0);
    forall k | 0 <= k < |s.rules|
      ensures f(s.rules[k]).None? <==>
        Reduce(renaming, s.rules[k].lhs, fuel).None? || Reduce(renaming, s.rules[k].rhs, fuel).None?
      ensures f(s.rules[k]).Some? ==>
        && Some(f(s.rules[k]).value.lhs) == Reduce(renaming, s.rules[k].lhs, fuel)
        && Some(f(s.rules[k]).value.rhs) == Reduce(renaming, s.rules[k].rhs, fuel)
    {
      MapRuleSpec(renaming, s.rules[k], fuel);
    }
    var m := MapAll(s.rules, f, 0);
    if m.Some? {
      var t := ChangeAlphabet(s, renaming, fuel).value;
      assert t.rules == m.value;
      forall k | 0 <= k < |t.rules|
        ensures Some(t.rules[k].lhs) == Reduce(renaming, s.rules[k].lhs, fuel)
        ensures Some(t.rules[k].rhs) == Reduce(renaming, s.rules[k].rhs, fuel)
        ensures IsReduced(renaming, t.rules[k].lhs) && IsReduced(renaming, t.rules[k].rhs)
      {
        assert f(s.rules[k]) == Some(t.rules[k]);
      }
    }
  }

  lemma MapRuleSpec(renaming: seq<Rule>, rule: Rule, fuel: nat)
    ensures MapRule(renaming, rule, fuel).None? <==>
      Reduce(renaming, rule.lhs, fuel).None? || Reduce(renaming, rule.rhs, fuel).None?
    ensures MapRule(renaming, rule, fuel).Some? ==>
      && Some(MapRule(renaming, rule, fuel).value.lhs) == Reduce(renaming, rule.lhs, fuel)
      && Some(MapRule(renaming, rule, fuel).value.rhs) == Reduce(renaming, rule.rhs, fuel)
  {
  }

  /** With the default empty `renaming` nothing changes. */
  lemma ChangeAlphabetEmptyMap(s: RewritingSystem, fuel: nat)
    ensures ChangeAlphabet(s, [], fuel) == Some(s)
  {
    ChangeAlphabetSpec(s, [], fuel);
    forall k | 0 <= k < |s.rules|
      ensures IsReduced([], s.rules[k].lhs) && IsReduced([], s.rules[k].rhs)
    {
    }
    var t := ChangeAlphabet(s, [], fuel).value;
    assert t.rules == s.rules;
  }

  /** The caches go stale: `[a -> b]` is asked whether it is noetherian (it is); then `b` is
      renamed to `a`, which turns the rule into `a -> a`, yet the object still answers that
      it is noetherian. */
  lemma ChangeAlphabetKeepsStaleCache(a: char, b: char, fuel: nat)
    requires a != b && fuel >= 1
    ensures var s := IsNoetherian(NewSystem([a, b], [Rule([a], [b])])).system;
            && IsNoetherian(s).value
            && ChangeAlphabet(s, [Rule([b], [a])], fuel).Some?
            && var t := ChangeAlphabet(s, [Rule([b], [a])], fuel).value;
               IsNoetherian(t).value && !TestNoetherian(t.rules)
  {
    var renaming := [Rule([b], [a])];
    var s := IsNoetherian(NewSystem([a, b], [Rule([a], [b])])).system;
    assert !MatchAt([a], [b], 0);
    assert IsReduced(renaming, [a]);
    assert !IsReduced(renaming, [b]) by { assert MatchAt([b], [b], 0); }
    assert Pass(renaming, [b]) == [a] by { PassOfRename(a, b); }
    ReduceUnfold(renaming, [b], fuel);
    ReduceFixesReduced(renaming, [a], fuel - 1);
    ChangeAlphabetSpec(s, renaming, fuel);
    var t := ChangeAlphabet(s, renaming, fuel).value;
    assert t.rules[0] == Rule([a], [a]);
    TrivialRuleNotNoetherian(t.rules, 0);
  }

  lemma PassOfRename(a: char, b: char)
    requires a != b
    ensures Pass([Rule([b], [a])], [b]) == [a]
  {
    var rule := Rule([b], [a]);
    assert MatchAt([b], [b], 0);
    RewriteAt(rule, [b], 0, [a]);
  }

  /** `makeconfluent`: the rules are replaced by what `knuthbendix` returns (called without
      an alphabet order) and the object records that it is confluent. The new rules have
      the Thue congruence of the old ones. */
  function MakeConfluent(s: RewritingSystem, fuel: nat): (r: Run<RewritingSystem>)
    ensures r.Ok? ==> Equivalent(s.rules, r.value.rules)
  {
    match KnuthBendix(s.rules, None, fuel)
    case OutOfFuel => OutOfFuel
    case UnrankedSymbol => UnrankedSymbol
    case Ok(rules') => Ok(s.(rules := rules', confluent := Some(true)))
  }

  /** Without an alphabet order no symbol lacks a rank, so `makeconfluent` fails only by
      running out of fuel, and it succeeds whenever `knuthbendix` does. On success the new rules are
      what `knuthbendix` returns: normalized, and the normalized form of a list whose
      critical pairs all join; the alphabet and the other two caches are untouched. A
      system that is already normalized and locally confluent keeps its rules. */
  lemma MakeConfluentSpec(s: RewritingSystem, fuel: nat)
    ensures !MakeConfluent(s, fuel).UnrankedSymbol?
    ensures KnuthBendix(s.rules, None, fuel).Ok? ==> MakeConfluent(s, fuel).Ok?
    ensures MakeConfluent(s, fuel).Ok? ==>
      var t := MakeConfluent(s, fuel).value;
      && t.rules == KnuthBendix(s.rules, None, fuel).value
      && t == s.(rules := t.rules, confluent := Some(true))
      && Normalized(t.rules)
      && CriticalPairsJoin(CompletionLoop(s.rules, None, fuel, fuel).value, fuel)
    ensures TestLocalConfluence(s.rules, fuel) == Some(true) && Normalized(s.rules) ==>
      MakeConfluent(s, fuel) == Ok(s.(confluent := Some(true)))
  {
    if KnuthBendix(s.rules, None, fuel).Ok? {
      KnuthBendixSpec(s.rules, None, fuel);
    }
    if TestLocalConfluence(s.rules, fuel) == Some(true) && Normalized(s.rules) {
      KnuthBendixFixesComplete(s.rules, None, fuel);
    }
  }

  /** `reduceword(word)`: `reduce(self.rules, word)`. */
  function ReduceWord(s: RewritingSystem, w: Word, fuel: nat): Option<Word>
  {
    Reduce(s.rules, w, fuel)
  }

  /** The word comes back in normal form for the object's rules, reached by rewriting
      with them; a word already in normal form comes back as it is. */
  lemma ReduceWordSpec(s: RewritingSystem, w: Word, fuel: nat) returns (chain: seq<Word>)
    requires ReduceWord(s, w, fuel).Some?
    ensures IsReduced(s.rules, ReduceWord(s, w, fuel).value)
    ensures Derivation(s.rules, chain) && chain[0] == w && chain[|chain| - 1] == ReduceWord(s, w, fuel).value
    ensures IsReduced(s.rules, w) ==> ReduceWord(s, w, fuel) == Some(w)
  {
    chain := ReduceDerives(s.rules, w, fuel);
  }
}
