/** The Thue congruence of a list of rules: two words are congruent when a chain of single
    rewrites, each applied forwards or backwards inside its word, links them. `normalize`
    and `knuthbendix` of LIS4930-knuthbendix.py are meant to change a list only into one
    with the same congruence; `Equivalent` states that, and the lemmas here are the facts
    the proofs of those promises are built from. */
module Congruence {
  import opened Lists
  import opened Words
  import opened Hygiene
  import opened Reduction

  /** `chain` links its first word to its last, each neighbour obtained from the other by
      one rewrite. */
  ghost predicate Conversion(rules: seq<Rule>, chain: seq<Word>)
  {
    |chain| > 0 &&
    forall i :: 0 <= i < |chain| - 1 ==>
      StepsTo(rules, chain[i], chain[i + 1]) || StepsTo(rules, chain[i + 1], chain[i])
  }

  /** `u` and `v` are congruent modulo `rules`. */
  ghost predicate Convertible(rules: seq<Rule>, u: Word, v: Word)
  {
    exists chain :: Conversion(rules, chain) && chain[0] == u && chain[|chain| - 1] == v
  }

  /** Every rule of `rules` is a consequence of `base`: its two sides are congruent modulo
      `base`. */
  ghost predicate Entails(base: seq<Rule>, rules: seq<Rule>)
  {
    forall i :: 0 <= i < |rules| ==> Convertible(base, rules[i].lhs, rules[i].rhs)
  }

  /** The two lists generate the same congruence (`EquivalentSameCongruence`). */
  ghost predicate Equivalent(a: seq<Rule>, b: seq<Rule>)
  {
    Entails(a, b) && Entails(b, a)
  }

  lemma ConversionJoin(rules: seq<Rule>, c1: seq<Word>, c2: seq<Word>)
    requires Conversion(rules, c1) && Conversion(rules, c2) && c1[|c1| - 1] == c2[0]
    ensures Conversion(rules, c1 + c2[1..])
  {
    var c := c1 + c2[1..];
    forall i | 0 <= i < |c| - 1
      ensures StepsTo(rules, c[i], c[i + 1]) || StepsTo(rules, c[i + 1], c[i])
    {
      if i < |c1| - 1 {
        assert c[i] == c1[i] && c[i + 1] == c1[i + 1];
      } else {
        assert c[i] == c2[i - |c1| + 1] && c[i + 1] == c2[i - |c1| + 2];
      }
    }
  }

  lemma ConvertibleRefl(rules: seq<Rule>, u: Word)
    ensures Convertible(rules, u, u)
  {
    assert Conversion(rules, [u]);
  }

  lemma ConvertibleSym(rules: seq<Rule>, u: Word, v: Word)
    requires Convertible(rules, u, v)
    ensures Convertible(rules, v, u)
  {
    var c :| Conversion(rules, c) && c[0] == u && c[|c| - 1] == v;
    var r := seq(|c|, i requires 0 <= i < |c| => c[|c| - 1 - i]);
    forall i | 0 <= i < |r| - 1
      ensures StepsTo(rules, r[i], r[i + 1]) || StepsTo(rules, r[i + 1], r[i])
    {
      var j := |c| - 2 - i;
      assert r[i] == c[j + 1] && r[i + 1] == c[j];
    }
    assert Conversion(rules, r) && r[0] == v && r[|r| - 1] == u;
  }

  lemma ConvertibleTrans(rules: seq<Rule>, u: Word, v: Word, w: Word)
    requires Convertible(rules, u, v) && Convertible(rules, v, w)
    ensures Convertible(rules, u, w)
  {
    var c1 :| Conversion(rules, c1) && c1[0] == u && c1[|c1| - 1] == v;
    var c2 :| Conversion(rules, c2) && c2[0] == v && c2[|c2| - 1] == w;
    ConversionJoin(rules, c1, c2);
    var c := c1 + c2[1..];
    assert c[0] == u;
    assert c[|c| - 1] == w by {
      if |c2| > 1 {
        assert c[|c| - 1] == c2[|c2| - 1];
      }
    }
  }

  /** A rewrite by a rule of `sub` is a rewrite by any list holding that rule. */
  lemma StepsWithin(sub: seq<Rule>, rules: seq<Rule>, u: Word, v: Word)
    requires forall r :: r in sub ==> r in rules
    requires StepsTo(sub, u, v)
    ensures StepsTo(rules, u, v)
  {
    var r, p :| r in sub && MatchAt(u, r.lhs, p) && v == Splice(u, p, r);
    assert r in rules;
  }

  /** A derivation with rules drawn from `rules` links congruent words. */
  lemma DerivationConverts(sub: seq<Rule>, rules: seq<Rule>, chain: seq<Word>)
    requires forall r :: r in sub ==> r in rules
    requires Derivation(sub, chain)
    ensures Convertible(rules, chain[0], chain[|chain| - 1])
  {
    forall i | 0 <= i < |chain| - 1
      ensures StepsTo(rules, chain[i], chain[i + 1])
    {
      StepsWithin(sub, rules, chain[i], chain[i + 1]);
    }
    assert Conversion(rules, chain);
  }

  /** The two sides of a rule of the list are congruent: one rewrite of the whole
      left-hand side. */
  lemma MemberConverts(rules: seq<Rule>, y: Rule)
    requires y in rules
    ensures Convertible(rules, y.lhs, y.rhs)
  {
    assert MatchAt(y.lhs, y.lhs, 0);
    assert Splice(y.lhs, 0, y) == y.rhs;
    assert StepsTo(rules, y.lhs, y.rhs);
    assert Conversion(rules, [y.lhs, y.rhs]);
  }

  lemma StepsInContext(rules: seq<Rule>, u: Word, v: Word, x: Word, y: Word)
    requires StepsTo(rules, u, v)
    ensures StepsTo(rules, x + u + y, x + v + y)
  {
    var r, p :| r in rules && MatchAt(u, r.lhs, p) && v == Splice(u, p, r);
    var w := x + u + y;
    var q := |x| + p;
    assert w[q..q + |r.lhs|] == u[p..p + |r.lhs|];
    assert MatchAt(w, r.lhs, q);
    assert w[..q] == x + u[..p];
    assert w[q + |r.lhs|..] == u[p + |r.lhs|..] + y;
    assert x + v + y == Splice(w, q, r);
  }

  /** The congruence is compatible with concatenation on both sides. */
  lemma ConvertibleInContext(rules: seq<Rule>, u: Word, v: Word, x: Word, y: Word)
    requires Convertible(rules, u, v)
    ensures Convertible(rules, x + u + y, x + v + y)
  {
    var chain :| Conversion(rules, chain) && chain[0] == u && chain[|chain| - 1] == v;
    var c := seq(|chain|, i requires 0 <= i < |chain| => x + chain[i] + y);
    forall i | 0 <= i < |c| - 1
      ensures StepsTo(rules, c[i], c[i + 1]) || StepsTo(rules, c[i + 1], c[i])
    {
      if StepsTo(rules, chain[i], chain[i + 1]) {
        StepsInContext(rules, chain[i], chain[i + 1], x, y);
      } else {
        StepsInContext(rules, chain[i + 1], chain[i], x, y);
      }
    }
    assert Conversion(rules, c) && c[0] == x + u + y && c[|c| - 1] == x + v + y;
  }

  /** A rewrite by `rules` links words congruent modulo any list that entails `rules`. */
  lemma StepLifts(base: seq<Rule>, rules: seq<Rule>, u: Word, v: Word)
    requires Entails(base, rules) && StepsTo(rules, u, v)
    ensures Convertible(base, u, v)
  {
    var r, p :| r in rules && MatchAt(u, r.lhs, p) && v == Splice(u, p, r);
    var i :| 0 <= i < |rules| && rules[i] == r;
    assert Convertible(base, r.lhs, r.rhs);
    var x, y := u[..p], u[p + |r.lhs|..];
    SpliceAround(u, p, r);
    ConvertibleInContext(base, r.lhs, r.rhs, x, y);
  }

  /** The word around a match: what precedes it, the left-hand side, what follows it;
      the rewrite swaps the middle for the right-hand side. */
  lemma SpliceAround(u: Word, p: nat, r: Rule)
    requires MatchAt(u, r.lhs, p)
    ensures u == u[..p] + r.lhs + u[p + |r.lhs|..]
    ensures Splice(u, p, r) == u[..p] + r.rhs + u[p + |r.lhs|..]
  {
    assert u == u[..p] + u[p..p + |r.lhs|] + u[p + |r.lhs|..];
  }

  lemma {:induction false} ConversionLifts(base: seq<Rule>, rules: seq<Rule>, chain: seq<Word>)
    requires Entails(base, rules) && Conversion(rules, chain)
    ensures Convertible(base, chain[0], chain[|chain| - 1])
    decreases |chain|
  {
    if |chain| == 1 {
      ConvertibleRefl(base, chain[0]);
    } else {
      var rest := chain[1..];
      forall i | 0 <= i < |rest| - 1
        ensures StepsTo(rules, rest[i], rest[i + 1]) || StepsTo(rules, rest[i + 1], rest[i])
      {
        assert rest[i] == chain[i + 1] && rest[i + 1] == chain[i + 2];
      }
      ConversionLifts(base, rules, rest);
      if StepsTo(rules, chain[0], chain[1]) {
        StepLifts(base, rules, chain[0], chain[1]);
      } else {
        StepLifts(base, rules, chain[1], chain[0]);
        ConvertibleSym(base, chain[1], chain[0]);
      }
      ConvertibleTrans(base, chain[0], chain[1], chain[|chain| - 1]);
    }
  }

  /** Words congruent modulo `rules` are congruent modulo any list that entails it. */
  lemma ConvertibleLifts(base: seq<Rule>, rules: seq<Rule>, u: Word, v: Word)
    requires Entails(base, rules) && Convertible(rules, u, v)
    ensures Convertible(base, u, v)
  {
    var chain :| Conversion(rules, chain) && chain[0] == u && chain[|chain| - 1] == v;
    ConversionLifts(base, rules, chain);
  }

  /** Lists with the same consequences have the same congruence. */
  lemma EquivalentSameCongruence(a: seq<Rule>, b: seq<Rule>, u: Word, v: Word)
    requires Equivalent(a, b)
    ensures Convertible(a, u, v) <==> Convertible(b, u, v)
  {
    if Convertible(a, u, v) {
      ConvertibleLifts(b, a, u, v);
    }
    if Convertible(b, u, v) {
      ConvertibleLifts(a, b, u, v);
    }
  }

  /** Without rules, only equal words are congruent. */
  lemma NoRulesConvertOnlyEqual(u: Word, v: Word)
    requires Convertible([], u, v)
    ensures u == v
  {
    var chain :| Conversion([], chain) && chain[0] == u && chain[|chain| - 1] == v;
    if |chain| > 1 {
      NoStepsWithoutRules(chain[0], chain[1]);
      assert false;
    }
  }

  lemma NoStepsWithoutRules(u: Word, v: Word)
    ensures !StepsTo([], u, v) && !StepsTo([], v, u)
  {
  }

  /** A pair of words congruent in one order is congruent in the other. */
  lemma OrientedConverts(rules: seq<Rule>, a: Word, b: Word, c: Word, d: Word)
    requires multiset{a, b} == multiset{c, d} && Convertible(rules, c, d)
    ensures Convertible(rules, a, b)
  {
    PairMultiset(a, b, c, d);
    if a != c {
      ConvertibleSym(rules, c, d);
    }
  }

  lemma EquivalentRefl(rules: seq<Rule>)
    ensures Equivalent(rules, rules)
  {
    forall i | 0 <= i < |rules|
      ensures Convertible(rules, rules[i].lhs, rules[i].rhs)
    {
      MemberConverts(rules, rules[i]);
    }
  }

  lemma EquivalentTrans(a: seq<Rule>, b: seq<Rule>, c: seq<Rule>)
    requires Equivalent(a, b) && Equivalent(b, c)
    ensures Equivalent(a, c)
  {
    forall i | 0 <= i < |c|
      ensures Convertible(a, c[i].lhs, c[i].rhs)
    {
      ConvertibleLifts(a, b, c[i].lhs, c[i].rhs);
    }
    forall i | 0 <= i < |a|
      ensures Convertible(c, a[i].lhs, a[i].rhs)
    {
      ConvertibleLifts(c, b, a[i].lhs, a[i].rhs);
    }
  }

  /** A list that holds every rule of `rules`, plus consequences of them, has the same
      congruence. */
  lemma ExtendEquivalent(rules: seq<Rule>, more: seq<Rule>)
    requires forall y :: y in rules ==> y in more
    requires forall y :: y in more && y !in rules ==> Convertible(rules, y.lhs, y.rhs)
    ensures Equivalent(rules, more)
  {
    forall i | 0 <= i < |more|
      ensures Convertible(rules, more[i].lhs, more[i].rhs)
    {
      if more[i] in rules {
        MemberConverts(rules, more[i]);
      }
    }
    forall i | 0 <= i < |rules|
      ensures Convertible(more, rules[i].lhs, rules[i].rhs)
    {
      MemberConverts(more, rules[i]);
    }
  }

  /** `simplifyrules` keeps the congruence: it deletes only repeated and trivial rules. */
  lemma SimplifyEquivalent(s: seq<Rule>)
    ensures Equivalent(s, Simplify(s))
  {
    var t := Simplify(s);
    SimplifySpec(s);
    forall i | 0 <= i < |t|
      ensures Convertible(s, t[i].lhs, t[i].rhs)
    {
      MemberConverts(s, t[i]);
    }
    forall i | 0 <= i < |s|
      ensures Convertible(t, s[i].lhs, s[i].rhs)
    {
      if s[i].IsTrivial() {
        ConvertibleRefl(t, s[i].lhs);
      } else {
        MemberConverts(t, s[i]);
      }
    }
  }

  /** Replacing the rule at `idx` by `r'` keeps the congruence when each of the two rules
      is a consequence of the list that holds the other. */
  lemma ReplaceEquivalent(rules: seq<Rule>, idx: nat, r': Rule)
    requires idx < |rules|
    requires Convertible(rules, r'.lhs, r'.rhs)
    requires Convertible(rules[idx := r'], rules[idx].lhs, rules[idx].rhs)
    ensures Equivalent(rules, rules[idx := r'])
  {
    var t := rules[idx := r'];
    forall i | 0 <= i < |t|
      ensures Convertible(rules, t[i].lhs, t[i].rhs)
    {
      if i != idx {
        MemberConverts(rules, t[i]);
      }
    }
    forall i | 0 <= i < |rules|
      ensures Convertible(t, rules[i].lhs, rules[i].rhs)
    {
      if i != idx {
        assert t[i] == rules[i];
        MemberConverts(t, rules[i]);
      }
    }
  }

  /** Every rule of `rules_sans`, the list after `list.remove(rules[idx])`, is still in the
      list once the entry at `idx` is replaced: if the removed copy was another one, the
      copy at `idx` took its place. */
  lemma SansInReplaced(rules: seq<Rule>, idx: nat, r': Rule)
    requires idx < |rules|
    ensures forall y :: y in RemoveFirst(rules, rules[idx]) ==> y in rules
    ensures forall y :: y in RemoveFirst(rules, rules[idx]) ==> y in rules[idx := r']
  {
    var x := rules[idx];
    var j := IndexOf(rules, x);
    var sans := RemoveFirst(rules, x);
    var t := rules[idx := r'];
    assert sans == rules[..j] + rules[j + 1..];
    forall y | y in sans
      ensures y in rules && y in t
    {
      var k: nat;
      if y in rules[..j] {
        var m :| 0 <= m < j && rules[..j][m] == y;
        k := m;
      } else {
        var m :| 0 <= m < |rules| - j - 1 && rules[j + 1..][m] == y;
        k := j + 1 + m;
      }
      assert k != j && rules[k] == y;
      if k == idx {
        assert t[j] == y;
      } else {
        assert t[k] == y;
      }
    }
  }
}
