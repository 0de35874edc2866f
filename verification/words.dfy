/** Words, rules and the subword primitives of LIS4930-knuthbendix.py: Python's `x in w`
    on strings, `w.index(x)` and slice-and-concatenate replacement. */
module Words {
  import opened Outcomes

  /** A word is a Python string: a finite sequence of one-character symbols. */
  type Word = seq<char>

  /** A rewriting rule `[lhs, rhs]`: rewrite `lhs` to `rhs`. */
  datatype Rule = Rule(lhs: Word, rhs: Word) {
    /** `x -> x` rules, which `remtrivial` is meant to drop. */
    predicate IsTrivial() {
      lhs == rhs
    }
  }

  /** `pat` sits in `w` starting at position `i`. */
  predicate MatchAt(w: Word, pat: Word, i: int)
  {
    0 <= i && i + |pat| <= |w| && w[i..i + |pat|] == pat
  }

  /** Python's substring test `pat in w`. The empty word occurs in every word. */
  predicate Occurs(pat: Word, w: Word)
  {
    exists i | 0 <= i <= |w| - |pat| :: MatchAt(w, pat, i)
  }

  /** Leftmost match of `pat` in `w` at or after position `from`. */
  function FindFrom(w: Word, pat: Word, from: nat): (r: Option<nat>)
    ensures r.Some? ==> from <= r.value && MatchAt(w, pat, r.value)
    ensures r.Some? ==> forall j :: from <= j < r.value ==> !MatchAt(w, pat, j)
    ensures r.None? ==> forall j :: from <= j ==> !MatchAt(w, pat, j)
    decreases |w| - from
  {
    if from + |pat| > |w| then None
    else if w[from..from + |pat|] == pat then Some(from)
    else FindFrom(w, pat, from + 1)
  }

  /** Python's `w.index(pat)`, with the "not found" case made explicit. */
  function Find(w: Word, pat: Word): (r: Option<nat>)
    ensures r.None? <==> !Occurs(pat, w)
    ensures r.Some? ==> MatchAt(w, pat, r.value) && forall j :: 0 <= j < r.value ==> !MatchAt(w, pat, j)
  {
    FindFrom(w, pat, 0)
  }

  /** `w[:p] + rule.rhs + w[p + len(rule.lhs):]`: replace the occurrence of `rule.lhs`
      at position `p` by `rule.rhs`. */
  function Splice(w: Word, p: nat, rule: Rule): Word
    requires MatchAt(w, rule.lhs, p)
  {
    w[..p] + rule.rhs + w[p + |rule.lhs|..]
  }

  /** One application of a rule inside `reduce`: when `rule.lhs` occurs in `w`, its
      leftmost occurrence is replaced by `rule.rhs`; otherwise `w` is left alone. */
  function RewriteLeftmost(rule: Rule, w: Word): Word
  {
    match Find(w, rule.lhs)
    case None => w
    case Some(p) => Splice(w, p, rule)
  }

  /** What `RewriteLeftmost` does, position by position: nothing when the left-hand side
      is absent; otherwise the prefix before the LEFTMOST match is kept, the match becomes
      the right-hand side, and the suffix after it is kept. */
  lemma RewriteLeftmostSpec(rule: Rule, w: Word)
    ensures !Occurs(rule.lhs, w) ==> RewriteLeftmost(rule, w) == w
    ensures Occurs(rule.lhs, w) ==>
      exists p :: MatchAt(w, rule.lhs, p) && (forall j :: 0 <= j < p ==> !MatchAt(w, rule.lhs, j)) &&
                  RewriteLeftmost(rule, w) == Splice(w, p, rule)
    ensures Occurs(rule.lhs, w) ==> |RewriteLeftmost(rule, w)| == |w| - |rule.lhs| + |rule.rhs|
  {
    var f := Find(w, rule.lhs);
    if f.Some? {
      var p := f.value;
      assert MatchAt(w, rule.lhs, p) && (forall j :: 0 <= j < p ==> !MatchAt(w, rule.lhs, j));
      assert RewriteLeftmost(rule, w) == Splice(w, p, rule);
    }
  }

  /** `pat` is not at position `i` of `w` because the symbols at offset `k` differ. */
  lemma Mismatch(w: Word, pat: Word, i: nat, k: nat)
    requires k < |pat| && (i + |pat| <= |w| ==> w[i + k] != pat[k])
    ensures !MatchAt(w, pat, i)
  {
    if i + |pat| <= |w| {
      assert w[i..i + |pat|][k] == w[i + k];
    }
  }

  /** Conversely, the leftmost match determines the rewrite: if `rule.lhs` sits at `p` and
      nowhere before it, `RewriteLeftmost` replaces exactly that occurrence. */
  lemma RewriteAt(rule: Rule, w: Word, p: nat, v: Word)
    requires MatchAt(w, rule.lhs, p) && forall j :: 0 <= j < p ==> !MatchAt(w, rule.lhs, j)
    requires v == w[..p] + rule.rhs + w[p + |rule.lhs|..]
    ensures RewriteLeftmost(rule, w) == v
  {
  }

  /** A rule whose left-hand side is at no position leaves the word alone. */
  lemma RewriteAbsent(rule: Rule, w: Word)
    requires forall j :: 0 <= j <= |w| - |rule.lhs| ==> !MatchAt(w, rule.lhs, j)
    ensures RewriteLeftmost(rule, w) == w
  {
  }
}
