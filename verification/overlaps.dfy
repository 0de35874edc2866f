/** `overlaps(u, v)` of LIS4930-knuthbendix.py: the words in which a proper suffix of one
    word is glued onto the equal proper prefix of the other. */
module Overlapping {
  import opened Words

  function Min(a: int, b: int): int
  {
    if a <= b then a else b
  }

  function Max(a: int, b: int): int
  {
    if a <= b then b else a
  }

  /** The length-`i` suffix of `u` is the length-`i` prefix of `v`, for one of the `i` the
      Python code's `range(1, min(len(u), len(v)))` visits. */
  predicate OverlapAt(u: Word, v: Word, i: int)
  {
    1 <= i < Min(|u|, |v|) && u[|u| - i..] == v[..i]
  }

  /** `u[:len(u)-i] + v`. */
  function Glue(u: Word, v: Word, i: nat): Word
    requires i <= |u|
  {
    u[..|u| - i] + v
  }

  /** One of the two `for` loops of `overlaps`, from `i` upwards: the glued word for each
      `i` at which `u` and `v` overlap, in ascending order of `i`. */
  function OverlapsFrom(u: Word, v: Word, i: nat): seq<Word>
    decreases |u| - i
  {
    if i >= Min(|u|, |v|) then []
    else (if u[|u| - i..] == v[..i] then [Glue(u, v, i)] else []) + OverlapsFrom(u, v, i + 1)
  }

  /** `overlaps(u, v)`: first every `u`-then-`v` overlap, then every `v`-then-`u` one. */
  function Overlaps(u: Word, v: Word): seq<Word>
  {
    OverlapsFrom(u, v, 1) + OverlapsFrom(v, u, 1)
  }

  /** One loop yields exactly the glued words of the overlaps at `i` or beyond. */
  lemma {:induction false} OverlapsFromSpec(u: Word, v: Word, i: nat)
    requires i >= 1
    ensures forall x :: x in OverlapsFrom(u, v, i) <==> exists k :: i <= k && OverlapAt(u, v, k) && x == Glue(u, v, k)
    decreases |u| - i
  {
    if i < Min(|u|, |v|) {
      var head := if u[|u| - i..] == v[..i] then [Glue(u, v, i)] else [];
      var tail := OverlapsFrom(u, v, i + 1);
      OverlapsFromSpec(u, v, i + 1);
      assert OverlapsFrom(u, v, i) == head + tail;
      forall x | exists k :: i <= k && OverlapAt(u, v, k) && x == Glue(u, v, k)
        ensures x in head + tail
      {
        var k :| i <= k && OverlapAt(u, v, k) && x == Glue(u, v, k);
        if k == i {
          assert x in head;
        } else {
          assert x in tail;
        }
      }
    }
  }

  /** Within one loop, each entry is strictly shorter than the one before: larger `i`
      come later, and the glued word for `i` has length `|u| + |v| - i`. */
  lemma {:induction false} OverlapsFromDescending(u: Word, v: Word, i: nat)
    requires i >= 1
    ensures forall p, q :: 0 <= p < q < |OverlapsFrom(u, v, i)| ==> |OverlapsFrom(u, v, i)[q]| < |OverlapsFrom(u, v, i)[p]|
    decreases |u| - i
  {
    if i < Min(|u|, |v|) {
      var head := if u[|u| - i..] == v[..i] then [Glue(u, v, i)] else [];
      var tail := OverlapsFrom(u, v, i + 1);
      OverlapsFromDescending(u, v, i + 1);
      OverlapsFromSpec(u, v, i + 1);
      assert forall x :: x in tail ==> |x| < |u| + |v| - i;
      assert OverlapsFrom(u, v, i) == head + tail;
    }
  }

  /** Membership in `overlaps(u, v)`: the glued word of some `u`-then-`v` overlap or of some
      `v`-then-`u` overlap, and nothing else. */
  lemma OverlapsSpec(u: Word, v: Word)
    ensures forall x :: x in Overlaps(u, v) <==>
      (exists k :: OverlapAt(u, v, k) && x == Glue(u, v, k)) ||
      (exists k :: OverlapAt(v, u, k) && x == Glue(v, u, k))
  {
    OverlapsFromSpec(u, v, 1);
    OverlapsFromSpec(v, u, 1);
  }

  /** The glued word of an overlap starts with the first word, ends with the second, and is
      strictly longer than either but strictly shorter than both together. */
  lemma GlueShape(u: Word, v: Word, k: nat)
    requires OverlapAt(u, v, k)
    ensures Max(|u|, |v|) < |Glue(u, v, k)| < |u| + |v|
    ensures Glue(u, v, k)[..|u|] == u && Glue(u, v, k)[|Glue(u, v, k)| - |v|..] == v
  {
    var x := Glue(u, v, k);
    assert x[..|u|] == u[..|u| - k] + v[..k];
    assert u == u[..|u| - k] + u[|u| - k..];
  }

  /** Every word of `overlaps(u, v)` has one of the two words as prefix and the other as
      suffix, and its length lies strictly between `max(|u|, |v|)` and `|u| + |v|`. */
  lemma OverlapsShape(u: Word, v: Word)
    ensures forall x :: x in Overlaps(u, v) ==>
      Max(|u|, |v|) < |x| < |u| + |v| &&
      ((x[..|u|] == u && x[|x| - |v|..] == v) || (x[..|v|] == v && x[|x| - |u|..] == u))
  {
    OverlapsSpec(u, v);
    forall x | x in Overlaps(u, v)
      ensures Max(|u|, |v|) < |x| < |u| + |v|
      ensures (x[..|u|] == u && x[|x| - |v|..] == v) || (x[..|v|] == v && x[|x| - |u|..] == u)
    {
      if exists k :: OverlapAt(u, v, k) && x == Glue(u, v, k) {
        var k :| OverlapAt(u, v, k) && x == Glue(u, v, k);
        GlueShape(u, v, k);
      } else {
        var k :| OverlapAt(v, u, k) && x == Glue(v, u, k);
        GlueShape(v, u, k);
      }
    }
  }

  /** `overlaps("aab", "aba") == ["aaba", "abaab"]`, for any two distinct symbols. */
  lemma OverlapsExample(a: char, b: char)
    requires a != b
    ensures Overlaps([a, a, b], [a, b, a]) == [[a, a, b, a], [a, b, a, a, b]]
  {
    ExampleForward(a, b);
    ExampleBackward(a, b);
  }

  lemma ExampleForward(a: char, b: char)
    requires a != b
    ensures OverlapsFrom([a, a, b], [a, b, a], 1) == [[a, a, b, a]]
  {
    var u, v := [a, a, b], [a, b, a];
    assert u[2..] != v[..1] by { assert u[2..][0] != v[..1][0]; }
    assert u[1..] == v[..2];
    assert Glue(u, v, 2) == [a, a, b, a];
    assert OverlapsFrom(u, v, 3) == [];
    assert OverlapsFrom(u, v, 2) == [[a, a, b, a]];
  }

  lemma ExampleBackward(a: char, b: char)
    requires a != b
    ensures OverlapsFrom([a, b, a], [a, a, b], 1) == [[a, b, a, a, b]]
  {
    var u, v := [a, b, a], [a, a, b];
    assert u[2..] == v[..1];
    assert u[1..] != v[..2] by { assert u[1..][0] != v[..2][0]; }
    assert Glue(u, v, 1) == [a, b, a, a, b];
    assert OverlapsFrom(u, v, 3) == [];
    assert OverlapsFrom(u, v, 2) == [];
  }
}
