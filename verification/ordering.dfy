/** `shortlex(list, order)` of LIS4930-knuthbendix.py: Python's stable `sorted` with the key
    `(len(x), x)` when no order is given, and `(len(x), [rank[c] for c in x])` otherwise,
    where `rank = {c: i for i, c in enumerate(order)}`. */
module Ordering {
  import opened Outcomes
  import opened Words

  /** The dictionary comprehension keeps the LAST index at which a symbol appears. */
  function LastIndexOf(order: seq<char>, c: char): (k: nat)
    requires c in order
    ensures k < |order| && order[k] == c
    ensures forall j :: k < j < |order| ==> order[j] != c
  {
    if order[|order| - 1] == c then |order| - 1 else LastIndexOf(order[..|order| - 1], c)
  }

  /** Every symbol of `w` has a rank, so building its key raises no `KeyError`. */
  predicate Ranked(order: Option<seq<char>>, w: Word)
  {
    order.None? || forall i :: 0 <= i < |w| ==> w[i] in order.value
  }

  /** Rank of one symbol: its code point when no order is given (Python compares `str`
      by code point), its index in `order` otherwise. Symbols without a rank never reach
      a comparison (`Shortlex` reports them first); they get -1 here. */
  function Rank(order: Option<seq<char>>, c: char): int
  {
    match order
    case None => c as int
    case Some(o) => if c in o then LastIndexOf(o, c) else -1
  }

  /** The second component of the sort key. */
  function Ranks(order: Option<seq<char>>, w: Word): (r: seq<int>)
    ensures |r| == |w|
    ensures forall i :: 0 <= i < |w| ==> r[i] == Rank(order, w[i])
  {
    if |w| == 0 then [] else [Rank(order, w[0])] + Ranks(order, w[1..])
  }

  /** Python's `a <= b` on lists of integers: lexicographic, a proper prefix first. */
  predicate LexLe(a: seq<int>, b: seq<int>)
  {
    |a| == 0 || (|b| > 0 && (a[0] < b[0] || (a[0] == b[0] && LexLe(a[1..], b[1..]))))
  }

  /** Key comparison: shorter words first, equal lengths by rank sequence. */
  predicate KeyLe(order: Option<seq<char>>, a: Word, b: Word)
  {
    |a| < |b| || (|a| == |b| && LexLe(Ranks(order, a), Ranks(order, b)))
  }

  /** Ascending by key, every pair of positions compared. */
  predicate Sorted(order: Option<seq<char>>, s: seq<Word>)
  {
    forall i, j :: 0 <= i < j < |s| ==> KeyLe(order, s[i], s[j])
  }

  lemma {:induction false} LexLeTotal(a: seq<int>, b: seq<int>)
    ensures LexLe(a, b) || LexLe(b, a)
  {
    if |a| > 0 && |b| > 0 && a[0] == b[0] {
      LexLeTotal(a[1..], b[1..]);
    }
  }

  lemma {:induction false} LexLeTrans(a: seq<int>, b: seq<int>, c: seq<int>)
    requires LexLe(a, b) && LexLe(b, c)
    ensures LexLe(a, c)
  {
    if |a| > 0 && a[0] == b[0] && b[0] == c[0] {
      LexLeTrans(a[1..], b[1..], c[1..]);
    }
  }

  lemma {:induction false} LexLeAntisym(a: seq<int>, b: seq<int>)
    requires LexLe(a, b) && LexLe(b, a)
    ensures a == b
  {
    if |a| > 0 {
      LexLeAntisym(a[1..], b[1..]);
      assert a == [a[0]] + a[1..] && b == [b[0]] + b[1..];
    }
  }

  /** Distinct ranked symbols have distinct ranks (the rank table is injective). */
  lemma RankInjective(order: Option<seq<char>>, c: char, d: char)
    requires order.Some? ==> c in order.value && d in order.value
    requires Rank(order, c) == Rank(order, d)
    ensures c == d
  {
  }

  /** Shortlex is a total preorder on all words ... */
  lemma KeyLeTotalPreorder(order: Option<seq<char>>, a: Word, b: Word, c: Word)
    ensures KeyLe(order, a, b) || KeyLe(order, b, a)
    ensures KeyLe(order, a, b) && KeyLe(order, b, c) ==> KeyLe(order, a, c)
  {
    LexLeTotal(Ranks(order, a), Ranks(order, b));
    if KeyLe(order, a, b) && KeyLe(order, b, c) && |a| == |b| == |c| {
      LexLeTrans(Ranks(order, a), Ranks(order, b), Ranks(order, c));
    }
  }

  /** ... and antisymmetric on ranked words: equal keys mean equal words, so the order
      in which Python's stable sort leaves equal keys is never observable. */
  lemma KeyLeAntisym(order: Option<seq<char>>, a: Word, b: Word)
    requires Ranked(order, a) && Ranked(order, b)
    requires KeyLe(order, a, b) && KeyLe(order, b, a)
    ensures a == b
  {
    LexLeAntisym(Ranks(order, a), Ranks(order, b));
    forall i | 0 <= i < |a|
      ensures a[i] == b[i]
    {
      RankInjective(order, a[i], b[i]);
    }
  }

  /** Insert `w` in front of the first entry it does not follow. */
  function Insert(order: Option<seq<char>>, w: Word, s: seq<Word>): (r: seq<Word>)
    requires Sorted(order, s)
    ensures multiset(r) == multiset(s) + multiset{w}
    ensures Sorted(order, r)
  {
    if |s| == 0 then [w]
    else if KeyLe(order, w, s[0]) then
      InsertInFront(order, w, s);
      [w] + s
    else
      SortedTail(order, s);
      var t := Insert(order, w, s[1..]);
      InsertBehind(order, w, s, t);
      [s[0]] + t
  }

  /** A word key-below the head of a sorted list may go in front of it. */
  lemma InsertInFront(order: Option<seq<char>>, w: Word, s: seq<Word>)
    requires Sorted(order, s) && |s| > 0 && KeyLe(order, w, s[0])
    ensures Sorted(order, [w] + s)
  {
    forall j | 0 <= j < |s|
      ensures KeyLe(order, w, s[j])
    {
      KeyLeTotalPreorder(order, w, s[0], s[j]);
    }
  }

  /** A word not key-below the head goes into the tail; the head stays in front. */
  lemma InsertBehind(order: Option<seq<char>>, w: Word, s: seq<Word>, t: seq<Word>)
    requires Sorted(order, s) && |s| > 0 && !KeyLe(order, w, s[0])
    requires Sorted(order, t) && multiset(t) == multiset(s[1..]) + multiset{w}
    ensures Sorted(order, [s[0]] + t)
    ensures multiset([s[0]] + t) == multiset(s) + multiset{w}
  {
    KeyLeTotalPreorder(order, w, s[0], w);
    forall j | 0 <= j < |t|
      ensures KeyLe(order, s[0], t[j])
    {
      assert t[j] in multiset(t);
      if t[j] != w {
        assert t[j] in multiset(s[1..]);
        var k :| 0 <= k < |s[1..]| && s[1..][k] == t[j];
        assert s[k + 1] == t[j];
      }
    }
    assert s == [s[0]] + s[1..];
  }

  /** Insertion sort: a stable sort by the shortlex key. */
  function SortWords(order: Option<seq<char>>, s: seq<Word>): (r: seq<Word>)
    ensures multiset(r) == multiset(s)
    ensures Sorted(order, r)
  {
    if |s| == 0 then []
    else
      assert s == [s[0]] + s[1..];
      Insert(order, s[0], SortWords(order, s[1..]))
  }

  /** `shortlex(words, order)`: the words in shortlex order, or `None` when `order` is given
      and some word holds a symbol it lacks (Python raises `KeyError` while building keys). */
  function Shortlex(words: seq<Word>, order: Option<seq<char>>): (r: Option<seq<Word>>)
    ensures r.None? <==> exists w :: w in words && !Ranked(order, w)
    ensures r.Some? ==> multiset(r.value) == multiset(words) && Sorted(order, r.value)
    ensures r.Some? ==> forall w :: w in r.value ==> Ranked(order, w)
  {
    if forall w | w in words :: Ranked(order, w) then
      var t := SortWords(order, words);
      assert forall w :: w in t ==> w in multiset(words);
      Some(t)
    else None
  }

  /** The head of a sorted list is key-below every entry. */
  lemma SortedHeadIsLeast(order: Option<seq<char>>, a: seq<Word>, x: Word)
    requires Sorted(order, a) && x in a
    ensures KeyLe(order, a[0], x)
  {
    var k :| 0 <= k < |a| && a[k] == x;
    if k == 0 {
      KeyLeTotalPreorder(order, x, x, x);
    }
  }

  /** Dropping the head keeps a list sorted and takes one copy of the head out. */
  lemma SortedTail(order: Option<seq<char>>, a: seq<Word>)
    requires Sorted(order, a) && |a| > 0
    ensures Sorted(order, a[1..])
    ensures multiset(a[1..]) == multiset(a) - multiset{a[0]}
  {
    assert a == [a[0]] + a[1..];
  }

  /** There is only one sorted arrangement of a list of ranked words. */
  lemma {:induction false} SortedPermutationUnique(order: Option<seq<char>>, a: seq<Word>, b: seq<Word>)
    requires forall w :: w in a ==> Ranked(order, w)
    requires multiset(a) == multiset(b)
    requires Sorted(order, a) && Sorted(order, b)
    ensures a == b
    decreases |a|
  {
    assert |a| == |multiset(a)| == |multiset(b)| == |b|;
    if |a| > 0 {
      SortedHeadsEqual(order, a, b);
      SortedTail(order, a);
      SortedTail(order, b);
      SortedPermutationUnique(order, a[1..], b[1..]);
      assert a == [a[0]] + a[1..] && b == [b[0]] + b[1..];
    }
  }

  /** Two sorted arrangements of the same ranked words start with the same word. */
  lemma SortedHeadsEqual(order: Option<seq<char>>, a: seq<Word>, b: seq<Word>)
    requires forall w :: w in a ==> Ranked(order, w)
    requires multiset(a) == multiset(b) && |a| > 0 && |b| > 0
    requires Sorted(order, a) && Sorted(order, b)
    ensures a[0] == b[0]
  {
    assert a[0] in multiset(b) && b[0] in multiset(a);
    SortedHeadIsLeast(order, a, b[0]);
    SortedHeadIsLeast(order, b, a[0]);
    KeyLeAntisym(order, a[0], b[0]);
  }

  /** `shortlex` returns THE sorted permutation of its input: any list with the same
      entries in shortlex order is equal to it. This is why a model by insertion sort
      agrees with Python's `sorted`, and why sorting twice changes nothing. */
  lemma ShortlexIsTheSortedPermutation(words: seq<Word>, order: Option<seq<char>>, t: seq<Word>)
    requires Shortlex(words, order).Some?
    requires multiset(t) == multiset(words) && Sorted(order, t)
    ensures Shortlex(words, order).value == t
  {
    SortedPermutationUnique(order, Shortlex(words, order).value, t);
  }

  /** Sorting a shortlex-sorted list returns it unchanged. */
  lemma ShortlexSortedIsFixed(words: seq<Word>, order: Option<seq<char>>)
    requires forall w :: w in words ==> Ranked(order, w)
    requires Sorted(order, words)
    ensures Shortlex(words, order) == Some(words)
  {
    ShortlexIsTheSortedPermutation(words, order, words);
  }

  /** In every shortlex result a shorter word comes before a longer one, whatever
      their symbols. */
  lemma ShortlexShorterFirst(words: seq<Word>, order: Option<seq<char>>)
    requires Shortlex(words, order).Some?
    ensures var r := Shortlex(words, order).value;
            forall i, j :: 0 <= i < |r| && 0 <= j < |r| && |r[i]| < |r[j]| ==> i < j
  {
  }

  /** The two-word example from Python's string order: `shortlex(["ba", "b", "ab"])`
      is `["b", "ab", "ba"]`. */
  lemma ShortlexExample()
    ensures Shortlex(["ba", "b", "ab"], None) == Some(["b", "ab", "ba"])
  {
    ExampleSorted();
    ShortlexIsTheSortedPermutation(["ba", "b", "ab"], None, ["b", "ab", "ba"]);
  }

  lemma ExampleSorted()
    ensures multiset(["b", "ab", "ba"]) == multiset(["ba", "b", "ab"])
    ensures Sorted(None, ["b", "ab", "ba"])
  {
    var t := ["b", "ab", "ba"];
    assert KeyLe(None, "ab", "ba") by {
      assert Ranks(None, "ab") == ['a' as int, 'b' as int];
      assert Ranks(None, "ba") == ['b' as int, 'a' as int];
    }
    assert KeyLe(None, t[0], t[1]) && KeyLe(None, t[0], t[2]);
  }
}
