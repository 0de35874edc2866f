/** Python list operations the engine relies on, over immutable sequences. */
module Lists {

  /** `a` is obtained from `b` by deleting entries (order kept). */
  predicate SubseqOf<T(==)>(a: seq<T>, b: seq<T>)
    decreases |b|
  {
    |a| == 0 || (|b| > 0 && ((a[0] == b[0] && SubseqOf(a[1..], b[1..])) || SubseqOf(a, b[1..])))
  }

  /** No value occurs at two positions. */
  predicate NoDuplicates<T(==)>(s: seq<T>)
  {
    forall i, j :: 0 <= i < j < |s| ==> s[i] != s[j]
  }

  lemma SubseqRefl<T>(a: seq<T>)
    ensures SubseqOf(a, a)
  {
    if |a| > 0 {
      SubseqRefl(a[1..]);
    }
  }

  /** Deleting one entry gives a subsequence. */
  lemma SubseqDrop<T>(p: seq<T>, x: T, q: seq<T>)
    ensures SubseqOf(p + q, p + [x] + q)
    decreases |p|
  {
    if |p| == 0 {
      SubseqRefl(q);
      assert (p + [x] + q)[1..] == q;
      assert p + q == q;
    } else {
      SubseqDrop(p[1..], x, q);
      assert (p + q)[1..] == p[1..] + q;
      assert (p + [x] + q)[1..] == p[1..] + [x] + q;
    }
  }

  lemma {:induction false} SubseqTrans<T>(a: seq<T>, b: seq<T>, c: seq<T>)
    requires SubseqOf(a, b) && SubseqOf(b, c)
    ensures SubseqOf(a, c)
    decreases |a| + |b| + |c|
  {
    if |a| == 0 {
    } else if SubseqOf(b, c[1..]) {
      SubseqTrans(a, b, c[1..]);
    } else {
      assert b[0] == c[0] && SubseqOf(b[1..], c[1..]);
      if a[0] == b[0] && SubseqOf(a[1..], b[1..]) {
        SubseqTrans(a[1..], b[1..], c[1..]);
      } else {
        SubseqTrans(a, b[1..], c[1..]);
      }
    }
  }

  /** A subsequence never holds more copies of a value than the sequence it comes from. */
  lemma {:induction false} SubseqMultiset<T>(a: seq<T>, b: seq<T>)
    requires SubseqOf(a, b)
    ensures multiset(a) <= multiset(b)
    decreases |b|
  {
    if |a| == 0 {
    } else if a[0] == b[0] && SubseqOf(a[1..], b[1..]) {
      SubseqMultiset(a[1..], b[1..]);
      assert a == [a[0]] + a[1..];
      assert b == [b[0]] + b[1..];
    } else {
      SubseqMultiset(a, b[1..]);
      assert b == [b[0]] + b[1..];
    }
  }

  lemma SubseqMembers<T>(a: seq<T>, b: seq<T>)
    requires SubseqOf(a, b)
    ensures |a| <= |b|
    ensures forall x :: x in a ==> x in b
  {
    SubseqMultiset(a, b);
    assert |multiset(a)| <= |multiset(b)|;
    forall x | x in a
      ensures x in b
    {
      assert x in multiset(a);
    }
  }

  /** Distinct positions hold distinct values exactly when no value is counted twice. */
  lemma {:induction false} NoDuplicatesCount<T>(s: seq<T>)
    ensures NoDuplicates(s) <==> forall x :: multiset(s)[x] <= 1
  {
    if |s| == 0 {
    } else {
      NoDuplicatesCount(s[1..]);
      assert s == [s[0]] + s[1..];
      assert multiset(s) == multiset{s[0]} + multiset(s[1..]);
      if NoDuplicates(s) {
        assert NoDuplicates(s[1..]) by {
          forall i, j | 0 <= i < j < |s[1..]|
            ensures s[1..][i] != s[1..][j]
          {
            assert s[i + 1] != s[j + 1];
          }
        }
        assert s[0] !in s[1..] by {
          forall k | 0 <= k < |s[1..]|
            ensures s[1..][k] != s[0]
          {
            assert s[0] != s[k + 1];
          }
        }
      }
      if forall x :: multiset(s)[x] <= 1 {
        assert forall x :: multiset(s[1..])[x] <= multiset(s)[x];
        assert s[0] !in multiset(s[1..]);
        forall i, j | 0 <= i < j < |s|
          ensures s[i] != s[j]
        {
          if i == 0 {
            assert s[j] == s[1..][j - 1];
            assert s[j] in multiset(s[1..]);
          } else {
            assert s[i] == s[1..][i - 1] && s[j] == s[1..][j - 1];
          }
        }
      }
    }
  }

  /** Python's `list.index(x)`: the position of the leftmost copy of `x`
      (the Python code calls it only on values it knows to be present). */
  function IndexOf<T(==)>(s: seq<T>, x: T): (i: nat)
    requires x in s
    ensures i < |s| && s[i] == x
    ensures forall j :: 0 <= j < i ==> s[j] != x
  {
    if s[0] == x then 0 else 1 + IndexOf(s[1..], x)
  }

  /** Python's `list.remove(x)`: delete the leftmost copy of `x`. */
  function RemoveFirst<T(==)>(s: seq<T>, x: T): (r: seq<T>)
    requires x in s
    ensures |r| == |s| - 1
  {
    var i := IndexOf(s, x);
    s[..i] + s[i + 1..]
  }

  /** `list.remove(x)` deletes exactly one entry, a copy of `x`, and keeps the order of
      the others. */
  lemma RemoveFirstSpec<T>(s: seq<T>, x: T)
    requires x in s
    ensures multiset(RemoveFirst(s, x)) == multiset(s) - multiset{x}
    ensures SubseqOf(RemoveFirst(s, x), s)
  {
    var i := IndexOf(s, x);
    assert s == s[..i] + [x] + s[i + 1..];
    SubseqDrop(s[..i], x, s[i + 1..]);
  }

  /** `for k in range(1, n + 1): list.remove(x)`: delete the first `n` copies of `x`. */
  function RemoveCopies<T(==)>(s: seq<T>, x: T, n: nat): (r: seq<T>)
    requires multiset(s)[x] >= n
    ensures |r| == |s| - n
    decreases n
  {
    if n == 0 then s
    else
      assert x in multiset(s);
      RemoveFirstSpec(s, x);
      RemoveCopies(RemoveFirst(s, x), x, n - 1)
  }

  /** `n` removals of `x` delete exactly `n` copies of `x` and nothing else ... */
  lemma {:induction false} RemoveCopiesCount<T>(s: seq<T>, x: T, n: nat)
    requires multiset(s)[x] >= n
    ensures multiset(RemoveCopies(s, x, n))[x] == multiset(s)[x] - n
    ensures forall y :: y != x ==> multiset(RemoveCopies(s, x, n))[y] == multiset(s)[y]
    decreases n
  {
    if n > 0 {
      assert x in multiset(s);
      var s' := RemoveFirst(s, x);
      RemoveFirstStep(s, x);
      RemoveCopiesCount(s', x, n - 1);
    }
  }

  /** `list.remove(x)` takes one copy of `x` and leaves every other count alone. */
  lemma RemoveFirstStep<T>(s: seq<T>, x: T)
    requires x in s
    ensures multiset(RemoveFirst(s, x))[x] == multiset(s)[x] - 1
    ensures forall y :: y != x ==> multiset(RemoveFirst(s, x))[y] == multiset(s)[y]
  {
    RemoveFirstSpec(s, x);
  }

  /** Removing fewer copies of `x` than there are loses no value. */
  lemma RemoveCopiesKeeps<T>(s: seq<T>, x: T, n: nat)
    requires multiset(s)[x] > n
    ensures forall y :: y in s ==> y in RemoveCopies(s, x, n)
  {
    RemoveCopiesCount(s, x, n);
    forall y | y in s
      ensures y in RemoveCopies(s, x, n)
    {
      assert y in multiset(s);
      assert y in multiset(RemoveCopies(s, x, n));
    }
  }

  /** In a list of copies of `x` every entry is counted. */
  lemma {:induction false} CountConstant<T>(s: seq<T>, x: T)
    requires forall i :: 0 <= i < |s| ==> s[i] == x
    ensures multiset(s)[x] == |s|
  {
    if |s| > 0 {
      assert s == [s[0]] + s[1..];
      CountConstant(s[1..], x);
    }
  }

  /** In a list of copies of `x`, removing `k` copies drops the first `k` entries. */
  lemma {:induction false} RemoveCopiesConstant<T>(s: seq<T>, x: T, k: nat)
    requires forall i :: 0 <= i < |s| ==> s[i] == x
    requires multiset(s)[x] >= k && k <= |s|
    ensures RemoveCopies(s, x, k) == s[k..]
    decreases k
  {
    if k > 0 {
      assert IndexOf(s, x) == 0;
      var s' := RemoveFirst(s, x);
      assert s' == s[1..];
      CountConstant(s', x);
      RemoveCopiesConstant(s', x, k - 1);
      assert s'[k - 1..] == s[k..];
    }
  }

  /** ... and keep the order of what remains. */
  lemma {:induction false} RemoveCopiesSubseq<T>(s: seq<T>, x: T, n: nat)
    requires multiset(s)[x] >= n
    ensures SubseqOf(RemoveCopies(s, x, n), s)
    decreases n
  {
    if n == 0 {
      SubseqRefl(s);
    } else {
      assert x in multiset(s);
      var s' := RemoveFirst(s, x);
      RemoveFirstSpec(s, x);
      var r := RemoveCopies(s', x, n - 1);
      assert RemoveCopies(s, x, n) == r;
      RemoveCopiesSubseq(s', x, n - 1);
      SubseqTrans(r, s', s);
      assert SubseqOf(r, s);
    }
  }

  /** `list.remove(x)` deletes position `i` when `i` holds the leftmost copy of `x`. */
  lemma RemoveFirstAt<T>(s: seq<T>, x: T, i: nat)
    requires i < |s| && s[i] == x && forall j :: 0 <= j < i ==> s[j] != x
    ensures RemoveFirst(s, x) == s[..i] + s[i + 1..]
  {
  }

  /** Removing one copy is one `list.remove`. */
  lemma RemoveCopiesOne<T>(s: seq<T>, x: T)
    requires x in s
    ensures RemoveCopies(s, x, 1) == RemoveFirst(s, x)
  {
    assert x in multiset(s);
    var s' := RemoveFirst(s, x);
    RemoveFirstSpec(s, x);
    assert RemoveCopies(s', x, 0) == s';
  }

  /** Two values with the same multiset as `c, d` are `c, d` in one order or the other. */
  lemma PairMultiset<T>(a: T, b: T, c: T, d: T)
    requires multiset{a, b} == multiset{c, d}
    ensures (a == c && b == d) || (a == d && b == c)
  {
    assert a in multiset{c, d};
    if a == c {
      assert multiset{b} == multiset{a, b} - multiset{a} == multiset{d};
      assert b in multiset{d};
    } else {
      assert multiset{b} == multiset{a, b} - multiset{a} == multiset{c};
      assert b in multiset{c};
    }
  }
}
