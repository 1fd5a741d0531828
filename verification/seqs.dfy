/** Sequence vocabulary shared by the model: an order-preserving filter,
    the subsequence relation, duplicate-freedom and Python's `list.remove`. */
module Seqs {

  /** No element occurs twice. */
  predicate NoDup<T(==)>(s: seq<T>) {
    forall i, j :: 0 <= i < j < |s| ==> s[i] != s[j]
  }

  /** `s` can be obtained from `t` by deleting elements (order kept). */
  predicate IsSubseq<T(==)>(s: seq<T>, t: seq<T>)
    decreases |t|
  {
    s == [] ||
    (t != [] && ((s[0] == t[0] && IsSubseq(s[1..], t[1..])) || IsSubseq(s, t[1..])))
  }

  /** The elements of `s` that satisfy `p`, in their original order. */
  function Filter<T(==)>(s: seq<T>, p: T -> bool): (r: seq<T>)
    ensures |r| <= |s|
    ensures forall x :: x in r ==> x in s && p(x)
    ensures forall x :: x in s && p(x) ==> x in r
  {
    if s == [] then []
    else if p(s[0]) then [s[0]] + Filter(s[1..], p)
    else Filter(s[1..], p)
  }

  /** How many elements of `s` satisfy `p`. */
  function Count<T(==)>(s: seq<T>, p: T -> bool): nat {
    if s == [] then 0 else (if p(s[0]) then 1 else 0) + Count(s[1..], p)
  }

  /** Where `x` first occurs in `s`. */
  function IndexOf<T(==)>(s: seq<T>, x: T): (k: nat)
    requires x in s
    ensures k < |s| && s[k] == x && x !in s[..k]
  {
    if s[0] == x then 0
    else
      var k := IndexOf(s[1..], x);
      assert s[..k + 1] == [s[0]] + s[1..][..k];
      k + 1
  }

  /** Python's `list.remove(x)` guarded by `x in list`: drops the first
      occurrence of `x` (see `RemoveDropsFirst`), and leaves a list without
      `x` as it is. */
  function Remove<T(==)>(s: seq<T>, x: T): (r: seq<T>)
    ensures x in s ==> |r| == |s| - 1
    ensures x !in s ==> r == s
    ensures forall y :: y in r ==> y in s
    ensures forall y :: y in s && y != x ==> y in r
    ensures NoDup(s) ==> NoDup(r) && x !in r
  {
    if s == [] then []
    else if s[0] == x then s[1..]
    else
      assert NoDup(s) ==> s[0] !in s[1..];
      [s[0]] + Remove(s[1..], x)
  }

  /** Deleting index `k + 1` of `[h] + t` is deleting index `k` of `t`. */
  lemma SpliceCons<T>(h: T, t: seq<T>, k: nat)
    requires k < |t|
    ensures [h] + (t[..k] + t[k + 1..]) == ([h] + t)[..k + 1] + ([h] + t)[k + 2..]
  {
    assert ([h] + t)[..k + 1] == [h] + t[..k];
    assert ([h] + t)[k + 2..] == t[k + 1..];
  }

  /** `Remove` deletes exactly the first occurrence and keeps everything
      else in its order. */
  lemma {:induction false} RemoveDropsFirst<T>(s: seq<T>, x: T)
    requires x in s
    ensures Remove(s, x) == s[..IndexOf(s, x)] + s[IndexOf(s, x) + 1..]
  {
    if s[0] != x {
      var t := s[1..];
      RemoveDropsFirst(t, x);
      SpliceCons(s[0], t, IndexOf(t, x));
      assert [s[0]] + t == s;
    }
  }

  lemma {:induction false} FilterIsSubseq<T>(s: seq<T>, p: T -> bool)
    ensures IsSubseq(Filter(s, p), s)
  {
    if s != [] {
      FilterIsSubseq(s[1..], p);
      if p(s[0]) {
        assert ([s[0]] + Filter(s[1..], p))[1..] == Filter(s[1..], p);
      }
    }
  }

  lemma {:induction false} FilterCount<T>(s: seq<T>, p: T -> bool)
    ensures |Filter(s, p)| == Count(s, p)
  {
    if s != [] {
      FilterCount(s[1..], p);
    }
  }

  lemma {:induction false} FilterNone<T>(s: seq<T>, p: T -> bool)
    requires forall x :: x in s ==> !p(x)
    ensures Filter(s, p) == []
  {
    if s != [] {
      assert s[0] in s;
      FilterNone(s[1..], p);
    }
  }

  lemma {:induction false} FilterAll<T>(s: seq<T>, p: T -> bool)
    requires forall x :: x in s ==> p(x)
    ensures Filter(s, p) == s
  {
    if s != [] {
      assert s[0] in s;
      FilterAll(s[1..], p);
    }
  }

  /** Filters by two predicates that agree everywhere give the same result. */
  lemma {:induction false} FilterExt<T>(s: seq<T>, p: T -> bool, q: T -> bool)
    requires forall x :: p(x) == q(x)
    ensures Filter(s, p) == Filter(s, q)
  {
    if s != [] {
      FilterExt(s[1..], p, q);
    }
  }

  lemma {:induction false} FilterAppend<T>(s: seq<T>, t: seq<T>, p: T -> bool)
    ensures Filter(s + t, p) == Filter(s, p) + Filter(t, p)
  {
    if s == [] {
      assert s + t == t;
    } else {
      var u := s + t;
      assert u != [] && u[0] == s[0] && u[1..] == s[1..] + t;
      FilterAppend(s[1..], t, p);
      if p(s[0]) {
        calc {
          Filter(u, p);
          [s[0]] + Filter(s[1..] + t, p);
          [s[0]] + (Filter(s[1..], p) + Filter(t, p));
          ([s[0]] + Filter(s[1..], p)) + Filter(t, p);
        }
      } else {
        assert Filter(u, p) == Filter(s[1..] + t, p);
      }
    }
  }

  /** Filtering a sequence grown by one element grows the result by that
      element exactly when it satisfies `p`. */
  lemma FilterSnoc<T>(s: seq<T>, x: T, p: T -> bool)
    ensures Filter(s + [x], p) == Filter(s, p) + (if p(x) then [x] else [])
  {
    FilterAppend(s, [x], p);
    assert [x][1..] == [];
  }

  /** Filtering one more element of a prefix. */
  lemma FilterPrefixStep<T>(s: seq<T>, i: nat, p: T -> bool)
    requires i < |s|
    ensures Filter(s[..i + 1], p) == Filter(s[..i], p) + (if p(s[i]) then [s[i]] else [])
  {
    assert s[..i + 1] == s[..i] + [s[i]];
    FilterSnoc(s[..i], s[i], p);
  }

  /** A list grown by the filtered prefix grows by one more step. */
  lemma AppendFilterStep<T>(base: seq<T>, s: seq<T>, i: nat, p: T -> bool)
    requires i < |s|
    ensures base + Filter(s[..i + 1], p) ==
      if p(s[i]) then (base + Filter(s[..i], p)) + [s[i]] else base + Filter(s[..i], p)
  {
    FilterPrefixStep(s, i, p);
    assert base + (Filter(s[..i], p) + [s[i]]) == (base + Filter(s[..i], p)) + [s[i]];
    assert Filter(s[..i], p) + [] == Filter(s[..i], p);
  }

  lemma {:induction false} FilterMultiset<T>(s: seq<T>, p: T -> bool)
    ensures multiset(Filter(s, p)) <= multiset(s)
    ensures forall x :: p(x) ==> multiset(Filter(s, p))[x] == multiset(s)[x]
  {
    if s != [] {
      var t := s[1..];
      FilterMultiset(t, p);
      assert s == [s[0]] + t;
      assert multiset(s) == multiset{s[0]} + multiset(t);
      if p(s[0]) {
        assert multiset(Filter(s, p)) == multiset{s[0]} + multiset(Filter(t, p));
      } else {
        assert multiset(Filter(s, p)) == multiset(Filter(t, p));
      }
    }
  }

  /** Two filters in a row keep what their conjunction keeps. */
  lemma {:induction false} FilterFilter<T>(s: seq<T>, p: T -> bool, q: T -> bool, both: T -> bool)
    requires forall x :: both(x) == (p(x) && q(x))
    ensures Filter(Filter(s, p), q) == Filter(s, both)
  {
    if s != [] {
      FilterFilter(s[1..], p, q, both);
    }
  }

  lemma {:induction false} SubseqRefl<T>(s: seq<T>)
    ensures IsSubseq(s, s)
  {
    if s != [] {
      SubseqRefl(s[1..]);
    }
  }

  lemma {:induction false} SubseqMembers<T>(s: seq<T>, t: seq<T>)
    requires IsSubseq(s, t)
    ensures forall x :: x in s ==> x in t
  {
    if s != [] {
      if s[0] == t[0] && IsSubseq(s[1..], t[1..]) {
        SubseqMembers(s[1..], t[1..]);
        assert s == [s[0]] + s[1..];
      } else {
        SubseqMembers(s, t[1..]);
      }
    }
  }

  /** Dropping the first element of a subsequence keeps it a subsequence. */
  lemma {:induction false} SubseqTail<T>(s: seq<T>, t: seq<T>)
    requires s != [] && IsSubseq(s, t)
    ensures IsSubseq(s[1..], t)
  {
    if s[0] == t[0] && IsSubseq(s[1..], t[1..]) {
    } else {
      SubseqTail(s, t[1..]);
    }
  }

  /** Appending the same element to both sides keeps the relation. */
  lemma {:induction false} SubseqSnoc<T>(s: seq<T>, t: seq<T>, x: T)
    requires IsSubseq(s, t)
    ensures IsSubseq(s + [x], t + [x])
  {
    if t == [] {
      assert s == [];
      assert ([x] + [])[1..] == [];
    } else {
      assert (t + [x])[1..] == t[1..] + [x];
      if s == [] {
        SubseqSnoc(s, t[1..], x);
        assert s + [x] == [x];
      } else if s[0] == t[0] && IsSubseq(s[1..], t[1..]) {
        SubseqSnoc(s[1..], t[1..], x);
        assert (s + [x])[1..] == s[1..] + [x];
      } else {
        SubseqSnoc(s, t[1..], x);
      }
    }
  }

  /** Growing the larger sequence at its end keeps the relation. */
  lemma {:induction false} SubseqExtend<T>(s: seq<T>, t: seq<T>, x: T)
    requires IsSubseq(s, t)
    ensures IsSubseq(s, t + [x])
  {
    if s != [] {
      assert (t + [x])[1..] == t[1..] + [x];
      if s[0] == t[0] && IsSubseq(s[1..], t[1..]) {
        SubseqExtend(s[1..], t[1..], x);
      } else {
        SubseqExtend(s, t[1..], x);
      }
    }
  }

  /** Removing an element from a subsequence keeps it a subsequence. */
  lemma {:induction false} SubseqRemove<T>(s: seq<T>, t: seq<T>, x: T)
    requires IsSubseq(s, t)
    ensures IsSubseq(Remove(s, x), t)
  {
    if s != [] {
      if s[0] == x {
        SubseqTail(s, t);
      } else if s[0] == t[0] && IsSubseq(s[1..], t[1..]) {
        SubseqRemove(s[1..], t[1..], x);
        assert Remove(s, x)[0] == t[0] && Remove(s, x)[1..] == Remove(s[1..], x);
      } else {
        SubseqRemove(s, t[1..], x);
      }
    }
  }

  /** `Remove` on a concatenation whose first part holds `x` acts on that
      part. */
  lemma {:induction false} RemoveAppendLeft<T>(a: seq<T>, b: seq<T>, x: T)
    requires x in a
    ensures Remove(a + b, x) == Remove(a, x) + b
  {
    var t := a[1..];
    assert a + b == [a[0]] + (t + b);
    if a[0] != x {
      RemoveAppendLeft(t, b, x);
      assert [a[0]] + (Remove(t, x) + b) == ([a[0]] + Remove(t, x)) + b;
    }
  }

  /** `Remove` on a concatenation whose first part lacks `x` acts on the
      second part. */
  lemma {:induction false} RemoveAppendRight<T>(a: seq<T>, b: seq<T>, x: T)
    requires x !in a
    ensures Remove(a + b, x) == a + Remove(b, x)
  {
    if a == [] {
      assert a + b == b;
    } else {
      var t := a[1..];
      assert a + b == [a[0]] + (t + b);
      assert a == [a[0]] + t;
      RemoveAppendRight(t, b, x);
      assert [a[0]] + (t + Remove(b, x)) == a + Remove(b, x);
    }
  }

  /** On a duplicate-free list, `Remove` keeps exactly the other elements. */
  lemma {:induction false} RemoveIsFilter<T>(s: seq<T>, x: T, other: T -> bool)
    requires NoDup(s)
    requires forall y :: other(y) == (y != x)
    ensures Remove(s, x) == Filter(s, other)
  {
    if s != [] {
      assert NoDup(s[1..]);
      if s[0] == x {
        assert x !in s[1..];
        FilterAll(s[1..], other);
      } else {
        RemoveIsFilter(s[1..], x, other);
      }
    }
  }

  /** Appending an element not yet present keeps a list duplicate-free. */
  lemma AppendNoDup<T>(s: seq<T>, x: T)
    requires NoDup(s) && x !in s
    ensures NoDup(s + [x])
  {
  }
}
