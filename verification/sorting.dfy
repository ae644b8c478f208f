/** Python's `sorted(..., key=...)` and `list.sort()`: a stable sort by an
    integer key, written as an insertion sort over sequences. */
module Sorting {

  ghost predicate SortedBy<T>(s: seq<T>, key: T -> int)
  {
    forall i, j :: 0 <= i < j < |s| ==> key(s[i]) <= key(s[j])
  }

  /** Inserts x after every element whose key is at most key(x), which keeps
      equal keys in arrival order. */
  function Insert<T>(s: seq<T>, x: T, key: T -> int): (r: seq<T>)
    requires SortedBy(s, key)
    ensures SortedBy(r, key)
    ensures multiset(r) == multiset(s) + multiset{x}
    ensures |r| == |s| + 1
    decreases |s|
  {
    if |s| == 0 || key(s[|s| - 1]) <= key(x) then
      s + [x]
    else
      var init, last := s[..|s| - 1], s[|s| - 1];
      assert s == init + [last];
      var r' := Insert(init, x, key);
      assert forall k :: 0 <= k < |init| ==> key(init[k]) <= key(last) by {
        forall k | 0 <= k < |init|
          ensures key(init[k]) <= key(last)
        {
          assert s[k] == init[k];
        }
      }
      BoundedByMultiset(r', init, x, key, key(last));
      r' + [last]
  }

  /** A sequence holding the elements of s and x has its keys bounded by any
      bound on the keys of s and x. */
  lemma BoundedByMultiset<T>(r: seq<T>, s: seq<T>, x: T, key: T -> int, b: int)
    requires multiset(r) == multiset(s) + multiset{x}
    requires forall k :: 0 <= k < |s| ==> key(s[k]) <= b
    requires key(x) <= b
    ensures forall i :: 0 <= i < |r| ==> key(r[i]) <= b
  {
    forall i | 0 <= i < |r|
      ensures key(r[i]) <= b
    {
      assert r[i] in multiset(r);
      if r[i] != x {
        assert r[i] in multiset(s);
        var k :| 0 <= k < |s| && s[k] == r[i];
      }
    }
  }

  function SortBy<T>(s: seq<T>, key: T -> int): (r: seq<T>)
    ensures SortedBy(r, key)
    ensures multiset(r) == multiset(s)
    ensures |r| == |s|
    decreases |s|
  {
    if |s| == 0 then []
    else
      assert s == s[..|s| - 1] + [s[|s| - 1]];
      Insert(SortBy(s[..|s| - 1], key), s[|s| - 1], key)
  }

  /** Sorting keeps exactly the elements it was given. */
  lemma SortByMembers<T>(s: seq<T>, key: T -> int, x: T)
    ensures x in SortBy(s, key) <==> x in s
  {
    var r := SortBy(s, key);
    assert x in r <==> x in multiset(r);
    assert x in s <==> x in multiset(s);
  }

  // ---------------------------------------------------------------------
  // Counting, for order statistics

  /** How many elements of s satisfy f. */
  function CountIf<T>(s: seq<T>, f: T -> bool): (c: nat)
    ensures c <= |s|
  {
    if |s| == 0 then 0 else CountIf(s[..|s| - 1], f) + (if f(s[|s| - 1]) then 1 else 0)
  }

  lemma {:induction false} CountAppend<T>(a: seq<T>, b: seq<T>, f: T -> bool)
    ensures CountIf(a + b, f) == CountIf(a, f) + CountIf(b, f)
    decreases |b|
  {
    if |b| == 0 {
      assert a + b == a;
    } else {
      assert (a + b)[..|a + b| - 1] == a + b[..|b| - 1];
      CountAppend(a, b[..|b| - 1], f);
    }
  }

  lemma {:induction false} CountAll<T>(s: seq<T>, f: T -> bool)
    requires forall i :: 0 <= i < |s| ==> f(s[i])
    ensures CountIf(s, f) == |s|
  {
    if |s| > 0 {
      CountAll(s[..|s| - 1], f);
    }
  }

  lemma {:induction false} CountNone<T>(s: seq<T>, f: T -> bool)
    requires forall i :: 0 <= i < |s| ==> !f(s[i])
    ensures CountIf(s, f) == 0
  {
    if |s| > 0 {
      CountNone(s[..|s| - 1], f);
    }
  }

  /** A weaker condition is met at least as often. */
  lemma {:induction false} CountMonotone<T>(s: seq<T>, f: T -> bool, g: T -> bool)
    requires forall i :: 0 <= i < |s| ==> f(s[i]) ==> g(s[i])
    ensures CountIf(s, f) <= CountIf(s, g)
  {
    if |s| > 0 {
      CountMonotone(s[..|s| - 1], f, g);
    }
  }

  /** Taking the same element out of two equal multisets leaves equal
      multisets. */
  lemma RemoveOne<T>(init: seq<T>, e: T, pre: seq<T>, post: seq<T>)
    requires multiset(init + [e]) == multiset(pre + [e] + post)
    ensures multiset(init) == multiset(pre + post)
  {
    var m1, m2 := multiset(init), multiset(pre + post);
    assert multiset(init + [e]) == m1 + multiset{e};
    assert pre + [e] + post == pre + ([e] + post);
    assert multiset(pre + [e] + post) == m2 + multiset{e};
    forall z ensures m1[z] == m2[z] {
      assert (m1 + multiset{e})[z] == (m2 + multiset{e})[z];
    }
  }

  /** A count depends only on the elements, not on their order. */
  lemma {:induction false} CountPermutation<T>(a: seq<T>, b: seq<T>, f: T -> bool)
    requires multiset(a) == multiset(b)
    ensures CountIf(a, f) == CountIf(b, f)
    decreases |a|
  {
    if |a| == 0 {
      assert |multiset(b)| == 0;
    } else {
      var init, e := a[..|a| - 1], a[|a| - 1];
      assert a == init + [e];
      assert e in multiset(b);
      var j :| 0 <= j < |b| && b[j] == e;
      var pre, post := b[..j], b[j + 1..];
      assert b == pre + [e] + post;
      RemoveOne(init, e, pre, post);
      CountPermutation(init, pre + post, f);
      CountAppend(pre, post, f);
      CountAppend(pre, [e], f);
      CountAppend(pre + [e], post, f);
      assert CountIf([e], f) == (if f(e) then 1 else 0) by {
        assert [e][..0] == [];
      }
    }
  }
}
