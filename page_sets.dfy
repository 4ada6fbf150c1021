/**
 * Page indices as ordered lists and as sets, and Python's `sorted(set(xs))`
 * on integer page indices.
 */
module PageSets {

  /** Every element is larger than the one before it: ascending, no duplicates. */
  predicate StrictlyAscending(s: seq<int>)
  {
    forall i, j :: 0 <= i < j < |s| ==> s[i] < s[j]
  }

  /** Appending an element above every element keeps a list strictly ascending. */
  lemma AppendAscending(s: seq<int>, x: int)
    requires StrictlyAscending(s)
    requires forall y :: y in s ==> y < x
    ensures StrictlyAscending(s + [x])
  {
    forall i, j | 0 <= i < j < |s| + 1
      ensures (s + [x])[i] < (s + [x])[j]
    {
      if j == |s| {
        assert s[i] in s;
      }
    }
  }

  /** The elements of a list, as a set (Python's `set(xs)`). */
  function Elems(s: seq<int>): set<int>
  {
    set x | x in s
  }

  /** `p` is a page index of a document with `n` pages. */
  predicate IsPage(p: int, n: int)
  {
    0 <= p < n
  }

  /** The elements of a concatenation are those of its two parts. */
  lemma ElemsConcat(a: seq<int>, b: seq<int>)
    ensures Elems(a + b) == Elems(a) + Elems(b)
  {
    forall x | x in a + b
      ensures x in a || x in b
    {
    }
  }

  /** Taking one more element of a list adds exactly that element to the prefix's elements. */
  lemma ElemsPrefixStep(s: seq<int>, i: nat)
    requires i < |s|
    ensures Elems(s[..i + 1]) == Elems(s[..i]) + {s[i]}
  {
    assert s[..i + 1] == s[..i] + [s[i]];
    ElemsConcat(s[..i], [s[i]]);
  }

  /**
   * The page indices of a document with `n` pages: `range(n)`. The explicit
   * bound lets Dafny see the set is finite; `IsPage` gives the comprehension
   * a term to trigger on.
   */
  function Range(n: int): set<int>
  {
    set p | 0 <= p < n && IsPage(p, n)
  }

  lemma {:induction false} RangeSize(n: nat)
    ensures |Range(n)| == n
  {
    if n > 0 {
      RangeSize(n - 1);
      assert Range(n) == Range(n - 1) + {n - 1};
    }
  }

  lemma HasElement(s: set<int>)
    requires s != {}
    ensures exists x :: x in s
  {
    if forall x :: x !in s {
      assert false;
    }
  }

  lemma {:induction false} HasMinimum(s: set<int>)
    requires s != {}
    ensures exists m :: m in s && forall x :: x in s ==> m <= x
    decreases |s|
  {
    HasElement(s);
    var y :| y in s;
    if s == {y} {
      forall x | x in s
        ensures y <= x
      {
        assert x in {y};
      }
    } else {
      var rest := s - {y};
      HasMinimum(rest);
      var m :| m in rest && forall x :: x in rest ==> m <= x;
      var least := if y < m then y else m;
      forall x | x in s
        ensures least <= x
      {
        if x != y {
          assert x in rest;
        }
      }
      assert least in s;
    }
  }

  /** The least element of a non-empty set of indices. */
  function MinOf(s: set<int>): (m: int)
    requires s != {}
    ensures m in s && forall x :: x in s ==> m <= x
  {
    HasMinimum(s);
    var m :| m in s && forall x :: x in s ==> m <= x;
    m
  }

  /** `sorted(s)` for a set: its elements in ascending order, each once. */
  function SortedSet(s: set<int>): (r: seq<int>)
    ensures StrictlyAscending(r)
    ensures forall x :: x in r <==> x in s
    ensures |r| == |s|
    decreases |s|
  {
    if s == {} then []
    else
      var m := MinOf(s);
      [m] + SortedSet(s - {m})
  }

  /** The head of a strictly ascending list is below every other element, which make up the tail. */
  lemma HeadAndTail(a: seq<int>, x: int)
    requires StrictlyAscending(a) && a != []
    ensures x in a ==> a[0] <= x
    ensures x in a[1..] <==> x in a && x != a[0]
  {
    if x in a {
      var i :| 0 <= i < |a| && a[i] == x;
      if i > 0 {
        assert a[0] < a[i];
        assert a[i] == a[1..][i - 1];
      }
    }
  }

  /** Two ascending duplicate-free lists with the same elements are the same list. */
  lemma {:induction false} AscendingUnique(a: seq<int>, b: seq<int>)
    requires StrictlyAscending(a) && StrictlyAscending(b)
    requires forall x :: x in a <==> x in b
    ensures a == b
  {
    if a != [] {
      var a0 := a[0];
      assert a0 in a;
      assert b != [];
    }
    if b != [] {
      var b0 := b[0];
      assert b0 in b;
      assert a != [];
    }
    if a != [] {
      var a0, b0 := a[0], b[0];
      assert a0 in a && b0 in b;
      HeadAndTail(a, b0);
      HeadAndTail(b, a0);
      assert a0 == b0;
      var ta, tb := a[1..], b[1..];
      assert StrictlyAscending(ta) && StrictlyAscending(tb);
      forall x
        ensures x in ta <==> x in tb
      {
        HeadAndTail(a, x);
        HeadAndTail(b, x);
      }
      AscendingUnique(ta, tb);
      assert a == [a0] + ta;
      assert b == [b0] + tb;
    }
  }

  /** `set(sorted(s))` gives `s` back. */
  lemma ElemsOfSorted(s: set<int>)
    ensures Elems(SortedSet(s)) == s
  {
  }

  /** `sorted` of a two-element set. */
  lemma SortedPair(s: set<int>, x: int, y: int)
    requires s == {x, y} && x < y
    ensures SortedSet(s) == [x, y]
  {
    AscendingUnique(SortedSet(s), [x, y]);
  }

  /** `sorted(set(xs))` of a list that is already ascending gives the list back. */
  lemma SortedOfAscending(s: seq<int>)
    requires StrictlyAscending(s)
    ensures SortedSet(Elems(s)) == s
  {
    AscendingUnique(SortedSet(Elems(s)), s);
  }
}
