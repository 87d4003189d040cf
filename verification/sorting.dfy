/** `Collections.sort` on integer lists and the sorted key list of an integer set. */
module Sorting {

  predicate Ascending(s: seq<int>)
  {
    forall i, j :: 0 <= i < j < |s| ==> s[i] <= s[j]
  }

  predicate StrictlyAscending(s: seq<int>)
  {
    forall i, j :: 0 <= i < j < |s| ==> s[i] < s[j]
  }

  /** A value below the head of a strictly ascending list extends it at the front. */
  lemma ConsAscending(x: int, s: seq<int>)
    requires StrictlyAscending(s) && (|s| > 0 ==> x < s[0])
    ensures StrictlyAscending([x] + s)
  {
    var r := [x] + s;
    forall i, j | 0 <= i < j < |r| ensures r[i] < r[j] {
      if i == 0 {
        assert s[0] <= s[j - 1];
      }
    }
  }

  /** A strictly ascending list is its head, which is below every later
      element, followed by a strictly ascending tail. */
  lemma StrictHeadTail(a: seq<int>)
    requires StrictlyAscending(a) && |a| > 0
    ensures StrictlyAscending(a[1..]) && a == [a[0]] + a[1..]
    ensures forall x :: x in a <==> x == a[0] || x in a[1..]
    ensures forall x :: x in a[1..] ==> a[0] < x
  {
    var t := a[1..];
    forall i, j | 0 <= i < j < |t| ensures t[i] < t[j] { assert t[i] == a[i + 1] && t[j] == a[j + 1]; }
    forall x | x in t ensures a[0] < x {
      var k :| 0 <= k < |t| && t[k] == x;
      assert a[k + 1] == x;
    }
  }

  /** Inserts `x` into an ascending list before the first larger-or-equal element. */
  function Insert(x: int, s: seq<int>): (r: seq<int>)
    requires Ascending(s)
    ensures Ascending(r)
    ensures multiset(r) == multiset(s) + multiset{x}
    ensures |r| == |s| + 1
  {
    if |s| == 0 then [x]
    else if x <= s[0] then [x] + s
    else
      var t := Insert(x, s[1..]);
      assert s == [s[0]] + s[1..];
      BoundedBelow(t, s[1..], x, s[0]);
      [s[0]] + t
  }

  /** Every element of a rearrangement of `s` and `x` is at least `lo` when they all are. */
  lemma BoundedBelow(t: seq<int>, s: seq<int>, x: int, lo: int)
    requires multiset(t) == multiset(s) + multiset{x}
    requires x >= lo && forall i :: 0 <= i < |s| ==> s[i] >= lo
    ensures forall k :: 0 <= k < |t| ==> t[k] >= lo
  {
    forall k | 0 <= k < |t| ensures t[k] >= lo {
      assert t[k] in multiset(t);
      if t[k] != x {
        assert t[k] in multiset(s);
      }
    }
  }

  /** The ascending rearrangement of `s` (`Collections.sort`). */
  function Sort(s: seq<int>): (r: seq<int>)
    ensures Ascending(r)
    ensures multiset(r) == multiset(s)
    ensures |r| == |s|
  {
    if |s| == 0 then []
    else
      assert s == s[..|s| - 1] + [s[|s| - 1]];
      Insert(s[|s| - 1], Sort(s[..|s| - 1]))
  }

  /** The head of an ascending list is its least element. */
  lemma HeadIsLeast(a: seq<int>)
    requires Ascending(a) && |a| > 0
    ensures forall x :: x in multiset(a) ==> a[0] <= x
  {
    forall x | x in multiset(a) ensures a[0] <= x {
      assert x in a;
      var k :| 0 <= k < |a| && a[k] == x;
    }
  }

  lemma TailAscending(a: seq<int>)
    requires Ascending(a) && |a| > 0
    ensures Ascending(a[1..])
  {
    var t := a[1..];
    forall i, j | 0 <= i < j < |t| ensures t[i] <= t[j] {
      assert t[i] == a[i + 1] && t[j] == a[j + 1];
    }
  }

  /** An ascending list is determined by its elements: sorting is order-insensitive. */
  lemma {:induction false} AscendingUnique(a: seq<int>, b: seq<int>)
    requires Ascending(a) && Ascending(b)
    requires multiset(a) == multiset(b)
    ensures a == b
    decreases |a|
  {
    assert |a| == |multiset(a)| == |multiset(b)| == |b|;
    if |a| > 0 {
      HeadIsLeast(a);
      HeadIsLeast(b);
      assert a[0] in multiset(a) && b[0] in multiset(b);
      assert a[0] == b[0];
      assert a == [a[0]] + a[1..] && b == [b[0]] + b[1..];
      assert multiset(a) == multiset{a[0]} + multiset(a[1..]);
      assert multiset(b) == multiset{b[0]} + multiset(b[1..]);
      assert multiset(a[1..]) == multiset(a) - multiset{a[0]};
      assert multiset(b[1..]) == multiset(b) - multiset{b[0]};
      TailAscending(a);
      TailAscending(b);
      AscendingUnique(a[1..], b[1..]);
    }
  }

  /** Sorting the same elements in any order gives the same list. */
  lemma SortPermutationInvariant(a: seq<int>, b: seq<int>)
    requires multiset(a) == multiset(b)
    ensures Sort(a) == Sort(b)
  {
    AscendingUnique(Sort(a), Sort(b));
  }

  predicate IsMin(m: int, s: set<int>)
  {
    m in s && forall x :: x in s ==> m <= x
  }

  lemma {:induction false} HasMin(s: set<int>)
    requires s != {}
    ensures exists m :: IsMin(m, s)
    decreases |s|
  {
    if forall y :: y !in s {
      assert false;
    }
    var x :| x in s;
    if s == {x} {
      assert IsMin(x, s);
    } else {
      var s' := s - {x};
      HasMin(s');
      var m :| IsMin(m, s');
      var k := if x < m then x else m;
      forall y | y in s ensures k <= y {
        if y != x { assert y in s'; }
      }
      assert IsMin(k, s);
    }
  }

  function SetMin(s: set<int>): (m: int)
    requires s != {}
    ensures m in s && forall x :: x in s ==> m <= x
  {
    HasMin(s);
    var m :| IsMin(m, s);
    m
  }

  /** The elements of `s` in ascending order (`new ArrayList<>(keySet())` then sort). */
  function SortedSet(s: set<int>): (r: seq<int>)
    ensures StrictlyAscending(r)
    ensures |r| == |s|
    ensures forall x :: x in r <==> x in s
    decreases |s|
  {
    if s == {} then []
    else
      var m := SetMin(s);
      var rest := SortedSet(s - {m});
      [m] + rest
  }
}
