/** Facts about removing keys from maps and elements from sets, and about
    slicing and concatenating sequences, stated once for every element type so
    that the solver never has to compare the elements. */
module Collections {

  lemma RemoveSwap<K, V>(m: map<K, V>, a: K, b: K)
    ensures m - {a} - {b} == m - {b} - {a}
  {
  }

  lemma RemoveOther<K, V>(m: map<K, V>, a: K, b: K)
    requires b in m && a != b
    ensures b in m - {a} && (m - {a})[b] == m[b]
    ensures (m - {a}).Keys == m.Keys - {a}
  {
  }

  lemma RemoveAbsent<K, V>(m: map<K, V>, a: K)
    requires a !in m
    ensures m - {a} == m
  {
  }

  lemma UpdateThenRemove<K, V>(m: map<K, V>, a: K, v: V)
    ensures m[a := v] - {a} == m - {a}
    ensures a in m[a := v] && m[a := v][a] == v
  {
  }

  lemma UnionRemove<T>(a: set<T>, b: set<T>, m: T)
    ensures (a - {m}) + (b - {m}) == (a + b) - {m}
  {
  }

  lemma TakeSnoc<T>(s: seq<T>, i: int)
    requires 0 <= i < |s|
    ensures s[..i + 1] == s[..i] + [s[i]]
  {
  }

  lemma DropLast<T>(s: seq<T>)
    requires |s| > 0
    ensures s[..|s| - 1] + [s[|s| - 1]] == s
  {
  }

  lemma SliceLeft<T>(a: seq<T>, b: seq<T>, i: int, j: int)
    requires 0 <= i <= j <= |a|
    ensures (a + b)[i..j] == a[i..j]
  {
  }

  lemma SliceRight<T>(a: seq<T>, b: seq<T>, i: int, j: int)
    requires |a| <= i <= j <= |a| + |b|
    ensures (a + b)[i..j] == b[i - |a|..j - |a|]
  {
  }

  lemma DropPrefix<T>(a: seq<T>, b: seq<T>)
    ensures (a + b)[|a|..] == b
  {
  }

  lemma TakeAll<T>(s: seq<T>)
    ensures s[..|s|] == s
  {
  }

  lemma AppendAssoc<T>(a: seq<T>, b: seq<T>, c: seq<T>)
    ensures (a + b) + c == a + (b + c)
  {
  }

  /** A middle part `w + rest` regrouped to either side. */
  lemma Regroup<T>(pre: seq<T>, w: seq<T>, rest: seq<T>, post: seq<T>)
    ensures pre + (w + rest) + post == (pre + w) + rest + post
    ensures pre + (w + rest) + post == pre + w + (rest + post)
  {
  }

  /** A file `pre + whole + post` whose middle is `c1 + x + c2`, seen around `x`. */
  lemma Reassemble<T>(pre: seq<T>, whole: seq<T>, post: seq<T>, c1: seq<T>, x: seq<T>, c2: seq<T>)
    requires whole == c1 + x + c2
    ensures pre + whole + post == (pre + c1) + x + (c2 + post)
  {
  }

  lemma AppendEmpty<T>(a: seq<T>)
    ensures a + [] == a && [] + a == a
  {
  }

  /** The parts of `xs` written one after another. */
  function Concat<T>(xs: seq<seq<T>>): seq<T>
    decreases |xs|
  {
    if |xs| == 0 then [] else xs[0] + Concat(xs[1..])
  }

  /** The last part comes after all the others. */
  lemma ConcatSnoc<T>(xs: seq<seq<T>>)
    requires |xs| > 0
    ensures Concat(xs) == Concat(xs[..|xs| - 1]) + xs[|xs| - 1]
  {
    ConcatSplit(xs, |xs| - 1);
    assert xs[|xs|..] == [];
  }

  /** Part `k` sits between the parts before it and the parts after it. */
  lemma {:induction false} ConcatSplit<T>(xs: seq<seq<T>>, k: int)
    requires 0 <= k < |xs|
    ensures Concat(xs) == Concat(xs[..k]) + xs[k] + Concat(xs[k + 1..])
    decreases k
  {
    if k == 0 {
      assert xs[..0] == [] && xs[1..] == xs[k + 1..];
    } else {
      var t := xs[1..];
      ConcatSplit(t, k - 1);
      assert t[..k - 1] == xs[1..k] && t[k - 1] == xs[k] && t[k..] == xs[k + 1..];
      assert xs[..k][0] == xs[0] && xs[..k][1..] == xs[1..k];
      assert Concat(xs[..k]) == xs[0] + Concat(xs[1..k]);
      Regroup(xs[0], Concat(xs[1..k]) + xs[k], Concat(xs[k + 1..]), []);
    }
  }

  /** One more part makes the prefix longer by that part's length. */
  lemma {:induction false} ConcatTakeLength<T>(xs: seq<seq<T>>, k: int)
    requires 0 <= k < |xs|
    ensures |Concat(xs[..k + 1])| == |Concat(xs[..k])| + |xs[k]|
  {
    var ys := xs[..k + 1];
    ConcatSplit(ys, k);
    assert ys[..k] == xs[..k] && ys[k] == xs[k] && ys[k + 1..] == [];
  }
}
