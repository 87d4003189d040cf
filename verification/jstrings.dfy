/** Java strings as sequences of UTF-16 code units, with the ordering of `String.compareTo`. */
module JStrings {

  /** One UTF-16 code unit (a Java `char`). */
  type JChar = c: int | 0 <= c < 0x1_0000

  /** A Java `String`. */
  type JString = seq<JChar>

  /** Converts a Dafny string literal into code units; characters outside the
      Basic Multilingual Plane become U+FFFD (only used for literals). */
  function Lit(s: string): (r: JString)
    ensures |r| == |s|
    ensures forall i :: 0 <= i < |s| && (s[i] as int) < 0x1_0000 ==> r[i] == s[i] as int
  {
    seq(|s|, i requires 0 <= i < |s| => if (s[i] as int) < 0x1_0000 then s[i] as int else 0xFFFD)
  }

  /** `a.compareTo(b) < 0`: the first differing code unit decides, and a proper
      prefix is smaller. */
  predicate Less(a: JString, b: JString)
  {
    if |a| == 0 then |b| > 0
    else if |b| == 0 then false
    else if a[0] != b[0] then a[0] < b[0]
    else Less(a[1..], b[1..])
  }

  predicate LessEq(a: JString, b: JString)
  {
    a == b || Less(a, b)
  }

  lemma {:induction false} LessIrreflexive(a: JString)
    ensures !Less(a, a)
  {
    if |a| > 0 {
      LessIrreflexive(a[1..]);
    }
  }

  lemma {:induction false} LessAsymmetric(a: JString, b: JString)
    ensures Less(a, b) ==> !Less(b, a)
  {
    if |a| > 0 && |b| > 0 && a[0] == b[0] {
      LessAsymmetric(a[1..], b[1..]);
    }
  }

  lemma {:induction false} LessTransitive(a: JString, b: JString, c: JString)
    requires Less(a, b) && Less(b, c)
    ensures Less(a, c)
  {
    if |a| > 0 && a[0] == b[0] && b[0] == c[0] {
      LessTransitive(a[1..], b[1..], c[1..]);
    }
  }

  lemma {:induction false} LessTotal(a: JString, b: JString)
    ensures a == b || Less(a, b) || Less(b, a)
  {
    if |a| > 0 && |b| > 0 && a[0] == b[0] {
      LessTotal(a[1..], b[1..]);
      if a[1..] == b[1..] {
        assert a == [a[0]] + a[1..] && b == [b[0]] + b[1..];
      }
    }
  }

  /** `Less` is a strict total order on Java strings. */
  lemma LessIsStrictTotalOrder()
    ensures forall a: JString :: !Less(a, a)
    ensures forall a: JString, b: JString :: Less(a, b) ==> !Less(b, a)
    ensures forall a: JString, b: JString, c: JString :: Less(a, b) && Less(b, c) ==> Less(a, c)
    ensures forall a: JString, b: JString :: a == b || Less(a, b) || Less(b, a)
  {
    forall a: JString { LessIrreflexive(a); }
    forall a: JString, b: JString { LessAsymmetric(a, b); }
    forall a: JString, b: JString, c: JString | Less(a, b) && Less(b, c) { LessTransitive(a, b, c); }
    forall a: JString, b: JString { LessTotal(a, b); }
  }

  /** Terms strictly ascending, as a `TreeMap` iterates them. */
  predicate StrictlySorted(ts: seq<JString>)
  {
    forall i, j :: 0 <= i < j < |ts| ==> Less(ts[i], ts[j])
  }

  predicate IsLeast(m: JString, s: set<JString>)
  {
    m in s && forall x :: x in s ==> LessEq(m, x)
  }

  lemma {:induction false} HasLeast(s: set<JString>)
    requires s != {}
    ensures exists m :: IsLeast(m, s)
    decreases |s|
  {
    var x :| x in s;
    if s == {x} {
      assert IsLeast(x, s);
    } else {
      HasLeast(s - {x});
      var m :| IsLeast(m, s - {x});
      LessTotal(x, m);
      if Less(x, m) {
        forall y | y in s ensures LessEq(x, y) {
          if y != x {
            assert LessEq(m, y);
            if m != y { LessTransitive(x, m, y); }
          }
        }
        assert IsLeast(x, s);
      } else {
        assert IsLeast(m, s);
      }
    }
  }

  /** The smallest term of a non-empty set. */
  function MinTerm(s: set<JString>): (m: JString)
    requires s != {}
    ensures IsLeast(m, s)
  {
    HasLeast(s);
    LessIsStrictTotalOrder();
    var m :| IsLeast(m, s);
    m
  }

  /** The least term is the same in any subset that still holds it. */
  lemma MinTermOfSubset(s: set<JString>, u: set<JString>, m: JString)
    requires IsLeast(m, s) && m in u && u <= s
    ensures MinTerm(u) == m
  {
    var k := MinTerm(u);
    assert LessEq(m, k) && LessEq(k, m);
    LessAsymmetric(k, m);
  }

  /** The terms of `s` in ascending order (the iteration order of a `TreeMap`). */
  function SortedTerms(s: set<JString>): (r: seq<JString>)
    ensures StrictlySorted(r)
    ensures |r| == |s|
    ensures forall t :: t in r <==> t in s
    ensures forall i :: 0 <= i < |r| ==> r[i] in s
    decreases |s|
  {
    if s == {} then []
    else
      var m := MinTerm(s);
      var rest := SortedTerms(s - {m});
      assert forall t :: t in rest ==> Less(m, t);
      [m] + rest
  }

  const DOT: JChar := '.' as int

  /** `s.lastIndexOf(c)`, with -1 when `c` does not occur. */
  function LastIndexOf(s: JString, c: JChar): (r: int)
    ensures -1 <= r < |s|
    ensures r >= 0 ==> s[r] == c
    ensures forall i :: r < i < |s| ==> s[i] != c
    decreases |s|
  {
    if |s| == 0 then -1
    else if s[|s| - 1] == c then |s| - 1
    else LastIndexOf(s[..|s| - 1], c)
  }
}
