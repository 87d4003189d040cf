/** The k-way merge of `mergeAndWriteLeafPages`: every block is a stream of
    records in term order; the least current term is taken from every stream
    that holds it, their postings are combined with `mergePostings`, and those
    streams advance. The priority queue is modelled by choosing the least head;
    among streams with equal heads the block order is used (any order gives
    the same postings file, see `Postings.ListingByOccurrences`). */
module Merge {
  import opened JStrings
  import opened Wrappers
  import opened Postings
  import opened Spimi
  import opened Collections

  /** What is left of each block: a suffix of it. */
  type Streams = seq<Block>

  predicate AllAscending(ss: Streams)
  {
    forall i :: 0 <= i < |ss| ==> TermsAscending(ss[i])
  }

  function TotalLength(ss: Streams): nat
  {
    if |ss| == 0 then 0 else TotalLength(ss[..|ss| - 1]) + |ss[|ss| - 1]|
  }

  /** The terms of a block, or of the merge output. */
  function TermSet(b: Block): set<JString>
  {
    set j | 0 <= j < |b| :: b[j].term
  }

  /** Every term still to come in some stream. */
  function AllTerms(ss: Streams): set<JString>
  {
    if |ss| == 0 then {} else AllTerms(ss[..|ss| - 1]) + TermSet(ss[|ss| - 1])
  }

  /** The current term of every stream that is not exhausted (the queue's contents). */
  function HeadTerms(ss: Streams): set<JString>
  {
    set i | 0 <= i < |ss| && |ss[i]| > 0 :: ss[i][0].term
  }

  predicate HeadIs(s: Block, m: JString)
  {
    |s| > 0 && s[0].term == m
  }

  /** The postings of `m` gathered from the streams whose head is `m`, in stream order. */
  function Gather(ss: Streams, m: JString): Postings
  {
    if |ss| == 0 then map[]
    else
      var acc := Gather(ss[..|ss| - 1], m);
      var s := ss[|ss| - 1];
      if HeadIs(s, m) then MergePostings(acc, s[0].postings) else acc
  }

  /** `readNextTerm` on a stream whose head was consumed. */
  function AdvanceOne(s: Block, m: JString): Block
  {
    if HeadIs(s, m) then s[1..] else s
  }

  function Advance(ss: Streams, m: JString): (r: Streams)
    ensures |r| == |ss|
    ensures forall i :: 0 <= i < |ss| ==> r[i] == AdvanceOne(ss[i], m)
  {
    seq(|ss|, i requires 0 <= i < |ss| => AdvanceOne(ss[i], m))
  }

  lemma AdvancePrefix(ss: Streams, m: JString)
    requires |ss| > 0
    ensures Advance(ss, m)[..|ss| - 1] == Advance(ss[..|ss| - 1], m)
  {
  }

  lemma {:induction false} AdvanceLength(ss: Streams, m: JString)
    ensures TotalLength(Advance(ss, m)) <= TotalLength(ss)
    ensures m in HeadTerms(ss) ==> TotalLength(Advance(ss, m)) < TotalLength(ss)
  {
    if |ss| > 0 {
      var init := ss[..|ss| - 1];
      AdvancePrefix(ss, m);
      AdvanceLength(init, m);
      if m in HeadTerms(ss) && !HeadIs(ss[|ss| - 1], m) {
        var i :| 0 <= i < |ss| && |ss[i]| > 0 && ss[i][0].term == m;
        assert i < |ss| - 1 && init[i] == ss[i];
        assert m in HeadTerms(init);
      }
    }
  }

  /** The merge: one record per distinct term, least term first. */
  function MergeStreams(ss: Streams): Block
    decreases TotalLength(ss)
  {
    if HeadTerms(ss) == {} then []
    else
      var m := MinTerm(HeadTerms(ss));
      AdvanceLength(ss, m);
      [BlockRecord(m, Gather(ss, m))] + MergeStreams(Advance(ss, m))
  }

  // ------------------------------------------------------------- reference

  /** The record for `t` in a block, if any. */
  function TermPostings(b: Block, t: JString): Option<Postings>
  {
    if |b| == 0 then None
    else if b[0].term == t then Some(b[0].postings)
    else TermPostings(b[1..], t)
  }

  /** The postings of `t` over all blocks: each block's record for `t` merged in
      block order, starting from nothing. */
  function Combine(ss: Streams, t: JString): Postings
  {
    if |ss| == 0 then map[]
    else
      var acc := Combine(ss[..|ss| - 1], t);
      match TermPostings(ss[|ss| - 1], t)
      case None => acc
      case Some(p) => MergePostings(acc, p)
  }

  // ---------------------------------------------------------------- lemmas

  /** `m` is at or below every term still in the streams. */
  predicate Below(m: JString, ss: Streams)
  {
    forall i, j :: 0 <= i < |ss| && 0 <= j < |ss[i]| ==> LessEq(m, ss[i][j].term)
  }

  /** The least head is the least term of all streams. */
  lemma MinHeadBelow(ss: Streams)
    requires AllAscending(ss) && HeadTerms(ss) != {}
    ensures Below(MinTerm(HeadTerms(ss)), ss)
  {
    var m := MinTerm(HeadTerms(ss));
    forall i, j | 0 <= i < |ss| && 0 <= j < |ss[i]| ensures LessEq(m, ss[i][j].term) {
      assert ss[i][0].term in HeadTerms(ss);
      if j > 0 && m != ss[i][0].term {
        LessTransitive(m, ss[i][0].term, ss[i][j].term);
      }
    }
  }

  lemma {:induction false} TermAbsent(b: Block, t: JString)
    requires forall j :: 0 <= j < |b| ==> b[j].term != t
    ensures TermPostings(b, t) == None
  {
    if |b| > 0 {
      TermAbsent(b[1..], t);
    }
  }

  /** At the least term, only a stream's head can hold it. */
  lemma TermPostingsAtMin(s: Block, m: JString)
    requires TermsAscending(s)
    requires forall j :: 0 <= j < |s| ==> LessEq(m, s[j].term)
    ensures TermPostings(s, m) == if HeadIs(s, m) then Some(s[0].postings) else None
  {
    if |s| > 0 && s[0].term != m {
      var t := s[1..];
      forall j | 0 <= j < |t| ensures t[j].term != m {
        assert t[j] == s[j + 1];
        LessTransitive(m, s[0].term, t[j].term);
        LessIrreflexive(m);
      }
      TermAbsent(t, m);
    }
  }

  lemma {:induction false} GatherCombine(ss: Streams, m: JString)
    requires AllAscending(ss) && Below(m, ss)
    ensures Gather(ss, m) == Combine(ss, m)
  {
    if |ss| > 0 {
      var init := ss[..|ss| - 1];
      var s := ss[|ss| - 1];
      assert forall i :: 0 <= i < |init| ==> init[i] == ss[i];
      GatherCombine(init, m);
      assert forall j :: 0 <= j < |s| ==> LessEq(m, s[j].term);
      TermPostingsAtMin(s, m);
    }
  }

  lemma {:induction false} CombineAdvance(ss: Streams, m: JString, t: JString)
    requires t != m
    ensures Combine(Advance(ss, m), t) == Combine(ss, t)
  {
    if |ss| > 0 {
      AdvancePrefix(ss, m);
      CombineAdvance(ss[..|ss| - 1], m, t);
    }
  }

  /** Consuming the least term removes exactly it, and what remains lies above it. */
  lemma AdvanceOneTerms(s: Block, m: JString)
    requires TermsAscending(s)
    requires forall j :: 0 <= j < |s| ==> LessEq(m, s[j].term)
    ensures TermSet(AdvanceOne(s, m)) == TermSet(s) - {m}
    ensures forall j :: 0 <= j < |AdvanceOne(s, m)| ==> Less(m, AdvanceOne(s, m)[j].term)
    ensures TermsAscending(AdvanceOne(s, m))
  {
    var a := AdvanceOne(s, m);
    if |s| > 0 {
      forall j | 0 <= j < |s| && (j > 0 || s[0].term != m) ensures Less(m, s[j].term) {
        if j > 0 && m != s[0].term {
          LessTransitive(m, s[0].term, s[j].term);
        }
      }
      forall j | 0 <= j < |a| ensures Less(m, a[j].term) {
        if HeadIs(s, m) { assert a[j] == s[j + 1]; }
      }
      LessIrreflexive(m);
      if HeadIs(s, m) {
        assert forall j :: 0 <= j < |a| ==> a[j] == s[j + 1];
        assert TermSet(s) == TermSet(a) + {m} by {
          forall x | x in TermSet(s) ensures x in TermSet(a) + {m} {
            var j :| 0 <= j < |s| && s[j].term == x;
            if j > 0 { assert a[j - 1] == s[j]; }
          }
        }
        assert m !in TermSet(a);
      } else {
        assert m !in TermSet(s);
      }
    }
  }

  lemma {:induction false} AdvanceTerms(ss: Streams, m: JString)
    requires AllAscending(ss) && Below(m, ss)
    ensures AllTerms(Advance(ss, m)) == AllTerms(ss) - {m}
    ensures forall x :: x in AllTerms(Advance(ss, m)) ==> Less(m, x)
    ensures AllAscending(Advance(ss, m))
  {
    if |ss| > 0 {
      var init := ss[..|ss| - 1];
      var s := ss[|ss| - 1];
      assert AllAscending(init) && Below(m, init) by {
        assert forall i :: 0 <= i < |init| ==> init[i] == ss[i];
      }
      AdvancePrefix(ss, m);
      AdvanceTerms(init, m);
      assert forall j :: 0 <= j < |s| ==> LessEq(m, s[j].term);
      AdvanceOneTerms(s, m);
      AboveAll(AdvanceOne(s, m), m);
      UnionRemove(AllTerms(init), TermSet(s), m);
    }
  }

  lemma AboveAll(a: Block, m: JString)
    requires forall j :: 0 <= j < |a| ==> Less(m, a[j].term)
    ensures forall x :: x in TermSet(a) ==> Less(m, x)
  {
  }

  /** Some stream has a head while any term remains. */
  lemma {:induction false} TermsHaveHead(ss: Streams)
    ensures AllTerms(ss) != {} ==> HeadTerms(ss) != {}
  {
    if |ss| > 0 {
      var init := ss[..|ss| - 1];
      var s := ss[|ss| - 1];
      TermsHaveHead(init);
      if |s| > 0 {
        assert s[0].term in HeadTerms(ss);
      } else if AllTerms(init) != {} {
        var y :| y in HeadTerms(init);
        var i :| 0 <= i < |init| && |init[i]| > 0 && init[i][0].term == y;
        assert ss[i] == init[i];
        assert y in HeadTerms(ss);
      } else {
        assert AllTerms(ss) == {};
      }
    }
  }

  lemma {:induction false} HeadsInTerms(ss: Streams)
    ensures HeadTerms(ss) <= AllTerms(ss)
  {
    if |ss| > 0 {
      var init := ss[..|ss| - 1];
      var s := ss[|ss| - 1];
      HeadsInTerms(init);
      forall x | x in HeadTerms(ss) ensures x in AllTerms(ss) {
        var i :| 0 <= i < |ss| && |ss[i]| > 0 && ss[i][0].term == x;
        if i < |ss| - 1 {
          assert init[i] == ss[i];
          assert x in HeadTerms(init);
        } else {
          assert x in TermSet(s);
        }
      }
    }
  }

  lemma TermSetCons(r: BlockRecord, rest: Block)
    ensures TermSet([r] + rest) == {r.term} + TermSet(rest)
  {
    var b := [r] + rest;
    assert b[0] == r;
    forall x | x in TermSet(b) ensures x in {r.term} + TermSet(rest) {
      var j :| 0 <= j < |b| && b[j].term == x;
      if j > 0 { assert b[j] == rest[j - 1]; }
    }
    forall x | x in TermSet(rest) ensures x in TermSet(b) {
      var j :| 0 <= j < |rest| && rest[j].term == x;
      assert b[j + 1] == rest[j];
    }
  }

  lemma ConsAscending(r: BlockRecord, rest: Block)
    requires TermsAscending(rest)
    requires forall x :: x in TermSet(rest) ==> Less(r.term, x)
    ensures TermsAscending([r] + rest)
  {
    var b := [r] + rest;
    forall i, j | 0 <= i < j < |b| ensures Less(b[i].term, b[j].term) {
      assert b[j] == rest[j - 1];
      assert rest[j - 1].term in TermSet(rest);
      if i > 0 { assert b[i] == rest[i - 1]; }
    }
  }

  /** The merge emits every term of the blocks exactly once, strictly ascending. */
  lemma {:induction false} MergeTerms(ss: Streams)
    requires AllAscending(ss)
    ensures TermsAscending(MergeStreams(ss))
    ensures TermSet(MergeStreams(ss)) == AllTerms(ss)
    decreases TotalLength(ss)
  {
    if HeadTerms(ss) == {} {
      TermsHaveHead(ss);
    } else {
      var m := MinTerm(HeadTerms(ss));
      var next := Advance(ss, m);
      AdvanceLength(ss, m);
      MinHeadBelow(ss);
      AdvanceTerms(ss, m);
      MergeTerms(next);
      var r0 := BlockRecord(m, Gather(ss, m));
      HeadsInTerms(ss);
      TermSetCons(r0, MergeStreams(next));
      ConsAscending(r0, MergeStreams(next));
    }
  }

  /** Each emitted term carries the postings of all blocks combined. */
  lemma {:induction false} MergeCombines(ss: Streams)
    requires AllAscending(ss)
    ensures forall k :: 0 <= k < |MergeStreams(ss)| ==>
      MergeStreams(ss)[k].postings == Combine(ss, MergeStreams(ss)[k].term)
    decreases TotalLength(ss)
  {
    if HeadTerms(ss) != {} {
      var out := MergeStreams(ss);
      var m := MinTerm(HeadTerms(ss));
      var next := Advance(ss, m);
      AdvanceLength(ss, m);
      MinHeadBelow(ss);
      AdvanceTerms(ss, m);
      MergeCombines(next);
      MergeTerms(next);
      var rest := MergeStreams(next);
      assert out == [BlockRecord(m, Gather(ss, m))] + rest;
      GatherCombine(ss, m);
      forall k | 1 <= k < |out| ensures out[k].postings == Combine(ss, out[k].term) {
        assert out[k] == rest[k - 1];
        assert rest[k - 1].term in TermSet(rest);
        LessIrreflexive(m);
        CombineAdvance(ss, m, out[k].term);
      }
    }
  }

  // ------------------------------------------------------------ the loop

  lemma HeadTermsSnoc(ss: Streams, i: nat)
    requires i < |ss|
    ensures HeadTerms(ss[..i + 1]) == HeadTerms(ss[..i]) + (if |ss[i]| > 0 then {ss[i][0].term} else {})
  {
    var a := ss[..i];
    var b := ss[..i + 1];
    assert forall k :: 0 <= k < i ==> a[k] == ss[k] && b[k] == ss[k];
    assert b[i] == ss[i];
    forall x | x in HeadTerms(b) ensures x in HeadTerms(a) + (if |ss[i]| > 0 then {ss[i][0].term} else {}) {
      var k :| 0 <= k < |b| && |b[k]| > 0 && b[k][0].term == x;
      if k < i { assert x in HeadTerms(a); }
    }
  }

  /** Adding `x` to a set whose least element is `m`. */
  lemma LeastSnoc(s: set<JString>, m: JString, x: JString)
    requires IsLeast(m, s)
    ensures Less(x, m) ==> IsLeast(x, s + {x})
    ensures !Less(x, m) ==> IsLeast(m, s + {x})
  {
    LessTotal(x, m);
    if Less(x, m) {
      forall y | y in s ensures LessEq(x, y) {
        if y != m { LessTransitive(x, m, y); }
      }
    }
  }

  /** The least current term (`termQueue.poll()`), by a scan of the stream heads. */
  method LeastHead(ss: Streams) returns (found: bool, m: JString)
    ensures found <==> HeadTerms(ss) != {}
    ensures found ==> m == MinTerm(HeadTerms(ss))
  {
    found, m := false, [];
    var i := 0;
    while i < |ss|
      invariant 0 <= i <= |ss|
      invariant found <==> HeadTerms(ss[..i]) != {}
      invariant found ==> IsLeast(m, HeadTerms(ss[..i]))
    {
      HeadTermsSnoc(ss, i);
      if |ss[i]| > 0 {
        var x := ss[i][0].term;
        if !found {
          found, m := true, x;
        } else {
          LeastSnoc(HeadTerms(ss[..i]), m, x);
          if Less(x, m) {
            m := x;
          }
        }
      }
      i := i + 1;
    }
    assert ss[..|ss|] == ss;
    if found {
      MinTermOfSubset(HeadTerms(ss), HeadTerms(ss), m);
    }
  }

  /** `mergedPostings`: the postings of every stream whose current term is `m`. */
  method GatherHeads(ss: Streams, m: JString) returns (merged: Postings)
    ensures merged == Gather(ss, m)
  {
    merged := map[];
    var i := 0;
    while i < |ss|
      invariant 0 <= i <= |ss|
      invariant merged == Gather(ss[..i], m)
    {
      assert ss[..i + 1][..i] == ss[..i];
      if |ss[i]| > 0 && ss[i][0].term == m {
        merged := MergePostings(merged, ss[i][0].postings);
      }
      i := i + 1;
    }
    assert ss[..|ss|] == ss;
  }

  /** `readNextTerm` on every stream that supplied `m`. */
  method AdvanceHeads(ss: Streams, m: JString) returns (next: Streams)
    ensures next == Advance(ss, m)
  {
    next := [];
    var i := 0;
    while i < |ss|
      invariant 0 <= i <= |ss|
      invariant |next| == i
      invariant forall k :: 0 <= k < i ==> next[k] == AdvanceOne(ss[k], m)
    {
      if |ss[i]| > 0 && ss[i][0].term == m {
        next := next + [ss[i][1..]];
      } else {
        next := next + [ss[i]];
      }
      i := i + 1;
    }
  }

  /** One round of the merge: the least head and its gathered postings, then the rest. */
  lemma MergeStep(ss: Streams, m: JString)
    requires AllAscending(ss) && HeadTerms(ss) != {} && m == MinTerm(HeadTerms(ss))
    ensures MergeStreams(ss) == [BlockRecord(m, Gather(ss, m))] + MergeStreams(Advance(ss, m))
    ensures AllAscending(Advance(ss, m))
    ensures TotalLength(Advance(ss, m)) < TotalLength(ss)
  {
    AdvanceLength(ss, m);
    MinHeadBelow(ss);
    AdvanceTerms(ss, m);
  }

  lemma MergeDone(ss: Streams)
    requires HeadTerms(ss) == {}
    ensures MergeStreams(ss) == []
  {
  }

  lemma AppendOne<T>(a: seq<T>, x: T, c: seq<T>)
    ensures (a + [x]) + c == a + ([x] + c)
  {
  }

  /** The merge loop over the block streams: emits one record per distinct term,
      terms strictly ascending, every term of every block, each with the
      postings of all blocks combined. */
  method MergeBlocks(blocks: seq<Block>) returns (out: Block)
    requires AllAscending(blocks)
    ensures out == MergeStreams(blocks)
    ensures TermsAscending(out) && TermSet(out) == AllTerms(blocks)
    ensures forall k :: 0 <= k < |out| ==> out[k].postings == Combine(blocks, out[k].term)
  {
    MergeTerms(blocks);
    MergeCombines(blocks);
    var ss := blocks;
    out := [];
    var found, m := LeastHead(ss);
    while found
      invariant AllAscending(ss)
      invariant out + MergeStreams(ss) == MergeStreams(blocks)
      invariant found <==> HeadTerms(ss) != {}
      invariant found ==> m == MinTerm(HeadTerms(ss))
      decreases TotalLength(ss)
    {
      var merged := GatherHeads(ss, m);
      var next := AdvanceHeads(ss, m);
      MergeStep(ss, m);
      AppendOne(out, BlockRecord(m, merged), MergeStreams(next));
      out := out + [BlockRecord(m, merged)];
      ss := next;
      found, m := LeastHead(ss);
    }
    MergeDone(ss);
  }

  // ----------------------------------------------------- what the merge keeps

  lemma {:induction false} BlockOccAbsent(b: Block, t: JString, d: int)
    requires forall j :: 0 <= j < |b| ==> b[j].term != t
    ensures BlockOcc(b, t, d) == multiset{}
  {
    if |b| > 0 {
      BlockOccAbsent(b[1..], t, d);
    }
  }

  /** The bag of a term's record in a block */
  function RecordOcc(o: Option<Postings>, d: int): multiset<int>
  {
    match o
    case None => multiset{}
    case Some(p) => Occ(p, d)
  }

  lemma {:induction false} TermPostingsOcc(b: Block, t: JString, d: int)
    requires TermsAscending(b)
    ensures RecordOcc(TermPostings(b, t), d) == BlockOcc(b, t, d)
  {
    if |b| > 0 {
      var rest := b[1..];
      assert TermsAscending(rest) by {
        assert forall j :: 0 <= j < |rest| ==> rest[j] == b[j + 1];
      }
      if b[0].term == t {
        forall j | 0 <= j < |rest| ensures rest[j].term != t {
          assert rest[j] == b[j + 1];
          LessIrreflexive(t);
        }
        BlockOccAbsent(rest, t, d);
      } else {
        TermPostingsOcc(rest, t, d);
      }
    }
  }

  /** The merged postings of a term hold, for every document, exactly the
      positions all blocks hold for it. */
  lemma {:induction false} CombineOcc(ss: Streams, t: JString, d: int)
    requires AllAscending(ss)
    ensures Occ(Combine(ss, t), d) == BlocksOcc(ss, t, d)
  {
    if |ss| > 0 {
      var init := ss[..|ss| - 1];
      var s := ss[|ss| - 1];
      assert AllAscending(init) by {
        assert forall i :: 0 <= i < |init| ==> init[i] == ss[i];
      }
      CombineOcc(init, t, d);
      TermPostingsOcc(s, t, d);
      match TermPostings(s, t)
      case None =>
      case Some(p) => OccMerge(Combine(init, t), p, d);
    }
  }

  predicate AllNonEmptyLists(ss: Streams)
  {
    forall i, j :: 0 <= i < |ss| && 0 <= j < |ss[i]| ==> NonEmptyLists(ss[i][j].postings)
  }

  lemma {:induction false} TermPostingsNonEmpty(b: Block, t: JString)
    requires forall j :: 0 <= j < |b| ==> NonEmptyLists(b[j].postings)
    ensures TermPostings(b, t).Some? ==> NonEmptyLists(TermPostings(b, t).value)
  {
    if |b| > 0 && b[0].term != t {
      TermPostingsNonEmpty(b[1..], t);
    }
  }

  lemma {:induction false} CombineNonEmpty(ss: Streams, t: JString)
    requires AllNonEmptyLists(ss)
    ensures NonEmptyLists(Combine(ss, t))
  {
    if |ss| > 0 {
      var init := ss[..|ss| - 1];
      var s := ss[|ss| - 1];
      assert AllNonEmptyLists(init) by {
        assert forall i :: 0 <= i < |init| ==> init[i] == ss[i];
      }
      CombineNonEmpty(init, t);
      TermPostingsNonEmpty(s, t);
      match TermPostings(s, t)
      case None =>
      case Some(p) => MergeNonEmpty(Combine(init, t), p);
    }
  }

  /** A document is listed under a merged term exactly when some block holds a
      position of the term in it. */
  lemma CombineDocs(ss: Streams, t: JString, d: int)
    requires AllAscending(ss) && AllNonEmptyLists(ss)
    ensures d in Combine(ss, t) <==> BlocksOcc(ss, t, d) != multiset{}
  {
    var c := Combine(ss, t);
    CombineOcc(ss, t, d);
    CombineNonEmpty(ss, t);
    if d in c {
      assert c[d][0] in multiset(c[d]);
    }
  }
}
