/** Posting lists of one term: document id to the positions of the term in it.
    Covers `mergePostings` and `writePostingsToFile` of the builder and
    `loadPostings` of the searcher. */
module Postings {
  import opened Wrappers
  import opened Utf
  import opened DataStream
  import opened Sorting
  import Collections

  /** `Map<Integer, List<Integer>>`: document id to positions. */
  type Postings = map<int, seq<int>>

  /** One record as the searcher reads it back. */
  datatype PostingEntry = PostingEntry(docId: int, positions: seq<int>)

  /** Bytes of one document record in the postings file, and also the memory the
      builder charges for one document under a term: id, count, 4 bytes per position. */
  function DocCost(ps: seq<int>): nat
  {
    8 + 4 * |ps|
  }

  /** The sum of `DocCost` over all documents of `p`. */
  function DocsCost(p: Postings): nat
    decreases |p.Keys|
  {
    if p.Keys == {} then 0
    else
      var d := SetMin(p.Keys);
      DocCost(p[d]) + DocsCost(p - {d})
  }

  /** The least element is the same in any subset that still holds it. */
  lemma SetMinOfSubset(s: set<int>, t: set<int>, m: int)
    requires IsMin(m, s) && m in t && t <= s
    ensures SetMin(t) == m
  {
    var k := SetMin(t);
    assert k in s;
  }

  /** Any document can be taken out of the sum. */
  lemma {:induction false} DocsCostRemove(p: Postings, d: int)
    requires d in p
    ensures DocsCost(p) == DocCost(p[d]) + DocsCost(p - {d})
    decreases |p.Keys|
  {
    var m := SetMin(p.Keys);
    if m != d {
      var pm := p - {m};
      var pd := p - {d};
      assert d in pm && pm[d] == p[d];
      DocsCostRemove(pm, d);
      assert IsMin(m, p.Keys);
      SetMinOfSubset(p.Keys, pd.Keys, m);
      assert pd.Keys != {};
      assert pd[m] == p[m];
      assert pd - {m} == pm - {d};
    }
  }

  /** Replacing or adding one document changes the sum by the difference of its costs. */
  lemma DocsCostUpdate(p: Postings, d: int, ps: seq<int>)
    ensures DocsCost(p[d := ps]) == DocsCost(p) - (if d in p then DocCost(p[d]) else 0) + DocCost(ps)
  {
    var q := p[d := ps];
    DocsCostRemove(q, d);
    assert q - {d} == p - {d};
    if d in p {
      DocsCostRemove(p, d);
    } else {
      assert p - {d} == p;
    }
  }

  /** The positions `p` holds for `d`, as a bag (none when `d` is absent). */
  function Occ(p: Postings, d: int): multiset<int>
  {
    if d in p then multiset(p[d]) else multiset{}
  }

  /** `mergePostings(target, source)`: a document new to `target` takes a copy of
      the source list; a shared document gets both lists appended and sorted. */
  function MergePostings(target: Postings, source: Postings): (r: Postings)
    ensures r.Keys == target.Keys + source.Keys
    ensures forall d :: d in r ==> multiset(r[d]) == Occ(target, d) + Occ(source, d)
    ensures forall d :: d in target && d in source ==> Ascending(r[d])
    ensures forall d :: d in target && d !in source ==> r[d] == target[d]
    ensures forall d :: d !in target && d in source ==> r[d] == source[d]
  {
    map d | d in target.Keys + source.Keys ::
      if d in source then
        if d in target then Sort(target[d] + source[d]) else source[d]
      else target[d]
  }

  /** No document holds an empty position list. */
  predicate NonEmptyLists(p: Postings)
  {
    forall d :: d in p ==> |p[d]| > 0
  }

  /** Merging keeps every list non-empty, so a document is present exactly when
      it has positions. */
  lemma MergeNonEmpty(target: Postings, source: Postings)
    requires NonEmptyLists(target) && NonEmptyLists(source)
    ensures NonEmptyLists(MergePostings(target, source))
  {
    var r := MergePostings(target, source);
    forall d | d in r ensures |r[d]| > 0 {
      if d in target {
        assert target[d][0] in multiset(target[d]);
        assert target[d][0] in multiset(r[d]);
      } else {
        assert source[d][0] in multiset(source[d]);
        assert source[d][0] in multiset(r[d]);
      }
    }
  }

  /** Merging into an empty map copies the source; merging nothing changes nothing. */
  lemma MergePostingsIdentity(p: Postings)
    ensures MergePostings(map[], p) == p
    ensures MergePostings(p, map[]) == p
  {
  }

  /** What the postings file keeps of a merged map: positions sorted per document. */
  function Normalize(p: Postings): (r: Postings)
    ensures r.Keys == p.Keys
    ensures forall d :: d in r ==> Ascending(r[d]) && multiset(r[d]) == multiset(p[d])
  {
    map d | d in p :: Sort(p[d])
  }

  /** Two maps holding the same positions per document normalise to the same map. */
  lemma NormalizeByOccurrences(p: Postings, q: Postings)
    requires p.Keys == q.Keys
    requires forall d :: d in p ==> multiset(p[d]) == multiset(q[d])
    ensures Normalize(p) == Normalize(q)
  {
    forall d | d in p ensures Normalize(p)[d] == Normalize(q)[d] {
      SortPermutationInvariant(p[d], q[d]);
    }
  }

  lemma OccMerge(t: Postings, s: Postings, d: int)
    ensures Occ(MergePostings(t, s), d) == Occ(t, d) + Occ(s, d)
  {
  }

  /** Per document, both merge orders collect the same positions. */
  lemma OccMergeSwap(a: Postings, b: Postings, c: Postings, d: int)
    ensures Occ(MergePostings(MergePostings(a, b), c), d) == Occ(MergePostings(MergePostings(a, c), b), d)
  {
    OccMerge(a, b, d);
    OccMerge(a, c, d);
    OccMerge(MergePostings(a, b), c, d);
    OccMerge(MergePostings(a, c), b, d);
  }

  /** Maps with the same keys and the same bags per document. */
  lemma SameOccurrences(x: Postings, y: Postings)
    requires x.Keys == y.Keys
    requires forall d :: Occ(x, d) == Occ(y, d)
    ensures forall d :: d in x ==> multiset(x[d]) == multiset(y[d])
  {
    forall d | d in x ensures multiset(x[d]) == multiset(y[d]) {
      assert Occ(x, d) == Occ(y, d);
    }
  }

  /** The order in which streams holding the same term are merged does not change
      what is written: ties in the merge queue are harmless. */
  lemma MergeOrderInsensitive(a: Postings, b: Postings, c: Postings)
    ensures Normalize(MergePostings(MergePostings(a, b), c)) ==
            Normalize(MergePostings(MergePostings(a, c), b))
  {
    var x := MergePostings(MergePostings(a, b), c);
    var y := MergePostings(MergePostings(a, c), b);
    forall d ensures Occ(x, d) == Occ(y, d) {
      OccMergeSwap(a, b, c, d);
    }
    SameOccurrences(x, y);
    NormalizeByOccurrences(x, y);
  }

  // ------------------------------------------------------------ postings file

  /** The records `writePostingsToFile` emits: document ids ascending, each with
      its positions sorted. */
  function Listing(p: Postings): (r: seq<PostingEntry>)
    ensures |r| == |p.Keys|
    ensures DocIdsAscending(r)
    ensures forall i :: 0 <= i < |r| ==> ListedFrom(p, r[i])
  {
    var ds := SortedSet(p.Keys);
    var r := ListingOf(p, ds);
    assert forall i :: 0 <= i < |r| ==> r[i].docId == ds[i];
    r
  }

  /** The records of the documents `ds`, in that order. */
  function ListingOf(p: Postings, ds: seq<int>): (r: seq<PostingEntry>)
    requires forall i :: 0 <= i < |ds| ==> ds[i] in p
    ensures |r| == |ds|
    ensures forall i :: 0 <= i < |r| ==> r[i].docId == ds[i] && ListedFrom(p, r[i])
  {
    if |ds| == 0 then [] else [PostingEntry(ds[0], Sort(p[ds[0]]))] + ListingOf(p, ds[1..])
  }

  /** Only the listed documents' lists, once sorted, matter. */
  lemma {:induction false} ListingOfBySort(p: Postings, q: Postings, ds: seq<int>)
    requires forall i :: 0 <= i < |ds| ==> ds[i] in p && ds[i] in q && Sort(p[ds[i]]) == Sort(q[ds[i]])
    ensures ListingOf(p, ds) == ListingOf(q, ds)
  {
    if |ds| > 0 {
      ListingOfBySort(p, q, ds[1..]);
    }
  }

  /** What `writePostingsToFile` emits depends only on which documents hold which
      positions, not on the order the positions were collected in. */
  lemma ListingByOccurrences(p: Postings, q: Postings)
    requires p.Keys == q.Keys
    requires forall d :: d in p ==> multiset(p[d]) == multiset(q[d])
    ensures Listing(p) == Listing(q)
  {
    var ds := SortedSet(p.Keys);
    forall i | 0 <= i < |ds| ensures Sort(p[ds[i]]) == Sort(q[ds[i]]) {
      assert ds[i] in p;
      SortPermutationInvariant(p[ds[i]], q[ds[i]]);
    }
    ListingOfBySort(p, q, ds);
    assert Listing(p) == ListingOf(p, ds);
    assert Listing(q) == ListingOf(q, ds);
  }

  /** Only the listed documents' lists matter. */
  lemma {:induction false} ListingOfAgree(p: Postings, q: Postings, ds: seq<int>)
    requires forall i :: 0 <= i < |ds| ==> ds[i] in p && ds[i] in q && p[ds[i]] == q[ds[i]]
    ensures ListingOf(p, ds) == ListingOf(q, ds)
  {
    if |ds| > 0 {
      ListingOfAgree(p, q, ds[1..]);
    }
  }

  lemma ListingOfCons(p: Postings, ds: seq<int>)
    requires |ds| > 0 && forall i :: 0 <= i < |ds| ==> ds[i] in p
    ensures ListingOf(p, ds) == [PostingEntry(ds[0], Sort(p[ds[0]]))] + ListingOf(p, ds[1..])
  {
  }

  lemma SortedSetCons(s: set<int>)
    requires s != {}
    ensures SortedSet(s) == [SetMin(s)] + SortedSet(s - {SetMin(s)})
  {
  }

  /** Taking the least document off the front leaves the listing of the rest. */
  lemma ListingTail(p: Postings)
    requires p.Keys != {}
    ensures Listing(p)[0] == PostingEntry(SetMin(p.Keys), Sort(p[SetMin(p.Keys)]))
    ensures Listing(p)[1..] == Listing(p - {SetMin(p.Keys)})
  {
    var m := SetMin(p.Keys);
    var q := p - {m};
    assert q.Keys == p.Keys - {m};
    var ds := SortedSet(p.Keys);
    SortedSetCons(p.Keys);
    ListingOfCons(p, ds);
    assert Listing(p) == ListingOf(p, ds);
    var tl := ds[1..];
    assert tl == SortedSet(q.Keys);
    forall i | 0 <= i < |tl| ensures tl[i] in q && q[tl[i]] == p[tl[i]] {
      assert tl[i] in tl;
    }
    ListingOfAgree(p, q, tl);
    assert Listing(q) == ListingOf(q, tl);
  }

  predicate DocIdsAscending(es: seq<PostingEntry>)
  {
    forall i, j :: 0 <= i < j < |es| ==> es[i].docId < es[j].docId
  }

  /** `e` is the record of `p` for its document: positions sorted. */
  predicate ListedFrom(p: Postings, e: PostingEntry)
  {
    e.docId in p && e.positions == Sort(p[e.docId])
  }

  /** Every document of `p` has a record in the listing. */
  lemma ListingCovers(p: Postings, d: int)
    requires d in p
    ensures exists i :: 0 <= i < |Listing(p)| && Listing(p)[i].docId == d
  {
    var ds := SortedSet(p.Keys);
    var i :| 0 <= i < |ds| && ds[i] == d;
    assert Listing(p) == ListingOf(p, ds);
    assert Listing(p)[i].docId == d;
  }

  function IntsBytes(xs: seq<int>): (r: seq<Byte>)
    ensures |r| == 4 * |xs|
  {
    if |xs| == 0 then [] else WriteInt(xs[0]) + IntsBytes(xs[1..])
  }

  function RecordBytes(e: PostingEntry): seq<Byte>
  {
    WriteInt(e.docId) + WriteInt(|e.positions|) + IntsBytes(e.positions)
  }

  function ListingBytes(es: seq<PostingEntry>): seq<Byte>
  {
    if |es| == 0 then [] else RecordBytes(es[0]) + ListingBytes(es[1..])
  }

  lemma RecordBytesLength(e: PostingEntry)
    ensures |RecordBytes(e)| == DocCost(e.positions)
  {
  }

  lemma ListingBytesCons(es: seq<PostingEntry>)
    requires |es| > 0
    ensures |ListingBytes(es)| == |RecordBytes(es[0])| + |ListingBytes(es[1..])|
  {
  }

  lemma {:induction false} ListingBytesLength(p: Postings)
    ensures |ListingBytes(Listing(p))| == DocsCost(p)
    decreases |p.Keys|
  {
    if p.Keys != {} {
      var d := SetMin(p.Keys);
      var l := Listing(p);
      ListingTail(p);
      ListingBytesLength(p - {d});
      ListingBytesCons(l);
      RecordBytesLength(l[0]);
      assert |l[0].positions| == |p[d]|;
    }
  }

  /** `writePostingsToFile(out, postings, offset)`: the bytes appended to the
      postings file and the returned offset, which is where the next term starts. */
  function WritePostings(p: Postings, offset: int): (r: (seq<Byte>, int))
    ensures |r.0| == DocsCost(p)
    ensures r.1 == offset + |r.0|
  {
    ListingBytesLength(p);
    var bytes := ListingBytes(Listing(p));
    (bytes, offset + |bytes|)
  }

  /** Every id, count and position fits a Java `int`. */
  predicate InRange(p: Postings)
  {
    forall d :: d in p ==>
      IsInt32(d) && |p[d]| < 0x8000_0000 && (forall i :: 0 <= i < |p[d]| ==> IsInt32(p[d][i]))
  }

  // ---------------------------------------------------------------- reading

  function ReadInts(n: int, bs: seq<Byte>): Parsed<seq<int>>
    decreases n
  {
    if n <= 0 then Ok(([], bs))
    else
      var (x, r1) :- ReadInt(bs);
      var (xs, r2) :- ReadInts(n - 1, r1);
      Ok(([x] + xs, r2))
  }

  function ReadRecord(bs: seq<Byte>): Parsed<PostingEntry>
  {
    var (docId, r1) :- ReadInt(bs);
    var (count, r2) :- ReadInt(r1);
    var (positions, r3) :- ReadInts(count, r2);
    Ok((PostingEntry(docId, positions), r3))
  }

  function ReadRecords(n: int, bs: seq<Byte>): Parsed<seq<PostingEntry>>
    decreases n
  {
    if n <= 0 then Ok(([], bs))
    else
      var (e, r1) :- ReadRecord(bs);
      var (es, r2) :- ReadRecords(n - 1, r1);
      Ok(([e] + es, r2))
  }

  /** `loadPostings(offset, numDocs)`: seek, then `numDocs` records. Seeking past
      the end is allowed; the first read there fails. */
  function LoadPostings(file: seq<Byte>, offset: int, numDocs: int): Result<seq<PostingEntry>, IoError>
  {
    if offset < 0 then Err(NegativeSeek)
    else
      var bs := if offset <= |file| then file[offset..] else [];
      var (es, _) :- ReadRecords(numDocs, bs);
      Ok(es)
  }

  lemma ReadIntsStep(n: int, bs: seq<Byte>, x: int, r1: seq<Byte>, xs: seq<int>, r2: seq<Byte>)
    requires n > 0
    requires ReadInt(bs) == Ok((x, r1))
    requires ReadInts(n - 1, r1) == Ok((xs, r2))
    ensures ReadInts(n, bs) == Ok(([x] + xs, r2))
  {
  }

  lemma ReadRecordsStep(n: int, bs: seq<Byte>, e: PostingEntry, r1: seq<Byte>, es: seq<PostingEntry>, r2: seq<Byte>)
    requires n > 0
    requires ReadRecord(bs) == Ok((e, r1))
    requires ReadRecords(n - 1, r1) == Ok((es, r2))
    ensures ReadRecords(n, bs) == Ok(([e] + es, r2))
  {
  }

  lemma {:induction false} ReadIntsBytes(xs: seq<int>, rest: seq<Byte>)
    requires forall i :: 0 <= i < |xs| ==> IsInt32(xs[i])
    ensures ReadInts(|xs|, IntsBytes(xs) + rest) == Ok((xs, rest))
    decreases |xs|
  {
    if |xs| > 0 {
      var tail := IntsBytes(xs[1..]) + rest;
      assert IntsBytes(xs) + rest == WriteInt(xs[0]) + tail;
      ReadWriteInt(xs[0], tail);
      ReadIntsBytes(xs[1..], rest);
      ReadIntsStep(|xs|, IntsBytes(xs) + rest, xs[0], tail, xs[1..], rest);
      assert [xs[0]] + xs[1..] == xs;
    } else {
      assert IntsBytes(xs) + rest == rest;
    }
  }

  /** The entries of a listing of in-range postings fit their widths. */
  predicate RecordInRange(e: PostingEntry)
  {
    IsInt32(e.docId) && |e.positions| < 0x8000_0000 &&
    forall i :: 0 <= i < |e.positions| ==> IsInt32(e.positions[i])
  }

  lemma ReadRecordBytes(e: PostingEntry, rest: seq<Byte>)
    requires RecordInRange(e)
    ensures ReadRecord(RecordBytes(e) + rest) == Ok((e, rest))
  {
    var ps := IntsBytes(e.positions) + rest;
    assert RecordBytes(e) + rest == WriteInt(e.docId) + (WriteInt(|e.positions|) + ps);
    ReadWriteInt(e.docId, WriteInt(|e.positions|) + ps);
    ReadWriteInt(|e.positions|, ps);
    ReadIntsBytes(e.positions, rest);
  }

  lemma {:induction false} ReadRecordsBytes(es: seq<PostingEntry>, rest: seq<Byte>)
    requires AllInRange(es)
    ensures ReadRecords(|es|, ListingBytes(es) + rest) == Ok((es, rest))
    decreases |es|
  {
    if |es| > 0 {
      var tail := ListingBytes(es[1..]) + rest;
      assert ListingBytes(es) + rest == RecordBytes(es[0]) + tail;
      ReadRecordBytes(es[0], tail);
      ReadRecordsBytes(es[1..], rest);
      ReadRecordsStep(|es|, ListingBytes(es) + rest, es[0], tail, es[1..], rest);
      assert [es[0]] + es[1..] == es;
    } else {
      assert ListingBytes(es) + rest == rest;
    }
  }

  predicate AllInRange(es: seq<PostingEntry>)
  {
    forall i :: 0 <= i < |es| ==> RecordInRange(es[i])
  }

  lemma ListingInRange(p: Postings)
    requires InRange(p)
    ensures AllInRange(Listing(p))
  {
    var l := Listing(p);
    forall i | 0 <= i < |l| ensures RecordInRange(l[i]) {
      assert ListedFrom(p, l[i]);
      var d := l[i].docId;
      var s := Sort(p[d]);
      forall k | 0 <= k < |s| ensures IsInt32(s[k]) {
        assert s[k] in multiset(p[d]);
        var j :| 0 <= j < |p[d]| && p[d][j] == s[k];
      }
      assert |s| == |multiset(s)| == |multiset(p[d])| == |p[d]|;
    }
  }

  lemma LoadFrom(file: seq<Byte>, offset: int, n: int, bs: seq<Byte>, es: seq<PostingEntry>, rest: seq<Byte>)
    requires 0 <= offset <= |file| && file[offset..] == bs
    requires ReadRecords(n, bs) == Ok((es, rest))
    ensures LoadPostings(file, offset, n) == Ok(es)
  {
  }

  /** The searcher reads back, from the offset the builder recorded and with the
      document count it recorded, exactly the ascending listing of the postings. */
  lemma LoadWrittenPostings(before: seq<Byte>, p: Postings, after: seq<Byte>)
    requires InRange(p)
    ensures LoadPostings(before + WritePostings(p, |before|).0 + after, |before|, |p.Keys|) == Ok(Listing(p))
  {
    var l := Listing(p);
    var bytes := WritePostings(p, |before|).0;
    assert bytes == ListingBytes(l);
    Collections.AppendAssoc(before, bytes, after);
    Collections.DropPrefix(before, bytes + after);
    ListingInRange(p);
    ReadRecordsBytes(l, after);
    LoadFrom(before + bytes + after, |before|, |p.Keys|, bytes + after, l, after);
  }
}
