/** The searcher's page parsing (`loadLeafPage`, `loadInternalPage`,
    `loadRootPage` in `BPlusTreeSearcher`): the structural inverse of the
    builder's serialisation, validating the page-type tag. */
module PageReader {
  import opened JStrings
  import opened Utf
  import opened Wrappers
  import opened DataStream
  import opened Pages
  import Collections

  datatype InternalPageData = InternalPageData(firstPointer: int, keys: seq<JString>, childPointers: seq<int>)
  datatype LeafPageData = LeafPageData(nextPageId: int, entries: seq<IndexEntry>)

  function ReadEntry(bs: seq<Byte>): Parsed<IndexEntry>
  {
    var (term, r1) :- ReadUtf(bs);
    var (numDocs, r2) :- ReadInt(r1);
    var (offset, r3) :- ReadLong(r2);
    Ok((IndexEntry(term, numDocs, offset), r3))
  }

  /** The entry loop `for (i = 0; i < numEntries; i++)`; a negative count reads nothing. */
  function ReadEntries(n: int, bs: seq<Byte>): Parsed<seq<IndexEntry>>
    decreases n
  {
    if n <= 0 then Ok(([], bs))
    else
      var (init, r1) :- ReadEntries(n - 1, bs);
      var (e, r2) :- ReadEntry(r1);
      Ok((init + [e], r2))
  }

  function ReadPairs(n: int, bs: seq<Byte>): Parsed<(seq<JString>, seq<int>)>
    decreases n
  {
    if n <= 0 then Ok((([], []), bs))
    else
      var (init, r1) :- ReadPairs(n - 1, bs);
      var (key, r2) :- ReadUtf(r1);
      var (child, r3) :- ReadInt(r2);
      Ok(((init.0 + [key], init.1 + [child]), r3))
  }

  /** Parses a leaf page; any tag other than 2 is an error. */
  function ParseLeaf(page: seq<Byte>): Result<LeafPageData, IoError>
  {
    var (tag, r1) :- ReadByte(page);
    if tag != PAGE_TYPE_LEAF then Err(WrongPageType(tag))
    else
      var (_, r2) :- ReadByte(r1);
      var (n, r3) :- ReadShort(r2);
      var (next, r4) :- ReadInt(r3);
      var (es, _) :- ReadEntries(n, r4);
      Ok(LeafPageData(next, es))
  }

  /** Parses an internal page; any tag other than 1 is an error. */
  function ParseInternal(page: seq<Byte>): Result<InternalPageData, IoError>
  {
    var (tag, r1) :- ReadByte(page);
    if tag != PAGE_TYPE_INTERNAL then Err(WrongPageType(tag))
    else
      var (_, r2) :- ReadByte(r1);
      var (n, r3) :- ReadShort(r2);
      var (first, r4) :- ReadInt(r3);
      var (pairs, _) :- ReadPairs(n, r4);
      Ok(InternalPageData(first, pairs.0, pairs.1))
  }

  /** Every numeric field of the entries fits its on-disk width. */
  predicate EntriesInRange(es: seq<IndexEntry>)
  {
    forall i :: 0 <= i < |es| ==> IsInt32(es[i].numDocs) && IsInt64(es[i].postingsOffset)
  }

  predicate PointersInRange(cs: seq<int>)
  {
    forall i :: 0 <= i < |cs| ==> IsInt32(cs[i])
  }

  lemma ReadEntryBytes(e: IndexEntry, rest: seq<Byte>)
    requires UtfLength(e.term) <= 65535
    requires IsInt32(e.numDocs) && IsInt64(e.postingsOffset)
    ensures EntryBytes(e).Ok?
    ensures ReadEntry(EntryBytes(e).value + rest) == Ok((e, rest))
  {
    var t := WriteUtf(e.term).value;
    assert EntryBytes(e).value + rest == t + (WriteInt(e.numDocs) + (WriteLong(e.postingsOffset) + rest));
    ReadWriteUtf(e.term, WriteInt(e.numDocs) + (WriteLong(e.postingsOffset) + rest));
    ReadWriteInt(e.numDocs, WriteLong(e.postingsOffset) + rest);
    ReadWriteLong(e.postingsOffset, rest);
  }

  lemma ReadEntriesStep(n: int, bs: seq<Byte>, init: seq<IndexEntry>, r1: seq<Byte>, e: IndexEntry, r2: seq<Byte>)
    requires n > 0
    requires ReadEntries(n - 1, bs) == Ok((init, r1))
    requires ReadEntry(r1) == Ok((e, r2))
    ensures ReadEntries(n, bs) == Ok((init + [e], r2))
  {
  }

  lemma EntriesBytesSnoc(es: seq<IndexEntry>, rest: seq<Byte>)
    requires |es| > 0
    requires EntriesBytes(es[..|es| - 1]).Ok? && EntryBytes(es[|es| - 1]).Ok?
    ensures EntriesBytes(es).Ok?
    ensures EntriesBytes(es).value + rest ==
      EntriesBytes(es[..|es| - 1]).value + (EntryBytes(es[|es| - 1]).value + rest)
  {
  }

  /** Dropping the last entry keeps the entries encodable and in range. */
  lemma EntriesPrefix(es: seq<IndexEntry>)
    requires |es| > 0 && TermsEncodable(es) && EntriesInRange(es)
    ensures TermsEncodable(es[..|es| - 1]) && EntriesInRange(es[..|es| - 1])
  {
    var init := es[..|es| - 1];
    forall i | 0 <= i < |init| ensures init[i] == es[i] { }
  }

  /** One more entry read after the entries before it. */
  lemma ReadEntriesBytesStep(es: seq<IndexEntry>, rest: seq<Byte>)
    requires |es| > 0 && UtfLength(es[|es| - 1].term) <= 65535
    requires IsInt32(es[|es| - 1].numDocs) && IsInt64(es[|es| - 1].postingsOffset)
    requires EntriesBytes(es[..|es| - 1]).Ok?
    requires var tail := EntryBytes(es[|es| - 1]).value + rest;
      EntryBytes(es[|es| - 1]).Ok? &&
      ReadEntries(|es| - 1, EntriesBytes(es[..|es| - 1]).value + tail) == Ok((es[..|es| - 1], tail))
    ensures EntriesBytes(es).Ok?
    ensures ReadEntries(|es|, EntriesBytes(es).value + rest) == Ok((es, rest))
  {
    var init := es[..|es| - 1];
    var e := es[|es| - 1];
    ReadEntryBytes(e, rest);
    var tail := EntryBytes(e).value + rest;
    EntriesBytesSnoc(es, rest);
    ReadEntriesStep(|es|, EntriesBytes(init).value + tail, init, tail, e, rest);
    Collections.DropLast(es);
  }

  lemma {:induction false} ReadEntriesBytes(es: seq<IndexEntry>, rest: seq<Byte>)
    requires TermsEncodable(es) && EntriesInRange(es)
    ensures EntriesBytes(es).Ok?
    ensures ReadEntries(|es|, EntriesBytes(es).value + rest) == Ok((es, rest))
    decreases |es|
  {
    if |es| == 0 {
      assert EntriesBytes(es).value + rest == rest;
    } else {
      var init := es[..|es| - 1];
      var e := es[|es| - 1];
      EntriesPrefix(es);
      EntriesBytesLength(init);
      assert EntryBytes(e).Ok?;
      ReadEntriesBytes(init, EntryBytes(e).value + rest);
      ReadEntriesBytesStep(es, rest);
    }
  }

  lemma ReadPairBytes(k: JString, c: int, rest: seq<Byte>)
    requires UtfLength(k) <= 65535 && IsInt32(c)
    ensures ReadUtf(WriteUtf(k).value + (WriteInt(c) + rest)) == Ok((k, WriteInt(c) + rest))
    ensures ReadInt(WriteInt(c) + rest) == Ok((c, rest))
  {
    ReadWriteUtf(k, WriteInt(c) + rest);
    ReadWriteInt(c, rest);
  }

  lemma ReadPairsStep(n: int, bs: seq<Byte>, ks: seq<JString>, cs: seq<int>, r1: seq<Byte>,
                      k: JString, r2: seq<Byte>, c: int, r3: seq<Byte>)
    requires n > 0
    requires ReadPairs(n - 1, bs) == Ok(((ks, cs), r1))
    requires ReadUtf(r1) == Ok((k, r2))
    requires ReadInt(r2) == Ok((c, r3))
    ensures ReadPairs(n, bs) == Ok(((ks + [k], cs + [c]), r3))
  {
  }

  lemma PairsBytesSnoc(ks: seq<JString>, cs: seq<int>, rest: seq<Byte>)
    requires |ks| == |cs| > 0
    requires PairsBytes(ks[..|ks| - 1], cs[..|cs| - 1]).Ok?
    requires UtfLength(ks[|ks| - 1]) <= 65535
    ensures PairsBytes(ks, cs).Ok?
    ensures PairsBytes(ks, cs).value + rest ==
      PairsBytes(ks[..|ks| - 1], cs[..|cs| - 1]).value + (WriteUtf(ks[|ks| - 1]).value + (WriteInt(cs[|cs| - 1]) + rest))
  {
  }

  /** Dropping the last pair keeps the keys encodable and the pointers in range. */
  lemma PairsPrefix(ks: seq<JString>, cs: seq<int>)
    requires |ks| == |cs| > 0 && KeysEncodable(ks) && PointersInRange(cs)
    ensures KeysEncodable(ks[..|ks| - 1]) && PointersInRange(cs[..|cs| - 1])
  {
    var ki := ks[..|ks| - 1];
    var ci := cs[..|cs| - 1];
    forall i | 0 <= i < |ki| ensures ki[i] == ks[i] { }
    forall i | 0 <= i < |ci| ensures ci[i] == cs[i] { }
  }

  /** One more pair read after the pairs before it. */
  lemma ReadPairsBytesStep(ks: seq<JString>, cs: seq<int>, rest: seq<Byte>)
    requires |ks| == |cs| > 0 && UtfLength(ks[|ks| - 1]) <= 65535 && IsInt32(cs[|cs| - 1])
    requires PairsBytes(ks[..|ks| - 1], cs[..|cs| - 1]).Ok?
    requires var tail := WriteUtf(ks[|ks| - 1]).value + (WriteInt(cs[|cs| - 1]) + rest);
      ReadPairs(|ks| - 1, PairsBytes(ks[..|ks| - 1], cs[..|cs| - 1]).value + tail) ==
        Ok(((ks[..|ks| - 1], cs[..|cs| - 1]), tail))
    ensures PairsBytes(ks, cs).Ok?
    ensures ReadPairs(|ks|, PairsBytes(ks, cs).value + rest) == Ok(((ks, cs), rest))
  {
    var ki := ks[..|ks| - 1];
    var ci := cs[..|cs| - 1];
    var k := ks[|ks| - 1];
    var c := cs[|cs| - 1];
    var cb := WriteInt(c) + rest;
    var tail := WriteUtf(k).value + cb;
    PairsBytesSnoc(ks, cs, rest);
    ReadPairBytes(k, c, rest);
    ReadPairsStep(|ks|, PairsBytes(ki, ci).value + tail, ki, ci, tail, k, cb, c, rest);
    Collections.DropLast(ks);
    Collections.DropLast(cs);
  }

  lemma {:induction false} ReadPairsBytes(ks: seq<JString>, cs: seq<int>, rest: seq<Byte>)
    requires |ks| == |cs|
    requires KeysEncodable(ks) && PointersInRange(cs)
    ensures PairsBytes(ks, cs).Ok?
    ensures ReadPairs(|ks|, PairsBytes(ks, cs).value + rest) == Ok(((ks, cs), rest))
    decreases |ks|
  {
    if |ks| == 0 {
      assert PairsBytes(ks, cs).value + rest == rest;
    } else {
      var ki := ks[..|ks| - 1];
      var ci := cs[..|cs| - 1];
      PairsPrefix(ks, cs);
      PairsBytesLength(ki, ci);
      ReadPairsBytes(ki, ci, WriteUtf(ks[|ks| - 1]).value + (WriteInt(cs[|cs| - 1]) + rest));
      ReadPairsBytesStep(ks, cs, rest);
    }
  }

  /** Parsing a serialised leaf page gives back its successor and its entries,
      for a page kept within its size whose fields fit their widths. */
  lemma LeafRoundTrip(p: LeafPage, pageSize: nat)
    requires LeafFits(p, pageSize)
    requires TermsEncodable(p.entries) && EntriesInRange(p.entries)
    requires |p.entries| < 0x8000 && IsInt32(p.nextPageId)
    ensures ParseLeaf(SerializeLeaf(p, pageSize).value) == Ok(LeafPageData(p.nextPageId, p.entries))
  {
    LeafNoTruncation(p, pageSize);
    EntriesBytesLength(p.entries);
    var es := EntriesBytes(p.entries).value;
    var pad := Zeros(pageSize - |LeafBody(p).value|);
    var page := SerializeLeaf(p, pageSize).value;
    assert page == WriteByte(PAGE_TYPE_LEAF) + (WriteByte(0) + (WriteShort(|p.entries|) + (WriteInt(p.nextPageId) + (es + pad))));
    ReadWriteByte(PAGE_TYPE_LEAF, WriteByte(0) + (WriteShort(|p.entries|) + (WriteInt(p.nextPageId) + (es + pad))));
    ReadWriteByte(0, WriteShort(|p.entries|) + (WriteInt(p.nextPageId) + (es + pad)));
    ReadWriteShort(|p.entries|, WriteInt(p.nextPageId) + (es + pad));
    ReadWriteInt(p.nextPageId, es + pad);
    ReadEntriesBytes(p.entries, pad);
  }

  /** Parsing a serialised internal page gives back its first pointer and its
      (key, child) pairs in insertion order. */
  lemma InternalRoundTrip(p: InternalPage, pageSize: nat)
    requires InternalWellFormed(p)
    requires InternalFits(p, pageSize)
    requires KeysEncodable(p.keys) && PointersInRange(p.childPointers)
    requires |p.keys| < 0x8000 && IsInt32(p.firstPointer)
    ensures ParseInternal(SerializeInternal(p, pageSize).value) ==
      Ok(InternalPageData(p.firstPointer, p.keys, p.childPointers))
  {
    InternalNoTruncation(p, pageSize);
    PairsBytesLength(p.keys, p.childPointers);
    var ps := PairsBytes(p.keys, p.childPointers).value;
    var pad := Zeros(pageSize - |InternalBody(p).value|);
    var page := SerializeInternal(p, pageSize).value;
    assert page == WriteByte(PAGE_TYPE_INTERNAL) + (WriteByte(0) + (WriteShort(|p.keys|) + (WriteInt(p.firstPointer) + (ps + pad))));
    ReadWriteByte(PAGE_TYPE_INTERNAL, WriteByte(0) + (WriteShort(|p.keys|) + (WriteInt(p.firstPointer) + (ps + pad))));
    ReadWriteByte(0, WriteShort(|p.keys|) + (WriteInt(p.firstPointer) + (ps + pad)));
    ReadWriteShort(|p.keys|, WriteInt(p.firstPointer) + (ps + pad));
    ReadWriteInt(p.firstPointer, ps + pad);
    ReadPairsBytes(p.keys, p.childPointers, pad);
  }

  /** A leaf is rejected where an internal page is expected, and vice versa. */
  lemma PageTypeValidated(leaf: LeafPage, internal: InternalPage, pageSize: nat)
    requires pageSize >= PAGE_HEADER_SIZE
    requires TermsEncodable(leaf.entries)
    requires InternalWellFormed(internal) && KeysEncodable(internal.keys)
    ensures ParseInternal(SerializeLeaf(leaf, pageSize).value) == Err(WrongPageType(PAGE_TYPE_LEAF))
    ensures ParseLeaf(SerializeInternal(internal, pageSize).value) == Err(WrongPageType(PAGE_TYPE_INTERNAL))
  {
    LeafHeaderLayout(leaf, pageSize);
    InternalHeaderLayout(internal, pageSize);
    var lp := SerializeLeaf(leaf, pageSize).value;
    var ip := SerializeInternal(internal, pageSize).value;
    assert lp == WriteByte(PAGE_TYPE_LEAF) + lp[1..];
    assert ip == WriteByte(PAGE_TYPE_INTERNAL) + ip[1..];
    ReadWriteByte(PAGE_TYPE_LEAF, lp[1..]);
    ReadWriteByte(PAGE_TYPE_INTERNAL, ip[1..]);
  }
}
