/** The two B+Tree page kinds of the builder (`BPlusTreeLeafPage`,
    `BPlusTreeInternalPage`) and their directory entry (`IndexEntry`): capacity
    checks and serialisation into a fixed-size page. The page size is the
    configured `page.size`, passed explicitly. */
module Pages {
  import opened JStrings
  import opened Utf
  import opened Wrappers
  import opened DataStream

  const PAGE_TYPE_INTERNAL: int := 1
  const PAGE_TYPE_LEAF: int := 2
  /** Type byte, reserved byte, 16-bit count and one 32-bit pointer. */
  const PAGE_HEADER_SIZE: int := 8

  /** A leaf directory entry: term, document frequency, and where its postings start. */
  datatype IndexEntry = IndexEntry(term: JString, numDocs: int, postingsOffset: int)

  /** `IndexEntry.getSize`: length prefix, encoded term, `numDocs`, `postingsOffset`. */
  function EntrySize(e: IndexEntry): nat
  {
    2 + UtfLength(e.term) + 4 + 8
  }

  /** The size depends only on the term, and is at least 14 plus its length. */
  lemma EntrySizeFacts(e: IndexEntry, numDocs: int, offset: int)
    ensures EntrySize(e) == EntrySize(IndexEntry(e.term, numDocs, offset))
    ensures EntrySize(e) >= 14 + |e.term|
    ensures EntrySize(e) <= 14 + 3 * |e.term|
  {
  }

  /** Sum of `getSize` over a list of entries. */
  function EntriesSize(es: seq<IndexEntry>): nat
  {
    if |es| == 0 then 0 else EntriesSize(es[..|es| - 1]) + EntrySize(es[|es| - 1])
  }

  lemma {:induction false} EntriesSizeAppend(a: seq<IndexEntry>, b: seq<IndexEntry>)
    ensures EntriesSize(a + b) == EntriesSize(a) + EntriesSize(b)
    decreases |b|
  {
    if |b| == 0 {
      assert a + b == a;
    } else {
      var ab := a + b;
      assert ab[..|ab| - 1] == a + b[..|b| - 1];
      EntriesSizeAppend(a, b[..|b| - 1]);
    }
  }

  // ---------------------------------------------------------------- leaf pages

  datatype LeafPage = LeafPage(pageId: int, entries: seq<IndexEntry>, nextPageId: int)

  /** `new BPlusTreeLeafPage(pageId)`: no entries, no successor. */
  function NewLeafPage(pageId: int): LeafPage
  {
    LeafPage(pageId, [], -1)
  }

  /** `canFit`: header plus the entries already held plus the new one fit the page. */
  predicate LeafCanFit(p: LeafPage, e: IndexEntry, pageSize: int)
  {
    PAGE_HEADER_SIZE + EntriesSize(p.entries) + EntrySize(e) <= pageSize
  }

  function LeafAddEntry(p: LeafPage, e: IndexEntry): LeafPage
  {
    p.(entries := p.entries + [e])
  }

  function LeafSetNextPageId(p: LeafPage, next: int): LeafPage
  {
    p.(nextPageId := next)
  }

  predicate LeafIsEmpty(p: LeafPage)
  {
    |p.entries| == 0
  }

  /** The page's serialised body is no longer than the page. */
  predicate LeafFits(p: LeafPage, pageSize: int)
  {
    PAGE_HEADER_SIZE + EntriesSize(p.entries) <= pageSize
  }

  /** A fresh page is empty, has no successor, and fits any page of at least 8 bytes. */
  lemma NewLeafPageFacts(pageId: int, pageSize: int)
    requires pageSize >= PAGE_HEADER_SIZE
    ensures LeafIsEmpty(NewLeafPage(pageId)) && NewLeafPage(pageId).nextPageId == -1
    ensures LeafFits(NewLeafPage(pageId), pageSize)
  {
  }

  /** Adding an entry admitted by `canFit` keeps the page within its size. */
  lemma LeafAddKeepsFit(p: LeafPage, e: IndexEntry, pageSize: int)
    requires LeafCanFit(p, e, pageSize)
    ensures LeafFits(LeafAddEntry(p, e), pageSize)
    ensures LeafAddEntry(p, e).entries == p.entries + [e]
  {
    EntriesSizeAppend(p.entries, [e]);
    assert [e][..0] == [];
  }

  /** Once an entry does not fit, it does not fit after further additions either. */
  lemma LeafCanFitMonotone(p: LeafPage, e: IndexEntry, other: IndexEntry, pageSize: int)
    requires !LeafCanFit(p, e, pageSize)
    ensures !LeafCanFit(LeafAddEntry(p, other), e, pageSize)
  {
    EntriesSizeAppend(p.entries, [other]);
    assert [other][..0] == [];
  }

  /** The stream bytes of one entry: `writeUTF(term)`, `writeInt(numDocs)`, `writeLong(offset)`. */
  function EntryBytes(e: IndexEntry): (r: Result<seq<Byte>, IoError>)
    ensures r.Ok? ==> |r.value| == EntrySize(e)
  {
    var t :- WriteUtf(e.term);
    Ok(t + WriteInt(e.numDocs) + WriteLong(e.postingsOffset))
  }

  function EntriesBytes(es: seq<IndexEntry>): (r: Result<seq<Byte>, IoError>)
  {
    if |es| == 0 then Ok([])
    else
      var init :- EntriesBytes(es[..|es| - 1]);
      var last :- EntryBytes(es[|es| - 1]);
      Ok(init + last)
  }

  /** Every term can be written by `writeUTF`. */
  predicate TermsEncodable(es: seq<IndexEntry>)
  {
    forall i :: 0 <= i < |es| ==> UtfLength(es[i].term) <= 65535
  }

  /** The encoded entries are exactly as long as `getSize` accounts for, and
      encoding fails only on a term `writeUTF` rejects. */
  lemma {:induction false} EntriesBytesLength(es: seq<IndexEntry>)
    ensures EntriesBytes(es).Ok? <==> TermsEncodable(es)
    ensures EntriesBytes(es).Ok? ==> |EntriesBytes(es).value| == EntriesSize(es)
    decreases |es|
  {
    if |es| > 0 {
      var init := es[..|es| - 1];
      EntriesBytesLength(init);
      assert TermsEncodable(es) <==> TermsEncodable(init) && UtfLength(es[|es| - 1].term) <= 65535 by {
        if TermsEncodable(init) && UtfLength(es[|es| - 1].term) <= 65535 {
          forall i | 0 <= i < |es| ensures UtfLength(es[i].term) <= 65535 {
            if i < |es| - 1 { assert es[i] == init[i]; }
          }
        }
        if TermsEncodable(es) {
          forall i | 0 <= i < |init| ensures UtfLength(init[i].term) <= 65535 {
            assert init[i] == es[i];
          }
        }
      }
    }
  }

  /** What the `DataOutputStream` holds before the copy into the page buffer. */
  function LeafBody(p: LeafPage): Result<seq<Byte>, IoError>
  {
    var es :- EntriesBytes(p.entries);
    Ok(WriteByte(PAGE_TYPE_LEAF) + WriteByte(0) + WriteShort(|p.entries|) + WriteInt(p.nextPageId) + es)
  }

  function Zeros(n: nat): (r: seq<Byte>)
    ensures |r| == n
    ensures forall i :: 0 <= i < n ==> r[i] == 0
  {
    seq(n, i => 0)
  }

  /** `System.arraycopy` of the stream bytes into a zeroed `byte[pageSize]`:
      longer data is cut off at the page size. */
  function CopyToPage(data: seq<Byte>, pageSize: nat): (r: seq<Byte>)
    ensures |r| == pageSize
    ensures forall i :: 0 <= i < pageSize && i < |data| ==> r[i] == data[i]
    ensures forall i :: |data| <= i < pageSize ==> r[i] == 0
  {
    if |data| >= pageSize then data[..pageSize] else data + Zeros(pageSize - |data|)
  }

  /** `serialize()`: always exactly `pageSize` bytes; a term too long for
      `writeUTF` raises (wrapped in a RuntimeException by the source). */
  function SerializeLeaf(p: LeafPage, pageSize: nat): (r: Result<seq<Byte>, IoError>)
    ensures r.Ok? ==> |r.value| == pageSize
    ensures r.Ok? <==> TermsEncodable(p.entries)
  {
    EntriesBytesLength(p.entries);
    var body :- LeafBody(p);
    Ok(CopyToPage(body, pageSize))
  }

  /** The body is exactly `8 + Σ getSize`, so a page kept within its size by
      `canFit` serialises with nothing cut off, followed by zero padding. */
  lemma LeafNoTruncation(p: LeafPage, pageSize: nat)
    requires LeafFits(p, pageSize)
    requires TermsEncodable(p.entries)
    ensures LeafBody(p).Ok?
    ensures |LeafBody(p).value| == PAGE_HEADER_SIZE + EntriesSize(p.entries)
    ensures SerializeLeaf(p, pageSize).value ==
      LeafBody(p).value + Zeros(pageSize - |LeafBody(p).value|)
  {
    EntriesBytesLength(p.entries);
  }

  /** Bytes 0..7 of a serialised leaf: type 2, reserved 0, entry count, next page id. */
  lemma LeafHeaderLayout(p: LeafPage, pageSize: nat)
    requires pageSize >= PAGE_HEADER_SIZE
    requires TermsEncodable(p.entries)
    ensures SerializeLeaf(p, pageSize).value[0] == PAGE_TYPE_LEAF
    ensures SerializeLeaf(p, pageSize).value[1] == 0
    ensures SerializeLeaf(p, pageSize).value[2..4] == WriteShort(|p.entries|)
    ensures SerializeLeaf(p, pageSize).value[4..8] == WriteInt(p.nextPageId)
  {
    EntriesBytesLength(p.entries);
    var body := LeafBody(p).value;
    var r := SerializeLeaf(p, pageSize).value;
    assert r[..8] == body[..8];
  }

  // ------------------------------------------------------------ internal pages

  /** An internal page: the leftmost child without a key, then (separator, child) pairs. */
  datatype InternalPage = InternalPage(pageId: int, firstPointer: int, keys: seq<JString>, childPointers: seq<int>)

  /** `keys` and `childPointers` advance in lock-step. */
  predicate InternalWellFormed(p: InternalPage)
  {
    |p.keys| == |p.childPointers|
  }

  function NewInternalPage(pageId: int): InternalPage
  {
    InternalPage(pageId, -1, [], [])
  }

  function InternalAddFirstChild(p: InternalPage, child: int): InternalPage
  {
    p.(firstPointer := child)
  }

  function InternalAddChild(p: InternalPage, key: JString, child: int): InternalPage
  {
    p.(keys := p.keys + [key], childPointers := p.childPointers + [child])
  }

  predicate InternalIsEmpty(p: InternalPage)
  {
    p.firstPointer == -1 && |p.keys| == 0
  }

  /** Construction keeps the two lists in lock-step, and a page with a real
      first child is not empty. */
  lemma InternalPageFacts(p: InternalPage, key: JString, child: int)
    ensures InternalWellFormed(NewInternalPage(p.pageId)) && InternalIsEmpty(NewInternalPage(p.pageId))
    ensures InternalWellFormed(p) ==> InternalWellFormed(InternalAddChild(p, key, child))
    ensures InternalWellFormed(p) ==> InternalWellFormed(InternalAddFirstChild(p, child))
    ensures child >= 0 ==> !InternalIsEmpty(InternalAddFirstChild(p, child))
    ensures !InternalIsEmpty(InternalAddChild(p, key, child))
  {
  }

  /** Bytes one separator takes: length prefix, key, child pointer. */
  function KeySize(k: JString): nat
  {
    2 + UtfLength(k) + 4
  }

  function KeysSize(ks: seq<JString>): nat
  {
    if |ks| == 0 then 0 else KeysSize(ks[..|ks| - 1]) + KeySize(ks[|ks| - 1])
  }

  lemma {:induction false} KeysSizeAppend(a: seq<JString>, b: seq<JString>)
    ensures KeysSize(a + b) == KeysSize(a) + KeysSize(b)
    decreases |b|
  {
    if |b| == 0 {
      assert a + b == a;
    } else {
      var ab := a + b;
      assert ab[..|ab| - 1] == a + b[..|b| - 1];
      KeysSizeAppend(a, b[..|b| - 1]);
    }
  }

  /** `canFit(newKey)`: header, first pointer, existing pairs and the new pair fit. */
  predicate InternalCanFit(p: InternalPage, newKey: JString, pageSize: int)
  {
    PAGE_HEADER_SIZE + KeysSize(p.keys) + KeySize(newKey) <= pageSize
  }

  predicate InternalFits(p: InternalPage, pageSize: int)
  {
    PAGE_HEADER_SIZE + KeysSize(p.keys) <= pageSize
  }

  /** Adding a key admitted by `canFit` keeps the page within its size. */
  lemma InternalAddKeepsFit(p: InternalPage, key: JString, child: int, pageSize: int)
    requires InternalCanFit(p, key, pageSize)
    ensures InternalFits(InternalAddChild(p, key, child), pageSize)
  {
    KeysSizeAppend(p.keys, [key]);
    assert [key][..0] == [];
  }

  /** Once a key does not fit, it does not fit after further additions either. */
  lemma InternalCanFitMonotone(p: InternalPage, key: JString, other: JString, child: int, pageSize: int)
    requires !InternalCanFit(p, key, pageSize)
    ensures !InternalCanFit(InternalAddChild(p, other, child), key, pageSize)
  {
    KeysSizeAppend(p.keys, [other]);
    assert [other][..0] == [];
  }

  predicate KeysEncodable(ks: seq<JString>)
  {
    forall i :: 0 <= i < |ks| ==> UtfLength(ks[i]) <= 65535
  }

  /** The stream bytes of the (key, child) pairs: `writeUTF(key)`, `writeInt(child)`. */
  function PairsBytes(ks: seq<JString>, cs: seq<int>): Result<seq<Byte>, IoError>
    requires |ks| == |cs|
  {
    if |ks| == 0 then Ok([])
    else
      var init :- PairsBytes(ks[..|ks| - 1], cs[..|cs| - 1]);
      var k :- WriteUtf(ks[|ks| - 1]);
      Ok(init + k + WriteInt(cs[|cs| - 1]))
  }

  lemma {:induction false} PairsBytesLength(ks: seq<JString>, cs: seq<int>)
    requires |ks| == |cs|
    ensures PairsBytes(ks, cs).Ok? <==> KeysEncodable(ks)
    ensures PairsBytes(ks, cs).Ok? ==> |PairsBytes(ks, cs).value| == KeysSize(ks)
    decreases |ks|
  {
    if |ks| > 0 {
      var init := ks[..|ks| - 1];
      PairsBytesLength(init, cs[..|cs| - 1]);
      assert KeysEncodable(ks) <==> KeysEncodable(init) && UtfLength(ks[|ks| - 1]) <= 65535 by {
        if KeysEncodable(init) && UtfLength(ks[|ks| - 1]) <= 65535 {
          forall i | 0 <= i < |ks| ensures UtfLength(ks[i]) <= 65535 {
            if i < |ks| - 1 { assert ks[i] == init[i]; }
          }
        }
        if KeysEncodable(ks) {
          forall i | 0 <= i < |init| ensures UtfLength(init[i]) <= 65535 {
            assert init[i] == ks[i];
          }
        }
      }
    }
  }

  function InternalBody(p: InternalPage): Result<seq<Byte>, IoError>
    requires InternalWellFormed(p)
  {
    var pairs :- PairsBytes(p.keys, p.childPointers);
    Ok(WriteByte(PAGE_TYPE_INTERNAL) + WriteByte(0) + WriteShort(|p.keys|) + WriteInt(p.firstPointer) + pairs)
  }

  /** `serialize()`: always exactly `pageSize` bytes. */
  function SerializeInternal(p: InternalPage, pageSize: nat): (r: Result<seq<Byte>, IoError>)
    requires InternalWellFormed(p)
    ensures r.Ok? ==> |r.value| == pageSize
    ensures r.Ok? <==> KeysEncodable(p.keys)
  {
    PairsBytesLength(p.keys, p.childPointers);
    var body :- InternalBody(p);
    Ok(CopyToPage(body, pageSize))
  }

  /** A page kept within its size by `canFit` serialises with nothing cut off. */
  lemma InternalNoTruncation(p: InternalPage, pageSize: nat)
    requires InternalWellFormed(p)
    requires InternalFits(p, pageSize)
    requires KeysEncodable(p.keys)
    ensures InternalBody(p).Ok?
    ensures |InternalBody(p).value| == PAGE_HEADER_SIZE + KeysSize(p.keys)
    ensures SerializeInternal(p, pageSize).value ==
      InternalBody(p).value + Zeros(pageSize - |InternalBody(p).value|)
  {
    PairsBytesLength(p.keys, p.childPointers);
  }

  /** Bytes 0..7 of a serialised internal page: type 1, reserved 0, key count, first pointer. */
  lemma InternalHeaderLayout(p: InternalPage, pageSize: nat)
    requires InternalWellFormed(p)
    requires pageSize >= PAGE_HEADER_SIZE
    requires KeysEncodable(p.keys)
    ensures SerializeInternal(p, pageSize).value[0] == PAGE_TYPE_INTERNAL
    ensures SerializeInternal(p, pageSize).value[1] == 0
    ensures SerializeInternal(p, pageSize).value[2..4] == WriteShort(|p.keys|)
    ensures SerializeInternal(p, pageSize).value[4..8] == WriteInt(p.firstPointer)
  {
    PairsBytesLength(p.keys, p.childPointers);
    var body := InternalBody(p).value;
    var r := SerializeInternal(p, pageSize).value;
    assert r[..8] == body[..8];
  }
}
