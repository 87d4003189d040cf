/** The second half of `mergeBlocks` (`buildTreeAndPostingLists`): the merged
    records become the postings file and the leaf entries, the entries are
    packed greedily into leaf pages, the leaves into levels of internal pages
    until one root is left, and the 32-byte tree header is patched with the
    root, the page count and the height. The source interleaves these passes
    in one loop; here they are separate passes over the merged records. */
module TreeBuild {
  import opened JStrings
  import opened Utf
  import opened Wrappers
  import opened DataStream
  import opened Postings
  import opened Spimi
  import opened Pages
  import opened Collections

  /** `Integer.MAX_VALUE`. */
  const INT_MAX: int := 0x7FFF_FFFF
  const TREE_HEADER_SIZE: int := 32
  /** The header field offset `updateTreeHeader` seeks to: magic, version and page size. */
  const ROOT_FIELD_OFFSET: int := 10

  /** `LeafPageInfo`: a written page and the least term below it; used for
      leaves and for every internal level alike. */
  datatype PageInfo = PageInfo(pageId: int, firstKey: JString)

  // ------------------------------------------------------------ postings file

  /** The postings file: the postings of every merged term written back to
      back (`writePostingsToFile`), the first at `offset`. */
  function PostingsFile(recs: Block, offset: int): seq<Byte>
    decreases |recs|
  {
    if |recs| == 0 then []
    else
      var w := WritePostings(recs[0].postings, offset);
      w.0 + PostingsFile(recs[1..], w.1)
  }

  /** The leaf entries recorded alongside
      (`new IndexEntry(term, merged.size(), currentPostingsOffset)`). */
  function TermEntries(recs: Block, offset: int): (r: seq<IndexEntry>)
    ensures |r| == |recs|
    decreases |recs|
  {
    if |recs| == 0 then []
    else
      [IndexEntry(recs[0].term, |recs[0].postings.Keys|, offset)] +
      TermEntries(recs[1..], WritePostings(recs[0].postings, offset).1)
  }

  /** Entry `k` names the `k`-th term and its document count; the first
      postings start at `offset` and each term's start where the previous
      term's bytes end. */
  lemma {:induction false} TermEntriesFacts(recs: Block, offset: int)
    ensures var es := TermEntries(recs, offset);
      forall k :: 0 <= k < |recs| ==> es[k].term == recs[k].term && es[k].numDocs == |recs[k].postings.Keys|
    ensures |recs| > 0 ==> TermEntries(recs, offset)[0].postingsOffset == offset
    ensures var es := TermEntries(recs, offset);
      forall k :: 0 <= k < |recs| - 1 ==> es[k + 1].postingsOffset == es[k].postingsOffset + DocsCost(recs[k].postings)
    decreases |recs|
  {
    if |recs| > 0 {
      var next := WritePostings(recs[0].postings, offset).1;
      TermEntriesFacts(recs[1..], next);
      var es := TermEntries(recs, offset);
      var es' := TermEntries(recs[1..], next);
      assert es == [IndexEntry(recs[0].term, |recs[0].postings.Keys|, offset)] + es';
      forall k | 0 <= k < |recs| ensures es[k].term == recs[k].term && es[k].numDocs == |recs[k].postings.Keys| {
        if k > 0 { assert es[k] == es'[k - 1] && recs[k] == recs[1..][k - 1]; }
      }
      forall k | 0 <= k < |recs| - 1 ensures es[k + 1].postingsOffset == es[k].postingsOffset + DocsCost(recs[k].postings) {
        if k > 0 { assert es[k] == es'[k - 1] && es[k + 1] == es'[k] && recs[k] == recs[1..][k - 1]; }
      }
    }
  }

  /** The bytes each term contributes, in term order; where they land does not
      change them. */
  function Chunks(recs: Block): (r: seq<seq<Byte>>)
    ensures |r| == |recs|
    decreases |recs|
  {
    if |recs| == 0 then [] else [WritePostings(recs[0].postings, 0).0] + Chunks(recs[1..])
  }

  lemma {:induction false} ChunkAt(recs: Block, k: int, offset: int)
    requires 0 <= k < |recs|
    ensures Chunks(recs)[k] == WritePostings(recs[k].postings, offset).0
    decreases k
  {
    if k > 0 {
      ChunkAt(recs[1..], k - 1, offset);
      assert recs[1..][k - 1] == recs[k];
    }
  }

  /** The postings file is the terms' bytes back to back. */
  lemma {:induction false} PostingsFileChunks(recs: Block, offset: int)
    ensures PostingsFile(recs, offset) == Concat(Chunks(recs))
    decreases |recs|
  {
    if |recs| > 0 {
      var w := WritePostings(recs[0].postings, offset);
      PostingsFileChunks(recs[1..], w.1);
      assert Chunks(recs)[1..] == Chunks(recs[1..]);
    }
  }

  /** Entry `k` records where the bytes of the terms before it end. */
  lemma {:induction false} EntryOffsetChunks(recs: Block, offset: int, k: int)
    requires 0 <= k < |recs|
    ensures TermEntries(recs, offset)[k].postingsOffset == offset + |Concat(Chunks(recs)[..k])|
    decreases k
  {
    TermEntriesFacts(recs, offset);
    if k > 0 {
      EntryOffsetChunks(recs, offset, k - 1);
      ChunkAt(recs, k - 1, 0);
      ConcatTakeLength(Chunks(recs), k - 1);
    }
  }

  /** Reading back at any entry's offset, with its document count, gives the
      ascending listing of that term's merged postings; `pre` is whatever the
      file holds before the first term. */
  lemma LoadEveryTerm(pre: seq<Byte>, recs: Block, post: seq<Byte>, k: int)
    requires 0 <= k < |recs|
    requires InRange(recs[k].postings)
    ensures LoadPostings(pre + PostingsFile(recs, |pre|) + post, TermEntries(recs, |pre|)[k].postingsOffset,
      TermEntries(recs, |pre|)[k].numDocs) == Ok(Listing(recs[k].postings))
  {
    var xs := Chunks(recs);
    var file := pre + PostingsFile(recs, |pre|) + post;
    var before := pre + Concat(xs[..k]);
    var after := Concat(xs[k + 1..]) + post;
    var e := TermEntries(recs, |pre|)[k];
    PostingsFileChunks(recs, |pre|);
    ConcatSplit(xs, k);
    Reassemble(pre, PostingsFile(recs, |pre|), post, Concat(xs[..k]), xs[k], Concat(xs[k + 1..]));
    ChunkAt(recs, k, |before|);
    assert file == before + WritePostings(recs[k].postings, |before|).0 + after;
    EntryOffsetChunks(recs, |pre|, k);
    TermEntriesFacts(recs, |pre|);
    assert e.postingsOffset == |before| && e.numDocs == |recs[k].postings.Keys|;
    LoadWrittenPostings(before, recs[k].postings, after);
  }

  // ---------------------------------------------------------------- leaf pages

  /** The successor id a full leaf records: only when it stays below `Integer.MAX_VALUE`. */
  function NextLeafId(id: int): (r: int)
    ensures r == -1 || r == id + 1
    ensures r == id + 1 <==> id + 1 < INT_MAX
  {
    if id + 1 < INT_MAX then id + 1 else -1
  }

  /** The entries of a run of pages, in page order. */
  function LeafEntries(leaves: seq<LeafPage>): seq<IndexEntry>
  {
    if |leaves| == 0 then [] else LeafEntries(leaves[..|leaves| - 1]) + leaves[|leaves| - 1].entries
  }

  lemma LeafEntriesSnoc(leaves: seq<LeafPage>, p: LeafPage)
    ensures LeafEntries(leaves + [p]) == LeafEntries(leaves) + p.entries
  {
    assert (leaves + [p])[..|leaves|] == leaves;
  }

  /** What the configured page size must allow: every entry fits a fresh leaf. */
  predicate EntriesFitEmptyLeaf(entries: seq<IndexEntry>, pageSize: int)
  {
    forall i :: 0 <= i < |entries| ==> PAGE_HEADER_SIZE + EntrySize(entries[i]) <= pageSize
  }

  /** The pages written so far: ids from 0, each non-empty and within the
      page, each reported with its first term, each but the last pointing to
      the next id, and each closed only because the next page's first entry
      did not fit it. */
  predicate LeavesWritten(leaves: seq<LeafPage>, infos: seq<PageInfo>, pageSize: int)
  {
    |infos| == |leaves| &&
    (forall k :: 0 <= k < |leaves| ==>
      leaves[k].pageId == k && |leaves[k].entries| > 0 && LeafFits(leaves[k], pageSize) &&
      infos[k] == PageInfo(k, leaves[k].entries[0].term)) &&
    (forall k :: 0 <= k < |leaves| - 1 ==>
      leaves[k].nextPageId == NextLeafId(k) && !LeafCanFit(leaves[k], leaves[k + 1].entries[0], pageSize))
  }

  /** The last page written so far points to the next id. */
  predicate LastLinked(leaves: seq<LeafPage>)
  {
    |leaves| > 0 ==> leaves[|leaves| - 1].nextPageId == NextLeafId(|leaves| - 1)
  }

  /** The last page written so far was closed because the first entry of
      `page` did not fit it. */
  predicate ClosedBefore(leaves: seq<LeafPage>, page: LeafPage, pageSize: int)
  {
    |leaves| > 0 ==> |page.entries| > 0 && !LeafCanFit(leaves[|leaves| - 1], page.entries[0], pageSize)
  }

  /** Writing one more page keeps `LeavesWritten`. */
  lemma WriteLeafStep(leaves: seq<LeafPage>, infos: seq<PageInfo>, page: LeafPage, pageSize: int)
    requires LeavesWritten(leaves, infos, pageSize)
    requires page.pageId == |leaves| && |page.entries| > 0 && LeafFits(page, pageSize)
    requires LastLinked(leaves)
    requires ClosedBefore(leaves, page, pageSize)
    ensures LeavesWritten(leaves + [page], infos + [PageInfo(|leaves|, page.entries[0].term)], pageSize)
  {
    var ls := leaves + [page];
    var fs := infos + [PageInfo(|leaves|, page.entries[0].term)];
    forall k | 0 <= k < |ls|
      ensures ls[k].pageId == k && |ls[k].entries| > 0 && LeafFits(ls[k], pageSize) &&
        fs[k] == PageInfo(k, ls[k].entries[0].term)
    {
      if k < |leaves| { assert ls[k] == leaves[k] && fs[k] == infos[k]; }
    }
    forall k | 0 <= k < |ls| - 1
      ensures ls[k].nextPageId == NextLeafId(k) && !LeafCanFit(ls[k], ls[k + 1].entries[0], pageSize)
    {
      assert ls[k] == leaves[k];
      if k + 1 < |leaves| { assert ls[k + 1] == leaves[k + 1]; }
    }
  }

  /** The state of the leaf loop: pages written, their infos, the page id
      counter, the page being filled and `firstKeyInPage`. */
  datatype LeafWriter = LeafWriter(leaves: seq<LeafPage>, infos: seq<PageInfo>, currentPageId: int,
                                   page: LeafPage, firstKey: Option<JString>)

  function StartLeaves(): LeafWriter
  {
    LeafWriter([], [], 0, NewLeafPage(0), None)
  }

  /** Closing the current page because `entry` does not fit: it gets its
      successor id (while below `Integer.MAX_VALUE`), is written and reported,
      and a fresh page starts with the entry's term as its first key. */
  function CloseLeaf(w: LeafWriter, entry: IndexEntry): LeafWriter
    requires w.firstKey.Some?
  {
    var closed := if w.currentPageId + 1 < INT_MAX then LeafSetNextPageId(w.page, w.currentPageId + 1) else w.page;
    LeafWriter(w.leaves + [closed], w.infos + [PageInfo(w.currentPageId, w.firstKey.value)],
               w.currentPageId + 1, NewLeafPage(w.currentPageId + 1), Some(entry.term))
  }

  /** Adding the entry to the current page, recording its term as the first
      key of a page that has none yet. */
  function AppendEntry(w: LeafWriter, entry: IndexEntry): LeafWriter
  {
    var w1 := if w.firstKey.None? then w.(firstKey := Some(entry.term)) else w;
    w1.(page := LeafAddEntry(w1.page, entry))
  }

  /** One iteration of the leaf loop. */
  function AddLeafEntry(w: LeafWriter, entry: IndexEntry, pageSize: int): LeafWriter
    requires w.firstKey.Some? || LeafCanFit(w.page, entry, pageSize)
  {
    AppendEntry(if !LeafCanFit(w.page, entry, pageSize) then CloseLeaf(w, entry) else w, entry)
  }

  /** After the loop: a non-empty last page is written and reported. */
  function FinishLeaves(w: LeafWriter): LeafWriter
    requires !LeafIsEmpty(w.page) ==> w.firstKey.Some?
  {
    if !LeafIsEmpty(w.page) then
      LeafWriter(w.leaves + [w.page], w.infos + [PageInfo(w.currentPageId, w.firstKey.value)],
                 w.currentPageId + 1, w.page, w.firstKey)
    else w
  }

  /** The loop invariant after `i` entries. */
  predicate WriterValid(w: LeafWriter, entries: seq<IndexEntry>, i: int, pageSize: int)
  {
    0 <= i <= |entries| &&
    w.currentPageId == |w.leaves| &&
    LeavesWritten(w.leaves, w.infos, pageSize) &&
    w.page.pageId == w.currentPageId && w.page.nextPageId == -1 &&
    (|w.page.entries| > 0 ==> LeafFits(w.page, pageSize)) &&
    (i == 0 <==> |w.page.entries| == 0) &&
    (i == 0 ==> |w.leaves| == 0) &&
    w.firstKey == (if |w.page.entries| == 0 then None else Some(w.page.entries[0].term)) &&
    LeafEntries(w.leaves) + w.page.entries == entries[..i] &&
    LastLinked(w.leaves) &&
    ClosedBefore(w.leaves, w.page, pageSize)
  }

  /** The state in which entry `i` is about to be added to the current page. */
  predicate ReadyToAppend(w: LeafWriter, entries: seq<IndexEntry>, i: int, pageSize: int)
  {
    0 <= i < |entries| &&
    w.currentPageId == |w.leaves| && LeavesWritten(w.leaves, w.infos, pageSize) &&
    w.page.pageId == w.currentPageId && w.page.nextPageId == -1 &&
    LeafCanFit(w.page, entries[i], pageSize) &&
    LeafEntries(w.leaves) + w.page.entries == entries[..i] &&
    LastLinked(w.leaves) &&
    (|w.page.entries| > 0 ==> ClosedBefore(w.leaves, w.page, pageSize) && w.firstKey == Some(w.page.entries[0].term)) &&
    (|w.page.entries| == 0 ==>
      (|w.leaves| > 0 ==> !LeafCanFit(w.leaves[|w.leaves| - 1], entries[i], pageSize)) &&
      (w.firstKey.None? || w.firstKey == Some(entries[i].term)))
  }

  lemma StartLeavesValid(entries: seq<IndexEntry>, pageSize: int)
    ensures WriterValid(StartLeaves(), entries, 0, pageSize) == true
  {
  }

  /** Closing a page leaves the loop ready to add the entry that did not fit. */
  lemma CloseLeafReady(w: LeafWriter, entries: seq<IndexEntry>, i: int, pageSize: int)
    requires WriterValid(w, entries, i, pageSize) && i < |entries|
    requires PAGE_HEADER_SIZE + EntrySize(entries[i]) <= pageSize
    requires !LeafCanFit(w.page, entries[i], pageSize)
    ensures w.firstKey.Some?
    ensures ReadyToAppend(CloseLeaf(w, entries[i]), entries, i, pageSize)
  {
    assert |w.page.entries| > 0;
    CloseFilledLeaf(w, entries, i, pageSize);
  }

  /** Closing a non-empty page: it is written with its successor id, and the
      fresh page waits for the entry that did not fit. */
  lemma CloseFilledLeaf(w: LeafWriter, entries: seq<IndexEntry>, i: int, pageSize: int)
    requires 0 <= i < |entries| && PAGE_HEADER_SIZE + EntrySize(entries[i]) <= pageSize
    requires !LeafCanFit(w.page, entries[i], pageSize)
    requires w.currentPageId == |w.leaves| && LeavesWritten(w.leaves, w.infos, pageSize)
    requires w.page.pageId == w.currentPageId && w.page.nextPageId == -1
    requires |w.page.entries| > 0 && LeafFits(w.page, pageSize)
    requires w.firstKey == Some(w.page.entries[0].term)
    requires LeafEntries(w.leaves) + w.page.entries == entries[..i]
    requires LastLinked(w.leaves) && ClosedBefore(w.leaves, w.page, pageSize)
    ensures ReadyToAppend(CloseLeaf(w, entries[i]), entries, i, pageSize)
  {
    var closed := if w.currentPageId + 1 < INT_MAX then LeafSetNextPageId(w.page, w.currentPageId + 1) else w.page;
    assert closed.nextPageId == NextLeafId(w.currentPageId);
    LeafEntriesSnoc(w.leaves, closed);
    WriteLeafStep(w.leaves, w.infos, closed, pageSize);
    var c := CloseLeaf(w, entries[i]);
    assert c.leaves[|c.leaves| - 1] == closed;
    AppendEmpty(LeafEntries(c.leaves));
  }

  lemma FitReady(w: LeafWriter, entries: seq<IndexEntry>, i: int, pageSize: int)
    requires WriterValid(w, entries, i, pageSize) && i < |entries|
    requires LeafCanFit(w.page, entries[i], pageSize)
    ensures ReadyToAppend(w, entries, i, pageSize)
  {
  }

  /** Adding an entry that fits restores the invariant one entry further. */
  lemma AppendEntryValid(w: LeafWriter, entries: seq<IndexEntry>, i: int, pageSize: int)
    requires ReadyToAppend(w, entries, i, pageSize)
    ensures WriterValid(AppendEntry(w, entries[i]), entries, i + 1, pageSize)
  {
    var entry := entries[i];
    var w1 := if w.firstKey.None? then w.(firstKey := Some(entry.term)) else w;
    var r := AppendEntry(w, entry);
    LeafAddKeepsFit(w1.page, entry, pageSize);
    TakeSnoc(entries, i);
    AppendAssoc(LeafEntries(w1.leaves), w1.page.entries, [entry]);
    assert r.page.entries[0] == if |w1.page.entries| == 0 then entry else w1.page.entries[0];
    assert ClosedBefore(r.leaves, r.page, pageSize);
  }

  /** One iteration keeps the invariant. */
  lemma AddLeafEntryValid(w: LeafWriter, entries: seq<IndexEntry>, i: int, pageSize: int)
    requires WriterValid(w, entries, i, pageSize) == true && i < |entries|
    requires EntriesFitEmptyLeaf(entries, pageSize)
    ensures w.firstKey.Some? || LeafCanFit(w.page, entries[i], pageSize)
    ensures WriterValid(AddLeafEntry(w, entries[i], pageSize), entries, i + 1, pageSize) == true
  {
    if !LeafCanFit(w.page, entries[i], pageSize) {
      CloseLeafReady(w, entries, i, pageSize);
      AppendEntryValid(CloseLeaf(w, entries[i]), entries, i, pageSize);
    } else {
      FitReady(w, entries, i, pageSize);
      AppendEntryValid(w, entries, i, pageSize);
    }
  }

  /** Finishing turns the invariant after all entries into the result's properties. */
  lemma FinishLeavesValid(w: LeafWriter, entries: seq<IndexEntry>, pageSize: int)
    requires WriterValid(w, entries, |entries|, pageSize) == true
    ensures !LeafIsEmpty(w.page) ==> w.firstKey.Some?
    ensures var f := FinishLeaves(w);
      f.currentPageId == |f.leaves| && LeavesWritten(f.leaves, f.infos, pageSize) &&
      (|f.leaves| == 0 <==> |entries| == 0) && LeafEntries(f.leaves) == entries &&
      (|f.leaves| > 0 ==> f.leaves[|f.leaves| - 1].nextPageId == -1)
  {
    TakeAll(entries);
    if !LeafIsEmpty(w.page) {
      LeafEntriesSnoc(w.leaves, w.page);
      WriteLeafStep(w.leaves, w.infos, w.page, pageSize);
    }
  }

  /** The leaf part of `mergeAndWriteLeafPages`: ids from 0, a page is closed
      when the next entry does not fit it, each closed page points to the next
      id (while that stays below `Integer.MAX_VALUE`), the last page has no
      successor, and each page is reported with its first term. */
  function WriteLeafPages(entries: seq<IndexEntry>, pageSize: int): (r: LeafWriter)
    requires EntriesFitEmptyLeaf(entries, pageSize)
    ensures r.currentPageId == |r.leaves| == |r.infos|
    ensures |r.leaves| == 0 <==> |entries| == 0
    ensures LeafEntries(r.leaves) == entries
    ensures forall i :: 0 <= i < |r.leaves| ==>
      r.leaves[i].pageId == i && |r.leaves[i].entries| > 0 && LeafFits(r.leaves[i], pageSize) &&
      r.infos[i] == PageInfo(i, r.leaves[i].entries[0].term)
    ensures forall i :: 0 <= i < |r.leaves| - 1 ==>
      r.leaves[i].nextPageId == NextLeafId(i) && !LeafCanFit(r.leaves[i], r.leaves[i + 1].entries[0], pageSize)
    ensures |r.leaves| > 0 ==> r.leaves[|r.leaves| - 1].nextPageId == -1
  {
    StartLeavesValid(entries, pageSize);
    var w := FillLeaves(StartLeaves(), entries, 0, pageSize);
    FillLeavesValid(StartLeaves(), entries, 0, pageSize);
    FinishLeavesValid(w, entries, pageSize);
    FinishLeaves(w)
  }

  /** The loop of `mergeAndWriteLeafPages` over the merged terms from the
      `i`-th on. */
  function FillLeaves(w: LeafWriter, entries: seq<IndexEntry>, i: int, pageSize: int): LeafWriter
    requires 0 <= i <= |entries| && EntriesFitEmptyLeaf(entries, pageSize)
    requires w.firstKey.None? ==> w.page.entries == []
    decreases |entries| - i
  {
    if i == |entries| then w
    else FillLeaves(AddLeafEntry(w, entries[i], pageSize), entries, i + 1, pageSize)
  }

  /** The leaf loop keeps its invariant up to the last entry. */
  lemma {:induction false} FillLeavesValid(w: LeafWriter, entries: seq<IndexEntry>, i: int, pageSize: int)
    requires WriterValid(w, entries, i, pageSize) == true && EntriesFitEmptyLeaf(entries, pageSize)
    ensures WriterValid(FillLeaves(w, entries, i, pageSize), entries, |entries|, pageSize) == true
    decreases |entries| - i
  {
    if i < |entries| {
      AddLeafEntryValid(w, entries, i, pageSize);
      FillLeavesValid(AddLeafEntry(w, entries[i], pageSize), entries, i + 1, pageSize);
    }
  }
}
