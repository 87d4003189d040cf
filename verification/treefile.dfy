/** The tree file: the 32-byte header (`writeTemporaryTreeHeader`, patched by
    `updateTreeHeader`) followed by every page in id order, leaves first and
    then each internal level bottom-up; and `buildTreeAndPostingLists`, which
    produces it together with the postings file. */
module TreeFile {
  import opened JStrings
  import opened Utf
  import opened Wrappers
  import opened DataStream
  import opened Postings
  import opened Spimi
  import opened Pages
  import opened TreeBuild
  import opened Levels
  import opened Merge

  /** The magic number "BPT1". */
  const MAGIC: seq<Byte> := [0x42, 0x50, 0x54, 0x31]
  const TREE_VERSION: int := 1
  /** Zero bytes after the header fields: 32 - (4 + 2 + 4 + 4 + 4 + 2). */
  const HEADER_PADDING: int := 12
  /** Smallest page size for which every accepted term fits an empty leaf:
      header, and an entry of a 255-character term of 3-byte characters. */
  const MIN_PAGE_SIZE: int := PAGE_HEADER_SIZE + 14 + 3 * 255

  /** `writeTemporaryTreeHeader`: magic, version 1, the page size, then -1
      placeholders for root, page count and height, zero-padded to 32 bytes. */
  function TemporaryHeader(pageSize: int): (r: seq<Byte>)
    ensures |r| == TREE_HEADER_SIZE
    ensures r[..4] == MAGIC
  {
    MAGIC + WriteShort(TREE_VERSION) + WriteInt(pageSize) + WriteInt(-1) + WriteInt(-1) + WriteShort(-1) + Zeros(HEADER_PADDING)
  }

  /** `updateTreeHeader`: overwrites bytes 10..20 with root, page count and
      height, leaving the rest of the file alone. */
  function UpdateTreeHeader(file: seq<Byte>, root: int, totalPages: int, height: int): (r: seq<Byte>)
    requires |file| >= ROOT_FIELD_OFFSET + 10
    ensures |r| == |file|
    ensures r[..ROOT_FIELD_OFFSET] == file[..ROOT_FIELD_OFFSET]
    ensures r[ROOT_FIELD_OFFSET + 10..] == file[ROOT_FIELD_OFFSET + 10..]
  {
    file[..ROOT_FIELD_OFFSET] + WriteInt(root) + WriteInt(totalPages) + WriteShort(height) + file[ROOT_FIELD_OFFSET + 10..]
  }

  /** A page of the tree file. */
  datatype TreePage = LeafNode(leaf: LeafPage) | InternalNode(node: InternalPage)

  function PageIdOf(p: TreePage): int
  {
    match p
    case LeafNode(l) => l.pageId
    case InternalNode(n) => n.pageId
  }

  predicate PageWellFormed(p: TreePage)
  {
    p.InternalNode? ==> InternalWellFormed(p.node)
  }

  function SerializePage(p: TreePage, pageSize: nat): (r: Result<seq<Byte>, IoError>)
    requires PageWellFormed(p)
    ensures r.Ok? ==> |r.value| == pageSize
  {
    match p
    case LeafNode(l) => SerializeLeaf(l, pageSize)
    case InternalNode(n) => SerializeInternal(n, pageSize)
  }

  /** The pages as written, back to back; the first serialisation failure
      (a term too long for `writeUTF`) aborts. */
  function PagesBytes(pages: seq<TreePage>, pageSize: nat): (r: Result<seq<Byte>, IoError>)
    requires forall i :: 0 <= i < |pages| ==> PageWellFormed(pages[i])
    ensures r.Ok? ==> |r.value| == |pages| * pageSize
  {
    if |pages| == 0 then Ok([])
    else
      var front := pages[..|pages| - 1];
      assert forall i :: 0 <= i < |front| ==> front[i] == pages[i];
      var init :- PagesBytes(front, pageSize);
      var last :- SerializePage(pages[|pages| - 1], pageSize);
      MulSucc(|front|, pageSize);
      Ok(init + last)
  }

  lemma MulSucc(n: int, m: int)
    ensures (n + 1) * m == n * m + m
  {
  }

  function LevelPages(levels: seq<Level>): seq<InternalPage>
  {
    if |levels| == 0 then [] else levels[0].pages + LevelPages(levels[1..])
  }

  function LeafNodes(leaves: seq<LeafPage>): (r: seq<TreePage>)
    ensures |r| == |leaves|
    ensures forall i :: 0 <= i < |leaves| ==> r[i] == LeafNode(leaves[i])
  {
    seq(|leaves|, i requires 0 <= i < |leaves| => LeafNode(leaves[i]))
  }

  function InternalNodes(nodes: seq<InternalPage>): (r: seq<TreePage>)
    ensures |r| == |nodes|
    ensures forall i :: 0 <= i < |nodes| ==> r[i] == InternalNode(nodes[i])
  {
    seq(|nodes|, i requires 0 <= i < |nodes| => InternalNode(nodes[i]))
  }

  /** The built tree: leaves, internal levels bottom-up, and the header values. */
  datatype TreeImage = TreeImage(leaves: seq<LeafPage>, levels: seq<Level>, root: int, totalPages: int, height: int)

  /** Pages in the order they are written, which is their id order. */
  function TreePages(img: TreeImage): seq<TreePage>
  {
    LeafNodes(img.leaves) + InternalNodes(LevelPages(img.levels))
  }

  /** Every internal page built keeps its keys and children in lock-step. */
  lemma {:induction false} LevelPagesWellFormed(level: seq<PageInfo>, levels: seq<Level>, startId: int, root: int, pageSize: int)
    requires LevelsChain(level, levels, startId, root, pageSize)
    ensures forall i :: 0 <= i < |LevelPages(levels)| ==> InternalWellFormed(LevelPages(levels)[i])
    ensures |LevelPages(levels)| == LevelsSize(levels)
    decreases |levels|
  {
    if |levels| > 0 {
      var l := levels[0];
      LevelPagesWellFormed(l.parents, levels[1..], startId + |l.pages|, root, pageSize);
      forall j | 0 <= j < |l.pages| ensures InternalWellFormed(l.pages[j]) {
        assert Covers(l.pages[j], l.parents[j].firstKey, level, Start(l.pages, j), Start(l.pages, j + 1));
      }
    }
  }

  /** Why the index could not be built. */
  datatype BuildError =
    | NoTerms              // `currentLevel.get(0)` on an empty list
    | WriteFailed(e: IoError)

  /** Every accepted term fits an empty leaf of at least `MIN_PAGE_SIZE` bytes. */
  lemma AcceptedEntriesFit(recs: Block, offset: int, pageSize: int)
    requires forall k :: 0 <= k < |recs| ==> Accepted(recs[k].term)
    requires pageSize >= MIN_PAGE_SIZE
    ensures EntriesFitEmptyLeaf(TermEntries(recs, offset), pageSize)
  {
    TermEntriesFacts(recs, offset);
  }

  /** The leaf infos carry real ids and keys that fit an internal page. */
  lemma LeafInfosUsable(entries: seq<IndexEntry>, pageSize: int)
    requires EntriesFitEmptyLeaf(entries, pageSize)
    ensures var w := WriteLeafPages(entries, pageSize);
      IdsNonNegative(w.infos) && KeysFitEmptyInternal(w.infos, pageSize)
  {
    var w := WriteLeafPages(entries, pageSize);
    forall k | 0 <= k < |w.infos| ensures PAGE_HEADER_SIZE + KeySize(w.infos[k].firstKey) <= pageSize {
      assert w.infos[k].firstKey == w.leaves[k].entries[0].term;
      assert LeafFits(w.leaves[k], pageSize);
      LeafEntryFitsPage(w.leaves[k], pageSize);
    }
  }

  /** The first entry of a page within its size fits an empty page too. */
  lemma LeafEntryFitsPage(p: LeafPage, pageSize: int)
    requires |p.entries| > 0 && LeafFits(p, pageSize)
    ensures PAGE_HEADER_SIZE + EntrySize(p.entries[0]) <= pageSize
  {
    assert p.entries == [p.entries[0]] + p.entries[1..];
    EntriesSizeAppend([p.entries[0]], p.entries[1..]);
    assert [p.entries[0]][..0] == [];
  }

  /** The tree of a non-empty, ascending run of entries: the leaves, and above
      them the internal levels with ids continuing after the last leaf. */
  function BuildTree(entries: seq<IndexEntry>, pageSize: int): (r: Result<TreeImage, BuildError>)
    requires EntriesFitEmptyLeaf(entries, pageSize) && pageSize >= PAGE_HEADER_SIZE
    ensures r.Err? <==> |entries| == 0
    ensures r.Ok? ==> r.value.leaves == WriteLeafPages(entries, pageSize).leaves
    ensures r.Ok? ==> LevelsChain(WriteLeafPages(entries, pageSize).infos, r.value.levels, |r.value.leaves|, r.value.root, pageSize)
    ensures r.Ok? ==> r.value.totalPages == |r.value.leaves| + LevelsSize(r.value.levels)
    ensures r.Ok? ==> r.value.height == 1 + |r.value.levels|
  {
    var w := WriteLeafPages(entries, pageSize);
    if |w.infos| == 0 then Err(NoTerms)
    else
      LeafInfosUsable(entries, pageSize);
      var t := WriteInternalLevels(w.infos, w.currentPageId, pageSize);
      Ok(TreeImage(w.leaves, t.levels, t.root, t.nextPageId, 1 + |t.levels|))
  }

  /** The tree file: the patched header followed by every page. */
  function TreeFileBytes(img: TreeImage, pageSize: nat): (r: Result<seq<Byte>, IoError>)
    requires forall i :: 0 <= i < |TreePages(img)| ==> PageWellFormed(TreePages(img)[i])
    ensures r.Ok? ==> |r.value| == TREE_HEADER_SIZE + |TreePages(img)| * pageSize
  {
    var body :- PagesBytes(TreePages(img), pageSize);
    Ok(UpdateTreeHeader(TemporaryHeader(pageSize) + body, img.root, img.totalPages, img.height))
  }

  /** The two files `buildTreeAndPostingLists` writes. */
  datatype IndexFiles = IndexFiles(tree: seq<Byte>, postings: seq<Byte>)

  /** `buildTreeAndPostingLists` over the merged records: postings from
      offset 0, leaves from the recorded entries, internal levels, header. */
  function BuildTreeAndPostingLists(recs: Block, pageSize: int): (r: Result<IndexFiles, BuildError>)
    requires forall k :: 0 <= k < |recs| ==> Accepted(recs[k].term)
    requires pageSize >= MIN_PAGE_SIZE
    ensures r.Err? && r.error == NoTerms <==> |recs| == 0
    ensures r.Ok? ==> r.value.postings == PostingsFile(recs, 0)
  {
    var entries := TermEntries(recs, 0);
    AcceptedEntriesFit(recs, 0, pageSize);
    match BuildTree(entries, pageSize)
    case Err(e) => Err(e)
    case Ok(img) =>
      WellFormedPages(img, entries, pageSize);
      match TreeFileBytes(img, pageSize)
      case Err(e) => Err(WriteFailed(e))
      case Ok(tree) => Ok(IndexFiles(tree, PostingsFile(recs, 0)))
  }

  lemma WellFormedPages(img: TreeImage, entries: seq<IndexEntry>, pageSize: int)
    requires EntriesFitEmptyLeaf(entries, pageSize) && pageSize >= PAGE_HEADER_SIZE
    requires BuildTree(entries, pageSize) == Ok(img)
    ensures forall i :: 0 <= i < |TreePages(img)| ==> PageWellFormed(TreePages(img)[i])
  {
    var w := WriteLeafPages(entries, pageSize);
    LevelPagesWellFormed(w.infos, img.levels, |img.leaves|, img.root, pageSize);
    NodesWellFormed(img.leaves, LevelPages(img.levels));
  }

  lemma NodesWellFormed(leaves: seq<LeafPage>, nodes: seq<InternalPage>)
    requires forall i :: 0 <= i < |nodes| ==> InternalWellFormed(nodes[i])
    ensures forall i :: 0 <= i < |LeafNodes(leaves) + InternalNodes(nodes)| ==>
      PageWellFormed((LeafNodes(leaves) + InternalNodes(nodes))[i])
  {
    var ls := LeafNodes(leaves);
    var ns := InternalNodes(nodes);
    forall i | 0 <= i < |ls + ns| ensures PageWellFormed((ls + ns)[i]) {
      if i >= |ls| {
        assert (ls + ns)[i] == ns[i - |ls|];
      }
    }
  }

  /** Every term of well-formed blocks was accepted. */
  lemma {:induction false} AllTermsAccepted(blocks: seq<Block>)
    requires BlocksWellFormed(blocks)
    ensures forall t :: t in AllTerms(blocks) ==> Accepted(t)
    decreases |blocks|
  {
    if |blocks| > 0 {
      var init := blocks[..|blocks| - 1];
      assert BlocksWellFormed(init) by {
        forall i | 0 <= i < |init| ensures BlockWellFormed(init[i]) { assert init[i] == blocks[i]; }
      }
      AllTermsAccepted(init);
      var last := blocks[|blocks| - 1];
      assert BlockWellFormed(last);
      forall t | t in TermSet(last) ensures Accepted(t) {
        var j :| 0 <= j < |last| && last[j].term == t;
      }
    }
  }

  /** The merged records of well-formed blocks are ascending, accepted, and
      empty exactly when the blocks hold no term. */
  lemma MergedAccepted(blocks: seq<Block>)
    requires BlocksWellFormed(blocks)
    ensures AllAscending(blocks)
    ensures TermsAscending(MergeStreams(blocks))
    ensures forall k :: 0 <= k < |MergeStreams(blocks)| ==> Accepted(MergeStreams(blocks)[k].term)
    ensures |MergeStreams(blocks)| == 0 <==> AllTerms(blocks) == {}
  {
    assert AllAscending(blocks) by {
      forall i | 0 <= i < |blocks| ensures TermsAscending(blocks[i]) { assert BlockWellFormed(blocks[i]); }
    }
    MergeTerms(blocks);
    AllTermsAccepted(blocks);
    var out := MergeStreams(blocks);
    forall k | 0 <= k < |out| ensures Accepted(out[k].term) {
      assert out[k].term in TermSet(out);
    }
    if |out| > 0 {
      assert out[0].term in TermSet(out);
    }
  }

  /** `mergeBlocks`: the last block is flushed (`writeBlockToDisk`, which
      writes nothing for an empty in-memory index and, however its write ends,
      counts what `Spimi.WriteBlockToDisk` says), then the k-way merge of the block files gives the
      two output files. */
  method MergeIndex(b: Builder, spill: Spill, pageSize: int) returns (r: Result<IndexFiles, BuildError>)
    requires Valid(b)
    requires pageSize >= MIN_PAGE_SIZE
    ensures var blocks := WriteBlockToDisk(b, spill).blocks;
      r.Err? && r.error == NoTerms <==> AllTerms(blocks) == {}
    ensures var blocks := WriteBlockToDisk(b, spill).blocks;
      forall k :: 0 <= k < |MergeStreams(blocks)| ==> Accepted(MergeStreams(blocks)[k].term)
    ensures r == BuildTreeAndPostingLists(MergeStreams(WriteBlockToDisk(b, spill).blocks), pageSize)
  {
    var flushed := WriteBlockToDisk(b, spill);
    MergedAccepted(flushed.blocks);
    var merged := MergeBlocks(flushed.blocks);
    r := BuildTreeAndPostingLists(merged, pageSize);
  }
}
