/** `BPlusTreeSearcher`: reads the tree header, keeps the root page in
    memory, and answers a term lookup by routing through the internal pages to
    a leaf, which names the term's record in the postings file. Non-root pages
    go through the page cache. Both files are byte sequences. */
module Searcher {
  import opened JStrings
  import opened Utf
  import opened Wrappers
  import opened DataStream
  import opened Pages
  import opened PageReader
  import opened Postings
  import opened TreeBuild
  import opened TreeFile
  import opened Cache
  import Collections

  /** The fields of the 32-byte header, in file order. */
  datatype TreeHeader = TreeHeader(version: int, pageSize: int, rootPageId: int, totalPages: int, treeHeight: int)

  /** `readTreeHeader`: the magic number, then version, page size, root id,
      page count and height. A file shorter than four bytes leaves the magic
      buffer partly zero, so it fails the magic check too. */
  function ReadTreeHeader(file: seq<Byte>): (r: Result<TreeHeader, IoError>)
    ensures r.Ok? ==> |file| >= 4 && file[..4] == MAGIC
  {
    if |file| < 4 || file[..4] != MAGIC then Err(BadMagic)
    else
      var (version, r1) :- ReadShort(file[4..]);
      var (pageSize, r2) :- ReadInt(r1);
      var (root, r3) :- ReadInt(r2);
      var (total, r4) :- ReadInt(r3);
      var (height, _) :- ReadShort(r4);
      Ok(TreeHeader(version, pageSize, root, total, height))
  }

  /** The header the builder leaves behind reads back as written: version 1,
      the page size, and the patched root, page count and height. */
  lemma HeaderRoundTrip(pageSize: int, root: int, totalPages: int, height: int, body: seq<Byte>)
    requires IsInt32(pageSize) && IsInt32(root) && IsInt32(totalPages) && IsInt16(height)
    ensures ReadTreeHeader(UpdateTreeHeader(TemporaryHeader(pageSize) + body, root, totalPages, height)) ==
      Ok(TreeHeader(TREE_VERSION, pageSize, root, totalPages, height))
  {
    var file := TemporaryHeader(pageSize) + body;
    var f := UpdateTreeHeader(file, root, totalPages, height);
    var tail := file[ROOT_FIELD_OFFSET + 10..];
    assert file[..ROOT_FIELD_OFFSET] == MAGIC + WriteShort(TREE_VERSION) + WriteInt(pageSize);
    assert f[..4] == MAGIC;
    assert f[4..] == WriteShort(TREE_VERSION) + (WriteInt(pageSize) + (WriteInt(root) + (WriteInt(totalPages) + (WriteShort(height) + tail))));
    ReadWriteShort(TREE_VERSION, WriteInt(pageSize) + (WriteInt(root) + (WriteInt(totalPages) + (WriteShort(height) + tail))));
    ReadWriteInt(pageSize, WriteInt(root) + (WriteInt(totalPages) + (WriteShort(height) + tail)));
    ReadWriteInt(root, WriteInt(totalPages) + (WriteShort(height) + tail));
    ReadWriteInt(totalPages, WriteShort(height) + tail);
    ReadWriteShort(height, tail);
  }

  /** `loadPageFromDisk`: page `id` starts at byte 32 + id * pageSize. The seek
      rejects a negative offset, the buffer a negative size, and a read that
      does not fill the buffer fails; reading an empty buffer always succeeds. */
  function LoadPageFromDisk(file: seq<Byte>, pageId: int, pageSize: int): (r: Result<seq<Byte>, IoError>)
    ensures r.Ok? ==> |r.value| == pageSize
  {
    var offset := TREE_HEADER_SIZE + pageId * pageSize;
    if offset < 0 then Err(NegativeSeek)
    else if pageSize < 0 then Err(NegativeArraySize)
    else if pageSize == 0 then Ok([])
    else if offset + pageSize > |file| then Err(ShortPageRead)
    else Ok(file[offset..offset + pageSize])
  }

  lemma MulMonotone(a: int, b: int, m: int)
    requires a <= b && m >= 0
    ensures a * m <= b * m
  {
  }

  /** Of blocks all `size` bytes long, block `k` occupies bytes `k * size`
      up to `(k + 1) * size`. */
  lemma {:induction false} ConcatSlice(blocks: seq<seq<Byte>>, size: nat, k: int)
    requires forall i :: 0 <= i < |blocks| ==> |blocks[i]| == size
    requires 0 <= k < |blocks|
    ensures |Collections.Concat(blocks)| == |blocks| * size
    ensures 0 <= k * size && (k + 1) * size <= |blocks| * size
    ensures Collections.Concat(blocks)[k * size..(k + 1) * size] == blocks[k]
    decreases |blocks|
  {
    var front := blocks[..|blocks| - 1];
    var init := Collections.Concat(front);
    var last := blocks[|blocks| - 1];
    var off := k * size;
    Collections.ConcatSnoc(blocks);
    MulSucc(k, size);
    MulSucc(|front|, size);
    MulMonotone(0, k, size);
    if k == |blocks| - 1 {
      ConcatLength(front, size);
      Collections.SliceRight(init, last, off, off + size);
      Collections.TakeAll(last);
    } else {
      ConcatSlice(front, size, k);
      MulMonotone(k + 1, |front|, size);
      Collections.SliceLeft(init, last, off, off + size);
    }
  }

  lemma {:induction false} ConcatLength(blocks: seq<seq<Byte>>, size: nat)
    requires forall i :: 0 <= i < |blocks| ==> |blocks[i]| == size
    ensures |Collections.Concat(blocks)| == |blocks| * size
    decreases |blocks|
  {
    if |blocks| > 0 {
      Collections.ConcatSnoc(blocks);
      ConcatLength(blocks[..|blocks| - 1], size);
      MulSucc(|blocks| - 1, size);
    }
  }

  /** The image of every page, when all of them serialise. */
  function Images(pages: seq<TreePage>, pageSize: nat): (r: seq<seq<Byte>>)
    requires forall i :: 0 <= i < |pages| ==> PageWellFormed(pages[i]) && SerializePage(pages[i], pageSize).Ok?
    ensures |r| == |pages| && forall i :: 0 <= i < |r| ==> |r[i]| == pageSize
  {
    seq(|pages|, i requires 0 <= i < |pages| && PageWellFormed(pages[i]) && SerializePage(pages[i], pageSize).Ok? =>
      SerializePage(pages[i], pageSize).value)
  }

  /** The pages written are those before the last, then the last one. */
  lemma PagesBytesStep(pages: seq<TreePage>, pageSize: nat)
    requires forall i :: 0 <= i < |pages| ==> PageWellFormed(pages[i])
    requires PagesBytes(pages, pageSize).Ok? && |pages| > 0
    ensures forall i :: 0 <= i < |pages| - 1 ==> pages[..|pages| - 1][i] == pages[i]
    ensures PagesBytes(pages[..|pages| - 1], pageSize).Ok?
    ensures SerializePage(pages[|pages| - 1], pageSize).Ok?
    ensures PagesBytes(pages, pageSize).value ==
      PagesBytes(pages[..|pages| - 1], pageSize).value + SerializePage(pages[|pages| - 1], pageSize).value
  {
  }

  lemma ImagesSnoc(pages: seq<TreePage>, pageSize: nat)
    requires forall i :: 0 <= i < |pages| ==> PageWellFormed(pages[i]) && SerializePage(pages[i], pageSize).Ok?
    requires |pages| > 0
    ensures var front := pages[..|pages| - 1];
      (forall i :: 0 <= i < |front| ==> PageWellFormed(front[i]) && SerializePage(front[i], pageSize).Ok?) &&
      Images(pages, pageSize)[..|pages| - 1] == Images(front, pageSize) &&
      Images(pages, pageSize)[|pages| - 1] == SerializePage(pages[|pages| - 1], pageSize).value
  {
    var front := pages[..|pages| - 1];
    assert forall i :: 0 <= i < |front| ==> front[i] == pages[i];
    assert Images(pages, pageSize)[..|pages| - 1] == Images(front, pageSize);
  }

  /** The written pages are the page images back to back. */
  lemma {:induction false} PagesBytesConcat(pages: seq<TreePage>, pageSize: nat)
    requires forall i :: 0 <= i < |pages| ==> PageWellFormed(pages[i])
    requires PagesBytes(pages, pageSize).Ok?
    ensures forall i :: 0 <= i < |pages| ==> SerializePage(pages[i], pageSize).Ok?
    ensures PagesBytes(pages, pageSize).value == Collections.Concat(Images(pages, pageSize))
    decreases |pages|
  {
    if |pages| > 0 {
      var front := pages[..|pages| - 1];
      PagesBytesStep(pages, pageSize);
      PagesBytesConcat(front, pageSize);
      assert forall i :: 0 <= i < |pages| ==> SerializePage(pages[i], pageSize).Ok? by {
        forall i | 0 <= i < |pages| ensures SerializePage(pages[i], pageSize).Ok? {
          if i < |pages| - 1 { assert front[i] == pages[i]; }
        }
      }
      ImagesSnoc(pages, pageSize);
      Collections.ConcatSnoc(Images(pages, pageSize));
    }
  }

  /** Page `pageId` of a file made of a header and a body lies at `off`
      in the body. */
  lemma LoadInside(header: seq<Byte>, body: seq<Byte>, pageId: int, pageSize: int, off: int)
    requires |header| == TREE_HEADER_SIZE && pageSize > 0
    requires off == pageId * pageSize && 0 <= off && off + pageSize <= |body|
    ensures LoadPageFromDisk(header + body, pageId, pageSize) == Ok(body[off..off + pageSize])
  {
    Collections.SliceRight(header, body, |header| + off, |header| + off + pageSize);
  }

  /** Loading page `k` of a tree file gives exactly the bytes written for it. */
  lemma PageAddressing(header: seq<Byte>, pages: seq<TreePage>, pageSize: int, k: int)
    requires |header| == TREE_HEADER_SIZE && pageSize > 0
    requires forall i :: 0 <= i < |pages| ==> PageWellFormed(pages[i])
    requires PagesBytes(pages, pageSize).Ok? && 0 <= k < |pages|
    ensures SerializePage(pages[k], pageSize).Ok?
    ensures LoadPageFromDisk(header + PagesBytes(pages, pageSize).value, k, pageSize) == SerializePage(pages[k], pageSize)
  {
    PagesBytesConcat(pages, pageSize);
    var imgs := Images(pages, pageSize);
    var body := Collections.Concat(imgs);
    var img := SerializePage(pages[k], pageSize).value;
    assert imgs[k] == img;
    var off := k * pageSize;
    ConcatSlice(imgs, pageSize, k);
    MulSucc(k, pageSize);
    assert body[off..off + pageSize] == img;
    LoadInside(header, body, k, pageSize, off);
  }

  /** A page id past the last page is a short read. */
  lemma PagePastEnd(header: seq<Byte>, pages: seq<TreePage>, pageSize: int, k: int)
    requires |header| == TREE_HEADER_SIZE && pageSize > 0
    requires forall i :: 0 <= i < |pages| ==> PageWellFormed(pages[i])
    requires PagesBytes(pages, pageSize).Ok? && k >= |pages|
    ensures LoadPageFromDisk(header + PagesBytes(pages, pageSize).value, k, pageSize) == Err(ShortPageRead)
  {
    MulMonotone(|pages|, k, pageSize);
  }

  /** A parsed internal page has one child pointer per key. */
  lemma {:induction false} ReadPairsLengths(n: int, bs: seq<Byte>)
    requires ReadPairs(n, bs).Ok?
    ensures var (pairs, _) := ReadPairs(n, bs).value; |pairs.0| == |pairs.1| == if n > 0 then n else 0
    decreases n
  {
    if n > 0 {
      ReadPairsLengths(n - 1, bs);
    }
  }

  predicate PageDataWellFormed(p: InternalPageData)
  {
    |p.keys| == |p.childPointers|
  }

  lemma ParseInternalWellFormed(bytes: seq<Byte>)
    requires ParseInternal(bytes).Ok?
    ensures PageDataWellFormed(ParseInternal(bytes).value)
  {
    var (_, r1) := ReadByte(bytes).value;
    var (_, r2) := ReadByte(r1).value;
    var (n, r3) := ReadShort(r2).value;
    var (_, r4) := ReadInt(r3).value;
    ReadPairsLengths(n, r4);
  }

  /** The pointers of a page in routing order: the first pointer, then the
      pointer after each key. */
  function Children(p: InternalPageData): (r: seq<int>)
    ensures |r| == |p.childPointers| + 1
  {
    [p.firstPointer] + p.childPointers
  }

  /** The scan of `findChildPageId` from key `i` on. */
  function FindChildFrom(p: InternalPageData, t: JString, i: nat): int
    requires PageDataWellFormed(p) && 0 < |p.keys| && i <= |p.keys|
    decreases |p.keys| - i
  {
    if i == |p.keys| then p.childPointers[|p.childPointers| - 1]
    else if Less(t, p.keys[i]) then (if i == 0 then p.firstPointer else p.childPointers[i - 1])
    else if t == p.keys[i] then p.childPointers[i]
    else FindChildFrom(p, t, i + 1)
  }

  /** `findChildPageId`: below the first key go to the first pointer; else the
      first key above the term sends it to the pointer before that key, an
      equal key to the pointer after it, and past every key to the last pointer. */
  function FindChildPageId(p: InternalPageData, t: JString): (r: int)
    requires PageDataWellFormed(p)
    ensures r in Children(p)
  {
    if |p.keys| == 0 || Less(t, p.keys[0]) then p.firstPointer
    else
      FindChildFromIn(p, t, 0);
      FindChildFrom(p, t, 0)
  }

  lemma {:induction false} FindChildFromIn(p: InternalPageData, t: JString, i: nat)
    requires PageDataWellFormed(p) && 0 < |p.keys| && i <= |p.keys|
    ensures FindChildFrom(p, t, i) in Children(p)
    decreases |p.keys| - i
  {
    if i < |p.keys| && !Less(t, p.keys[i]) && t != p.keys[i] {
      FindChildFromIn(p, t, i + 1);
    } else if i == |p.keys| {
      assert Children(p)[|p.childPointers|] == p.childPointers[|p.childPointers| - 1];
    } else if Less(t, p.keys[i]) && i > 0 {
      assert Children(p)[i] == p.childPointers[i - 1];
    } else if !Less(t, p.keys[i]) {
      assert Children(p)[i + 1] == p.childPointers[i];
    }
  }

  /** The number of leading keys not above the term: the child the term is
      routed to, counted from the first pointer. */
  function RouteIndex(keys: seq<JString>, t: JString): (j: nat)
    ensures j <= |keys|
  {
    if |keys| == 0 || Less(t, keys[0]) then 0 else 1 + RouteIndex(keys[1..], t)
  }

  /** Position `j` brackets the term: every key before it is at most the term,
      and the key at it (if any) is above it. */
  predicate Brackets(keys: seq<JString>, j: int, t: JString)
  {
    0 <= j <= |keys| && (j == 0 || LessEq(keys[j - 1], t)) && (j == |keys| || Less(t, keys[j]))
  }

  lemma {:induction false} RouteIndexBrackets(keys: seq<JString>, t: JString)
    requires StrictlySorted(keys)
    ensures Brackets(keys, RouteIndex(keys, t), t)
    ensures forall i :: 0 <= i < RouteIndex(keys, t) ==> LessEq(keys[i], t)
    ensures forall i :: RouteIndex(keys, t) <= i < |keys| ==> Less(t, keys[i])
  {
    if |keys| > 0 && !Less(t, keys[0]) {
      var rest := keys[1..];
      assert StrictlySorted(rest) by {
        forall i, j | 0 <= i < j < |rest| ensures Less(rest[i], rest[j]) { assert rest[i] == keys[i + 1] && rest[j] == keys[j + 1]; }
      }
      RouteIndexBrackets(rest, t);
      LessTotal(t, keys[0]);
      forall i | RouteIndex(keys, t) <= i < |keys| ensures Less(t, keys[i]) { assert keys[i] == rest[i - 1]; }
      forall i | 0 <= i < RouteIndex(keys, t) ensures LessEq(keys[i], t) {
        if i > 0 { assert keys[i] == rest[i - 1]; }
      }
    } else if |keys| > 0 {
      forall i | 0 <= i < |keys| ensures Less(t, keys[i]) {
        if i > 0 { LessTransitive(t, keys[0], keys[i]); }
      }
    }
  }

  /** For ascending keys only `RouteIndex` brackets the term. */
  lemma BracketsUnique(keys: seq<JString>, j: int, t: JString)
    requires StrictlySorted(keys) && Brackets(keys, j, t)
    ensures j == RouteIndex(keys, t)
  {
    RouteIndexBrackets(keys, t);
    var r := RouteIndex(keys, t);
    if j < r {
      assert LessEq(keys[j], t);
      LessAsymmetric(t, keys[j]);
      LessIrreflexive(t);
    } else if r < j {
      assert LessEq(keys[j - 1], t);
      LessAsymmetric(t, keys[j - 1]);
      LessIrreflexive(t);
    }
  }

  lemma {:induction false} FindChildFromRoutes(p: InternalPageData, t: JString, i: nat)
    requires PageDataWellFormed(p) && StrictlySorted(p.keys) && 0 < |p.keys| && i <= |p.keys|
    requires 0 < i ==> LessEq(p.keys[i - 1], t)
    ensures FindChildFrom(p, t, i) == Children(p)[RouteIndex(p.keys, t)]
    decreases |p.keys| - i
  {
    RouteIndexBrackets(p.keys, t);
    if i == |p.keys| {
      BracketsUnique(p.keys, i, t);
    } else if Less(t, p.keys[i]) {
      BracketsUnique(p.keys, i, t);
    } else if t == p.keys[i] {
      if i + 1 < |p.keys| { assert Less(p.keys[i], p.keys[i + 1]); }
      BracketsUnique(p.keys, i + 1, t);
    } else {
      FindChildFromRoutes(p, t, i + 1);
    }
  }

  /** On a page with ascending keys `findChildPageId` follows the pointer
      after the last key not above the term, or the first pointer when every
      key is above it. */
  lemma FindChildRoutes(p: InternalPageData, t: JString)
    requires PageDataWellFormed(p) && StrictlySorted(p.keys)
    ensures FindChildPageId(p, t) == Children(p)[RouteIndex(p.keys, t)]
    ensures Brackets(p.keys, RouteIndex(p.keys, t), t)
  {
    RouteIndexBrackets(p.keys, t);
    if |p.keys| > 0 && !Less(t, p.keys[0]) {
      FindChildFromRoutes(p, t, 0);
    }
  }

  /** The first entry for the term, as the leaf scans return it. */
  function FindEntry(es: seq<IndexEntry>, t: JString): (r: Option<IndexEntry>)
    ensures r.None? <==> forall i :: 0 <= i < |es| ==> es[i].term != t
    ensures r.Some? ==>
      exists i :: 0 <= i < |es| && es[i] == r.value && es[i].term == t && forall j :: 0 <= j < i ==> es[j].term != t
  {
    if |es| == 0 then None
    else if es[0].term == t then Some(es[0])
    else
      var r := FindEntry(es[1..], t);
      assert forall i :: 0 < i < |es| ==> es[i] == es[1..][i - 1];
      if r.Some? then
        var i :| 0 <= i < |es[1..]| && es[1..][i] == r.value && es[1..][i].term == t &&
          forall j :: 0 <= j < i ==> es[1..][j].term != t;
        assert es[i + 1] == r.value;
        r
      else r
  }

  datatype SearchResult = SearchResult(term: JString, numDocs: int, postings: seq<PostingEntry>)
  datatype TermInfo = TermInfo(term: JString, numDocs: int, postingsOffset: int)

  /** `findTermInfoInLeaf`. */
  function FindTermInfoInLeaf(page: LeafPageData, t: JString): (r: Option<TermInfo>)
  {
    match FindEntry(page.entries, t)
    case None => None
    case Some(e) => Some(TermInfo(e.term, e.numDocs, e.postingsOffset))
  }

  /** `findTermInLeaf`: the matching entry's postings are read from its offset. */
  function FindTermInLeaf(page: LeafPageData, t: JString, postingsFile: seq<Byte>): (r: Result<Option<SearchResult>, IoError>)
  {
    match FindEntry(page.entries, t)
    case None => Ok(None)
    case Some(e) =>
      var ps :- LoadPostings(postingsFile, e.postingsOffset, e.numDocs);
      Ok(Some(SearchResult(e.term, e.numDocs, ps)))
  }

  /** An open searcher: both files, the header, the root held in memory when
      the tree has internal pages, and the page cache. */
  datatype TreeSearcher = TreeSearcher(tree: seq<Byte>, postings: seq<Byte>, header: TreeHeader,
                                       rootPage: Option<InternalPageData>, cache: PageCache)

  /** Every cached page is the page on disk, and the root is never cached. */
  ghost predicate CacheValid(c: PageCache, tree: seq<Byte>, pageSize: int, root: int)
  {
    CacheWellFormed(c) && root !in c.pages &&
    forall id :: id in c.pages ==> LoadPageFromDisk(tree, id, pageSize) == Ok(c.pages[id])
  }

  ghost predicate Ready(s: TreeSearcher)
  {
    (s.header.treeHeight == 1 <==> s.rootPage.None?) &&
    (s.rootPage.Some? ==> PageDataWellFormed(s.rootPage.value)) &&
    CacheValid(s.cache, s.tree, s.header.pageSize, s.header.rootPageId)
  }

  /** `loadRootPage`: nothing for a one-level tree, else the root parsed as an
      internal page. */
  function LoadRootPage(tree: seq<Byte>, h: TreeHeader): (r: Result<Option<InternalPageData>, IoError>)
    ensures r.Ok? ==> (r.value.None? <==> h.treeHeight == 1)
    ensures r.Ok? && r.value.Some? ==> PageDataWellFormed(r.value.value)
  {
    if h.treeHeight == 1 then Ok(None)
    else
      var bytes :- LoadPageFromDisk(tree, h.rootPageId, h.pageSize);
      var p :- ParseInternal(bytes);
      ParseInternalWellFormed(bytes);
      Ok(Some(p))
  }

  /** The constructor: header, then root, with an empty cache. */
  function Open(tree: seq<Byte>, postings: seq<Byte>): (r: Result<TreeSearcher, IoError>)
    ensures r.Ok? ==> Ready(r.value) && r.value.tree == tree && r.value.postings == postings
    ensures r.Ok? ==> r.value.cache.pages == map[] && Ok(r.value.header) == ReadTreeHeader(tree)
  {
    var h :- ReadTreeHeader(tree);
    var root :- LoadRootPage(tree, h);
    Ok(TreeSearcher(tree, postings, h, root, EmptyCache()))
  }

  /** Internal pages read from disk below the root: the loop
      `for (level = height - 1; level > 1; level--)`. */
  function InternalLoads(height: int): nat
  {
    if height > 2 then height - 2 else 0
  }

  /** `n` routing steps through internal pages read from disk, stopping at a
      -1 pointer; the result is the leaf id reached. */
  function Descend(tree: seq<Byte>, pageSize: int, cur: int, n: nat, t: JString): (r: Result<Option<int>, IoError>)
    decreases n
  {
    if n == 0 then Ok(Some(cur))
    else
      var next :- ChildOf(tree, pageSize, cur, t);
      if next == -1 then Ok(None) else Descend(tree, pageSize, next, n - 1, t)
  }

  /** One level of the descent: load internal page `cur`, parse it, and pick
      the child for `t`. */
  function ChildOf(tree: seq<Byte>, pageSize: int, cur: int, t: JString): Result<int, IoError>
  {
    var bytes :- LoadPageFromDisk(tree, cur, pageSize);
    var page :- ParseInternal(bytes);
    ParseInternalWellFormed(bytes);
    Ok(FindChildPageId(page, t))
  }

  /** The route shared by `searchTerm` and `getTermInfo`, reading every page
      from disk: the leaf to scan, or none when a -1 pointer is met. */
  function LocateLeaf(s: TreeSearcher, t: JString): (r: Result<Option<int>, IoError>)
    requires Ready(s)
  {
    var h := s.header.treeHeight;
    if h == 1 then Descend(s.tree, s.header.pageSize, s.header.rootPageId, InternalLoads(h), t)
    else
      var first := FindChildPageId(s.rootPage.value, t);
      if first == -1 then Ok(None) else Descend(s.tree, s.header.pageSize, first, InternalLoads(h), t)
  }

  /** The internal pages `Descend` loads, in order, up to the first failed
      load or parse, or the first -1 pointer. */
  function Visited(tree: seq<Byte>, pageSize: int, cur: int, n: nat, t: JString): seq<int>
    decreases n
  {
    if n == 0 then []
    else
      match ChildOf(tree, pageSize, cur, t)
      case Err(_) => [cur]
      case Ok(next) => if next == -1 then [cur] else [cur] + Visited(tree, pageSize, next, n - 1, t)
  }

  /** A descent that reaches a leaf loads exactly `n` internal pages, the
      first being the page it starts from; none loads more. */
  lemma {:induction false} DescendDepth(tree: seq<Byte>, pageSize: int, cur: int, n: nat, t: JString)
    ensures |Visited(tree, pageSize, cur, n, t)| <= n
    ensures n > 0 ==> Visited(tree, pageSize, cur, n, t)[0] == cur
    ensures Descend(tree, pageSize, cur, n, t).Ok? && Descend(tree, pageSize, cur, n, t).value.Some? ==>
      |Visited(tree, pageSize, cur, n, t)| == n
    decreases n
  {
    var c := ChildOf(tree, pageSize, cur, t);
    if n > 0 && c.Ok? && c.value != -1 {
      DescendDepth(tree, pageSize, c.value, n - 1, t);
    }
  }

  /** The internal pages a lookup loads below the root held in memory. */
  function LookupLoads(s: TreeSearcher, t: JString): seq<int>
    requires Ready(s)
  {
    var h := s.header.treeHeight;
    if h == 1 then Visited(s.tree, s.header.pageSize, s.header.rootPageId, InternalLoads(h), t)
    else
      var first := FindChildPageId(s.rootPage.value, t);
      if first == -1 then [] else Visited(s.tree, s.header.pageSize, first, InternalLoads(h), t)
  }

  /** In a one-level tree the root is the leaf and no internal page is
      loaded; in a taller one the root is routed in memory and a lookup that
      reaches a leaf loads `treeHeight - 2` internal pages from the file. */
  lemma LookupDepth(s: TreeSearcher, t: JString)
    requires Ready(s)
    ensures |LookupLoads(s, t)| <= InternalLoads(s.header.treeHeight)
    ensures s.header.treeHeight == 1 ==> LocateLeaf(s, t) == Ok(Some(s.header.rootPageId)) && LookupLoads(s, t) == []
    ensures LocateLeaf(s, t).Ok? && LocateLeaf(s, t).value.Some? && s.header.treeHeight >= 2 ==>
      |LookupLoads(s, t)| == s.header.treeHeight - 2
  {
    var h := s.header.treeHeight;
    if h == 1 {
      DescendDepth(s.tree, s.header.pageSize, s.header.rootPageId, InternalLoads(h), t);
    } else {
      var first := FindChildPageId(s.rootPage.value, t);
      if first != -1 {
        DescendDepth(s.tree, s.header.pageSize, first, InternalLoads(h), t);
      }
    }
  }

  /** `getTermInfo`, every page read from disk. */
  function TermInfoDirect(s: TreeSearcher, t: JString): (r: Result<Option<TermInfo>, IoError>)
    requires Ready(s)
    ensures |t| == 0 ==> r == Ok(None)
    ensures r.Ok? && r.value.Some? ==> r.value.value.term == t
  {
    if |t| == 0 then Ok(None)
    else
      var leaf :- LocateLeaf(s, t);
      match leaf
      case None => Ok(None)
      case Some(id) =>
        var bytes :- LoadPageFromDisk(s.tree, id, s.header.pageSize);
        var page :- ParseLeaf(bytes);
        Ok(FindTermInfoInLeaf(page, t))
  }

  /** `searchTerm`, every page read from disk. */
  function SearchDirect(s: TreeSearcher, t: JString): (r: Result<Option<SearchResult>, IoError>)
    requires Ready(s)
  {
    if |t| == 0 then Ok(None)
    else
      var leaf :- LocateLeaf(s, t);
      match leaf
      case None => Ok(None)
      case Some(id) =>
        var bytes :- LoadPageFromDisk(s.tree, id, s.header.pageSize);
        var page :- ParseLeaf(bytes);
        FindTermInLeaf(page, t, s.postings)
  }

  /** `searchTerm` is `getTermInfo` followed by reading the postings at the
      offset it reports: they find the same term, fail alike before the
      postings are read, and agree on the document count. */
  lemma SearchIsTermInfoThenPostings(s: TreeSearcher, t: JString)
    requires Ready(s)
    ensures SearchDirect(s, t) ==
      match TermInfoDirect(s, t)
      case Err(e) => Err(e)
      case Ok(None) => Ok(None)
      case Ok(Some(info)) =>
        match LoadPostings(s.postings, info.postingsOffset, info.numDocs)
        case Err(e) => Err(e)
        case Ok(ps) => Ok(Some(SearchResult(info.term, info.numDocs, ps)))
  {
  }

  /** `loadPage`: a cache hit, or a disk read that is cached unless it is the root. */
  function LoadPage(c: PageCache, tree: seq<Byte>, pageSize: int, root: int, id: int): (r: (Result<seq<Byte>, IoError>, PageCache))
  {
    var (hit, c1) := CacheGet(c, id);
    if hit.Some? then (Ok(hit.value), c1)
    else
      match LoadPageFromDisk(tree, id, pageSize)
      case Err(e) => (Err(e), c)
      case Ok(data) => (Ok(data), if id != root then CachePut(c, id, data) else c)
  }

  /** The cache is transparent: a load gives what the disk holds, and the
      cache stays consistent with the disk; a non-root page just loaded is
      held as the most recently used one. */
  lemma LoadPageTransparent(c: PageCache, tree: seq<Byte>, pageSize: int, root: int, id: int)
    requires CacheValid(c, tree, pageSize, root)
    ensures var (r, c2) := LoadPage(c, tree, pageSize, root, id);
      r == LoadPageFromDisk(tree, id, pageSize) && CacheValid(c2, tree, pageSize, root) &&
      (r.Ok? && id != root ==> id in c2.pages && c2.order[|c2.order| - 1] == id)
  {
    CacheGetFacts(c, id);
    if id !in c.pages {
      match LoadPageFromDisk(tree, id, pageSize)
      case Err(_) =>
      case Ok(data) =>
        if id != root {
          CachePutFacts(c, id, data);
        }
    }
  }

  /** The route to the leaf, through the cache; its result is the one read
      from disk. */
  method LocateLeafCached(s: TreeSearcher, t: JString) returns (leaf: Result<Option<int>, IoError>, cache: PageCache)
    requires Ready(s)
    ensures leaf == LocateLeaf(s, t)
    ensures CacheValid(cache, s.tree, s.header.pageSize, s.header.rootPageId)
  {
    cache := s.cache;
    var h := s.header.treeHeight;
    var ps := s.header.pageSize;
    var root := s.header.rootPageId;
    var cur: int;
    if h == 1 {
      cur := root;
    } else {
      cur := FindChildPageId(s.rootPage.value, t);
      if cur == -1 {
        return Ok(None), cache;
      }
    }
    var level := h - 1;
    while level > 1
      invariant CacheValid(cache, s.tree, ps, root)
      invariant Descend(s.tree, ps, cur, InternalLoads(level + 1), t) == LocateLeaf(s, t)
      decreases level
    {
      LoadPageTransparent(cache, s.tree, ps, root, cur);
      var (bytes, c2) := LoadPage(cache, s.tree, ps, root, cur);
      cache := c2;
      if bytes.Err? {
        return Err(bytes.error), cache;
      }
      var page := ParseInternal(bytes.value);
      if page.Err? {
        return Err(page.error), cache;
      }
      ParseInternalWellFormed(bytes.value);
      cur := FindChildPageId(page.value, t);
      if cur == -1 {
        return Ok(None), cache;
      }
      level := level - 1;
    }
    return Ok(Some(cur)), cache;
  }

  /** `searchTerm` through the cache: the same answer as reading every page
      from disk, and the searcher stays ready. */
  method SearchTerm(s: TreeSearcher, t: JString) returns (r: Result<Option<SearchResult>, IoError>, s2: TreeSearcher)
    requires Ready(s)
    ensures r == SearchDirect(s, t)
    ensures Ready(s2) && s2 == s.(cache := s2.cache)
  {
    if |t| == 0 {
      return Ok(None), s;
    }
    var leaf, cache := LocateLeafCached(s, t);
    s2 := s.(cache := cache);
    if leaf.Err? {
      return Err(leaf.error), s2;
    }
    if leaf.value.None? {
      return Ok(None), s2;
    }
    var ps := s.header.pageSize;
    LoadPageTransparent(cache, s.tree, ps, s.header.rootPageId, leaf.value.value);
    var (bytes, c2) := LoadPage(cache, s.tree, ps, s.header.rootPageId, leaf.value.value);
    s2 := s.(cache := c2);
    if bytes.Err? {
      return Err(bytes.error), s2;
    }
    var page := ParseLeaf(bytes.value);
    if page.Err? {
      return Err(page.error), s2;
    }
    r := FindTermInLeaf(page.value, t, s.postings);
  }

  /** `getTermInfo` through the cache. */
  method GetTermInfo(s: TreeSearcher, t: JString) returns (r: Result<Option<TermInfo>, IoError>, s2: TreeSearcher)
    requires Ready(s)
    ensures r == TermInfoDirect(s, t)
    ensures Ready(s2) && s2 == s.(cache := s2.cache)
  {
    if |t| == 0 {
      return Ok(None), s;
    }
    var leaf, cache := LocateLeafCached(s, t);
    s2 := s.(cache := cache);
    if leaf.Err? {
      return Err(leaf.error), s2;
    }
    if leaf.value.None? {
      return Ok(None), s2;
    }
    var ps := s.header.pageSize;
    LoadPageTransparent(cache, s.tree, ps, s.header.rootPageId, leaf.value.value);
    var (bytes, c2) := LoadPage(cache, s.tree, ps, s.header.rootPageId, leaf.value.value);
    s2 := s.(cache := c2);
    if bytes.Err? {
      return Err(bytes.error), s2;
    }
    var page := ParseLeaf(bytes.value);
    if page.Err? {
      return Err(page.error), s2;
    }
    r := Ok(FindTermInfoInLeaf(page.value, t));
  }

  /** `DocumentLengthsStats`: the document count is narrowed to `int`. */
  datatype LengthStats = LengthStats(documentCount: int, totalLength: int, documentLengths: map<int, int>)

  /** Java's `(int)` cast of a `long`: the low 32 bits, as a signed value. */
  function ToInt32(v: int): (r: int)
    ensures IsInt32(r)
    ensures IsInt32(v) ==> r == v
  {
    Signed(v % TWO_32, 0x8000_0000)
  }

  /** The `while (available() >= 8)` loop: (document id, length) pairs, a later
      pair for the same id replacing an earlier one; fewer than eight
      trailing bytes are ignored. */
  function ReadLengthPairs(bs: seq<Byte>, acc: map<int, int>): (r: map<int, int>)
    ensures acc.Keys <= r.Keys
    decreases |bs|
  {
    if |bs| < 8 then acc
    else
      var d := Signed(Unsigned(bs[..4]), 0x8000_0000);
      var len := Signed(Unsigned(bs[4..8]), 0x8000_0000);
      ReadLengthPairs(bs[8..], acc[d := len])
  }

  /** `loadFileLengths`: the document count and total length, then the pairs;
      a missing file or one too short for the two counts gives zeros and no
      lengths. */
  function LoadFileLengths(file: Option<seq<Byte>>): (r: LengthStats)
    ensures IsInt32(r.documentCount)
    ensures file.None? || |file.value| < 16 ==> r == LengthStats(0, 0, map[])
  {
    match file
    case None => LengthStats(0, 0, map[])
    case Some(bs) =>
      match ReadLong(bs)
      case Err(_) => LengthStats(0, 0, map[])
      case Ok((count, r1)) =>
        match ReadLong(r1)
        case Err(_) => LengthStats(0, 0, map[])
        case Ok((total, r2)) => LengthStats(ToInt32(count), total, ReadLengthPairs(r2, map[]))
  }
}
