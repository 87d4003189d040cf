/** `writeInternalLevels`: the pages of one level are grouped greedily into
    internal pages, each reported to the level above with the first key of
    its first child, until a single page is left; that page is the root. */
module Levels {
  import opened JStrings
  import opened Wrappers
  import opened Pages
  import opened TreeBuild

  /** Every page of a level has a real (non-negative) id. */
  predicate IdsNonNegative(level: seq<PageInfo>)
  {
    forall k :: 0 <= k < |level| ==> level[k].pageId >= 0
  }

  /** Every first key fits an internal page holding only its first pointer. */
  predicate KeysFitEmptyInternal(level: seq<PageInfo>, pageSize: int)
  {
    forall k :: 0 <= k < |level| ==> PAGE_HEADER_SIZE + KeySize(level[k].firstKey) <= pageSize
  }

  /** Page `p`, reported with `firstKey`, holds the children `level[a..b]`:
      the first as `firstPointer` (whose first key it reports), each further
      one with its first key as separator. */
  predicate Covers(p: InternalPage, firstKey: JString, level: seq<PageInfo>, a: int, b: int)
  {
    0 <= a < b <= |level| && p.firstPointer == level[a].pageId && firstKey == level[a].firstKey &&
    |p.keys| == b - a - 1 && |p.childPointers| == b - a - 1 &&
    forall k :: 0 <= k < b - a - 1 ==>
      p.keys[k] == level[a + 1 + k].firstKey && p.childPointers[k] == level[a + 1 + k].pageId
  }

  /** Number of children held by `pages[..j]`: page `j` starts there. */
  function Start(pages: seq<InternalPage>, j: int): int
    requires 0 <= j <= |pages|
  {
    if j == 0 then 0 else Start(pages, j - 1) + 1 + |pages[j - 1].childPointers|
  }

  lemma {:induction false} StartSnoc(pages: seq<InternalPage>, p: InternalPage, j: int)
    requires 0 <= j <= |pages|
    ensures Start(pages + [p], j) == Start(pages, j)
  {
    if j > 0 {
      StartSnoc(pages, p, j - 1);
      assert (pages + [p])[j - 1] == pages[j - 1];
    }
  }

  lemma {:induction false} StartMonotone(pages: seq<InternalPage>, i: int, j: int)
    requires 0 <= i < j <= |pages|
    ensures Start(pages, i) < Start(pages, j)
    decreases j - i
  {
    if i + 1 < j {
      StartMonotone(pages, i, j - 1);
    }
  }

  /** The pages of one level, written so far: ids from `startId`, page `j`
      covers the children from `Start(pages, j)` to `Start(pages, j + 1)`
      and is reported with the first key of its first child, each fits its
      page size, and each was closed because the next child's key did not fit. */
  predicate LevelWritten(level: seq<PageInfo>, pages: seq<InternalPage>, parents: seq<PageInfo>, startId: int, pageSize: int)
  {
    |parents| == |pages| && PagesCover(level, pages, parents, startId, pageSize) && ClosedWhenFull(pages, parents, pageSize)
  }

  predicate PagesCover(level: seq<PageInfo>, pages: seq<InternalPage>, parents: seq<PageInfo>, startId: int, pageSize: int)
    requires |parents| == |pages|
  {
    forall j :: 0 <= j < |pages| ==>
      pages[j].pageId == startId + j &&
      parents[j].pageId == startId + j &&
      Covers(pages[j], parents[j].firstKey, level, Start(pages, j), Start(pages, j + 1)) &&
      InternalFits(pages[j], pageSize)
  }

  predicate ClosedWhenFull(pages: seq<InternalPage>, parents: seq<PageInfo>, pageSize: int)
    requires |parents| == |pages|
  {
    forall j :: 0 <= j < |pages| - 1 ==> !InternalCanFit(pages[j], parents[j + 1].firstKey, pageSize)
  }

  /** The state of the loop over one level: pages written, their infos, the
      page id counter, the page being filled and `firstKeyInPage`. */
  datatype LevelWriter = LevelWriter(pages: seq<InternalPage>, parents: seq<PageInfo>, currentPageId: int,
                                     page: InternalPage, firstKey: Option<JString>)

  function StartLevel(startId: int): LevelWriter
  {
    LevelWriter([], [], startId, NewInternalPage(startId), None)
  }

  /** Closing the current page because `child`'s key does not fit: the page
      is written and reported, and a fresh page starts with `child` as its
      first pointer. */
  function CloseInternal(w: LevelWriter, child: PageInfo): LevelWriter
    requires w.firstKey.Some?
  {
    LevelWriter(w.pages + [w.page], w.parents + [PageInfo(w.currentPageId, w.firstKey.value)],
                w.currentPageId + 1, InternalAddFirstChild(NewInternalPage(w.currentPageId + 1), child.pageId),
                Some(child.firstKey))
  }

  /** One iteration: the first child becomes the first pointer; a later one
      is added with its first key as separator, after closing the page when
      that key does not fit. */
  function AddLevelChild(w: LevelWriter, child: PageInfo, i: int, pageSize: int): LevelWriter
    requires i == 0 || w.firstKey.Some?
  {
    if i == 0 then w.(page := InternalAddFirstChild(w.page, child.pageId), firstKey := Some(child.firstKey))
    else if !InternalCanFit(w.page, child.firstKey, pageSize) then CloseInternal(w, child)
    else w.(page := InternalAddChild(w.page, child.firstKey, child.pageId))
  }

  /** After the loop: a non-empty last page is written and reported. */
  function FinishLevel(w: LevelWriter): LevelWriter
    requires !InternalIsEmpty(w.page) ==> w.firstKey.Some?
  {
    if !InternalIsEmpty(w.page) then
      LevelWriter(w.pages + [w.page], w.parents + [PageInfo(w.currentPageId, w.firstKey.value)],
                  w.currentPageId + 1, w.page, w.firstKey)
    else w
  }

  /** The loop invariant after `i` children. Every closed page holds at
      least two children, which is what makes the levels shrink. */
  predicate LevelValid(w: LevelWriter, level: seq<PageInfo>, i: int, startId: int, pageSize: int)
  {
    0 <= i <= |level| &&
    w.currentPageId == startId + |w.pages| &&
    LevelWritten(level, w.pages, w.parents, startId, pageSize) &&
    2 * |w.pages| <= Start(w.pages, |w.pages|) &&
    w.page.pageId == w.currentPageId && InternalFits(w.page, pageSize) &&
    (i == 0 ==> |w.pages| == 0 && w.page == NewInternalPage(w.currentPageId) && w.firstKey.None?) &&
    (i > 0 ==> w.firstKey.Some? && Covers(w.page, w.firstKey.value, level, Start(w.pages, |w.pages|), i)) &&
    (i > 0 && |w.pages| > 0 ==> !InternalCanFit(w.pages[|w.pages| - 1], w.firstKey.value, pageSize))
  }

  lemma StartLevelValid(level: seq<PageInfo>, startId: int, pageSize: int)
    requires pageSize >= PAGE_HEADER_SIZE
    ensures LevelValid(StartLevel(startId), level, 0, startId, pageSize)
  {
  }

  lemma FirstChildValid(w: LevelWriter, level: seq<PageInfo>, startId: int, pageSize: int)
    requires LevelValid(w, level, 0, startId, pageSize) && 0 < |level|
    ensures LevelValid(AddLevelChild(w, level[0], 0, pageSize), level, 1, startId, pageSize)
  {
  }

  /** Adding a child to a page that covers `level[a..i]` makes it cover `level[a..i + 1]`. */
  lemma CoversSnoc(p: InternalPage, key: JString, level: seq<PageInfo>, a: int, i: int)
    requires Covers(p, key, level, a, i) && i < |level|
    ensures Covers(InternalAddChild(p, level[i].firstKey, level[i].pageId), key, level, a, i + 1)
  {
    var q := InternalAddChild(p, level[i].firstKey, level[i].pageId);
    forall k | 0 <= k < i + 1 - a - 1
      ensures q.keys[k] == level[a + 1 + k].firstKey && q.childPointers[k] == level[a + 1 + k].pageId
    {
      if k < i - a - 1 {
        assert q.keys[k] == p.keys[k] && q.childPointers[k] == p.childPointers[k];
      }
    }
  }

  lemma AddChildValid(w: LevelWriter, level: seq<PageInfo>, i: int, startId: int, pageSize: int)
    requires LevelValid(w, level, i, startId, pageSize) && 0 < i < |level|
    requires InternalCanFit(w.page, level[i].firstKey, pageSize)
    ensures LevelValid(AddLevelChild(w, level[i], i, pageSize), level, i + 1, startId, pageSize)
  {
    InternalAddKeepsFit(w.page, level[i].firstKey, level[i].pageId, pageSize);
    CoversSnoc(w.page, w.firstKey.value, level, Start(w.pages, |w.pages|), i);
  }

  /** Appending a page changes no earlier start and starts the next page
      after its children. */
  lemma StartAppend(pages: seq<InternalPage>, p: InternalPage)
    ensures forall j :: 0 <= j <= |pages| ==> Start(pages + [p], j) == Start(pages, j)
    ensures Start(pages + [p], |pages| + 1) == Start(pages, |pages|) + 1 + |p.childPointers|
  {
    forall j | 0 <= j <= |pages| ensures Start(pages + [p], j) == Start(pages, j) {
      StartSnoc(pages, p, j);
    }
    assert (pages + [p])[|pages|] == p;
  }

  /** Appending a page that covers the next children, reported with its
      first child's key, keeps `LevelWritten`. */
  lemma LevelWrittenSnoc(level: seq<PageInfo>, pages: seq<InternalPage>, parents: seq<PageInfo>,
                         p: InternalPage, key: JString, b: int, startId: int, pageSize: int)
    requires LevelWritten(level, pages, parents, startId, pageSize)
    requires p.pageId == startId + |pages| && InternalFits(p, pageSize)
    requires Covers(p, key, level, Start(pages, |pages|), b)
    requires |pages| > 0 ==> !InternalCanFit(pages[|pages| - 1], key, pageSize)
    ensures Start(pages + [p], |pages| + 1) == b
    ensures LevelWritten(level, pages + [p], parents + [PageInfo(startId + |pages|, key)], startId, pageSize)
  {
    StartAppend(pages, p);
    PagesCoverSnoc(level, pages, parents, p, key, b, startId, pageSize);
    ClosedWhenFullSnoc(pages, parents, p, key, startId, pageSize);
  }

  lemma PagesCoverSnoc(level: seq<PageInfo>, pages: seq<InternalPage>, parents: seq<PageInfo>,
                       p: InternalPage, key: JString, b: int, startId: int, pageSize: int)
    requires |parents| == |pages| && PagesCover(level, pages, parents, startId, pageSize)
    requires p.pageId == startId + |pages| && InternalFits(p, pageSize)
    requires Covers(p, key, level, Start(pages, |pages|), b)
    ensures PagesCover(level, pages + [p], parents + [PageInfo(startId + |pages|, key)], startId, pageSize)
  {
    var ps := pages + [p];
    var fs := parents + [PageInfo(startId + |pages|, key)];
    StartAppend(pages, p);
    forall j | 0 <= j < |ps|
      ensures ps[j].pageId == startId + j && fs[j].pageId == startId + j &&
        Covers(ps[j], fs[j].firstKey, level, Start(ps, j), Start(ps, j + 1)) && InternalFits(ps[j], pageSize)
    {
    }
  }

  lemma ClosedWhenFullSnoc(pages: seq<InternalPage>, parents: seq<PageInfo>,
                           p: InternalPage, key: JString, startId: int, pageSize: int)
    requires |parents| == |pages| && ClosedWhenFull(pages, parents, pageSize)
    requires |pages| > 0 ==> !InternalCanFit(pages[|pages| - 1], key, pageSize)
    ensures ClosedWhenFull(pages + [p], parents + [PageInfo(startId + |pages|, key)], pageSize)
  {
    var ps := pages + [p];
    var fs := parents + [PageInfo(startId + |pages|, key)];
    forall j | 0 <= j < |ps| - 1
      ensures !InternalCanFit(ps[j], fs[j + 1].firstKey, pageSize)
    {
      if j + 1 < |pages| {
        assert ps[j] == pages[j] && fs[j + 1] == parents[j + 1];
      }
    }
  }

  /** Writing the current page keeps `LevelWritten`. */
  lemma WriteInternalStep(level: seq<PageInfo>, w: LevelWriter, i: int, startId: int, pageSize: int)
    requires LevelValid(w, level, i, startId, pageSize) && 0 < i <= |level|
    ensures var ps := w.pages + [w.page];
      Start(ps, |ps|) == i && Start(ps, |w.pages|) == Start(w.pages, |w.pages|) &&
      LevelWritten(level, ps, w.parents + [PageInfo(w.currentPageId, w.firstKey.value)], startId, pageSize)
  {
    StartAppend(w.pages, w.page);
    LevelWrittenSnoc(level, w.pages, w.parents, w.page, w.firstKey.value, i, startId, pageSize);
  }

  lemma CloseInternalValid(w: LevelWriter, level: seq<PageInfo>, i: int, startId: int, pageSize: int)
    requires LevelValid(w, level, i, startId, pageSize) && 0 < i < |level|
    requires KeysFitEmptyInternal(level, pageSize)
    requires !InternalCanFit(w.page, level[i].firstKey, pageSize)
    ensures w.firstKey.Some?
    ensures LevelValid(AddLevelChild(w, level[i], i, pageSize), level, i + 1, startId, pageSize)
  {
    assert PAGE_HEADER_SIZE + KeySize(level[i].firstKey) <= pageSize;
    assert |w.page.keys| > 0;
    WriteInternalStep(level, w, i, startId, pageSize);
    var c := CloseInternal(w, level[i]);
    assert c.pages[|c.pages| - 1] == w.page;
  }

  lemma AddLevelChildValid(w: LevelWriter, level: seq<PageInfo>, i: int, startId: int, pageSize: int)
    requires LevelValid(w, level, i, startId, pageSize) && i < |level|
    requires KeysFitEmptyInternal(level, pageSize)
    ensures i == 0 || w.firstKey.Some?
    ensures LevelValid(AddLevelChild(w, level[i], i, pageSize), level, i + 1, startId, pageSize)
  {
    if i == 0 {
      FirstChildValid(w, level, startId, pageSize);
    } else if !InternalCanFit(w.page, level[i].firstKey, pageSize) {
      CloseInternalValid(w, level, i, startId, pageSize);
    } else {
      AddChildValid(w, level, i, startId, pageSize);
    }
  }

  /** The loop over the children of one level from the `i`-th on. */
  function FillLevel(w: LevelWriter, level: seq<PageInfo>, i: int, startId: int, pageSize: int): (r: LevelWriter)
    requires LevelValid(w, level, i, startId, pageSize)
    requires KeysFitEmptyInternal(level, pageSize)
    ensures LevelValid(r, level, |level|, startId, pageSize)
    decreases |level| - i
  {
    if i == |level| then w
    else
      AddLevelChildValid(w, level, i, startId, pageSize);
      FillLevel(AddLevelChild(w, level[i], i, pageSize), level, i + 1, startId, pageSize)
  }

  /** The result of one level: its pages and their infos for the next level. */
  datatype Level = Level(pages: seq<InternalPage>, parents: seq<PageInfo>)

  /** Groups `level` into pages with ids from `startId`. */
  function BuildLevel(level: seq<PageInfo>, startId: int, pageSize: int): Level
    requires 0 < |level| && IdsNonNegative(level)
    requires KeysFitEmptyInternal(level, pageSize) && pageSize >= PAGE_HEADER_SIZE
  {
    StartLevelValid(level, startId, pageSize);
    var w := FillLevel(StartLevel(startId), level, 0, startId, pageSize);
    assert w.page.firstPointer >= 0;
    var f := FinishLevel(w);
    Level(f.pages, f.parents)
  }

  /** One level covers every child exactly once, in order, with ids from
      `startId`, and has fewer pages than children unless it has one child. */
  lemma BuildLevelFacts(level: seq<PageInfo>, startId: int, pageSize: int)
    requires 0 < |level| && IdsNonNegative(level)
    requires KeysFitEmptyInternal(level, pageSize) && pageSize >= PAGE_HEADER_SIZE
    ensures var l := BuildLevel(level, startId, pageSize);
      LevelWritten(level, l.pages, l.parents, startId, pageSize) &&
      Start(l.pages, |l.pages|) == |level| &&
      0 < |l.pages| && (|level| > 1 ==> |l.pages| < |level|)
  {
    StartLevelValid(level, startId, pageSize);
    var w := FillLevel(StartLevel(startId), level, 0, startId, pageSize);
    assert w.page.firstPointer >= 0;
    WriteInternalStep(level, w, |level|, startId, pageSize);
    var ps := w.pages + [w.page];
    assert Start(ps, |ps|) == Start(w.pages, |w.pages|) + 1 + |w.page.childPointers|;
  }

  /** The first keys of a level ascend strictly. */
  predicate KeysAscending(level: seq<PageInfo>)
  {
    forall i, j :: 0 <= i < j < |level| ==> Less(level[i].firstKey, level[j].firstKey)
  }

  /** The infos passed up keep what the next level needs: real ids, keys
      that fit, and (when the children's keys ascend) ascending keys. */
  lemma ParentsInherit(level: seq<PageInfo>, l: Level, startId: int, pageSize: int)
    requires LevelWritten(level, l.pages, l.parents, startId, pageSize) && startId >= 0
    requires KeysFitEmptyInternal(level, pageSize)
    ensures IdsNonNegative(l.parents)
    ensures KeysFitEmptyInternal(l.parents, pageSize)
    ensures KeysAscending(level) ==> KeysAscending(l.parents)
  {
    forall j | 0 <= j < |l.parents| ensures PAGE_HEADER_SIZE + KeySize(l.parents[j].firstKey) <= pageSize {
      assert Covers(l.pages[j], l.parents[j].firstKey, level, Start(l.pages, j), Start(l.pages, j + 1));
    }
    if KeysAscending(level) {
      forall i, j | 0 <= i < j < |l.parents| ensures Less(l.parents[i].firstKey, l.parents[j].firstKey) {
        assert Covers(l.pages[i], l.parents[i].firstKey, level, Start(l.pages, i), Start(l.pages, i + 1));
        assert Covers(l.pages[j], l.parents[j].firstKey, level, Start(l.pages, j), Start(l.pages, j + 1));
        StartMonotone(l.pages, i, j);
      }
    }
  }

  /** The levels above `level`, bottom-up: each is `level`'s grouping into
      pages with consecutive ids from `startId`, and the last is a single page,
      the root. */
  predicate LevelsChain(level: seq<PageInfo>, levels: seq<Level>, startId: int, root: int, pageSize: int)
    decreases |levels|
  {
    if |levels| == 0 then |level| == 1 && root == level[0].pageId
    else
      |level| > 1 &&
      LevelWritten(level, levels[0].pages, levels[0].parents, startId, pageSize) &&
      Start(levels[0].pages, |levels[0].pages|) == |level| &&
      LevelsChain(levels[0].parents, levels[1..], startId + |levels[0].pages|, root, pageSize)
  }

  /** Number of pages in a run of levels. */
  function LevelsSize(levels: seq<Level>): nat
  {
    if |levels| == 0 then 0 else |levels[0].pages| + LevelsSize(levels[1..])
  }

  /** The result of `writeInternalLevels`: the levels written, the root id
      and the page id counter afterwards. */
  datatype InternalTree = InternalTree(levels: seq<Level>, root: int, nextPageId: int)

  /** `writeInternalLevels`: while more than one page is left, the level is
      grouped into pages with the next ids; the last page left is the root.
      The height grows by one per level written. */
  function WriteInternalLevels(level: seq<PageInfo>, startId: int, pageSize: int): (r: InternalTree)
    requires 0 < |level| && IdsNonNegative(level) && startId >= 0
    requires KeysFitEmptyInternal(level, pageSize) && pageSize >= PAGE_HEADER_SIZE
    ensures LevelsChain(level, r.levels, startId, r.root, pageSize)
    ensures r.nextPageId == startId + LevelsSize(r.levels)
    ensures r.root >= 0
    decreases |level|
  {
    if |level| == 1 then InternalTree([], level[0].pageId, startId)
    else
      var l := BuildLevel(level, startId, pageSize);
      BuildLevelFacts(level, startId, pageSize);
      ParentsInherit(level, l, startId, pageSize);
      var rest := WriteInternalLevels(l.parents, startId + |l.pages|, pageSize);
      ChainCons(level, l, rest.levels, startId, rest.root, pageSize);
      InternalTree([l] + rest.levels, rest.root, rest.nextPageId)
  }

  lemma ChainCons(level: seq<PageInfo>, l: Level, rest: seq<Level>, startId: int, root: int, pageSize: int)
    requires |level| > 1
    requires LevelWritten(level, l.pages, l.parents, startId, pageSize)
    requires Start(l.pages, |l.pages|) == |level|
    requires LevelsChain(l.parents, rest, startId + |l.pages|, root, pageSize)
    ensures LevelsChain(level, [l] + rest, startId, root, pageSize)
    ensures LevelsSize([l] + rest) == |l.pages| + LevelsSize(rest)
  {
    assert ([l] + rest)[1..] == rest;
  }
}
