/** The in-memory half of `SPIMIInvertedIndex`: the term dictionary with its
    memory estimate (`addToTempIndex`) and spilling it as a sorted block
    (`writeBlockToDisk`). Block files are kept as record sequences; how a
    block write ends is a parameter. */
module Spimi {
  import opened JStrings
  import opened Utf
  import opened Postings
  import opened Collections

  /** `Map<String, Map<Integer, List<Integer>>>` (a `TreeMap` on terms). */
  type TempIndex = map<JString, Postings>

  /** One term with its postings, as a block file stores it and as the merge emits it. */
  datatype BlockRecord = BlockRecord(term: JString, postings: Postings)

  /** A block file: the records of one spilled index, terms ascending. */
  type Block = seq<BlockRecord>

  /** The builder's state. `blocks` holds the block files written so far, so the
      block counter is `|blocks|`. */
  datatype Builder = Builder(tempIndex: TempIndex, memory: int, maxMemory: int, blocks: seq<Block>)

  /** How a spill ends. `Written`: every record reaches the block file.
      `Failed`: a write throws inside the try body, before `blockCounter++`, so
      no block is counted (the next spill reuses the file name). `CutAtClose`:
      the close that flushes the last buffer throws after `blockCounter++`, so
      the block is counted but its file ends early; the merge's `readNextTerm`
      stops at the cut-off record, leaving the first `kept` records. */
  datatype Spill = Written | Failed | CutAtClose(kept: nat)

  /** `new SPIMIInvertedIndex(type)`. */
  function NewBuilder(maxMemory: int): Builder
  {
    Builder(map[], 0, maxMemory, [])
  }

  /** The terms `addToTempIndex` keeps: non-empty and at most 255 characters. */
  predicate Accepted(term: JString)
  {
    0 < |term| <= 255
  }

  // ---------------------------------------------------------- memory estimate

  /** What the estimate charges for a term: its length prefix and encoding, plus
      its documents. */
  function TermCost(t: JString, p: Postings): nat
  {
    2 + UtfLength(t) + DocsCost(p)
  }

  /** The sum of `TermCost` over the whole index. */
  function TermsCost(idx: TempIndex): nat
    decreases |idx.Keys|
  {
    if idx.Keys == {} then 0
    else
      var t := MinTerm(idx.Keys);
      TermCost(t, idx[t]) + TermsCost(idx - {t})
  }

  lemma TermsCostStep(idx: TempIndex, m: JString)
    requires idx.Keys != {} && MinTerm(idx.Keys) == m
    ensures TermsCost(idx) == TermCost(m, idx[m]) + TermsCost(idx - {m})
  {
  }

  /** Any term can be taken out of the sum. */
  lemma {:induction false} TermsCostRemove(idx: TempIndex, t: JString)
    requires t in idx
    ensures TermsCost(idx) == TermCost(t, idx[t]) + TermsCost(idx - {t})
    decreases |idx.Keys|
  {
    var m := MinTerm(idx.Keys);
    TermsCostStep(idx, m);
    if m != t {
      var im := idx - {m};
      var it := idx - {t};
      RemoveOther(idx, m, t);
      RemoveOther(idx, t, m);
      TermsCostRemove(im, t);
      MinTermOfSubset(idx.Keys, it.Keys, m);
      TermsCostStep(it, m);
      RemoveSwap(idx, m, t);
    }
  }

  /** Replacing or adding one term changes the sum by the difference of its costs. */
  lemma TermsCostUpdate(idx: TempIndex, t: JString, p: Postings)
    ensures TermsCost(idx[t := p]) == TermsCost(idx) - (if t in idx then TermCost(t, idx[t]) else 0) + TermCost(t, p)
  {
    var u := idx[t := p];
    UpdateThenRemove(idx, t, p);
    TermsCostRemove(u, t);
    if t in idx {
      TermsCostRemove(idx, t);
    } else {
      RemoveAbsent(idx, t);
    }
  }

  // ---------------------------------------------------------------- invariant

  /** Every stored term was accepted, and every term and document holds something. */
  predicate IndexWellFormed(idx: TempIndex)
  {
    forall t :: t in idx ==> Accepted(t) && PostingsWellFormed(idx[t])
  }

  predicate PostingsWellFormed(p: Postings)
  {
    p != map[] && NonEmptyLists(p)
  }

  /** Records in strictly ascending term order. */
  predicate TermsAscending(b: Block)
  {
    forall i, j :: 0 <= i < j < |b| ==> Less(b[i].term, b[j].term)
  }

  /** A block: terms strictly ascending, each accepted, each with postings. */
  predicate BlockWellFormed(b: Block)
  {
    TermsAscending(b) &&
    (forall i :: 0 <= i < |b| ==> Accepted(b[i].term) && PostingsWellFormed(b[i].postings))
  }

  predicate BlocksWellFormed(bs: seq<Block>)
  {
    forall i :: 0 <= i < |bs| ==> BlockWellFormed(bs[i])
  }

  /** The builder's invariant: the estimate is exactly what the index holds. */
  predicate Valid(b: Builder)
  {
    b.memory == TermsCost(b.tempIndex) && IndexWellFormed(b.tempIndex) && BlocksWellFormed(b.blocks)
  }

  lemma NewBuilderValid(maxMemory: int)
    ensures Valid(NewBuilder(maxMemory))
    ensures NewBuilder(maxMemory).memory == 0 && |NewBuilder(maxMemory).blocks| == 0
  {
  }

  // -------------------------------------------------------------- spilling

  /** The records of the terms `ts`, in that order. */
  function RecordsOf(idx: TempIndex, ts: seq<JString>): (r: Block)
    requires forall i :: 0 <= i < |ts| ==> ts[i] in idx
    ensures |r| == |ts|
    ensures forall i :: 0 <= i < |r| ==> r[i] == BlockRecord(ts[i], idx[ts[i]])
  {
    if |ts| == 0 then [] else [BlockRecord(ts[0], idx[ts[0]])] + RecordsOf(idx, ts[1..])
  }

  /** The block `writeBlockToDisk` writes: the index in `TreeMap` order. */
  function BlockOf(idx: TempIndex): (r: Block)
    ensures |r| == |idx.Keys|
    ensures IndexWellFormed(idx) ==> BlockWellFormed(r)
    ensures forall i :: 0 <= i < |r| ==> r[i].term in idx && r[i].postings == idx[r[i].term]
    ensures forall t :: t in idx ==> InRecords(r, t)
  {
    var ts := SortedTerms(idx.Keys);
    var r := RecordsOf(idx, ts);
    RecordsSorted(idx, ts);
    RecordsCover(idx, ts);
    RecordsMembers(idx, ts);
    r
  }

  lemma RecordsMembers(idx: TempIndex, ts: seq<JString>)
    requires forall i :: 0 <= i < |ts| ==> ts[i] in idx
    ensures forall i :: 0 <= i < |ts| ==> RecordsOf(idx, ts)[i].term in idx && RecordsOf(idx, ts)[i].postings == idx[RecordsOf(idx, ts)[i].term]
  {
  }

  /** Some record of `b` is for `t`. */
  predicate InRecords(b: Block, t: JString)
  {
    exists i :: 0 <= i < |b| && b[i].term == t
  }

  lemma RecordsSorted(idx: TempIndex, ts: seq<JString>)
    requires StrictlySorted(ts) && forall i :: 0 <= i < |ts| ==> ts[i] in idx
    ensures IndexWellFormed(idx) ==> BlockWellFormed(RecordsOf(idx, ts))
  {
    var r := RecordsOf(idx, ts);
    assert forall i :: 0 <= i < |r| ==> r[i].term == ts[i];
  }

  lemma RecordsCover(idx: TempIndex, ts: seq<JString>)
    requires forall i :: 0 <= i < |ts| ==> ts[i] in idx
    requires forall t :: t in idx ==> t in ts
    ensures forall t :: t in idx ==> InRecords(RecordsOf(idx, ts), t)
  {
    var r := RecordsOf(idx, ts);
    forall t | t in idx ensures InRecords(r, t) {
      assert t in ts;
      var i :| 0 <= i < |ts| && ts[i] == t;
      assert r[i].term == t;
    }
  }

  /** The block a counted spill leaves on disk: the whole of `blk`, or the
      records before the cut. */
  function Kept(spill: Spill, blk: Block): (r: Block)
    requires !spill.Failed?
    ensures |r| <= |blk| && r == blk[..|r|]
    ensures spill.Written? ==> r == blk
    ensures spill.CutAtClose? ==> |r| == if spill.kept < |blk| then spill.kept else |blk|
  {
    match spill
    case Written => blk
    case CutAtClose(k) => blk[..if k < |blk| then k else |blk|]
  }

  /** `writeBlockToDisk`: nothing happens for an empty index; otherwise the index
      is cleared and the estimate reset however the write ends, and a block is
      counted unless the write fails before the close. */
  function WriteBlockToDisk(b: Builder, spill: Spill): (r: Builder)
    ensures b.tempIndex == map[] ==> r == b
    ensures b.tempIndex != map[] ==> r.tempIndex == map[] && r.memory == 0
    ensures b.tempIndex != map[] && spill.Written? ==> r.blocks == b.blocks + [BlockOf(b.tempIndex)]
    ensures b.tempIndex != map[] && !spill.Failed? ==> r.blocks == b.blocks + [Kept(spill, BlockOf(b.tempIndex))]
    ensures spill.Failed? ==> r.blocks == b.blocks
    ensures r.maxMemory == b.maxMemory
    ensures Valid(b) ==> Valid(r)
  {
    if b.tempIndex == map[] then b
    else
      var blk := BlockOf(b.tempIndex);
      var blocks := if spill.Failed? then b.blocks else b.blocks + [Kept(spill, blk)];
      EmptyIndexValid();
      if Valid(b) && !spill.Failed? then
        BlockPrefixWellFormed(blk, |Kept(spill, blk)|);
        BlocksWellFormedSnoc(b.blocks, Kept(spill, blk));
        Builder(map[], 0, b.maxMemory, blocks)
      else
        Builder(map[], 0, b.maxMemory, blocks)
  }

  lemma BlockPrefixWellFormed(blk: Block, k: nat)
    requires BlockWellFormed(blk) && k <= |blk|
    ensures BlockWellFormed(blk[..k])
  {
  }

  lemma EmptyIndexValid()
    ensures TermsCost(map[]) == 0 && IndexWellFormed(map[])
  {
  }

  lemma BlocksWellFormedSnoc(bs: seq<Block>, blk: Block)
    requires BlocksWellFormed(bs) && BlockWellFormed(blk)
    ensures BlocksWellFormed(bs + [blk])
  {
    var r := bs + [blk];
    forall i | 0 <= i < |r| ensures BlockWellFormed(r[i]) {
      if i < |bs| { assert r[i] == bs[i]; }
    }
  }

  /** The positions stored for `t` in `d` (none when either is absent). */
  function Positions(idx: TempIndex, t: JString, d: int): seq<int>
  {
    if t in idx && d in idx[t] then idx[t][d] else []
  }

  /** The index with one more occurrence: `position` appended for `term` in `docId`. */
  function Insert(idx: TempIndex, term: JString, docId: int, position: int): (r: TempIndex)
    ensures r.Keys == idx.Keys + {term}
    ensures r[term].Keys == (if term in idx then idx[term].Keys else {}) + {docId}
    ensures Positions(r, term, docId) == Positions(idx, term, docId) + [position]
    ensures forall t, d :: (t != term || d != docId) ==> Positions(r, t, d) == Positions(idx, t, d)
    ensures IndexWellFormed(idx) && Accepted(term) ==> IndexWellFormed(r)
  {
    var p := if term in idx then idx[term] else map[];
    var ps := if docId in p then p[docId] else [];
    idx[term := p[docId := ps + [position]]]
  }

  /** What `addToTempIndex` adds to the estimate: `2 + getUTFLength(term)` for a
      new term, 8 for a new document under it, 4 for the position. */
  function Charge(idx: TempIndex, term: JString, docId: int): nat
  {
    (if term in idx then 0 else 2 + UtfLength(term)) +
    (if term in idx && docId in idx[term] then 0 else 8) + 4
  }

  /** The charge is exactly the cost the insertion adds. */
  lemma InsertCost(idx: TempIndex, term: JString, docId: int, position: int)
    ensures TermsCost(Insert(idx, term, docId, position)) == TermsCost(idx) + Charge(idx, term, docId)
  {
    var p := if term in idx then idx[term] else map[];
    var ps := if docId in p then p[docId] else [];
    TermsCostUpdate(idx, term, p[docId := ps + [position]]);
    DocsCostUpdate(p, docId, ps + [position]);
    if term !in idx {
      assert DocsCost(p) == 0;
    }
  }

  /** `addToTempIndex(term, docId, position)`: a rejected term changes nothing;
      otherwise the occurrence is recorded, the estimate charged, and an index
      whose estimate reaches the ceiling is spilled. */
  function AddToTempIndex(b: Builder, term: JString, docId: int, position: int, spill: Spill): (r: Builder)
    ensures !Accepted(term) ==> r == b
    ensures r.maxMemory == b.maxMemory
    ensures Accepted(term) ==> r.memory < r.maxMemory || (r.memory == 0 && r.tempIndex == map[])
    ensures Accepted(term) && b.memory + Charge(b.tempIndex, term, docId) < b.maxMemory ==>
      r == b.(tempIndex := Insert(b.tempIndex, term, docId, position), memory := b.memory + Charge(b.tempIndex, term, docId))
    ensures r.blocks == b.blocks || (!spill.Failed? && r.blocks == b.blocks + [Kept(spill, BlockOf(Insert(b.tempIndex, term, docId, position)))])
  {
    if !Accepted(term) then b
    else
      var added := Added(b, term, docId, position);
      if added.memory >= added.maxMemory then WriteBlockToDisk(added, spill) else added
  }

  /** `addToTempIndex` keeps the estimate equal to what the index holds. */
  lemma AddToTempIndexValid(b: Builder, term: JString, docId: int, position: int, spill: Spill)
    requires Valid(b)
    ensures Valid(AddToTempIndex(b, term, docId, position, spill))
  {
    if Accepted(term) {
      var idx := Insert(b.tempIndex, term, docId, position);
      InsertCost(b.tempIndex, term, docId, position);
      var added := Added(b, term, docId, position);
      assert Valid(added);
      if added.memory >= added.maxMemory {
        AddSpills(b, term, docId, position, spill);
      } else {
        AddKeeps(b, term, docId, position, spill);
      }
    }
  }

  // ------------------------------------------------------------ what is kept

  /** The positions of `t` in `d` held by a block. */
  function BlockOcc(blk: Block, t: JString, d: int): multiset<int>
  {
    if |blk| == 0 then multiset{}
    else (if blk[0].term == t then Occ(blk[0].postings, d) else multiset{}) + BlockOcc(blk[1..], t, d)
  }

  /** The positions of `t` in `d` held by all blocks written so far. */
  function BlocksOcc(bs: seq<Block>, t: JString, d: int): multiset<int>
  {
    if |bs| == 0 then multiset{} else BlocksOcc(bs[..|bs| - 1], t, d) + BlockOcc(bs[|bs| - 1], t, d)
  }

  /** Everything the builder holds for `t` in `d`: on disk and in memory. */
  function Content(b: Builder, t: JString, d: int): multiset<int>
  {
    BlocksOcc(b.blocks, t, d) + multiset(Positions(b.tempIndex, t, d))
  }

  lemma BlocksOccSnoc(bs: seq<Block>, blk: Block, t: JString, d: int)
    ensures BlocksOcc(bs + [blk], t, d) == BlocksOcc(bs, t, d) + BlockOcc(blk, t, d)
  {
    assert (bs + [blk])[..|bs|] == bs;
  }

  /** Listing distinct terms once each: a block holds a term's postings once. */
  lemma {:induction false} RecordsOcc(idx: TempIndex, ts: seq<JString>, t: JString, d: int)
    requires forall i :: 0 <= i < |ts| ==> ts[i] in idx
    requires forall i, j :: 0 <= i < j < |ts| ==> ts[i] != ts[j]
    ensures BlockOcc(RecordsOf(idx, ts), t, d) == if t in ts then multiset(Positions(idx, t, d)) else multiset{}
  {
    if |ts| > 0 {
      var r := RecordsOf(idx, ts);
      assert r[1..] == RecordsOf(idx, ts[1..]);
      RecordsOcc(idx, ts[1..], t, d);
      if ts[0] == t {
        assert t !in ts[1..];
      }
      assert t in ts <==> t == ts[0] || t in ts[1..];
    }
  }

  /** A spilled block holds exactly what the index held. */
  lemma BlockOfOcc(idx: TempIndex, t: JString, d: int)
    ensures BlockOcc(BlockOf(idx), t, d) == multiset(Positions(idx, t, d))
  {
    var ts := SortedTerms(idx.Keys);
    LessIsStrictTotalOrder();
    RecordsOcc(idx, ts, t, d);
  }

  /** The first `k` records of a spilled block hold exactly what the index
      held for the terms among them. */
  lemma BlockPrefixOcc(idx: TempIndex, k: nat, t: JString, d: int)
    requires k <= |idx.Keys|
    ensures BlockOcc(BlockOf(idx)[..k], t, d) ==
      if InRecords(BlockOf(idx)[..k], t) then multiset(Positions(idx, t, d)) else multiset{}
  {
    var ts := SortedTerms(idx.Keys);
    forall i, j | 0 <= i < j < |ts| ensures ts[i] != ts[j] {
      LessIrreflexive(ts[i]);
    }
    assert BlockOf(idx) == RecordsOf(idx, ts);
    RecordsPrefixOcc(idx, ts, k, t, d);
  }

  lemma RecordsPrefixOcc(idx: TempIndex, ts: seq<JString>, k: nat, t: JString, d: int)
    requires forall i :: 0 <= i < |ts| ==> ts[i] in idx
    requires forall i, j :: 0 <= i < j < |ts| ==> ts[i] != ts[j]
    requires k <= |ts|
    ensures BlockOcc(RecordsOf(idx, ts)[..k], t, d) ==
      if InRecords(RecordsOf(idx, ts)[..k], t) then multiset(Positions(idx, t, d)) else multiset{}
  {
    var pre := ts[..k];
    var kept := RecordsOf(idx, pre);
    assert RecordsOf(idx, ts)[..k] == kept;
    RecordsOcc(idx, pre, t, d);
    RecordsTerms(idx, pre, t);
  }

  lemma RecordsTerms(idx: TempIndex, ts: seq<JString>, t: JString)
    requires forall i :: 0 <= i < |ts| ==> ts[i] in idx
    ensures InRecords(RecordsOf(idx, ts), t) <==> t in ts
  {
    if t in ts {
      var i :| 0 <= i < |ts| && ts[i] == t;
      assert RecordsOf(idx, ts)[i].term == t;
    }
  }

  /** A successful spill moves the index to disk unchanged; one that fails
      before the close loses it; one cut at the close keeps the postings of the
      terms whose records reached the file. Nothing is ever gained. */
  lemma WriteBlockContent(b: Builder, spill: Spill, t: JString, d: int)
    ensures spill.Written? ==> Content(WriteBlockToDisk(b, spill), t, d) == Content(b, t, d)
    ensures spill.Failed? && b.tempIndex != map[] ==> Content(WriteBlockToDisk(b, spill), t, d) == BlocksOcc(b.blocks, t, d)
    ensures spill.CutAtClose? && b.tempIndex != map[] ==>
      Content(WriteBlockToDisk(b, spill), t, d) == BlocksOcc(b.blocks, t, d) +
        if InRecords(Kept(spill, BlockOf(b.tempIndex)), t) then multiset(Positions(b.tempIndex, t, d)) else multiset{}
    ensures b.tempIndex == map[] ==> Content(WriteBlockToDisk(b, spill), t, d) == Content(b, t, d)
    ensures Content(WriteBlockToDisk(b, spill), t, d) <= Content(b, t, d)
  {
    if spill.Written? {
      WrittenContent(b, t, d);
    } else if b.tempIndex != map[] && spill.CutAtClose? {
      SpillContent(b, spill, t, d);
      BlockPrefixOcc(b.tempIndex, |Kept(spill, BlockOf(b.tempIndex))|, t, d);
    }
  }

  lemma SpillContent(b: Builder, spill: Spill, t: JString, d: int)
    requires b.tempIndex != map[] && !spill.Failed?
    ensures Content(WriteBlockToDisk(b, spill), t, d) == BlocksOcc(b.blocks, t, d) + BlockOcc(Kept(spill, BlockOf(b.tempIndex)), t, d)
  {
    BlocksOccSnoc(b.blocks, Kept(spill, BlockOf(b.tempIndex)), t, d);
  }

  lemma WrittenContent(b: Builder, t: JString, d: int)
    ensures Content(WriteBlockToDisk(b, Written), t, d) == Content(b, t, d)
  {
    if b.tempIndex != map[] {
      SpillContent(b, Written, t, d);
      BlockOfOcc(b.tempIndex, t, d);
    }
  }

  /** An accepted occurrence is kept unless its spill fails; nothing else changes. */
  lemma AddContent(b: Builder, term: JString, docId: int, position: int, spill: Spill, t: JString, d: int)
    requires spill.Written? || b.memory + Charge(b.tempIndex, term, docId) < b.maxMemory
    ensures Content(AddToTempIndex(b, term, docId, position, spill), t, d) ==
      Content(b, t, d) + (if Accepted(term) && t == term && d == docId then multiset{position} else multiset{})
  {
    if Accepted(term) {
      var added := Added(b, term, docId, position);
      InsertContent(b, term, docId, position, added.memory, t, d);
      if added.memory >= added.maxMemory {
        AddSpills(b, term, docId, position, spill);
        WrittenContent(added, t, d);
      } else {
        AddKeeps(b, term, docId, position, spill);
      }
    }
  }

  /** The builder after recording an accepted occurrence, before any spill. */
  function Added(b: Builder, term: JString, docId: int, position: int): Builder
  {
    b.(tempIndex := Insert(b.tempIndex, term, docId, position), memory := b.memory + Charge(b.tempIndex, term, docId))
  }

  lemma AddSpills(b: Builder, term: JString, docId: int, position: int, spill: Spill)
    requires Accepted(term) && Added(b, term, docId, position).memory >= b.maxMemory
    ensures AddToTempIndex(b, term, docId, position, spill) == WriteBlockToDisk(Added(b, term, docId, position), spill)
  {
  }

  lemma AddKeeps(b: Builder, term: JString, docId: int, position: int, spill: Spill)
    requires Accepted(term) && Added(b, term, docId, position).memory < b.maxMemory
    ensures AddToTempIndex(b, term, docId, position, spill) == Added(b, term, docId, position)
  {
  }

  lemma InsertContent(b: Builder, term: JString, docId: int, position: int, memory: int, t: JString, d: int)
    ensures Content(b.(tempIndex := Insert(b.tempIndex, term, docId, position), memory := memory), t, d) ==
      Content(b, t, d) + (if t == term && d == docId then multiset{position} else multiset{})
  {
  }
}
