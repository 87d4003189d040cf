/** `IndexSearcherService`'s exact queries: the paths file lookup, the
    single-term search, the doc-id intersection of several posting lists and
    the multi-term phrase search built on it. The term lookups are the
    searcher's disk reads (`Searcher.SearchDirect`, which the cached
    `Searcher.SearchTerm` equals); the query tokenizer and normalizer are
    parameters. */
module Query {
  import opened JStrings
  import opened Utf
  import opened Wrappers
  import opened DataStream
  import opened Postings
  import opened Phrase
  import opened Searcher
  import Collections

  /** `FileResult`; exact results carry score 0 and the exact flag. */
  datatype FileResult = FileResult(docId: int, path: JString, positions: seq<int>, score: real, exact: bool)

  /** `PathResolver.getPath`: seek to the id and `readUTF`. Running out of
      bytes is "no such document"; a negative seek or a malformed record is
      an I/O failure. */
  function GetPath(paths: seq<Byte>, docId: int): (r: Result<Option<JString>, IoError>)
    ensures docId < 0 ==> r == Err(NegativeSeek)
    ensures docId >= |paths| ==> r == Ok(None)
  {
    if docId < 0 then Err(NegativeSeek)
    else
      var bs := if docId <= |paths| then paths[docId..] else [];
      match ReadUtf(bs)
      case Ok((s, _)) => Ok(Some(s))
      case Err(EndOfFile) => Ok(None)
      case Err(e) => Err(e)
  }

  /** The record written for a document is the one read back at its id. */
  lemma GetPathOfWritten(before: seq<Byte>, path: JString, after: seq<Byte>)
    requires UtfLength(path) <= 65535
    ensures GetPath(before + WriteUtf(path).value + after, |before|) == Ok(Some(path))
  {
    var rec := WriteUtf(path).value;
    Collections.AppendAssoc(before, rec, after);
    Collections.DropPrefix(before, rec + after);
    ReadWriteUtf(path, after);
    ReadsRecord(before + (rec + after), |before|, path, after);
  }

  /** A record that parses at the id is the path found there. */
  lemma ReadsRecord(paths: seq<Byte>, docId: int, path: JString, rest: seq<Byte>)
    requires 0 <= docId <= |paths| && ReadUtf(paths[docId..]) == Ok((path, rest))
    ensures GetPath(paths, docId) == Ok(Some(path))
  {
  }

  /** The exact result for one posting whose path resolves. */
  predicate ResolvedFrom(paths: seq<Byte>, e: PostingEntry, fr: FileResult)
  {
    fr == FileResult(e.docId, fr.path, e.positions, 0.0, true) && GetPath(paths, e.docId) == Ok(Some(fr.path))
  }

  /** The postings loop of `performSearch`: every posting whose path resolves
      gives an exact result, in order; an unresolved path is skipped. It
      fails exactly when some lookup fails. */
  function ResolveAll(ps: seq<PostingEntry>, paths: seq<Byte>): (r: Result<seq<FileResult>, IoError>)
    ensures r.Ok? <==> forall i :: 0 <= i < |ps| ==> GetPath(paths, ps[i].docId).Ok?
  {
    if |ps| == 0 then Ok([])
    else
      var path :- GetPath(paths, ps[0].docId);
      var rest :- ResolveAll(ps[1..], paths);
      assert forall i :: 1 <= i < |ps| ==> ps[i] == ps[1..][i - 1];
      if path.Some? then Ok([FileResult(ps[0].docId, path.value, ps[0].positions, 0.0, true)] + rest)
      else Ok(rest)
  }

  /** Each result comes from a posting whose path resolves. */
  lemma {:induction false} ResolveAllSound(ps: seq<PostingEntry>, paths: seq<Byte>)
    ensures var r := ResolveAll(ps, paths);
      r.Ok? ==> forall k :: 0 <= k < |r.value| ==> exists i :: 0 <= i < |ps| && ResolvedFrom(paths, ps[i], r.value[k])
  {
    var r := ResolveAll(ps, paths);
    if |ps| > 0 && r.Ok? {
      ResolveAllSound(ps[1..], paths);
      var rest := ResolveAll(ps[1..], paths).value;
      forall k | 0 <= k < |rest| ensures exists i :: 0 <= i < |ps| && ResolvedFrom(paths, ps[i], rest[k]) {
        var i :| 0 <= i < |ps[1..]| && ResolvedFrom(paths, ps[1..][i], rest[k]);
        assert ps[1..][i] == ps[i + 1];
      }
      if GetPath(paths, ps[0].docId).value.Some? {
        assert forall k :: 1 <= k < |r.value| ==> r.value[k] == rest[k - 1];
      }
    }
  }

  /** Every posting whose path resolves gives its result. */
  lemma {:induction false} ResolveAllComplete(ps: seq<PostingEntry>, paths: seq<Byte>)
    ensures var r := ResolveAll(ps, paths);
      r.Ok? ==> forall i :: 0 <= i < |ps| && GetPath(paths, ps[i].docId).value.Some? ==>
        FileResult(ps[i].docId, GetPath(paths, ps[i].docId).value.value, ps[i].positions, 0.0, true) in r.value
  {
    var r := ResolveAll(ps, paths);
    if |ps| > 0 && r.Ok? {
      ResolveAllComplete(ps[1..], paths);
      assert forall i :: 1 <= i < |ps| ==> ps[i] == ps[1..][i - 1];
    }
  }

  /** Postings in ascending document order give results in ascending
      document order. */
  lemma {:induction false} ResolveAllAscending(ps: seq<PostingEntry>, paths: seq<Byte>)
    requires DocIdsAscending(ps)
    ensures var r := ResolveAll(ps, paths);
      r.Ok? ==> ResultsAscending(r.value)
  {
    var r := ResolveAll(ps, paths);
    if |ps| > 0 && r.Ok? {
      assert DocIdsAscending(ps[1..]);
      ResolveAllAscending(ps[1..], paths);
      ResolveAllSound(ps[1..], paths);
      var rest := ResolveAll(ps[1..], paths).value;
      forall k | 0 <= k < |rest| ensures ps[0].docId < rest[k].docId {
        var i :| 0 <= i < |ps[1..]| && ResolvedFrom(paths, ps[1..][i], rest[k]);
        assert ps[1..][i] == ps[i + 1];
      }
      PrependAscending(ps[0].docId, rest);
    }
  }

  /** `performSearch`: the normalized query looked up as one term. An empty
      normalized query or an absent term gives no results. */
  function PerformSearch(s: TreeSearcher, paths: seq<Byte>, normalize: JString -> JString, query: JString)
    : (r: Result<seq<FileResult>, IoError>)
    requires Ready(s)
    ensures |normalize(query)| == 0 ==> r == Ok([])
    ensures SearchDirect(s, normalize(query)) == Ok(None) ==> r == Ok([])
    ensures SearchDirect(s, normalize(query)).Err? ==> r.Err?
    ensures (SearchDirect(s, normalize(query)).Ok? && SearchDirect(s, normalize(query)).value.Some?) ==>
      r == ResolveAll(SearchDirect(s, normalize(query)).value.value.postings, paths)
  {
    var q := normalize(query);
    if |q| == 0 then Ok([])
    else
      var res :- SearchDirect(s, q);
      match res
      case None => Ok([])
      case Some(hit) => ResolveAll(hit.postings, paths)
  }

  /** `t` is in the index and its lookup succeeds. */
  predicate Found(s: TreeSearcher, t: JString)
    requires Ready(s)
  {
    SearchDirect(s, t).Ok? && SearchDirect(s, t).value.Some?
  }

  /** `t` is in the index with postings `ps`. */
  predicate FoundWith(s: TreeSearcher, t: JString, ps: seq<PostingEntry>)
    requires Ready(s)
  {
    Found(s, t) && SearchDirect(s, t).value.value.postings == ps
  }

  /** The outcome of `searchTerm` for one term. */
  type Lookup = Result<Option<SearchResult>, IoError>

  /** The term is in the index. */
  predicate IsHit(l: Lookup)
  {
    l.Ok? && l.value.Some?
  }

  /** The lookup of every term, in query order. */
  function Lookups(s: TreeSearcher, terms: seq<JString>): (r: seq<Lookup>)
    requires Ready(s)
    ensures |r| == |terms| && forall i :: 0 <= i < |terms| ==> r[i] == SearchDirect(s, terms[i])
  {
    seq(|terms|, i requires 0 <= i < |terms| && Ready(s) => SearchDirect(s, terms[i]))
  }

  /** The term loop of `performExactSearch` over the terms' lookups: each
      term's postings, in query order; the first absent term ends the loop
      with no lists, and the first failed lookup fails it. */
  function LookupAll(ls: seq<Lookup>): (r: Result<Option<seq<seq<PostingEntry>>>, IoError>)
    ensures r.Ok? && r.value.Some? ==> |r.value.value| == |ls| && forall i :: 0 <= i < |ls| ==>
      IsHit(ls[i]) && ls[i].value.value.postings == r.value.value[i]
    ensures r.Ok? && r.value.None? ==> exists i :: 0 <= i < |ls| && ls[i] == Ok(None)
    ensures (forall i :: 0 <= i < |ls| ==> ls[i].Ok?) ==> r.Ok?
    ensures (forall i :: 0 <= i < |ls| ==> IsHit(ls[i])) ==> r.Ok? && r.value.Some?
  {
    if |ls| == 0 then Ok(Some([]))
    else
      var hit :- ls[0];
      match hit
      case None => Ok(None)
      case Some(h) =>
        var rest :- LookupAll(ls[1..]);
        assert forall i :: 1 <= i < |ls| ==> ls[i] == ls[1..][i - 1];
        match rest
        case None => Ok(None)
        case Some(l) => Ok(Some([h.postings] + l))
  }

  /** The document ids of each list. */
  function Ids(lists: seq<seq<PostingEntry>>): (r: seq<seq<int>>)
    ensures |r| == |lists|
    ensures forall i :: 0 <= i < |r| ==> |r[i]| == |lists[i]|
    ensures forall i, j :: 0 <= i < |r| && 0 <= j < |r[i]| ==> r[i][j] == lists[i][j].docId
  {
    seq(|lists|, i requires 0 <= i < |lists| => seq(|lists[i]|, j requires 0 <= j < |lists[i]| => lists[i][j].docId))
  }

  /** The largest of the first `n` values. */
  function MaxOf(c: seq<int>, n: int): (m: int)
    requires 0 < n <= |c|
    ensures forall i :: 0 <= i < n ==> c[i] <= m
    ensures exists i :: 0 <= i < n && c[i] == m
  {
    if n == 1 then c[0]
    else
      var m := MaxOf(c, n - 1);
      if c[n - 1] > m then c[n - 1] else m
  }

  /** The inner skip loop: move on while the document is below `mx`. */
  function Skip(l: seq<PostingEntry>, j: int, mx: int): (r: int)
    requires 0 <= j <= |l|
    ensures j <= r <= |l|
    ensures forall k :: j <= k < r ==> l[k].docId < mx
    ensures r < |l| ==> l[r].docId >= mx
    decreases |l| - j
  {
    if j < |l| && l[j].docId < mx then Skip(l, j + 1, mx) else j
  }

  /** The cursors behind the largest current document catch up to it. */
  function SkipBelow(lists: seq<seq<PostingEntry>>, idx: seq<int>, docs: seq<int>, mx: int): (r: seq<int>)
    requires Cursors(Ids(lists), idx) && |docs| == |lists|
    ensures |r| == |idx|
    ensures forall i :: 0 <= i < |r| ==> r[i] == if docs[i] < mx then Skip(lists[i], idx[i], mx) else idx[i]
  {
    seq(|idx|, i requires 0 <= i < |idx| && Cursors(Ids(lists), idx) && |docs| == |lists| =>
      if docs[i] < mx then Skip(lists[i], idx[i], mx) else idx[i])
  }

  /** The position lists under the cursors. */
  function PositionsAt(lists: seq<seq<PostingEntry>>, idx: seq<int>): (r: seq<seq<int>>)
    requires Cursors(Ids(lists), idx) && !Exhausted(Ids(lists), idx)
    ensures |r| == |lists| && forall i :: 0 <= i < |r| ==> r[i] == lists[i][idx[i]].positions
  {
    seq(|lists|, i requires 0 <= i < |lists| && Cursors(Ids(lists), idx) && !Exhausted(Ids(lists), idx) =>
      lists[i][idx[i]].positions)
  }

  /** One round of the merge loop: a list has run out; every cursor is at
      the same document; or the cursors behind the largest current document
      `target` have caught up to it. */
  datatype Round = Finished | Common(doc: int, next: seq<int>) | CatchUp(target: int, next: seq<int>)

  function MergeRound(lists: seq<seq<PostingEntry>>, idx: seq<int>): (r: Round)
    requires 0 < |lists| && Cursors(Ids(lists), idx)
    ensures r.Finished? <==> Exhausted(Ids(lists), idx)
    ensures Remaining(Ids(lists), idx, |lists|) >= 0
    ensures !r.Finished? ==> RoundMoves(lists, idx, r.next)
    ensures r.Common? ==>
      r.next == AdvanceAll(idx) && forall i :: 0 <= i < |lists| ==> lists[i][idx[i]].docId == r.doc
    ensures r.CatchUp? ==> CatchesUp(lists, idx, r.target, r.next)
  {
    var ids := Ids(lists);
    RemainingBounds(ids, idx, idx, |lists|, 0);
    if Exhausted(ids, idx) then Finished
    else
      var docs := Current(ids, idx);
      var mx := MaxOf(docs, |docs|);
      if forall i :: 0 <= i < |docs| ==> docs[i] == mx then
        CommonRound(lists, idx, mx)
      else
        CatchUpRound(lists, idx, docs, mx)
  }

  /** The cursors move forward, none past its list, and fewer records
      remain ahead of them. */
  predicate RoundMoves(lists: seq<seq<PostingEntry>>, idx: seq<int>, next: seq<int>)
    requires Cursors(Ids(lists), idx)
  {
    Cursors(Ids(lists), next) && 0 <= Remaining(Ids(lists), next, |lists|) < Remaining(Ids(lists), idx, |lists|) &&
    forall i :: 0 <= i < |lists| ==> idx[i] < |lists[i]| && idx[i] <= next[i]
  }

  /** `target` is a current document, and every record the cursors moved
      past is below it. */
  predicate CatchesUp(lists: seq<seq<PostingEntry>>, idx: seq<int>, target: int, next: seq<int>)
    requires Cursors(Ids(lists), idx) && RoundMoves(lists, idx, next)
  {
    (exists i :: 0 <= i < |lists| && lists[i][idx[i]].docId == target) &&
    forall i, j :: 0 <= i < |lists| && idx[i] <= j < next[i] ==> lists[i][j].docId < target
  }

  function CommonRound(lists: seq<seq<PostingEntry>>, idx: seq<int>, mx: int): (r: Round)
    requires 0 < |lists| && Cursors(Ids(lists), idx) && !Exhausted(Ids(lists), idx)
    requires forall i :: 0 <= i < |lists| ==> Current(Ids(lists), idx)[i] == mx
    ensures r.Common? && RoundMoves(lists, idx, r.next) && r.next == AdvanceAll(idx)
    ensures forall i :: 0 <= i < |lists| ==> lists[i][idx[i]].docId == r.doc
  {
    var next := AdvanceAll(idx);
    RemainingBounds(Ids(lists), idx, next, |lists|, 0);
    assert forall i :: 0 <= i < |lists| ==> Current(Ids(lists), idx)[i] == Ids(lists)[i][idx[i]] == lists[i][idx[i]].docId;
    Common(mx, next)
  }

  function CatchUpRound(lists: seq<seq<PostingEntry>>, idx: seq<int>, docs: seq<int>, mx: int): (r: Round)
    requires 0 < |lists| && Cursors(Ids(lists), idx) && !Exhausted(Ids(lists), idx)
    requires docs == Current(Ids(lists), idx)
    requires (exists i :: 0 <= i < |docs| && docs[i] == mx) && forall i :: 0 <= i < |docs| ==> docs[i] <= mx
    requires exists i :: 0 <= i < |docs| && docs[i] != mx
    ensures r.CatchUp? && RoundMoves(lists, idx, r.next) && CatchesUp(lists, idx, r.target, r.next)
  {
    var next := SkipBelow(lists, idx, docs, mx);
    SkipBelowMoves(lists, idx, docs, mx, next);
    var k :| 0 <= k < |docs| && docs[k] != mx;
    RemainingBounds(Ids(lists), idx, next, |lists|, k);
    var w :| 0 <= w < |docs| && docs[w] == mx;
    assert lists[w][idx[w]].docId == mx;
    CatchUp(mx, next)
  }

  /** Skipping below `mx` moves the cursors forward over documents below
      it only, and moves every cursor that was below it. */
  lemma SkipBelowMoves(lists: seq<seq<PostingEntry>>, idx: seq<int>, docs: seq<int>, mx: int, next: seq<int>)
    requires Cursors(Ids(lists), idx) && !Exhausted(Ids(lists), idx) && docs == Current(Ids(lists), idx)
    requires next == SkipBelow(lists, idx, docs, mx)
    ensures Cursors(Ids(lists), next)
    ensures forall i :: 0 <= i < |lists| ==> idx[i] < |lists[i]| && idx[i] <= next[i]
    ensures forall i, j :: 0 <= i < |lists| && idx[i] <= j < next[i] ==> lists[i][j].docId < mx
    ensures forall i :: 0 <= i < |lists| && docs[i] < mx ==> idx[i] < next[i]
  {
    var ids := Ids(lists);
    forall i | 0 <= i < |lists|
      ensures idx[i] < |lists[i]| && idx[i] <= next[i] <= |lists[i]|
      ensures docs[i] < mx ==> idx[i] < next[i]
    {
      assert idx[i] != |ids[i]|;
      assert docs[i] == lists[i][idx[i]].docId;
    }
  }

  /** `findExactMatchesWithMerge` from cursor state `idx`: when every cursor
      is at the same document its phrase starts are computed, and a document
      with at least one whose path resolves is reported; then every cursor
      moves on. Otherwise the cursors behind the largest document skip up to
      it. The first exhausted list ends the merge. The phrase starts come from
      `findExactSequence` as written when `aligned` is false, and from the
      corrected merge when it is true. */
  function MatchFrom(lists: seq<seq<PostingEntry>>, idx: seq<int>, paths: seq<Byte>, aligned: bool): (r: Result<seq<FileResult>, IoError>)
    requires 0 < |lists| && Cursors(Ids(lists), idx)
    decreases Remaining(Ids(lists), idx, |lists|)
  {
    match MergeRound(lists, idx)
    case Finished => Ok([])
    case CatchUp(_, next) => MatchFrom(lists, next, paths, aligned)
    case Common(d, next) =>
      var starts := PhraseStarts(PositionsAt(lists, idx), aligned);
      if |starts| > 0 then
        var path :- GetPath(paths, d);
        var rest :- MatchFrom(lists, next, paths, aligned);
        if path.Some? then Ok([FileResult(d, path.value, starts, 0.0, true)] + rest) else Ok(rest)
      else
        MatchFrom(lists, next, paths, aligned)
  }

  function FindExactMatchesWithMerge(lists: seq<seq<PostingEntry>>, paths: seq<Byte>, aligned: bool): Result<seq<FileResult>, IoError>
    requires 0 < |lists|
  {
    MatchFrom(lists, Zeros(|lists|), paths, aligned)
  }

  /** The first record of `l` for document `d`. */
  function EntryFor(l: seq<PostingEntry>, d: int): (r: Option<PostingEntry>)
    ensures r.None? <==> forall j :: 0 <= j < |l| ==> l[j].docId != d
    ensures r.Some? ==> r.value.docId == d
    ensures forall j :: 0 <= j < |l| && l[j].docId == d && DocIdsAscending(l) ==> r == Some(l[j])
  {
    if |l| == 0 then None
    else if l[0].docId == d then
      assert forall j :: 0 < j < |l| && DocIdsAscending(l) ==> l[j].docId != d;
      Some(l[0])
    else
      var r := EntryFor(l[1..], d);
      assert forall j :: 0 < j < |l| ==> l[j] == l[1..][j - 1];
      assert DocIdsAscending(l) ==> DocIdsAscending(l[1..]);
      r
  }

  predicate InAll(lists: seq<seq<PostingEntry>>, d: int)
  {
    forall i :: 0 <= i < |lists| ==> EntryFor(lists[i], d).Some?
  }

  /** Each term's positions in document `d`, in query order. */
  function PositionsOf(lists: seq<seq<PostingEntry>>, d: int): (r: seq<seq<int>>)
    requires InAll(lists, d)
    ensures |r| == |lists| && forall i :: 0 <= i < |r| ==> r[i] == EntryFor(lists[i], d).value.positions
  {
    seq(|lists|, i requires 0 <= i < |lists| && InAll(lists, d) => EntryFor(lists[i], d).value.positions)
  }

  /** The exact result `fr` is due: its document is in every list, the phrase
      starts there are `fr.positions` and there is one at least, and its path
      resolves. */
  predicate Reportable(lists: seq<seq<PostingEntry>>, paths: seq<Byte>, aligned: bool, fr: FileResult)
  {
    InAll(lists, fr.docId) &&
    fr == FileResult(fr.docId, fr.path, PhraseStarts(PositionsOf(lists, fr.docId), aligned), 0.0, true) &&
    |fr.positions| > 0 && GetPath(paths, fr.docId) == Ok(Some(fr.path))
  }

  predicate AllDocsAscending(lists: seq<seq<PostingEntry>>)
  {
    forall i :: 0 <= i < |lists| ==> DocIdsAscending(lists[i])
  }

  /** `d` is a document of `l` at or after index `j0`. */
  predicate ListedAt(l: seq<PostingEntry>, j0: int, d: int)
  {
    exists j :: j0 <= j < |l| && 0 <= j && l[j].docId == d
  }

  predicate ResultsAscending(rs: seq<FileResult>)
  {
    forall k, l :: 0 <= k < l < |rs| ==> rs[k].docId < rs[l].docId
  }

  /** With the cursors all at `mx` the phrase computed is the one of `mx`. */
  lemma PositionsAtAligned(lists: seq<seq<PostingEntry>>, idx: seq<int>, mx: int)
    requires Cursors(Ids(lists), idx) && !Exhausted(Ids(lists), idx) && AllDocsAscending(lists)
    requires forall i :: 0 <= i < |lists| ==> lists[i][idx[i]].docId == mx
    ensures InAll(lists, mx) && PositionsAt(lists, idx) == PositionsOf(lists, mx)
  {
    forall i | 0 <= i < |lists| ensures EntryFor(lists[i], mx) == Some(lists[i][idx[i]]) {
      assert Ids(lists)[i][idx[i]] == lists[i][idx[i]].docId;
    }
  }

  /** A catch-up round reports nothing. */
  lemma MatchCatchUp(lists: seq<seq<PostingEntry>>, idx: seq<int>, paths: seq<Byte>, aligned: bool)
    requires 0 < |lists| && Cursors(Ids(lists), idx) && MergeRound(lists, idx).CatchUp?
    ensures MatchFrom(lists, idx, paths, aligned) == MatchFrom(lists, MergeRound(lists, idx).next, paths, aligned)
  {
  }

  /** A round at a common document reports it when it has a phrase start
      and its path resolves, then goes on. */
  lemma MatchCommon(lists: seq<seq<PostingEntry>>, idx: seq<int>, paths: seq<Byte>, aligned: bool)
    requires 0 < |lists| && Cursors(Ids(lists), idx) && MergeRound(lists, idx).Common?
    ensures var d := MergeRound(lists, idx).doc;
      var r := MatchFrom(lists, idx, paths, aligned);
      var rest := MatchFrom(lists, MergeRound(lists, idx).next, paths, aligned);
      var starts := PhraseStarts(PositionsAt(lists, idx), aligned);
      r.Ok? ==>
        rest.Ok? && (|starts| > 0 ==> GetPath(paths, d).Ok?) &&
        if |starts| > 0 && GetPath(paths, d).value.Some? then
          r.value == [FileResult(d, GetPath(paths, d).value.value, starts, 0.0, true)] + rest.value
        else
          r.value == rest.value
  {
  }

  predicate AllReportable(lists: seq<seq<PostingEntry>>, paths: seq<Byte>, aligned: bool, rs: seq<FileResult>)
  {
    forall k :: 0 <= k < |rs| ==> Reportable(lists, paths, aligned, rs[k])
  }

  lemma AllReportableCons(lists: seq<seq<PostingEntry>>, paths: seq<Byte>, aligned: bool, fr: FileResult, rest: seq<FileResult>)
    requires Reportable(lists, paths, aligned, fr) && AllReportable(lists, paths, aligned, rest)
    ensures AllReportable(lists, paths, aligned, [fr] + rest)
  {
    var r := [fr] + rest;
    forall k | 0 <= k < |r| ensures Reportable(lists, paths, aligned, r[k]) {
      if k > 0 { assert r[k] == rest[k - 1]; }
    }
  }

  /** Every reported document is due. */
  lemma {:induction false} MatchSound(lists: seq<seq<PostingEntry>>, idx: seq<int>, paths: seq<Byte>, aligned: bool)
    requires 0 < |lists| && Cursors(Ids(lists), idx) && AllDocsAscending(lists)
    ensures var r := MatchFrom(lists, idx, paths, aligned);
      r.Ok? ==> AllReportable(lists, paths, aligned, r.value)
    decreases Remaining(Ids(lists), idx, |lists|)
  {
    match MergeRound(lists, idx)
    case Finished =>
    case CatchUp(_, next) =>
      MatchSound(lists, next, paths, aligned);
      MatchCatchUp(lists, idx, paths, aligned);
    case Common(d, next) =>
      MatchSound(lists, next, paths, aligned);
      MatchCommon(lists, idx, paths, aligned);
      var r := MatchFrom(lists, idx, paths, aligned);
      var rest := MatchFrom(lists, next, paths, aligned);
      var starts := PhraseStarts(PositionsAt(lists, idx), aligned);
      if r.Ok? && |starts| > 0 && GetPath(paths, d).value.Some? {
        var fr := FileResult(d, GetPath(paths, d).value.value, starts, 0.0, true);
        PositionsAtAligned(lists, idx, d);
        AllReportableCons(lists, paths, aligned, fr, rest.value);
      }
  }

  /** The documents of `rs` are documents of `l` at or after `j0`. */
  predicate AllListedAt(l: seq<PostingEntry>, j0: int, rs: seq<FileResult>)
  {
    forall k :: 0 <= k < |rs| ==> ListedAt(l, j0, rs[k].docId)
  }

  lemma ListedLater(l: seq<PostingEntry>, j0: int, j1: int, rs: seq<FileResult>)
    requires j0 <= j1 && AllListedAt(l, j1, rs)
    ensures AllListedAt(l, j0, rs)
  {
    forall k | 0 <= k < |rs| ensures ListedAt(l, j0, rs[k].docId) {
      var j :| j1 <= j < |l| && 0 <= j && l[j].docId == rs[k].docId;
    }
  }

  lemma ListedCons(l: seq<PostingEntry>, j0: int, fr: FileResult, rest: seq<FileResult>)
    requires ListedAt(l, j0, fr.docId) && AllListedAt(l, j0, rest)
    ensures AllListedAt(l, j0, [fr] + rest)
  {
    var r := [fr] + rest;
    forall k | 0 <= k < |r| ensures ListedAt(l, j0, r[k].docId) {
      if k > 0 { assert r[k] == rest[k - 1]; }
    }
  }

  /** Every reported document is one of the first list at or after its
      cursor. */
  lemma {:induction false} MatchListed(lists: seq<seq<PostingEntry>>, idx: seq<int>, paths: seq<Byte>, aligned: bool)
    requires 0 < |lists| && Cursors(Ids(lists), idx)
    ensures var r := MatchFrom(lists, idx, paths, aligned);
      r.Ok? ==> AllListedAt(lists[0], idx[0], r.value)
    decreases Remaining(Ids(lists), idx, |lists|)
  {
    match MergeRound(lists, idx)
    case Finished =>
    case CatchUp(_, next) =>
      MatchListed(lists, next, paths, aligned);
      MatchCatchUp(lists, idx, paths, aligned);
      if MatchFrom(lists, next, paths, aligned).Ok? {
        ListedLater(lists[0], idx[0], next[0], MatchFrom(lists, next, paths, aligned).value);
      }
    case Common(d, next) =>
      MatchListed(lists, next, paths, aligned);
      MatchCommon(lists, idx, paths, aligned);
      var r := MatchFrom(lists, idx, paths, aligned);
      var rest := MatchFrom(lists, next, paths, aligned);
      if r.Ok? {
        ListedLater(lists[0], idx[0], next[0], rest.value);
        var starts := PhraseStarts(PositionsAt(lists, idx), aligned);
        if |starts| > 0 && GetPath(paths, d).value.Some? {
          var fr := FileResult(d, GetPath(paths, d).value.value, starts, 0.0, true);
          assert ListedAt(lists[0], idx[0], d) by {
            assert lists[0][idx[0]].docId == d;
          }
          ListedCons(lists[0], idx[0], fr, rest.value);
        }
      }
  }

  /** Reports ascend. */
  lemma {:induction false} MatchAscending(lists: seq<seq<PostingEntry>>, idx: seq<int>, paths: seq<Byte>, aligned: bool)
    requires 0 < |lists| && Cursors(Ids(lists), idx) && AllDocsAscending(lists)
    ensures var r := MatchFrom(lists, idx, paths, aligned);
      r.Ok? ==> ResultsAscending(r.value)
    decreases Remaining(Ids(lists), idx, |lists|)
  {
    match MergeRound(lists, idx)
    case Finished =>
    case CatchUp(_, next) =>
      MatchAscending(lists, next, paths, aligned);
      MatchCatchUp(lists, idx, paths, aligned);
    case Common(d, next) =>
      MatchAscending(lists, next, paths, aligned);
      MatchListed(lists, next, paths, aligned);
      MatchCommon(lists, idx, paths, aligned);
      var r := MatchFrom(lists, idx, paths, aligned);
      var rest := MatchFrom(lists, next, paths, aligned);
      if r.Ok? {
        assert lists[0][idx[0]].docId == d && next[0] == idx[0] + 1;
        AscendingCommon(lists[0], idx[0], r.value, rest.value);
      }
  }

  /** A common round keeps the reports ascending: it puts its own document,
      which is below every later one, in front of them, or adds nothing. */
  lemma AscendingCommon(l: seq<PostingEntry>, j0: int, r: seq<FileResult>, rest: seq<FileResult>)
    requires DocIdsAscending(l) && 0 <= j0 < |l| && AllListedAt(l, j0 + 1, rest) && ResultsAscending(rest)
    requires r == rest || (|r| > 0 && r[0].docId == l[j0].docId && r[1..] == rest)
    ensures ResultsAscending(r)
  {
    if r != rest {
      ListedAbove(l, j0, rest);
      PrependAscending(l[j0].docId, rest);
      assert r == [r[0]] + rest;
    }
  }

  /** Documents listed after position `j0` of an ascending list are above
      the one at `j0`. */
  lemma ListedAbove(l: seq<PostingEntry>, j0: int, rs: seq<FileResult>)
    requires DocIdsAscending(l) && 0 <= j0 < |l| && AllListedAt(l, j0 + 1, rs)
    ensures forall k :: 0 <= k < |rs| ==> l[j0].docId < rs[k].docId
  {
    forall k | 0 <= k < |rs| ensures l[j0].docId < rs[k].docId {
      var j :| j0 + 1 <= j < |l| && 0 <= j && l[j].docId == rs[k].docId;
    }
  }

  lemma PrependAscending(d: int, rest: seq<FileResult>)
    requires ResultsAscending(rest) && forall k :: 0 <= k < |rest| ==> d < rest[k].docId
    ensures forall fr: FileResult :: fr.docId == d ==> ResultsAscending([fr] + rest)
  {
    forall fr: FileResult | fr.docId == d ensures ResultsAscending([fr] + rest) {
      var r := [fr] + rest;
      assert forall k :: 1 <= k < |r| ==> r[k] == rest[k - 1];
    }
  }

  /** No cursor has passed document `d`. */
  predicate DocNotPassed(lists: seq<seq<PostingEntry>>, idx: seq<int>, d: int)
    requires Cursors(Ids(lists), idx)
  {
    forall i, j :: 0 <= i < |lists| && 0 <= j < idx[i] ==> lists[i][j].docId < d
  }

  /** A cursor that has not passed `d`, a document of its list, sits at or
      below it. */
  lemma DocCurrentBelow(lists: seq<seq<PostingEntry>>, idx: seq<int>, d: int, i: int)
    requires Cursors(Ids(lists), idx) && AllDocsAscending(lists) && InAll(lists, d)
    requires DocNotPassed(lists, idx, d) && 0 <= i < |lists|
    ensures idx[i] < |lists[i]| && lists[i][idx[i]].docId <= d
  {
    var j :| 0 <= j < |lists[i]| && lists[i][j].docId == d;
    assert !(j < idx[i]);
    if j > idx[i] {
      assert DocIdsAscending(lists[i]);
    }
  }

  /** A due document not yet passed keeps every list from running out. */
  lemma DocNotPassedLive(lists: seq<seq<PostingEntry>>, idx: seq<int>, d: int)
    requires Cursors(Ids(lists), idx) && AllDocsAscending(lists) && InAll(lists, d) && DocNotPassed(lists, idx, d)
    ensures !Exhausted(Ids(lists), idx)
    ensures forall i :: 0 <= i < |lists| ==> idx[i] < |lists[i]| && lists[i][idx[i]].docId <= d
  {
    forall i | 0 <= i < |lists| ensures idx[i] < |Ids(lists)[i]| && lists[i][idx[i]].docId <= d {
      DocCurrentBelow(lists, idx, d, i);
    }
  }

  /** Every due document not yet passed is reported, unless a path lookup
      fails first. */
  lemma {:induction false} MatchComplete(lists: seq<seq<PostingEntry>>, idx: seq<int>, paths: seq<Byte>, aligned: bool, fr: FileResult)
    requires 0 < |lists| && Cursors(Ids(lists), idx) && AllDocsAscending(lists)
    requires Reportable(lists, paths, aligned, fr) && DocNotPassed(lists, idx, fr.docId)
    ensures MatchFrom(lists, idx, paths, aligned).Ok? ==> fr in MatchFrom(lists, idx, paths, aligned).value
    decreases Remaining(Ids(lists), idx, |lists|)
  {
    var d := fr.docId;
    DocNotPassedLive(lists, idx, d);
    match MergeRound(lists, idx)
    case CatchUp(target, next) =>
      var m :| 0 <= m < |lists| && lists[m][idx[m]].docId == target;
      assert target <= d;
      MatchComplete(lists, next, paths, aligned, fr);
      MatchCatchUp(lists, idx, paths, aligned);
    case Common(d', next) =>
      MatchCommon(lists, idx, paths, aligned);
      var r := MatchFrom(lists, idx, paths, aligned);
      var rest := MatchFrom(lists, next, paths, aligned);
      if d' == d {
        PositionsAtAligned(lists, idx, d);
        if r.Ok? {
          assert r.value == [fr] + rest.value;
        }
      } else {
        assert lists[0][idx[0]].docId == d';
        CommonPasses(lists, idx, d);
        MatchComplete(lists, next, paths, aligned, fr);
        if r.Ok? && r.value != rest.value {
          assert r.value == [r.value[0]] + rest.value;
        }
      }
  }

  /** A common round below `d` leaves every cursor short of `d`. */
  lemma CommonPasses(lists: seq<seq<PostingEntry>>, idx: seq<int>, d: int)
    requires 0 < |lists| && Cursors(Ids(lists), idx) && MergeRound(lists, idx).Common?
    requires DocNotPassed(lists, idx, d) && MergeRound(lists, idx).doc < d
    ensures DocNotPassed(lists, MergeRound(lists, idx).next, d)
  {
    var r := MergeRound(lists, idx);
    forall i, j | 0 <= i < |lists| && 0 <= j < r.next[i] ensures lists[i][j].docId < d {
      if j == idx[i] {
        assert lists[i][idx[i]].docId == r.doc;
      }
    }
  }

  /** The merge fails only when a path lookup fails: with every document of
      the first list resolvable it succeeds. */
  lemma {:induction false} MatchOk(lists: seq<seq<PostingEntry>>, idx: seq<int>, paths: seq<Byte>, aligned: bool)
    requires 0 < |lists| && Cursors(Ids(lists), idx)
    requires forall j :: 0 <= j < |lists[0]| ==> GetPath(paths, lists[0][j].docId).Ok?
    ensures MatchFrom(lists, idx, paths, aligned).Ok?
    decreases Remaining(Ids(lists), idx, |lists|)
  {
    match MergeRound(lists, idx)
    case Finished =>
    case CatchUp(_, next) =>
      MatchOk(lists, next, paths, aligned);
      MatchCatchUp(lists, idx, paths, aligned);
    case Common(d, next) =>
      assert lists[0][idx[0]].docId == d;
      MatchOk(lists, next, paths, aligned);
  }

  /** The intersection reports exactly the due documents, each once and in
      ascending order. */
  lemma FindExactMatchesCorrect(lists: seq<seq<PostingEntry>>, paths: seq<Byte>, aligned: bool)
    requires 0 < |lists| && AllDocsAscending(lists)
    ensures var r := FindExactMatchesWithMerge(lists, paths, aligned);
      r.Ok? ==>
        ResultsAscending(r.value) && forall fr :: fr in r.value <==> Reportable(lists, paths, aligned, fr)
    ensures (forall j :: 0 <= j < |lists[0]| ==> GetPath(paths, lists[0][j].docId).Ok?) ==>
      FindExactMatchesWithMerge(lists, paths, aligned).Ok?
  {
    var z := Zeros(|lists|);
    MatchSound(lists, z, paths, aligned);
    MatchAscending(lists, z, paths, aligned);
    if MatchFrom(lists, z, paths, aligned).Ok? {
      var rs := MatchFrom(lists, z, paths, aligned).value;
      forall fr | fr in rs ensures Reportable(lists, paths, aligned, fr) {
        var k :| 0 <= k < |rs| && rs[k] == fr;
      }
    }
    forall fr | Reportable(lists, paths, aligned, fr) ensures MatchFrom(lists, z, paths, aligned).Ok? ==> fr in MatchFrom(lists, z, paths, aligned).value {
      MatchComplete(lists, z, paths, aligned, fr);
    }
    if forall j :: 0 <= j < |lists[0]| ==> GetPath(paths, lists[0][j].docId).Ok? {
      MatchOk(lists, z, paths, aligned);
    }
  }

  /** What a due document's positions mean: each starts the phrase there. With
      the corrected merge, or when no position belongs to two of the terms
      (no repeated term), every phrase start of the document is among them. */
  lemma ReportedPositions(lists: seq<seq<PostingEntry>>, paths: seq<Byte>, aligned: bool, fr: FileResult)
    requires Reportable(lists, paths, aligned, fr)
    ensures forall p :: p in fr.positions ==> PhraseAt(PositionsOf(lists, fr.docId), p)
    ensures AllAscending(PositionsOf(lists, fr.docId)) && (aligned || ValuesDisjoint(PositionsOf(lists, fr.docId))) ==>
      forall p :: PhraseAt(PositionsOf(lists, fr.docId), p) ==> p in fr.positions
  {
    var ps := PositionsOf(lists, fr.docId);
    assert |ps| > 0;
    ScanSound(ps, Zeros(|ps|), aligned);
    if AllAscending(ps) {
      if aligned {
        FindExactSequenceCorrect(ps);
      } else if ValuesDisjoint(ps) {
        AsWrittenCompleteWhenDisjoint(ps);
      }
    }
  }

  /** The normalized query tokens. */
  function NormalizeAll(tokens: seq<JString>, normalize: JString -> JString): (r: seq<JString>)
    ensures |r| == |tokens| && forall i :: 0 <= i < |r| ==> r[i] == normalize(tokens[i])
  {
    seq(|tokens|, i requires 0 <= i < |tokens| => normalize(tokens[i]))
  }

  /** `performExactSearch`: no tokens gives nothing; one token is searched as
      the whole normalized query; several are looked up in order, an absent
      one (an empty normalized token among them) gives nothing, and the
      posting lists found are intersected. `aligned` false is the source's
      phrase merge. */
  function PerformExactSearch(s: TreeSearcher, paths: seq<Byte>, tokenize: JString -> seq<JString>,
                              normalize: JString -> JString, query: JString, aligned: bool): (r: Result<seq<FileResult>, IoError>)
    requires Ready(s)
    ensures |tokenize(query)| == 0 ==> r == Ok([])
    ensures |tokenize(query)| == 1 ==> r == PerformSearch(s, paths, normalize, query)
  {
    var terms := NormalizeAll(tokenize(query), normalize);
    if |terms| == 0 then Ok([])
    else if |terms| == 1 then PerformSearch(s, paths, normalize, query)
    else
      var lists :- LookupAll(Lookups(s, terms));
      match lists
      case None => Ok([])
      case Some(ls) => FindExactMatchesWithMerge(ls, paths, aligned)
  }

  /** A multi-term query with a term absent from the index (or normalized to
      nothing) has no results, unless an earlier lookup fails. */
  lemma ExactSearchAbsentTerm(s: TreeSearcher, paths: seq<Byte>, tokenize: JString -> seq<JString>,
                              normalize: JString -> JString, query: JString, aligned: bool, i: int)
    requires Ready(s) && |tokenize(query)| > 1 && 0 <= i < |tokenize(query)|
    requires SearchDirect(s, normalize(tokenize(query)[i])) == Ok(None)
    requires forall j :: 0 <= j < i ==> SearchDirect(s, normalize(tokenize(query)[j])).Ok?
    ensures PerformExactSearch(s, paths, tokenize, normalize, query, aligned) == Ok([])
  {
    var terms := NormalizeAll(tokenize(query), normalize);
    LookupStopsAt(Lookups(s, terms), i);
  }

  /** The term loop stops with no lists at an absent term when the lookups
      before it succeed. */
  lemma {:induction false} LookupStopsAt(ls: seq<Lookup>, i: int)
    requires 0 <= i < |ls| && ls[i] == Ok(None)
    requires forall j :: 0 <= j < i ==> ls[j].Ok?
    ensures LookupAll(ls) == Ok(None)
  {
    if i > 0 && ls[0].value.Some? {
      assert forall j :: 1 <= j < |ls| ==> ls[j] == ls[1..][j - 1];
      LookupStopsAt(ls[1..], i - 1);
    }
  }

  /** A multi-term query whose terms are all present reports exactly the
      documents where they occur as a phrase and whose path resolves, in
      ascending order. */
  lemma ExactSearchCorrect(s: TreeSearcher, paths: seq<Byte>, tokenize: JString -> seq<JString>,
                           normalize: JString -> JString, query: JString, aligned: bool, lists: seq<seq<PostingEntry>>)
    requires Ready(s) && |tokenize(query)| > 1 && |lists| == |tokenize(query)|
    requires forall i :: 0 <= i < |lists| ==> FoundWith(s, normalize(tokenize(query)[i]), lists[i])
    requires AllDocsAscending(lists)
    ensures var r := PerformExactSearch(s, paths, tokenize, normalize, query, aligned);
      r.Ok? ==>
        ResultsAscending(r.value) && forall fr :: fr in r.value <==> Reportable(lists, paths, aligned, fr)
  {
    var terms := NormalizeAll(tokenize(query), normalize);
    var l := LookupAll(Lookups(s, terms));
    assert l.Ok? && l.value.Some?;
    assert l.value.value == lists;
    FindExactMatchesCorrect(lists, paths, aligned);
  }
}
