/** `performFuzzySearchWithRanking`: every document holding at least one
    query term is a candidate, with the positions of all its matched terms
    merged and sorted and a score, and the candidates are ordered by
    descending score. The BM25 score is a parameter of the document and its
    matched terms. */
module Ranked {
  import opened JStrings
  import opened Utf
  import opened Wrappers
  import opened DataStream
  import opened Postings
  import opened Sorting
  import opened Searcher
  import opened Query

  /** A found query term and its postings (an entry of `termResults`). */
  datatype Hit = Hit(term: JString, postings: seq<PostingEntry>)

  predicate DistinctTerms(hits: seq<Hit>)
  {
    forall k, l :: 0 <= k < l < |hits| ==> hits[k].term != hits[l].term
  }

  /** The term loop: each query term is looked up, the found ones kept once
      each; a failed lookup fails the search. */
  function FoundHits(s: TreeSearcher, terms: seq<JString>): (r: Result<seq<Hit>, IoError>)
    requires Ready(s)
    ensures r.Ok? <==> forall i :: 0 <= i < |terms| ==> SearchDirect(s, terms[i]).Ok?
    ensures r.Ok? ==> (|r.value| == 0 <==> forall i :: 0 <= i < |terms| ==> !Found(s, terms[i]))
  {
    if |terms| == 0 then Ok([])
    else
      var hit :- SearchDirect(s, terms[0]);
      var rest :- FoundHits(s, terms[1..]);
      assert forall i :: 1 <= i < |terms| ==> terms[i] == terms[1..][i - 1];
      if hit.Some? && terms[0] !in terms[1..] then Ok([Hit(terms[0], hit.value.postings)] + rest)
      else Ok(rest)
  }

  /** Every hit is a query term that is found, with the postings found for it. */
  predicate HitsFound(s: TreeSearcher, terms: seq<JString>, hits: seq<Hit>)
    requires Ready(s)
  {
    forall k :: 0 <= k < |hits| ==> hits[k].term in terms && FoundWith(s, hits[k].term, hits[k].postings)
  }

  /** Every found query term has a hit. */
  predicate HitsComplete(s: TreeSearcher, terms: seq<JString>, hits: seq<Hit>)
    requires Ready(s)
  {
    forall i :: 0 <= i < |terms| && Found(s, terms[i]) ==> exists k :: 0 <= k < |hits| && hits[k].term == terms[i]
  }

  /** The hits are the found query terms, each once, with their postings. */
  lemma {:induction false} FoundHitsCorrect(s: TreeSearcher, terms: seq<JString>)
    requires Ready(s)
    ensures var r := FoundHits(s, terms);
      r.Ok? ==> DistinctTerms(r.value) && HitsFound(s, terms, r.value) && HitsComplete(s, terms, r.value)
  {
    var r := FoundHits(s, terms);
    if |terms| > 0 && r.Ok? {
      var hit := SearchDirect(s, terms[0]).value;
      var rest := FoundHits(s, terms[1..]).value;
      FoundHitsCorrect(s, terms[1..]);
      assert forall i :: 1 <= i < |terms| ==> terms[i] == terms[1..][i - 1];
      assert forall t :: t in terms[1..] ==> t in terms;
      if hit.Some? && terms[0] !in terms[1..] {
        var h := Hit(terms[0], hit.value.postings);
        assert r.value == [h] + rest;
        HitsCons(s, terms, h, rest);
      } else {
        assert r.value == rest;
        assert HitsComplete(s, terms, rest) by {
          forall i | 0 <= i < |terms| && Found(s, terms[i])
            ensures exists k :: 0 <= k < |rest| && rest[k].term == terms[i]
          {
            if i == 0 {
              var j :| 0 <= j < |terms[1..]| && terms[1..][j] == terms[0];
              assert Found(s, terms[1..][j]);
            } else {
              assert Found(s, terms[1..][i - 1]);
            }
          }
        }
      }
    }
  }

  /** The step of `FoundHitsCorrect` where the first term is kept. */
  lemma HitsCons(s: TreeSearcher, terms: seq<JString>, h: Hit, rest: seq<Hit>)
    requires Ready(s) && |terms| > 0 && h.term == terms[0] && terms[0] !in terms[1..]
    requires FoundWith(s, h.term, h.postings)
    requires DistinctTerms(rest) && HitsFound(s, terms[1..], rest) && HitsComplete(s, terms[1..], rest)
    ensures var r := [h] + rest; DistinctTerms(r) && HitsFound(s, terms, r) && HitsComplete(s, terms, r)
  {
    var r := [h] + rest;
    assert forall k :: 1 <= k < |r| ==> r[k] == rest[k - 1];
    assert forall i :: 1 <= i < |terms| ==> terms[i] == terms[1..][i - 1];
    forall k, l | 0 <= k < l < |r| ensures r[k].term != r[l].term {
      if k == 0 { assert r[l].term in terms[1..]; }
    }
    forall i | 0 <= i < |terms| && Found(s, terms[i]) ensures exists k :: 0 <= k < |r| && r[k].term == terms[i] {
      if i == 0 {
        assert r[0].term == terms[i];
      } else {
        assert Found(s, terms[1..][i - 1]);
        var k :| 0 <= k < |rest| && rest[k].term == terms[1..][i - 1];
        assert r[k + 1].term == terms[i];
      }
    }
  }

  /** The last record of `l` for document `d`: `addTerm` overwrites. */
  function LastEntryFor(l: seq<PostingEntry>, d: int): (r: Option<PostingEntry>)
    ensures r.None? <==> forall j :: 0 <= j < |l| ==> l[j].docId != d
    ensures r.Some? ==> r.value in l && r.value.docId == d
  {
    if |l| == 0 then None
    else if l[|l| - 1].docId == d then Some(l[|l| - 1])
    else
      var r := LastEntryFor(l[..|l| - 1], d);
      assert forall j :: 0 <= j < |l| - 1 ==> l[j] == l[..|l| - 1][j];
      r
  }

  /** The documents holding some found term. */
  function Candidates(hits: seq<Hit>): set<int>
  {
    set k, j | 0 <= k < |hits| && 0 <= j < |hits[k].postings| :: hits[k].postings[j].docId
  }

  /** `mt` is a found term present in `d` with its positions there. */
  predicate MatchedFrom(hits: seq<Hit>, d: int, mt: (JString, seq<int>))
  {
    exists k :: 0 <= k < |hits| && mt.0 == hits[k].term && LastEntryFor(hits[k].postings, d) == Some(PostingEntry(d, mt.1))
  }

  /** `DocumentMatch.termPositions` of document `d`: each found term present
      in `d`, with its positions there. */
  function MatchedTerms(hits: seq<Hit>, d: int): (r: seq<(JString, seq<int>)>)
    ensures |r| <= |hits|
    ensures forall m :: 0 <= m < |r| ==> MatchedFrom(hits, d, r[m])
    ensures forall k :: 0 <= k < |hits| && LastEntryFor(hits[k].postings, d).Some? ==>
      (hits[k].term, LastEntryFor(hits[k].postings, d).value.positions) in r
  {
    if |hits| == 0 then []
    else
      var rest := MatchedTerms(hits[1..], d);
      assert forall k :: 1 <= k < |hits| ==> hits[k] == hits[1..][k - 1];
      match LastEntryFor(hits[0].postings, d)
      case None => rest
      case Some(e) =>
        var r := [(hits[0].term, e.positions)] + rest;
        assert forall m :: 1 <= m < |r| ==> r[m] == rest[m - 1];
        r
  }

  /** A document is a candidate exactly when some found term is present in it. */
  lemma CandidateMatched(hits: seq<Hit>, d: int)
    ensures d in Candidates(hits) <==> |MatchedTerms(hits, d)| > 0
  {
    if d in Candidates(hits) {
      var k, j :| 0 <= k < |hits| && 0 <= j < |hits[k].postings| && hits[k].postings[j].docId == d;
      assert LastEntryFor(hits[k].postings, d).Some?;
    }
    if |MatchedTerms(hits, d)| > 0 {
      var r := MatchedTerms(hits, d);
      assert MatchedFrom(hits, d, r[0]);
      var k :| 0 <= k < |hits| && r[0].0 == hits[k].term && LastEntryFor(hits[k].postings, d) == Some(PostingEntry(d, r[0].1));
      var e := LastEntryFor(hits[k].postings, d).value;
      var j :| 0 <= j < |hits[k].postings| && hits[k].postings[j] == e;
    }
  }

  /** All matched positions, in matched-term order. */
  function Flatten(m: seq<(JString, seq<int>)>): seq<int>
  {
    if |m| == 0 then [] else m[0].1 + Flatten(m[1..])
  }

  /** The ranked result due for document `d`: its path resolves, its
      positions are all its matched positions sorted, and it carries its
      score and the inexact flag. */
  predicate RankedFrom(hits: seq<Hit>, paths: seq<Byte>, score: (int, seq<(JString, seq<int>)>) -> real, fr: FileResult)
  {
    var m := MatchedTerms(hits, fr.docId);
    fr.docId in Candidates(hits) && GetPath(paths, fr.docId) == Ok(Some(fr.path)) &&
    fr == FileResult(fr.docId, fr.path, Sort(Flatten(m)), score(fr.docId, m), false)
  }

  /** The result due for candidate `d` with path `p`. */
  function RankedResult(hits: seq<Hit>, score: (int, seq<(JString, seq<int>)>) -> real, d: int, p: JString): (fr: FileResult)
    ensures fr.docId == d && fr.path == p && !fr.exact
  {
    var m := MatchedTerms(hits, d);
    FileResult(d, p, Sort(Flatten(m)), score(d, m), false)
  }

  /** The candidate loop: a candidate whose path does not resolve is
      skipped. Candidates are taken in ascending document order. */
  function ResolveRanked(cands: seq<int>, hits: seq<Hit>, paths: seq<Byte>, score: (int, seq<(JString, seq<int>)>) -> real)
    : (r: Result<seq<FileResult>, IoError>)
    ensures r.Ok? <==> forall i :: 0 <= i < |cands| ==> GetPath(paths, cands[i]).Ok?
  {
    if |cands| == 0 then Ok([])
    else
      var d := cands[0];
      var path :- GetPath(paths, d);
      var rest :- ResolveRanked(cands[1..], hits, paths, score);
      assert forall i :: 1 <= i < |cands| ==> cands[i] == cands[1..][i - 1];
      match path
      case None => Ok(rest)
      case Some(p) => Ok([RankedResult(hits, score, d, p)] + rest)
  }

  /** One step of the candidate loop. */
  lemma ResolveRankedStep(cands: seq<int>, hits: seq<Hit>, paths: seq<Byte>, score: (int, seq<(JString, seq<int>)>) -> real)
    requires |cands| > 0 && ResolveRanked(cands, hits, paths, score).Ok?
    ensures var r := ResolveRanked(cands, hits, paths, score).value;
      var rest := ResolveRanked(cands[1..], hits, paths, score);
      var path := GetPath(paths, cands[0]);
      rest.Ok? && path.Ok? &&
      (path.value.None? ==> r == rest.value) &&
      (path.value.Some? ==> r == [RankedResult(hits, score, cands[0], path.value.value)] + rest.value)
  {
  }

  /** Results keep the candidates' order, and each is for a candidate. */
  lemma {:induction false} ResolveRankedAscending(cands: seq<int>, hits: seq<Hit>, paths: seq<Byte>,
                                                  score: (int, seq<(JString, seq<int>)>) -> real)
    requires StrictlyAscending(cands)
    ensures var r := ResolveRanked(cands, hits, paths, score);
      r.Ok? ==> ResultsAscending(r.value) && forall k :: 0 <= k < |r.value| ==> r.value[k].docId in cands
  {
    var r := ResolveRanked(cands, hits, paths, score);
    if |cands| > 0 && r.Ok? {
      var rest := ResolveRanked(cands[1..], hits, paths, score).value;
      StrictHeadTail(cands);
      ResolveRankedAscending(cands[1..], hits, paths, score);
      ResolveRankedStep(cands, hits, paths, score);
      var path := GetPath(paths, cands[0]).value;
      if path.Some? {
        var fr := RankedResult(hits, score, cands[0], path.value);
        assert r.value == [fr] + rest;
        PrependCandidate(cands, fr, rest);
      }
    }
  }

  /** The result of the first of ascending candidates goes in front of the
      results of the others. */
  lemma PrependCandidate(cands: seq<int>, fr: FileResult, rest: seq<FileResult>)
    requires StrictlyAscending(cands) && |cands| > 0 && fr.docId == cands[0]
    requires ResultsAscending(rest) && forall k :: 0 <= k < |rest| ==> rest[k].docId in cands[1..]
    ensures ResultsAscending([fr] + rest) && forall k :: 0 <= k < |[fr] + rest| ==> ([fr] + rest)[k].docId in cands
  {
    StrictHeadTail(cands);
    PrependAscending(cands[0], rest);
    var r := [fr] + rest;
    forall k | 0 <= k < |r| ensures r[k].docId in cands {
      if k > 0 { assert r[k] == rest[k - 1]; }
    }
  }

  /** Each candidate's result is there when its path resolves, and nothing
      else. */
  lemma {:induction false} ResolveRankedMembers(cands: seq<int>, hits: seq<Hit>, paths: seq<Byte>,
                                                score: (int, seq<(JString, seq<int>)>) -> real)
    requires forall i :: 0 <= i < |cands| ==> cands[i] in Candidates(hits)
    ensures var r := ResolveRanked(cands, hits, paths, score);
      r.Ok? ==> forall fr :: fr in r.value <==> fr.docId in cands && RankedFrom(hits, paths, score, fr)
  {
    var r := ResolveRanked(cands, hits, paths, score);
    if |cands| > 0 && r.Ok? {
      var d := cands[0];
      var rest := ResolveRanked(cands[1..], hits, paths, score).value;
      assert forall i :: 1 <= i < |cands| ==> cands[i] == cands[1..][i - 1];
      ResolveRankedMembers(cands[1..], hits, paths, score);
      ResolveRankedStep(cands, hits, paths, score);
      assert forall x :: x in cands <==> x == d || x in cands[1..];
    }
  }

  predicate ScoresDescending(rs: seq<FileResult>)
  {
    forall k, l :: 0 <= k < l < |rs| ==> rs[k].score >= rs[l].score
  }

  /** Inserts `x` before the first result scored no higher. */
  function InsertByScore(x: FileResult, rs: seq<FileResult>): (r: seq<FileResult>)
    ensures multiset(r) == multiset(rs) + multiset{x}
  {
    if |rs| == 0 then [x]
    else if x.score >= rs[0].score then [x] + rs
    else
      assert rs == [rs[0]] + rs[1..];
      [rs[0]] + InsertByScore(x, rs[1..])
  }

  /** Every result scores at most `hi`. */
  predicate ScoresAtMost(rs: seq<FileResult>, hi: real)
  {
    forall k :: 0 <= k < |rs| ==> rs[k].score <= hi
  }

  /** Inserting into a descending list keeps it descending, and keeps a
      bound every element and `x` respect. */
  lemma {:induction false} InsertByScoreDescending(x: FileResult, rs: seq<FileResult>, hi: real)
    requires ScoresDescending(rs) && ScoresAtMost(rs, hi) && x.score <= hi
    ensures ScoresDescending(InsertByScore(x, rs)) && ScoresAtMost(InsertByScore(x, rs), hi)
  {
    if |rs| > 0 {
      TailDescending(rs);
      assert rs[0].score <= hi;
      if x.score < rs[0].score {
        InsertByScoreDescending(x, rs[1..], rs[0].score);
        ConsDescending(rs[0], InsertByScore(x, rs[1..]), hi);
      } else {
        ConsDescending(x, rs, hi);
      }
    }
  }

  /** The tail of a descending list is descending and bounded by its head. */
  lemma TailDescending(rs: seq<FileResult>)
    requires ScoresDescending(rs) && |rs| > 0
    ensures ScoresDescending(rs[1..]) && ScoresAtMost(rs[1..], rs[0].score) && ScoresAtMost(rs, rs[0].score)
  {
    forall k, l | 0 <= k < l < |rs[1..]| ensures rs[1..][k].score >= rs[1..][l].score {
      assert rs[1..][k] == rs[k + 1] && rs[1..][l] == rs[l + 1];
    }
    forall k | 0 <= k < |rs[1..]| ensures rs[1..][k].score <= rs[0].score {
      assert rs[1..][k] == rs[k + 1];
    }
  }

  /** A result scored at least every one of a descending list, and at most
      `hi`, starts a descending list bounded by `hi`. */
  lemma ConsDescending(y: FileResult, t: seq<FileResult>, hi: real)
    requires ScoresDescending(t) && ScoresAtMost(t, y.score) && y.score <= hi
    ensures ScoresDescending([y] + t) && ScoresAtMost([y] + t, hi)
  {
    var r := [y] + t;
    forall k, l | 0 <= k < l < |r| ensures r[k].score >= r[l].score {
      if k == 0 { assert r[l] == t[l - 1]; } else { assert r[k] == t[k - 1] && r[l] == t[l - 1]; }
    }
    forall k | 0 <= k < |r| ensures r[k].score <= hi {
      if k > 0 { assert r[k] == t[k - 1]; }
    }
  }

  /** The stable sort by descending score. */
  function SortByScore(rs: seq<FileResult>): (r: seq<FileResult>)
    ensures ScoresDescending(r)
    ensures multiset(r) == multiset(rs)
  {
    if |rs| == 0 then []
    else
      assert rs == [rs[0]] + rs[1..];
      var t := SortByScore(rs[1..]);
      var hi := if |t| > 0 && t[0].score > rs[0].score then t[0].score else rs[0].score;
      InsertByScoreDescending(rs[0], t, hi);
      InsertByScore(rs[0], t)
  }

  /** `performFuzzySearchWithRanking`: no tokens or no found term gives no
      results; otherwise every candidate document whose path resolves, with
      its merged positions and its score, by descending score. */
  function PerformRankedSearch(s: TreeSearcher, paths: seq<Byte>, tokenize: JString -> seq<JString>,
                               normalize: JString -> JString, score: (int, seq<(JString, seq<int>)>) -> real,
                               query: JString): (r: Result<seq<FileResult>, IoError>)
    requires Ready(s)
    ensures |tokenize(query)| == 0 ==> r == Ok([])
    ensures r.Ok? ==> ScoresDescending(r.value)
  {
    var terms := NormalizeAll(tokenize(query), normalize);
    if |terms| == 0 then Ok([])
    else
      var hits :- FoundHits(s, terms);
      if |hits| == 0 then Ok([])
      else
        var rs :- ResolveRanked(SortedSet(Candidates(hits)), hits, paths, score);
        Ok(SortByScore(rs))
  }

  /** A query none of whose terms is in the index has no results. */
  lemma RankedNothingFound(s: TreeSearcher, paths: seq<Byte>, tokenize: JString -> seq<JString>,
                           normalize: JString -> JString, score: (int, seq<(JString, seq<int>)>) -> real, query: JString)
    requires Ready(s)
    requires forall i :: 0 <= i < |tokenize(query)| ==> SearchDirect(s, normalize(tokenize(query)[i])) == Ok(None)
    ensures PerformRankedSearch(s, paths, tokenize, normalize, score, query) == Ok([])
  {
    var terms := NormalizeAll(tokenize(query), normalize);
    assert forall i :: 0 <= i < |terms| ==> !Found(s, terms[i]);
  }

  /** The ranked results are exactly one per candidate document whose path
      resolves, each with all its matched positions sorted and its score. */
  lemma RankedSearchCorrect(s: TreeSearcher, paths: seq<Byte>, tokenize: JString -> seq<JString>,
                            normalize: JString -> JString, score: (int, seq<(JString, seq<int>)>) -> real, query: JString)
    requires Ready(s)
    ensures var r := PerformRankedSearch(s, paths, tokenize, normalize, score, query);
      var terms := NormalizeAll(tokenize(query), normalize);
      var hits := FoundHits(s, terms);
      r.Ok? && |terms| > 0 ==>
        hits.Ok? &&
        (forall fr :: fr in r.value <==> RankedFrom(hits.value, paths, score, fr)) &&
        forall k, l :: 0 <= k < l < |r.value| ==> r.value[k].docId != r.value[l].docId
  {
    var terms := NormalizeAll(tokenize(query), normalize);
    var r := PerformRankedSearch(s, paths, tokenize, normalize, score, query);
    if r.Ok? && |terms| > 0 {
      var hits := FoundHits(s, terms).value;
      if |hits| > 0 {
        var cands := SortedSet(Candidates(hits));
        var rs := ResolveRanked(cands, hits, paths, score).value;
        ResolveRankedAscending(cands, hits, paths, score);
        ResolveRankedMembers(cands, hits, paths, score);
        assert r.value == SortByScore(rs);
        forall fr ensures fr in r.value <==> fr in rs {
          assert fr in r.value <==> fr in multiset(r.value);
          assert fr in rs <==> fr in multiset(rs);
        }
        DistinctDocs(rs, r.value);
      } else {
        assert Candidates(hits) == {};
      }
    }
  }

  /** A rearrangement of results with distinct documents has distinct
      documents. */
  lemma DistinctDocs(a: seq<FileResult>, b: seq<FileResult>)
    requires ResultsAscending(a) && multiset(a) == multiset(b)
    ensures forall k, l :: 0 <= k < l < |b| ==> b[k].docId != b[l].docId
  {
    forall k, l | 0 <= k < l < |b| ensures b[k].docId != b[l].docId {
      assert b[k] in multiset(a) && b[l] in multiset(a);
      var i :| 0 <= i < |a| && a[i] == b[k];
      var j :| 0 <= j < |a| && a[j] == b[l];
      if i == j {
        assert multiset(b)[b[k]] >= 2 by {
          assert b == b[..l] + b[l..];
          assert b[k] in multiset(b[..l]) && b[l] in multiset(b[l..]);
        }
        ResultsOnce(a, i);
      }
    }
  }

  /** Each result of an ascending list occurs once. */
  lemma ResultsOnce(a: seq<FileResult>, i: int)
    requires ResultsAscending(a) && 0 <= i < |a|
    ensures multiset(a)[a[i]] == 1
  {
    assert a == a[..i] + [a[i]] + a[i + 1..];
    assert a[i] !in a[..i] by {
      forall j | 0 <= j < i ensures a[..i][j] != a[i] { assert a[..i][j] == a[j]; }
    }
    var tail := a[i + 1..];
    assert a[i] !in tail by {
      forall j | 0 <= j < |tail| ensures tail[j] != a[i] { assert tail[j] == a[i + 1 + j]; }
    }
    assert multiset(a[..i])[a[i]] == 0 && multiset(a[i + 1..])[a[i]] == 0;
  }
}
