/** `FileProcessor`: the bookkeeping of the crawl. Each visited path is
    appended to the paths file and its byte offset there becomes the
    document id; the file name (before its last '.') and, for supported
    files, the extracted text are tokenised, the non-empty normalised tokens
    are handed to the name and content indexes at positions 0, 1, ..., and
    the token count of each document goes to a lengths file whose two-long
    header is patched with the totals on close. The tokeniser, the
    normaliser, the supported-file test and text extraction are parameters. */
module Documents {
  import opened JStrings
  import opened Utf
  import opened Wrappers
  import opened DataStream
  import opened Searcher
  import opened Query
  import Collections

  /** The name text indexed for a file: the name before its last '.', or the
      whole name when it has none (a name starting with its only '.' gives
      the empty text). */
  function NameText(fileName: JString): (r: JString)
    ensures DOT !in fileName ==> r == fileName
    ensures DOT in fileName ==>
      |r| < |fileName| && r == fileName[..|r|] && fileName[|r|] == DOT && DOT !in fileName[|r| + 1..]
  {
    var i := LastIndexOf(fileName, DOT);
    if i == -1 then fileName
    else
      var tail := fileName[i + 1..];
      assert forall j :: 0 <= j < |tail| ==> tail[j] == fileName[i + 1 + j];
      fileName[..i]
  }

  /** The tokens kept: the non-empty ones, in order. */
  function NonEmpty(ts: seq<JString>): (r: seq<JString>)
    ensures |r| <= |ts|
    ensures forall k :: 0 <= k < |r| ==> r[k] != []
  {
    if |ts| == 0 then []
    else if ts[0] == [] then NonEmpty(ts[1..])
    else [ts[0]] + NonEmpty(ts[1..])
  }

  /** A token is kept exactly when it is non-empty. */
  lemma {:induction false} NonEmptyMembers(ts: seq<JString>)
    ensures forall t :: t in NonEmpty(ts) <==> t in ts && t != []
  {
    if |ts| > 0 {
      NonEmptyMembers(ts[1..]);
      assert forall t :: t in ts <==> t == ts[0] || t in ts[1..];
    }
  }

  /** Filtering a concatenation filters each part, so order is kept. */
  lemma {:induction false} NonEmptyAppend(a: seq<JString>, b: seq<JString>)
    ensures NonEmpty(a + b) == NonEmpty(a) + NonEmpty(b)
  {
    if |a| > 0 {
      assert (a + b)[1..] == a[1..] + b;
      NonEmptyAppend(a[1..], b);
    } else {
      assert a + b == b;
    }
  }

  /** Without empty tokens nothing is dropped. */
  lemma {:induction false} NonEmptyKeepsAll(ts: seq<JString>)
    requires forall i :: 0 <= i < |ts| ==> ts[i] != []
    ensures NonEmpty(ts) == ts
  {
    if |ts| > 0 {
      assert forall i :: 0 <= i < |ts[1..]| ==> ts[1..][i] == ts[i + 1];
      NonEmptyKeepsAll(ts[1..]);
      assert ts == [ts[0]] + ts[1..];
    }
  }

  /** The terms indexed for a text: its non-empty normalised tokens. */
  function IndexedTerms(text: JString, tokenize: JString -> seq<JString>, normalize: JString -> JString): seq<JString>
  {
    NonEmpty(NormalizeAll(tokenize(text), normalize))
  }

  /** One `addToTempIndex(term, docId, position)` call. */
  datatype Occurrence = Occurrence(term: JString, docId: int, position: int)

  /** The calls for one document, the i-th term at position i. */
  function Occurrences(terms: seq<JString>, docId: int): (r: seq<Occurrence>)
    ensures |r| == |terms|
  {
    seq(|terms|, i requires 0 <= i < |terms| => Occurrence(terms[i], docId, i))
  }

  /** A lengths file being written: the document counter, the length
      counter, and the (document id, length) records in writing order. */
  datatype Lengths = Lengths(count: int, total: int, records: seq<(int, int)>)

  /** `writeFileNameLen` / `writeFileContentLen`. */
  function Record(l: Lengths, docId: int, size: int): Lengths
  {
    Lengths(l.count + 1, l.total + size, l.records + [(docId, size)])
  }

  function SumSizes(rs: seq<(int, int)>): int
  {
    if |rs| == 0 then 0 else SumSizes(rs[..|rs| - 1]) + rs[|rs| - 1].1
  }

  /** The counters agree with the records. */
  predicate Counted(l: Lengths)
  {
    l.count == |l.records| && l.total == SumSizes(l.records)
  }

  predicate IdsAscending(rs: seq<(int, int)>)
  {
    forall k, l :: 0 <= k < l < |rs| ==> rs[k].0 < rs[l].0
  }

  predicate IdsBelow(rs: seq<(int, int)>, bound: int)
  {
    forall k :: 0 <= k < |rs| ==> 0 <= rs[k].0 < bound
  }

  /** The state of a crawl: the paths file, both lengths files and the calls
      made on the name and content indexes. */
  datatype Crawl = Crawl(paths: seq<Byte>, names: Lengths, contents: Lengths,
                         nameTerms: seq<Occurrence>, contentTerms: seq<Occurrence>)

  /** A fresh `FileProcessor`: empty files and zero counters. */
  const Fresh: Crawl := Crawl([], Lengths(0, 0, []), Lengths(0, 0, []), [], [])

  /** A visited path: its text, its file name (`None` for a root such as a
      drive, whose `getFileName()` is null), whether `isSupportedFile`
      accepts it, and what `extractText` returns for it (the empty text when
      extraction fails). */
  datatype Visit = Visit(path: JString, fileName: Option<JString>, supported: bool, text: JString)

  /** `calls` extends `before` with the calls for the terms of `docId`, the
      i-th term at position i. */
  predicate AddedTerms(before: seq<Occurrence>, calls: seq<Occurrence>, terms: seq<JString>, docId: int)
  {
    |calls| == |before| + |terms| && calls[..|before|] == before &&
    forall i :: 0 <= i < |terms| ==> calls[|before| + i] == Occurrence(terms[i], docId, i)
  }

  /** `processFileOrDirectory`: a path too long for `writeUTF` is skipped;
      otherwise its offset in the paths file is its id. A path without a file
      name stops there, with its record written and its id used up: the null
      name throws before anything is counted, and the crawl goes on. Otherwise
      its name terms are indexed and counted, and, when the file is
      supported, so are the terms of its extracted text. */
  function ProcessFileOrDirectory(c: Crawl, v: Visit, tokenize: JString -> seq<JString>,
                                  normalize: JString -> JString): (r: Crawl)
    ensures UtfLength(v.path) > 65535 ==> r == c
    ensures UtfLength(v.path) <= 65535 ==>
      var d := |c.paths|;
      |r.paths| == d + 2 + UtfLength(v.path) && r.paths[..d] == c.paths &&
      GetPath(r.paths, d) == Ok(Some(v.path))
    ensures UtfLength(v.path) <= 65535 && v.fileName.Some? ==>
      var d := |c.paths|;
      var ns := IndexedTerms(NameText(v.fileName.value), tokenize, normalize);
      r.names == Record(c.names, d, |ns|) && AddedTerms(c.nameTerms, r.nameTerms, ns, d)
    ensures v.fileName.None? ==> r.names == c.names && r.nameTerms == c.nameTerms
    ensures UtfLength(v.path) <= 65535 && v.fileName.Some? && v.supported ==>
      var d := |c.paths|;
      var ws := IndexedTerms(v.text, tokenize, normalize);
      r.contents == Record(c.contents, d, |ws|) && AddedTerms(c.contentTerms, r.contentTerms, ws, d)
    ensures !(v.fileName.Some? && v.supported) ==> r.contents == c.contents && r.contentTerms == c.contentTerms
  {
    match WriteUtf(v.path)
    case Err(_) => c
    case Ok(rec) =>
      var d := |c.paths|;
      GetPathOfWritten(c.paths, v.path, []);
      assert c.paths + rec + [] == c.paths + rec;
      match v.fileName
      case None => c.(paths := c.paths + rec)
      case Some(fileName) =>
        var ns := IndexedTerms(NameText(fileName), tokenize, normalize);
        var named := c.(paths := c.paths + rec, names := Record(c.names, d, |ns|),
                        nameTerms := c.nameTerms + Occurrences(ns, d));
        if v.supported then
          var ws := IndexedTerms(v.text, tokenize, normalize);
          named.(contents := Record(c.contents, d, |ws|), contentTerms := c.contentTerms + Occurrences(ws, d))
        else named
  }

  /** The visits in order. */
  function Crawled(c: Crawl, vs: seq<Visit>, tokenize: JString -> seq<JString>, normalize: JString -> JString): Crawl
    decreases |vs|
  {
    if |vs| == 0 then c
    else Crawled(ProcessFileOrDirectory(c, vs[0], tokenize, normalize), vs[1..], tokenize, normalize)
  }

  /** How many of the visits get a name record: those with a path `writeUTF`
      accepts and a file name. */
  function NamedVisits(vs: seq<Visit>): nat
    decreases |vs|
  {
    if |vs| == 0 then 0
    else (if UtfLength(vs[0].path) <= 65535 && vs[0].fileName.Some? then 1 else 0) + NamedVisits(vs[1..])
  }

  /** A crawl adds one name record per named visit and no other. */
  lemma {:induction false} CrawledNames(c: Crawl, vs: seq<Visit>, tokenize: JString -> seq<JString>,
                                        normalize: JString -> JString)
    ensures |Crawled(c, vs, tokenize, normalize).names.records| == |c.names.records| + NamedVisits(vs)
    decreases |vs|
  {
    if |vs| > 0 {
      CrawledNames(ProcessFileOrDirectory(c, vs[0], tokenize, normalize), vs[1..], tokenize, normalize);
    }
  }

  /** A record read back from the paths file stays readable when more is
      appended. */
  lemma GetPathExtend(paths: seq<Byte>, more: seq<Byte>, d: int)
    requires GetPath(paths, d).Ok? && GetPath(paths, d).value.Some?
    ensures GetPath(paths + more, d) == GetPath(paths, d)
  {
    var bs := paths[d..];
    assert (paths + more)[d..] == bs + more;
    var (n, rest) := ReadUnsignedShort(bs).value;
    assert (bs + more)[..2] == bs[..2] && (bs + more)[2..] == rest + more;
    assert (rest + more)[..n] == rest[..n] && (rest + more)[n..] == rest[n..] + more;
  }

  /** Every document recorded in the names file has a readable path, ids
      ascend and lie inside the paths file, content records are for
      documents recorded by name, and the counters match the records. */
  ghost predicate Consistent(c: Crawl)
  {
    Counted(c.names) && Counted(c.contents) &&
    IdsAscending(c.names.records) && IdsBelow(c.names.records, |c.paths|) &&
    IdsAscending(c.contents.records) && IdsBelow(c.contents.records, |c.paths|) &&
    forall k :: 0 <= k < |c.names.records| ==>
      GetPath(c.paths, c.names.records[k].0).Ok? && GetPath(c.paths, c.names.records[k].0).value.Some?
  }

  /** A new record with an id above all earlier ones keeps the lengths file
      counted, ascending and below the new bound. */
  lemma RecordKeeps(l: Lengths, d: int, size: int, bound: int)
    requires Counted(l) && IdsAscending(l.records) && IdsBelow(l.records, d) && 0 <= d < bound
    ensures var l2 := Record(l, d, size);
      Counted(l2) && IdsAscending(l2.records) && IdsBelow(l2.records, bound)
  {
    var rs := l.records + [(d, size)];
    assert rs[..|rs| - 1] == l.records;
  }

  /** Processing a path keeps the crawl consistent. */
  lemma ProcessKeepsConsistent(c: Crawl, v: Visit, tokenize: JString -> seq<JString>, normalize: JString -> JString)
    requires Consistent(c)
    ensures Consistent(ProcessFileOrDirectory(c, v, tokenize, normalize))
  {
    var r := ProcessFileOrDirectory(c, v, tokenize, normalize);
    if UtfLength(v.path) <= 65535 {
      var d := |c.paths|;
      if v.fileName.Some? {
        var ns := IndexedTerms(NameText(v.fileName.value), tokenize, normalize);
        RecordKeeps(c.names, d, |ns|, |r.paths|);
      } else {
        forall k | 0 <= k < |c.names.records| ensures c.names.records[k].0 < |r.paths| { }
      }
      if v.fileName.Some? && v.supported {
        RecordKeeps(c.contents, d, |IndexedTerms(v.text, tokenize, normalize)|, |r.paths|);
      } else {
        forall k | 0 <= k < |c.contents.records| ensures c.contents.records[k].0 < |r.paths| { }
      }
      assert r.paths == c.paths + r.paths[d..];
      forall k | 0 <= k < |r.names.records|
        ensures GetPath(r.paths, r.names.records[k].0).Ok? && GetPath(r.paths, r.names.records[k].0).value.Some?
      {
        if k < |c.names.records| {
          assert r.names.records[k] == c.names.records[k];
          GetPathExtend(c.paths, r.paths[d..], c.names.records[k].0);
        }
      }
    }
  }

  /** A whole crawl from a fresh processor stays consistent. */
  lemma {:induction false} CrawledConsistent(c: Crawl, vs: seq<Visit>, tokenize: JString -> seq<JString>,
                                             normalize: JString -> JString)
    requires Consistent(c)
    ensures Consistent(Crawled(c, vs, tokenize, normalize))
    decreases |vs|
  {
    if |vs| > 0 {
      ProcessKeepsConsistent(c, vs[0], tokenize, normalize);
      CrawledConsistent(ProcessFileOrDirectory(c, vs[0], tokenize, normalize), vs[1..], tokenize, normalize);
    }
  }

  lemma FreshConsistent()
    ensures Consistent(Fresh)
  {
    assert SumSizes([]) == 0;
  }

  /** The record bytes: two `writeInt`s per record. */
  function EncodeRecords(rs: seq<(int, int)>): (r: seq<Byte>)
    ensures |r| == 8 * |rs|
  {
    if |rs| == 0 then [] else WriteInt(rs[0].0) + WriteInt(rs[0].1) + EncodeRecords(rs[1..])
  }

  /** The lengths file as the writer leaves it: the two zero longs of the
      constructor, then the records. */
  function WrittenFile(l: Lengths): (r: seq<Byte>)
    ensures |r| == 16 + 8 * |l.records|
  {
    WriteLong(0) + WriteLong(0) + EncodeRecords(l.records)
  }

  /** `close`: the two counters overwrite the header in place. */
  function Patch(file: seq<Byte>, count: int, total: int): (r: seq<Byte>)
    requires |file| >= 16
    ensures |r| == |file| && r[16..] == file[16..]
  {
    WriteLong(count) + WriteLong(total) + file[16..]
  }

  function ClosedFile(l: Lengths): seq<Byte>
  {
    Patch(WrittenFile(l), l.count, l.total)
  }

  /** The records applied in order to `acc`, a later one for an id winning. */
  function ApplyRecords(acc: map<int, int>, rs: seq<(int, int)>): map<int, int>
    decreases |rs|
  {
    if |rs| == 0 then acc else ApplyRecords(acc[rs[0].0 := rs[0].1], rs[1..])
  }

  function IdSet(rs: seq<(int, int)>): set<int>
  {
    set k | 0 <= k < |rs| :: rs[k].0
  }

  predicate RecordsInt32(rs: seq<(int, int)>)
  {
    forall k :: 0 <= k < |rs| ==> IsInt32(rs[k].0) && IsInt32(rs[k].1)
  }

  /** `readInt` of the low four bytes of `writeInt(v)`. */
  lemma ReadBackInt(v: int)
    requires IsInt32(v)
    ensures Signed(Unsigned(WriteInt(v)), 0x8000_0000) == v
  {
    assert Pow256(4) == TWO_32;
    UnsignedBigEndian(4, v % TWO_32);
  }

  /** The pairs loop of `loadFileLengths` reads back the encoded records. */
  lemma {:induction false} ReadRecords(rs: seq<(int, int)>, acc: map<int, int>)
    requires RecordsInt32(rs)
    ensures ReadLengthPairs(EncodeRecords(rs), acc) == ApplyRecords(acc, rs)
    decreases |rs|
  {
    if |rs| > 0 {
      var a := WriteInt(rs[0].0);
      var b := WriteInt(rs[0].1);
      var tail := EncodeRecords(rs[1..]);
      var bs := EncodeRecords(rs);
      assert bs == a + b + tail;
      assert bs[..4] == a && bs[4..8] == b && bs[8..] == tail;
      ReadBackInt(rs[0].0);
      ReadBackInt(rs[0].1);
      assert RecordsInt32(rs[1..]) by {
        forall k | 0 <= k < |rs[1..]| ensures IsInt32(rs[1..][k].0) && IsInt32(rs[1..][k].1) {
          assert rs[1..][k] == rs[k + 1];
        }
      }
      ReadRecords(rs[1..], acc[rs[0].0 := rs[0].1]);
    }
  }

  /** With ascending ids each record's length is the one found for its id,
      and ids not recorded keep what `acc` had. */
  lemma {:induction false} ApplyRecordsLookup(acc: map<int, int>, rs: seq<(int, int)>)
    requires IdsAscending(rs)
    ensures ApplyRecords(acc, rs).Keys == acc.Keys + IdSet(rs)
    ensures forall k :: 0 <= k < |rs| ==> ApplyRecords(acc, rs)[rs[k].0] == rs[k].1
    ensures forall d :: d in acc && d !in IdSet(rs) ==> ApplyRecords(acc, rs)[d] == acc[d]
    decreases |rs|
  {
    if |rs| > 0 {
      var tl := rs[1..];
      var acc2 := acc[rs[0].0 := rs[0].1];
      assert IdsAscending(tl) by {
        forall k, l | 0 <= k < l < |tl| ensures tl[k].0 < tl[l].0 {
          assert tl[k] == rs[k + 1] && tl[l] == rs[l + 1];
        }
      }
      ApplyRecordsLookup(acc2, tl);
      assert IdSet(rs) == {rs[0].0} + IdSet(tl) by {
        forall x ensures x in IdSet(rs) <==> x == rs[0].0 || x in IdSet(tl) {
          if x in IdSet(rs) {
            var k :| 0 <= k < |rs| && rs[k].0 == x;
            if k > 0 { assert tl[k - 1] == rs[k]; }
          }
          if x in IdSet(tl) {
            var k :| 0 <= k < |tl| && tl[k].0 == x;
            assert rs[k + 1] == tl[k];
          }
        }
      }
      assert rs[0].0 !in IdSet(tl) by {
        forall k | 0 <= k < |tl| ensures tl[k].0 != rs[0].0 {
          assert tl[k] == rs[k + 1];
        }
      }
      forall k | 0 <= k < |rs| ensures ApplyRecords(acc, rs)[rs[k].0] == rs[k].1 {
        if k > 0 { assert rs[k] == tl[k - 1]; }
      }
    }
  }

  /** `loadFileLengths` of a closed lengths file gives back its counters
      (the document count narrowed to `int`) and, for every recorded
      document and only those, its length. */
  lemma LengthsRoundTrip(l: Lengths)
    requires IsInt64(l.count) && IsInt64(l.total) && RecordsInt32(l.records) && IdsAscending(l.records)
    ensures var st := LoadFileLengths(Some(ClosedFile(l)));
      st.documentCount == ToInt32(l.count) && st.totalLength == l.total &&
      st.documentLengths.Keys == IdSet(l.records) &&
      forall k :: 0 <= k < |l.records| ==> st.documentLengths[l.records[k].0] == l.records[k].1
  {
    ReadClosedFile(l);
    ApplyRecordsLookup(map[], l.records);
  }

  /** The header reads back as the counters and the rest as the records. */
  lemma ReadClosedFile(l: Lengths)
    requires IsInt64(l.count) && IsInt64(l.total) && RecordsInt32(l.records)
    ensures LoadFileLengths(Some(ClosedFile(l))) == LengthStats(ToInt32(l.count), l.total, ApplyRecords(map[], l.records))
  {
    var body := EncodeRecords(l.records);
    assert WrittenFile(l)[16..] == body;
    assert ClosedFile(l) == WriteLong(l.count) + WriteLong(l.total) + body;
    ReadHeader(l.count, l.total, body);
    ReadRecords(l.records, map[]);
  }

  /** Two longs in front of any body read back as the two counters. */
  lemma ReadHeader(count: int, total: int, body: seq<Byte>)
    requires IsInt64(count) && IsInt64(total)
    ensures LoadFileLengths(Some(WriteLong(count) + WriteLong(total) + body)) ==
      LengthStats(ToInt32(count), total, ReadLengthPairs(body, map[]))
  {
    Collections.AppendAssoc(WriteLong(count), WriteLong(total), body);
    ReadWriteLong(count, WriteLong(total) + body);
    ReadWriteLong(total, body);
  }

  /** After a crawl from a fresh processor, reading the closed names lengths
      file gives the number of named visits and, for every recorded
      document, the number of its indexed name terms, as long as ids and
      lengths fit an `int`. */
  lemma CrawlLengths(vs: seq<Visit>, tokenize: JString -> seq<JString>, normalize: JString -> JString)
    requires var c := Crawled(Fresh, vs, tokenize, normalize);
      IsInt32(|c.paths|) && RecordsInt32(c.names.records)
    ensures var c := Crawled(Fresh, vs, tokenize, normalize);
      var st := LoadFileLengths(Some(ClosedFile(c.names)));
      st.documentCount == |c.names.records| == NamedVisits(vs) &&
      st.documentLengths.Keys == IdSet(c.names.records) &&
      forall k :: 0 <= k < |c.names.records| ==>
        GetPath(c.paths, c.names.records[k].0).Ok? && GetPath(c.paths, c.names.records[k].0).value.Some? &&
        st.documentLengths[c.names.records[k].0] == c.names.records[k].1
  {
    var c := Crawled(Fresh, vs, tokenize, normalize);
    FreshConsistent();
    CrawledConsistent(Fresh, vs, tokenize, normalize);
    IdsCount(c.names.records, 0, |c.paths|);
    SumSizesBound(c.names.records);
    LengthsRoundTrip(c.names);
    CrawledNames(Fresh, vs, tokenize, normalize);
  }

  /** With every record's length an `int`, and fewer than 2^31 of them, the
      sum fits a `long`. */
  lemma {:induction false} SumSizesBound(rs: seq<(int, int)>)
    requires RecordsInt32(rs) && |rs| < 0x8000_0000
    ensures -0x8000_0000 * |rs| <= SumSizes(rs) <= 0x7FFF_FFFF * |rs|
    ensures IsInt64(SumSizes(rs))
  {
    if |rs| > 0 {
      var init := rs[..|rs| - 1];
      assert RecordsInt32(init) by {
        forall k | 0 <= k < |init| ensures IsInt32(init[k].0) && IsInt32(init[k].1) {
          assert init[k] == rs[k];
        }
      }
      SumSizesBound(init);
      assert IsInt32(rs[|rs| - 1].1);
      assert 0x8000_0000 * |rs| == 0x8000_0000 * |init| + 0x8000_0000;
      assert 0x7FFF_FFFF * |rs| == 0x7FFF_FFFF * |init| + 0x7FFF_FFFF;
    }
    assert 0x8000_0000 * |rs| <= 0x8000_0000 * 0x8000_0000;
  }

  /** Ascending ids in `[lo, hi)` number at most `hi - lo`. */
  lemma {:induction false} IdsCount(rs: seq<(int, int)>, lo: int, hi: int)
    requires IdsAscending(rs) && forall k :: 0 <= k < |rs| ==> lo <= rs[k].0 < hi
    ensures |rs| <= hi - lo || |rs| == 0
    decreases |rs|
  {
    if |rs| > 0 {
      var tl := rs[1..];
      assert IdsAscending(tl) by {
        forall k, l | 0 <= k < l < |tl| ensures tl[k].0 < tl[l].0 {
          assert tl[k] == rs[k + 1] && tl[l] == rs[l + 1];
        }
      }
      forall k | 0 <= k < |tl| ensures rs[0].0 + 1 <= tl[k].0 < hi {
        assert tl[k] == rs[k + 1];
      }
      IdsCount(tl, rs[0].0 + 1, hi);
      assert lo <= rs[0].0 < hi;
      assert |rs| == |tl| + 1;
    }
  }
}
