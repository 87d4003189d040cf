/** `findExactSequence`: given the sorted position lists of the query terms
    in one document, in query order, report every position `p` at which the
    phrase starts, that is `p + i` occurs in list `i` for every `i`. A cursor
    walks each list; when the current positions form the phrase its start is
    reported and every cursor moves on, otherwise the cursors at the least
    value move on.

    The source compares the raw positions when it looks for the least one. A
    query that repeats a term gives two identical lists, and then the step
    moves both cursors past a position one of them still needed. `Scan`
    therefore takes a flag: unaligned is the code as written, aligned compares
    `position - i`, the phrase start each cursor implies. */
module Phrase {
  import opened Sorting

  /** `p` starts the phrase: term `i` occurs at `p + i`. */
  predicate PhraseAt(lists: seq<seq<int>>, p: int)
  {
    forall i :: 0 <= i < |lists| ==> p + i in lists[i]
  }

  predicate AllAscending(lists: seq<seq<int>>)
  {
    forall i :: 0 <= i < |lists| ==> StrictlyAscending(lists[i])
  }

  /** No position occurs in two of the lists. */
  predicate ValuesDisjoint(lists: seq<seq<int>>)
  {
    forall i, j, x :: 0 <= i < j < |lists| && x in lists[i] ==> x !in lists[j]
  }

  /** One cursor per list, each within its list or just past its end. */
  predicate Cursors(lists: seq<seq<int>>, idx: seq<int>)
  {
    |idx| == |lists| && forall i :: 0 <= i < |lists| ==> 0 <= idx[i] <= |lists[i]|
  }

  predicate Exhausted(lists: seq<seq<int>>, idx: seq<int>)
    requires Cursors(lists, idx)
  {
    exists i :: 0 <= i < |lists| && idx[i] == |lists[i]|
  }

  /** The positions under the cursors. */
  function Current(lists: seq<seq<int>>, idx: seq<int>): (c: seq<int>)
    requires Cursors(lists, idx) && !Exhausted(lists, idx)
    ensures |c| == |lists| && forall i :: 0 <= i < |c| ==> c[i] == lists[i][idx[i]]
  {
    seq(|lists|, i requires 0 <= i < |lists| && Cursors(lists, idx) && !Exhausted(lists, idx) => lists[i][idx[i]])
  }

  /** What the least-value step compares for cursor `i`. */
  function Key(c: seq<int>, i: int, aligned: bool): int
    requires 0 <= i < |c|
  {
    if aligned then c[i] - i else c[i]
  }

  /** The least key among the first `n` cursors. */
  function MinKey(c: seq<int>, n: int, aligned: bool): (m: int)
    requires 0 < n <= |c|
    ensures forall i :: 0 <= i < n ==> m <= Key(c, i, aligned)
    ensures exists i :: 0 <= i < n && Key(c, i, aligned) == m
  {
    if n == 1 then Key(c, 0, aligned)
    else
      var m := MinKey(c, n - 1, aligned);
      if Key(c, n - 1, aligned) < m then Key(c, n - 1, aligned) else m
  }

  /** The current positions are `start, start + 1, ...`. */
  predicate IsSequence(c: seq<int>)
  {
    forall i :: 0 <= i < |c| ==> c[i] == c[0] + i
  }

  function AdvanceAll(idx: seq<int>): (r: seq<int>)
    ensures |r| == |idx| && forall i :: 0 <= i < |r| ==> r[i] == idx[i] + 1
  {
    seq(|idx|, i requires 0 <= i < |idx| => idx[i] + 1)
  }

  /** Moves on the cursors whose key is `m`. */
  function AdvanceAt(c: seq<int>, idx: seq<int>, m: int, aligned: bool): (r: seq<int>)
    requires |c| == |idx|
    ensures |r| == |idx|
    ensures forall i :: 0 <= i < |r| ==> r[i] == if Key(c, i, aligned) == m then idx[i] + 1 else idx[i]
  {
    seq(|idx|, i requires 0 <= i < |idx| && |c| == |idx| => if Key(c, i, aligned) == m then idx[i] + 1 else idx[i])
  }

  /** Positions still ahead of the first `n` cursors. */
  function Remaining(lists: seq<seq<int>>, idx: seq<int>, n: int): int
    requires 0 <= n <= |lists| && |idx| == |lists|
  {
    if n == 0 then 0 else Remaining(lists, idx, n - 1) + |lists[n - 1]| - idx[n - 1]
  }

  lemma {:induction false} RemainingBounds(lists: seq<seq<int>>, idx: seq<int>, idx2: seq<int>, n: int, k: int)
    requires 0 <= n <= |lists| && Cursors(lists, idx) && Cursors(lists, idx2)
    requires forall i :: 0 <= i < n ==> idx[i] <= idx2[i]
    ensures Remaining(lists, idx2, n) >= 0
    ensures 0 <= k < n && idx[k] < idx2[k] ==> Remaining(lists, idx2, n) < Remaining(lists, idx, n)
    ensures Remaining(lists, idx2, n) <= Remaining(lists, idx, n)
  {
    if n > 0 {
      RemainingBounds(lists, idx, idx2, n - 1, k);
    }
  }

  /** The least-key step: the cursors whose key is least move on. */
  function Skip(lists: seq<seq<int>>, idx: seq<int>, aligned: bool): (r: seq<int>)
    requires 0 < |lists| && Cursors(lists, idx) && !Exhausted(lists, idx)
  {
    var c := Current(lists, idx);
    AdvanceAt(c, idx, MinKey(c, |c|, aligned), aligned)
  }

  /** Both steps keep the cursors in range and leave fewer positions ahead. */
  lemma StepsProgress(lists: seq<seq<int>>, idx: seq<int>, aligned: bool)
    requires 0 < |lists| && Cursors(lists, idx) && !Exhausted(lists, idx)
    ensures Cursors(lists, AdvanceAll(idx)) && Cursors(lists, Skip(lists, idx, aligned))
    ensures 0 <= Remaining(lists, AdvanceAll(idx), |lists|) < Remaining(lists, idx, |lists|)
    ensures 0 <= Remaining(lists, Skip(lists, idx, aligned), |lists|) < Remaining(lists, idx, |lists|)
  {
    var c := Current(lists, idx);
    var m := MinKey(c, |c|, aligned);
    var k :| 0 <= k < |c| && Key(c, k, aligned) == m;
    RemainingBounds(lists, idx, AdvanceAll(idx), |lists|, 0);
    RemainingBounds(lists, idx, Skip(lists, idx, aligned), |lists|, k);
  }

  /** The scan from cursor state `idx`. */
  function Scan(lists: seq<seq<int>>, idx: seq<int>, aligned: bool): (r: seq<int>)
    requires 0 < |lists| && Cursors(lists, idx)
    decreases Remaining(lists, idx, |lists|)
  {
    if Exhausted(lists, idx) then []
    else
      var c := Current(lists, idx);
      StepsProgress(lists, idx, aligned);
      if IsSequence(c) then [c[0]] + Scan(lists, AdvanceAll(idx), aligned)
      else Scan(lists, Skip(lists, idx, aligned), aligned)
  }

  function Zeros(n: nat): (r: seq<int>)
    ensures |r| == n && forall i :: 0 <= i < n ==> r[i] == 0
  {
    seq(n, i => 0)
  }

  /** `findExactSequence` as written: least raw position moves on. */
  function FindExactSequenceAsWritten(lists: seq<seq<int>>): seq<int>
  {
    if |lists| == 0 then [] else Scan(lists, Zeros(|lists|), false)
  }

  /** `findExactSequence` with the least implied start moving on. */
  function FindExactSequence(lists: seq<seq<int>>): seq<int>
  {
    if |lists| == 0 then [] else Scan(lists, Zeros(|lists|), true)
  }

  /** The phrase merge in either variant: as written, or with `aligned` the
      corrected one. */
  function PhraseStarts(lists: seq<seq<int>>, aligned: bool): seq<int>
  {
    if aligned then FindExactSequence(lists) else FindExactSequenceAsWritten(lists)
  }

  /** Every reported position starts the phrase, in either variant. */
  lemma {:induction false} ScanSound(lists: seq<seq<int>>, idx: seq<int>, aligned: bool)
    requires 0 < |lists| && Cursors(lists, idx)
    ensures forall x :: x in Scan(lists, idx, aligned) ==> PhraseAt(lists, x)
    decreases Remaining(lists, idx, |lists|)
  {
    if !Exhausted(lists, idx) {
      var c := Current(lists, idx);
      StepsProgress(lists, idx, aligned);
      if IsSequence(c) {
        ScanSound(lists, AdvanceAll(idx), aligned);
        SequenceIsPhrase(lists, idx);
      } else {
        ScanSound(lists, Skip(lists, idx, aligned), aligned);
      }
    }
  }

  /** Cursors at `start, start + 1, ...` sit on a phrase start. */
  lemma SequenceIsPhrase(lists: seq<seq<int>>, idx: seq<int>)
    requires 0 < |lists| && Cursors(lists, idx) && !Exhausted(lists, idx)
    requires IsSequence(Current(lists, idx))
    ensures PhraseAt(lists, Current(lists, idx)[0])
  {
    var c := Current(lists, idx);
    forall i | 0 <= i < |lists| ensures c[0] + i in lists[i] {
      assert lists[i][idx[i]] == c[0] + i;
    }
  }

  /** With the first list ascending the starts are reported in strictly
      ascending order, none below the first list's cursor. */
  lemma {:induction false} ScanAscending(lists: seq<seq<int>>, idx: seq<int>, aligned: bool)
    requires 0 < |lists| && Cursors(lists, idx) && StrictlyAscending(lists[0])
    ensures var r := Scan(lists, idx, aligned);
      StrictlyAscending(r) && (|r| > 0 ==> idx[0] < |lists[0]| && lists[0][idx[0]] <= r[0])
    decreases Remaining(lists, idx, |lists|)
  {
    if !Exhausted(lists, idx) {
      var c := Current(lists, idx);
      StepsProgress(lists, idx, aligned);
      if IsSequence(c) {
        var next := AdvanceAll(idx);
        ScanAscending(lists, next, aligned);
        var rest := Scan(lists, next, aligned);
        if |rest| > 0 {
          assert lists[0][idx[0]] < lists[0][next[0]];
        }
        ConsAscending(c[0], rest);
      } else {
        var next := Skip(lists, idx, aligned);
        ScanAscending(lists, next, aligned);
        if next[0] != idx[0] && next[0] < |lists[0]| {
          assert lists[0][idx[0]] < lists[0][next[0]];
        }
      }
    }
  }

  /** No cursor has passed `p + i` in its list. */
  predicate NotPassed(lists: seq<seq<int>>, idx: seq<int>, p: int)
    requires Cursors(lists, idx)
  {
    forall i, j :: 0 <= i < |lists| && 0 <= j < idx[i] ==> lists[i][j] < p + i
  }

  /** A cursor that has not passed `p + i` sits at or below it. */
  lemma CurrentBelow(lists: seq<seq<int>>, idx: seq<int>, p: int, i: int)
    requires Cursors(lists, idx) && !Exhausted(lists, idx) && AllAscending(lists)
    requires PhraseAt(lists, p) && NotPassed(lists, idx, p) && 0 <= i < |lists|
    ensures lists[i][idx[i]] <= p + i
  {
    var j :| 0 <= j < |lists[i]| && lists[i][j] == p + i;
    if j > idx[i] {
      assert StrictlyAscending(lists[i]);
    }
  }

  /** Aligned keys: a cursor at `p + i` that holds the least key means every
      cursor is at its `p + k`, which is the phrase. */
  lemma AlignedStep(lists: seq<seq<int>>, idx: seq<int>, p: int, i: int)
    requires Cursors(lists, idx) && !Exhausted(lists, idx) && AllAscending(lists)
    requires PhraseAt(lists, p) && NotPassed(lists, idx, p) && 0 <= i < |lists|
    requires var c := Current(lists, idx); Key(c, i, true) == MinKey(c, |c|, true)
    ensures Current(lists, idx)[i] == p + i ==> IsSequence(Current(lists, idx))
  {
    var c := Current(lists, idx);
    if c[i] == p + i {
      forall k | 0 <= k < |c| ensures c[k] == p + k {
        CurrentBelow(lists, idx, p, k);
        assert Key(c, i, true) <= Key(c, k, true);
      }
    }
  }

  /** Raw keys: the same holds when no position is shared by two lists. */
  lemma UnalignedStep(lists: seq<seq<int>>, idx: seq<int>, p: int, i: int)
    requires Cursors(lists, idx) && !Exhausted(lists, idx) && AllAscending(lists) && ValuesDisjoint(lists)
    requires PhraseAt(lists, p) && NotPassed(lists, idx, p) && 0 <= i < |lists|
    requires var c := Current(lists, idx); Key(c, i, false) == MinKey(c, |c|, false)
    ensures Current(lists, idx)[i] == p + i ==> IsSequence(Current(lists, idx))
  {
    var c := Current(lists, idx);
    if c[i] == p + i {
      CurrentBelow(lists, idx, p, 0);
      assert Key(c, i, false) <= Key(c, 0, false);
      forall k | 0 <= k < |c| ensures c[k] == p + k {
        CurrentBelow(lists, idx, p, k);
        assert Key(c, i, false) <= Key(c, k, false);
        UnalignedAt(lists, idx, p, k);
      }
    }
  }

  /** A cursor between `p` and its own `p + k` is at `p + k` when positions
      are not shared: any lower value belongs to an earlier term. */
  lemma UnalignedAt(lists: seq<seq<int>>, idx: seq<int>, p: int, k: int)
    requires Cursors(lists, idx) && 0 <= k < |lists| && idx[k] < |lists[k]| && ValuesDisjoint(lists)
    requires PhraseAt(lists, p) && p <= lists[k][idx[k]] <= p + k
    ensures lists[k][idx[k]] == p + k
  {
    forall y | p <= y < p + k ensures y !in lists[k] {
      DisjointAt(lists, y - p, k, y);
    }
    assert lists[k][idx[k]] in lists[k];
  }

  lemma DisjointAt(lists: seq<seq<int>>, i: int, j: int, x: int)
    requires 0 <= i < j < |lists| && ValuesDisjoint(lists) && x in lists[i]
    ensures x !in lists[j]
  {
  }

  /** A phrase start not yet passed keeps every list from running out. */
  lemma NotPassedLive(lists: seq<seq<int>>, idx: seq<int>, p: int)
    requires Cursors(lists, idx) && PhraseAt(lists, p) && NotPassed(lists, idx, p)
    ensures !Exhausted(lists, idx)
  {
    forall i | 0 <= i < |lists| ensures idx[i] < |lists[i]| {
      var j :| 0 <= j < |lists[i]| && lists[i][j] == p + i;
      assert !(j < idx[i]);
    }
  }

  /** Reporting another start moves no cursor past `p`. */
  lemma AdvanceAllNotPassed(lists: seq<seq<int>>, idx: seq<int>, p: int)
    requires 0 < |lists| && Cursors(lists, idx) && !Exhausted(lists, idx) && AllAscending(lists)
    requires PhraseAt(lists, p) && NotPassed(lists, idx, p)
    requires IsSequence(Current(lists, idx)) && Current(lists, idx)[0] != p
    ensures Cursors(lists, AdvanceAll(idx)) && NotPassed(lists, AdvanceAll(idx), p)
  {
    var c := Current(lists, idx);
    var next := AdvanceAll(idx);
    forall i, j | 0 <= i < |lists| && 0 <= j < next[i] ensures lists[i][j] < p + i {
      if j == idx[i] {
        CurrentBelow(lists, idx, p, i);
        assert c[i] == c[0] + i;
      }
    }
  }

  /** Moving the least cursors on moves none past `p`. */
  lemma AdvanceAtNotPassed(lists: seq<seq<int>>, idx: seq<int>, aligned: bool, p: int)
    requires 0 < |lists| && Cursors(lists, idx) && !Exhausted(lists, idx) && AllAscending(lists)
    requires aligned || ValuesDisjoint(lists)
    requires PhraseAt(lists, p) && NotPassed(lists, idx, p)
    requires !IsSequence(Current(lists, idx))
    ensures Cursors(lists, Skip(lists, idx, aligned)) && NotPassed(lists, Skip(lists, idx, aligned), p)
  {
    var c := Current(lists, idx);
    var next := Skip(lists, idx, aligned);
    forall i, j | 0 <= i < |lists| && 0 <= j < next[i] ensures lists[i][j] < p + i {
      if j == idx[i] {
        CurrentBelow(lists, idx, p, i);
        if aligned { AlignedStep(lists, idx, p, i); } else { UnalignedStep(lists, idx, p, i); }
      }
    }
  }

  /** Every phrase start no cursor has passed is reported. */
  lemma {:induction false} ScanComplete(lists: seq<seq<int>>, idx: seq<int>, aligned: bool, p: int)
    requires 0 < |lists| && Cursors(lists, idx) && AllAscending(lists)
    requires aligned || ValuesDisjoint(lists)
    requires PhraseAt(lists, p) && NotPassed(lists, idx, p)
    ensures p in Scan(lists, idx, aligned)
    decreases Remaining(lists, idx, |lists|)
  {
    NotPassedLive(lists, idx, p);
    var c := Current(lists, idx);
    StepsProgress(lists, idx, aligned);
    if IsSequence(c) {
      if c[0] != p {
        AdvanceAllNotPassed(lists, idx, p);
        ScanComplete(lists, AdvanceAll(idx), aligned, p);
      }
    } else {
      AdvanceAtNotPassed(lists, idx, aligned, p);
      ScanComplete(lists, Skip(lists, idx, aligned), aligned, p);
    }
  }

  /** The corrected scan reports exactly the phrase starts, ascending, for
      any ascending position lists. */
  lemma FindExactSequenceCorrect(lists: seq<seq<int>>)
    requires AllAscending(lists)
    ensures |lists| > 0 ==> forall p :: p in FindExactSequence(lists) <==> PhraseAt(lists, p)
    ensures StrictlyAscending(FindExactSequence(lists))
  {
    if |lists| > 0 {
      var z := Zeros(|lists|);
      ScanSound(lists, z, true);
      ScanAscending(lists, z, true);
      forall p | PhraseAt(lists, p) ensures p in FindExactSequence(lists) {
        ScanComplete(lists, z, true, p);
      }
    }
  }

  /** As written, every report is a phrase start and the reports ascend. */
  lemma AsWrittenSound(lists: seq<seq<int>>)
    ensures forall p :: p in FindExactSequenceAsWritten(lists) ==> PhraseAt(lists, p)
    ensures |lists| > 0 && StrictlyAscending(lists[0]) ==> StrictlyAscending(FindExactSequenceAsWritten(lists))
  {
    if |lists| > 0 {
      ScanSound(lists, Zeros(|lists|), false);
      if StrictlyAscending(lists[0]) {
        ScanAscending(lists, Zeros(|lists|), false);
      }
    }
  }

  /** As written, no phrase start is missed when no position is shared by two
      lists; then it reports the same as the corrected scan. */
  lemma AsWrittenCompleteWhenDisjoint(lists: seq<seq<int>>)
    requires AllAscending(lists) && ValuesDisjoint(lists)
    ensures forall p :: PhraseAt(lists, p) && |lists| > 0 ==> p in FindExactSequenceAsWritten(lists)
    ensures FindExactSequenceAsWritten(lists) == FindExactSequence(lists)
  {
    if |lists| > 0 {
      var z := Zeros(|lists|);
      forall p | PhraseAt(lists, p) ensures p in FindExactSequenceAsWritten(lists) {
        ScanComplete(lists, z, false, p);
      }
      AsWrittenSound(lists);
      FindExactSequenceCorrect(lists);
      var a := FindExactSequenceAsWritten(lists);
      var b := FindExactSequence(lists);
      StrictlyAscendingUnique(a, b);
    }
  }

  lemma {:induction false} StrictlyAscendingUnique(a: seq<int>, b: seq<int>)
    requires StrictlyAscending(a) && StrictlyAscending(b)
    requires forall x :: x in a <==> x in b
    ensures a == b
    decreases |a| + |b|
  {
    assert |a| > 0 ==> a[0] in a && a[0] in b;
    assert |b| > 0 ==> b[0] in b && b[0] in a;
    if |a| > 0 && |b| > 0 {
      StrictHeadTail(a);
      StrictHeadTail(b);
      assert a[0] == b[0];
      StrictlyAscendingUnique(a[1..], b[1..]);
    }
  }

  /** A query repeating its term: both lists are `[0, 1]` and the phrase
      starts at 0, yet the scan as written reports nothing, because at
      `[0, 0]` and again at `[1, 1]` it moves both cursors on. */
  lemma RepeatedTermMissesPhrase()
    ensures PhraseAt([[0, 1], [0, 1]], 0)
    ensures FindExactSequenceAsWritten([[0, 1], [0, 1]]) == []
  {
    var lists := [[0, 1], [0, 1]];
    assert lists[0][0] == 0 && lists[1][1] == 1;
    assert Zeros(2) == [0, 0];
    MissFirstStep();
    MissSecondStep();
  }

  /** At `[0, 0]` both raw positions are least, so both cursors move. */
  lemma MissFirstStep()
    ensures Scan([[0, 1], [0, 1]], [0, 0], false) == Scan([[0, 1], [0, 1]], [1, 1], false)
  {
    var lists := [[0, 1], [0, 1]];
    var c := Current(lists, [0, 0]);
    assert c == [0, 0];
    assert !IsSequence(c) by { assert c[1] != c[0] + 1; }
    assert AdvanceAt(c, [0, 0], 0, false) == [1, 1];
  }

  /** At `[1, 1]` both move again, past the end of both lists. */
  lemma MissSecondStep()
    ensures Scan([[0, 1], [0, 1]], [1, 1], false) == []
  {
    var lists := [[0, 1], [0, 1]];
    var c := Current(lists, [1, 1]);
    assert c == [1, 1];
    assert !IsSequence(c) by { assert c[1] != c[0] + 1; }
    var n := AdvanceAt(c, [1, 1], 1, false);
    assert n == [2, 2];
    assert Exhausted(lists, n) by { assert n[0] == |lists[0]|; }
  }

  /** The corrected scan finds the start the code as written misses. */
  lemma RepeatedTermFound()
    ensures FindExactSequence([[0, 1], [0, 1]]) == [0]
  {
    assert Zeros(2) == [0, 0];
    FoundFirstStep();
    FoundSecondStep();
  }

  /** At `[0, 0]` the second cursor implies start -1, the least, so it moves. */
  lemma FoundFirstStep()
    ensures Scan([[0, 1], [0, 1]], [0, 0], true) == Scan([[0, 1], [0, 1]], [0, 1], true)
  {
    var lists := [[0, 1], [0, 1]];
    var c := Current(lists, [0, 0]);
    assert c == [0, 0];
    assert !IsSequence(c) by { assert c[1] != c[0] + 1; }
    assert Key(c, 1, true) == -1;
    assert AdvanceAt(c, [0, 0], -1, true) == [0, 1];
  }

  /** At `[0, 1]` the cursors read 0 and 1: the phrase at 0 is reported,
      and then the second list is exhausted. */
  lemma FoundSecondStep()
    ensures Scan([[0, 1], [0, 1]], [0, 1], true) == [0]
  {
    var lists := [[0, 1], [0, 1]];
    var c := Current(lists, [0, 1]);
    assert c == [0, 1];
    var n := AdvanceAll([0, 1]);
    assert n == [1, 2];
    assert Exhausted(lists, n) by { assert n[1] == |lists[1]|; }
  }
}
