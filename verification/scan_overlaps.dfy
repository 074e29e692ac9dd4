/** `scanMeetingsForOverlaps` of src/utils/scanMeetingsForOverlaps.js: one
    overlap record for every pair of positions `i < j`, whether or not the
    two meetings overlap. */
module ScanOverlaps {
  import opened Pairs
  import opened OverlapCheck

  /** The record for each index pair of `ps`, in order. */
  function Records(ms: seq<Meeting>, ps: seq<IndexPair>): (r: seq<OverlapRecord>)
    requires forall p :: p in ps ==> p.0 < |ms| && p.1 < |ms|
    ensures |r| == |ps|
    ensures forall k :: 0 <= k < |ps| ==> r[k] == CheckOverlap(ms[ps[k].0], ms[ps[k].1])
  {
    seq(|ps|, k requires 0 <= k < |ps| => CheckOverlap(ms[ps[k].0], ms[ps[k].1]))
  }

  lemma RecordsConcat(ms: seq<Meeting>, ps: seq<IndexPair>, qs: seq<IndexPair>)
    requires forall p :: p in ps + qs ==> p.0 < |ms| && p.1 < |ms|
    ensures Records(ms, ps + qs) == Records(ms, ps) + Records(ms, qs)
  {
  }

  /** The inner `j` loop for a fixed `i`, from `j` on. */
  function ScanRow(ms: seq<Meeting>, i: nat, j: nat): seq<OverlapRecord>
    requires i < |ms|
    decreases |ms| - j
  {
    if j >= |ms| then [] else [CheckOverlap(ms[i], ms[j])] + ScanRow(ms, i, j + 1)
  }

  /** The outer `i` loop, from `i` on. */
  function ScanFrom(ms: seq<Meeting>, i: nat): seq<OverlapRecord>
    decreases |ms| - i
  {
    if i >= |ms| then [] else ScanRow(ms, i, i + 1) + ScanFrom(ms, i + 1)
  }

  lemma {:induction false} ScanRowIsRecords(ms: seq<Meeting>, i: nat, j: nat)
    requires i < |ms|
    ensures ScanRow(ms, i, j) == Records(ms, Row(|ms|, i, j))
    decreases |ms| - j
  {
    if j < |ms| {
      ScanRowIsRecords(ms, i, j + 1);
      RecordsConcat(ms, [(i, j)], Row(|ms|, i, j + 1));
    }
  }

  lemma {:induction false} ScanFromIsRecords(ms: seq<Meeting>, i: nat)
    ensures ScanFrom(ms, i) == Records(ms, RowsFrom(|ms|, i))
    decreases |ms| - i
  {
    if i < |ms| {
      ScanFromIsRecords(ms, i + 1);
      ScanRowIsRecords(ms, i, i + 1);
      RecordsConcat(ms, Row(|ms|, i, i + 1), RowsFrom(|ms|, i + 1));
    }
  }

  /** Lines 10-20: the nested loops push `checkOverlap(meetings[i],
      meetings[j])` for every `i < j`, in lexicographic order of `(i, j)`:
      n(n-1)/2 records, none pairing a position with itself, each naming the
      earlier meeting first. */
  method ScanMeetingsForOverlaps(meetings: seq<Meeting>) returns (overlaps: seq<OverlapRecord>)
    ensures 2 * |overlaps| == |meetings| * (|meetings| - 1)
    ensures |overlaps| == |AllPairs(|meetings|)|
    ensures forall k :: 0 <= k < |overlaps| ==>
      var p := AllPairs(|meetings|)[k];
      p.0 < p.1 < |meetings| && overlaps[k] == CheckOverlap(meetings[p.0], meetings[p.1])
    ensures |meetings| <= 1 ==> overlaps == []
    ensures overlaps == Records(meetings, AllPairs(|meetings|))
  {
    var n := |meetings|;
    overlaps := [];
    var i := 0;
    while i < n
      invariant 0 <= i <= n
      invariant overlaps + ScanFrom(meetings, i) == ScanFrom(meetings, 0)
    {
      var j := i + 1;
      assert ScanFrom(meetings, i) == ScanRow(meetings, i, j) + ScanFrom(meetings, i + 1);
      while j < n
        invariant i + 1 <= j <= n
        invariant overlaps + (ScanRow(meetings, i, j) + ScanFrom(meetings, i + 1)) == ScanFrom(meetings, 0)
      {
        RowStep(meetings, i, j, overlaps);
        overlaps := overlaps + [CheckOverlap(meetings[i], meetings[j])];
        j := j + 1;
      }
      assert ScanRow(meetings, i, j) + ScanFrom(meetings, i + 1) == ScanFrom(meetings, i + 1);
      i := i + 1;
    }
    ScanFromIsRecords(meetings, 0);
    AllRecords(meetings);
  }

  /** The records of all pairs, read back position by position. */
  lemma AllRecords(ms: seq<Meeting>)
    ensures var r := Records(ms, AllPairs(|ms|));
      && 2 * |r| == |ms| * (|ms| - 1)
      && |r| == |AllPairs(|ms|)|
      && (forall k :: 0 <= k < |r| ==>
           var p := AllPairs(|ms|)[k];
           p.0 < p.1 < |ms| && r[k] == CheckOverlap(ms[p.0], ms[p.1]))
      && (|ms| <= 1 ==> r == [])
  {
    var n := |ms|;
    AllPairsLength(n);
    forall k | 0 <= k < |AllPairs(n)| ensures AllPairs(n)[k].0 < AllPairs(n)[k].1 < n {
      assert AllPairs(n)[k] in AllPairs(n);
    }
  }

  /** One step of the inner loop: the record for `(i, j)`, then the rest of
      the scan. */
  lemma RowStep(ms: seq<Meeting>, i: nat, j: nat, done: seq<OverlapRecord>)
    requires i < j < |ms|
    ensures done + (ScanRow(ms, i, j) + ScanFrom(ms, i + 1))
      == (done + [CheckOverlap(ms[i], ms[j])]) + (ScanRow(ms, i, j + 1) + ScanFrom(ms, i + 1))
  {
    var hit := [CheckOverlap(ms[i], ms[j])];
    var tail := ScanRow(ms, i, j + 1) + ScanFrom(ms, i + 1);
    assert ScanRow(ms, i, j) == hit + ScanRow(ms, i, j + 1);
    assert ScanRow(ms, i, j) + ScanFrom(ms, i + 1) == hit + tail;
    assert done + (hit + tail) == (done + hit) + tail;
  }
}
