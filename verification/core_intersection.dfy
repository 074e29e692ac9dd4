/** `detectPairwiseIntersections` of core-logic/intersection.js: every pair of
    meetings whose time ranges overlap, as id pairs, found by an exhaustive
    `i < j` scan. */
module CoreIntersection {
  import opened Seqs
  import opened Pairs

  /** A meeting as the first pipeline sees it; times are plain integers. */
  datatype Meeting = Meeting(id: string, start: int, end: int)

  type IdPair = (string, string)

  /** The half-open overlap test `a.start < b.end && b.start < a.end`:
      touching endpoints do not count. */
  predicate Overlap(a: Meeting, b: Meeting) {
    a.start < b.end && b.start < a.end
  }

  /** Instant `t` lies in the half-open range `[m.start, m.end)`. */
  predicate During(m: Meeting, t: int) {
    m.start <= t < m.end
  }

  /** A common instant always makes the test succeed; conversely, for
      meetings that end after they start, the test succeeds only when the
      ranges share an instant. */
  lemma OverlapMeansSharedInstant(a: Meeting, b: Meeting)
    ensures (exists t :: During(a, t) && During(b, t)) ==> Overlap(a, b)
    ensures a.start < a.end && b.start < b.end && Overlap(a, b) ==>
      exists t :: During(a, t) && During(b, t)
  {
    if a.start < a.end && b.start < b.end && Overlap(a, b) {
      var t := if a.start < b.start then b.start else a.start;
      assert During(a, t) && During(b, t);
    }
  }

  function MeetingIds(ms: seq<Meeting>): (ids: seq<string>)
    ensures |ids| == |ms|
    ensures forall k :: 0 <= k < |ms| ==> ids[k] == ms[k].id
  {
    seq(|ms|, k requires 0 <= k < |ms| => ms[k].id)
  }

  /** No two meetings share an id. */
  ghost predicate DistinctIds(ms: seq<Meeting>) {
    forall i, j :: 0 <= i < j < |ms| ==> ms[i].id != ms[j].id
  }

  /** The inner `j` loop for a fixed `i`, from `j` on. */
  function ScanRow(ms: seq<Meeting>, i: nat, j: nat): seq<IdPair>
    requires i < |ms|
    decreases |ms| - j
  {
    if j >= |ms| then []
    else
      (if Overlap(ms[i], ms[j]) then [(ms[i].id, ms[j].id)] else [])
      + ScanRow(ms, i, j + 1)
  }

  /** The outer `i` loop, from `i` on. */
  function ScanFrom(ms: seq<Meeting>, i: nat): seq<IdPair>
    decreases |ms| - i
  {
    if i >= |ms| then [] else ScanRow(ms, i, i + 1) + ScanFrom(ms, i + 1)
  }

  /** The index pairs of `ps`, in order, whose meetings overlap. */
  function OverlappingPairs(ms: seq<Meeting>, ps: seq<IndexPair>): (r: seq<IndexPair>)
    requires forall p :: p in ps ==> p.0 < |ms| && p.1 < |ms|
    ensures |r| <= |ps|
    ensures forall p :: p in r <==> p in ps && Overlap(ms[p.0], ms[p.1])
  {
    if ps == [] then []
    else
      (if Overlap(ms[ps[0].0], ms[ps[0].1]) then [ps[0]] else [])
      + OverlappingPairs(ms, ps[1..])
  }

  /** The id pair of each index pair. */
  function IdsOf(ms: seq<Meeting>, ps: seq<IndexPair>): (r: seq<IdPair>)
    requires forall p :: p in ps ==> p.0 < |ms| && p.1 < |ms|
    ensures |r| == |ps|
    ensures forall k :: 0 <= k < |ps| ==> r[k] == (ms[ps[k].0].id, ms[ps[k].1].id)
  {
    seq(|ps|, k requires 0 <= k < |ps| => (ms[ps[k].0].id, ms[ps[k].1].id))
  }

  /** The reference answer: the positions `i < j` of overlapping meetings,
      in lexicographic order. */
  function ConflictIndices(ms: seq<Meeting>): (r: seq<IndexPair>)
    ensures forall p :: p in r <==> p.0 < p.1 < |ms| && Overlap(ms[p.0], ms[p.1])
    ensures LexSorted(r)
  {
    AllPairsSorted(|ms|);
    var r := OverlappingPairs(ms, AllPairs(|ms|));
    OverlappingPairsSorted(ms, AllPairs(|ms|));
    r
  }

  lemma {:induction false} OverlappingPairsSorted(ms: seq<Meeting>, ps: seq<IndexPair>)
    requires forall p :: p in ps ==> p.0 < |ms| && p.1 < |ms|
    requires LexSorted(ps)
    ensures LexSorted(OverlappingPairs(ms, ps))
  {
    if ps != [] {
      var tail := ps[1..];
      LexSortedTail(ps);
      OverlappingPairsSorted(ms, tail);
      var rest := OverlappingPairs(ms, tail);
      if Overlap(ms[ps[0].0], ms[ps[0].1]) {
        forall q | q in rest ensures LexLess(ps[0], q) {
          LexHeadFirst(ps, q);
        }
        LexSortedCons(ps[0], rest);
      }
    }
  }

  lemma LexSortedTail(ps: seq<IndexPair>)
    requires ps != [] && LexSorted(ps)
    ensures LexSorted(ps[1..])
  {
    var tail := ps[1..];
    forall a, b | 0 <= a < b < |tail| ensures LexLess(tail[a], tail[b]) {
      assert tail[a] == ps[a + 1] && tail[b] == ps[b + 1];
    }
  }

  lemma LexHeadFirst(ps: seq<IndexPair>, q: IndexPair)
    requires ps != [] && LexSorted(ps) && q in ps[1..]
    ensures LexLess(ps[0], q)
  {
    var c :| 0 <= c < |ps[1..]| && ps[1..][c] == q;
    assert ps[c + 1] == q;
  }

  lemma LexSortedCons(x: IndexPair, rest: seq<IndexPair>)
    requires LexSorted(rest)
    requires forall q :: q in rest ==> LexLess(x, q)
    ensures LexSorted([x] + rest)
  {
    var r := [x] + rest;
    forall a, b | 0 <= a < b < |r| ensures LexLess(r[a], r[b]) {
      assert r[b] == rest[b - 1] && rest[b - 1] in rest;
      if a > 0 {
        assert r[a] == rest[a - 1];
      }
    }
  }

  lemma OverlappingPairsConcat(ms: seq<Meeting>, ps: seq<IndexPair>, qs: seq<IndexPair>)
    requires forall p :: p in ps + qs ==> p.0 < |ms| && p.1 < |ms|
    ensures OverlappingPairs(ms, ps + qs) == OverlappingPairs(ms, ps) + OverlappingPairs(ms, qs)
  {
    if ps != [] {
      assert (ps + qs)[1..] == ps[1..] + qs;
      OverlappingPairsConcat(ms, ps[1..], qs);
    } else {
      assert ps + qs == qs;
    }
  }

  lemma {:induction false} ScanRowIsFilteredRow(ms: seq<Meeting>, i: nat, j: nat)
    requires i < |ms|
    ensures ScanRow(ms, i, j) == IdsOf(ms, OverlappingPairs(ms, Row(|ms|, i, j)))
    decreases |ms| - j
  {
    if j < |ms| {
      ScanRowIsFilteredRow(ms, i, j + 1);
      var next := Row(|ms|, i, j + 1);
      assert Row(|ms|, i, j) == [(i, j)] + next;
      OverlappingPairsConcat(ms, [(i, j)], next);
      var hit := OverlappingPairs(ms, [(i, j)]);
      assert [(i, j)][1..] == [];
      assert hit == if Overlap(ms[i], ms[j]) then [(i, j)] else [];
      IdsOfConcat(ms, hit, OverlappingPairs(ms, next));
      assert IdsOf(ms, hit) == if Overlap(ms[i], ms[j]) then [(ms[i].id, ms[j].id)] else [];
    }
  }

  lemma {:induction false} ScanFromIsFilteredRows(ms: seq<Meeting>, i: nat)
    ensures ScanFrom(ms, i) == IdsOf(ms, OverlappingPairs(ms, RowsFrom(|ms|, i)))
    decreases |ms| - i
  {
    if i < |ms| {
      ScanFromIsFilteredRows(ms, i + 1);
      ScanRowIsFilteredRow(ms, i, i + 1);
      var row := Row(|ms|, i, i + 1);
      var rest := RowsFrom(|ms|, i + 1);
      OverlappingPairsConcat(ms, row, rest);
      IdsOfConcat(ms, OverlappingPairs(ms, row), OverlappingPairs(ms, rest));
    }
  }

  lemma IdsOfConcat(ms: seq<Meeting>, ps: seq<IndexPair>, qs: seq<IndexPair>)
    requires forall p :: p in ps + qs ==> p.0 < |ms| && p.1 < |ms|
    ensures IdsOf(ms, ps + qs) == IdsOf(ms, ps) + IdsOf(ms, qs)
  {
  }

  /** The nested loops of lines 10-20: the result is the id image of the
      overlapping positions `i < j`, in lexicographic order. A pair of ids
      is reported exactly when two such meetings overlap, and at most
      n(n-1)/2 pairs are reported. */
  function DetectPairwiseIntersections(meetings: seq<Meeting>): (r: seq<IdPair>)
    ensures r == IdsOf(meetings, ConflictIndices(meetings))
    ensures forall p :: p in r <==>
      exists i, j :: 0 <= i < j < |meetings| && Overlap(meetings[i], meetings[j])
                     && p == (meetings[i].id, meetings[j].id)
    ensures 2 * |r| <= |meetings| * (|meetings| - 1)
  {
    var r := ScanFrom(meetings, 0);
    ScanFromIsFilteredRows(meetings, 0);
    AllPairsLength(|meetings|);
    forall p ensures p in r <==>
      exists i, j :: 0 <= i < j < |meetings| && Overlap(meetings[i], meetings[j])
                     && p == (meetings[i].id, meetings[j].id)
    {
      ReportedIff(meetings, p);
    }
    r
  }

  /** A pair of ids is in the id image of the overlapping positions exactly
      when two overlapping meetings `i < j` carry them. */
  lemma ReportedIff(meetings: seq<Meeting>, p: IdPair)
    ensures p in IdsOf(meetings, ConflictIndices(meetings)) <==>
      exists i, j :: 0 <= i < j < |meetings| && Overlap(meetings[i], meetings[j])
                     && p == (meetings[i].id, meetings[j].id)
  {
    if p in IdsOf(meetings, ConflictIndices(meetings)) {
      ReportedFromOverlap(meetings, p);
    }
    if exists i, j :: 0 <= i < j < |meetings| && Overlap(meetings[i], meetings[j])
                      && p == (meetings[i].id, meetings[j].id)
    {
      var i, j :| 0 <= i < j < |meetings| && Overlap(meetings[i], meetings[j])
                  && p == (meetings[i].id, meetings[j].id);
      OverlapReported(meetings, i, j);
    }
  }

  lemma ReportedFromOverlap(meetings: seq<Meeting>, p: IdPair)
    requires p in IdsOf(meetings, ConflictIndices(meetings))
    ensures exists i, j :: 0 <= i < j < |meetings| && Overlap(meetings[i], meetings[j])
                           && p == (meetings[i].id, meetings[j].id)
  {
    var ci := ConflictIndices(meetings);
    var r := IdsOf(meetings, ci);
    var k :| 0 <= k < |r| && r[k] == p;
    assert ci[k] in ci;
    var i, j := ci[k].0, ci[k].1;
    assert p == (meetings[i].id, meetings[j].id);
  }

  lemma OverlapReported(meetings: seq<Meeting>, i: nat, j: nat)
    requires i < j < |meetings| && Overlap(meetings[i], meetings[j])
    ensures (meetings[i].id, meetings[j].id) in IdsOf(meetings, ConflictIndices(meetings))
  {
    var ci := ConflictIndices(meetings);
    assert (i, j) in ci;
    var k :| 0 <= k < |ci| && ci[k] == (i, j);
    assert IdsOf(meetings, ci)[k] == (meetings[i].id, meetings[j].id);
  }

  /** The reported pairs read back position by position: the `k`th pair
      carries the ids of the `k`th overlapping positions `i < j`, and every
      overlapping pair of positions is reported. */
  lemma DetectedPositions(meetings: seq<Meeting>)
    ensures var r := DetectPairwiseIntersections(meetings);
      && |r| == |ConflictIndices(meetings)|
      && (forall k :: 0 <= k < |r| ==>
           var p := ConflictIndices(meetings)[k];
           p.0 < p.1 < |meetings| && Overlap(meetings[p.0], meetings[p.1])
           && r[k] == (meetings[p.0].id, meetings[p.1].id))
      && (forall i, j :: 0 <= i < j < |meetings| && Overlap(meetings[i], meetings[j]) ==>
           (meetings[i].id, meetings[j].id) in r)
  {
    var r := DetectPairwiseIntersections(meetings);
    var ci := ConflictIndices(meetings);
    forall k | 0 <= k < |r|
      ensures ci[k].0 < ci[k].1 < |meetings| && Overlap(meetings[ci[k].0], meetings[ci[k].1])
    {
      assert ci[k] in ci;
    }
  }

  /** Empty and single-meeting inputs have no pairs to report. */
  lemma NoPairsBelowTwo(meetings: seq<Meeting>)
    requires |meetings| <= 1
    ensures DetectPairwiseIntersections(meetings) == []
  {
  }

  /** Meetings that only touch (one ends exactly when the other starts) are
      never reported, since the test is strict. */
  lemma TouchingNeverPaired(meetings: seq<Meeting>, i: nat, j: nat)
    requires DistinctIds(meetings)
    requires i < j < |meetings|
    requires meetings[i].end == meetings[j].start || meetings[j].end == meetings[i].start
    ensures (meetings[i].id, meetings[j].id) !in DetectPairwiseIntersections(meetings)
  {
    assert !Overlap(meetings[i], meetings[j]);
    forall i', j' | 0 <= i' < j' < |meetings| && Overlap(meetings[i'], meetings[j'])
      ensures (meetings[i'].id, meetings[j'].id) != (meetings[i].id, meetings[j].id)
    {
      assert i' != i || j' != j;
    }
  }

  /** No meeting is paired with itself: reported pairs come from two
      different positions, so with distinct ids the two ids differ. */
  lemma NoSelfPairs(meetings: seq<Meeting>, p: IdPair)
    requires DistinctIds(meetings)
    requires p in DetectPairwiseIntersections(meetings)
    ensures p.0 != p.1
  {
  }

  /** The documented example: 9:00-10:30 and 10:00-11:00 overlap, 11:30-12:30
      overlaps neither. */
  lemma ThreeMeetingExample()
    ensures DetectPairwiseIntersections([
      Meeting("m1", 900, 1030), Meeting("m2", 1000, 1100), Meeting("m3", 1130, 1230)
    ]) == [("m1", "m2")]
  {
    var ms := [Meeting("m1", 900, 1030), Meeting("m2", 1000, 1100), Meeting("m3", 1130, 1230)];
    assert ScanRow(ms, 0, 3) == [];
    assert ScanRow(ms, 0, 2) == [];
    assert ScanRow(ms, 0, 1) == [("m1", "m2")];
    assert ScanRow(ms, 1, 3) == [];
    assert ScanRow(ms, 1, 2) == [];
    assert ScanFrom(ms, 3) == [];
    assert ScanRow(ms, 2, 3) == [];
    assert ScanFrom(ms, 2) == [];
    assert ScanFrom(ms, 1) == [];
    assert ScanFrom(ms, 0) == [("m1", "m2")];
  }

  /** The four-meeting sample: 9:45-11:15 overlaps both of the first two
      meetings, and the pairs come out in scan order. */
  lemma FourMeetingExample()
    ensures DetectPairwiseIntersections([
      Meeting("m1", 900, 1030), Meeting("m2", 1000, 1100),
      Meeting("m3", 1130, 1230), Meeting("m4", 945, 1115)
    ]) == [("m1", "m2"), ("m1", "m4"), ("m2", "m4")]
  {
    var ms := [Meeting("m1", 900, 1030), Meeting("m2", 1000, 1100),
               Meeting("m3", 1130, 1230), Meeting("m4", 945, 1115)];
    assert ScanRow(ms, 0, 4) == [] && ScanRow(ms, 1, 4) == [] && ScanRow(ms, 2, 4) == [];
    assert ScanRow(ms, 0, 3) == [("m1", "m4")];
    assert ScanRow(ms, 0, 2) == [("m1", "m4")];
    assert ScanRow(ms, 0, 1) == [("m1", "m2"), ("m1", "m4")];
    assert ScanRow(ms, 1, 3) == [("m2", "m4")];
    assert ScanRow(ms, 1, 2) == [("m2", "m4")];
    assert ScanRow(ms, 2, 3) == [];
    assert ScanRow(ms, 3, 4) == [];
    assert ScanFrom(ms, 4) == [];
    assert ScanFrom(ms, 3) == [];
    assert ScanFrom(ms, 2) == [];
    assert ScanFrom(ms, 1) == [("m2", "m4")];
    assert ScanFrom(ms, 0) == [("m1", "m2"), ("m1", "m4"), ("m2", "m4")];
  }

  /** Two meetings an hour apart do not conflict. */
  lemma DisjointExample()
    ensures DetectPairwiseIntersections([Meeting("m1", 900, 1000), Meeting("m2", 1100, 1200)]) == []
  {
    var ms := [Meeting("m1", 900, 1000), Meeting("m2", 1100, 1200)];
    assert ScanRow(ms, 0, 2) == [];
    assert ScanRow(ms, 0, 1) == [];
    assert ScanFrom(ms, 2) == [];
    assert ScanRow(ms, 1, 2) == [];
    assert ScanFrom(ms, 1) == [];
    assert ScanFrom(ms, 0) == [];
  }
}
