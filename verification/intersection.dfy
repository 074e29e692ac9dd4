/** `detectPairwiseIntersections` of the root intersection.js, the copy that
    is called with an explicit meeting list: the nested loops run over an
    immutable sequence and push onto a local result. */
module Intersection {
  import opened Pairs
  import opened CoreIntersection

  /** Lines 8-23: an overlapping pair `i < j` is pushed as
      `[meetings[i].id, meetings[j].id]`, in lexicographic order of `(i, j)`;
      the result is the one the core-logic copy computes. */
  method DetectPairwiseIntersections(meetings: seq<Meeting>) returns (conflicts: seq<IdPair>)
    ensures conflicts == CoreIntersection.DetectPairwiseIntersections(meetings)
    ensures |conflicts| == |ConflictIndices(meetings)|
    ensures forall k :: 0 <= k < |conflicts| ==>
      var p := ConflictIndices(meetings)[k];
      p.0 < p.1 < |meetings| && Overlap(meetings[p.0], meetings[p.1])
      && conflicts[k] == (meetings[p.0].id, meetings[p.1].id)
    ensures forall i, j :: 0 <= i < j < |meetings| && Overlap(meetings[i], meetings[j]) ==>
      (meetings[i].id, meetings[j].id) in conflicts
  {
    conflicts := [];
    var i := 0;
    while i < |meetings|
      invariant 0 <= i <= |meetings|
      invariant conflicts + ScanFrom(meetings, i) == ScanFrom(meetings, 0)
    {
      var j := i + 1;
      assert ScanFrom(meetings, i) == ScanRow(meetings, i, j) + ScanFrom(meetings, i + 1);
      while j < |meetings|
        invariant i + 1 <= j <= |meetings|
        invariant conflicts + (ScanRow(meetings, i, j) + ScanFrom(meetings, i + 1)) == ScanFrom(meetings, 0)
      {
        var a := meetings[i];
        var b := meetings[j];
        RowStep(meetings, i, j, conflicts);
        if a.start < b.end && b.start < a.end {
          conflicts := conflicts + [(a.id, b.id)];
        }
        j := j + 1;
      }
      assert ScanRow(meetings, i, j) == [];
      assert ScanRow(meetings, i, j) + ScanFrom(meetings, i + 1) == ScanFrom(meetings, i + 1);
      i := i + 1;
    }
    DetectedPositions(meetings);
  }

  /** One step of the inner loop: the pair `(i, j)` is reported or not, and
      the rest of the scan follows. */
  lemma RowStep(ms: seq<Meeting>, i: nat, j: nat, done: seq<IdPair>)
    requires i < j < |ms|
    ensures var hit := if Overlap(ms[i], ms[j]) then [(ms[i].id, ms[j].id)] else [];
      done + (ScanRow(ms, i, j) + ScanFrom(ms, i + 1))
      == (done + hit) + (ScanRow(ms, i, j + 1) + ScanFrom(ms, i + 1))
  {
    var hit := if Overlap(ms[i], ms[j]) then [(ms[i].id, ms[j].id)] else [];
    var tail := ScanRow(ms, i, j + 1) + ScanFrom(ms, i + 1);
    assert ScanRow(ms, i, j) == hit + ScanRow(ms, i, j + 1);
    assert ScanRow(ms, i, j) + ScanFrom(ms, i + 1) == hit + tail;
    assert done + (hit + tail) == (done + hit) + tail;
  }
}
