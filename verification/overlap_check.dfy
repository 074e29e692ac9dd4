/** `checkOverlap` of src/utils/checkOverlap.js: the second pipeline's
    comparison of two dated meetings, producing a normalised overlap record. */
module OverlapCheck {
  import CoreIntersection

  /** A meeting as the second pipeline sees it. `date` is the day's
      timestamp and is compared with `===`; the times are timestamps too. */
  datatype Meeting = Meeting(id: string, date: int, startTime: int, endTime: int)

  /** `{meetingId0, meetingId1, overlaps}`. */
  datatype OverlapRecord = OverlapRecord(meetingId0: string, meetingId1: string, overlaps: bool)

  /** Instant `t` lies in the half-open range `[m.startTime, m.endTime)`. */
  predicate During(m: Meeting, t: int) {
    m.startTime <= t < m.endTime
  }

  /** The meeting ends after it starts. Nothing in the comparison checks it. */
  predicate Proper(m: Meeting) {
    m.startTime < m.endTime
  }

  /** The two meetings' ranges share an instant. */
  ghost predicate ShareInstant(a: Meeting, b: Meeting) {
    exists t :: During(a, t) && During(b, t)
  }

  /** Lines 7-27: the ids are copied in argument order; a meeting on another
      day never overlaps; on the same day a shared instant always makes the
      verdict true and, for proper meetings, is the only way to make it true,
      so touching ends do not count. */
  function CheckOverlap(a: Meeting, b: Meeting): (r: OverlapRecord)
    ensures r.meetingId0 == a.id && r.meetingId1 == b.id
    ensures a.date != b.date ==> !r.overlaps
    ensures a.date == b.date && ShareInstant(a, b) ==> r.overlaps
    ensures a.date == b.date && Proper(a) && Proper(b) ==> (r.overlaps <==> ShareInstant(a, b))
  {
    if a.date != b.date then
      OverlapRecord(a.id, b.id, false)
    else
      var overlaps := a.startTime < b.endTime && b.startTime < a.endTime;
      assert overlaps && Proper(a) && Proper(b) ==> ShareInstant(a, b) by {
        if overlaps && Proper(a) && Proper(b) {
          var t := if a.startTime < b.startTime then b.startTime else a.startTime;
          assert During(a, t) && During(b, t);
        }
      }
      OverlapRecord(a.id, b.id, overlaps)
  }

  /** Swapping the arguments swaps the ids and keeps the verdict. */
  lemma CheckOverlapSymmetric(a: Meeting, b: Meeting)
    ensures CheckOverlap(b, a).overlaps == CheckOverlap(a, b).overlaps
    ensures CheckOverlap(b, a).meetingId0 == CheckOverlap(a, b).meetingId1
    ensures CheckOverlap(b, a).meetingId1 == CheckOverlap(a, b).meetingId0
  {
  }

  /** Back-to-back meetings, one ending exactly when the other starts, do
      not overlap. */
  lemma BackToBackNoOverlap(a: Meeting, b: Meeting)
    requires a.endTime == b.startTime
    ensures !CheckOverlap(a, b).overlaps && !CheckOverlap(b, a).overlaps
  {
  }

  /** Meetings on different days never overlap, whatever their times. */
  lemma DifferentDaysNoOverlap(a: Meeting, b: Meeting)
    requires a.date != b.date
    ensures !CheckOverlap(a, b).overlaps && !CheckOverlap(b, a).overlaps
  {
  }

  /** The first pipeline's meeting with the same id and times. */
  function Undated(m: Meeting): (u: CoreIntersection.Meeting)
    ensures u.id == m.id && u.start == m.startTime && u.end == m.endTime
  {
    CoreIntersection.Meeting(m.id, m.startTime, m.endTime)
  }

  /** The verdict is the first pipeline's overlap test, guarded by the
      same-date check. */
  lemma AgreesWithIntersectionTest(a: Meeting, b: Meeting)
    ensures CheckOverlap(a, b).overlaps <==>
      a.date == b.date && CoreIntersection.Overlap(Undated(a), Undated(b))
  {
  }
}
