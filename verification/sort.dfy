/** `sortMeetingsByStartTime` of src/utils/sortMeetings.js: a bubble sort on
    a copy of the meeting list, keyed on `startTime`. A sequence value plays
    the part of the copied array: the caller's list cannot change. */
module SortMeetings {
  import opened OverlapCheck

  /** Non-decreasing by `startTime`. */
  ghost predicate Sorted(s: seq<Meeting>) {
    forall p, q :: 0 <= p < q < |s| ==> s[p].startTime <= s[q].startTime
  }

  /** The meetings of `s` that start at `t`, in their order in `s`. Two lists
      with the same such sublist for every `t` hold the same meetings, and
      keep equal-keyed meetings in the same relative order. */
  function StartingAt(s: seq<Meeting>, t: int): (r: seq<Meeting>)
    ensures forall m :: m in r <==> m in s && m.startTime == t
  {
    if s == [] then []
    else (if s[0].startTime == t then [s[0]] else []) + StartingAt(s[1..], t)
  }

  lemma {:induction false} StartingAtConcat(a: seq<Meeting>, b: seq<Meeting>, t: int)
    ensures StartingAt(a + b, t) == StartingAt(a, t) + StartingAt(b, t)
    decreases |a|
  {
    if a == [] {
      assert a + b == b;
    } else {
      assert (a + b)[0] == a[0] && (a + b)[1..] == a[1..] + b;
      StartingAtConcat(a[1..], b, t);
    }
  }

  /** Lines 12-14: exchange positions `j` and `j + 1`. */
  function Swap(s: seq<Meeting>, j: nat): (r: seq<Meeting>)
    requires j + 1 < |s|
    ensures |r| == |s| && r[j] == s[j + 1] && r[j + 1] == s[j]
    ensures forall k :: 0 <= k < |s| && k != j && k != j + 1 ==> r[k] == s[k]
    ensures multiset(r) == multiset(s)
  {
    var r := s[j := s[j + 1]][j + 1 := s[j]];
    assert r == s[..j] + [s[j + 1], s[j]] + s[j + 2..];
    assert s == s[..j] + [s[j], s[j + 1]] + s[j + 2..];
    r
  }

  /** Exchanging two neighbours with different keys leaves every key's
      sublist as it was: the reason the strict `>` on line 11 makes the sort
      stable. */
  lemma SwapKeepsStartingAt(s: seq<Meeting>, j: nat, t: int)
    requires j + 1 < |s|
    requires s[j].startTime != s[j + 1].startTime
    ensures StartingAt(Swap(s, j), t) == StartingAt(s, t)
  {
    var x, y := s[j], s[j + 1];
    var pre, post := s[..j], s[j + 2..];
    assert s == pre + ([x, y] + post);
    assert Swap(s, j) == pre + ([y, x] + post);
    PairKeepsStartingAt(x, y, post, t);
    StartingAtConcat(pre, [x, y] + post, t);
    StartingAtConcat(pre, [y, x] + post, t);
  }

  lemma PairKeepsStartingAt(x: Meeting, y: Meeting, post: seq<Meeting>, t: int)
    requires x.startTime != y.startTime
    ensures StartingAt([x, y] + post, t) == StartingAt([y, x] + post, t)
  {
    assert ([x, y] + post)[1..] == [y] + post;
    assert ([y, x] + post)[1..] == [x] + post;
    assert ([y] + post)[1..] == post;
    assert ([x] + post)[1..] == post;
  }

  /** Every key from position `k` on is in order. */
  ghost predicate SortedFrom(s: seq<Meeting>, k: nat) {
    forall p, q :: k <= p < q < |s| ==> s[p].startTime <= s[q].startTime
  }

  /** No key before position `k` exceeds a key from `k` on. */
  ghost predicate SplitAt(s: seq<Meeting>, k: nat) {
    forall p, q :: 0 <= p < k <= q < |s| ==> s[p].startTime <= s[q].startTime
  }

  /** Every key's sublist is the same in both. */
  ghost predicate SameStarts(s: seq<Meeting>, u: seq<Meeting>) {
    forall t :: StartingAt(s, t) == StartingAt(u, t)
  }

  /** Lines 10-16, one pass of the inner loop over the unsorted prefix
      `s[..bound]`: the largest key of the prefix is carried to its last
      place, so the sorted suffix grows by one. */
  method BubblePass(s: seq<Meeting>, bound: nat) returns (r: seq<Meeting>)
    requires 1 <= bound <= |s|
    requires SortedFrom(s, bound) && SplitAt(s, bound)
    ensures |r| == |s| && multiset(r) == multiset(s) && SameStarts(r, s)
    ensures SortedFrom(r, bound - 1) && SplitAt(r, bound - 1)
  {
    r := s;
    var j := 0;
    while j < bound - 1
      invariant 0 <= j <= bound - 1
      invariant |r| == |s| && multiset(r) == multiset(s) && SameStarts(r, s)
      invariant SortedFrom(r, bound) && SplitAt(r, bound)
      invariant forall p :: 0 <= p < j ==> r[p].startTime <= r[j].startTime
    {
      if r[j].startTime > r[j + 1].startTime {
        forall t ensures StartingAt(Swap(r, j), t) == StartingAt(r, t) {
          SwapKeepsStartingAt(r, j, t);
        }
        r := Swap(r, j);
      }
      j := j + 1;
    }
  }

  /** Lines 6-20. The result is the input reordered: the same meetings
      (as a multiset), non-decreasing by `startTime`, with meetings of equal
      `startTime` in their original relative order; a list of at most one
      meeting comes back as it was. */
  method SortMeetingsByStartTime(meetings: seq<Meeting>) returns (sorted: seq<Meeting>)
    ensures |sorted| == |meetings|
    ensures multiset(sorted) == multiset(meetings)
    ensures Sorted(sorted)
    ensures forall t :: StartingAt(sorted, t) == StartingAt(meetings, t)
    ensures |meetings| <= 1 ==> sorted == meetings
  {
    sorted := meetings;
    var n := |meetings|;
    var i := 0;
    while i < n - 1
      invariant 0 <= i <= n && (n >= 1 ==> i <= n - 1)
      invariant |sorted| == n && multiset(sorted) == multiset(meetings) && SameStarts(sorted, meetings)
      invariant n <= 1 ==> sorted == meetings
      // the last `i` places hold the `i` largest keys, in order
      invariant SortedFrom(sorted, n - i) && SplitAt(sorted, n - i)
    {
      sorted := BubblePass(sorted, n - i);
      i := i + 1;
    }
    assert n >= 1 ==> SortedFrom(sorted, 1) && SplitAt(sorted, 1);
  }

  /** The meetings' order is fixed by their keys and their order within a
      key: two sorted lists with the same sublist for every key are equal.
      So the contract of `SortMeetingsByStartTime` leaves one possible
      result, the stable sort of the input. */
  lemma {:induction false} StableSortUnique(s: seq<Meeting>, u: seq<Meeting>)
    requires Sorted(s) && Sorted(u) && SameStarts(s, u)
    ensures s == u
    decreases |s|
  {
    if s == [] || u == [] {
      EmptyStarts(s, u);
    } else {
      SameHead(s, u);
      SameTailStarts(s, u);
      StableSortUnique(s[1..], u[1..]);
      assert s == [s[0]] + s[1..] && u == [u[0]] + u[1..];
    }
  }

  lemma EmptyStarts(s: seq<Meeting>, u: seq<Meeting>)
    requires SameStarts(s, u)
    ensures s == [] <==> u == []
  {
    if s != [] {
      assert s[0] in StartingAt(s, s[0].startTime);
    }
    if u != [] {
      assert u[0] in StartingAt(u, u[0].startTime);
    }
  }

  /** Both lists start with the first meeting of the smallest key. */
  lemma SameHead(s: seq<Meeting>, u: seq<Meeting>)
    requires Sorted(s) && Sorted(u) && SameStarts(s, u)
    requires s != [] && u != []
    ensures s[0] == u[0]
  {
    assert s[0] in StartingAt(u, s[0].startTime) by {
      assert s[0] in StartingAt(s, s[0].startTime);
    }
    assert u[0] in StartingAt(s, u[0].startTime) by {
      assert u[0] in StartingAt(u, u[0].startTime);
    }
    var t0 := s[0].startTime;
    assert u[0].startTime == t0 by {
      var p :| 0 <= p < |u| && u[p] == s[0];
      var q :| 0 <= q < |s| && s[q] == u[0];
    }
    assert StartingAt(s, t0)[0] == s[0];
    assert StartingAt(u, t0)[0] == u[0];
  }

  lemma SameTailStarts(s: seq<Meeting>, u: seq<Meeting>)
    requires s != [] && u != [] && s[0] == u[0]
    requires SameStarts(s, u)
    ensures SameStarts(s[1..], u[1..])
  {
    forall t ensures StartingAt(s[1..], t) == StartingAt(u[1..], t) {
      var head := if s[0].startTime == t then [s[0]] else [];
      assert StartingAt(s, t) == head + StartingAt(s[1..], t);
      assert StartingAt(u, t) == head + StartingAt(u[1..], t);
      assert StartingAt(s[1..], t) == (head + StartingAt(s[1..], t))[|head|..];
      assert StartingAt(u[1..], t) == (head + StartingAt(u[1..], t))[|head|..];
    }
  }
}
