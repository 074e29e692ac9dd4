/** `buildConflictClusters(meetings, conflicts)` of the root clustering.js:
    one graph node per meeting, each conflict pair stored in both directions,
    then a depth-first search from every meeting not yet visited, in meeting
    order; each search's ids are turned back into meeting records. */
module Clustering {
  import opened Seqs
  import opened Graphs
  import opened Paths
  import opened Dfs
  import opened CoreIntersection
  import opened Chains

  /** `graph.get(id)` is `undefined` for an id no meeting carries, and the
      following `.add` throws; nothing is returned. */
  datatype ClusterError = UnknownMeeting(id: Id)

  datatype Result<T> = Success(value: T) | Failure(error: ClusterError)

  /** `g` is the graph lines 9-21 build: one node per meeting id, and an
      edge, stored both ways, for each conflict pair. */
  ghost predicate IsConflictGraph(meetings: seq<Meeting>, conflicts: seq<IdPair>, g: Graph) {
    && Valid(g) && Symmetric(g)
    && (forall u :: u in g.adj <==> u in MeetingIds(meetings))
    && (forall x, y :: x in g.adj && y in g.adj[x] <==> Edge(conflicts, x, y))
  }

  /** Lines 12-15: `graph.set(meeting.id, new Set())` for each meeting. */
  function InitNodes(g: Graph, ids: seq<Id>): (g': Graph)
    requires Valid(g) && Symmetric(g)
    requires forall u :: u in g.adj ==> g.adj[u] == []
    ensures Valid(g') && Symmetric(g')
    ensures forall u :: u in g'.adj ==> g'.adj[u] == []
    ensures forall u :: u in g'.adj <==> u in g.adj || u in ids
    decreases |ids|
  {
    if ids == [] then g else InitNodes(AddNode(g, ids[0]), ids[1..])
  }

  /** Lines 17-21: for each pair `[a, b]`, `graph.get(a).add(b)` then
      `graph.get(b).add(a)`; the first endpoint that is not a node throws. */
  function AddConflicts(g: Graph, conflicts: seq<IdPair>): (r: Result<Graph>)
    requires Valid(g) && Symmetric(g)
    ensures r.Success? <==> forall p :: p in conflicts ==> p.0 in g.adj && p.1 in g.adj
    ensures r.Failure? ==>
      r.error.id !in g.adj && exists p :: p in conflicts && (r.error.id == p.0 || r.error.id == p.1)
    ensures r.Success? ==>
      && Valid(r.value) && Symmetric(r.value)
      && r.value.adj.Keys == g.adj.Keys
      && forall x, y :: x in r.value.adj && y in r.value.adj[x] <==>
           (x in g.adj && y in g.adj[x]) || Edge(conflicts, x, y)
    decreases |conflicts|
  {
    if conflicts == [] then Success(g)
    else
      var (a, b) := conflicts[0];
      assert conflicts[0] in conflicts;
      if a !in g.adj then Failure(UnknownMeeting(a))
      else if b !in g.adj then Failure(UnknownMeeting(b))
      else
        var r := AddConflicts(AddEdge(g, a, b), conflicts[1..]);
        assert forall p :: p in conflicts <==> p == conflicts[0] || p in conflicts[1..];
        if r.Failure? then r
        else
          ArcsCons(g, AddEdge(g, a, b), r.value, conflicts);
          r
  }

  /** The arcs of a graph built from the pairs after the first one, on top
      of the first pair's edge, are the old arcs plus all the pairs. */
  lemma ArcsCons(g: Graph, h: Graph, built: Graph, conflicts: seq<IdPair>)
    requires Valid(g)
    requires conflicts != [] && conflicts[0].0 in g.adj && conflicts[0].1 in g.adj
    requires h == AddEdge(g, conflicts[0].0, conflicts[0].1)
    requires forall x, y :: x in built.adj && y in built.adj[x] <==>
      (x in h.adj && y in h.adj[x]) || Edge(conflicts[1..], x, y)
    ensures forall x, y :: x in built.adj && y in built.adj[x] <==>
      (x in g.adj && y in g.adj[x]) || Edge(conflicts, x, y)
  {
    forall x, y ensures x in built.adj && y in built.adj[x] <==>
      (x in g.adj && y in g.adj[x]) || Edge(conflicts, x, y)
    {
      EdgeCons(conflicts, x, y);
    }
  }

  /** The conflict graph of lines 9-21. */
  function ConflictGraph(meetings: seq<Meeting>, conflicts: seq<IdPair>): (r: Result<Graph>)
    ensures r.Success? <==> forall p :: p in conflicts ==> p.0 in MeetingIds(meetings) && p.1 in MeetingIds(meetings)
    ensures r.Failure? ==>
      r.error.id !in MeetingIds(meetings) && exists p :: p in conflicts && (r.error.id == p.0 || r.error.id == p.1)
    ensures r.Success? ==> IsConflictGraph(meetings, conflicts, r.value)
  {
    AddConflicts(InitNodes(Empty(), MeetingIds(meetings)), conflicts)
  }

  /** `m` is the first meeting in `meetings` that carries its id. */
  ghost predicate FirstWithId(meetings: seq<Meeting>, m: Meeting) {
    exists i :: 0 <= i < |meetings| && meetings[i] == m && forall j :: 0 <= j < i ==> meetings[j].id != m.id
  }

  /** `meetings.find(m => m.id === id)`: the first meeting with that id. */
  function FindMeeting(meetings: seq<Meeting>, id: Id): (m: Meeting)
    requires id in MeetingIds(meetings)
    ensures m.id == id && FirstWithId(meetings, m)
  {
    var i := IndexOf(MeetingIds(meetings), id);
    meetings[i]
  }

  /** Lines 45-47: ids back to meeting records. */
  function ToRecords(meetings: seq<Meeting>, ids: seq<Id>): (rs: seq<Meeting>)
    requires forall id :: id in ids ==> id in MeetingIds(meetings)
    ensures MeetingIds(rs) == ids
    ensures forall m :: m in rs ==> FirstWithId(meetings, m)
  {
    seq(|ids|, k requires 0 <= k < |ids| => FindMeeting(meetings, ids[k]))
  }

  /** Lines 8-54. Fails exactly when some conflict names an id no meeting
      carries; otherwise every cluster is a non-empty list of the caller's
      own meeting records. */
  function BuildConflictClusters(meetings: seq<Meeting>, conflicts: seq<IdPair>)
    : (r: Result<seq<seq<Meeting>>>)
    ensures r.Success? <==> forall p :: p in conflicts ==> p.0 in MeetingIds(meetings) && p.1 in MeetingIds(meetings)
    ensures r.Failure? ==>
      r.error.id !in MeetingIds(meetings) && exists p :: p in conflicts && (r.error.id == p.0 || r.error.id == p.1)
    ensures r.Success? ==> forall k :: 0 <= k < |r.value| ==>
      |r.value[k]| > 0 && forall m :: m in r.value[k] ==> m in meetings
  {
    var graph := ConflictGraph(meetings, conflicts);
    if graph.Failure? then Failure(graph.error)
    else
      Success(MeetingClusters(meetings, graph.value))
  }

  /** Lines 39-43: the id lists of the searches started from each meeting
      not yet visited, in meeting order. */
  function IdClusters(meetings: seq<Meeting>, g: Graph): (cs: seq<seq<Id>>)
    requires Valid(g)
    requires forall u :: u in g.adj <==> u in MeetingIds(meetings)
    ensures forall k, id :: 0 <= k < |cs| && id in cs[k] ==> id in MeetingIds(meetings)
  {
    var cs := Components(g, MeetingIds(meetings), {});
    forall k, id | 0 <= k < |cs| && id in cs[k] ensures id in MeetingIds(meetings) {
      ClusterMembers(g, MeetingIds(meetings), {}, k, id);
    }
    cs
  }

  /** Lines 39-51: each search's ids mapped back to meeting records. */
  function MeetingClusters(meetings: seq<Meeting>, g: Graph): (rcs: seq<seq<Meeting>>)
    requires Valid(g)
    requires forall u :: u in g.adj <==> u in MeetingIds(meetings)
    ensures |rcs| == |IdClusters(meetings, g)|
    ensures forall k :: 0 <= k < |rcs| ==> MeetingIds(rcs[k]) == IdClusters(meetings, g)[k]
    ensures forall k :: 0 <= k < |rcs| ==> |rcs[k]| > 0 && forall m :: m in rcs[k] ==> m in meetings
    ensures forall k, m :: 0 <= k < |rcs| && m in rcs[k] ==> FirstWithId(meetings, m)
  {
    var cs := IdClusters(meetings, g);
    var rcs := seq(|cs|, k requires 0 <= k < |cs| => ToRecords(meetings, cs[k]));
    forall k | 0 <= k < |rcs| ensures MeetingIds(rcs[k]) == cs[k] && |rcs[k]| > 0 {
      assert |MeetingIds(rcs[k])| == |rcs[k]|;
    }
    forall k, m | 0 <= k < |rcs| && m in rcs[k] ensures FirstWithId(meetings, m) && m in meetings {
      assert m in ToRecords(meetings, cs[k]);
    }
    rcs
  }

  /** A successful result is the record image of the id clusters. */
  lemma SuccessView(meetings: seq<Meeting>, conflicts: seq<IdPair>) returns (g: Graph)
    requires BuildConflictClusters(meetings, conflicts).Success?
    ensures IsConflictGraph(meetings, conflicts, g)
    ensures BuildConflictClusters(meetings, conflicts).value == MeetingClusters(meetings, g)
  {
    g := ConflictGraph(meetings, conflicts).value;
  }

  /** The clusters are the connected components of the conflict relation:
      a cluster holding meeting id `x` holds exactly the ids linked to `x` by
      a chain of conflict pairs. */
  lemma ClustersAreComponents(meetings: seq<Meeting>, conflicts: seq<IdPair>, k: nat, x: Id, y: Id)
    requires BuildConflictClusters(meetings, conflicts).Success?
    requires k < |BuildConflictClusters(meetings, conflicts).value|
    requires x in MeetingIds(BuildConflictClusters(meetings, conflicts).value[k])
    ensures y in MeetingIds(BuildConflictClusters(meetings, conflicts).value[k]) <==> Linked(conflicts, x, y)
  {
    var g := SuccessView(meetings, conflicts);
    ComponentClusterIff(meetings, conflicts, g, k, x, y);
  }

  lemma ComponentClusterIff(meetings: seq<Meeting>, conflicts: seq<IdPair>, g: Graph, k: nat, x: Id, y: Id)
    requires IsConflictGraph(meetings, conflicts, g)
    requires k < |IdClusters(meetings, g)| && x in IdClusters(meetings, g)[k]
    ensures y in IdClusters(meetings, g)[k] <==> Linked(conflicts, x, y)
  {
    assert IdClusters(meetings, g) == Components(g, MeetingIds(meetings), {});
    ComponentsExact(g, MeetingIds(meetings), {}, k, x, y);
    ConnectedIffLinked(g, conflicts, x, y);
  }

  /** Every meeting id lies in some cluster. */
  lemma EveryMeetingClustered(meetings: seq<Meeting>, conflicts: seq<IdPair>, id: Id) returns (k: nat)
    requires BuildConflictClusters(meetings, conflicts).Success?
    requires id in MeetingIds(meetings)
    ensures k < |BuildConflictClusters(meetings, conflicts).value|
    ensures id in MeetingIds(BuildConflictClusters(meetings, conflicts).value[k])
  {
    var g := SuccessView(meetings, conflicts);
    k := IdCovered(meetings, g, id);
  }

  lemma IdCovered(meetings: seq<Meeting>, g: Graph, id: Id) returns (k: nat)
    requires Valid(g)
    requires forall u :: u in g.adj <==> u in MeetingIds(meetings)
    requires id in MeetingIds(meetings)
    ensures k < |IdClusters(meetings, g)| && id in IdClusters(meetings, g)[k]
  {
    var cs := IdClusters(meetings, g);
    FlattenMember(cs, id);
    k :| 0 <= k < |cs| && id in cs[k];
  }

  /** Both ids of every conflict pair land in the same cluster. */
  lemma ConflictEndpointsShareCluster(meetings: seq<Meeting>, conflicts: seq<IdPair>, a: Id, b: Id) returns (k: nat)
    requires BuildConflictClusters(meetings, conflicts).Success?
    requires (a, b) in conflicts
    ensures k < |BuildConflictClusters(meetings, conflicts).value|
    ensures a in MeetingIds(BuildConflictClusters(meetings, conflicts).value[k])
    ensures b in MeetingIds(BuildConflictClusters(meetings, conflicts).value[k])
  {
    k := EveryMeetingClustered(meetings, conflicts, a);
    assert Edge(conflicts, a, b);
    LinkedByPair(conflicts, a, b);
    ClustersAreComponents(meetings, conflicts, k, a, b);
  }

  /** The search visits every id at most once, so no id is in two clusters
      or twice in one. */
  lemma ClusterIdsDistinct(meetings: seq<Meeting>, conflicts: seq<IdPair>)
    requires BuildConflictClusters(meetings, conflicts).Success?
    ensures NoDup(MeetingIds(Flatten(BuildConflictClusters(meetings, conflicts).value)))
  {
    var g := SuccessView(meetings, conflicts);
    RecordIdsDistinct(meetings, g);
  }

  lemma RecordIdsDistinct(meetings: seq<Meeting>, g: Graph)
    requires Valid(g)
    requires forall u :: u in g.adj <==> u in MeetingIds(meetings)
    ensures NoDup(MeetingIds(Flatten(MeetingClusters(meetings, g))))
  {
    FlattenIds(MeetingClusters(meetings, g), IdClusters(meetings, g));
  }

  lemma {:induction false} FlattenIds(rcs: seq<seq<Meeting>>, cs: seq<seq<Id>>)
    requires |rcs| == |cs|
    requires forall k :: 0 <= k < |rcs| ==> MeetingIds(rcs[k]) == cs[k]
    ensures MeetingIds(Flatten(rcs)) == Flatten(cs)
  {
    if rcs != [] {
      FlattenIds(rcs[1..], cs[1..]);
      assert MeetingIds(rcs[0] + Flatten(rcs[1..])) == MeetingIds(rcs[0]) + MeetingIds(Flatten(rcs[1..]));
    }
  }

  /** With distinct ids, a cluster member carrying a meeting's id is that
      meeting. */
  lemma MemberIsMeeting(meetings: seq<Meeting>, rc: seq<Meeting>, i: nat)
    requires DistinctIds(meetings)
    requires i < |meetings| && meetings[i].id in MeetingIds(rc)
    requires forall m :: m in rc ==> FirstWithId(meetings, m)
    ensures meetings[i] in rc
  {
    var p :| 0 <= p < |rc| && MeetingIds(rc)[p] == meetings[i].id;
    assert rc[p] in rc;
  }

  /** A sequence whose ids are distinct has distinct elements. */
  lemma DistinctIdsNoDup(ms: seq<Meeting>)
    requires NoDup(MeetingIds(ms))
    ensures NoDup(ms)
  {
    forall i, j | 0 <= i < j < |ms| ensures ms[i] != ms[j] {
      assert MeetingIds(ms)[i] == ms[i].id && MeetingIds(ms)[j] == ms[j].id;
    }
  }

  /** With distinct ids the clusters partition the meetings: together they
      hold every meeting exactly once. */
  lemma ClustersPartitionMeetings(meetings: seq<Meeting>, conflicts: seq<IdPair>)
    requires DistinctIds(meetings)
    requires BuildConflictClusters(meetings, conflicts).Success?
    ensures multiset(Flatten(BuildConflictClusters(meetings, conflicts).value)) == multiset(meetings)
  {
    var g := SuccessView(meetings, conflicts);
    PartitionOnGraph(meetings, g);
  }

  lemma PartitionOnGraph(meetings: seq<Meeting>, g: Graph)
    requires DistinctIds(meetings)
    requires Valid(g)
    requires forall u :: u in g.adj <==> u in MeetingIds(meetings)
    ensures multiset(Flatten(MeetingClusters(meetings, g))) == multiset(meetings)
  {
    var rcs := MeetingClusters(meetings, g);
    var f := Flatten(rcs);
    RecordIdsDistinct(meetings, g);
    DistinctIdsNoDup(f);
    DistinctIdsNoDup(meetings);
    forall m ensures m in f <==> m in meetings {
      ClusteredIffMeeting(meetings, g, m);
    }
    NoDupSameElemsMultiset(f, meetings);
  }

  lemma ClusteredIffMeeting(meetings: seq<Meeting>, g: Graph, m: Meeting)
    requires DistinctIds(meetings)
    requires Valid(g)
    requires forall u :: u in g.adj <==> u in MeetingIds(meetings)
    ensures m in Flatten(MeetingClusters(meetings, g)) <==> m in meetings
  {
    var rcs := MeetingClusters(meetings, g);
    FlattenMember(rcs, m);
    if m in meetings {
      var i :| 0 <= i < |meetings| && meetings[i] == m;
      assert m.id == MeetingIds(meetings)[i];
      var k := IdCovered(meetings, g, m.id);
      MemberIsMeeting(meetings, rcs[k], i);
    }
  }

  /** Lines 39-43: a cluster's first member is the member listed first
      among the meetings. */
  lemma SeedLeadsCluster(meetings: seq<Meeting>, conflicts: seq<IdPair>, k: nat, m: Meeting)
    requires BuildConflictClusters(meetings, conflicts).Success?
    requires k < |BuildConflictClusters(meetings, conflicts).value|
    requires m in BuildConflictClusters(meetings, conflicts).value[k]
    ensures BuildConflictClusters(meetings, conflicts).value[k][0].id in MeetingIds(meetings)
    ensures m.id in MeetingIds(meetings)
    ensures IndexOf(MeetingIds(meetings), BuildConflictClusters(meetings, conflicts).value[k][0].id)
         <= IndexOf(MeetingIds(meetings), m.id)
  {
    var g := SuccessView(meetings, conflicts);
    var rc := MeetingClusters(meetings, g)[k];
    var c := IdClusters(meetings, g)[k];
    var ids := MeetingIds(meetings);
    assert MeetingIds(rc) == c;
    var p :| 0 <= p < |rc| && rc[p] == m;
    assert MeetingIds(rc)[p] == m.id && MeetingIds(rc)[0] == rc[0].id;
    assert m.id in c;
    ComponentsSeedOrder(g, ids, {});
    ClusterMembers(g, ids, {}, k, m.id);
  }

  /** Lines 39-49: clusters are pushed in the order of their first members'
      positions among the meetings. */
  lemma ClustersInSeedOrder(meetings: seq<Meeting>, conflicts: seq<IdPair>, k: nat, l: nat)
    requires BuildConflictClusters(meetings, conflicts).Success?
    requires k < l < |BuildConflictClusters(meetings, conflicts).value|
    ensures BuildConflictClusters(meetings, conflicts).value[k][0].id in MeetingIds(meetings)
    ensures BuildConflictClusters(meetings, conflicts).value[l][0].id in MeetingIds(meetings)
    ensures IndexOf(MeetingIds(meetings), BuildConflictClusters(meetings, conflicts).value[k][0].id)
          < IndexOf(MeetingIds(meetings), BuildConflictClusters(meetings, conflicts).value[l][0].id)
  {
    var g := SuccessView(meetings, conflicts);
    var rcs := MeetingClusters(meetings, g);
    var cs := IdClusters(meetings, g);
    assert MeetingIds(rcs[k])[0] == rcs[k][0].id && MeetingIds(rcs[l])[0] == rcs[l][0].id;
    assert rcs[k][0].id == cs[k][0] && rcs[l][0].id == cs[l][0];
    ComponentsSeedOrder(g, MeetingIds(meetings), {});
  }

  /** Cluster members are the caller's records, each the first meeting
      carrying its id. */
  lemma MembersAreRecords(meetings: seq<Meeting>, conflicts: seq<IdPair>, k: nat, m: Meeting)
    requires BuildConflictClusters(meetings, conflicts).Success?
    requires k < |BuildConflictClusters(meetings, conflicts).value|
    requires m in BuildConflictClusters(meetings, conflicts).value[k]
    ensures FirstWithId(meetings, m)
  {
    var g := SuccessView(meetings, conflicts);
  }

  /** With no conflicts and distinct ids, each meeting is a cluster of its
      own, in meeting order. */
  lemma NoConflictsSingletons(meetings: seq<Meeting>)
    requires DistinctIds(meetings)
    ensures BuildConflictClusters(meetings, [])
         == Success(seq(|meetings|, k requires 0 <= k < |meetings| => [meetings[k]]))
  {
    var g := SuccessView(meetings, []);
    forall u | u in g.adj ensures g.adj[u] == [] {
      var s := g.adj[u];
      assert forall y :: y in s ==> Edge([], u, y);
      EmptyIffNoMembers(s);
    }
    SingletonsWithoutEdges(meetings, g);
  }

  lemma SingletonsWithoutEdges(meetings: seq<Meeting>, g: Graph)
    requires DistinctIds(meetings)
    requires Valid(g)
    requires forall u :: u in g.adj <==> u in MeetingIds(meetings)
    requires forall u :: u in g.adj ==> g.adj[u] == []
    ensures MeetingClusters(meetings, g) == seq(|meetings|, k requires 0 <= k < |meetings| => [meetings[k]])
  {
    var ids := MeetingIds(meetings);
    ComponentsNoEdges(g, ids, {});
    var cs := IdClusters(meetings, g);
    assert |cs| == |meetings|;
    var rcs := MeetingClusters(meetings, g);
    var want := seq(|meetings|, k requires 0 <= k < |meetings| => [meetings[k]]);
    forall k | 0 <= k < |rcs| ensures rcs[k] == want[k] {
      assert MeetingIds(rcs[k]) == cs[k] == [ids[k]];
      SingletonRecord(meetings, rcs[k], k);
    }
  }

  /** With distinct ids, the one record carrying the `k`th id is the `k`th
      meeting. */
  lemma SingletonRecord(meetings: seq<Meeting>, r: seq<Meeting>, k: nat)
    requires DistinctIds(meetings)
    requires k < |meetings|
    requires MeetingIds(r) == [meetings[k].id]
    requires forall m :: m in r ==> FirstWithId(meetings, m)
    ensures r == [meetings[k]]
  {
    assert r[0] in r;
    var i :| 0 <= i < |meetings| && meetings[i] == r[0] && forall j :: 0 <= j < i ==> meetings[j].id != r[0].id;
    assert MeetingIds(r)[0] == r[0].id;
  }

  /** Feeding the detected intersections of the same meetings never fails. */
  lemma DetectedConflictsAccepted(meetings: seq<Meeting>)
    ensures BuildConflictClusters(meetings, CoreIntersection.DetectPairwiseIntersections(meetings)).Success?
  {
    var conflicts := CoreIntersection.DetectPairwiseIntersections(meetings);
    forall p | p in conflicts ensures p.0 in MeetingIds(meetings) && p.1 in MeetingIds(meetings) {
      var i, j :| 0 <= i < j < |meetings| && Overlap(meetings[i], meetings[j])
                  && p == (meetings[i].id, meetings[j].id);
      assert MeetingIds(meetings)[i] == p.0 && MeetingIds(meetings)[j] == p.1;
    }
  }

  /** Detection followed by clustering: two overlapping meetings end up in
      the same cluster. */
  lemma OverlappingMeetingsShareCluster(meetings: seq<Meeting>, i: nat, j: nat) returns (k: nat)
    requires i < j < |meetings| && Overlap(meetings[i], meetings[j])
    ensures BuildConflictClusters(meetings, CoreIntersection.DetectPairwiseIntersections(meetings)).Success?
    ensures k < |BuildConflictClusters(meetings, CoreIntersection.DetectPairwiseIntersections(meetings)).value|
    ensures meetings[i].id in MeetingIds(BuildConflictClusters(meetings, CoreIntersection.DetectPairwiseIntersections(meetings)).value[k])
    ensures meetings[j].id in MeetingIds(BuildConflictClusters(meetings, CoreIntersection.DetectPairwiseIntersections(meetings)).value[k])
  {
    DetectedConflictsAccepted(meetings);
    DetectedPair(meetings, i, j);
    k := ConflictEndpointsShareCluster(meetings, CoreIntersection.DetectPairwiseIntersections(meetings), meetings[i].id, meetings[j].id);
  }

  lemma DetectedPair(meetings: seq<Meeting>, i: nat, j: nat)
    requires i < j < |meetings| && Overlap(meetings[i], meetings[j])
    ensures (meetings[i].id, meetings[j].id) in CoreIntersection.DetectPairwiseIntersections(meetings)
  {
  }

  /** Two graph-building outcomes agree: the same error, or graphs that
      differ only in self-loops. */
  ghost predicate SameOutcome(r: Result<Graph>, s: Result<Graph>) {
    && (r.Failure? <==> s.Failure?)
    && (r.Failure? ==> r == s)
    && (r.Success? ==> SameUpToLoops(r.value, s.value))
  }

  lemma {:induction false} AddConflictsSameUpToLoops(g: Graph, h: Graph, conflicts: seq<IdPair>)
    requires Valid(g) && Symmetric(g) && Valid(h) && Symmetric(h)
    requires SameUpToLoops(g, h)
    ensures SameOutcome(AddConflicts(g, conflicts), AddConflicts(h, conflicts))
    decreases |conflicts|
  {
    if conflicts != [] {
      var (a, b) := conflicts[0];
      if a in g.adj && b in g.adj {
        AddEdgeSameUpToLoops(g, h, a, b);
        AddConflictsSameUpToLoops(AddEdge(g, a, b), AddEdge(h, a, b), conflicts[1..]);
      }
    }
  }

  /** Inserting a self-pair `(a, a)` for a known `a` anywhere in the
      conflict list leaves the outcome of building the graph unchanged. */
  lemma {:induction false} SelfPairDropped(g: Graph, before: seq<IdPair>, after: seq<IdPair>, a: Id)
    requires Valid(g) && Symmetric(g)
    requires a in g.adj
    ensures SameOutcome(AddConflicts(g, before + [(a, a)] + after), AddConflicts(g, before + after))
    decreases |before|
  {
    if before == [] {
      var l := [(a, a)] + after;
      assert before + [(a, a)] + after == l && before + after == after;
      assert l[0] == (a, a) && l[1..] == after;
      assert AddConflicts(g, l) == AddConflicts(AddEdge(g, a, a), after);
      AddSelfLoopSameUpToLoops(g, a);
      AddConflictsSameUpToLoops(AddEdge(g, a, a), g, after);
    } else {
      var (x, y) := before[0];
      var l, r := before + [(a, a)] + after, before + after;
      assert l[0] == (x, y) && r[0] == (x, y);
      assert l[1..] == before[1..] + [(a, a)] + after;
      assert r[1..] == before[1..] + after;
      if x in g.adj && y in g.adj {
        SelfPairDropped(AddEdge(g, x, y), before[1..], after, a);
        assert AddConflicts(g, l) == AddConflicts(AddEdge(g, x, y), l[1..]);
        assert AddConflicts(g, r) == AddConflicts(AddEdge(g, x, y), r[1..]);
      } else {
        assert AddConflicts(g, l) == AddConflicts(g, r);
      }
    }
  }

  /** Lines 19-20 and 32: a self-pair `[a, a]` for a meeting id `a` does not
      change the result, wherever it appears among the conflicts. */
  lemma SelfPairIgnored(meetings: seq<Meeting>, before: seq<IdPair>, after: seq<IdPair>, a: Id)
    requires a in MeetingIds(meetings)
    ensures BuildConflictClusters(meetings, before + [(a, a)] + after) == BuildConflictClusters(meetings, before + after)
  {
    var g0 := InitNodes(Empty(), MeetingIds(meetings));
    SelfPairDropped(g0, before, after, a);
    var r := ConflictGraph(meetings, before + [(a, a)] + after);
    var s := ConflictGraph(meetings, before + after);
    if r.Success? {
      ComponentsSameUpToLoops(r.value, s.value, MeetingIds(meetings), {});
      assert IdClusters(meetings, r.value) == IdClusters(meetings, s.value);
    }
  }
}
