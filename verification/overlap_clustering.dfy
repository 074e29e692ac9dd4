/** `buildConflictClusters(overlaps)` and `createConflictMap(clusters)` of
    src/utils/clustering.js: the second pipeline groups the ids of the
    overlap records whose flag is set into connected components, and indexes
    every id by its cluster. */
module OverlapClustering {
  import opened Seqs
  import opened Graphs
  import opened Paths
  import opened Dfs
  import opened Chains
  import opened OverlapCheck
  import opened Pairs
  import opened ScanOverlaps

  /** Line 8: the records whose `overlaps` flag is set, in order. */
  function ActualOverlaps(overlaps: seq<OverlapRecord>): (r: seq<OverlapRecord>)
    ensures forall rec :: rec in r <==> rec in overlaps && rec.overlaps
  {
    if overlaps == [] then []
    else (if overlaps[0].overlaps then [overlaps[0]] else []) + ActualOverlaps(overlaps[1..])
  }

  /** The filter keeps order: a single record stays exactly when flagged,
      and the filter distributes over concatenation. */
  lemma {:induction false} ActualOverlapsConcat(a: seq<OverlapRecord>, b: seq<OverlapRecord>)
    ensures forall rec :: ActualOverlaps([rec]) == if rec.overlaps then [rec] else []
    ensures ActualOverlaps(a + b) == ActualOverlaps(a) + ActualOverlaps(b)
    decreases |a|
  {
    forall rec
      ensures ActualOverlaps([rec]) == if rec.overlaps then [rec] else []
    {
      assert [rec][1..] == [];
    }
    if a == [] {
      assert a + b == b;
    } else {
      assert (a + b)[0] == a[0] && (a + b)[1..] == a[1..] + b;
      ActualOverlapsConcat(a[1..], b);
    }
  }

  /** The id pair of each record. */
  function IdPairs(records: seq<OverlapRecord>): (r: seq<(Id, Id)>)
    ensures |r| == |records|
    ensures forall k :: 0 <= k < |r| ==> r[k] == (records[k].meetingId0, records[k].meetingId1)
  {
    seq(|records|, k requires 0 <= k < |records| => (records[k].meetingId0, records[k].meetingId1))
  }

  /** `id` is named by one of the records. */
  ghost predicate Mentioned(records: seq<OverlapRecord>, id: Id) {
    exists rec :: rec in records && (id == rec.meetingId0 || id == rec.meetingId1)
  }

  /** The ids the records name, in the order lines 18-19 read them. */
  function Endpoints(records: seq<OverlapRecord>): (ids: seq<Id>)
    ensures forall id :: id in ids <==> Mentioned(records, id)
  {
    if records == [] then []
    else
      var rest := Endpoints(records[1..]);
      assert forall rec :: rec in records <==> rec == records[0] || rec in records[1..];
      [records[0].meetingId0, records[0].meetingId1] + rest
  }

  /** `Set.prototype.add` for each of `ids` in turn. */
  function InsertAll(s: seq<Id>, ids: seq<Id>): (r: seq<Id>)
    ensures NoDup(s) ==> NoDup(r)
    ensures Elems(r) == Elems(s) + Elems(ids)
    decreases |ids|
  {
    if ids == [] then s else InsertAll(Insert(s, ids[0]), ids[1..])
  }

  /** Lines 18-29 for one record: `graph.set` for an id not yet a node
      (first `meetingId0`, then `meetingId1`), then the edge both ways. */
  function AddRecord(g: Graph, rec: OverlapRecord): (g': Graph)
    requires Valid(g) && Symmetric(g)
    ensures Valid(g') && Symmetric(g')
    ensures forall u :: u in g'.adj <==> u in g.adj || u == rec.meetingId0 || u == rec.meetingId1
    ensures forall x, y :: x in g'.adj && y in g'.adj[x] <==>
      (x in g.adj && y in g.adj[x]) || (x == rec.meetingId0 && y == rec.meetingId1) || (x == rec.meetingId1 && y == rec.meetingId0)
    ensures g'.nodes == Insert(Insert(g.nodes, rec.meetingId0), rec.meetingId1)
  {
    var a, b := rec.meetingId0, rec.meetingId1;
    var g0 := AddNode(g, a);
    assert g0.nodes == Insert(g.nodes, a);
    var g1 := AddNode(g0, b);
    assert g1.nodes == Insert(g0.nodes, b);
    var g2 := AddEdge(g1, a, b);
    g2
  }

  /** Lines 17-30: the records folded into the graph in order. */
  function AddRecords(g: Graph, records: seq<OverlapRecord>): (g': Graph)
    requires Valid(g) && Symmetric(g)
    ensures Valid(g') && Symmetric(g')
    ensures g'.nodes == InsertAll(g.nodes, Endpoints(records))
    decreases |records|
  {
    if records == [] then g
    else
      var a, b := records[0].meetingId0, records[0].meetingId1;
      var rest := Endpoints(records[1..]);
      EndpointsStep(records);
      assert InsertAll(g.nodes, [a, b] + rest) == InsertAll(Insert(g.nodes, a), [b] + rest) by {
        assert ([a, b] + rest)[1..] == [b] + rest;
      }
      assert InsertAll(Insert(g.nodes, a), [b] + rest) == InsertAll(Insert(Insert(g.nodes, a), b), rest) by {
        assert ([b] + rest)[1..] == rest;
      }
      AddRecords(AddRecord(g, records[0]), records[1..])
  }

  /** The folded graph's nodes: the old ones and every id a record names. */
  lemma {:induction false} AddRecordsKeys(g: Graph, records: seq<OverlapRecord>, u: Id)
    requires Valid(g) && Symmetric(g)
    ensures u in AddRecords(g, records).adj <==> u in g.adj || Mentioned(records, u)
    decreases |records|
  {
    if records != [] {
      MentionStep(records, u);
      AddRecordsKeys(AddRecord(g, records[0]), records[1..], u);
    }
  }

  /** The folded graph's edges: the old ones and one each way per record. */
  lemma {:induction false} AddRecordsEdges(g: Graph, records: seq<OverlapRecord>, x: Id, y: Id)
    requires Valid(g) && Symmetric(g)
    ensures x in AddRecords(g, records).adj && y in AddRecords(g, records).adj[x] <==>
      (x in g.adj && y in g.adj[x]) || Edge(IdPairs(records), x, y)
    decreases |records|
  {
    if records == [] {
      assert IdPairs(records) == [];
    } else {
      EdgeStep(records, x, y);
      AddRecordsEdges(AddRecord(g, records[0]), records[1..], x, y);
    }
  }

  lemma EndpointsStep(records: seq<OverlapRecord>)
    requires records != []
    ensures Endpoints(records) == [records[0].meetingId0, records[0].meetingId1] + Endpoints(records[1..])
  {
  }

  lemma MentionStep(records: seq<OverlapRecord>, u: Id)
    requires records != []
    ensures Mentioned(records, u) <==>
      u == records[0].meetingId0 || u == records[0].meetingId1 || Mentioned(records[1..], u)
  {
    assert forall x :: x in records <==> x == records[0] || x in records[1..];
  }

  lemma EdgeStep(records: seq<OverlapRecord>, x: Id, y: Id)
    requires records != []
    ensures Edge(IdPairs(records), x, y) <==>
      (x == records[0].meetingId0 && y == records[0].meetingId1) || (x == records[0].meetingId1 && y == records[0].meetingId0)
      || Edge(IdPairs(records[1..]), x, y)
  {
    assert IdPairs(records) == [(records[0].meetingId0, records[0].meetingId1)] + IdPairs(records[1..]);
  }

  /** The graph lines 15-30 build from the records kept on line 8. */
  function OverlapGraph(overlaps: seq<OverlapRecord>): (g: Graph)
    ensures Valid(g) && Symmetric(g)
    ensures g.nodes == InsertAll([], Endpoints(ActualOverlaps(overlaps)))
  {
    AddRecords(Empty(), ActualOverlaps(overlaps))
  }

  /** The graph's nodes are the ids the flagged records name. */
  lemma OverlapGraphKeys(overlaps: seq<OverlapRecord>, u: Id)
    ensures u in OverlapGraph(overlaps).adj <==> Mentioned(ActualOverlaps(overlaps), u)
  {
    AddRecordsKeys(Empty(), ActualOverlaps(overlaps), u);
  }

  /** The graph's edges are the flagged records' pairs, both ways. */
  lemma OverlapGraphEdges(overlaps: seq<OverlapRecord>, x: Id, y: Id)
    ensures x in OverlapGraph(overlaps).adj && y in OverlapGraph(overlaps).adj[x] <==>
      Edge(IdPairs(ActualOverlaps(overlaps)), x, y)
  {
    AddRecordsEdges(Empty(), ActualOverlaps(overlaps), x, y);
  }

  /** Lines 6-60. With no record flagged the result is empty; otherwise a
      search from each node not yet visited, in node insertion order. Every
      id named by a flagged record is in exactly one cluster, once, and no
      other id appears. */
  function BuildConflictClusters(overlaps: seq<OverlapRecord>): (cs: seq<seq<Id>>)
    ensures NoDup(Flatten(cs))
    ensures forall id :: id in Flatten(cs) <==> Mentioned(ActualOverlaps(overlaps), id)
    ensures forall k :: 0 <= k < |cs| ==> |cs[k]| > 0
  {
    ClustersOf(ActualOverlaps(overlaps))
  }

  /** Lines 10-59, on the records line 8 kept. */
  function ClustersOf(actual: seq<OverlapRecord>): (cs: seq<seq<Id>>)
    ensures NoDup(Flatten(cs))
    ensures forall id :: id in Flatten(cs) <==> Mentioned(actual, id)
    ensures forall k :: 0 <= k < |cs| ==> |cs[k]| > 0
  {
    if |actual| == 0 then []
    else
      var g := AddRecords(Empty(), actual);
      var cs := Components(g, g.nodes, {});
      assert forall id :: id in Flatten(cs) <==> id in g.adj;
      assert forall id :: id in g.adj <==> Mentioned(actual, id) by {
        forall id ensures id in g.adj <==> Mentioned(actual, id) {
          AddRecordsKeys(Empty(), actual, id);
        }
      }
      cs
  }

  /** The ids the flagged records name, in reading order. */
  function Mentions(overlaps: seq<OverlapRecord>): seq<Id> {
    Endpoints(ActualOverlaps(overlaps))
  }

  /** The id pairs of the flagged records. */
  function FlaggedPairs(overlaps: seq<OverlapRecord>): seq<(Id, Id)> {
    IdPairs(ActualOverlaps(overlaps))
  }

  /** Lines 10-12: the result is empty exactly when no record is flagged. */
  lemma NoClustersIffNoOverlap(overlaps: seq<OverlapRecord>)
    ensures BuildConflictClusters(overlaps) == [] <==> forall rec :: rec in overlaps ==> !rec.overlaps
  {
    var actual := ActualOverlaps(overlaps);
    if actual != [] {
      var rec := actual[0];
      assert rec in actual;
      assert Mentioned(actual, rec.meetingId0);
      assert rec.meetingId0 in Flatten(BuildConflictClusters(overlaps));
    }
  }

  /** A record whose flag is clear has no effect, wherever it appears. */
  lemma UnflaggedRecordIgnored(before: seq<OverlapRecord>, rec: OverlapRecord, after: seq<OverlapRecord>)
    requires !rec.overlaps
    ensures BuildConflictClusters(before + [rec] + after) == BuildConflictClusters(before + after)
  {
    ActualOverlapsConcat(before + [rec], after);
    ActualOverlapsConcat(before, [rec]);
    ActualOverlapsConcat(before, after);
    assert ActualOverlaps([rec]) == [];
    assert ActualOverlaps(before + [rec]) == ActualOverlaps(before);
  }

  /** The graph of a non-empty flagged list, with the facts the search
      lemmas need. */
  lemma GraphView(overlaps: seq<OverlapRecord>) returns (g: Graph)
    requires ActualOverlaps(overlaps) != []
    ensures g == OverlapGraph(overlaps)
    ensures Valid(g) && Symmetric(g)
    ensures BuildConflictClusters(overlaps) == Components(g, g.nodes, {})
    ensures forall a, b :: a in g.adj && b in g.adj[a] <==> Edge(FlaggedPairs(overlaps), a, b)
  {
    g := OverlapGraph(overlaps);
    forall a, b ensures a in g.adj && b in g.adj[a] <==> Edge(FlaggedPairs(overlaps), a, b) {
      OverlapGraphEdges(overlaps, a, b);
    }
  }

  /** Two ids share a cluster exactly when a chain of flagged records joins
      them: the clusters are the connected components of the overlap
      relation. */
  lemma ClustersAreComponents(overlaps: seq<OverlapRecord>, k: nat, x: Id, y: Id)
    requires k < |BuildConflictClusters(overlaps)| && x in BuildConflictClusters(overlaps)[k]
    ensures y in BuildConflictClusters(overlaps)[k] <==> Linked(FlaggedPairs(overlaps), x, y)
  {
    var g := GraphView(overlaps);
    ComponentsExact(g, g.nodes, {}, k, x, y);
    ClusterMembers(g, g.nodes, {}, k, x);
    ConnectedIffLinked(g, FlaggedPairs(overlaps), x, y);
  }

  /** The two ids of a flagged record land in the same cluster. */
  lemma FlaggedPairShareCluster(overlaps: seq<OverlapRecord>, rec: OverlapRecord) returns (k: nat)
    requires rec in overlaps && rec.overlaps
    ensures k < |BuildConflictClusters(overlaps)|
    ensures rec.meetingId0 in BuildConflictClusters(overlaps)[k]
    ensures rec.meetingId1 in BuildConflictClusters(overlaps)[k]
  {
    var cs := BuildConflictClusters(overlaps);
    var actual := ActualOverlaps(overlaps);
    assert rec in actual;
    assert Mentioned(actual, rec.meetingId0);
    FlattenMember(cs, rec.meetingId0);
    var l :| 0 <= l < |cs| && rec.meetingId0 in cs[l];
    k := l;
    var i :| 0 <= i < |actual| && actual[i] == rec;
    assert FlaggedPairs(overlaps)[i] == (rec.meetingId0, rec.meetingId1);
    assert Edge(FlaggedPairs(overlaps), rec.meetingId0, rec.meetingId1);
    LinkedByPair(FlaggedPairs(overlaps), rec.meetingId0, rec.meetingId1);
    ClustersAreComponents(overlaps, k, rec.meetingId0, rec.meetingId1);
  }

  /** Adding ids one at a time to a set keeps them in the order of their
      first occurrence: two ids compare in the result as they first appear
      in `s + ids`. */
  lemma {:induction false} InsertAllOrder(s: seq<Id>, ids: seq<Id>, x: Id, y: Id)
    requires NoDup(s)
    requires x in s + ids && y in s + ids
    ensures x in InsertAll(s, ids) && y in InsertAll(s, ids)
    ensures IndexOf(InsertAll(s, ids), x) < IndexOf(InsertAll(s, ids), y) <==>
      IndexOf(s + ids, x) < IndexOf(s + ids, y)
    decreases |ids|
  {
    if ids == [] {
      assert s + ids == s;
    } else {
      var t := Insert(s, ids[0]);
      var rest := ids[1..];
      InsertStep(s, ids, x, y);
      InsertAllOrder(t, rest, x, y);
    }
  }

  /** One `add` of the fold, seen from the order of first occurrences. */
  lemma InsertStep(s: seq<Id>, ids: seq<Id>, x: Id, y: Id)
    requires ids != []
    requires x in s + ids && y in s + ids
    ensures InsertAll(s, ids) == InsertAll(Insert(s, ids[0]), ids[1..])
    ensures x in Insert(s, ids[0]) + ids[1..] && y in Insert(s, ids[0]) + ids[1..]
    ensures IndexOf(Insert(s, ids[0]) + ids[1..], x) < IndexOf(Insert(s, ids[0]) + ids[1..], y) <==>
      IndexOf(s + ids, x) < IndexOf(s + ids, y)
  {
    var rest := ids[1..];
    assert s + ids == (s + [ids[0]]) + rest;
    if ids[0] in s {
      ShiftedOrder(s, ids[0], rest, x, y);
    }
  }

  /** Repeating an id of `s` right after it moves no first occurrence out
      of order. */
  lemma ShiftedOrder(s: seq<Id>, v: Id, rest: seq<Id>, x: Id, y: Id)
    requires v in s
    requires x in s + rest && y in s + rest
    ensures IndexOf(s + rest, x) < IndexOf(s + rest, y) <==>
      IndexOf((s + [v]) + rest, x) < IndexOf((s + [v]) + rest, y)
  {
    assert (s + [v]) + rest == s + ([v] + rest);
    IndexOfPosition(s, v, rest, x);
    IndexOfPosition(s, v, rest, y);
  }

  lemma IndexOfPosition(s: seq<Id>, v: Id, rest: seq<Id>, x: Id)
    requires v in s
    requires x in s + rest
    ensures x in s ==> IndexOf(s + rest, x) == IndexOf(s + ([v] + rest), x) < |s|
    ensures x !in s ==> IndexOf(s + rest, x) + 1 == IndexOf(s + ([v] + rest), x)
    ensures x !in s ==> IndexOf(s + rest, x) >= |s|
  {
    IndexOfConcat(s, rest, x);
    IndexOfConcat(s, [v] + rest, x);
    if x !in s {
      IndexOfConcat([v], rest, x);
    }
  }

  /** The order `graph.forEach` visits the nodes: two mentioned ids compare
      as their first mentions in the flagged records do. */
  lemma NodeOrder(overlaps: seq<OverlapRecord>, x: Id, y: Id)
    requires x in Mentions(overlaps) && y in Mentions(overlaps)
    ensures x in OverlapGraph(overlaps).nodes && y in OverlapGraph(overlaps).nodes
    ensures IndexOf(OverlapGraph(overlaps).nodes, x) < IndexOf(OverlapGraph(overlaps).nodes, y) <==>
      IndexOf(Mentions(overlaps), x) < IndexOf(Mentions(overlaps), y)
  {
    var e := Mentions(overlaps);
    assert [] + e == e;
    InsertAllOrder([], e, x, y);
  }

  /** Lines 51-57: each cluster begins with the member mentioned first in
      the flagged records. */
  lemma ClusterLedByFirstMention(overlaps: seq<OverlapRecord>, k: nat, x: Id)
    requires k < |BuildConflictClusters(overlaps)| && x in BuildConflictClusters(overlaps)[k]
    ensures BuildConflictClusters(overlaps)[k][0] in Mentions(overlaps) && x in Mentions(overlaps)
    ensures IndexOf(Mentions(overlaps), BuildConflictClusters(overlaps)[k][0]) <= IndexOf(Mentions(overlaps), x)
  {
    var cs := BuildConflictClusters(overlaps);
    var g := GraphView(overlaps);
    ComponentsSeedOrder(g, g.nodes, {});
    var lead := cs[k][0];
    assert lead in cs[k];
    FlattenMember(cs, lead);
    FlattenMember(cs, x);
    assert x in g.nodes;
    NodeOrder(overlaps, x, lead);
  }

  /** Lines 51-57: clusters come out in the order their leading members are
      first mentioned. */
  lemma ClustersInMentionOrder(overlaps: seq<OverlapRecord>, k: nat, l: nat)
    requires k < l < |BuildConflictClusters(overlaps)|
    ensures BuildConflictClusters(overlaps)[k][0] in Mentions(overlaps)
    ensures BuildConflictClusters(overlaps)[l][0] in Mentions(overlaps)
    ensures IndexOf(Mentions(overlaps), BuildConflictClusters(overlaps)[k][0]) <
            IndexOf(Mentions(overlaps), BuildConflictClusters(overlaps)[l][0])
  {
    var cs := BuildConflictClusters(overlaps);
    var g := GraphView(overlaps);
    ComponentsSeedOrder(g, g.nodes, {});
    assert cs[k][0] in cs[k] && cs[l][0] in cs[l];
    FlattenMember(cs, cs[k][0]);
    FlattenMember(cs, cs[l][0]);
    NodeOrder(overlaps, cs[k][0], cs[l][0]);
  }

  /** Lines 71-73 for one cluster: every member is mapped to `index`,
      overwriting an earlier entry. */
  function AssignCluster(m: map<Id, nat>, cluster: seq<Id>, index: nat): (r: map<Id, nat>)
    ensures forall id :: id in r <==> id in m || id in cluster
    ensures forall id :: id in cluster ==> r[id] == index
    ensures forall id :: id in m && id !in cluster ==> r[id] == m[id]
    decreases |cluster|
  {
    if cluster == [] then m else AssignCluster(m[cluster[0] := index], cluster[1..], index)
  }

  /** `id` belongs to one of the clusters from position `i` on. */
  ghost predicate InClusterFrom(clusters: seq<seq<Id>>, i: nat, id: Id) {
    exists l :: i <= l < |clusters| && id in clusters[l]
  }

  /** Lines 70-74 from cluster `i` on, starting from the entries in `m`.
      Every id ends up at the LAST cluster that holds it. */
  function MapFrom(clusters: seq<seq<Id>>, i: nat, m: map<Id, nat>): (r: map<Id, nat>)
    requires i <= |clusters|
    ensures forall id :: id in r <==> id in m || InClusterFrom(clusters, i, id)
    ensures forall id :: InClusterFrom(clusters, i, id) ==>
      && i <= r[id] < |clusters| && id in clusters[r[id]]
      && forall l :: r[id] < l < |clusters| ==> id !in clusters[l]
    ensures forall id :: id in m && !InClusterFrom(clusters, i, id) ==> r[id] == m[id]
    decreases |clusters| - i
  {
    if i == |clusters| then m
    else
      var r := MapFrom(clusters, i + 1, AssignCluster(m, clusters[i], i));
      assert forall id :: InClusterFrom(clusters, i, id) <==> id in clusters[i] || InClusterFrom(clusters, i + 1, id);
      r
  }

  /** Lines 67-77: a map from every clustered id to the index of the last
      cluster holding it. */
  function CreateConflictMap(clusters: seq<seq<Id>>): (r: map<Id, nat>)
    ensures forall id :: id in r <==> exists k :: 0 <= k < |clusters| && id in clusters[k]
    ensures forall id :: id in r ==>
      && r[id] < |clusters| && id in clusters[r[id]]
      && forall l :: r[id] < l < |clusters| ==> id !in clusters[l]
    ensures clusters == [] ==> |r| == 0
  {
    MapFrom(clusters, 0, map[])
  }

  /** The two-cluster map of the module's tests: ids of the first cluster
      map to 0, those of the second to 1. */
  lemma TwoClusterMap()
    ensures var r := CreateConflictMap([["1", "2", "3"], ["4", "5"]]);
      && r.Keys == {"1", "2", "3", "4", "5"}
      && r["1"] == 0 && r["2"] == 0 && r["3"] == 0 && r["4"] == 1 && r["5"] == 1
  {
    var cs := [["1", "2", "3"], ["4", "5"]];
    assert Flatten(cs) == ["1", "2", "3", "4", "5"];
    forall id | id in cs[0] ensures id in CreateConflictMap(cs) && CreateConflictMap(cs)[id] == 0 {
      ConflictMapOfDisjoint(cs, 0, id);
    }
  }

  /** With disjoint clusters, as `BuildConflictClusters` makes them, an
      id maps to `k` exactly when cluster `k` holds it. */
  lemma ConflictMapOfDisjoint(clusters: seq<seq<Id>>, k: nat, id: Id)
    requires NoDup(Flatten(clusters))
    requires k < |clusters|
    ensures id in clusters[k] <==> id in CreateConflictMap(clusters) && CreateConflictMap(clusters)[id] == k
  {
    NoDupFlatten(clusters);
  }

  /** The map built from this pipeline's clusters: an id is a key exactly
      when a flagged record names it, and two keys share an index exactly
      when a chain of flagged records joins them. */
  lemma ConflictMapSameIndexIffLinked(overlaps: seq<OverlapRecord>, x: Id, y: Id)
    requires x in CreateConflictMap(BuildConflictClusters(overlaps))
    requires y in CreateConflictMap(BuildConflictClusters(overlaps))
    ensures CreateConflictMap(BuildConflictClusters(overlaps))[x] == CreateConflictMap(BuildConflictClusters(overlaps))[y]
      <==> Linked(FlaggedPairs(overlaps), x, y)
  {
    var cs := BuildConflictClusters(overlaps);
    var r := CreateConflictMap(cs);
    var k := r[x];
    ConflictMapOfDisjoint(cs, k, x);
    ConflictMapOfDisjoint(cs, k, y);
    ClustersAreComponents(overlaps, k, x, y);
  }

  /** The keys of the map built from this pipeline's clusters are the ids
      the flagged records name. */
  lemma ConflictMapKeys(overlaps: seq<OverlapRecord>, id: Id)
    ensures id in CreateConflictMap(BuildConflictClusters(overlaps)) <==> Mentioned(ActualOverlaps(overlaps), id)
  {
    FlattenMember(BuildConflictClusters(overlaps), id);
  }

  /** Scanning then clustering: two meetings on the same date that share an
      instant end up in one cluster. */
  lemma ScannedOverlapsShareCluster(ms: seq<Meeting>, i: nat, j: nat) returns (k: nat)
    requires i < j < |ms|
    requires ms[i].date == ms[j].date && ShareInstant(ms[i], ms[j])
    ensures k < |BuildConflictClusters(Records(ms, AllPairs(|ms|)))|
    ensures ms[i].id in BuildConflictClusters(Records(ms, AllPairs(|ms|)))[k]
    ensures ms[j].id in BuildConflictClusters(Records(ms, AllPairs(|ms|)))[k]
  {
    var ps := AllPairs(|ms|);
    var records := Records(ms, ps);
    assert (i, j) in ps;
    var l :| 0 <= l < |ps| && ps[l] == (i, j);
    var rec := records[l];
    assert rec == CheckOverlap(ms[i], ms[j]);
    assert rec in records;
    k := FlaggedPairShareCluster(records, rec);
  }
}
