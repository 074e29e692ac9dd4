# Chronos-Flow conflict detection, modelled in Dafny

Chronos-Flow is a meeting scheduler. Its core finds meetings whose time
ranges overlap and groups them into conflict clusters, which are the
connected components of the overlap relation. The repository holds two
independent pipelines for this, and the model keeps them apart as written:

- **Pipeline A** has two operations, the first in two copies:
  - `detectPairwiseIntersections`, in two nearly identical copies (`core-logic/intersection.js` and `intersection.js`). It turns a list of `{id, start, end}` meetings into `[idA, idB]` conflict pairs.
  - `buildConflictClusters(meetings, conflicts)` of the root `clustering.js`. It turns meetings plus pairs into clusters of meeting records.
- **Pipeline B** has four parts:
  - `checkOverlap` compares two dated meetings `{id, date, startTime, endTime}` and produces an overlap record `{meetingId0, meetingId1, overlaps}`.
  - `scanMeetingsForOverlaps` produces one such record per pair of meetings.
  - `buildConflictClusters(overlaps)` of `src/utils/clustering.js` turns the flagged records into clusters of ids.
  - `createConflictMap` indexes every id by its cluster.
- **`sortMeetingsByStartTime`** is a bubble sort on a copy of the meeting list.

Modules, in dependency order:

| module | file | role |
|---|---|---|
| `Seqs` | seqs.dfy | duplicate-free sequences, flattening, first index |
| `Graphs` | graphs.dfy | the `Map<id, Set<id>>` graph. JavaScript `Map` and `Set` iterate in insertion order, so keys and neighbour sets are duplicate-free sequences |
| `Paths` | paths.dfy | walks and connectivity, the reference notion |
| `Chains` | chains.dfy | chains of conflict pairs, and their equivalence with graph connectivity |
| `Dfs` | dfs.dfy | the recursive `dfs` and the outer "search from every unvisited node" loop. The two clustering files share it |
| `Pairs` | pairs.dfy | the `i < j` index pairs both nested scans visit |
| `CoreIntersection` | core_intersection.dfy | Pipeline A's overlap test and `detectPairwiseIntersections` as a function |
| `Intersection` | intersection.dfy | the root copy as an imperative loop method |
| `Clustering` | clustering.dfy | Pipeline A's clustering |
| `OverlapCheck` | overlap_check.dfy | `checkOverlap` |
| `ScanOverlaps` | scan_overlaps.dfy | `scanMeetingsForOverlaps` |
| `OverlapClustering` | overlap_clustering.dfy | Pipeline B's clustering and `createConflictMap` |
| `SortMeetings` | sort.dfy | `sortMeetingsByStartTime` |

Notes on the modelling:

- **Times and dates** are integers. JavaScript arrays and objects become immutable sequences and datatypes.
- **The depth-first search** is a pair of mutually recursive functions. They terminate because the set of unvisited nodes shrinks; no fuel bound is used.
- **Unknown endpoints.** In `clustering.js`, a conflict pair naming an id that no meeting carries makes `graph.get(id)` undefined, and the next `.add` throws a `TypeError`. The model returns `Failure(UnknownMeeting(id))` for the first such endpoint.
- **Where the code differs from the intended contract, the model follows the code:**
  - No duplicate-id check exists anywhere. With repeated ids the clusters hold the first record with each id, so the partition property is stated for distinct ids only.
  - Neither pipeline validates that a meeting ends after it starts.
  - A self-pair `[a, a]` is not discarded. `a` is added to its own neighbour set, and the model proves this leaves the clusters unchanged.
  - `createConflictMap` does not require disjoint clusters. An id in several clusters maps to the last of them.

## Model

| member | source | states |
|---|---|---|
| CoreIntersection.Overlap | core-logic/intersection.js:16 | Definition, no contract: `a.start < b.end && b.start < a.end`. Its meaning is stated by CoreIntersection.OverlapMeansSharedInstant. |
| CoreIntersection.OverlapMeansSharedInstant | core-logic/intersection.js:16 | A common instant in both half-open ranges makes the test succeed. For meetings that end after they start, the test succeeds only then. |
| CoreIntersection.ConflictIndices | core-logic/intersection.js:10-20 | Reference answer: exactly the positions `i < j < n` whose meetings overlap, in strictly increasing lexicographic order. |
| CoreIntersection.ScanRow | core-logic/intersection.js:11-19 | Definition, no contract: the inner `j` loop for a fixed `i`. CoreIntersection.ScanRowIsFilteredRow relates it to the reference answer. |
| CoreIntersection.ScanFrom | core-logic/intersection.js:10-20 | Definition, no contract: the outer `i` loop. CoreIntersection.ScanFromIsFilteredRows relates it to the reference answer. |
| CoreIntersection.ScanRowIsFilteredRow | core-logic/intersection.js:11-19 | The inner loop from `j` pushes the ids of exactly the overlapping pairs `(i, j')` with `j <= j' < n`, in order. |
| CoreIntersection.ScanFromIsFilteredRows | core-logic/intersection.js:10-20 | The outer loop from `i` pushes the ids of exactly the overlapping pairs of rows `i` onwards, in lexicographic order. |
| CoreIntersection.DetectPairwiseIntersections | core-logic/intersection.js:6-23 | The result is the id image of the overlapping positions, in `(i, j)` order. An id pair is reported iff two meetings `i < j` with those ids overlap. At most n(n-1)/2 pairs are reported. |
| CoreIntersection.ReportedIff | core-logic/intersection.js:16-17 | Both directions of "reported iff some `i < j` overlap with these ids". |
| CoreIntersection.DetectedPositions | core-logic/intersection.js:10-20 | The k-th reported pair carries the ids of the k-th overlapping position pair, with `p.0 < p.1 < n`. Every overlapping pair of positions is reported. |
| CoreIntersection.NoPairsBelowTwo | tests/intersection.test.js:25-28 | Empty and single-meeting inputs give `[]`. |
| CoreIntersection.TouchingNeverPaired | core-logic/intersection.js:16 | With distinct ids, two meetings where one ends exactly when the other starts are never reported. |
| CoreIntersection.NoSelfPairs | core-logic/intersection.js:10-11 | With distinct ids, no reported pair names the same id twice, because `j` starts at `i + 1`. |
| CoreIntersection.ThreeMeetingExample | tests/intersection.test.js:5-15 | m1[900,1030], m2[1000,1100], m3[1130,1230] give exactly `[(m1, m2)]`. |
| CoreIntersection.FourMeetingExample | core-logic/intersection.js:25-33 | Adding m4[945,1115] gives `[(m1, m2), (m1, m4), (m2, m4)]`, in scan order. |
| CoreIntersection.DisjointExample | tests/intersection.test.js:17-23 | Two meetings an hour apart give `[]`. |
| Pairs.AllPairs | core-logic/intersection.js:10-11 | The scanned index pairs are exactly those with `i < j < n`. |
| Pairs.AllPairsSorted | core-logic/intersection.js:10-11 | The pairs are visited in strictly increasing lexicographic order, so none twice. |
| Pairs.AllPairsLength | src/utils/scanMeetingsForOverlaps.js:13-14 | There are exactly n(n-1)/2 pairs `i < j`. |
| Intersection.DetectPairwiseIntersections | intersection.js:7-24 | The nested loops compute what the core-logic copy computes. Each pushed pair is `[meetings[i].id, meetings[j].id]` for overlapping `i < j`, in `(i, j)` order. Every overlapping pair is pushed. |
| Graphs.Empty | clustering.js:10 | `new Map()`: a well-formed, symmetric graph with no nodes. |
| Graphs.AddArc | clustering.js:19 | `graph.get(a).add(b)` for two existing nodes keeps the graph well-formed, keeps its nodes in order, and adds exactly the arc `a→b`. |
| Graphs.Insert | src/utils/clustering.js:28-29 | `Set.add`: the members become the old ones plus `v`, and duplicates stay out. |
| Graphs.AddNode | clustering.js:14 | `graph.set(id, new Set())` adds `id` as a node with no neighbours. Existing nodes and their neighbours are kept. |
| Graphs.AddEdge | clustering.js:19-20 | Adding an edge keeps the graph well-formed and symmetric. Exactly the arcs `a→b` and `b→a` are added. |
| Chains.ConnectedIffLinked | clustering.js:18-21 | In a graph whose arcs are exactly the pairs taken both ways, graph connectivity is the same as being joined by a chain of conflict pairs. |
| Dfs.Visit | clustering.js:27-36 | `dfs(u)` pushes `u` first, then only nodes not visited before, each once. The pushed set is closed under unvisited neighbours and forms a search tree rooted at `u`. |
| Dfs.VisitAll | clustering.js:31-35 | The neighbour loop: every neighbour ends up visited. The ids pushed are fresh and duplicate-free. |
| Dfs.Components | clustering.js:38-51 | The outer loop: every seed ends up in some cluster. No id is in two clusters. Each cluster is non-empty and starts with a seed. |
| Dfs.ComponentsExact | clustering.js:27-51 | A cluster holding `x` holds exactly the nodes connected to `x`. |
| Dfs.ComponentsSeedOrder | clustering.js:39-51 | Each cluster's first id is, among its members, the one listed first among the seeds. Clusters appear in increasing order of their first ids' seed positions. |
| Dfs.ComponentsNoEdges | clustering.js:27-51 | In a graph with no edges, each unvisited, non-repeated seed is a singleton cluster, in seed order. |
| Dfs.PreOrderExample | clustering.js:27-36 | On a:[b,c], b:[a,d], c:[a], d:[b], the search from `a` records `a, b, d, c`: the whole subtree below `b` comes before `c`, the order of the recursive calls. |
| Clustering.InitNodes | clustering.js:12-15 | The nodes are exactly the meeting ids, with empty neighbour sets. |
| Clustering.AddConflicts | clustering.js:17-21 | Succeeds iff every pair's ids are nodes. A failure names a missing endpoint of some pair. On success the new arcs are exactly the pairs, both ways, and the nodes are unchanged. |
| Clustering.ConflictGraph | clustering.js:9-21 | The graph has one node per meeting id and an arc each way per conflict pair. It fails iff some pair names an id no meeting carries. |
| Clustering.FindMeeting | clustering.js:46 | `meetings.find` returns the first meeting with the id. |
| Clustering.ToRecords | clustering.js:45-47 | Ids are mapped back to records whose ids are those ids, each the first meeting carrying it. |
| Clustering.IdClusters | clustering.js:39-43 | The searches started from each unvisited meeting, in meeting order. Every id in a cluster is a meeting id. |
| Clustering.MeetingClusters | clustering.js:39-51 | One record list per id cluster, with the same ids in the same order. Each list is non-empty, and each record is the caller's first meeting with its id. |
| Clustering.BuildConflictClusters | clustering.js:8-54 | Fails exactly when some conflict names an unknown id, and reports that id. Otherwise every cluster is a non-empty list of the caller's own records. |
| Clustering.ClustersAreComponents | clustering.js:23-51 | A cluster holding meeting id `x` holds exactly the ids joined to `x` by a chain of conflict pairs, so connectivity is transitive. |
| Clustering.EveryMeetingClustered | clustering.js:39-43 | Every meeting id lies in some cluster. |
| Clustering.ConflictEndpointsShareCluster | clustering.js:18-21 | Both ids of every conflict pair land in the same cluster. |
| Clustering.ClusterIdsDistinct | clustering.js:24-32 | No id appears twice across all clusters. |
| Clustering.ClustersPartitionMeetings | clustering.js:39-51 | With distinct ids, the flattened clusters are a permutation of the meetings: each meeting appears exactly once. |
| Clustering.SeedLeadsCluster | clustering.js:39-42 | A cluster's first member is, of its members, the one listed first among the meetings. |
| Clustering.ClustersInSeedOrder | clustering.js:39-49 | Clusters come out in increasing order of their first members' positions among the meetings. |
| Clustering.MembersAreRecords | clustering.js:45-47 | Every member is the first meeting record carrying its id. |
| Clustering.NoConflictsSingletons | src/core-logic/tests/clustering.test.js:26-36 | With distinct ids and no conflicts, the result is one singleton cluster per meeting, in meeting order. |
| Clustering.DetectedConflictsAccepted | clustering.js:18-20 | Pairs detected from the same meetings never name an unknown id, so clustering them succeeds. |
| Clustering.OverlappingMeetingsShareCluster | src/core-logic/tests/clustering.test.js:38-52 | When detection feeds clustering, two overlapping meetings share a cluster. |
| Clustering.SelfPairIgnored | clustering.js:19-20 | A self-pair `[a, a]` for a meeting id `a`, anywhere in the list, leaves the result unchanged. |
| OverlapCheck.CheckOverlap | src/utils/checkOverlap.js:7-27 | The ids are copied in argument order. Different dates give `false`. On the same date, a shared instant gives `true`; for meetings that end after they start, it is the only way to get `true`. |
| OverlapCheck.CheckOverlapSymmetric | src/utils/checkOverlap.js:9-20 | Swapping the arguments keeps the verdict and swaps the ids. |
| OverlapCheck.BackToBackNoOverlap | src/utils/checkOverlap.test.js:27-43 | If one meeting ends exactly when the other starts, neither order overlaps. |
| OverlapCheck.DifferentDaysNoOverlap | src/utils/checkOverlap.test.js:45-61 | Different dates never overlap, whatever the times. |
| OverlapCheck.AgreesWithIntersectionTest | src/utils/checkOverlap.js:9-20 | The verdict is "same date and Pipeline A's overlap test". |
| ScanOverlaps.Records | src/utils/scanMeetingsForOverlaps.js:15 | Reference answer: one record per index pair, the k-th being `checkOverlap` of the k-th pair's meetings. |
| ScanOverlaps.ScanRow | src/utils/scanMeetingsForOverlaps.js:14-16 | Definition, no contract: the inner `j` loop. ScanOverlaps.ScanRowIsRecords relates it to the reference answer. |
| ScanOverlaps.ScanFrom | src/utils/scanMeetingsForOverlaps.js:13-17 | Definition, no contract: the outer `i` loop. ScanOverlaps.ScanFromIsRecords relates it to the reference answer. |
| ScanOverlaps.ScanRowIsRecords | src/utils/scanMeetingsForOverlaps.js:14-16 | The inner loop from `j` pushes one record per pair `(i, j')` with `j <= j' < n`, in order. |
| ScanOverlaps.ScanFromIsRecords | src/utils/scanMeetingsForOverlaps.js:13-17 | The outer loop from `i` pushes one record per pair of rows `i` onwards, in lexicographic order. |
| ScanOverlaps.ScanMeetingsForOverlaps | src/utils/scanMeetingsForOverlaps.js:10-20 | There are exactly n(n-1)/2 records. The k-th is `checkOverlap(meetings[i], meetings[j])` for the k-th pair `i < j`, so the earlier meeting comes first and no meeting is paired with itself. Empty and single-meeting inputs give `[]`. |
| ScanOverlaps.AllRecords | src/utils/scanMeetingsForOverlaps.test.js:29-52 | The records of all pairs, read back by position: the count is n(n-1)/2 and the entries are as above. |
| OverlapClustering.ActualOverlaps | src/utils/clustering.js:8 | Keeps exactly the records whose flag is set. |
| OverlapClustering.ActualOverlapsConcat | src/utils/clustering.js:8 | The filter keeps order: a single record stays exactly when it is flagged, and filtering a concatenation concatenates the filtered parts. |
| OverlapClustering.Endpoints | src/utils/clustering.js:17-19 | Lists exactly the ids some record names. |
| OverlapClustering.InsertAll | src/utils/clustering.js:21-26 | Repeated `Set.add`: the member set grows by exactly the added ids, and duplicates stay out. |
| OverlapClustering.AddRecord | src/utils/clustering.js:17-30 | One record adds its missing ids as nodes, in order, plus the edge both ways and nothing else. |
| OverlapClustering.AddRecords | src/utils/clustering.js:17-30 | The folded graph stays well-formed and symmetric. Its node order is the ids in order of first mention. |
| OverlapClustering.OverlapGraph | src/utils/clustering.js:15-30 | The graph built from the flagged records is well-formed and symmetric. Its node order is the ids in order of first mention among those records. |
| OverlapClustering.OverlapGraphKeys | src/utils/clustering.js:15-30 | The graph's nodes are exactly the ids the flagged records name. |
| OverlapClustering.OverlapGraphEdges | src/utils/clustering.js:28-29 | The graph's arcs are exactly the flagged records' pairs, both ways. |
| OverlapClustering.BuildConflictClusters | src/utils/clustering.js:6-60 | The ids in the clusters are exactly those some flagged record names. Each appears once in total, and every cluster is non-empty. |
| OverlapClustering.ClustersOf | src/utils/clustering.js:10-59 | The same facts for a list of already-flagged records, including the early return for an empty list. |
| OverlapClustering.NoClustersIffNoOverlap | src/utils/clustering.js:8-12 | The result is `[]` exactly when no record is flagged. |
| OverlapClustering.UnflaggedRecordIgnored | src/utils/clustering.js:8 | Inserting an unflagged record anywhere leaves the result unchanged. |
| OverlapClustering.ClustersAreComponents | src/utils/clustering.js:36-57 | A cluster holding `x` holds exactly the ids joined to `x` by a chain of flagged records. |
| OverlapClustering.FlaggedPairShareCluster | src/utils/clustering.test.js:14-24 | Both ids of every flagged record share a cluster. |
| OverlapClustering.NodeOrder | src/utils/clustering.js:21-26 | `graph.forEach` visits two ids in the order of their first mentions among the flagged records. |
| OverlapClustering.ClusterLedByFirstMention | src/utils/clustering.js:51-57 | Each cluster begins with its earliest-mentioned member. |
| OverlapClustering.ClustersInMentionOrder | src/utils/clustering.js:51-57 | Clusters appear in increasing order of their leading ids' first mentions. |
| OverlapClustering.AssignCluster | src/utils/clustering.js:71-73 | Every id of the cluster maps to `index`. Other entries are kept. |
| OverlapClustering.MapFrom | src/utils/clustering.js:70-74 | From cluster `i` on, every clustered id maps to a cluster holding it, with no later cluster holding it. Other entries are kept. |
| OverlapClustering.CreateConflictMap | src/utils/clustering.js:67-77 | The keys are exactly the clustered ids. Each maps to the index of the last cluster holding it. The empty list gives the empty map. |
| OverlapClustering.ConflictMapOfDisjoint | src/utils/clustering.js:67-77 | For disjoint clusters: id ↦ k iff cluster k holds id. |
| OverlapClustering.TwoClusterMap | src/utils/clustering.test.js:37-45 | `[[1,2,3],[4,5]]` maps 1, 2, 3 to 0 and 4, 5 to 1, and nothing else. |
| OverlapClustering.ConflictMapKeys | src/utils/clustering.js:67-77 | Applied to this pipeline's clusters, the map's keys are exactly the ids flagged records name. |
| OverlapClustering.ConflictMapSameIndexIffLinked | src/utils/clustering.js:67-77 | Two keys share an index iff a chain of flagged records joins them. |
| OverlapClustering.ScannedOverlapsShareCluster | src/utils/scanMeetingsForOverlaps.js:10-20 | After scanning and clustering, two meetings on the same date with a common instant share a cluster. |
| SortMeetings.Swap | src/utils/sortMeetings.js:12-14 | Exchanges positions `j` and `j+1`, leaving everything else as it was and the multiset unchanged. |
| SortMeetings.SwapKeepsStartingAt | src/utils/sortMeetings.js:11-14 | Swapping neighbours with different start times keeps, for every start time, the sublist of meetings with that start. |
| SortMeetings.BubblePass | src/utils/sortMeetings.js:10-16 | One inner pass keeps the multiset and every per-start-time sublist. The sorted suffix of the largest keys grows by one. |
| SortMeetings.SortMeetingsByStartTime | src/utils/sortMeetings.js:6-20 | The result is a permutation of the input of the same length, non-decreasing by `startTime`, and stable: the meetings with each start time keep their relative order. Inputs of length at most one come back unchanged. |
| SortMeetings.StableSortUnique | src/utils/sortMeetings.js:9-17 | Two sorted lists with the same per-start-time sublists are equal, so the contract above admits only the stable sort of the input. |

## Left out

- The DOM, rendering and form handling (`src/index.js`, `src/utils/renderMeetings.js`, `src/utils/formUtils.js`) are user interface only.
- Persistence (`src/utils/queries.js`, `src/utils/uiOptions.js`, `core-logic/data.js`) uses localStorage, JSON, random UUIDs and `Date` parsing. It is I/O.
- `src/utils/addClusters.js` and the second `sortMeetingsByStartTime` at `src/utils/scanMeetingsForOverlaps.js:22-45` cannot run. They refer to undefined `items` and `intersects`.
- The `getMeetings()` default argument of `intersection.js:7` reads stored data, so it is I/O. The model always takes the list as a parameter.
- The `console.log` of the four-meeting sample at `core-logic/intersection.js:25-33` is output; the sample itself is proved as CoreIntersection.FourMeetingExample. The three-meeting sample at `intersection.js:26-33` sits inside a block comment and never runs; its input and expected output match CoreIntersection.ThreeMeetingExample.
- Inference mode, `buildConflictClusters(meetings)` with no conflict list, belongs to `src/core-logic/clustering.js`. That file is not part of this model. The root `clustering.js` would throw on the missing list.
- `Date` construction and time zones are left out. Dates and times are integers, so NaN and other non-finite values are not modelled.
- No mutation of the caller's list is modelled: sequences are values. This covers "the input array is not modified" for both the intersection scans and the sort copy on `sortMeetings.js:7`.
- SortMeetings.SortMeetingsByStartTime: the copied array of lines 7-19 is modelled as a sequence value updated by swaps, not a heap array.
- Clustering.ClustersPartitionMeetings: requires distinct meeting ids. With repeated ids the code keeps one graph node per id and returns the first record for it, so a repeated meeting is not in any cluster.
- OverlapCheck.CheckOverlap: the "only if" direction of the shared-instant reading holds only for meetings that end after they start. The exact boolean is stated by OverlapCheck.AgreesWithIntersectionTest.
- OverlapClustering.CreateConflictMap: returns a Dafny `map`, so the insertion order of the JavaScript `Map`'s keys is not modelled.
- The example tests with two independent groups and with three flagged records (`src/core-logic/tests/clustering.test.js:72-87`, `src/utils/clustering.test.js:14-33`) are covered by the general component lemmas above, not computed as concrete examples.
- Both `dfs` functions (`clustering.js:27-36`, `src/utils/clustering.js:36-48`) recurse once per id along a search path, so a long enough chain of conflicts overflows the JavaScript call stack with a `RangeError`. The model has no stack bound and always returns.
- The exact id order inside a cluster, depth-first pre-order, is produced by the model. In general it is stated only as "the cluster starts with its seed". Dfs.PreOrderExample proves the full order on one graph.
