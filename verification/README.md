# cs223 exercises: verified models

A Dafny model of the sequential logic in eight exercises of a C course
repository. Each operation is a pure function or a short method over
immutable values. Each carries a contract that states what the C code
promises, and lemmas relate the operations to independent definitions
(key sets, sorted orders, reachability, longest simple paths, a
whole-line grammar).

The modules:

- **2-d tree over locations** (hw5). `Locations` holds the two
  lexicographic comparators. `KdTree` holds the tree, validity, `contains`,
  `add`, `find_min`/`find_max` and `remove`. `KdRange` holds the pruned
  range search, and `KdBuild` the median-split bulk build from two presorted
  arrays. `KdFixed` holds the corrected add, remove and create, together
  with the scenarios that show where the code as written goes wrong.
  The cutting dimension is depth mod 2. A node is valid when its left keys
  are below it and its right keys above it under that depth's comparator.
- **Integer binary search tree** (exam_2, `BsTree`). It covers insert,
  minValueNode, deleteNode as written with its two broken two-children
  cases, a corrected delete, and the driver in `main`.
- **Chained hash map** (hw4, `GMap`). The table is a sequence of chains,
  and the hash function is a parameter. It covers create, put with growth
  at `nkey == cap`, remove, contains_key, get, for_each and keys.
- **Blotto helpers and scoring** (hw4, `Blotto`). It covers hash29 modulo
  2^64, duplicate, compare_keys, and the per-battlefield scoring with
  doubled values.
- **Entry line parser** (hw4, `Entry`). The two-state scanner of
  `entry_read` is a step function over characters. It is proved equal to a
  whole-line grammar.
- **Directed graph** (hw6). `Digraph` holds create, size, add_edge and
  has_edge. `GraphQueue` holds the array queue and `GraphSearch` the search
  record. `Bfs` holds BFS and shortest path. `Dfs` holds DFS with restart,
  cycle detection and finish order. `LongestPath` holds the DAG dynamic
  program, the brute-force simple-path search, and longest_path.
- **Track segments** (hw3, `Track`). Trackpoints are (location,
  timestamp), and `location_validate` is a parameter. It covers create,
  add_point, start_segment, merge_segments, and the count and get queries.
- **Tour arrays** (hw2). `Tour` holds the shift-insert and `order_tour`.
  `TourArgs` holds how `main` splits its arguments into a file name,
  heuristics and cities.
- **GPX trkpt scanner** (hw1). `GpxScanner` holds the character-level
  state machine of `main` as `Step(state, char) -> (state, output)`.
  `GpxProperties` states what each state does, and `GpxRecord` states what
  a whole trkpt element prints.

Where the tree's documented contract and its code disagree, this model
follows the code:

- The documentation says duplicate points collapse in a bulk build. The
  code sets `n` to the raw count and reads array slots that are never
  written.
- The documentation says `add` attaches every new point. The code loses a
  point that ties its parent on the raw coordinate.
- The documentation says `remove` keeps the tree valid. The code searches
  for the replacement key at the wrong depth.

The model reproduces each of these, and "## Findings" gives the corrected
versions.

`location_compare_latitude` and `location_compare_longitude` are defined in
location.c, which is not part of this model. They are assumed to be the
lexicographic orders that hw5/kdtree_helpers.c:9-61 spells out. Coordinates
are `real` because they are only ever compared.

## Model

| member | source | states |
|---|---|---|
| Locations.CompareLatitude | hw5/kdtree_helpers.c:9-33 | returns 0 exactly for equal points, negative exactly when (lat, lon) is lexicographically smaller, positive in the remaining case |
| Locations.CompareLongitude | hw5/kdtree_helpers.c:37-61 | the same for the (lon, lat) order |
| Locations.CompareAntisymmetric | hw5/kdtree_helpers.c:9-61 | swapping the arguments negates the comparison in either dimension |
| Locations.CompareTransitive | hw5/kdtree_helpers.c:9-61 | both comparators are transitive, strictly and non-strictly (with CompareTransitiveLe) |
| Locations.CompareCoord | hw5/kdtree_helpers.c:9-61 | the comparator agrees with the raw cutting coordinate, which decides it whenever the two coordinates differ |
| KdTree.ValidSizeIsCardinality | hw5/kdtree.c:38-114 | a valid tree stores no point twice: its node count equals the size of its key set |
| KdTree.Contains | hw5/kdtree.c:212-249 | a true answer means the point is stored; on a valid tree the answer is true exactly when the point is stored |
| KdTree.AddAt | hw5/kdtree.c:141-200 | returns false and changes nothing when the point is found. Otherwise it returns true; if the point ties its would-be parent on the raw coordinate the tree is unchanged, else the key set gains the point and validity is kept |
| KdTree.Add | hw5/kdtree.c:128-201 | adding a present point returns false and changes nothing. Adding an absent point returns true and raises n by one even when the tie drops it; without a tie the point is stored, validity is kept, and contains finds it |
| KdTree.MinOfThree | hw5/kdtree_helpers.c:133-154 | returns one of the present arguments, at most every present argument on the cutting dimension, and x unless another argument is strictly smaller |
| KdTree.MaxOfThree | hw5/kdtree_helpers.c:158-179 | the mirror image: a present argument at least every other, preferring x on ties |
| KdTree.FindMin | hw5/kdtree_helpers.c:91-108 | None exactly for an empty subtree, otherwise a stored key; on a subtree valid at the given depth that key is minimal on the cutting dimension |
| KdTree.FindMax | hw5/kdtree_helpers.c:112-129 | the symmetric guarantee for the maximum |
| KdTree.RemoveAt | hw5/kdtree.c:279-326 | a point that is not found leaves the subtree unchanged and reports false; a point that is found is reported removed |
| KdTree.RemoveAtKeys | hw5/kdtree.c:279-326 | on a valid subtree holding the point, the keys after removal are the old keys minus the point and exactly one node goes |
| KdTree.Remove | hw5/kdtree.c:260-277 | removing an absent point changes nothing. On a valid tree holding it, n drops by one and the key set loses exactly that point |
| KdRange.RangeAt | hw5/kdtree.c:391-431 | every point reported is stored and inside the box, and no more calls are made than there are nodes |
| KdRange.RangeAtCorrect | hw5/kdtree.c:391-431 | on a valid tree the pruned search reports each stored point inside the box exactly once and nothing else |
| KdRange.RangeForEach | hw5/kdtree.c:377-389 | calls f once per stored point with sw ≤ point ≤ ne in both coordinates and for no other point |
| KdRange.AddToArr | hw5/kdtree_helpers.c:183-192 | with both arguments present, writes the location at index count and raises count by one, leaving the other slots alone. With either argument missing it is a no-op |
| KdRange.Collect | hw5/kdtree.c:346-360 | repeated add_to_arr calls place the reported points in order after the existing prefix |
| KdRange.Range | hw5/kdtree.c:346-360 | defined whenever the search reports at most n points, the size of the array allocated; the returned count equals the number of callback calls, and on a valid tree the array holds exactly the points in the box, without repeats |
| KdRange.CounterSuffices | hw5/kdtree.c:352 | a counter n that is at least the number of stored nodes leaves room in the array for every box |
| KdBuild.Sort | hw5/kdtree.c:52-60 | the presorted input arrays: sorted by the dimension's comparator and a permutation of the input |
| KdBuild.InCutLeft | hw5/kdtree_helpers.c:65-74 | true exactly when the dimension is valid and the point is below the median |
| KdBuild.InCutRight | hw5/kdtree_helpers.c:78-87 | true exactly when the dimension is valid and the point is above the median |
| KdBuild.InCutExclusive | hw5/kdtree_helpers.c:65-87 | in_cut_left and in_cut_right are never both true, and both are false exactly for the median itself |
| KdBuild.Partition | hw5/kdtree.c:100-107 | the split of the other-dimension array yields no more points than it was given |
| KdBuild.PartitionMatchesSlices | hw5/kdtree.c:92-107 | on distinct input presorted in both dimensions, the other-dimension halves hold exactly the points of cut_left and cut_right |
| KdBuild.PartitionSorted | hw5/kdtree.c:100-107 | both halves of the split stay sorted in the other dimension |
| KdBuild.BuildCorrect | hw5/kdtree.c:72-114 | for distinct input sorted in both dimensions, the build succeeds with a valid tree of exactly the input points. Each node is the median of its slice, the left child gets floor(k/2) points and the right child k - floor(k/2) - 1 |
| KdBuild.SortedBuildCorrect | hw5/kdtree.c:38-114 | the same guarantee starting from an unsorted distinct point array sorted twice |
| KdBuild.Create | hw5/kdtree.c:38-70 | n = 0 gives an empty tree, and n > 0 with a NULL array gives NULL. For n distinct points the tree is valid, stores exactly them, has n = size, and is median-balanced |
| KdFixed.AddFixed | hw5/kdtree.c:128-201 | the corrected add: true exactly for an absent point, which is then stored, counted and found, with validity kept |
| KdFixed.AddTieScenario | hw5/kdtree.c:184-195 | adding (5,5), (6,5), (7,5) returns true with n = 3, but (7,5) is not stored and contains misses it |
| KdFixed.AddTieScenarioFixed | hw5/kdtree.c:184-195 | the corrected add stores all three points and finds (7,5) |
| KdFixed.RemoveAtFixed | hw5/kdtree.c:279-326 | the corrected remove, which searches the child at its own depth: on a valid subtree it keeps validity and the keys become old keys minus p |
| KdFixed.PromoteMinValid | hw5/kdtree.c:303-308 | promoting the right subtree's minimum on the node's dimension keeps the node valid |
| KdFixed.PromoteMaxValid | hw5/kdtree.c:310-315 | promoting the left subtree's maximum, when there is no right subtree, keeps the node valid |
| KdFixed.RemoveFixed | hw5/kdtree.c:260-277 | the corrected remove: on a valid tree the result is valid and the key set loses exactly p, and n drops by one when p was stored |
| KdFixed.RemoveScenario | hw5/kdtree.c:305 | after adding (5,5), (6,5), (5.5,9) and removing (5,5), the point (5.5,9) is still stored but contains no longer finds it |
| KdFixed.RemoveScenarioFixed | hw5/kdtree.c:305 | with the corrected remove, (5.5,9) and (6,5) are still found after the same steps |
| KdFixed.RemoveUndercounts | hw5/kdtree.c:303-314 | adding (3,3), (1,0), (1,3), (2,2) gives a valid tree with n = 4 nodes. Removing (1,0) and then (3,3) as written leaves n = 2 while 3 nodes remain, (2,2) twice, and a box around them reports 3 points into an array of 2 |
| KdFixed.RemoveFixedKeepsCount | hw5/kdtree.c:260-277 | on a valid tree whose n equals its node count, the corrected remove keeps the tree valid and n exact, so kdtree_range afterwards has room for every box |
| KdFixed.Distinct | hw5/kdtree.c:38-70 | the deduplicated input: no repeats, the same point set, unchanged when already distinct |
| KdFixed.CreateFixed | hw5/kdtree.c:38-70 | the corrected create: any input gives a valid tree of its distinct points, with n equal to their number |
| KdFixed.CreateDuplicateScenario | hw5/kdtree.c:42 | creating from two copies of the same point reads array slots that were never written |
| KdFixed.CreateDuplicateScenarioFixed | hw5/kdtree.c:42 | the corrected create stores a doubled point once, with n = 1 |
| BsTree.InorderKeys | exam_2/bstree.c:15-22 | the in-order sequence holds exactly the tree's keys |
| BsTree.InorderIncreasingIffBst | exam_2/bstree.c:15-22 | a tree is a BST exactly when its in-order sequence is strictly increasing |
| BsTree.Insert | exam_2/bstree.c:43-57 | the key set becomes old ∪ {key}, and a key already present leaves the tree unchanged. BST order is kept, and the tree changes exactly when the key is new |
| BsTree.MinValueNode | exam_2/bstree.c:62-71 | NULL exactly for an empty tree, otherwise a stored node with no left child whose key is the smallest of a BST |
| BsTree.DetachAsWritten | exam_2/bstree.c:106-131 | the two-children delete as written returns a node whose key is the in-order successor, and never invents keys |
| BsTree.DetachLeafSuccessor | exam_2/bstree.c:106-131 | when the successor is a leaf strictly below root->right, the code as written removes exactly it and keeps BST order |
| BsTree.DeleteNode | exam_2/bstree.c:73-132 | an absent key changes nothing, and no key is ever added. In the cases the code handles soundly, the result is a BST with key set old - {key} |
| BsTree.DeleteFixed | exam_2/bstree.c:73-132 | the corrected delete: an absent key changes nothing, and on a BST the result is a BST with key set old - {key} |
| BsTree.DeleteFixedAgrees | exam_2/bstree.c:73-132 | wherever the code as written is sound, it agrees with the corrected delete |
| BsTree.DriverScenario | exam_2/bstree.c:135-168 | inserting 50, 30, 20, 40, 70, 60, 80 gives in-order 20 30 40 50 60 70 80, and deleting 60 gives 20 30 40 50 70 80 |
| BsTree.DeleteSuccessorIsRightChild | exam_2/bstree.c:123-127 | deleting 50 from 50(30,70) as written loses 30, while the corrected delete keeps {30, 70} |
| BsTree.DeleteSuccessorWithRightChild | exam_2/bstree.c:123-127 | when the successor has a right child, the delete as written loses 80 and breaks BST order, while the corrected delete keeps every other key |
| GMap.Create | hw4/gmap.c:72-95 | a map comes back exactly when all four functions are given. It is empty with nkey 0 and capacity 101, and it is valid for every hash function |
| GMap.Size | hw4/gmap.c:104-109 | 0 for NULL; on a valid map, the number of stored mappings: the entries in all chains, the callbacks gmap_for_each makes and the keys gmap_keys returns |
| GMap.FindKeyExact | hw4/gmap.c:370-396 | the search of chain hash(key) % cap finds value v exactly when (key, v) is stored anywhere in the table |
| GMap.ContainsKeyIffGet | hw4/gmap.c:240-271 | contains_key is true exactly when get returns a value, which happens exactly when the key is stored |
| GMap.RemoveFromChain | hw4/gmap.c:189-229 | unlinking from a chain returns the value the lookup finds for the key, shortens the chain by one exactly when there is one, and adds no entry |
| GMap.RemoveFromChainDistinct | hw4/gmap.c:189-229 | on a chain with distinct keys the result keeps them distinct, holds no entry for the key and gives every other key the value it had |
| GMap.Embiggen | hw4/gmap.c:401-434 | the capacity becomes 2·cap + 1, the invariants hold, and every key keeps its value |
| GMap.ReinsertCorrect | hw4/gmap.c:414-431 | rehashing a list of entries into a table places each in its home chain and adds exactly their mappings |
| GMap.PutNoGrow | hw4/gmap.c:135-173 | put without growth: returns the previous value. A present key gets the new value; an absent key is added with nkey + 1 only if the copy succeeded. Every other key is unchanged |
| GMap.Put | hw4/gmap.c:125-176 | grows to 2·cap + 1 exactly when nkey == cap, and returns the previous value. Afterwards get yields the new value unless an absent key's copy failed; nkey rises only for a newly added key; other keys are unchanged |
| GMap.Remove | hw4/gmap.c:189-229 | returns the key's value, or NULL with the map unchanged. A present key is gone afterwards, nkey drops by one, and every other key keeps its value |
| GMap.ForEach | hw4/gmap.c:284-299 | visits nkey entries with distinct keys, which are exactly the stored mappings |
| GMap.Keys | hw4/gmap.c:315-327 | returns nkey distinct keys, exactly those for which contains_key holds |
| Blotto.Hash29 | hw4/blotto.c:150-163 | the sum of s[i]·29^(i+1) over the string up to its NUL, modulo 2^64; 0 for the empty string |
| Blotto.CompareKeys | hw4/blotto.c:175-178 | a sign that is 0 exactly when the two C strings are equal, and antisymmetric (with CompareKeysAntisymmetric) |
| Blotto.Duplicate | hw4/blotto.c:165-173 | the copy compares equal to the original |
| Blotto.EqualKeysHashEqual | hw4/blotto.c:150-178 | keys that compare equal hash equally, as the map requires |
| Blotto.Totals | hw4/blotto.c:115-126 | doubled totals: the strictly larger army takes a battlefield's whole value, a tie splits it, and the two totals sum to twice the total value |
| Blotto.TotalsSwap | hw4/blotto.c:115-126 | swapping the players swaps the totals |
| Blotto.TotalsDominance | hw4/blotto.c:115-126 | a player at least as strong on every non-negative battlefield scores at least as much |
| Blotto.Score | hw4/blotto.c:115-126 | the scoring loop computes Totals |
| Blotto.Report | hw4/blotto.c:129-132 | the player with the larger total is printed first, and on an exact tie id1 comes first |
| Entry.JoinFields | hw4/entry.c:71-106 | the distribution part is exactly its comma-separated fields joined back together |
| Entry.EntryRead | hw4/entry.c:14-133 | the scanner loop returns exactly what the whole-line grammar gives. NULL gives the error value; reading stops at '\n', '\r' or the end; the ID keeps max_id characters; whitespace in the ID, an empty field before a comma, a non-digit, too many fields, or a wrong count for a non-empty ID is an error; an empty line is the end marker |
| Entry.ScanLine | hw4/entry.c:46-108 | a rejected character means the grammar rejects the line, and otherwise the final scanner state describes the whole line |
| Entry.DistributionSpecComplete | hw4/entry.c:71-129 | an accepted distribution without a trailing empty field has exactly battlefields non-empty digit fields, each the decimal value of its digits as an unbounded integer |
| Entry.TrailingEmptyFieldAccepted | hw4/entry.c:98-105 | the line "a,1," with two battlefields is accepted as [1, 0], while the strict grammar rejects it |
| Entry.EntryReadStrict | hw4/entry.c:14-133 | the corrected reader returns exactly the strict grammar's result |
| Entry.StrictEntryComplete | hw4/entry.c:71-129 | everything the strict reader accepts has a non-empty ID and exactly battlefields non-empty digit fields, each the decimal value of its digits as an unbounded integer |
| Entry.DecimalFitsInt | hw4/entry.c:98-104 | a field of at most nine digits is worth at most INT_MAX, so the int accumulator cannot overflow on it; a field of ten nines is worth more than INT_MAX |
| Entry.SpecRejectsSpace | hw4/entry.c:56-61 | whitespace in the ID is an error |
| Entry.SpecRejectsEmptyField | hw4/entry.c:72-79 | an empty field before a comma is an error |
| Entry.SpecRejectsExtraField | hw4/entry.c:81-87 | more than battlefields fields is an error |
| Entry.SpecRejectsNonDigit | hw4/entry.c:92-97 | a character other than a digit or comma after the ID is an error |
| Digraph.Create | hw6/ldigraph.c:8-42 | NULL exactly when n < 1; otherwise n vertices with no edges |
| Digraph.SizeCreate | hw6/ldigraph.c:45-55 | size of a created graph is n, and 0 for NULL |
| Digraph.AddEdge | hw6/ldigraph.c:58-74 | an out-of-range endpoint or a self-loop changes nothing. Otherwise `to` is appended to from's list, duplicates allowed, other lists are unchanged, and the edge relation gains exactly that edge |
| Digraph.HasEdge | hw6/ldigraph.c:77-93 | true exactly when both endpoints are valid and distinct and `to` occurs in from's list |
| GraphQueue.NewQueue | hw6/ldigraph_helpers.c:17-24 | an n-slot queue with no contents |
| GraphQueue.NewQueueNotEmpty | hw6/ldigraph_helpers.c:17-52 | a fresh queue holds nothing yet reports non-empty |
| GraphQueue.IsEmptyIffNoContents | hw6/ldigraph_helpers.c:46-52 | after the first enqueue, queue_isempty is true exactly when nothing is queued |
| GraphQueue.Enqueue | hw6/ldigraph_helpers.c:26-33 | appends v at the back |
| GraphQueue.Dequeue | hw6/ldigraph_helpers.c:35-44 | returns the front and removes it (FIFO) |
| GraphSearch.SearchInit | hw6/ldigraph_helpers.c:257-274 | every colour UNSEEN, dist and pred -1, count 0, no cycle found |
| GraphSearch.SearchCreate | hw6/ldigraph_helpers.c:220-254 | a search exists exactly for a valid start vertex, freshly initialised |
| Bfs.Discover | hw6/ldigraph_helpers.c:119-127 | an undiscovered neighbour gets distance dist[v] + 1 before it is enqueued |
| Bfs.ScanOutEdges | hw6/ldigraph_helpers.c:119-127 | scanning v's out-edges keeps the BFS level invariants and closes v |
| Bfs.BfsSearch | hw6/ldigraph_helpers.c:106-131 | every vertex is enqueued at most once, so the n-slot queue never overflows. Afterwards dist[x] is the shortest edge count from `from`, or -1 when x is unreachable |
| Bfs.ShortestPath | hw6/ldigraph.c:96-117 | -1 for an invalid endpoint; otherwise the BFS edge-count distance, 0 when from == to and -1 when unreachable |
| Dfs.DfsVisit | hw6/ldigraph_helpers.c:177-207 | visiting an UNSEEN vertex leaves it DONE, keeps the search invariant, and only moves colours forward |
| Dfs.AllFinished | hw6/ldigraph_helpers.c:204-206 | once every vertex is DONE, count is n and finish holds each vertex exactly once |
| Dfs.TopologicalOrder | hw6/ldigraph_helpers.c:185-206 | without the cycle flag, every edge goes to a later slot of finish |
| Dfs.NoFlagNoCycle | hw6/ldigraph_helpers.c:185-200 | no cycle flag means the graph has no directed cycle |
| Dfs.ClosingEdge | hw6/ldigraph_helpers.c:196-200 | an edge from the end of a path back to a vertex on it, as an edge to a PROCESSING vertex is, closes a directed cycle |
| Dfs.DfsWithRestart | hw6/ldigraph_helpers.c:152-174 | every vertex DONE, count n, and finish a permutation of the vertices. found_cycle is true exactly when the graph has a directed cycle, and without it finish is a topological order |
| LongestPath.MaxOfNeighbors | hw6/ldigraph_helpers.c:63-70 | NO_PATH when every entry is NO_PATH or there are none, otherwise the maximum entry |
| LongestPath.BruteSound | hw6/ldigraph_helpers.c:73-101 | any result other than NO_PATH is the length of a simple path to `to` that avoids the vertices on the current path |
| LongestPath.BruteBound | hw6/ldigraph_helpers.c:73-101 | brute_force is at least the length of every such simple path |
| LongestPath.BruteLongest | hw6/ldigraph.c:163-172 | brute_force from a clean visited array is the longest simple-path length, or NO_PATH |
| LongestPath.DagStep | hw6/ldigraph.c:142-155 | in an acyclic graph, 1 + the best successor value (or NO_PATH) is the longest path from v |
| LongestPath.MaxOverSuccessors | hw6/ldigraph.c:143-150 | the loop over v's successors finds the largest value among them, or NO_PATH |
| LongestPath.LongestDag | hw6/ldigraph.c:131-161 | evaluated in reverse finish order, every dist[v] is the longest path length from v to `to` |
| LongestPath.LongestPathLength | hw6/ldigraph.c:120-173 | -1 for invalid endpoints, 0 when from == to, otherwise the longest simple-path length from `from` to `to` in both branches |
| LongestPath.LongestUnique | hw6/ldigraph.c:120-173 | the longest-path value is unique, so the two branches cannot disagree |
| LongestPath.AcyclicDistinct | hw6/ldigraph.c:131-161 | in an acyclic graph every path is simple, so the DAG pass ranges over simple paths |
| Track.Create | hw3/track.c:43-60 | exactly one empty segment and a total of 0 |
| Track.StartSegment | hw3/track.c:188-212 | appends one empty segment, leaves the existing segments and the total unchanged, and keeps the invariant |
| Track.CountSegments | hw3/track.c:86-89 | the number of segments, at least one |
| Track.CountPoints | hw3/track.c:94-97 | the number of points in segment i |
| Track.GetPoint | hw3/track.c:102-106 | point j of segment i is the corresponding point of the whole track |
| Track.SegmentsInTimeOrder | hw3/track.c:136-150 | every point of an earlier segment is strictly earlier than every point of a later one |
| Track.LastOfTrack | hw3/track.c:136-150 | the point add_point compares against is the last point of the whole track |
| Track.AddPoint | hw3/track.c:121-183 | an invalid location or a time not after the last point leaves the track unchanged. An accepted point is appended to the last segment, its count and the total rise by one, other segments are unchanged, and times stay strictly increasing |
| Track.MergeSegments | hw3/track.c:217-297 | segment start becomes the in-order concatenation of segments start..end-1, and later segments shift down by end-start-1. The points in order and the total are unchanged |
| Track.TotalIsSum | hw3/track.c:153-168 | the total counter equals the sum of the per-segment counters |
| Tour.Insert | hw2/hw2.c:33-40 | new_city lands at insert_index, tour[insert_index..tourlength) shifts right by one, and the prefix and the tail beyond are untouched |
| Tour.InsertAddsCity | hw2/hw2.c:33-40 | the first tourlength + 1 cities are the old ones plus new_city |
| Tour.OrderTour | hw2/hw2.c:42-71 | the result is a permutation that starts with the first city and has tour[1].index ≤ tour[n-1].index. It is a rotation, possibly with positions 1..n-1 reversed |
| Tour.OrderedAdjacent | hw2/hw2.c:53-63 | ordering preserves the cyclic neighbour relation in both directions |
| Tour.OrderedDirection | hw2/hw2.c:56-63 | with distinct indices and at least three cities, tour[1].index < tour[n-1].index |
| TourArgs.StartOfCity | hw2/hw2.c:103-116 | the first argument that is not a flag and does not follow "-insert", or 2 when there is none |
| TourArgs.Arguments | hw2/hw2.c:86-125 | no file name is reported exactly for argc ≤ 1, and a run gets the last two or more arguments as its cities |
| TourArgs.ParseRender | hw2/hw2.c:240-270 | the arguments spelling out a list of heuristics classify back to that list |
| TourArgs.RenderParse | hw2/hw2.c:240-270 | whatever the loop accepts is a run of "-given", "-insert nearest" and "-insert farthest" |
| TourArgs.ArgumentsRun | hw2/hw2.c:86-270 | a file name, spelled-out heuristics and at least two cities, the first not a flag, run those heuristics on those cities |
| TourArgs.RunArguments | hw2/hw2.c:86-270 | every run comes from a command line of that shape |
| GpxScanner.Step | hw1/hw1.c:28-243 | one pass of the loop keeps the scanner's bounds: the flag matches the state and count stays inside tempString |
| GpxScanner.ScanConcat | hw1/hw1.c:28-244 | scanning two pieces of input one after the other is scanning their concatenation |
| GpxProperties.PlainTextWaits | hw1/hw1.c:32-40 | in PLAINTEXT nothing is printed, and only '<' changes state: to TRACKPOINT, ELEVATION or TIME for flag 0, 3 or 4 |
| GpxProperties.FlagMoves | hw1/hw1.c:58-236 | flag_trkpt only moves 0→1 on trkpt, 1→2 and 2→3 on the closing quotes, 3→4 on closing ele and 4→0 on closing time |
| GpxProperties.OnlyPrintWrites | hw1/hw1.c:173-242 | only the PRINT state writes output |
| GpxProperties.TrackPointMatch | hw1/hw1.c:42-67 | trkpt is recognised exactly when "trkpt" (lowered) was read and a space follows |
| GpxProperties.ElevationMatch | hw1/hw1.c:122-145 | ele is recognised exactly when "ele" was read and a space or '>' follows |
| GpxProperties.TimeMatch | hw1/hw1.c:148-171 | time is recognised exactly when "time" was read and a space or '>' follows |
| GpxProperties.AttributeMatch | hw1/hw1.c:69-119 | outside quotes, lat (then lon) is recognised exactly when its three characters were read and a space or '=' follows |
| GpxProperties.NamesIgnoreCase | hw1/hw1.c:46-151 | characters with the same lower-case form take tag names, and attribute names after their first letter, to the same place |
| GpxProperties.FirstLetterKeepsCase | hw1/hw1.c:83-95 | the first letter of an attribute name is not lowered: "lAT=" is taken for lat, "LAT=" is not |
| GpxProperties.QuotedCopy | hw1/hw1.c:177-201 | inside a quoted lat or lon value every character is copied as it is |
| GpxProperties.ContentCopy | hw1/hw1.c:204-221 | ele and time content is copied up to '<' with ',' written as "&comma;" |
| GpxProperties.QuoteCloses | hw1/hw1.c:177-196 | the closing quote prints ","; the comma replacement at line 184 can never fire |
| GpxRecord.OpenTrackPoint | hw1/hw1.c:32-67 | "<trkpt " in plain text starts reading the trkpt's attributes, printing nothing |
| GpxRecord.StartTag | hw1/hw1.c:69-201 | a trkpt start tag with double-quoted lat and lon prints "lat,lon," and waits for ele |
| GpxRecord.Element | hw1/hw1.c:122-238 | an ele element prints its escaped content and ","; a time element prints its content and a newline |
| GpxRecord.CloseTrackPoint | hw1/hw1.c:32-67 | "</trkpt>" while waiting for a trkpt prints nothing and changes nothing that matters |
| GpxRecord.RecordLine | hw1/hw1.c:17-246 | a whole trkpt element prints the line "lat,lon,ele,time" and returns to waiting for the next trkpt |
| GpxRecord.RecordLines | hw1/hw1.c:17-246 | any sequence of trkpt elements prints one line each, in order |

## Left out

- KdTree.RemoveAtKeys states content properties (keys, size) of KdTree.RemoveAt but not validity, because the code as written does not keep it (see Findings).
- KdTree.Remove states content properties (keys, size, n) but not validity, for the same reason.
- KdTree.Add does not promise contains finds the point after a tie, because the code as written loses it.
- KdRange.Range requires the search to report at most n points, because kdtree_range allocates n slots and add_to_arr (hw5/kdtree_helpers.c:183-191) writes without a bound check. Past that the C code writes beyond the array. An exact counter always suffices (KdRange.CounterSuffices), and add, create and the corrected remove keep it exact. Two removals as written can undercount and break the requirement (see Findings).
- KdBuild.Create requires distinct input for its guarantees; for repeated points it yields a marker for reading unwritten memory instead of a tree.
- BsTree.DeleteNode promises the key set and order only in the two-children sub-case the code handles soundly (see Findings).
- Track.AddPoint requires that, when the current segment is empty and is not the first, the segment before it holds a point, since the code reads its last element (hw3/track.c:143-150).
- Track.MergeSegments requires the merged segments to be non-empty when more than one is merged, since the code reads the last point of each (hw3/track.c:263-264).
- Entry.EntryRead returns field values as unbounded integers, while hw4/entry.c:98-104 accumulates them in an int whose overflow past INT_MAX is undefined behaviour in C; the model agrees with the C code only on fields worth at most INT_MAX, which Entry.DecimalFitsInt guarantees for fields of at most nine digits.
- Entry.DistributionSpecComplete states field values as unbounded integers, for the same reason.
- Entry.StrictEntryComplete states field values as unbounded integers, for the same reason.
- Entry.EntryRead requires battlefields ≥ 1: with 0 the distribution array is empty and the first digit is written past its end.
- GMap.Put, GMap.Remove and the lookups compare keys with Dafny equality in place of `comparer(a, b) == 0`, and take a successful copy to equal the key it copies. The guarantee that get yields the value just put rests on both; a comparer that is not an equivalence, or a copier that changes the key, is not modelled.
- Blotto.Hash29 takes characters as non-negative codes; C's signed char for bytes ≥ 128 is not modelled.
- Blotto.Totals computes doubled totals as integers instead of the C doubles with halves.
- LongestPath.BruteForce passes a marked copy of `visited` down instead of marking and unmarking in place; the caller's array is unchanged, as in the C code.
- Dfs.DfsWithRestart requires a graph of at least one vertex, which every created graph has.
- Memory management: malloc, realloc, free, the destroy functions, allocation-failure paths, array capacities and the embiggen of adjacency lists. gmap's capacity rule is kept.
- entry_destroy is represented by the error value with both fields NULL. Eating the '\n' after a '\r' only affects the next read and is left out with the rest of the stream I/O.
- gmap_destroy and the key/value freeing; the copier's failure is the `copied` flag of put.
- I/O: fgetc/printf are character sequences, the file reading in hw2 main and blotto's main apart from scoring are left out, and opening the location file comes between the argument checks in hw2 and is left out.
- Floating point: segment lengths and location_distance, track_get_lengths, the heatmap, and the TSP nearest/farthest heuristics of hw2.
- location.c (comparators, location_validate, location_distance) and trackpoint.c are not part of this model; location_validate is a predicate parameter.
- ldigraph_dfs (hw6/ldigraph_helpers.c:134-149) is never called and is left out.
- The drafts and unused files: hw5/saved/kdtree_temp.c, hw3/saved.c, hw2/trials.c, hw6/initial_ldigraph.c, hw4/matchup.c, and the print traversals of bstree.c.

## Findings

| source | as written | input that shows it | evidently intended | confidence | as-written member | corrected member |
|---|---|---|---|---|---|---|
| hw5/kdtree.c:184-195 | the attach step compares raw coordinates, so a point tying its parent on the cutting coordinate is never linked although add returns true and n rises | add (5,5), (6,5), (7,5) | attach where the descent (146-162) would look, using the tie-breaking comparator | not executed | KdFixed.AddTieScenario | KdFixed.AddFixed, KdFixed.AddTieScenarioFixed |
| hw5/kdtree.c:305, 312 | find_min and find_max on a child receive the parent's depth, so the promoted key can break the ordering. A later removal can then miss its promoted key, leaving it stored twice while n drops, so kdtree_range writes past its array | add (5,5), (6,5), (5.5,9), remove (5,5), then contains (5.5,9) is false; add (3,3), (1,0), (1,3), (2,2), remove (1,0), remove (3,3): n = 2 with 3 nodes | search the child at depth + 1 | not executed | KdFixed.RemoveScenario, KdFixed.RemoveUndercounts | KdFixed.RemoveFixed, KdFixed.RemoveScenarioFixed, KdFixed.RemoveFixedKeepsCount |
| hw5/kdtree.c:42, 77-107 | with repeated points the partition drops copies while the halves are sized by index, so unwritten slots are read and n counts the copies | create from [(1,1), (1,1)] | duplicates collapse to one stored point and n counts distinct points | not executed | KdFixed.CreateDuplicateScenario | KdFixed.CreateFixed, KdFixed.CreateDuplicateScenarioFixed |
| exam_2/bstree.c:123-127 | when the successor is root->right, clearing succParent->left clears root->left and loses the left subtree, and root->right still points at the freed successor | delete 50 from 50(30, 70) | the key set becomes {30, 70} | not executed | BsTree.DeleteSuccessorIsRightChild | BsTree.DeleteFixed |
| exam_2/bstree.c:123-127 | a successor with a right child has that child written over succParent->right, which loses succParent's right subtree and puts a smaller key on its right | delete 50 from 50(30, 70(60(-, 65), 80)) | the key set becomes {30, 60, 65, 70, 80} in BST order | not executed | BsTree.DeleteSuccessorWithRightChild | BsTree.DeleteFixed |
| hw4/entry.c:72-105 | an empty last field is never checked, so a trailing comma is accepted and the field reads as 0 | "a,1," with two battlefields gives [1, 0] | empty values are rejected, as the file's header comment says it covers | not executed | Entry.TrailingEmptyFieldAccepted | Entry.EntryReadStrict, Entry.StrictEntryComplete |
