# Verified model of the KKT minimum-spanning-tree pieces

This project models, in Dafny, the three sequential pieces of a C++
implementation of the Karger–Klein–Tarjan randomized minimum-spanning-tree
algorithm, and proves what each piece promises:

- **One Boruvka contraction round** (`boruvkaCut`, `findMinWeightEdge` in
  `kkt_test.cpp`), in `boruvka.dfy`, on top of a union-find in
  `disjoint_set.dfy`.
  - Every current component chooses a lightest edge that leaves it.
  - The two components of every chosen edge are linked.
  - The slot of each absorbed representative in the `supervertices` list is
    overwritten with the null vertex, and the null entries are then erased.
- **Tree path maxima verification** (`verification.cpp`, Hagerup's
  linear-time verifier), in `bits.dfy`, `median.dfy`, `tree.dfy` and
  `path_maxima.dfy`. For each query (upper, lower), where upper is a proper
  ancestor of lower, the verifier finds the heaviest node on the path below
  upper down to lower.
  - The queries are threaded into one linked list per lower node.
  - A first preorder pass (`init`) records depths and, for every node `u`,
    the word `D[u]`: the depths of the ancestors above `u` at which some
    query in `u`'s subtree ends.
  - A second pass (`visit`) keeps the root-to-node stack `P` and a
    "staircase" `S`: the depths of the path that outweigh everything below
    them. `S` is narrowed by a binary search over the word of depths, steered
    by a precomputed table of medians (`median_table`, `subsets`). Each answer
    is read with the `down` bit trick.
- **The contraction forest** (`boruvka_tree/BoruvkaTree.cpp`,
  `boruvka_tree/BoruvkaNode.cpp`), in `boruvka_forest.dfy`.
  - Nodes hold a parent, a weight to the parent, a children list and the tag
    of the constructor that built them.
  - Two maps, `vertexToNode` and `nodeToVertex`, link graph vertices to
    nodes.
  - `create` builds leaves lazily; `setParent` builds the parent's node
    lazily and links the two.

How the model is organised:

- Machine words are natural numbers below 2^32. The operators `&`, `|`, `^`
  and `~` are defined bit by bit; `+` wraps modulo 2^32 (module `Words`).
  Every word lemma is stated in terms of the bit predicate `Has(x, j)`.
- The tree that `child` and `sibling` thread is a ghost value
  (`RootedTree.Tree`), used only in specifications.
- State the source changes in place becomes classes with fields and arrays,
  and methods with `modifies` clauses and loop invariants:
  - `Contractor` holds the union-find, `supervertex_map` and `supervertices`;
  - `DisjointSets` holds the parent array;
  - `MSTVerifier` holds `height` and the `depth`, `D`, `L`, `Lnext`, `P`,
    `median` and `answer` arrays;
  - `BoruvkaNode` and `BoruvkaTree` are the forest.
- Each such method is proved against a specification function or predicate.
  Lemmas prove what the source promises about those functions.
- Node pointers of the forest become arena indices, with `Null` (-1) for the
  null pointer.

## Model

| member | source | states |
|---|---|---|
| Boruvka.FindMinWeightEdge | kkt_test.cpp:192-196 | the result is one of the two arguments and weighs no more than either; on equal weights it is the second |
| Boruvka.Contractor.constructor | kkt_test.cpp:123-124 | every vertex starts as its own root of rank 0 and `supervertex_map` maps it to itself, as `make_set` and the map write in `createGraph` leave it; `supervertices` lists 0..n-1 (see the deviations under Left out) |
| Boruvka.Contractor.Slot | kkt_test.cpp:146-147 | `supervertex_map[find_set(x)]` is a valid slot of `supervertices` |
| Boruvka.ScanStep | kkt_test.cpp:143-154 | folding one more edge into a slot's candidate with `findMinWeightEdge` keeps it a lightest crossing edge offered to that slot, or infinity when none was offered |
| Boruvka.Contractor.ScanCandidates | kkt_test.cpp:138-154 | after the scan, each slot holds the last of the lightest edges among those whose ends lie in different components, one of which is the slot's; a slot offered no edge keeps the empty candidate of weight infinity |
| Boruvka.CandidateEdges | kkt_test.cpp:139-158 | every finite candidate names a real edge of the graph |
| Boruvka.Contractor.Merge | kkt_test.cpp:166-173 | `link(u, v)` reparents exactly the root that union by rank hangs (`u` unless it outranks `v`), every member of its set is now represented by the other, and the victim test nulls the slot of exactly that hung root, keeping the round invariant |
| Boruvka.Contractor.UnionAlong | kkt_test.cpp:159-175 | afterwards both ends of the candidate edge have the same representative; the partition only coarsens |
| Boruvka.AbsorbedStep | kkt_test.cpp:168-173 | a link adds exactly the slot of the absorbed root to the set of nulled slots |
| Boruvka.RoundStep | kkt_test.cpp:166-173 | one link and its marking keep `supervertices` equal to the start of the round with exactly the absorbed roots' slots nulled |
| Boruvka.MarkStep | kkt_test.cpp:173 | nulling one more slot is marking it together with the earlier ones |
| Boruvka.Contractor.LinkCandidates | kkt_test.cpp:156-176 | after the union loop, the ends of every finite candidate share a representative, the partition only coarsens and the nulled slots are exactly those of the absorbed roots |
| Boruvka.CandidatesJoin | kkt_test.cpp:156-176 | every slot that found a candidate is now joined, through one of the edges offered to it, to another component |
| Boruvka.JoinedCoarser | kkt_test.cpp:156-176 | candidates already joined stay joined as later links coarsen the partition |
| Boruvka.RemoveNull | kkt_test.cpp:185-187 | the erased list holds no null vertex |
| Boruvka.RemoveNullAppend | kkt_test.cpp:185-187 | erasing distributes over concatenation, so the survivors keep their relative order |
| Boruvka.RemoveNullCounts | kkt_test.cpp:185-187 | every non-null entry keeps its count, and the length drops by exactly the number of null entries |
| Boruvka.CompactStep | kkt_test.cpp:185-187 | one step of the in-place erase-remove keeps the written prefix equal to the erased prefix of the original |
| Boruvka.Contractor.Compact | kkt_test.cpp:185-187 | the new list is the old one with its null vertices erased |
| Boruvka.Contractor.ContractAlongCandidates | kkt_test.cpp:138-176 | scan plus union loop: every slot offered a crossing edge is joined through one of them to another component; the partition only coarsens |
| Boruvka.Contractor.BoruvkaCut | kkt_test.cpp:130-190 | the returned graph has one vertex per pre-compaction entry of `supervertices` and no edges; `supervertices` becomes the old list with the absorbed roots' slots nulled, then erased; every component that had a candidate is joined to another |
| DisjointSet.DisjointSets.constructor | kkt_test.cpp:123 | `make_set` of every id: each is its own parent, with rank 0 |
| DisjointSet.Root | kkt_test.cpp:146-147 | following parent links ends at a root |
| DisjointSet.DisjointSets.Find | kkt_test.cpp:161-162 | `find_set` returns a root |
| DisjointSet.LinkKeepsRanked | kkt_test.cpp:166 | hanging one root under another keeps parent chains finite |
| DisjointSet.LinkRoot | kkt_test.cpp:166 | after linking root `x` under root `y`, the representative of every old member of `x`'s set is `y`; all others are unchanged |
| DisjointSet.DisjointSets.Link | kkt_test.cpp:166 | `link(x, y)` finds both roots and, when they differ, hangs the lower-ranked one under the other (the first under the second on a tie, which raises the second's rank by one); only the hung root's parent changes, and the representatives are the old ones with the hung root relabelled to the kept one; when they are equal nothing changes |
| DisjointSet.DisjointSets.HangUnder | kkt_test.cpp:166 | hanging root `h` under root `k` of no lower rank changes exactly `parent[h]`, raises `k`'s rank only on a tie, keeps the ranking and moves exactly `h`'s members to `k` |
| DisjointSet.UnionByRank | kkt_test.cpp:166 | the hung and the kept root are the two roots; afterwards the kept root strictly outranks the hung one and no other rank changes |
| DisjointSet.LinkRoots | kkt_test.cpp:166 | the representatives after a link are the old ones with the hung root relabelled, and the ranking still holds |
| DisjointSet.RelabelCoarser | kkt_test.cpp:166 | a link only merges sets: ids together before are together after |
| DisjointSet.CoarserTrans | kkt_test.cpp:156-176 | coarsening composes over the links of a round |
| Words.DownSpec | verification.cpp:81-84 | the members of `down(A, B)` are exactly the successors in `B` of the members of `A` |
| Words.DownSubset | verification.cpp:81-84 | `down(A, B)` is a subset of `B` |
| Words.DownEmpty | verification.cpp:81-84 | `down(0, B)` is empty |
| Words.DownNext | verification.cpp:81-84 | the successor in `B` of a member of `A` is also its successor in `down(A, B)` |
| Words.DownSingle | verification.cpp:81-84 | `down({a}, B)` is the singleton of `a`'s successor in `B` |
| Words.DownCarry | verification.cpp:83 | the carry into bit t of `A + (A \| ~B)` is set exactly when some member of `A` lies below t with no member of `B` in between |
| Words.AddBit | verification.cpp:83 | 32-bit wrapping addition, bit by bit: sum bit = xor of the operand bits and the carry |
| Words.HasNot | verification.cpp:46 | `~x` holds exactly the bits below 32 that `x` lacks |
| Median.Subsets | verification.cpp:51-59 | returns `p + C(n, k)`, writes `T[p..r)` with the k-subsets of {0..n-1} in the order of the recursion and leaves every other entry of `T` alone |
| Median.BinomZero | verification.cpp:54 | when `n < k` there are no subsets, so `subsets` returns `p` |
| Median.EnumSound | verification.cpp:51-57 | every word stored has exactly k bits, all below bit n |
| Median.EnumComplete | verification.cpp:51-57 | every k-subset of {0..n-1} is stored |
| Median.AddBitRange | verification.cpp:57 | `T[i] \|= 1<<b` for exactly the entries in [p, q) |
| Median.TableRoom | verification.cpp:65-70 | the three lists built per round fit in the `2^h + 1` entries of `T` |
| Median.BlockEntry | verification.cpp:72-74 | `b + T[j]` with k high and k or k+1 low bits is a non-zero index within the table whose median is s |
| Median.BlockCover | verification.cpp:66-77 | every set whose median is s is `b + T[j]` for its high part and low part, which the round for s and its count of high bits lists |
| Median.FillRow | verification.cpp:73-74 | writes s at `b + T[j]` for every j in [p, q), keeps every written entry a correct median and never clears an entry |
| Median.FillBlock | verification.cpp:71-75 | the nested loops write an entry for every pair of high and low part and keep the table sound |
| Median.MedianRound | verification.cpp:67-75 | one (s, k) round keeps the table sound and covers every set whose median is s and which has k high bits |
| Median.MedianTable | verification.cpp:61-79 | the table has `2^(h+1)` entries, -1 at 0 and, at every non-empty set x of depths 0..h, its median (a member of x) |
| Median.MedianExists | verification.cpp:61-62 | every non-empty set of depths has a median |
| Median.MedianUnique | verification.cpp:61-62 | the median is unique |
| Median.MedianAboveLeast | verification.cpp:98-106 | a median of a set with two or more members is not its least member, so the search's halving makes progress |
| PathMaxima.MSTVerifier.constructor | verification.cpp:4-14 | stores the input with height 0; `depth`, `D` and `answer` get one entry per node, node and query, with `D` empty and `answer` -1 |
| PathMaxima.MSTVerifier.BuildLists | verification.cpp:18-24 | the distribution loop's arrays are exactly the lists `Distributed` describes |
| PathMaxima.DistributeStep | verification.cpp:22-23 | pushing query i on the list of its lower end keeps every list equal to the queries so far at that node, latest first |
| PathMaxima.DistributedListed | verification.cpp:21-24 | after the loop, walking `L[u]`, `Lnext[..]` from every u visits exactly the queries at u and ends in -1 |
| PathMaxima.QueriesAtComplete | verification.cpp:21-24 | every query at u is on u's list |
| PathMaxima.QueriesAtOrder | verification.cpp:21-24 | each list is in strictly decreasing query order, so no query appears twice |
| PathMaxima.MSTVerifier.TreePathMaxima | verification.cpp:16-28 | returns one answer per query, each the deepest heaviest node on the path below upper[i] down to lower[i]; `height` ends as the greatest depth of the tree |
| PathMaxima.MSTVerifier.Answer | verification.cpp:30-37 | `init`, the median table and `visit` from the root answer every query as above; `height` is the greatest depth |
| PathMaxima.MSTVerifier.Init | verification.cpp:39-48 | every node of the subtree gets its depth; `D` of every node of the subtree holds exactly the depths above it of the queries' upper ends in its subtree; `height` becomes the max of the old height and the subtree's greatest depth; nothing outside the subtree changes |
| PathMaxima.MSTVerifier.InitSelf | verification.cpp:40-43 | `depth[u] = d`, `height = max(height, d)` and `D[u]` holds exactly the depths of the upper ends of the queries at u |
| PathMaxima.MSTVerifier.AddQueryBits | verification.cpp:42-43 | walking u's query list sets in `D[u]` exactly the bits of the listed upper ends' depths, and no other entry of `D` changes |
| PathMaxima.WordBits | verification.cpp:43 | the word of a list of depths has exactly those bits |
| PathMaxima.MSTVerifier.InitChildren | verification.cpp:44-47 | the child loop initialises every child's subtree and raises `height` to the greatest depth among them |
| PathMaxima.MSTVerifier.InitNext | verification.cpp:44-47 | one pass of the child loop initialises the next child and moves `v` to its sibling, keeping the earlier children done and the later ones untouched |
| PathMaxima.MSTVerifier.InitKid | verification.cpp:45-46 | after `init(v, d+1)`, `D[u]` gains every bit of `D[v]` except bit d |
| PathMaxima.MergeBits | verification.cpp:46 | the bits of `D[u]` after the child loop are its own query bits plus every child's bits other than d |
| PathMaxima.MSTVerifier.DRoot | verification.cpp:42-47 | that word is exactly the depths above u of the upper ends of the queries in u's subtree |
| PathMaxima.MSTVerifier.TallestAttained | verification.cpp:41 | the greatest depth the height records is the depth of some node of the subtree |
| PathMaxima.MSTVerifier.TallestStep | verification.cpp:41-46 | raising the height across one more child covers that child's subtree |
| PathMaxima.MSTVerifier.BinarySearch | verification.cpp:98-108 | returns max({j in S \| weight[P[j]] > w} ∪ {0}), 0 for S = 0, when the weights along S do not increase |
| PathMaxima.SearchStep | verification.cpp:102-106 | one halving keeps the answer in the half kept, which is non-empty and strictly smaller |
| PathMaxima.SearchExit | verification.cpp:107 | once one depth is left, the final test gives the search result |
| PathMaxima.StairSearchable | verification.cpp:89 | the set searched at line 89 lies on the path with non-increasing weights, as the search needs |
| PathMaxima.CutBits | verification.cpp:90 | the corrected mask keeps the steps of S up to depth k and adds the node's own depth |
| PathMaxima.StairStep | verification.cpp:89-90 | the new staircase is again a set of depths each outweighing every deeper node of the path |
| PathMaxima.ServesStep | verification.cpp:89-90 | for every depth in `D[v]` the next step of the new staircase below it is the deepest heaviest node after it |
| PathMaxima.VisitStep | verification.cpp:89-90 | with the corrected mask, the new staircase is a staircase and serves every depth of `D[v]` |
| PathMaxima.AnswerStep | verification.cpp:93 | `down({a}, S)` is the singleton of the answer for depth a |
| PathMaxima.MSTVerifier.UpperAbove | verification.cpp:93 | the upper end of every query at v is the path node at its own depth above v |
| PathMaxima.MSTVerifier.AnswerRead | verification.cpp:93 | the table entry `median[down(1<<depth[upper[i]], S)]` indexes the stack `P` at the answer to query i |
| PathMaxima.MSTVerifier.ReadAnswer | verification.cpp:93 | the value read is the answer to query i |
| PathMaxima.MSTVerifier.WriteStep | verification.cpp:92-93 | writing one more answer from v's list keeps the earlier ones and the other nodes' entries |
| PathMaxima.MSTVerifier.WriteAnswers | verification.cpp:92-93 | every query at v gets its answer; no other entry of `answer` changes |
| PathMaxima.MSTVerifier.AnswerQueries | verification.cpp:92-93 | with the stack holding the root-to-v path, every query at v is answered and nothing else changes |
| PathMaxima.MSTVerifier.KidsAnsweredStep | verification.cpp:95 | visiting one more child answers the queries of its subtree and keeps those of the earlier children |
| PathMaxima.MSTVerifier.VisitChildren | verification.cpp:95 | every query in the subtree of a child of v is answered; the stack prefix up to v is kept |
| PathMaxima.MSTVerifier.Visit | verification.cpp:86-96 | with the mask of verification.cpp:90 corrected (see Findings): `P[0..depth[v]]` is the root-to-v path while v is visited; every query with lower end in v's subtree gets its answer; the others and the stack above v are unchanged |
| PathMaxima.MaskAsWrittenOnWords | verification.cpp:90 | on the words D[v] = 3 and S = 6 of the example below, every precondition of a visit step holds and the search returns 2, yet the set built as written no longer gives depth 0 its answer |
| PathMaxima.MaskAsWrittenLosesAnswer | verification.cpp:90 | for path weights [0, 3, 2], S = {1, 2}, D[v] = {0, 1} and weight 1 at v, every precondition of a visit step holds and the search returns 2, yet the set built as written no longer gives depth 0 its answer |
| BoruvkaForest.BoruvkaNode.constructor | boruvka_tree/BoruvkaNode.cpp:10-15 | null parent, tag 0, weight -1 and no children; the tag invariant holds |
| BoruvkaForest.BoruvkaNode.FromVertex | boruvka_tree/BoruvkaNode.cpp:20-25 | null parent, tag 1, weight -1 and no children; the vertex is not stored; the tag invariant holds |
| BoruvkaForest.BoruvkaNode.AddChild | boruvka_tree/BoruvkaNode.cpp:27-30 | the child is appended; parent, weight and tag are unchanged, so the tag invariant is kept |
| BoruvkaForest.BoruvkaNode.SetParent | boruvka_tree/BoruvkaNode.cpp:32-36 | exactly the parent and the weight change, so the tag invariant is kept |
| BoruvkaForest.BoruvkaNode.GetType | boruvka_tree/BoruvkaNode.cpp:38-41 | the constructor tag, which is 0 or 1 by the invariant that both constructors establish and no method breaks |
| BoruvkaForest.BoruvkaTree.constructor | boruvka_tree/BoruvkaTree.cpp:11-14 | the node count is `numLeaves`, no node exists and both maps are empty |
| BoruvkaForest.BoruvkaTree.GetRoot | boruvka_tree/BoruvkaTree.cpp:73-76 | the root, which is always null |
| BoruvkaForest.TypeOfMissing | boruvka_tree/BoruvkaTree.cpp:33 | under the invariant, tag 0 means exactly that the vertex has no node |
| BoruvkaForest.BoruvkaTree.TypeOfVertex | boruvka_tree/BoruvkaTree.cpp:33 | the tag `getType` reads for a vertex in the current state |
| BoruvkaForest.BoruvkaTree.NewLeaf | boruvka_tree/BoruvkaTree.cpp:35-38 | one new leaf under the root with weight -1 at the end of the arena, recorded in both maps; existing nodes are unchanged |
| BoruvkaForest.AddNodeWellFormed | boruvka_tree/BoruvkaTree.cpp:35-38 | adding a node for a vertex without one keeps the two maps mutually inverse and the invariant |
| BoruvkaForest.BoruvkaTree.Create | boruvka_tree/BoruvkaTree.cpp:28-41 | the new state is `CreateSpec` of the old state and the list |
| BoruvkaForest.CreateWellFormed | boruvka_tree/BoruvkaTree.cpp:28-41 | `create` keeps the maps mutually inverse and every reference in range |
| BoruvkaForest.CreateKeeps | boruvka_tree/BoruvkaTree.cpp:33 | `create` never replaces a node: the old arena is a prefix of the new one, old map entries are kept, and the root and node count are untouched |
| BoruvkaForest.CreateCovers | boruvka_tree/BoruvkaTree.cpp:28-41 | afterwards every listed vertex has a node |
| BoruvkaForest.CreateNewNodes | boruvka_tree/BoruvkaTree.cpp:35-38 | every added node is a leaf under the root with weight -1, belonging to a listed vertex that had no node |
| BoruvkaForest.CreateNoop | boruvka_tree/BoruvkaTree.cpp:33 | on a list whose vertices all have nodes, `create` changes nothing |
| BoruvkaForest.CreateIdempotent | boruvka_tree/BoruvkaTree.cpp:28-41 | calling `create` twice with the same list is the same as calling it once |
| BoruvkaForest.BoruvkaTree.LinkNodes | boruvka_tree/BoruvkaTree.cpp:58-62 | the child's parent and weight are set and the parent's children gain the child, as `LinkSpec` says |
| BoruvkaForest.BoruvkaTree.SetParent | boruvka_tree/BoruvkaTree.cpp:46-56 | the new state is `SetParentSpec` of the old one, and the invariant is kept |
| BoruvkaForest.SetParentEffect | boruvka_tree/BoruvkaTree.cpp:46-62 | the parent's node is created only when it had none, as a new leaf under the root with weight -1 and tag 1 at the end of the arena, recorded in both maps; the child then has that parent and weight w, the parent's children gained the child, the child stays in any earlier parent's list, the maps stay inverse and no other node changes |

## Left out

- Console output, `main` and `std::rand` (kkt_test.cpp) are input and
  output or randomness. The random graph `createGraph` builds is an input
  of `BoruvkaCut`; the union-find and map set-up it does (lines 123-124) is
  what the `Contractor` constructor models.
- The `kktMST` recursion (kkt_test.cpp:77-110) and its random edge removal
  are not modelled. As written, the function returns only when the graph
  has exactly one edge. Otherwise `graph2` has no edges, because the loop at
  lines 179-184 adds vertices only, so the recursive call at line 101 again
  takes the `num_edges != 1` branch and never returns. When `graph2` has no
  vertices, line 88 divides by zero. The removal test at line 92 is integer
  division and never fires.
- Boost's `adjacency_list` is replaced by a sequence of `(u, v, w)` edges.
  An edge descriptor becomes the edge's index, with -1 for a
  default-constructed one.
- Path compression in Boost's `find_set` is not modelled. It changes
  parents but no representative and no rank. Union by rank is modelled as
  the library does it (`DisjointSet.DisjointSets.Link`), so which root of a
  link survives, and therefore which slot the victim test at
  kkt_test.cpp:170-173 nulls, is the library's choice.
- `supervertex_map` is read only at representatives, which the round
  invariant keeps in the map. The inserting behaviour of `operator[]` on a
  missing key is not modelled.
- The loop at kkt_test.cpp:179-184 adds one vertex per entry of
  `supervertices` to `graph2` and does nothing with it, so the returned
  graph is modelled as its vertex count, with no edges.
- `makeEmpty` and the destructors (boruvka_tree/BoruvkaTree.cpp:20-23,
  67-71, 83-92) are memory management.
- `getChildren`, `getSiblings` and `getRootInt` are not implemented in the
  source. `child`, `sibling` and `root` are inputs of the
  `MSTVerifier` constructor, with -1 for "none", together with the ghost
  shape of the tree they thread.
- Deviations where the code does not do what it evidently intends. The model
  follows the intent:
  - `supervertices` is never filled (kkt_test.cpp:41). `candidate_edges`
    then has no slots, and lines 151-152 and 173 index out of range on every
    edge. `parent` and `rank` are zero-filled (lines 37-38), and `make_set`
    and `supervertex_map[i] = i` run only inside `createGraph` (lines
    123-124), for vertices with an out-edge. The `Contractor` constructor
    makes every vertex its own root of rank 0, maps it to itself and lists
    0..n-1 in `supervertices`.
  - `m` and `n` are never assigned. The model uses `m = |upper|` and
    `n = |child|`.
  - `depth`, `D` and `answer` are never sized. The model gives them one
    entry per node, node and query. `D` starts empty and `answer` starts
    at -1.
  - `P` is built as `std::vector<int>(0, height+1)`, which has no elements
    (verification.cpp:33). The model gives it `height + 1` entries.
  - `subsets` takes `T` by value (verification.cpp:53), so its writes never
    reach `median_table`. The model shares `T`.
  - `T` starts at -1 in the source (verification.cpp:65). The model's `T`
    holds natural numbers and starts at 0. Every entry is written before it
    is read.
  - `this.` in BoruvkaNode.cpp does not compile; the model assigns the
    fields.
  - `childern.insert(child)` on a `std::list` does not compile; the model
    appends.
  - `getType` is declared as a free function; the model makes it the
    node's method.
  - `root` of `BoruvkaTree` is never initialised. The model fixes it at the
    null pointer.
  - `vertexToNode[v]` for a vertex with no node yields a null pointer that
    `getType` then dereferences (boruvka_tree/BoruvkaTree.cpp:33, 48). The
    model reads it as a default-constructed node, of tag 0, which is what
    the test evidently checks for.
- C++ `int` words are modelled as their 32-bit patterns. `&`, `|`, `^` and
  `~` act on the bits, and `+` wraps as two's complement addition does. A
  signed overflow in `A + (A|~B)` is undefined in C++; the model takes the
  wrap-around that the `down` trick relies on.
- PathMaxima.MSTVerifier.Answer: requires every depth plus 2 to be below 32,
  so that `1 << (height+1)` is a positive `int`. The source has no such
  check and computes garbage for deeper trees.
- PathMaxima.MSTVerifier.TreePathMaxima: requires the same depth bound, for
  the same reason.
- PathMaxima.MSTVerifier.Init: requires the same depth bound, so that every
  `1<<depth` it or-s into `D` is a bit of the word.
- PathMaxima.MSTVerifier.InitSelf: requires the same depth bound.
- PathMaxima.MSTVerifier.InitChildren: requires the same depth bound.
- PathMaxima.MSTVerifier.InitNext: requires the same depth bound.
- PathMaxima.MSTVerifier.InitKid: requires the same depth bound.
- PathMaxima.MSTVerifier.constructor: requires every query's upper end to be
  a proper ancestor of its lower end. verification.hpp:13 only calls them
  the two ends of an original-graph edge. With `upper == lower`, line 93
  reads `P[median[0]]`, which is `P[-1]`. With an upper end that is not an
  ancestor, it answers for the lower end's ancestor at `depth[upper]`.
- PathMaxima.MSTVerifier.BinarySearch: requires the weights along `S` not
  to increase with depth. The comment at verification.cpp:99 promises the
  maximum for any `S`. Inside `visit` the requirement always holds
  (`StairSearchable`).
- BoruvkaForest.BoruvkaTree.SetParent: requires the child to have a node.
  The source dereferences the null pointer `vertexToNode[child]` otherwise.
- Boruvka.Contractor.BoruvkaCut: keeps `supervertex_map` unchanged and does
  not promise the `Contractor` invariant afterwards, as in the source. After
  the erase at kkt_test.cpp:185-187 the map's slots index the compacted list
  and can fall outside it, so a second round on a graph with edges would
  read wrong slots. In `kktMST` the second round's graph has no edges, so
  no slot is read.

## Findings

| source | as written | input that shows it | evidently intended | confidence | as-written member | corrected member |
|---|---|---|---|---|---|---|
| verification.cpp:90 | `S&(1<<(k+1)-1)` parses as `S & (1 << k)`, because `-` binds tighter than `<<`. It keeps at most step k of the staircase, not every step up to k | path weights [0, 3, 2], S = {1, 2}, D[v] = {0, 1}, weight[v] = 1: the search returns k = 2 and the mask keeps only step 2, so the next step below depth 0 becomes depth 2 (weight 2) instead of depth 1 (weight 3) | `S & ((1 << (k+1)) - 1)`: keep the steps at depths 0..k | not executed | PathMaxima.MaskAsWrittenOnWords | PathMaxima.VisitStep |
