# Verified models of encrypted range-query indexes

The repository builds searchable indexes over encrypted spatio-temporal records. The cryptography is used as a black box;
what has to be right is the combinatorics around it: which label a record is stored under, which labels a query asks for,
and that the two meet. This project models those index structures and proves that they do.

Hashes, ciphers, random seeds and random filler bytes are parameters. What is assumed of them is written as a predicate
over the finitely many inputs in use (`Emm.Apart`, `JxtSetup.KeysApart`, `JxtServer.SearchApart`), never as injectivity
of a fixed-length hash on all strings. Integers are unbounded except where a width matters (bytes, 64-bit words,
counters of a few bits), and `double` coordinates are exact reals.

Code that works by changing things step by step is modelled by methods over arrays, classes and loops, proved against
functions of the old state; what those functions mean is then stated by lemmas. Some orchestrating methods begin with a
`hide` statement: it keeps the bodies of the named functions out of that one proof and assumes nothing.

## The files

| files | what they model |
|---|---|
| Arith, Tool, Words, Sequences, Sorting, BinarySearch, Decimal, Grid, Postings | number facts; exclusive-or of bytes; 64-bit words; members of sequences; stable sorting; binary search; decimal numerals inside labels; points and boxes; keyword maps |
| Peeling, Xor8, SlotLayouts, Xor8Limits | the three-block exclusive-or table: counting, peeling, reverse assignment, search; how many slots a peel needs, and what the table can store |
| Bloom, HeapTree, Listings, SegmentTree | the keyword segment tree whose nodes come to share Bloom filter objects |
| Octree, QuadTree, OctreeCover, Coordinates, Qdag | the staggered octree: breadth-first build, depth-first search, arithmetic cover, labels, coordinates |
| Tdag, TdagSrc3D | the binary tree with middle ranges; its three-dimensional product index |
| SrcI1, SrcI1Query | the two-level range index and a whole query through the encrypted multimap |
| TimeBuckets, TimeBucketBuilder, BucketScan | adaptive time buckets, the day locator, the scan |
| BitValues, Bitvector, CounterVector, CountingFilters | bits and their values, bits in words, saturating counters in such a bit vector, counting and minimum-increase filters |
| Emm, EncryptedDb | the encrypted multimap; the spatial database that puts an index and the multimap together |
| JxtSetup, JxtJoin, JxtServer | the join index of two tables, the plaintext join in terms of the records, and the search |

## Main results

* Xor8: an attempt succeeds exactly when the keys have no core in which every slot is shared and no slot has more than
  120 owners; in the array the code allots, some slots allow that if and only if the number of keys is none of 2, 3, 5
  and 8. For all other sizes above 1 there are keys with which a first seed is given up and a second one builds. Of
  all tables the code can build, whatever the order of peeling and the filler, all read back their ciphertexts if and
  only if these have one length between 1 and 32 bytes, or their number is one of those four and there is no table.
  For all others a hash is given under which every seed succeeds and some key is always cut.
* Segment tree: after any updates and any merge decisions no keyword is lost, although merging writes into filters that
  other nodes also refer to; answers are exact listings in increasing order, and a keyword has no answer unless each of
  its digests falls together with a digest of a keyword that was given.
* Octree: breadth-first build, depth-first search and the arithmetic cover agree on one lattice; the cover search finds
  a narrowest cube exactly when no side is misrounded at a level that can be computed beforehand, and is never more than
  two levels too high. Said of the query itself: the cube has all points asked for, starts last among the cubes of its
  width around them, and is narrowest, and under four times the longest side wide, where all sides are at least 2 long.
* Spatial database: a query through the encrypted multimap gives the ids in that cube of the octree, or in the product of
  the shortest ranges of the three trees; no entry that is asked for is lost.
* Two-level index: from building and encrypting to the query, the answer over the records ordered by attribute and then
  id is nothing if none matches, and otherwise the ids at the positions of the shortest tree range with every match.
* Time buckets: the records, ordered by time and then id, are cut so that each group meets the limits of the
  configuration and would break one with the next record. The scan gives, bucket after bucket, what the trees find in
  exactly the slots that the query touches, with every record of the query in one of them.
* Filters: words refine bits, bits refine counters; an object's cells are where its digests fall; the minimum-increase
  answer lies between the number of additions and the plain answer, and the plain counters are exact over additions and
  removals that neither stick nor wrap.
* Multimap and join: the encrypted query returns the plaintext postings; setting up two tables and searching a range
  gives, for every token of every interval, the join of its series. In terms of the records: one pair of lists for each
  value that both keywords have, in the order of its first record, with the encrypted ids of exactly the records that
  have it. An interval that carries a token several times repeats its join as often.

## Where the code and its comments disagree

* `TdagSRC3D::getQueryLabels` takes the end of a box as inclusive although boxes are half-open elsewhere; a box ending at
  the end of the domain throws (`TdagSrc3D.QueryHasLabels`).
* The octree cover rounds `end - 1`, so a side of length 1 can miss a smaller cube (`OctreeCover.UnitSideMissesCube`),
  and two such sides can cost two levels (`OctreeCover.TwoLevelsTooHigh`); `OctreeCover.CoverIsNarrowest` says exactly
  when a cube is missed.
* `Xor8` cuts: a key that shares the cell in which a shorter ciphertext is stored reads no more than that one's length
  (`Xor8Index.SharedCellCuts`), and an empty ciphertext never reads back empty (`Xor8Index.ExactKeys`).
  `Xor8Limits.ExactIffStorable` says exactly which ciphertexts are safe, `Xor8Limits.UnstorableIsCut` gives the failing
  input for all others.
* `Xor8` never finishes for 2, 3, 5 or 8 keys, whose array has too few usable slots for a complete peel, which needs two more than keys
  (`Xor8Limits.SizesStuck`, `Xor8Limits.PossibleSizes`), and builds nothing for a key list with a repeat
  (`Xor8Limits.RepeatedKeyNeverPeels`).
* `Tdag::descend_tree` runs forever for a value outside the tree, except for the one just behind the last
  (`Tdags.DescentEnds`). That value is listed under the ranges that end with the last value, none of which has it
  (`Tdags.BehindIsExact`), so a point there turns up in queries far from it (`TdagSrc3D.UnderIsHas`).
* The second operand of the mask that marks a repeated join value is 16 bytes long, so masked entries are cut to 16
  bytes; the first 8 are all that is read (`JxtServer.EntryOpens`).
* `counter_vector::decrement` below zero wraps around (`CounterVectors.SubtractExact`).

## Model

| member | source | states |
|---|---|---|
| Tool.Xor | src/utils/tool.cpp:26-33 | exclusive-or of the common prefix, byte by byte |
| Tool.XorRestores | src/utils/Xor8.cpp:108-116 | a cell filled with value ^ a ^ b makes the exclusive-or of the three cells the common prefix of the value, wherever the cell stands among the three |
| Peeling.CountSlots | src/utils/Xor8.cpp:15-25 | the counting pass gives up exactly when some slot has more than 120 owners; otherwise each counter is the number of owners and each accumulator the exclusive-or of their indices |
| Peeling.FindAlone | src/utils/Xor8.cpp:28-37 | each stack holds, without repetition, exactly the slots of its block that have one owner |
| Peeling.StackHasRoom | src/utils/Xor8.cpp:58-60 | a stack of distinct slots of a block never overflows its block length |
| Peeling.SingleOwner | src/utils/Xor8.cpp:50-54 | the accumulator of a slot with counter one names its only owner |
| Peeling.CoreSurvives | src/utils/Xor8.cpp:39-66 | a set of keys in which every slot is shared loses no key when a single owner is peeled |
| Peeling.RemainderIsCore | src/utils/Xor8.cpp:49-49 | when all stacks are empty, every slot of every remaining key is shared |
| Peeling.PeelRound | src/utils/Xor8.cpp:40-66 | one turn keeps counters, accumulators and stacks in step with the remaining keys; the unexpected count is never seen |
| Peeling.Peel | src/utils/Xor8.cpp:39-67 | peeling removes all keys exactly when no non-empty set of keys shares all its slots, whatever order the stacks give; it ends, peels no key twice and never sees an unexpected count |
| Xor8Index.SlotsInBlocks | src/utils/Xor8.cpp:98-102 | slot number i of every key lies in block i |
| Xor8Index.SlotScales | src/utils/Xor8.cpp:98-102 | within its block a slot stands where the low half of the key's hash word under the seed, scaled to the block length, falls |
| Xor8Index.ChangeSlotFree | src/utils/Xor8.cpp:69-88 | the cell a key is stored in is no cell of a key answered before it |
| Xor8Index.AssignKey | src/utils/Xor8.cpp:70-87 | one key is answered in place: its empty cells are filled and its own cell gets the ciphertext combined with them, as AfterKey says |
| Xor8Index.AfterKeyExact | src/utils/Xor8.cpp:70-87 | then the key is settled with no more than its ciphertext in its own cell; of the other cells only empty ones are written |
| Xor8Index.Assign | src/utils/Xor8.cpp:69-88 | the reverse pass answers the keys from the last one peeled to the first |
| Xor8Index.AfterKeysExact | src/utils/Xor8.cpp:69-88 | after the reverse pass every key is answered, and no answer is disturbed by a later one |
| Xor8Index.AnswerStays | src/utils/Xor8.cpp:69-88 | what the cell of an answered key holds stays there and is no longer than its ciphertext |
| Xor8Index.FillRest | src/utils/Xor8.cpp:89-95 | random filling touches only cells that are still empty |
| Xor8Index.AnswersAfterFill | src/utils/Xor8.cpp:69-116 | filling disturbs no answer, and no answer is empty or shorter than every ciphertext |
| Xor8Index.ExactLengths | src/utils/Xor8.cpp:79-87 | for ciphertexts of one length, all keys read back exactly if and only if the length is between 1 and 32 |
| Xor8Index.ExactKeys | src/utils/Xor8.cpp:79-87 | a key whose non-empty ciphertext is no longer than any other and than 32 bytes reads back exactly; an empty one never does |
| Xor8Index.SharedCellCuts | src/utils/Xor8.cpp:79-116 | a key that shares the cell another key's answer is stored in reads no more than that key's ciphertext is long |
| Xor8Index.Attempt | src/utils/Xor8.cpp:14-67 | one seed ends in a collision error, success or a retry, each exactly when the slots are overfull, peelable or neither |
| Xor8Index.TrySeeds | src/utils/Xor8.cpp:14-67 | the first seed that is not a retry decides |
| Xor8Index.Xor8.constructor | src/utils/Xor8.cpp:5-96 | the first seed that is not given up decides; a finished table answers every key under that seed |
| Xor8Index.Xor8.Search | src/utils/Xor8.cpp:108-116 | a search reads the three cells the construction used for the key |
| SlotLayouts.NeedsSlots | src/utils/Xor8.cpp:39-67 | keys of which no non-empty set shares all its slots use at least two slots more than there are keys |
| SlotLayouts.PeelNeedsRoom | src/utils/Xor8.cpp:39-67 | so a complete peel needs two slots more than keys |
| SlotLayouts.CompletePeel | src/utils/Xor8.cpp:39-67 | every slot map without a core has a complete peel |
| Xor8Limits.RoomForSize | src/include/Xor8.hpp:17-27 | the array has that many slots except for 2, 3, 5 and 8 keys |
| Xor8Limits.SizesStuck | src/utils/Xor8.cpp:6-67 | for these sizes every seed is given up under every hash, and the loop never ends |
| Xor8Limits.PossibleSizes | src/utils/Xor8.cpp:6-67 | in the array the code allots, some slots lie in their blocks, have no core and overfill nothing, if and only if the size is none of these |
| Xor8Limits.BuildableSizes | src/utils/Xor8.cpp:6-102 | and then, and only then, some hash and different keys give a table under every seed |
| Xor8Limits.RetryBuilds | src/utils/Xor8.cpp:6-102 | for each such size above 1 a hash and different keys with which the first seed is given up and the construction ends built under the second |
| Xor8Limits.RepeatedKeyNeverPeels | src/utils/Xor8.cpp:39-67 | a key given twice is never peeled, under any seed |
| Xor8Limits.NeverBuilt | src/utils/Xor8.cpp:14-67 | so a key list with a repeat never gives a table, and a stuck size uses up all seeds |
| Xor8Limits.ShortBaseCuts | src/utils/Xor8.cpp:69-116 | a key that shares each of its slots with one of two longer ones makes one of them read less than it stored, in every order of peeling |
| Xor8Limits.LongTopCuts | src/utils/Xor8.cpp:69-116 | a key that shares a slot with each of two shorter ones is cut in every order of peeling, where both share their other slots with a common base: one of the two is peeled from the slot they share |
| Xor8Limits.ExactIffStorable | src/utils/Xor8.cpp:5-116 | in every table of the code's length, all keys read back exactly for all slots, orders and fillers, if and only if the ciphertexts have one length between 1 and 32 or their number is 2, 3, 5 or 8 |
| Xor8Limits.UnstorableIsCut | src/utils/Xor8.cpp:5-116 | for all other ciphertexts a hash and different keys under which every seed gives a table, and every table cuts some key |
| Xor8Limits.StoreAndRead | src/utils/Xor8.cpp:5-116 | the first seed that is not given up decides, and one that always can succeed does; searching all keys then gives back ciphertexts of one length between 1 and 32, and prefixes of the non-empty ones in any case; not all of them where the slots always cut |
| Bloom.BasicBloomFilter.Add | libbf/src/bloom_filter/basic.cpp:56-67 | sets the cells of the object and no others; a filter with the cells of some objects then has those of one more |
| Bloom.BasicBloomFilter.Lookup | libbf/src/bloom_filter/basic.cpp:69-84 | found exactly if all cells of the object are set: after some objects were added, exactly if each of its digests falls together with a digest of one of them |
| Bloom.CellInPart | libbf/src/bloom_filter/basic.cpp:56-84 | with partitioning a digest stays in its own part, and a small digest is its place there; without it a small digest is its cell |
| Bloom.SameCell | libbf/src/bloom_filter/basic.cpp:56-84 | two digests share a cell if and only if they are congruent modulo the cells, with partitioning modulo a part and with the same number |
| Bloom.CellLands | libbf/src/bloom_filter/basic.cpp:56-84 | the cell of a digest is the only one in its part that is congruent to it |
| Bloom.CellsAmong | libbf/src/bloom_filter/basic.cpp:56-84 | the cells of an object are among those of others if and only if each of its digests falls together with one of theirs |
| Bloom.OnesCounted | libbf/src/bitvector.cpp:335-350 | counting ones gives the number of set bits |
| Bloom.DifferencesCounted | src/utils/DSegmentTree.cpp:36-50 | the distance is the number of positions where two filters differ |
| Bloom.BasicBloomFilter.SetStorage | libbf/src/bloom_filter/basic.cpp:108-121 | replaces the bits unless the size is wrong |
| Bloom.HitGrows | libbf/src/bloom_filter/basic.cpp:56-84 | setting more bits never loses an object |
| HeapTree.NodeBelow | src/utils/DSegmentTree.cpp:16-34 | every heap index of a node with a span is below 4n, for every n |
| HeapTree.ChildrenHalve | src/utils/DSegmentTree.cpp:86-102 | the left child of a node has the first half of its positions, with the middle one if their number is odd, the right child the rest |
| SegmentTrees.SegmentTree.MergeBloom | src/utils/DSegmentTree.cpp:52-84 | the union is written into the first filter, which is returned; a missing filter hands on the other object |
| SegmentTrees.SegmentTree.Build | src/utils/DSegmentTree.cpp:86-102 | the nodes below get their spans, every leaf a new filter of its own, inner nodes none, and nothing else changes |
| SegmentTrees.SegmentTree.UpdateParent | src/utils/DSegmentTree.cpp:104-123 | the union of the children's filters is written into the left child's filter, which the node then refers to (the right child's if the left has none); no other filter changes; every other covered node stays covered, and the node is covered if its children were |
| SegmentTrees.SegmentTree.UnionKeepsCells | src/utils/DSegmentTree.cpp:52-84 | writing a union into one of several shared filters sets no cell that was not set in some filter, and loses none |
| SegmentTrees.SegmentTree.HammingDistance | src/utils/DSegmentTree.cpp:36-50 | the number of cells in which two filters differ |
| SegmentTrees.SegmentTree.MergeLeafNodes | src/utils/DSegmentTree.cpp:125-171 | nothing changes unless leaf and sibling both have filters in use that differ in few enough cells; then leaf, sibling and parent refer to one filter that has both, the node above takes its first child's, and only nodes above the leaf can lose coverage |
| SegmentTrees.SegmentTree.Update | src/utils/DSegmentTree.cpp:173-215 | the position gains the token and the keyword, every node still passes every keyword below it, and over all filters exactly the cells of the keyword are added, whatever is merged |
| SegmentTrees.KeywordAccounted | src/utils/DSegmentTree.cpp:173-215 | the cells set over all filters stay exactly those of the keywords given so far |
| SegmentTrees.SegmentTree.Query | src/utils/DSegmentTree.cpp:218-240 | the lists of tokens of the positions in the range, one after the other and each whole |
| SegmentTrees.SegmentTree.TokensConcat | src/utils/DSegmentTree.cpp:218-240 | what the recursion collects is those lists joined, position by position |
| SegmentTrees.SegmentTree.GetCandidateIntervals | src/utils/DSegmentTree.cpp:242-274 | exactly the positions in the range that have tokens and are reached, once each in increasing order with all tokens; every position the keyword was given to is among them, and there are none unless each digest of the keyword falls together with a digest of a keyword that was given |
| SegmentTrees.SegmentTree.NoFalseNegative | src/utils/DSegmentTree.cpp:242-268 | no filter on the way down rejects a keyword that was added below |
| Octree.ChildListed | TDAG/src/quad_tree_3d_src.cpp:46-97 | every combination of offsets is among the children |
| Octree.ListedInside | TDAG/src/quad_tree_3d_src.cpp:46-97 | children of a lattice cube are lattice cubes of the next level inside it |
| Octree.HalfStarts | TDAG/src/quad_tree_3d_src.cpp:46-97 | a lattice cube starts, on each axis, at a multiple of half its width, and every such cube in the domain is one |
| Octree.ReachesLattice | TDAG/src/quad_tree_3d_src.cpp:15-124 | a set of cubes closed under the children that matter holds every lattice cube that matters |
| QuadTrees.GetChildren | TDAG/src/quad_tree_3d_src.cpp:46-97 | the triple loops list the children, overlapping by half their width while that is whole |
| QuadTrees.QuadTree.BuildIterative | TDAG/src/quad_tree_3d_src.cpp:15-43 | the dictionary lists the children of exactly the lattice cubes that have any, and of the root |
| QuadTrees.QuadTree.Collect | TDAG/src/quad_tree_3d_src.cpp:105-120 | adds the cube, and with every cube its children that contain the point, none twice |
| QuadTrees.QuadTree.FindContainingRangeCovers | TDAG/src/quad_tree_3d_src.cpp:100-124 | exactly the lattice cubes that contain the point, each once |
| OctreeCover.AdjustedSides | TDAG/src/quad_tree_3d_src.cpp:246-268 | a clamped query has sides inside the domain, none longer than it |
| OctreeCover.AdjustedExact | TDAG/src/quad_tree_3d_src.cpp:246-268 | a point is in the clamped query if and only if it is in the domain and each side asks for it: it is on the side, or nothing of the domain is and it is where the clamped side starts |
| OctreeCover.CandidateIffFits | TDAG/src/quad_tree_3d_src.cpp:296-322 | on one axis a candidate start works exactly if some lattice interval contains the side and the side is not misrounded |
| OctreeCover.CandidatesIffCovered | TDAG/src/quad_tree_3d_src.cpp:296-341 | a width succeeds exactly if a lattice cube of that width contains the query and no side is misrounded |
| OctreeCover.TryWidth | TDAG/src/quad_tree_3d_src.cpp:324-338 | the eight combinations are tried left before right; the first good one is returned |
| OctreeCover.SearchWidths | TDAG/src/quad_tree_3d_src.cpp:282-342 | the doubling loop stops at the first level with candidates, or at the domain |
| OctreeCover.GetSingleRangeCover | TDAG/src/quad_tree_3d_src.cpp:246-344 | the cube returned is the one of the level the search stops at; it has every point the query asks for, and for a query that starts in the domain no cube of its width around them starts later; where all sides have two positions in the domain no cube around them is narrower |
| OctreeCover.CoverContains | TDAG/src/quad_tree_3d_src.cpp:246-344 | it is a lattice cube and contains the clamped query |
| OctreeCover.CoverStartsLast | TDAG/src/quad_tree_3d_src.cpp:324-338 | of the lattice cubes of its width around the clamped query, the one found starts last on every axis |
| OctreeCover.QueryCovered | TDAG/src/quad_tree_3d_src.cpp:246-344 | all of this said of the query before clamping: the points asked for, the start, and the width |
| OctreeCover.CoverLevelIsLeast | TDAG/src/quad_tree_3d_src.cpp:269-343 | its level is at least the least possible and at most two more, and least if and only if no side is misrounded there |
| OctreeCover.LeastLevelComputed | TDAG/src/quad_tree_3d_src.cpp:269-322 | the least possible level is the first one wide enough or the next, as a test of three sides tells |
| OctreeCover.CoverIsNarrowest | TDAG/src/quad_tree_3d_src.cpp:269-343 | no lattice cube around the query is narrower than the one found if and only if no side is misrounded at that level |
| OctreeCover.TwoLevelsTooHigh | TDAG/src/quad_tree_3d_src.cpp:269-343 | a query for which the search stops two levels too high |
| OctreeCover.LongSidesCover | TDAG/src/quad_tree_3d_src.cpp:269-343 | with sides of at least 2 no lattice cube that contains the query is narrower, and the width is below four times the longest side |
| OctreeCover.UnitSideMissesCube | TDAG/src/quad_tree_3d_src.cpp:296-322 | a query with a side of length 1 for which a narrower cube is missed |
| Coordinates.CellInside | TDAG/include/coordinate_transformer.hpp:18-40 | a value between two bounds lands in a cell between theirs |
| Coordinates.CellsExact | TDAG/include/coordinate_transformer.hpp:18-40 | the cell of a value is the one its share of the range falls into, the end cell the least number not below that share, both cut to the grid; an empty range gives the first cell and the end of the grid |
| Coordinates.GridPointExact | TDAG/include/coordinate_transformer.hpp:53-58 | time counts from the earliest instant, latitude from -90 over 180 degrees, longitude from -180 over 360 |
| Coordinates.GridRectExact | TDAG/include/coordinate_transformer.hpp:61-76 | a box starts with the cells of its lower bounds and ends at those of its upper ones |
| Coordinates.GridPointInRect | TDAG/include/coordinate_transformer.hpp:42-76 | the cell of a position in a half-open box lies in the grid box of that box; with a single cell, at the start of its empty sides |
| Decimal.RenderInjective | TDAG/src/tdag_src_3d.cpp:66-75 | a label made of fixed strings and numerals determines the numbers |
| Decimal.DigitPlace | TDAG/src/tdag_src_3d.cpp:66-75 | place number i from the right of a numeral has the digit for 10^i |
| Decimal.DigitsNeeded | TDAG/src/tdag_src_3d.cpp:66-75 | a numeral has no more digits than its number needs |
| Qdag.LabelInjective | TDAG/src/qdag_src_3d.cpp:20-49 | different cubes have different labels |
| Qdag.MapPointsToLabels | TDAG/src/qdag_src_3d.cpp:20-80 | under the label of each lattice cube stand the ids of exactly the points in it, once each, and nothing under any other label |
| Qdag.QueryAnswer | TDAG/src/qdag_src_3d.cpp:82-86 | a query's label retrieves the ids of exactly the points in one lattice cube around the clamped query |
| Qdag.NoRecordLost | TDAG/src/qdag_src_3d.cpp:20-86 | every record in the continuous query box is among the postings retrieved, for every number of grid bits up to the height |
| Tdags.BuildIsTreeAt | TDAG/src/tdag.cpp:9-30 | the constructor gives every node its half and the middle range between its halves |
| Tdags.RangesOfTree | TDAG/src/tdag.cpp:9-30 | the ranges of the tree are the aligned blocks of its domain and the middle halves of those with at least four values, and no others |
| Tdags.CoverExists | TDAG/src/tdag.cpp:86-119 | a query has a cover exactly if it lies in the tree; otherwise the call throws |
| Tdags.SingleRangeCoverIsShortest | TDAG/src/tdag.cpp:86-119 | the cover contains the query, is a range of the tree, and no range of the tree that contains the query is shorter |
| Tdags.DescendTree | TDAG/src/tdag.cpp:45-75 | for every value for which the loop ends it lists the ranges of the descent, in order |
| Tdags.ListedExactly | TDAG/src/tdag.cpp:45-75 | these are exactly the ranges of the tree that have the value; for the value just behind the last, those that end with the last value and two ranges outside the tree |
| Tdags.BehindIsExact | TDAG/src/tdag.cpp:45-75 | no range of the tree that the value just behind the last is listed under has it |
| Tdags.DescentIsDistinct | TDAG/src/tdag.cpp:45-75 | no descent lists a range twice |
| Tdags.DescentEnds | TDAG/src/tdag.cpp:45-75 | the loop ends if and only if the value is in the tree or just behind its last value |
| Tdags.PathIsExact | TDAG/src/tdag.cpp:45-75 | the path has exactly the ranges of the tree that have the value |
| Tdags.PathIsDistinct | TDAG/src/tdag.cpp:45-75 | it has none of them twice |
| Tdags.DescentIsExact | TDAG/src/tdag.cpp:45-119 | a range of the tree is on the descent to a value if and only if it has the value, so covers and descents agree |
| TdagSrc3D.Create | TDAG/src/tdag_src_3d.cpp:7-28 | the domain of each axis is the least power of two that has room; sizes that are not positive throw |
| TdagSrc3D.SerializeInjective | TDAG/src/tdag_src_3d.cpp:66-75 | different triples of ranges have different labels |
| TdagSrc3D.MapPointsToLabels | TDAG/src/tdag_src_3d.cpp:30-55 | for all points whose descents end: under each triple of ranges stand the ids of exactly the points that are put under it, once each, and nothing under any other label |
| TdagSrc3D.UnderIsHas | TDAG/src/tdag_src_3d.cpp:30-55 | a point of the domain is put under exactly the covers that have it, a point just behind the end of an axis only under covers that do not |
| TdagSrc3D.QueryHasLabels | TDAG/src/tdag_src_3d.cpp:57-64 | a query has a label exactly if both its corners lie in the domain |
| TdagSrc3D.QueryAnswer | TDAG/src/tdag_src_3d.cpp:30-64 | the label names the shortest range of each tree and retrieves the ids of exactly the points put under it, once each: of the domain, the points in the box, among them every point between the query's corners |
| Sorting.SortSorts | TDAG/include/logarithmic_src_i1_index.hpp:46-52 | sorting puts the same elements in order |
| SrcI1.ArrangeExact | TDAG/include/logarithmic_src_i1_index.hpp:46-52 | the arranged records are the same records, by attribute and then by id |
| SrcI1.PushGroups | TDAG/include/logarithmic_src_i1_index.hpp:67-95 | the table partitions the positions into groups of one attribute in increasing order; level one posts each group number under the ranges of its attribute, level two each record under the ranges of its position |
| SrcI1.LabelsApart | TDAG/include/logarithmic_src_i1_index.hpp:202-208 | no label of one level is a label of the other |
| SrcI1.LogarithmicSrcI1Index.Build | TDAG/include/logarithmic_src_i1_index.hpp:31-96 | building succeeds exactly if no attribute is negative; then the same records are kept by attribute and then by id, both levels hold their postings on top of what the map had, no other keyword is touched, and the trees are the lowest with enough room |
| SrcI1Query.GetI1QueryLabels | TDAG/include/logarithmic_src_i1_index.hpp:98-108 | the label of a shortest range of the tree that has every tree value asked for; no label exactly if there is no tree or no such value |
| SrcI1Query.Filter | TDAG/include/logarithmic_src_i1_index.hpp:110-129 | unknown and repeated group numbers and attributes outside the query are skipped, no other position |
| SrcI1Query.Merge | TDAG/include/logarithmic_src_i1_index.hpp:131-147 | touching intervals become one; no position is gained or lost |
| SrcI1Query.FilterAndMerge | TDAG/include/logarithmic_src_i1_index.hpp:110-147 | the wanted positions as separated increasing intervals |
| SrcI1Query.Level1Complete | TDAG/include/logarithmic_src_i1_index.hpp:67-108 | level one returns every group with an attribute in the query |
| SrcI1Query.MatchesMerged | TDAG/include/logarithmic_src_i1_index.hpp:110-147 | after filtering and merging there is nothing, or one interval that is exactly the matching positions |
| SrcI1Query.GetI2QueryLabels | TDAG/include/logarithmic_src_i1_index.hpp:149-169 | the labels of the intervals that are not empty after clamping, each once |
| SrcI1Query.Level2Answer | TDAG/include/logarithmic_src_i1_index.hpp:87-92 | the label of an interval of positions retrieves the records at the positions of its cover |
| SrcI1Query.RunQuery | TDAG/test/i1_common_test_utils.hpp:123-167 | the answer is empty if nothing matches, else the bag of the records at the positions of the shortest tree range with every match |
| SrcI1Query.BuildAndQuery | TDAG/test/i1_common_test_utils.hpp:123-167 | building, encrypting and querying end to end: it fails exactly for a negative attribute; otherwise, over the same records by attribute and then by id, the answer is empty if nothing matches, else the ids at the positions of the shortest range, in the lowest tree with room, that has every match |
| SrcI1Query.IdsAtSlice | TDAG/include/logarithmic_src_i1_index.hpp:87-92 | the ids posted for a range of positions are those of the records there, in order |
| SrcI1Query.NoMatchLost | TDAG/test/i1_common_test_utils.hpp:123-167 | every matching record is in the answer |
| TimeBuckets.FloorDivRoundsDown | TDAG/src/adaptive_time_bucket.cpp:30-38 | the quotient is rounded down also for negative values |
| TimeBuckets.SlotStartsBefore | TDAG/src/adaptive_time_bucket.cpp:113-126 | the slot of the day never begins after the instant, whatever the slot length |
| TimeBuckets.SlotEndsAfter | TDAG/src/adaptive_time_bucket.cpp:113-126 | the instant lies before the next slot of the day begins, if and only if it lies before the end of the day's last slot |
| TimeBuckets.Config.Normalized | TDAG/src/adaptive_time_bucket.cpp:90-97 | any configuration is raised to the least one in range, one in range is kept |
| TimeBuckets.ClosesIffFull | TDAG/src/adaptive_time_bucket.cpp:167-181 | the three rules close a bucket exactly if the next record would break a limit: too many records, too many slots, or a second slot from the target record on |
| TimeBuckets.GreedyIsUnique | TDAG/src/adaptive_time_bucket.cpp:152-189 | there is only one way to cut the records so that each bucket is as long as the limits allow |
| TimeBuckets.GreedyIsCut | TDAG/src/adaptive_time_bucket.cpp:152-189 | each bucket meets the limits of the configuration, on records, on slots and on one slot from the target record on, and would break one with the next record |
| TimeBuckets.SharedCounted | TDAG/src/adaptive_time_bucket.cpp:152-189 | the counter of forced splits is the number of buckets that begin in the slot in which the one before ends |
| TimeBuckets.SlotsOfExact | TDAG/src/adaptive_time_bucket.cpp:152-159 | the occupied slots are exactly those some record falls into |
| TimeBuckets.FirstEndAtLeast | TDAG/src/adaptive_time_bucket.cpp:250-260 | the first bucket that ends at an instant or later, the meaning of the search |
| BinarySearch.PartitionPointExact | TDAG/src/adaptive_time_bucket.cpp:250-260 | halving finds where that which is below ends, if it all comes first |
| TimeBuckets.FirstBucketIsFirst | TDAG/src/adaptive_time_bucket.cpp:250-260 | on buckets in order of time the binary search finds that first bucket |
| TimeBuckets.BucketsOrdered | TDAG/src/adaptive_time_bucket.cpp:128-230 | the buckets built are numbered and in order of time |
| TimeBucketBuilder.AddPoint | TDAG/src/adaptive_time_bucket.cpp:152-189 | one record joins the current group, which is closed if full; a split is counted exactly if it runs through a slot |
| TimeBucketBuilder.AdaptiveTimeBucketBuilder.Partition | TDAG/src/adaptive_time_bucket.cpp:145-189 | the groups are greedy, joined they are the sorted records, the counter is the number of neighbours that share a slot, and each id is mapped to the last bucket with it |
| TimeBucketBuilder.AdaptiveTimeBucketBuilder.FinalizeCurrentBucket | TDAG/src/adaptive_time_bucket.cpp:198-230 | the new bucket describes the span, the slots and the numbering of the group |
| TimeBucketBuilder.AdaptiveTimeBucketBuilder.LinkBuckets | TDAG/src/adaptive_time_bucket.cpp:191-194 | the chain runs through all buckets and ends with -1 |
| TimeBucketBuilder.AdaptiveTimeBucketBuilder.BuildDayLocator | TDAG/src/adaptive_time_bucket.cpp:232-248 | every day from the first record to the last has an entry, and every slot of it the first bucket that ends at its beginning or later |
| TimeBucketBuilder.AdaptiveTimeBucketBuilder.Build | TDAG/src/adaptive_time_bucket.cpp:128-196 | the whole index is consistent and holds the same records by time and then by id, cut as greedily as the configuration allows; the counter says how many cuts run through a slot |
| BucketScan.LocateBucketExact | TDAG/src/adaptive_time_bucket.cpp:270-280 | the bucket whose span has the instant, if there is one |
| BucketScan.LocatorSuffices | TDAG/src/adaptive_time_bucket.cpp:282-303 | whenever day and slot are looked up they are found: the search behind them is never made |
| BucketScan.LocateSkipsEarlier | TDAG/src/adaptive_time_bucket.cpp:282-303 | every bucket before the located one ends before the query |
| BucketScan.LocalRangeExact | TDAG/src/adaptive_time_bucket.cpp:54-85 | the local range is exactly the bucket's slots that some instant of the query in the bucket's span falls into |
| BucketScan.RecordInRange | TDAG/src/adaptive_time_bucket.cpp:54-85 | the local slot of every record of the query is in the local range |
| BucketScan.Scan | TDAG/test/hash_st_bf_test.cpp:193-227 | the scan along the chain finds what asking every bucket finds, in the same order |
| BucketScan.HitsExact | TDAG/test/hash_st_bf_test.cpp:193-227 | a bucket contributes what its tree finds in exactly the local slots that the query touches, marked with the bucket, and nothing if it touches none or there is no tree |
| BucketScan.FullScanExact | TDAG/test/hash_st_bf_test.cpp:193-227 | asking every bucket gives these parts, bucket after bucket |
| BucketScan.QueryHashStBf | TDAG/test/hash_st_bf_test.cpp:193-227 | equal to asking every bucket for the slots touched; for every record of the query its bucket's tree was asked for the local range, which has the record's local slot, and all it found is in the result |
| Words.LowestBit | libbf/src/bitvector.cpp:377-383 | the position of the lowest set bit |
| Words.CountWord | libbf/src/bitvector.cpp:335-350 | adding up the table entries of its bytes counts the set bits of a word |
| Bitvectors.TrimmedBits | libbf/src/bitvector.cpp:389-392 | clearing unused bits keeps the bits in use |
| Bitvectors.Bitvector.ShiftWords | libbf/src/bitvector.cpp:126-145 | the in-place loops put the right word at every position |
| Bitvectors.Bitvector.Get | libbf/src/bitvector.cpp:325-328 | masking a word reads the bit |
| Bitvectors.Bitvector.Set | libbf/src/bitvector.cpp:284-305 | writes the bit and no other |
| Bitvectors.Bitvector.OrWith | libbf/src/bitvector.cpp:185-190 | the union of two vectors bit by bit, also with itself |
| Bitvectors.Bitvector.XorWith | libbf/src/bitvector.cpp:192-197 | the positions where two vectors differ |
| Bitvectors.UnlikeCounted | libbf/src/bitvector.cpp:192-197 | counting those gives the Hamming distance |
| Bitvectors.Bitvector.Count | libbf/src/bitvector.cpp:335-350 | the number of set bits |
| Bitvectors.ShiftMultiplies | libbf/src/bitvector.cpp:122-149 | moving bits up by n multiplies their value by 2^n modulo two to the size |
| Bitvectors.Bitvector.ShiftLeft | libbf/src/bitvector.cpp:122-149 | zeros come in from below, unused bits stay zero, and the value is multiplied by 2^n modulo two to the size |
| Bitvectors.Bitvector.Resize | libbf/src/bitvector.cpp:246-259 | cuts the bits off or fills up with copies of one bit; unused bits stay zero |
| Bitvectors.Bitvector.Append | libbf/src/bitvector.cpp:272-282 | appends the 64 bits of a word across a word boundary: the value gains the word times a power of two |
| Bitvectors.WordBitsValue | libbf/src/bitvector.cpp:272-282 | the bits of a word have the word as their value |
| Bitvectors.Bitvector.Flip | libbf/src/bitvector.cpp:318-323 | turns every bit over; unused bits stay zero |
| Bitvectors.Bitvector.FindFirst | libbf/src/bitvector.cpp:364-366 | the first set bit, npos if there is none |
| Bitvectors.Bitvector.FindNext | libbf/src/bitvector.cpp:368-375 | the first set bit behind a position, npos if there is none |
| CounterVectors.CounterVector.Increment | libbf/src/counter_vector.cpp:37-52 | the counter becomes the smaller of sum and largest value, no other counter changes, and sticking is reported exactly |
| CounterVectors.CounterVector.Decrement | libbf/src/counter_vector.cpp:54-67 | the counter becomes the difference modulo the largest value plus one, no other counter changes |
| CounterVectors.SubtractExact | libbf/src/counter_vector.cpp:54-67 | subtracting no more than the counter holds is exact, more wraps around |
| CounterVectors.CounterVector.OrWith | libbf/src/counter_vector.cpp:13-30 | counter by counter the smaller of sum and largest value, also with itself |
| CounterVectors.CounterVector.Count | libbf/src/counter_vector.cpp:69-78 | the value of the bits of a cell |
| CountingFilters.Indices | libbf/src/bloom_filter/counting.cpp:35-50 | the cells of an object in increasing order, each once |
| CountingFilters.IndicesLand | libbf/src/bloom_filter/counting.cpp:35-50 | these are the places where the digests of the object fall, and no others |
| CountingFilters.CountingBloomFilter.FindIndices | libbf/src/bloom_filter/counting.cpp:35-50 | computes those cells, partitioned or flat: exactly the places where the digests fall |
| CountingFilters.CountingBloomFilter.FindMinimum | libbf/src/bloom_filter/counting.cpp:52-61 | the smallest count, at most the largest value |
| CountingFilters.CountingBloomFilter.FindMinima | libbf/src/bloom_filter/counting.cpp:63-78 | one pass finds exactly the cells with the smallest count, in order |
| CountingFilters.CountingBloomFilter.Increment | libbf/src/bloom_filter/counting.cpp:80-87 | counts in each given cell, in turn, and reports whether one stuck when its turn came |
| CountingFilters.CountingBloomFilter.Decrement | libbf/src/bloom_filter/counting.cpp:89-96 | counts down in each given cell, in turn, and reports whether one wrapped around when its turn came |
| CountingFilters.ReportsExact | libbf/src/bloom_filter/counting.cpp:80-96 | on different cells the reports speak of the counts before |
| CountingFilters.CountingBloomFilter.Add | libbf/src/bloom_filter/counting.cpp:13-15 | counts in all cells of the object |
| CountingFilters.CountingBloomFilter.Lookup | libbf/src/bloom_filter/counting.cpp:17-25 | the smallest count of the object's cells |
| CountingFilters.CountingExact | libbf/src/bloom_filter/counting.cpp:13-25 | after any additions a counter is the number of objects with the cell, up to the largest value |
| CountingFilters.TimesExact | libbf/src/bloom_filter/counting.cpp:13-25 | the true count of an object is how often it stands among the additions |
| CountingFilters.CellTimesExact | libbf/src/bloom_filter/counting.cpp:13-25 | that of a cell is the number of additions with a digest that falls there |
| CountingFilters.RemoveUndoesAdd | libbf/src/bloom_filter/counting.cpp:13-33 | removing an object right after adding it undoes that unless one of its counters was stuck |
| CountingFilters.ChangesExact | libbf/src/bloom_filter/counting.cpp:13-33 | after any additions without sticking and removals of present objects, in any order, a counter is the number of objects in the filter that have the cell |
| CountingFilters.PresentFound | libbf/src/bloom_filter/counting.cpp:13-33 | a lookup then gives at least how often the object is in the filter |
| CountingFilters.SpectralMiBloomFilter.Add | libbf/src/bloom_filter/counting.cpp:107-109 | counts only in the cells with the smallest count |
| CountingFilters.MinIncreaseBelowCounting | libbf/src/bloom_filter/counting.cpp:35-109 | cell by cell the minimum-increase filter counts no more than the plain one |
| CountingFilters.MinIncreaseAboveTrue | libbf/src/bloom_filter/counting.cpp:35-109 | every cell of an object counts at least how often the object was added, up to the largest value |
| CountingFilters.Sandwich | libbf/src/bloom_filter/counting.cpp:13-109 | the minimum-increase answer lies between the true count, up to the largest value, and the plain answer |
| EncryptedDb.EncryptedSpatialDb.Build | TDAG/include/encrypted_db.hpp:54-60 | the multimap then holds the postings of all labels of the points |
| EncryptedDb.EncryptedSpatialDb.Query | TDAG/include/encrypted_db.hpp:68-90 | a query through tokens, search and decryption throws exactly if a corner lies outside the three trees, and otherwise gives the ids in one region of the index |
| EncryptedDb.LabelRetrieves | TDAG/include/encrypted_db.hpp:54-90 | the postings of a query's label are the ids in the cube of the cover search, or in the product of the shortest ranges |
| EncryptedDb.EntryRetrieved | TDAG/include/encrypted_db.hpp:54-90 | every id at a point that is asked for is in the answer |
| Emm.StoiOfToString | TDAG/src/standard_emm.cpp:32-32 | reading a numeral back gives the number |
| Emm.StandardEmm.BuildEmm | TDAG/src/standard_emm.cpp:13-39 | exactly the postings of all keywords are stored, each encrypted and alone under its label |
| Emm.StandardEmm.GenerateTokens | TDAG/src/standard_emm.cpp:48-56 | one token per keyword, in order |
| Emm.ProbeStops | TDAG/src/standard_emm.cpp:66-81 | the label after the last posting of a keyword is not stored |
| Emm.StandardEmm.Probe | TDAG/src/standard_emm.cpp:64-82 | the endless loop ends after exactly as many entries as the keyword has postings |
| Emm.StandardEmm.Query | TDAG/src/standard_emm.cpp:58-84 | the entries of the result decrypt to the sum of the postings of the keywords, each taken once however often it is asked for |
| Emm.IdsWithout | TDAG/src/standard_emm.cpp:100-116 | what a result decrypts to does not depend on the order of its entries |
| Emm.StandardEmm.DecryptResults | TDAG/src/standard_emm.cpp:100-116 | all values that decrypt to numerals, in any order |
| Emm.StandardEmm.Ask | TDAG/src/standard_emm.cpp:48-116 | tokens, query and decryption give the sum of the plaintext postings of the keywords, each taken once; for distinct keywords, of all of them |
| Postings.IdsInExact | TDAG/src/qdag_src_3d.cpp:20-80 | the postings of a cover are the ids of the entries in it, entry after entry |
| Postings.BagExact | TDAG/src/standard_emm.cpp:58-84 | the sum of the postings of some keywords is the bag of their lists joined |
| JxtSetup.BytesToLong | src/utils/tool.cpp:4-11 | the first eight bytes, the last weighing most |
| JxtSetup.LongOfBytes | src/utils/tool.cpp:4-11 | byte number i stands at the place of 256^i |
| JxtSetup.ToLongXor | src/utils/tool.cpp:4-33 | the number of an exclusive-or is the exclusive-or of the numbers |
| JxtSetup.NewKey | src/main/Setup_JXTP.cpp:231-243 | the key of a posting is there already exactly if its join value came up before for the keyword and column |
| JxtSetup.TakeOne | src/main/Setup_JXTP.cpp:217-244 | one more posting keeps under each key exactly the ciphertexts of its join value, in order |
| JxtSetup.SetupJxtp.AddPosting | src/main/Setup_JXTP.cpp:212-244 | the list of the join value in the record's own row grows, the key is noted for the filter, and the entry is masked exactly if its value came up before |
| JxtSetup.SetupJxtp.AddTokens | src/main/Setup_JXTP.cpp:247-250 | the lists of a keyword are stored under the tokens of its columns |
| JxtSetup.SetupJxtp.Construct | src/main/Setup_JXTP.cpp:160-253 | construction succeeds exactly if all records exist; then every join value has its complete list, every series its entries, and the filter's keys are those of the lists |
| JxtServer.ServerJxtp.SearchToken | src/main/Server_JXTp.cpp:81-107 | what the entries of one token contribute, as far as entries and join tokens go; TokenIsJoin says what that is |
| JxtServer.ServerJxtp.SearchRange | src/main/Server_JXTp.cpp:75-112 | with the tokens a client makes: interval by interval, the plaintext join of the interval's series once for each token |
| JxtServer.JoinTokens | src/test/IdTokenTest_interval.cpp:269-293 | the join tokens for the entries of a keyword |
| JxtServer.EntryOpens | src/main/Server_JXTp.cpp:86-90 | opening an entry gives the key of its join value under the other keyword and column, combined with the mask if it is masked |
| JxtServer.ListsOfValue | src/main/Server_JXTp.cpp:92-95 | the lists of a join value are found exactly if table 2 has the value, and are then complete |
| JxtServer.HitsAreJoin | src/main/Server_JXTp.cpp:84-107 | the entries contribute the join over the values in the order in which they come up |
| JxtServer.TokenIsJoin | src/main/Server_JXTp.cpp:81-107 | one token contributes the plaintext join of its series; a keyword without records contributes nothing |
| JxtServer.IntervalsAreJoins | src/main/Server_JXTp.cpp:75-112 | all intervals contribute the joins of their series, each as often as it has tokens |
| JxtJoin.ValuesExact | src/main/Setup_JXTP.cpp:231-243 | each join value is listed, and listed once |
| JxtJoin.GroupJoinIsJoin | src/main/Setup_JXTP.cpp:212-244 | the join grouped by value, in terms of the records of both tables: one pair of lists for each value both keywords have in their columns, in the order of its first record; the lists are the encrypted ids of exactly the records with the value, in order |
| JxtJoin.RepeatedAreJoins | src/main/Server_JXTp.cpp:75-112 | the joins of several series, one after the other and each as often as asked for |
| JxtServer.JoinByToken | src/main/Server_JXTp.cpp:75-112 | searching one token gives the plaintext join grouped by value, whatever the filter's false positives |
| JxtServer.JoinByRange | src/test/IdTokenTest_interval.cpp:269-293 | a client that makes the join tokens and asks for some intervals gets those joins |
| JxtServer.SetUpAndJoin | src/test/IdTokenTest_interval.cpp:269-293 | setting up both tables, filling the filter and searching: it fails exactly if a listed record is missing; otherwise the result is, in terms of the records, the join of each series once for each token of its interval |

## Left out

- SHA-256, AES, key handling and all security claims: hashes and ciphers are functions with stated assumptions.
- Random seeds and filler: Xor8's retry loop runs over a given list of seeds, and filler bytes come from a given function.
- Xor8Index.GetHash: the 64-bit mixing and rotation are one function from key, seed and index to a word; rotating by 0, which the source does for the first slot, is not modelled bit by bit.
- Xor8Limits.BuildableSizes: only for blocks of at most 2^32 slots, because no 32-bit word reaches further; the same holds for RetryBuilds and UnstorableIsCut. The code's block length is a 32-bit number.
- 32-bit overflow of array lengths, positions and the largest attribute plus one.
- Floating point: the cover's floor and ceiling of quotients by powers of two are integer division, coordinates are exact reals.
- Filter sizing from a false-positive rate and a capacity: cells and number of hash functions are given.
- SegmentTrees.SegmentTree.MergeLeafNodes: the threshold is any number; the theorems hold for every merge decision.
- BucketScan.QueryHashStBf: the tree of a bucket is a function from a local range to what it finds; CubeCode and the newer SegmentTree are not part of this model.
- Tdags.DescendTree: values for which the loop never ends; DescentEnds says exactly which these are.
- TdagSrc3D.MapPointsToLabels: points for which a descent never ends.
- Emm.StandardEmm.Query: hash inputs that collide, with which the probe might not stop.
- Words.CountWord: the 256 entries of the count table are a function that counts the bits of a byte.
- Emm.Stoi: only numerals are read; blanks in front and text behind digits, which the library function skips, do not occur in what is decrypted.
- JxtSetup.SetupJxtp.Construct: two join columns of one name, whose keys and tokens coincide. The loader gives every join column the first field of the file as its name and value, so more than one join column is not covered. Also reading the file, and filling the reverse lists and the day trees from it; the list of keys for the filter grows instead of being allocated in advance.
- JxtServer.ServerJxtp.SearchRange: the stag branch of the same function, whose result lists are not kept in pairs.
- JxtServer.JoinByToken: the filter of table 2 is any predicate without false negatives; how it is built is not modelled.
- CounterVectors.CounterVector.Increment: counters have at most 31 bits, because the source shifts an int constant by the bit number, which is not defined beyond that.
- Bitvectors.Bitvector.ShiftLeft: the right shift, appending a range of words and setting a counter are left out; they do not do what their comments say.
- Bloom.BasicBloomFilter.Add: the bits of the basic filter are a sequence of bits, the view of the packed bit vector that its operations are proved to keep; counters do lie in a packed bit vector.
- Spectral recurring-minimum filters and removal in the bitwise filter.
- The octree without single-range covers, the day and time parsing of keys, page management, the thread pool, file formats, timing and printing.
- The order in which hash maps are walked: loops over them take any order.
