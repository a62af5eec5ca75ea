# Image quantization by minimum-spanning-tree clustering

This project models, in Dafny, the core of an image-quantization program. The
program reduces an image to K colours in four steps:

1. It lists the distinct colours of the image in row-major order of first
   occurrence, and gives each colour its position as an index
   (`List_of_Dstinected_Color`, `list_of_indexed_color`, `Get_Number_of_color`).
2. It builds a spanning tree over these colours with Prim's algorithm
   (`MST_Weight`). The algorithm uses a binary min-heap of tree records
   (`heap`). An edge between two colours weighs their colour distance. The tree
   is returned as the list of records in settling order, led by a root
   sentinel, together with the parent array, the indexed colours and the total
   weight (`MST`).
3. It cuts the tree into clusters (`Extract_color_palette`). It removes the
   heaviest record K-1 times, turns the remaining records after the first into
   adjacency lists, and runs a breadth-first walk (`avgcolor_BFS`) from every
   colour that is not yet visited. The walk averages the colours of one tree of
   the forest and writes the average into the palette slot of each member,
   keyed `[red, blue, green]`.
4. It replaces every pixel by the palette entry of its colour (`Quntization`).

The modules follow these steps:

- `Pixels` holds the shared value types and the colour arithmetic: squared
  distance, channel sums and truncated means.
- `MinHeap` is the heap class, with `elements` as a field of type `seq`.
- `DistinctColors` holds the colour scan and the indexing.
- `PrimSpec` holds the loop invariant of the tree construction and its lemmas.
- `PrimMst` holds the construction itself, over arrays `k`, `d` and `p` and a
  `Heap` object.
- `Cut` holds the removal of the heaviest records.
- `Adjacency` turns kept records into parent links and adjacency lists.
- `Forest` holds roots, trees and paths in a forest of parent links.
- `Clusters` holds the breadth-first walk and the cluster means.
- `Palette` holds the palette pass.
- `Quantize` holds the final pixel rewrite.

The MST record is modelled as the datatype `PrimSpec.Mst`
(ImageQuantization/MST.cs:9-26). The image is an `array2<RGBPixel>`, the
palette an `array3<RGBPixel>` of size 256×256×256, and the visited flags and
adjacency lists are arrays. These are updated in place, as in the source.

## Model

| member | source | states |
|---|---|---|
| MinHeap.Parent | ImageQuantization/heap.cs:32-39 | -1 for slot 0 and for negative slots; otherwise a smaller slot whose left or right child is the given slot |
| MinHeap.Left | ImageQuantization/heap.cs:41-44 | the left child is a later slot whose parent is the given slot |
| MinHeap.Right | ImageQuantization/heap.cs:46-49 | the right child is the slot just after the left child, with the same parent |
| MinHeap.RootIsMinimum | ImageQuantization/heap.cs:16-24 | in a heap-ordered list the first record weighs no more than any other record |
| MinHeap.RemoveRoot | ImageQuantization/heap.cs:18-23 | moving the last record into slot 0 and dropping the last slot removes exactly one copy of a lightest record; order is then broken only below the root |
| MinHeap.SiftDownStep | ImageQuantization/heap.cs:53-70 | swapping a slot with its lightest child, when that child is lighter, moves the only order defect down to that child |
| MinHeap.SiftDownDone | ImageQuantization/heap.cs:65 | a defect slot whose children are no lighter is no defect: the list is heap-ordered |
| MinHeap.SiftUpStep | ImageQuantization/heap.cs:106-112 | swapping a slot with its heavier parent moves the only order defect up to the parent |
| MinHeap.SwapKeepsMultiset | ImageQuantization/heap.cs:67-69 | exchanging two slots keeps the multiset of records |
| MinHeap.Heap.constructor | ImageQuantization/heap.cs:11-14 | a new heap is empty and heap-ordered |
| MinHeap.Heap.Empty | ImageQuantization/heap.cs:118-124 | true exactly when no record is stored |
| MinHeap.Heap.ExtractMin | ImageQuantization/heap.cs:16-28 | on an empty heap, InvalidOperation and no change; otherwise returns a stored record no heavier than any other, removes exactly one copy of it and keeps heap order |
| MinHeap.Heap.MinHeapify | ImageQuantization/heap.cs:51-72 | repairs a defect at the given slot downwards: afterwards the list is heap-ordered with the same records |
| MinHeap.Heap.Insert | ImageQuantization/heap.cs:77-81 | adds exactly one copy of the record and keeps heap order |
| MinHeap.Heap.HeapifyUp | ImageQuantization/heap.cs:104-114 | repairs a defect at the given slot upwards: afterwards the list is heap-ordered with the same records |
| Pixels.SquaredDistance | ImageQuantization/ImageOperations.cs:364-367 | the distance of two colours is zero exactly when they are equal, and lies below the bound that stands in for double.MaxValue |
| Pixels.DistanceSymmetric | ImageQuantization/ImageOperations.cs:364-367 | the distance does not depend on the order of the two colours |
| Pixels.TotalBound | ImageQuantization/ImageOperations.cs:494-497 | each channel sum over n colours lies in 0..255·n, so each mean is a channel value |
| Pixels.TotalAppend | ImageQuantization/ImageOperations.cs:494-497 | the channel sums of two concatenated lists add up |
| Pixels.TotalPermutation | ImageQuantization/ImageOperations.cs:490-497 | lists that are permutations of each other have the same channel sums |
| Pixels.MeanPermutation | ImageQuantization/ImageOperations.cs:513-515 | the mean of a cluster does not depend on the order in which the walk meets its colours |
| Pixels.MeanOfCopies | ImageQuantization/ImageOperations.cs:513-515 | a non-empty list of copies of one colour averages to that colour |
| Pixels.Wrap32 | ImageQuantization/ImageOperations.cs:407 | 32-bit wrap-around: the result is a 32-bit value congruent to the input modulo 2^32, and equal to it when it already fits |
| Pixels.CodeInjective | ImageQuantization/ImageOperations.cs:286-289 | colours with the same position in the 256³ colour cube are equal |
| Pixels.FewColours | ImageQuantization/ImageOperations.cs:286-293 | a list of distinct colours whose cube positions lie below n has at most n entries |
| Pixels.ColourCount | ImageQuantization/ImageOperations.cs:264-293 | a list of distinct colours has at most 256³ entries |
| DistinctColors.GetHeight | ImageQuantization/ImageOperations.cs:105-108 | the height times the width is the number of pixels in the row-major listing, and a height of 0 means the image has no pixels |
| DistinctColors.GetWidth | ImageQuantization/ImageOperations.cs:115-118 | the height times the width is the number of pixels in the row-major listing, and a width of 0 means the image has no pixels |
| DistinctColors.Row | ImageQuantization/ImageOperations.cs:283-294 | the first j pixels of row i, left to right |
| DistinctColors.RowMajorLength | ImageQuantization/ImageOperations.cs:278-283 | the row-major listing has height·width pixels, and is empty exactly when one dimension is 0 |
| DistinctColors.PixelInRowMajor | ImageQuantization/ImageOperations.cs:281-288 | every pixel of the image occurs in the row-major listing |
| DistinctColors.Distinct | ImageQuantization/ImageOperations.cs:264-300 | no longer than its input, has exactly the input's colours, and has no repeats |
| DistinctColors.DistinctFirstSeenOrder | ImageQuantization/ImageOperations.cs:281-293 | the distinct colours come in the order of their first occurrence |
| DistinctColors.ScanStep | ImageQuantization/ImageOperations.cs:286-293 | a pixel extends the listing exactly when its colour is not yet marked; the marks and the listing stay in step |
| DistinctColors.ScanRow | ImageQuantization/ImageOperations.cs:283-294 | after row i the listing holds the distinct colours of the first i+1 rows, and the marked colours are exactly the listed ones |
| DistinctColors.ListOfDistinctColors | ImageQuantization/ImageOperations.cs:264-300 | returns the distinct colours of the image in row-major first-occurrence order |
| DistinctColors.ListOfIndexedColor | ImageQuantization/ImageOperations.cs:301-313 | one Color per listed colour, carrying that colour and its position |
| DistinctColors.DistinctEmpty | ImageQuantization/ImageOperations.cs:314-317 | an image has no colours exactly when it has no pixels |
| DistinctColors.GetNumberOfColor | ImageQuantization/ImageOperations.cs:314-318 | the number of distinct colours; at most height·width, and zero exactly when the image is empty |
| PrimSpec.Start | ImageQuantization/ImageOperations.cs:340-347 | with only the root sentinel in the heap and nothing settled, the loop invariant of the construction holds |
| PrimSpec.LightestRecord | ImageQuantization/ImageOperations.cs:352-356 | a lightest heap record whose target is unsettled carries that target's tentative distance and parent, and no unsettled colour is closer to the tree |
| PrimSpec.StaleExtract | ImageQuantization/ImageOperations.cs:354-355 | dropping a record whose target is already settled keeps the heap description |
| PrimSpec.Extract | ImageQuantization/ImageOperations.cs:352-359 | a lightest record whose target is settled is dropped with the invariant intact; otherwise settling its target and appending the record to the tree keeps the invariant, with the new colour still to be relaxed |
| PrimSpec.Relax | ImageQuantization/ImageOperations.cs:369-378 | lowering the distance and parent of an unsettled colour through the new colour, and pushing the record, keeps the invariant |
| PrimSpec.Skip | ImageQuantization/ImageOperations.cs:362-369 | a colour that is settled, or no closer through the new colour, needs no update |
| PrimSpec.RelaxedAll | ImageQuantization/ImageOperations.cs:360-382 | once every colour has been scanned, the invariant holds for the grown tree |
| PrimSpec.AllReached | ImageQuantization/ImageOperations.cs:349-384 | when the heap runs empty, something is settled and so is every colour |
| PrimSpec.Finished | ImageQuantization/ImageOperations.cs:384-391 | when the heap runs empty, the records, the parent array and the sum of the distances form a well-formed tree: one record per colour, sentinel first, each later record an edge of its stated weight from an earlier colour, no heavier than any edge leaving the colours settled before it, parent array matching the records, weight the sum of the record weights |
| PrimMst.MstWeight | ImageQuantization/ImageOperations.cs:320-395 | fails with IndexOutOfRange exactly when the image has no pixels; otherwise returns a well-formed tree over the distinct colours of the image |
| PrimMst.Initialize | ImageQuantization/ImageOperations.cs:329-338 | new flag, distance and parent arrays of the colour count; nothing settled, and every colour but 0 unreached with parent -1 |
| PrimMst.Build | ImageQuantization/ImageOperations.cs:340-391 | from the initial arrays, pushing the sentinel and running the loop yields a well-formed tree |
| PrimMst.Grow | ImageQuantization/ImageOperations.cs:349-391 | the extraction loop, started from the invariant, ends in a well-formed tree |
| PrimMst.ExtractAndRelax | ImageQuantization/ImageOperations.cs:350-382 | one round keeps the invariant and heap order; either one more colour is settled or the heap shrinks |
| PrimMst.Attach | ImageQuantization/ImageOperations.cs:356-382 | settling a colour and relaxing through it keeps the invariant |
| PrimMst.RelaxThrough | ImageQuantization/ImageOperations.cs:360-382 | the scan over all colours relaxes every one of them through the new colour and keeps the invariant |
| PrimMst.Improve | ImageQuantization/ImageOperations.cs:369-378 | the update of colour j keeps the invariant, and colours up to j are relaxed |
| PrimMst.TotalWeight | ImageQuantization/ImageOperations.cs:385-389 | the sum of the tentative distances |
| Cut.Heaviest | ImageQuantization/ImageOperations.cs:411-420 | the position of the first entry of greatest weight: no entry is heavier and every earlier entry is lighter; 0 for an empty list |
| Cut.HeaviestEntry | ImageQuantization/ImageOperations.cs:409-420 | the scan finds the position of the first heaviest entry |
| Cut.RemoveAt | ImageQuantization/ImageOperations.cs:423 | one entry shorter; entries before the position stay, later ones move down by one |
| Cut.RemoveAtMultiset | ImageQuantization/ImageOperations.cs:423 | removing a position removes exactly one copy of its entry |
| Cut.Prune | ImageQuantization/ImageOperations.cs:407-424 | n removals succeed exactly when n is at most the length, leaving length minus n entries; otherwise ArgumentOutOfRange |
| Cut.PruneNext | ImageQuantization/ImageOperations.cs:412-423 | one more removal takes the first heaviest entry out of what is left |
| Cut.PruneSubMultiset | ImageQuantization/ImageOperations.cs:407-424 | the cut only removes entries |
| Cut.PruneRemovesHeaviest | ImageQuantization/ImageOperations.cs:407-424 | every entry kept weighs at most as much as every entry removed |
| Cut.PruneKeepsSentinel | ImageQuantization/ImageOperations.cs:407-424 | with fewer removals than entries, the root sentinel stays first, since every other entry is heavier |
| Cut.CutsFor | ImageQuantization/ImageOperations.cs:407 | the loop bound K-1 in 32-bit arithmetic: K-1 for every K above -2^31, and 2^31-1 for K = -2^31 |
| Cut.RemoveHeaviest | ImageQuantization/ImageOperations.cs:407-424 | for a 32-bit K, the first loop makes the K-1 removals (wrapped to 32 bits) of the cut, failing with ArgumentOutOfRange when it runs out of entries |
| Adjacency.UpOfSpec | ImageQuantization/ImageOperations.cs:442-459 | the parent links of kept edges form a forest; each edge's target has its source as parent; a colour is a root exactly when no edge ends at it |
| Adjacency.AddEdge | ImageQuantization/ImageOperations.cs:451-458 | appending one edge to the lists of both ends keeps the lists equal to the neighbours in the forest |
| Adjacency.AdjOfLists | ImageQuantization/ImageOperations.cs:442-459 | the lists built from forest edges name each neighbour of a colour exactly once |
| Adjacency.TreeFacts | ImageQuantization/ImageOperations.cs:349-391 | a tree from the construction over distinct colours has its records in settling order with the sentinel first and positive weights behind it |
| Adjacency.KeptEdgesOk | ImageQuantization/ImageOperations.cs:443-458 | the entries after the first of a sub-multiset led by the sentinel are forest edges ranked by settling order |
| Adjacency.CutForestEdges | ImageQuantization/ImageOperations.cs:407-459 | the entries linked after any successful cut are forest edges |
| Adjacency.CutEdgesOk | ImageQuantization/ImageOperations.cs:407-459 | the same for a well-formed tree, together with the number of edges left |
| Forest.Root | ImageQuantization/ImageOperations.cs:464-470 | the root of a colour's tree is a colour without parent |
| Forest.AdjacentSameRoot | ImageQuantization/ImageOperations.cs:457-458 | the two ends of a link lie in the same tree |
| Forest.TowardOrient | ImageQuantization/ImageOperations.cs:500-507 | every link inside the tree of the start colour points one way towards the start, so the walk meets each colour through one link only |
| Forest.ClosedContainsTree | ImageQuantization/ImageOperations.cs:490-511 | a set of colours that holds the start colour and is closed under links holds its whole tree |
| Forest.RootsBelow | ImageQuantization/ImageOperations.cs:464-470 | the colours below n without a parent |
| Forest.RootsAndChildren | ImageQuantization/ImageOperations.cs:464-470 | every colour is either a root or a child |
| Clusters.Cluster | ImageQuantization/ImageOperations.cs:490-511 | the members of a colour's tree, ascending, without repeats, and containing that colour |
| Clusters.Fresh | ImageQuantization/ImageOperations.cs:500-507 | the unvisited neighbours in list order; every unvisited neighbour is included; no repeats when the list has none |
| Clusters.BfsStart | ImageQuantization/ImageOperations.cs:489 | with only the start colour queued and its tree unvisited, the walk invariant holds |
| Clusters.Dequeue | ImageQuantization/ImageOperations.cs:492-510 | dequeuing the head, enqueueing its unvisited neighbours and marking it visited keeps the walk invariant; the head lies in the tree of the start colour |
| Clusters.VisitStep | ImageQuantization/ImageOperations.cs:492-510 | one dequeue, the enqueues and the mark keep the walk invariant |
| Clusters.FreshNeighbours | ImageQuantization/ImageOperations.cs:500-507 | every colour enqueued is in the tree of the start colour and was not seen before |
| Clusters.BfsBound | ImageQuantization/ImageOperations.cs:490 | the colours seen by the walk number at most the colour count, so the loop ends |
| Clusters.BfsDone | ImageQuantization/ImageOperations.cs:490-511 | when the queue runs empty, the dequeued colours are exactly the tree of the start colour, each once |
| Clusters.WalkMean | ImageQuantization/ImageOperations.cs:513-515 | the mean of the dequeued colours is the cluster mean, and the dequeued colours are the cluster's colours |
| Clusters.EnqueueUnvisited | ImageQuantization/ImageOperations.cs:500-507 | the queue grows by the unvisited neighbours and the count by their number |
| Clusters.Accumulate | ImageQuantization/ImageOperations.cs:493-497 | the colour list and the channel sums track the dequeued colours |
| Clusters.Visit | ImageQuantization/ImageOperations.cs:492-510 | one round keeps the walk invariant; the count is the number of colours dequeued or queued; flags of other trees are unchanged |
| Clusters.Walk | ImageQuantization/ImageOperations.cs:483-511 | the flags gain exactly the tree of the start colour; the colours dequeued are that tree without repeats; the count, colour list and sums belong to them |
| Clusters.SetSlot | ImageQuantization/ImageOperations.cs:519 | writes one palette slot and leaves every other slot |
| Clusters.Paint | ImageQuantization/ImageOperations.cs:518-519 | the slot of every listed colour holds the mean; every other slot is unchanged |
| Clusters.AvgColorBfs | ImageQuantization/ImageOperations.cs:479-520 | marks exactly the tree of the start colour in addition; the slot of each colour of that tree holds the cluster mean, and every other slot is unchanged |
| Palette.MstFacts | ImageQuantization/ImageOperations.cs:391-397 | every tree the construction returns over distinct colours is a valid input of the palette pass |
| Palette.ForestUp | ImageQuantization/ImageOperations.cs:442-459 | the parent links of forest edges form a forest |
| Palette.CutUp | ImageQuantization/ImageOperations.cs:407-459 | the parent links after the cut for K clusters form a forest |
| Palette.ForestRoots | ImageQuantization/ImageOperations.cs:464-470 | the forest of E edges over n colours has n - \|E\| trees |
| Palette.ClusterCount | ImageQuantization/ImageOperations.cs:407-470 | a cut that succeeds never had K = -2^31; it leaves K trees when 1 ≤ K ≤ V, one tree when K ≤ 1, and V trees when K = V+1 |
| Palette.WrappedCountFails | ImageQuantization/ImageOperations.cs:407-423 | for K = -2^31 the wrapped bound 2^31-1 exceeds every colour count, so the cut fails |
| Palette.ClearFlags | ImageQuantization/ImageOperations.cs:430-434 | every colour is unvisited |
| Palette.ClearLists | ImageQuantization/ImageOperations.cs:436-440 | every adjacency list is empty |
| Palette.BuildAdjacency | ImageQuantization/ImageOperations.cs:442-459 | the lists become those of the entries after the first, each entry appended forwards to its source and backwards to its target |
| Palette.PaintCluster | ImageQuantization/ImageOperations.cs:466-469 | one step of the driver: the walk runs exactly when the colour's tree is unvisited, and the painting state advances by one colour |
| Palette.PaintClusters | ImageQuantization/ImageOperations.cs:464-470 | afterwards every colour is visited, every colour's slot holds its cluster mean, other slots are black, and the walk ran once per tree |
| Palette.ClusterColors | ImageQuantization/ImageOperations.cs:518-519 | a cluster's colours are exactly the listed colours whose index lies in that tree |
| Palette.LinkAndPaint | ImageQuantization/ImageOperations.cs:430-470 | from kept forest edges and a black palette: each colour's slot holds its cluster mean, other slots stay black, and the walk ran once per tree |
| Palette.ExtractColorPalette | ImageQuantization/ImageOperations.cs:397-475 | fails with ArgumentOutOfRange exactly when K-1 exceeds the colour count or K = -2^31, where K-1 wraps; otherwise a new 256³ palette in which each colour's slot holds the mean of its cluster in the cut forest, every other slot is black, and the walk ran once per tree |
| Quantize.Quantization | ImageQuantization/ImageOperations.cs:531-546 | every pixel becomes the palette entry of its former colour |
| Quantize.QuantizeRow | ImageQuantization/ImageOperations.cs:537-544 | every pixel of row i becomes its palette entry; other rows are unchanged |
| Quantize.SingletonMean | ImageQuantization/ImageOperations.cs:513-515 | a colour alone in its cluster is its own mean |
| Quantize.NothingKept | ImageQuantization/ImageOperations.cs:407-459 | with K = V or K = V+1 no link is left |
| Quantize.AllSingletons | ImageQuantization/ImageOperations.cs:464-520 | in a forest without links every colour's cluster mean is that colour |
| Quantize.EveryColourKept | ImageQuantization/ImageOperations.cs:407-520 | with K = V or K = V+1 clusters the cluster mean of every colour is that colour itself |
| Quantize.Quantized | ImageQuantization/ImageOperations.cs:397-546 | the colour a listed colour becomes: the mean of its cluster after the cut for K |
| Quantize.QuantizedIdentity | ImageQuantization/ImageOperations.cs:397-546 | with K = V or K = V+1 the cut succeeds and every colour becomes itself |
| Quantize.PaletteSlots | ImageQuantization/ImageOperations.cs:464-520 | a palette holding each colour's cluster mean maps every listed colour to the colour it becomes |
| Quantize.PaletteFor | ImageQuantization/ImageOperations.cs:397-475 | fails with ArgumentOutOfRange exactly when the wrapped K-1 exceeds the colour count; otherwise a new 256³ palette that maps every colour to the colour it becomes |
| Quantize.Recolor | ImageQuantization/MainForm.cs:52-53 | the palette pass then the pixel rewrite: on failure the image is untouched; on success every pixel becomes the mean of its colour's cluster |
| Quantize.Operations | ImageQuantization/MainForm.cs:47-55 | the whole pipeline for a 32-bit K: counts the distinct colours (zero exactly for an empty image); fails with IndexOutOfRange on an empty image and with ArgumentOutOfRange when the cut runs out of entries, leaving the image untouched; otherwise returns a well-formed tree and replaces every pixel by its cluster mean, and for K = V or K = V+1 leaves the image unchanged |

## Edge behaviour

- **Colour distance.** The model keeps the squared distance, because
  `Math.Sqrt` is monotone: every comparison the construction and the cut make
  comes out the same. The reported tree weight is therefore the sum of
  squared distances.
- **Cluster count.** The code does not check K. For K ≤ 1 the first loop
  does not run, so the whole tree is one cluster. For K = V+1 the sentinel is
  removed as well, and every colour is its own cluster. For K > V+1
  `RemoveAt` on the emptied list throws ArgumentOutOfRange. K-1 is computed
  in 32-bit `int` arithmetic (ImageOperations.cs:407), so K = -2^31 wraps to
  2^31-1 removals, more than any image has colours, and fails the same way.
  `Cut.CutsFor`, `Cut.Prune`, `Palette.ClusterCount` and
  `Palette.ExtractColorPalette` state exactly this.
- **Empty heap.** `extract_Min` on an empty heap throws
  InvalidOperationException (heap.cs:27), modelled as `Error.InvalidOperation`.
- **Empty image.** `p[0] = -1` on a zero-length array throws
  IndexOutOfRangeException (ImageOperations.cs:340), and `PrimMst.MstWeight`
  returns that failure.

## Left out

- Image I/O and the GUI: OpenImage, DisplayImage, GaussianFilter1D and the
  form (MainForm.cs). `Quantize.Operations` models the calls of `Operations`
  in MainForm.cs; the writes to the form's labels and the final DisplayImage
  are not modelled, and the colour count is returned instead.
- The parsing of the cluster text box by `Convert.ToInt32` (MainForm.cs:52)
  is not modelled: K is a parameter that is required to be a 32-bit integer,
  and a text that does not parse is not covered.
- heap.insert_Key and heap.remove: nothing in the modelled core calls them.
  They rely on `Node.set_key`, and the declarations of Node and node2 are not
  part of this model; both are modelled as datatypes with the fields the core
  reads.
- Floating point: weights and tentative distances are natural numbers, namely
  squared distances. `double.MaxValue` becomes the bound `Pixels.Unreached`,
  which exceeds every squared distance.
- Palette.ExtractColorPalette: the palette holds the floored channel means as
  bytes instead of doubles. Quntization casts each mean to a byte, which
  truncates a non-negative mean to the same value, so the final pixels agree.
- The 256×256×256 `color_state` cube is modelled as a set of colours with the
  same membership.
- Palette.ExtractColorPalette: `mst.tree` is pruned as a local sequence, so
  the caller's MST record is not seen to shrink. The aliasing between the
  returned MST and the pruned list is not modelled.
- PrimMst.MstWeight: minimality of the tree's total weight is not proved. The
  contract states the greedy choice of each record (no heavier than any edge
  leaving the colours settled before it), from which minimality follows by
  the cut property.
- Palette.ExtractColorPalette requires the facts a constructed tree has
  (settling order, sentinel first, distinct colours). `Palette.MstFacts`
  proves that every tree returned by `PrimMst.MstWeight` has them. Arbitrary
  hand-made MST records are not covered.
- The exceptions are values of a `Result` type. Unwinding and the program's
  reaction to them are not modelled.
- The runtime complexity stated in the comments is not modelled.
