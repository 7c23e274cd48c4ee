# image-compression in Dafny

A Dafny model of the algorithmic core of image-compression, a C#/WPF desktop
program. It compresses images with a DCT (JPEG-like) codec and a wavelet
codec, reduces palettes (bit quantization, LBG seeded by Kruskal, median
cut) and applies per-pixel colour effects. Each source class is one module,
and the module keeps the class's form. Pure expressions become functions
over datatypes and sequences. Loops that fill or overwrite arrays become
methods over `array`/`array2`, and each such method is proved against a
specification function. Classes whose fields change (`Matrix`,
`PersistentStack`, `DSU`, `DctParameters`) are Dafny classes.

| module | file | models |
|---|---|---|
| Common | common.dfy | .NET `byte`/`int`; exceptions as `Result`/`Outcome` error values; C# shifts, truncating `/` and `%`, `Math.Round`/`Convert.ToInt32` (round half to even) |
| Grids | grids.dfy | a `T[,]` array read as a row-major sequence of rows |
| Vectors | vector.dfy | `Vector<T>` (Structures/Vector.cs) as a value, with the update and map the algorithm files use |
| Segments, Cubes | segment.dfy, cube.dfy | `Segment` and `Cube` of the median cut |
| Edges | edge.dfy | `Edge` and its length-only comparison; `List<Edge>.Sort` as a sorted permutation |
| DisjointSets | dsu.dfy | `DSU`: union by rank with path compression |
| Lbg | lbg.dfy | `LbgAlgorithm`: distance, mean, nearest-palette encoding, Kruskal's initial palette, the five LBG rounds |
| MedianCuts | median_cut.dfy | `MedianCut`: cumulative histograms, binary search, cube splitting, the doubling rounds, palette lookup |
| Quantization | quantization.dfy | `Quantization`: keeping the high bits of a byte at the bucket midpoint |
| Transformation | transformation.dfy | the clamping fixed-point RGB↔YCbCr transform |
| Effects | effects.dfy | the per-pixel effects, their non-clamping (wrapping) transform, `CanApply` |
| MainWindow | main_window.dfy | the in-place Bgr32 monochrome loops and the `ApplyEffect` format guard |
| BitmapExtensions | bitmap_extensions.dfy | `GetExtension` and the extension-to-encoder dispatch of `Save` |
| BitmapSources | bitmap_source.dfy | `GetMap`: Bgr32 buffer to colour grid, and the packing it reads back |
| Matrices | matrix.dfy | the `Matrix` class: product, element-wise rounded quotient and product, transpose, indexer |
| PersistentStacks | persistent_stack.dfy | the undo/redo cursor over a list |
| DctParams | dct_params.dfy | `DctParameters`, `DecimationType`, `QuantizationType` |
| DctDecimation | decimation.dfy | `Decimate`/`Undecimate` |
| DctBlocks | blocks.dfy | 8×8 block splitting, `Project`, `Flatten`, `PlaceMatrix`, `ConvertToByte` |
| DctQuantization | dct_quantization.dfy | the quantization policies, the generated and ITU-T T.81 Annex K tables, keeping the largest N coefficients |
| DctColors | dct_colors.dfy | `ToYCbCr` and `ToRgbBytes` |
| BinaryStreams | binary_stream.dfy | what `BinaryWriter` writes and `BinaryReader` reads: bytes, little-endian ints, opaque doubles |
| Jpeg | jpeg.dfy | the DCT container `Jpeg.Save`/`Jpeg.Load` as byte sequences |
| Wavelet | wavelet.dfy | filters, the quadrature mirror, the inverse filters and `PairConvolution` |
| WaveletChannel | wavelet_channel.dfy | the de-interleave permutation, the passes of one iteration, the window schedule and the threshold step, as values |
| WaveletPasses | wavelet_passes.dfy | `DoApplyWavelet`/`DecodeChannel` over `double[,]` arrays |
| WaveletContainer | wavelet_container.dfy | the `.wavelet` file (`SaveWavelet`, `OpenWavelet`, `ReadChannel`, `WriteChannel`), `GetBytes`, `ToByte`, the channel loop of `ApplyWavelet` |

Doubles are modelled as mathematical reals. `Math.Sqrt(2)` and
`Math.Sqrt(3)` are parameters `sqrt2` and `sqrt3`. The main lemmas that
state round trips:

- `Jpeg.LoadOfSave`: `Load` returns what `Save` wrote.
- `WaveletContainer.OpenOfSave`: `OpenWavelet` reads back what `SaveWavelet` wrote.
- `DctBlocks.FlattenSplit`: flattening the split blocks gives the grid back.
- `DctDecimation.DecimateUndecimate`: decimating an undecimated grid gives the grid back.
- `WaveletChannel.Haar2RoundTrip`: the Haar 1/√2 decoder inverts the forward passes.
- `Transformation.GrayRoundTrip`: gray pixels survive the colour transform and its inverse.

## Model

| member | source | states |
|---|---|---|
| Vectors.Vector.Index | ImageCompression/ImageCompression/Structures/Vector.cs:18-21 | the get-only indexer: in range it returns element i, otherwise it throws IndexOutOfRange |
| Vectors.Vector.Update | ImageCompression/ImageCompression/Algorithms/DiscreteCosineTransform/DctAlgorithm.cs:132-134 | `v[k] = x` as the algorithm files write it: same length, component k becomes x, every other component keeps its value |
| Vectors.Vector.Convert | ImageCompression/ImageCompression/Algorithms/DiscreteCosineTransform/DctAlgorithm.cs:87 | `v.Convert(f)` as the algorithm files call it: same length, component i becomes f of component i |
| Vectors.Sized | ImageCompression/ImageCompression/Structures/Vector.cs:8-11 | `new Vector(size)` holds `size` default elements |
| Vectors.FromSeq | ImageCompression/ImageCompression/Structures/Vector.cs:13-16 | `new Vector(IEnumerable)` snapshots its source: same count, same elements in the same order |
| Vectors.Equals | ImageCompression/ImageCompression/Structures/Vector.cs:28-41 | the element-by-element loop with early return answers true exactly when the other object is a vector equal to this one (false for a non-vector or another length) |
| Vectors.EqualityIsElementwise | ImageCompression/ImageCompression/Structures/Vector.cs:28-41 | pairwise-equal elements of equal length is the same as equal vectors, in both directions |
| Vectors.EqualsReflexiveSymmetric | ImageCompression/ImageCompression/Structures/Vector.cs:28-41 | Equals is reflexive and symmetric |
| Vectors.Join | ImageCompression/ImageCompression/Structures/Vector.cs:48-51 | ToString's `string.Join(", ", …)`: no parts give "", one part gives that part |
| Vectors.JoinSnoc | ImageCompression/ImageCompression/Structures/Vector.cs:48-51 | each further part adds ", " and the part, so the length grows by 2 plus the part's length |
| Segments.Segment.Length | ImageCompression/ImageCompression/Algorithms/MedianCutting/Segment.cs:11 | `End - Start + 1`: at least 1 exactly when Start <= End, 0 exactly when End = Start - 1 |
| Segments.LengthIsPointCount | ImageCompression/ImageCompression/Algorithms/MedianCutting/Segment.cs:11 | a non-negative Length is the number of integers in [Start, End] |
| Segments.SplitLengths | ImageCompression/ImageCompression/Algorithms/MedianCutting/Segment.cs:11 | cutting [S, E] into [S, index] and [index + 1, E] gives lengths that add up to the original, for every index |
| Segments.SplitPartitions | ImageCompression/ImageCompression/Algorithms/MedianCutting/Segment.cs:5-11 | every integer of [S, E] lies in exactly one half, and with S <= index <= E the halves hold nothing else |
| Cubes.Cube.Contains | ImageCompression/ImageCompression/Algorithms/MedianCutting/Cube.cs:15-21 | Contains holds exactly when each of components 0..2 lies in the closed interval of its segment |
| Cubes.EmptyCube | ImageCompression/ImageCompression/Algorithms/MedianCutting/Cube.cs:16-21 | a cube with a segment whose End is below its Start contains no colour |
| Cubes.Cube.WithAxis | ImageCompression/ImageCompression/Algorithms/MedianCutting/MedianCut.cs:67-87 | the cube SplitCube builds: the segment along axis k replaced, the other two unchanged |
| Cubes.SplitPartitionsCube | ImageCompression/ImageCompression/Algorithms/MedianCutting/MedianCut.cs:67-87 | cutting a cube along one axis puts every colour of the cube in exactly one half, and each half lies inside the cube when the cut index lies in the segment |
| Edges.CompareTo | ImageCompression/ImageCompression/Algorithms/LBG/Edge.cs:16-19 | the sign of the length difference, -1, 0 or 1; U and V are not looked at |
| Edges.CompareToIsTotalPreorder | ImageCompression/ImageCompression/Algorithms/LBG/Edge.cs:16-19 | reflexive, antisymmetric in sign, transitive and total |
| Edges.Insert | ImageCompression/ImageCompression/Algorithms/LBG/LbgAlgorithm.cs:91 | inserting into a length-sorted list keeps it sorted and adds exactly that edge to the multiset |
| Edges.SortByLength | ImageCompression/ImageCompression/Algorithms/LBG/LbgAlgorithm.cs:91 | `List<Edge>.Sort()`: a permutation of the edges, non-decreasing in length |
| DisjointSets.Root | ImageCompression/ImageCompression/Algorithms/LBG/DSU.cs:31-34 | the element Get reaches by following parent links: a self-loop, reached along strictly increasing ranks |
| DisjointSets.RootIgnoresRank | ImageCompression/ImageCompression/Algorithms/LBG/DSU.cs:31-34 | the root depends only on the parent array, not on the rank bound used to prove termination |
| DisjointSets.Compressed | ImageCompression/ImageCompression/Algorithms/LBG/DSU.cs:33 | the parent array after the recursive assignment of Get: same size |
| DisjointSets.CompressedKeepsRoots | ImageCompression/ImageCompression/Algorithms/LBG/DSU.cs:31-34 | path compression keeps an acyclic forest, changes no element's root, and leaves x pointing straight at its root |
| DisjointSets.CompressedKeepsRootSet | ImageCompression/ImageCompression/Algorithms/LBG/DSU.cs:31-34 | path compression creates and removes no root |
| DisjointSets.HangKeepsOtherRoots | ImageCompression/ImageCompression/Algorithms/LBG/DSU.cs:19-27 | after `parent[a] = b` the elements under a have root b and every other root is unchanged |
| DisjointSets.Hang | ImageCompression/ImageCompression/Algorithms/LBG/DSU.cs:17-28 | the union-by-rank branch: equal ranks hang the first root under the second and raise the second's rank, otherwise the lower rank goes under the higher |
| DisjointSets.HangMerges | ImageCompression/ImageCompression/Algorithms/LBG/DSU.cs:17-28 | hanging keeps a forest, merges exactly the two sets under the surviving root, and never lowers a rank |
| DisjointSets.Linked | ImageCompression/ImageCompression/Algorithms/LBG/DSU.cs:13-29 | the parent and rank arrays after Link: both Gets, then the union-by-rank step; same sizes |
| DisjointSets.LinkedJoins | ImageCompression/ImageCompression/Algorithms/LBG/DSU.cs:13-29 | after Link(x, y) x and y share a root, every element of their two sets has it, every other element keeps its root, no rank decreases, and the shared root is one of the two old roots |
| DisjointSets.LinkSameSet | ImageCompression/ImageCompression/Algorithms/LBG/DSU.cs:15-21 | Link on two elements of one set changes no root but still raises that root's rank by one |
| DisjointSets.SingletonsCount | ImageCompression/ImageCompression/Algorithms/LBG/DSU.cs:7-11 | freshly built, n elements form n sets |
| DisjointSets.OneSetCount | ImageCompression/ImageCompression/Algorithms/LBG/DSU.cs:13-34 | when every element shares one root there is exactly one set |
| DisjointSets.LinkedRootCount | ImageCompression/ImageCompression/Algorithms/LBG/DSU.cs:13-29 | Link on two different sets leaves exactly one set fewer; on one set the roots stay the same |
| DisjointSets.DSU.constructor | ImageCompression/ImageCompression/Algorithms/LBG/DSU.cs:7-11 | `new DSU(size)`: parent[i] = i and rank[i] = 0 for every i |
| DisjointSets.DSU.Get | ImageCompression/ImageCompression/Algorithms/LBG/DSU.cs:31-34 | returns the root of x and leaves the parent array path-compressed as Compressed says; ranks untouched |
| DisjointSets.DSU.Link | ImageCompression/ImageCompression/Algorithms/LBG/DSU.cs:13-29 | the new parent and rank arrays are exactly Linked of the old ones |
| Lbg.DistanceIsMetricLike | ImageCompression/ImageCompression/Algorithms/LBG/LbgAlgorithm.cs:127-135 | the squared distance is symmetric, at most 3·255², and zero exactly when the colours are equal |
| Lbg.Distance | ImageCompression/ImageCompression/Algorithms/LBG/LbgAlgorithm.cs:127-135 | the component loop returns the sum of squared component differences |
| Lbg.Nearest | ImageCompression/ImageCompression/Algorithms/LBG/LbgAlgorithm.cs:26-36 | the chosen site is at least as close as every site and strictly closer than every earlier one (the first nearest) |
| Lbg.NearestIsUnique | ImageCompression/ImageCompression/Algorithms/LBG/LbgAlgorithm.cs:26-36 | any site with that property is the one Nearest picks |
| Lbg.NearestSnoc | ImageCompression/ImageCompression/Algorithms/LBG/LbgAlgorithm.cs:28-35 | looking at one more site moves the choice to it exactly when it is strictly closer than the current choice |
| Lbg.NearestSite | ImageCompression/ImageCompression/Algorithms/LBG/LbgAlgorithm.cs:26-36 | starting at site -1 with distance Int32.MaxValue and keeping only strictly closer sites yields Nearest, or -1 for an empty palette |
| Lbg.EncodeByPalette | ImageCompression/ImageCompression/Algorithms/LBG/LbgAlgorithm.cs:47-66 | every colour is replaced by its first nearest palette entry; an empty palette with at least one colour throws IndexOutOfRange at `palette[-1]` |
| Lbg.ComponentSumBounds | ImageCompression/ImageCompression/Algorithms/LBG/LbgAlgorithm.cs:117-122 | a cluster's exact component sum lies between count·min and count·max of that component |
| Lbg.SumFits | ImageCompression/ImageCompression/Algorithms/LBG/LbgAlgorithm.cs:117-122 | for clusters of at most Int32.MaxValue / 255 colours every component sum fits in an int, so `sum[i] +=` never wraps |
| Lbg.MeanBetween | ImageCompression/ImageCompression/Algorithms/LBG/LbgAlgorithm.cs:115-124 | for clusters of at most Int32.MaxValue / 255 colours, every mean component lies between the cluster's smallest and largest value of that component, so the byte cast never wraps and a repeated colour is its own mean |
| Lbg.RepeatedSum | ImageCompression/ImageCompression/Algorithms/LBG/LbgAlgorithm.cs:118-122 | n copies of one colour sum to n times each of its components |
| Lbg.MeanWrapsPastLimit | ImageCompression/ImageCompression/Algorithms/LBG/LbgAlgorithm.cs:115-124 | one colour more and the int sum wraps: Int32.MaxValue / 255 + 1 white colours average to 2, not 255 |
| Lbg.Mean | ImageCompression/ImageCompression/Algorithms/LBG/LbgAlgorithm.cs:115-124 | each component is the int sum wrapped to 32 bits, divided by the count with truncation, then cast to byte |
| Lbg.WrapAdd | ImageCompression/ImageCompression/Algorithms/LBG/LbgAlgorithm.cs:121 | adding to a wrapped int sum gives the wrap of the exact sum, so the loop's running sum is the wrapped exact sum |
| Lbg.MeanVector | ImageCompression/ImageCompression/Algorithms/LBG/LbgAlgorithm.cs:115-124 | the summing loop with its wrapping int additions, the truncating division and the byte cast return Mean |
| Lbg.SiteOf | ImageCompression/ImageCompression/Algorithms/LBG/LbgAlgorithm.cs:24-38 | the colours assigned to one site, in order, never more than the colours |
| Lbg.SitesPartition | ImageCompression/ImageCompression/Algorithms/LBG/LbgAlgorithm.cs:24-38 | a colour is in a site's list exactly when that site is its first nearest entry |
| Lbg.AssignToSites | ImageCompression/ImageCompression/Algorithms/LBG/LbgAlgorithm.cs:20-38 | after clearing and refilling, site s holds exactly SiteOf(colors, palette, s) |
| Lbg.UpdatePalette | ImageCompression/ImageCompression/Algorithms/LBG/LbgAlgorithm.cs:39-42 | a non-empty site moves its entry to the site's mean; an empty site keeps its entry |
| Lbg.PairsFormula | ImageCompression/ImageCompression/Algorithms/LBG/LbgAlgorithm.cs:84-90 | the two loops visit n(n−1)/2 pairs |
| Lbg.HasEdgeAppend | ImageCompression/ImageCompression/Algorithms/LBG/LbgAlgorithm.cs:88 | adding an edge keeps every pair already joined and joins the new edge's ends |
| Lbg.Row | ImageCompression/ImageCompression/Algorithms/LBG/LbgAlgorithm.cs:86-89 | the inner loop for candidate i adds (i, 0), ..., (i, j − 1) in that order, each weighted by the squared distance of its ends |
| Lbg.Rows | ImageCompression/ImageCompression/Algorithms/LBG/LbgAlgorithm.cs:84-90 | after i outer iterations there are Pairs(i) edges, each (u, v) with v < u < i and weighted by the squared distance of its ends |
| Lbg.RowsJoinAll | ImageCompression/ImageCompression/Algorithms/LBG/LbgAlgorithm.cs:84-90 | after i outer iterations every pair b < a < i has an edge |
| Lbg.HasEdgeConcat | ImageCompression/ImageCompression/Algorithms/LBG/LbgAlgorithm.cs:84-90 | joining two edge lists keeps every pair either list joins |
| Lbg.PairEdges | ImageCompression/ImageCompression/Algorithms/LBG/LbgAlgorithm.cs:83-90 | the complete edge list: every edge joins two candidates, the larger index first |
| Lbg.AllPairs | ImageCompression/ImageCompression/Algorithms/LBG/LbgAlgorithm.cs:83-90 | the loops build exactly PairEdges, in loop order: one edge (i, j) with j < i for every pair, weighted by squared distance, n(n−1)/2 edges |
| Lbg.SortedKeepsPairs | ImageCompression/ImageCompression/Algorithms/LBG/LbgAlgorithm.cs:91 | sorting the edges keeps every pair joined by an edge and every edge in range |
| Lbg.SortedEdgesIn | ImageCompression/ImageCompression/Algorithms/LBG/LbgAlgorithm.cs:91 | sorting keeps both ends of every edge below n |
| Lbg.SortedPairEdges | ImageCompression/ImageCompression/Algorithms/LBG/LbgAlgorithm.cs:83-91 | the sorted complete edge list still joins candidates only |
| Lbg.ExactFitCollapses | ImageCompression/ImageCompression/Algorithms/LBG/LbgAlgorithm.cs:93-103 | when the candidates number exactly paletteSize (at least two), the count is checked only after a union, so everything collapses into one colour |
| Lbg.RootsNonEmpty | ImageCompression/ImageCompression/Algorithms/LBG/LbgAlgorithm.cs:92-103 | a non-empty forest has at least one set |
| Lbg.ProcessEdge | ImageCompression/ImageCompression/Algorithms/LBG/LbgAlgorithm.cs:96-100 | Link runs exactly when the two ends have different roots, and then the number of sets drops by one, otherwise the roots are unchanged; afterwards two elements share a root exactly when they did before or both were in the sets of u and v |
| Lbg.LinkedCoarsens | ImageCompression/ImageCompression/Algorithms/LBG/LbgAlgorithm.cs:98 | Link never separates two elements already in one set |
| Lbg.CoarsensTrans | ImageCompression/ImageCompression/Algorithms/LBG/LbgAlgorithm.cs:94-103 | staying joined carries across successive unions |
| Lbg.LinkedUnites | ImageCompression/ImageCompression/Algorithms/LBG/LbgAlgorithm.cs:98 | Link(u, v) unites the sets of u and v and no other sets |
| Lbg.SameRootsUnite | ImageCompression/ImageCompression/Algorithms/LBG/LbgAlgorithm.cs:96 | when u and v already share a root, keeping every root unites nothing |
| Lbg.UnitesAfterFinding | ImageCompression/ImageCompression/Algorithms/LBG/LbgAlgorithm.cs:96-98 | the path compression of the two Get calls does not change which sets the following Link unites |
| Lbg.LabelsJoinEdges | ImageCompression/ImageCompression/Algorithms/LBG/LbgAlgorithm.cs:94-103 | after the first k edges the two ends of each of them are in one class |
| Lbg.LabelsLeast | ImageCompression/ImageCompression/Algorithms/LBG/LbgAlgorithm.cs:94-103 | those classes are the finest such: any labelling that gives the ends of each of the first k edges one label is constant on every class, so two candidates share a class exactly when a path of those edges connects them |
| Lbg.StopAtIsFirst | ImageCompression/ImageCompression/Algorithms/LBG/LbgAlgorithm.cs:101-102 | scanning the class counts, the `if (count == paletteSize) break` stops at the first count equal to paletteSize, or at the end when none is |
| Lbg.KruskalStopIsFirst | ImageCompression/ImageCompression/Algorithms/LBG/LbgAlgorithm.cs:94-103 | the loop stops right after the first edge that leaves paletteSize classes, and processes every edge when none does |
| Lbg.UnionRelabel | ImageCompression/ImageCompression/Algorithms/LBG/LbgAlgorithm.cs:96-99 | if the sets were the classes before, a union that unites exactly the sets of u and v leaves the sets equal to the classes with u's merged into v's |
| Lbg.StepKeepsJoined | ImageCompression/ImageCompression/Algorithms/LBG/LbgAlgorithm.cs:94-103 | after edge i, the ends of edges 0..i are all in common sets |
| Lbg.AllPairsJoined | ImageCompression/ImageCompression/Algorithms/LBG/LbgAlgorithm.cs:94-103 | once every pair's edge is processed, there is one set |
| Lbg.UnionsPositive | ImageCompression/ImageCompression/Algorithms/LBG/LbgAlgorithm.cs:94-100 | the first edge always merges two classes (its ends differ) |
| Lbg.UnitingStarts | ImageCompression/ImageCompression/Algorithms/LBG/LbgAlgorithm.cs:92-93 | before the loop the count is n and every candidate is a set of its own, the classes of no edges |
| Lbg.UnitingStep | ImageCompression/ImageCompression/Algorithms/LBG/LbgAlgorithm.cs:95-102 | processing edge i keeps the loop state: the count is the number of sets and n minus the merges so far, the sets are the classes of the first i + 1 edges, and the loop stops where KruskalStop says |
| Lbg.UniteStep | ImageCompression/ImageCompression/Algorithms/LBG/LbgAlgorithm.cs:95-102 | one pass keeps the forest valid, lowers the count by at most one, stops exactly when the count equals paletteSize, and keeps the loop state at i + 1 |
| Lbg.UnitingEnds | ImageCompression/ImageCompression/Algorithms/LBG/LbgAlgorithm.cs:94-103 | when the loop ends, by the count or after the last edge, it has processed KruskalStop edges and the count is KruskalSize |
| Lbg.UniteAlongEdges | ImageCompression/ImageCompression/Algorithms/LBG/LbgAlgorithm.cs:92-103 | the loop processes exactly the first KruskalStop edges; its sets are then exactly the classes those edges connect (single linkage), and count is their number, n minus the merges, which is KruskalSize(paletteSize, n) |
| Lbg.ConcatAppendTo | ImageCompression/ImageCompression/Algorithms/LBG/LbgAlgorithm.cs:109 | appending a colour to one group adds exactly that colour to all groups together |
| Lbg.ConcatSnoc | ImageCompression/ImageCompression/Algorithms/LBG/LbgAlgorithm.cs:108 | a new list at the end adds its elements to all groups together |
| Lbg.AddToGroup | ImageCompression/ImageCompression/Algorithms/LBG/LbgAlgorithm.cs:107-109 | a root already keyed appends the colour to its own list and changes nothing else; a new root gets a key at the end with the list [colour]; the groups together gain exactly the colour |
| Lbg.AppendToGroup | ImageCompression/ImageCompression/Algorithms/LBG/LbgAlgorithm.cs:109 | a root already present keeps its place and its group grows by the colour |
| Lbg.StartGroup | ImageCompression/ImageCompression/Algorithms/LBG/LbgAlgorithm.cs:107-108 | a new root comes last, with a group holding only the colour |
| Lbg.CompressedSameRoots | ImageCompression/ImageCompression/Algorithms/LBG/LbgAlgorithm.cs:107 | the `dsu.Get(i)` calls of the grouping loop change no root |
| Lbg.SeenStep | ImageCompression/ImageCompression/Algorithms/LBG/LbgAlgorithm.cs:105-110 | after candidate x every root seen so far has a group |
| Lbg.SeenAll | ImageCompression/ImageCompression/Algorithms/LBG/LbgAlgorithm.cs:105-110 | at the end the keys are exactly the roots |
| Lbg.LeadersDistinct | ImageCompression/ImageCompression/Algorithms/LBG/LbgAlgorithm.cs:107-108 | a list is opened only for a class not met before: the first candidates of the classes carry pairwise different labels |
| Lbg.LeadersCover | ImageCompression/ImageCompression/Algorithms/LBG/LbgAlgorithm.cs:107-108 | every candidate processed so far belongs to the class of one of those first candidates |
| Lbg.MembersOfUnseen | ImageCompression/ImageCompression/Algorithms/LBG/LbgAlgorithm.cs:109 | a class no processed candidate belongs to has no members yet |
| Lbg.GroupsAppend | ImageCompression/ImageCompression/Algorithms/LBG/LbgAlgorithm.cs:109 | a candidate of a class already met joins the end of that class's list |
| Lbg.GroupsStart | ImageCompression/ImageCompression/Algorithms/LBG/LbgAlgorithm.cs:107-109 | a candidate of a new class opens a new list at the end holding only itself |
| Lbg.GroupsDone | ImageCompression/ImageCompression/Algorithms/LBG/LbgAlgorithm.cs:104-110 | after the last candidate the lists are Grouped: one per class in the order first met, each holding its class's candidates in order |
| Lbg.GroupStep | ImageCompression/ImageCompression/Algorithms/LBG/LbgAlgorithm.cs:106-109 | one iteration keeps that state, in the branch with an existing key and in the branch that creates one |
| Lbg.LeadersSameClasses | ImageCompression/ImageCompression/Algorithms/LBG/LbgAlgorithm.cs:104-110 | two labellings with the same classes meet the classes in the same order |
| Lbg.MembersSameClasses | ImageCompression/ImageCompression/Algorithms/LBG/LbgAlgorithm.cs:109 | two labellings with the same classes give every class the same members |
| Lbg.GroupedSameClasses | ImageCompression/ImageCompression/Algorithms/LBG/LbgAlgorithm.cs:104-110 | the grouping depends only on the classes, not on the key values (here root numbers) |
| Lbg.RootLabelsSameClasses | ImageCompression/ImageCompression/Algorithms/LBG/LbgAlgorithm.cs:107 | labels whose classes are the forest's sets have the same classes as the roots |
| Lbg.RootGroupsRelabel | ImageCompression/ImageCompression/Algorithms/LBG/LbgAlgorithm.cs:104-110 | grouping by root gives the same lists as grouping by any labels whose classes are the forest's sets |
| Lbg.GroupByRoot | ImageCompression/ImageCompression/Algorithms/LBG/LbgAlgorithm.cs:104-110 | the lists are exactly Grouped by root: one per set, in the order each set's first candidate appears, each holding that set's candidates in order; none is empty and together they are a permutation of the candidates |
| Lbg.SolveByKruskal | ImageCompression/ImageCompression/Algorithms/LBG/LbgAlgorithm.cs:81-113 | the clusters are exactly KruskalClusters, the classes joined by the first KruskalStop sorted edges in first-seen order: KruskalSize(paletteSize, n) of them, non-empty, together a permutation of the candidates, and result g is the Mean of cluster g |
| Lbg.MeanOfEach | ImageCompression/ImageCompression/Algorithms/LBG/LbgAlgorithm.cs:112 | the mean of each list, in list order |
| Lbg.QuantizationVector | ImageCompression/ImageCompression/Algorithms/LBG/LbgAlgorithm.cs:148 | every channel gets the same bit count x |
| Lbg.QuantizedAll | ImageCompression/ImageCompression/Algorithms/LBG/LbgAlgorithm.cs:139-145 | every colour quantized with rate bits per channel, in order |
| Lbg.CreateQuantizedSet | ImageCompression/ImageCompression/Algorithms/LBG/LbgAlgorithm.cs:137-146 | holds every quantized colour and nothing else, and has no more entries than colours |
| Lbg.TriedStep | ImageCompression/ImageCompression/Algorithms/LBG/LbgAlgorithm.cs:71-76 | recording the set built at the next rate keeps every recorded set at its own rate |
| Lbg.ChooseRate | ImageCompression/ImageCompression/Algorithms/LBG/LbgAlgorithm.cs:70-76 | the rate is the first of 1..7 whose quantized set has at least paletteSize entries, every earlier set being smaller, or 8 when none has; the sets built are kept, set k at rate k + 1 |
| Lbg.GetInitialPalette | ImageCompression/ImageCompression/Algorithms/LBG/LbgAlgorithm.cs:68-79 | the rate is the first of 1..7 whose quantized set has at least paletteSize entries, or 8 when none has, and every earlier rate's set is smaller; the palette is the Mean of every KruskalClusters cluster of a fresh set at that rate, KruskalSize(paletteSize, n) entries, n between 1 and the number of colours (0 for no colours) |
| Lbg.RefineStaysInBox | ImageCompression/ImageCompression/Algorithms/LBG/LbgAlgorithm.cs:39-42 | one round keeps every entry inside any box that holds every colour and every entry, for at most Int32.MaxValue / 255 colours |
| Lbg.RefinedStaysInBox | ImageCompression/ImageCompression/Algorithms/LBG/LbgAlgorithm.cs:18-43 | so do any number of rounds: the palette never leaves the colours' bounding box |
| Lbg.RoundIsRefine | ImageCompression/ImageCompression/Algorithms/LBG/LbgAlgorithm.cs:20-42 | clearing and refilling the sites and then moving every non-empty site's entry to its mean is exactly one Refine round |
| Lbg.RefineRounds | ImageCompression/ImageCompression/Algorithms/LBG/LbgAlgorithm.cs:18-43 | the `it` loop leaves the palette at Refined(colors, initial, 5), the initial palette after five rounds |
| Lbg.Build | ImageCompression/ImageCompression/Algorithms/LBG/LbgAlgorithm.cs:12-45 | the initial palette is GetInitialPalette's; "WTF" is thrown exactly when it does not have paletteSize entries; otherwise the palette after the five rounds is Refined(colors, initial, 5) and every colour is replaced by its first nearest entry |
| MedianCuts.BitAndPredecessor | ImageCompression/ImageCompression/Algorithms/MedianCutting/MedianCut.cs:12 | for a positive size, `u & (u − 1)` is zero exactly when u is a power of two |
| MedianCuts.SizeCheckPositive | ImageCompression/ImageCompression/Algorithms/MedianCutting/MedianCut.cs:12-13 | a positive size passes the check exactly when it is a power of two |
| MedianCuts.SizeCheckMinValue | ImageCompression/ImageCompression/Algorithms/MedianCutting/MedianCut.cs:12-13 | int.MinValue passes the check, because its predecessor wraps to int.MaxValue |
| MedianCuts.SizeCheckExactly | ImageCompression/ImageCompression/Algorithms/MedianCutting/MedianCut.cs:12-13 | the size check lets through exactly 0, the positive powers of two and int.MinValue (whose predecessor wraps to int.MaxValue) |
| MedianCuts.SizeCheckNegative | ImageCompression/ImageCompression/Algorithms/MedianCutting/MedianCut.cs:12-13 | every negative size except int.MinValue is refused |
| MedianCuts.Histogram | ImageCompression/ImageCompression/Algorithms/MedianCutting/MedianCut.cs:90-116 | three rows of 256 cumulative counts |
| MedianCuts.CountAtMostStep | ImageCompression/ImageCompression/Algorithms/MedianCutting/MedianCut.cs:112 | the prefix-sum step: colours with component at most j are those at most j − 1 plus those equal to j |
| MedianCuts.HistogramFacts | ImageCompression/ImageCompression/Algorithms/MedianCutting/MedianCut.cs:108-114 | each cumulative row is non-decreasing and ends at the number of colours |
| MedianCuts.InitialCubeContainsAll | ImageCompression/ImageCompression/Algorithms/MedianCutting/MedianCut.cs:96-107 | the cube built from the running minima and maxima contains every colour, and lies within [0, 255] when there are colours |
| MedianCuts.ComponentBounds | ImageCompression/ImageCompression/Algorithms/MedianCutting/MedianCut.cs:103-104 | every component lies between its minimum and maximum, both bytes |
| MedianCuts.Tally | ImageCompression/ImageCompression/Algorithms/MedianCutting/MedianCut.cs:98-106 | after one more colour the counters, minima and maxima describe the colours read so far |
| MedianCuts.Accumulate | ImageCompression/ImageCompression/Algorithms/MedianCutting/MedianCut.cs:110-113 | row i becomes the cumulative counts; the other rows are unchanged |
| MedianCuts.GetStatistics | ImageCompression/ImageCompression/Algorithms/MedianCutting/MedianCut.cs:90-116 | returns a fresh 3×256 array holding Histogram(colors) and the cube of component ranges |
| MedianCuts.SearchFromBrackets | ImageCompression/ImageCompression/Algorithms/MedianCutting/MedianCut.cs:56-63 | the loop ends with Start <= l < End, row[l] below the target unless l is Start, and row[l + 1] at or above it unless l + 1 is End |
| MedianCuts.Search | ImageCompression/ImageCompression/Algorithms/MedianCutting/MedianCut.cs:52-65 | throws IndexOutOfRange unless both ends are in range; returns Start on a segment of at most one value; otherwise the index where the counts cross the target, the mean of the two end counts with their sum wrapped as an int |
| MedianCuts.TargetIsMean | ImageCompression/ImageCompression/Algorithms/MedianCutting/MedianCut.cs:55 | below 2^30 colours the end-count sum does not wrap, and the target is the floored mean of the two counts |
| MedianCuts.SearchWrapsPastLimit | ImageCompression/ImageCompression/Algorithms/MedianCutting/MedianCut.cs:55-64 | from 2^30 colours on the sum can wrap: a concrete row where the target turns negative and the search stops at Start, one before the exact mean's cut |
| MedianCuts.BinarySearch | ImageCompression/ImageCompression/Algorithms/MedianCutting/MedianCut.cs:52-65 | the loop over the array returns exactly Search |
| MedianCuts.LongestAxis | ImageCompression/ImageCompression/Algorithms/MedianCutting/MedianCut.cs:69-86 | the cut axis is a longest one, ties going to x and then y |
| MedianCuts.SplitCube | ImageCompression/ImageCompression/Algorithms/MedianCutting/MedianCut.cs:67-87 | the longest axis [S, E] is cut at the search index into [S, index] and [index + 1, E]; the other axes stay; a failed search throws |
| MedianCuts.SplitCubePartitions | ImageCompression/ImageCompression/Algorithms/MedianCutting/MedianCut.cs:67-87 | every colour of the cube is in exactly one half, and on a non-empty cut axis the halves hold nothing else |
| MedianCuts.SplitCubeLengths | ImageCompression/ImageCompression/Algorithms/MedianCutting/MedianCut.cs:67-87 | the halves' lengths along the cut axis add up to the cube's |
| MedianCuts.CubeMedian | ImageCompression/ImageCompression/Algorithms/MedianCutting/MedianCut.cs:44-50 | throws unless the x and y segments' ends are in range; the red median lies in the x segment and the green and blue medians in the y segment |
| MedianCuts.MedianIgnoresOz | ImageCompression/ImageCompression/Algorithms/MedianCutting/MedianCut.cs:48 | the blue median does not depend on the cube's z segment |
| MedianCuts.CubeCount | ImageCompression/ImageCompression/Algorithms/MedianCutting/MedianCut.cs:17 | the loop ends with palletSize cubes for a size above one, one cube otherwise |
| MedianCuts.DistinctSnoc | ImageCompression/ImageCompression/Algorithms/MedianCutting/MedianCut.cs:24-29 | a list stays free of repeats exactly when the added cube is not already in it |
| MedianCuts.Halves | ImageCompression/ImageCompression/Algorithms/MedianCutting/MedianCut.cs:19-30 | entries 2j and 2j + 1 of the new list are the two halves of cube j, twice as many cubes in all |
| MedianCuts.Round | ImageCompression/ImageCompression/Algorithms/MedianCutting/MedianCut.cs:19-31 | a round that succeeds doubles the cubes; one that fails throws IndexOutOfRange or the repeated-half exception |
| MedianCuts.RoundIsHalves | ImageCompression/ImageCompression/Algorithms/MedianCutting/MedianCut.cs:19-31 | a round succeeds exactly when every cube can be cut and no half repeats another, and then yields Halves |
| MedianCuts.RoundFailureSticks | ImageCompression/ImageCompression/Algorithms/MedianCutting/MedianCut.cs:20-30 | an exception part-way through a round is the round's exception |
| MedianCuts.RoundStep | ImageCompression/ImageCompression/Algorithms/MedianCutting/MedianCut.cs:20-30 | cutting cube c after a successful prefix appends its two halves, or throws at that cube |
| MedianCuts.HalvesInside | ImageCompression/ImageCompression/Algorithms/MedianCutting/MedianCut.cs:23 | a colour in either half is in the cube, and never in both halves |
| MedianCuts.HalfAt | ImageCompression/ImageCompression/Algorithms/MedianCutting/MedianCut.cs:26-29 | entry i of the new list is half i mod 2 of cube i / 2 |
| MedianCuts.HalvesCover | ImageCompression/ImageCompression/Algorithms/MedianCutting/MedianCut.cs:19-31 | a round loses no colour and adds none |
| MedianCuts.HalvesDisjoint | ImageCompression/ImageCompression/Algorithms/MedianCutting/MedianCut.cs:19-31 | cutting disjoint cubes gives disjoint cubes |
| MedianCuts.Doubling | ImageCompression/ImageCompression/Algorithms/MedianCutting/MedianCut.cs:17-32 | the while loop ends with at least palletSize cubes and never fewer than it started with; it fails only with the two exceptions |
| MedianCuts.DoublingPartitions | ImageCompression/ImageCompression/Algorithms/MedianCutting/MedianCut.cs:17-32 | the rounds together lose no colour, add none, and keep disjoint cubes disjoint |
| MedianCuts.RoundCovers | ImageCompression/ImageCompression/Algorithms/MedianCutting/MedianCut.cs:19-31 | a successful round keeps every colour in some cube; a first cube that cannot be cut throws IndexOutOfRange |
| MedianCuts.DoublingCovers | ImageCompression/ImageCompression/Algorithms/MedianCutting/MedianCut.cs:16-32 | starting from one cube holding all colours, the rounds keep every colour in some cube |
| MedianCuts.DoublingCount | ImageCompression/ImageCompression/Algorithms/MedianCutting/MedianCut.cs:17 | doubling from 2^k cubes towards a power-of-two palletSize ends at exactly CubeCount(palletSize) cubes |
| MedianCuts.SplitAll | ImageCompression/ImageCompression/Algorithms/MedianCutting/MedianCut.cs:19-31 | the foreach loop computes Round: it succeeds exactly when every cube can be cut and no half repeats, and then gives the halves in order (2j and 2j + 1 from cube j), twice as many cubes, losing no colour; it fails only with IndexOutOfRange or the repeated-half exception, and with IndexOutOfRange when the first cube cannot be cut |
| MedianCuts.FirstContaining | ImageCompression/ImageCompression/Algorithms/MedianCutting/MedianCut.cs:41 | the index of the first cube containing the colour |
| MedianCuts.SplitRounds | ImageCompression/ImageCompression/Algorithms/MedianCutting/MedianCut.cs:16-32 | the while loop computes Doubling: exactly CubeCount(palletSize) cubes that together contain every colour; a size of at most one keeps the initial cube; an initial cube that cannot be cut throws IndexOutOfRange |
| MedianCuts.DistinctByPrefixes | ImageCompression/ImageCompression/Algorithms/MedianCutting/MedianCut.cs:34-39 | no cube occurring before its own place means no cube repeats |
| MedianCuts.Medians | ImageCompression/ImageCompression/Algorithms/MedianCutting/MedianCut.cs:33-39 | succeeds exactly when no cube repeats and every median search succeeds, and then entry t is cube t's median; otherwise the first failing cube decides: a repeat throws the plain exception, a failed search IndexOutOfRange |
| MedianCuts.FirstCubeIsOnly | ImageCompression/ImageCompression/Algorithms/MedianCutting/MedianCut.cs:41 | with disjoint cubes the first cube containing a colour is the only one, so its entry is the entry of every cube containing it |
| MedianCuts.MapToPalette | ImageCompression/ImageCompression/Algorithms/MedianCutting/MedianCut.cs:41 | every colour becomes the entry of the first cube containing it |
| MedianCuts.RoundsSplitColors | ImageCompression/ImageCompression/Algorithms/MedianCutting/MedianCut.cs:15-32 | the rounds end with disjoint cubes, each colour lying in one of them |
| MedianCuts.Build | ImageCompression/ImageCompression/Algorithms/MedianCutting/MedianCut.cs:10-42 | throws the power-of-two message exactly when the size check fails; the cubes are then Doubling of the initial cube, CubeCount(palletSize) of them, disjoint and covering every colour; Build succeeds exactly when no cube repeats and every median exists, entry j is cube j's median, and each colour maps to the entry of the first (and only) cube containing it; no colours throws IndexOutOfRange |
| Quantization.ShiftCount | ImageCompression/ImageCompression/Algorithms/Quantization.cs:19 | a shift count is taken modulo 32, so counts 0..31 are unchanged |
| Quantization.BucketWidthFacts | ImageCompression/ImageCompression/Algorithms/Quantization.cs:19 | for 1 to 7 kept bits the bucket width is an even power of two, and the buckets tile 0..255 |
| Quantization.QuantizeIsBucketMidpoint | ImageCompression/ImageCompression/Algorithms/Quantization.cs:17-20 | for 1 to 7 kept bits the result is the midpoint of the value's bucket |
| Quantization.QuantizeExtremes | ImageCompression/ImageCompression/Algorithms/Quantization.cs:17-20 | keeping eight bits is the identity; keeping none gives 128 |
| Quantization.QuantizeStaysInBucket | ImageCompression/ImageCompression/Algorithms/Quantization.cs:17-20 | the result stays in the value's bucket, within half a bucket of the value |
| Quantization.QuantizeIdempotent | ImageCompression/ImageCompression/Algorithms/Quantization.cs:17-20 | quantizing twice with the same bit count gives the same as once |
| Quantization.QuantizeMonotone | ImageCompression/ImageCompression/Algorithms/Quantization.cs:17-20 | quantizing keeps the order of values |
| Quantization.QuantizeVector | ImageCompression/ImageCompression/Algorithms/Quantization.cs:7-15 | component i of the result is QuantizeByte of component i with bit count i, for all three |
| Effects.GoodGray | ImageCompression/ImageCompression/Effects.cs:18-19 | the pixel becomes gray at the luma `(77 v0 + 150 v1 + 29 v2) >> 8` |
| Effects.BadGray | ImageCompression/ImageCompression/Effects.cs:27-28 | the pixel becomes gray at the truncated average of its three components |
| Effects.ApplyMonochromeGood | ImageCompression/ImageCompression/Effects.cs:14-21 | every colour, in order, becomes its good gray |
| Effects.ApplyMonochromeBad | ImageCompression/ImageCompression/Effects.cs:23-30 | every colour, in order, becomes its bad gray |
| Effects.GrayPixelFixed | ImageCompression/ImageCompression/Effects.cs:14-29 | a gray pixel is unchanged by both formulas (77 + 150 + 29 = 256) |
| Effects.GrayscaleFixesGray | ImageCompression/ImageCompression/Effects.cs:14-30 | both grayscale effects make every pixel gray and leave a gray image unchanged |
| Effects.WrappingForward | ImageCompression/ImageCompression/Effects.cs:106-108 | the unclamped byte-cast forward formulas give exactly the clamped transform of Transformation.cs |
| Effects.ToByteFloorZero | ImageCompression/ImageCompression/Effects.cs:119-121 | `(byte)Math.Max(0, v)`: negatives become 0, bytes stay, values above 255 wrap |
| Effects.WrappingInverseAgreesBelow256 | ImageCompression/ImageCompression/Effects.cs:114-125 | where no inverse formula exceeds 255 the effect's inverse equals the clamping one of Transformation.cs |
| Effects.WrappingInverseWraps | ImageCompression/ImageCompression/Effects.cs:119 | (255, 128, 255) shows the two inverses differ: red 432 wraps to 176 instead of clamping to 255 |
| Effects.WrappingInverseOfGray | ImageCompression/ImageCompression/Effects.cs:119-121 | (y, 128, 128) inverts to the gray pixel (y, y, y) |
| Effects.TransformRGBToYCbCr | ImageCompression/ImageCompression/Effects.cs:101-112 | the loop's result is the forward transform of every colour |
| Effects.TransformYCbCrToRGB | ImageCompression/ImageCompression/Effects.cs:114-125 | the loop's result is the wrapping inverse of every colour, same length |
| Effects.ApplyToYCbCrAndBack | ImageCompression/ImageCompression/Effects.cs:53-59 | every colour goes forward and back, and every gray pixel comes back unchanged |
| Effects.ChannelView | ImageCompression/ImageCompression/Effects.cs:32-51 | the Y, Cb or Cr component of each pixel, replicated into all three channels |
| Effects.LumaViewIsGoodGrayscale | ImageCompression/ImageCompression/Effects.cs:46-51 | the Y view equals the good grayscale |
| Effects.QuantizeInRgb | ImageCompression/ImageCompression/Effects.cs:68-73 | every colour quantized with the given bit counts |
| Effects.QuantizeInRgbIdempotent | ImageCompression/ImageCompression/Effects.cs:68-73 | quantizing twice is quantizing once, and eight bits per channel changes nothing |
| Effects.QuantizeInYCbCr | ImageCompression/ImageCompression/Effects.cs:75-83 | every colour goes forward, is quantized, and comes back through the wrapping inverse |
| Effects.QuantizeInYCbCrLumaOnly | ImageCompression/ImageCompression/Effects.cs:75-83 | keeping all of Y and none of Cb and Cr gives the good grayscale |
| Effects.CanApplyExactly | ImageCompression/ImageCompression/Effects.cs:142-161 | an effect applies exactly when it is implemented and the format is Bgr32; the two monochrome effects never apply |
| Transformation.VectorRGBToYCbCr | ImageCompression/ImageCompression/Algorithms/Transformation.cs:14-20 | each component is its forward formula clamped to [0, 255] |
| Transformation.VectorYCbCrToRGB | ImageCompression/ImageCompression/Algorithms/Transformation.cs:22-28 | each component is its inverse formula, with C#'s truncating division, clamped to [0, 255] |
| Transformation.ForwardWithinBytes | ImageCompression/ImageCompression/Algorithms/Transformation.cs:16-18 | for byte inputs every forward formula already lies in [0, 255] |
| Transformation.ForwardUnclamped | ImageCompression/ImageCompression/Algorithms/Transformation.cs:14-20 | so the forward transform equals the unclamped formulas |
| Transformation.GrayRoundTrip | ImageCompression/ImageCompression/Algorithms/Transformation.cs:14-28 | (v, v, v) maps to (v, 128, 128) and back to (v, v, v) |
| Transformation.RGBToYCbCr | ImageCompression/ImageCompression/Algorithms/Transformation.cs:9-12 | the forward transform of every colour, in order |
| Transformation.YCbCrToRGB | ImageCompression/ImageCompression/Algorithms/Transformation.cs:30-33 | the inverse transform of every colour, in order |
| Transformation.GrayImagesRoundTrip | ImageCompression/ImageCompression/Algorithms/Transformation.cs:9-33 | an all-gray image round-trips exactly |
| MainWindow.MiddleNeverWraps | ImageCompression/ImageCompression/MainWindow.xaml.cs:116-129 | neither byte cast wraps: the good middle is the luma, the bad middle the truncated average of the three bytes |
| MainWindow.MiddleOfGray | ImageCompression/ImageCompression/MainWindow.xaml.cs:116-128 | three equal bytes are their own middle under both effects |
| MainWindow.MiddleIsGoodGray | ImageCompression/ImageCompression/MainWindow.xaml.cs:116-117 | the good middle is the grey level of the good grayscale effect |
| MainWindow.Monochromed | ImageCompression/ImageCompression/MainWindow.xaml.cs:111-133 | the buffer after either loop keeps its length |
| MainWindow.MonochromedPixels | ImageCompression/ImageCompression/MainWindow.xaml.cs:114-130 | bytes i, i + 1, i + 2 of every complete pixel get the middle of the old three, and byte i + 3 keeps its value |
| MainWindow.MonochromedFixesGray | ImageCompression/ImageCompression/MainWindow.xaml.cs:114-130 | a buffer whose every pixel is gray is left as it is |
| MainWindow.MonochromedIdempotent | ImageCompression/ImageCompression/MainWindow.xaml.cs:111-133 | applying either effect twice is applying it once |
| MainWindow.Monochrome | ImageCompression/ImageCompression/MainWindow.xaml.cs:114-130 | the buffer becomes Monochromed of the old one; the loop throws IndexOutOfRange exactly when the length is 1 or 2 modulo 4 |
| MainWindow.ApplyEffect | ImageCompression/ImageCompression/MainWindow.xaml.cs:82-109 | an effect with no supported-formats entry throws KeyNotFound; a format other than Bgr32 gives false; otherwise the copied bytes become Monochromed, or the loop's throw propagates |
| BitmapExtensions.RunAt | ImageCompression/ImageCompression/BitmapExtensions.cs:51 | the piece `Split('.')` still has open at position n holds no dot |
| BitmapExtensions.SplitPrefixDot | ImageCompression/ImageCompression/BitmapExtensions.cs:51 | a dot closes the open piece and opens an empty one |
| BitmapExtensions.SplitPrefixChar | ImageCompression/ImageCompression/BitmapExtensions.cs:51 | any other character extends the open piece |
| BitmapExtensions.SplitJoinPrefix | ImageCompression/ImageCompression/BitmapExtensions.cs:51 | joining the pieces of the first n characters with dots gives them back |
| BitmapExtensions.SplitJoin | ImageCompression/ImageCompression/BitmapExtensions.cs:51 | splitting on dots loses nothing: the pieces joined with dots are the name |
| BitmapExtensions.SplitPiecesDotFree | ImageCompression/ImageCompression/BitmapExtensions.cs:51 | no piece holds a dot |
| BitmapExtensions.NonEmptyPieces | ImageCompression/ImageCompression/BitmapExtensions.cs:51 | removing empty entries leaves no empty piece and keeps every other one |
| BitmapExtensions.NonEmptySnoc | ImageCompression/ImageCompression/BitmapExtensions.cs:51 | removing empty entries works piece by piece, in order |
| BitmapExtensions.GetExtension | ImageCompression/ImageCompression/BitmapExtensions.cs:49-52 | `Last()` on no pieces throws InvalidOperation |
| BitmapExtensions.RunAtSlice | ImageCompression/ImageCompression/BitmapExtensions.cs:51 | the open piece is the slice ending at n, after a dot or the start of the name |
| BitmapExtensions.NonEmptyLastIsRun | ImageCompression/ImageCompression/BitmapExtensions.cs:51 | the last non-empty piece is the last run of non-dot characters before the trailing dots, and there is none when the name is only dots |
| BitmapExtensions.GetExtensionIsLastRun | ImageCompression/ImageCompression/BitmapExtensions.cs:49-52 | GetExtension fails exactly when the name is empty or only dots; otherwise it is the last run of non-dot characters, which holds no dot and is non-empty |
| BitmapExtensions.GetExtensionViaLastRun | ImageCompression/ImageCompression/BitmapExtensions.cs:49-52 | GetExtension in terms of the last run alone |
| BitmapExtensions.DotFreeIsOwnExtension | ImageCompression/ImageCompression/BitmapExtensions.cs:49-52 | a non-empty name without dots is its own extension |
| BitmapExtensions.ExtensionAfterLastDot | ImageCompression/ImageCompression/BitmapExtensions.cs:49-52 | the extension of p.e followed by any dots is e |
| BitmapExtensions.GetExtensionSkipsTrailingDot | ImageCompression/ImageCompression/BitmapExtensions.cs:49-52 | "a.png." has extension "png" |
| BitmapExtensions.GetExtensionOfDots | ImageCompression/ImageCompression/BitmapExtensions.cs:49-52 | an empty name or one made of dots has no extension |
| BitmapExtensions.ToLowerChar | ImageCompression/ImageCompression/BitmapExtensions.cs:32 | ASCII capitals become the matching small letters; every other character stays |
| BitmapExtensions.ToLower | ImageCompression/ImageCompression/BitmapExtensions.cs:32 | the name is lowered character by character |
| BitmapExtensions.ToLowerIdempotent | ImageCompression/ImageCompression/BitmapExtensions.cs:32 | lowering twice is lowering once |
| BitmapExtensions.EncoderFor | ImageCompression/ImageCompression/BitmapExtensions.cs:33-39 | PNG exactly for png and bmp, JPEG exactly for jpg and jpeg, otherwise the "Extension '…' is not supported" exception |
| BitmapExtensions.Save | ImageCompression/ImageCompression/BitmapExtensions.cs:14-46 | no image gives the "No picture to save" message; a cancelled dialog does nothing |
| BitmapExtensions.SaveDispatch | ImageCompression/ImageCompression/BitmapExtensions.cs:21-45 | a chosen name saves with PNG for png/bmp and JPEG for jpg/jpeg in any ASCII case, reports the caught message for any other extension, and lets InvalidOperation escape for a name of dots |
| BitmapSources.PixelBytes | ImageCompression/ImageCompression/Algorithms/DiscreteCosineTransform/DctAlgorithm.cs:289 | a colour occupies its three components, then alpha 255 |
| BitmapSources.OffsetInside | ImageCompression/ImageCompression/Algorithms/DiscreteCosineTransform/BitmapSourceExtensions.cs:22 | the window of pixel (i, j) lies inside the 4·h·w buffer |
| BitmapSources.OffsetOrder | ImageCompression/ImageCompression/Algorithms/DiscreteCosineTransform/BitmapSourceExtensions.cs:22 | earlier pixels lie wholly before later ones, so windows are disjoint |
| BitmapSources.Decompose | ImageCompression/ImageCompression/Algorithms/DiscreteCosineTransform/BitmapSourceExtensions.cs:22 | every byte of the buffer belongs to exactly one pixel window |
| BitmapSources.Packed | ImageCompression/ImageCompression/Algorithms/DiscreteCosineTransform/DctAlgorithm.cs:281-293 | the row-major four-bytes-per-pixel buffer has 4·h·w bytes |
| BitmapSources.PackedWindow | ImageCompression/ImageCompression/Algorithms/DiscreteCosineTransform/DctAlgorithm.cs:284-291 | pixel (i, j) occupies its window: its three components, then 255 |
| BitmapSources.PackedUnique | ImageCompression/ImageCompression/Algorithms/DiscreteCosineTransform/DctAlgorithm.cs:281-293 | a buffer is determined by its pixel windows |
| BitmapSources.Unpacked | ImageCompression/ImageCompression/Algorithms/DiscreteCosineTransform/BitmapSourceExtensions.cs:17-25 | cell (i, j) is the first three bytes of pixel (i, j)'s window |
| BitmapSources.UnpackPacked | ImageCompression/ImageCompression/Algorithms/DiscreteCosineTransform/BitmapSourceExtensions.cs:10-27 | unpacking a packed grid gives the grid back |
| BitmapSources.UnpackIgnoresAlpha | ImageCompression/ImageCompression/Algorithms/DiscreteCosineTransform/BitmapSourceExtensions.cs:22-23 | the alpha byte is never read: buffers with the same colour bytes unpack alike |
| BitmapSources.GetMap | ImageCompression/ImageCompression/Algorithms/DiscreteCosineTransform/BitmapSourceExtensions.cs:10-27 | any format but Bgr32 throws NotSupported; otherwise a fresh height×width grid equal to Unpacked of the pixel bytes |
| DctBlocks.Channel | ImageCompression/ImageCompression/Algorithms/DiscreteCosineTransform/DctAlgorithm.cs:225-230 | cell (x, y) of channel k is component k of pixel (i + x, j + y), as a double |
| DctBlocks.BlockAt | ImageCompression/ImageCompression/Algorithms/DiscreteCosineTransform/DctAlgorithm.cs:224-231 | the three channel matrices of the 8×8 window at (i, j) |
| DctBlocks.Blocks | ImageCompression/ImageCompression/Algorithms/DiscreteCosineTransform/DctAlgorithm.cs:217-235 | an (h/8)×(w/8) grid whose block (a, b) is the window at (8a, 8b) |
| DctBlocks.Rounded | ImageCompression/ImageCompression/Algorithms/DiscreteCosineTransform/DctAlgorithm.cs:87 | each component of a cell, rounded half to even as Convert.ToInt32 does |
| DctBlocks.Flattened | ImageCompression/ImageCompression/Algorithms/DiscreteCosineTransform/DctAlgorithm.cs:58-67 | pixel (p, q) of the (8n)×(8m) grid holds the rounded coefficients at (p mod 8, q mod 8) of block (p/8, q/8) |
| DctBlocks.ConvertToByte | ImageCompression/ImageCompression/Algorithms/DiscreteCosineTransform/DctAlgorithm.cs:102-106 | rounding half to even, then an overflow outside the int range, then a clamp to [0, 255]; a value already in [0, 255] just rounds |
| DctBlocks.RoundedByte | ImageCompression/ImageCompression/Algorithms/DiscreteCosineTransform/DctAlgorithm.cs:98 | each component of a cell through ConvertToByte |
| DctBlocks.FlattenedBytes | ImageCompression/ImageCompression/Algorithms/DiscreteCosineTransform/DctAlgorithm.cs:69-78 | the (8n)×(8m) byte grid of the blocks' converted cells |
| DctBlocks.BlocksCell | ImageCompression/ImageCompression/Algorithms/DiscreteCosineTransform/DctAlgorithm.cs:217-235 | pixel (p, q) lands in cell (p mod 8, q mod 8) of block (p/8, q/8) |
| DctBlocks.FlattenSplit | ImageCompression/ImageCompression/Algorithms/DiscreteCosineTransform/DctAlgorithm.cs:58-67 | flattening the split of an integer grid gives the grid back |
| DctBlocks.SplitFits | ImageCompression/ImageCompression/Algorithms/DiscreteCosineTransform/DctAlgorithm.cs:237-255 | every block split from an int grid converts back without overflow |
| DctBlocks.FlattenBytesSplit | ImageCompression/ImageCompression/Algorithms/DiscreteCosineTransform/DctAlgorithm.cs:69-78 | flattening the split of a colour grid to bytes gives the grid back |
| DctBlocks.FlattenBytesCell | ImageCompression/ImageCompression/Algorithms/DiscreteCosineTransform/DctAlgorithm.cs:69-78 | one pixel of that round trip |
| DctBlocks.Project | ImageCompression/ImageCompression/Algorithms/DiscreteCosineTransform/DctAlgorithm.cs:257-266 | component index of every cell into a fresh n×m array; because both loops run to m, a window with fewer rows than columns throws |
| DctBlocks.ProjectAll | ImageCompression/ImageCompression/Algorithms/DiscreteCosineTransform/DctAlgorithm.cs:228-231 | on an 8×8 window the three projections are the block's channels |
| DctBlocks.ToReals | ImageCompression/ImageCompression/Algorithms/DiscreteCosineTransform/DctAlgorithm.cs:227 | Convert.ToDouble of every component |
| DctBlocks.ReadWindow | ImageCompression/ImageCompression/Algorithms/DiscreteCosineTransform/DctAlgorithm.cs:224-227 | a fresh 8×8 window of the grid's pixels at (i, j), as doubles |
| DctBlocks.ReadWindowInt | ImageCompression/ImageCompression/Algorithms/DiscreteCosineTransform/DctAlgorithm.cs:244-247 | the same over an int grid |
| DctBlocks.WindowBlock | ImageCompression/ImageCompression/Algorithms/DiscreteCosineTransform/DctAlgorithm.cs:228-231 | projecting the window gives BlockAt |
| DctBlocks.ReadBlock | ImageCompression/ImageCompression/Algorithms/DiscreteCosineTransform/DctAlgorithm.cs:224-231 | one block of SplitToBlocks is BlockAt |
| DctBlocks.ReadBlockInt | ImageCompression/ImageCompression/Algorithms/DiscreteCosineTransform/DctAlgorithm.cs:244-251 | one block of SplitToBlocksInt is BlockAt |
| DctBlocks.ReadBlockRow | ImageCompression/ImageCompression/Algorithms/DiscreteCosineTransform/DctAlgorithm.cs:222-232 | the row of blocks at height i is filled, and the row fails exactly when a window reaches past the grid |
| DctBlocks.ReadBlockRowInt | ImageCompression/ImageCompression/Algorithms/DiscreteCosineTransform/DctAlgorithm.cs:242-252 | the same for SplitToBlocksInt |
| DctBlocks.SplitToBlocks | ImageCompression/ImageCompression/Algorithms/DiscreteCosineTransform/DctAlgorithm.cs:217-235 | throws IndexOutOfRange exactly when a dimension is not a multiple of 8 and the loop reaches it; otherwise a fresh grid equal to Blocks |
| DctBlocks.SplitToBlocksInt | ImageCompression/ImageCompression/Algorithms/DiscreteCosineTransform/DctAlgorithm.cs:237-255 | the same for an int grid |
| DctBlocks.ToInt32Cell | ImageCompression/ImageCompression/Algorithms/DiscreteCosineTransform/DctAlgorithm.cs:87 | the cell's conversion throws Overflow exactly when a coefficient is outside the int range, otherwise gives Rounded |
| DctBlocks.ToByteCell | ImageCompression/ImageCompression/Algorithms/DiscreteCosineTransform/DctAlgorithm.cs:98 | the same with ConvertToByte, giving RoundedByte |
| DctBlocks.PlaceCell | ImageCompression/ImageCompression/Algorithms/DiscreteCosineTransform/DctAlgorithm.cs:87 | one cell is written with Rounded, or an overflow leaves the array unchanged; no other cell changes |
| DctBlocks.PlaceMatrixRow | ImageCompression/ImageCompression/Algorithms/DiscreteCosineTransform/DctAlgorithm.cs:83-88 | row i of the window gets its rounded cells; an overflow throws; nothing outside the row changes |
| DctBlocks.PlaceMatrix | ImageCompression/ImageCompression/Algorithms/DiscreteCosineTransform/DctAlgorithm.cs:80-89 | the 8×8 window at (x, y) gets the block's rounded cells; an overflow throws; nothing outside the window changes |
| DctBlocks.PlaceByteCell | ImageCompression/ImageCompression/Algorithms/DiscreteCosineTransform/DctAlgorithm.cs:98 | one cell is written with RoundedByte, or an overflow leaves the array unchanged |
| DctBlocks.PlaceMatrixByteRow | ImageCompression/ImageCompression/Algorithms/DiscreteCosineTransform/DctAlgorithm.cs:94-99 | row i of the window gets its byte cells; nothing outside the row changes |
| DctBlocks.PlaceMatrixByte | ImageCompression/ImageCompression/Algorithms/DiscreteCosineTransform/DctAlgorithm.cs:91-100 | the window at (x, y) gets the block's byte cells; nothing outside it changes |
| DctBlocks.Flatten | ImageCompression/ImageCompression/Algorithms/DiscreteCosineTransform/DctAlgorithm.cs:58-67 | throws Overflow exactly when some coefficient does not fit an int; otherwise a fresh grid equal to Flattened |
| DctBlocks.FlattenBand | ImageCompression/ImageCompression/Algorithms/DiscreteCosineTransform/DctAlgorithm.cs:64-65 | band i of 8 pixel rows gets its blocks; rows outside the band are unchanged |
| DctBlocks.FlattenByte | ImageCompression/ImageCompression/Algorithms/DiscreteCosineTransform/DctAlgorithm.cs:69-78 | throws Overflow exactly when some coefficient does not fit an int; otherwise a fresh grid equal to FlattenedBytes |
| DctBlocks.FlattenByteBand | ImageCompression/ImageCompression/Algorithms/DiscreteCosineTransform/DctAlgorithm.cs:75-76 | band i of 8 pixel rows gets its byte blocks; rows outside the band are unchanged |
| DctDecimation.Decimated | ImageCompression/ImageCompression/Algorithms/DiscreteCosineTransform/DctAlgorithm.cs:295-335 | cell (i, j) is the sample (RowStep·i, ColumnStep·j), on an (h/RowStep)×(w/ColumnStep) grid |
| DctDecimation.Undecimated | ImageCompression/ImageCompression/Algorithms/DiscreteCosineTransform/DctAlgorithm.cs:337-377 | every sample is copied into a RowStep×ColumnStep cell |
| DctDecimation.DecimateUndecimate | ImageCompression/ImageCompression/Algorithms/DiscreteCosineTransform/DctAlgorithm.cs:295-377 | undecimating then decimating with the same tag never throws and gives the grid back |
| DctDecimation.UndecimateDecimate | ImageCompression/ImageCompression/Algorithms/DiscreteCosineTransform/DctAlgorithm.cs:295-377 | decimating then undecimating makes every cell a copy of its top-left sample: the chroma loss the codec accepts |
| DctDecimation.StepFloor | ImageCompression/ImageCompression/Algorithms/DiscreteCosineTransform/DctAlgorithm.cs:304-328 | a position below the last whole step falls in a sampled cell whose first position is the sample |
| DctDecimation.DecimateRow | ImageCompression/ImageCompression/Algorithms/DiscreteCosineTransform/DctAlgorithm.cs:302-331 | one source row writes its samples into result row i/RowStep, and fails exactly when a write falls outside the result |
| DctDecimation.DecimateColumns | ImageCompression/ImageCompression/Algorithms/DiscreteCosineTransform/DctAlgorithm.cs:299-310 | Horizontal: throws exactly for an odd width of a non-empty grid; otherwise a fresh Decimated grid |
| DctDecimation.DecimateRows | ImageCompression/ImageCompression/Algorithms/DiscreteCosineTransform/DctAlgorithm.cs:311-322 | Vertical: throws exactly for an odd height of a non-empty grid; otherwise a fresh Decimated grid |
| DctDecimation.DecimateBoth | ImageCompression/ImageCompression/Algorithms/DiscreteCosineTransform/DctAlgorithm.cs:323-334 | any other tag: throws exactly for an odd dimension of a non-empty grid; otherwise a fresh Decimated grid |
| DctDecimation.Decimate | ImageCompression/ImageCompression/Algorithms/DiscreteCosineTransform/DctAlgorithm.cs:295-335 | NoDecimation returns the same array; the other tags return a fresh Decimated grid or throw as above |
| DctDecimation.UndecimateColumns | ImageCompression/ImageCompression/Algorithms/DiscreteCosineTransform/DctAlgorithm.cs:341-352 | a fresh grid with each sample in two neighbouring columns |
| DctDecimation.UndecimateRows | ImageCompression/ImageCompression/Algorithms/DiscreteCosineTransform/DctAlgorithm.cs:353-364 | a fresh grid with each sample in two neighbouring rows |
| DctDecimation.UndecimateBothRow | ImageCompression/ImageCompression/Algorithms/DiscreteCosineTransform/DctAlgorithm.cs:368-374 | source row i fills result rows 2i and 2i + 1 |
| DctDecimation.UndecimateBoth | ImageCompression/ImageCompression/Algorithms/DiscreteCosineTransform/DctAlgorithm.cs:365-376 | a fresh grid with each sample in a 2×2 cell |
| DctDecimation.Undecimate | ImageCompression/ImageCompression/Algorithms/DiscreteCosineTransform/DctAlgorithm.cs:337-377 | NoDecimation returns the same array; the other tags a fresh Undecimated grid |
| DctQuantization.QuantizationTable | ImageCompression/ImageCompression/Algorithms/DiscreteCosineTransform/DctAlgorithm.cs:151-158 | entry (i, j) is α·(1 + γ·(i + j + 2)), so it depends only on i + j and the table is symmetric |
| DctQuantization.GeneratedGrowth | ImageCompression/ImageCompression/Algorithms/DiscreteCosineTransform/DctAlgorithm.cs:156 | for α > 0 and γ ≥ 0 the generated divisor grows with i + j and is at least α |
| DctQuantization.QuantizationTableGrows | ImageCompression/ImageCompression/Algorithms/DiscreteCosineTransform/DctAlgorithm.cs:151-158 | with α > 0, γ ≥ 0 and no overflow, every divisor is at least α and they grow towards the high frequencies |
| DctQuantization.GetQuantizationMatrix | ImageCompression/ImageCompression/Algorithms/DiscreteCosineTransform/DctAlgorithm.cs:151-158 | a fresh 8×8 matrix holding QuantizationTable |
| DctQuantization.DefaultTablesPositive | ImageCompression/ImageCompression/Algorithms/DiscreteCosineTransform/DctAlgorithm.cs:379-401 | both default tables are 8×8 with divisors of at least 10 (luma) and 17 (chroma) |
| DctQuantization.QuantizedBlock | ImageCompression/ImageCompression/Algorithms/DiscreteCosineTransform/DctAlgorithm.cs:132-134 | channel 0 is divided entrywise by the luma table, channels 1 and 2 by the chroma table |
| DctQuantization.DequantizedBlock | ImageCompression/ImageCompression/Algorithms/DiscreteCosineTransform/DctAlgorithm.cs:144-146 | channel 0 is multiplied entrywise by the luma table and rounded, channels 1 and 2 by the chroma table |
| DctQuantization.QuantizeDequantizeBlock | ImageCompression/ImageCompression/Algorithms/DiscreteCosineTransform/DctAlgorithm.cs:127-149 | quantizing then dequantizing with positive tables moves each coefficient by at most half its divisor plus one half |
| DctQuantization.QuantizeByMatrices | ImageCompression/ImageCompression/Algorithms/DiscreteCosineTransform/DctAlgorithm.cs:127-137 | every block of the grid is replaced in place by QuantizedBlock of its old value |
| DctQuantization.DequantizeByMatrices | ImageCompression/ImageCompression/Algorithms/DiscreteCosineTransform/DctAlgorithm.cs:139-149 | every block of the grid is replaced in place by DequantizedBlock of its old value |
| DctQuantization.RoundedMat | ImageCompression/ImageCompression/Algorithms/DiscreteCosineTransform/DctAlgorithm.cs:171 | every entry rounded half to even |
| DctQuantization.ZeroCountCases | ImageCompression/ImageCompression/Algorithms/DiscreteCosineTransform/DctAlgorithm.cs:181 | 0 ≤ n ≤ 64 zeroes 64 − n entries; n > 64 zeroes none; a negative n asks for more than 64, except that below 64 − int.MaxValue the subtraction wraps to a negative count |
| DctQuantization.AtMostKeptNonzero | ImageCompression/ImageCompression/Algorithms/DiscreteCosineTransform/DctAlgorithm.cs:181-184 | after zeroing a set of positions at most 64 minus its size entries are nonzero |
| DctQuantization.SmallestRemaining | ImageCompression/ImageCompression/Algorithms/DiscreteCosineTransform/DctAlgorithm.cs:179-183 | the next position the ascending sort puts first among those not yet zeroed holds a smallest remaining value |
| DctQuantization.ZeroOneMore | ImageCompression/ImageCompression/Algorithms/DiscreteCosineTransform/DctAlgorithm.cs:181-184 | zeroing one more smallest remaining position keeps the zeroed values no larger than the kept ones |
| DctQuantization.ZeroSmallest | ImageCompression/ImageCompression/Algorithms/DiscreteCosineTransform/DctAlgorithm.cs:179-184 | exactly count positions are zeroed, each no larger than any kept value |
| DctQuantization.RoundEntries | ImageCompression/ImageCompression/Algorithms/DiscreteCosineTransform/DctAlgorithm.cs:168-178 | the rounding loop leaves RoundedMat of the channel |
| DctQuantization.KeepLargest | ImageCompression/ImageCompression/Algorithms/DiscreteCosineTransform/DctAlgorithm.cs:167-184 | one channel: throws ArgumentOutOfRange (the `List` indexer at z = 64) exactly when more than 64 entries are to be zeroed; otherwise the rounded channel with max(0, 64 − n) smallest values zeroed |
| DctQuantization.KeepsAtMostN | ImageCompression/ImageCompression/Algorithms/DiscreteCosineTransform/DctAlgorithm.cs:160-187 | for 0 ≤ n ≤ 64 at most n coefficients of the channel stay nonzero |
| DctQuantization.KeepsAllWhenLarge | ImageCompression/ImageCompression/Algorithms/DiscreteCosineTransform/DctAlgorithm.cs:160-187 | for n ≥ 64 nothing is zeroed: the channel is only rounded |
| DctQuantization.KeepLargestInBlock | ImageCompression/ImageCompression/Algorithms/DiscreteCosineTransform/DctAlgorithm.cs:165-185 | the three channels of one block, Ny for luma and Nc for chroma; throws ArgumentOutOfRange exactly when either count asks for more than 64 zeros |
| DctQuantization.QuantizeLargest | ImageCompression/ImageCompression/Algorithms/DiscreteCosineTransform/DctAlgorithm.cs:160-187 | every block keeps its largest Ny luma and Nc chroma coefficients, rounded; a bad count throws ArgumentOutOfRange at the first block, so only a non-empty grid fails |
| DctQuantization.QuantizeMatrices | ImageCompression/ImageCompression/Algorithms/DiscreteCosineTransform/DctAlgorithm.cs:108-125 | LargestN without both counts throws "Invalid program state"; each policy quantizes the grid in place as above, LargestN's bad count throwing ArgumentOutOfRange; an unknown policy byte throws ArgumentOutOfRange and changes nothing |
| DctQuantization.DequantizeMatrices | ImageCompression/ImageCompression/Algorithms/DiscreteCosineTransform/DctAlgorithm.cs:41-56 | LargestN returns the grid unchanged; the two matrix policies dequantize in place; an unknown policy byte throws ArgumentOutOfRange and changes nothing |
| DctColors.YCbCrGrid | ImageCompression/ImageCompression/Algorithms/DiscreteCosineTransform/DctAlgorithm.cs:268-279 | every pixel through the forward colour transform |
| DctColors.RgbGrid | ImageCompression/ImageCompression/Algorithms/DiscreteCosineTransform/DctAlgorithm.cs:288 | every pixel through the inverse colour transform |
| DctColors.GrayGridRoundTrip | ImageCompression/ImageCompression/Algorithms/DiscreteCosineTransform/DctAlgorithm.cs:268-293 | a gray image survives the two colour stages unchanged |
| DctColors.ToYCbCr | ImageCompression/ImageCompression/Algorithms/DiscreteCosineTransform/DctAlgorithm.cs:268-279 | a fresh grid of the same size equal to YCbCrGrid |
| DctColors.AppendPixel | ImageCompression/ImageCompression/Algorithms/DiscreteCosineTransform/DctAlgorithm.cs:289 | appending pixel (i, j)'s four bytes extends the filled prefix by exactly that pixel |
| DctColors.ToRgbBytes | ImageCompression/ImageCompression/Algorithms/DiscreteCosineTransform/DctAlgorithm.cs:281-293 | 4·h·w bytes: the inverse transform of every pixel packed row by row as Bgr32 with alpha 255 |
| DctParams.DctParameters.constructor | ImageCompression/ImageCompression/Algorithms/DiscreteCosineTransform/DctParameters.cs:3-14 | the parameters hold the given policies, counts and generators |
| BinaryStreams.LittleEndianRoundTrip | ImageCompression/ImageCompression/Algorithms/JPG/Jpeg.cs:88 | a number below 256^k survives writing its k bytes least significant first and reading them back |
| BinaryStreams.Int32Bytes | ImageCompression/ImageCompression/Algorithms/JPG/Jpeg.cs:38 | `writer.Write(int)` emits four bytes |
| BinaryStreams.Int32RoundTrip | ImageCompression/ImageCompression/Algorithms/JPG/Jpeg.cs:88 | reading back the four bytes of an int gives the int, negative ones included |
| BinaryStreams.ReadByte | ImageCompression/ImageCompression/Algorithms/JPG/Jpeg.cs:59 | the next byte, or EndOfStream on an empty stream |
| BinaryStreams.ReadInt32 | ImageCompression/ImageCompression/Algorithms/JPG/Jpeg.cs:88 | the next four bytes as a little-endian two's-complement int, or EndOfStream when fewer remain |
| BinaryStreams.ReadDouble | ImageCompression/ImageCompression/Algorithms/Wavelets/Wavelet.cs:43 | the next eight bytes, or EndOfStream when fewer remain |
| BinaryStreams.ReadWrittenInt32 | ImageCompression/ImageCompression/Algorithms/JPG/Jpeg.cs:88 | an int written in front of any bytes reads back as itself, leaving those bytes |
| Jpeg.VariantBytes | ImageCompression/ImageCompression/Algorithms/JPG/Jpeg.cs:19-35 | the switch writes 8 bytes for LargestN, 16 for QuantizationMatrix, none for DefaultJpegMatrix |
| Jpeg.VariantOf | ImageCompression/ImageCompression/Algorithms/JPG/Jpeg.cs:19-35 | LargestN without both counts throws InvalidOperation at `.Value`; an unknown tag throws ArgumentOutOfRange; otherwise the variant matches the tag |
| Jpeg.ParseVariant | ImageCompression/ImageCompression/Algorithms/JPG/Jpeg.cs:61-87 | an unknown tag throws before reading; a known one fails only when its fields run past the end |
| Jpeg.ParseWrittenVariant | ImageCompression/ImageCompression/Algorithms/JPG/Jpeg.cs:61-87 | variant fields written in front of any bytes read back as the same variant |
| Jpeg.ParseHeader | ImageCompression/ImageCompression/Algorithms/JPG/Jpeg.cs:59-87 | fewer than two bytes throws EndOfStream; an unknown quantization tag throws ArgumentOutOfRange; the tags read are the first two bytes |
| Jpeg.HeaderBytes | ImageCompression/ImageCompression/Algorithms/JPG/Jpeg.cs:17-35 | the header is both tags, then the variant fields |
| Jpeg.ParseWrittenHeader | ImageCompression/ImageCompression/Algorithms/JPG/Jpeg.cs:59-87 | a written header reads back as itself, whatever follows |
| Jpeg.CellBytes | ImageCompression/ImageCompression/Algorithms/JPG/Jpeg.cs:44-47 | a triple takes twelve bytes |
| Jpeg.ReadCell | ImageCompression/ImageCompression/Algorithms/JPG/Jpeg.cs:96-99 | three ints read in a row, or EndOfStream when fewer than twelve bytes remain |
| Jpeg.ReadWrittenCell | ImageCompression/ImageCompression/Algorithms/JPG/Jpeg.cs:96-99 | a written triple reads back as itself |
| Jpeg.CellsBytesAt | ImageCompression/ImageCompression/Algorithms/JPG/Jpeg.cs:42-48 | triple k of a written run sits at byte 12k |
| Jpeg.ParseCells | ImageCompression/ImageCompression/Algorithms/JPG/Jpeg.cs:94-100 | count triples need 12·count bytes; triple k is made of the twelve bytes at 12k |
| Jpeg.ParseWrittenCells | ImageCompression/ImageCompression/Algorithms/JPG/Jpeg.cs:94-100 | written triples read back as the same triples |
| Jpeg.GridBytes | ImageCompression/ImageCompression/Algorithms/JPG/Jpeg.cs:40-49 | the rows written one after another take 12·m bytes each |
| Jpeg.ParseRows | ImageCompression/ImageCompression/Algorithms/JPG/Jpeg.cs:92-101 | n rows of m triples need 12·m·n bytes; the result is an n×m grid and the rest of the stream |
| Jpeg.ParseWrittenRows | ImageCompression/ImageCompression/Algorithms/JPG/Jpeg.cs:92-101 | written rows read back as the same rows |
| Jpeg.Encoded | ImageCompression/ImageCompression/Algorithms/JPG/Jpeg.cs:11-51 | Save's bytes: both tags, the variant fields, the two sizes and 12·n·m bytes of triples |
| Jpeg.Parse | ImageCompression/ImageCompression/Algorithms/JPG/Jpeg.cs:53-104 | Load's reads: the header errors as above, then the size and the grid; the result is an n×m grid and the tags read |
| Jpeg.LoadOfSave | ImageCompression/ImageCompression/Algorithms/JPG/Jpeg.cs:11-104 | Load of what Save wrote gives back the grid, both tags and the active variant's fields, whatever follows |
| Jpeg.WriteCell | ImageCompression/ImageCompression/Algorithms/JPG/Jpeg.cs:44-47 | the three ints of one triple are appended |
| Jpeg.WriteRow | ImageCompression/ImageCompression/Algorithms/JPG/Jpeg.cs:42-48 | the triples of row i are appended in order |
| Jpeg.WriteGrid | ImageCompression/ImageCompression/Algorithms/JPG/Jpeg.cs:40-49 | every row is appended in order |
| Jpeg.WriteCounts | ImageCompression/ImageCompression/Algorithms/JPG/Jpeg.cs:21-24 | writes Ny then Nc; an absent count throws InvalidOperation after Ny, if present, was written |
| Jpeg.WriteVariant | ImageCompression/ImageCompression/Algorithms/JPG/Jpeg.cs:19-35 | writes the active variant's fields, or throws as VariantOf says |
| Jpeg.Save | ImageCompression/ImageCompression/Algorithms/JPG/Jpeg.cs:11-51 | a known policy writes exactly Encoded; a throwing switch leaves the tags and whatever it wrote before throwing |
| Jpeg.ReadHeader | ImageCompression/ImageCompression/Algorithms/JPG/Jpeg.cs:59-87 | the tags and the active variant's fields are assigned to the parameters as they are read; the other fields keep their values |
| Jpeg.ReadRow | ImageCompression/ImageCompression/Algorithms/JPG/Jpeg.cs:94-100 | row i of the grid gets the next m triples; the other rows are unchanged; too few bytes throw |
| Jpeg.ReadRows | ImageCompression/ImageCompression/Algorithms/JPG/Jpeg.cs:92-101 | the grid gets ParseRows of the bytes |
| Jpeg.ReadGrid | ImageCompression/ImageCompression/Algorithms/JPG/Jpeg.cs:91-102 | a fresh n×m array holding the rows read |
| Jpeg.Load | ImageCompression/ImageCompression/Algorithms/JPG/Jpeg.cs:53-104 | succeeds exactly when Parse does, with a fresh grid equal to Parse's and the parameters updated in place; the tags are assigned even when a later read fails |
| Matrices.Product | ImageCompression/ImageCompression/Structures/Matrix.cs:35-53 | entry (i, j) of the n×m product is the dot product of row i of a and column j of b over l terms |
| Matrices.Quotient | ImageCompression/ImageCompression/Structures/Matrix.cs:55-65 | every entry is the element-wise quotient rounded half to even |
| Matrices.RoundProduct | ImageCompression/ImageCompression/Structures/Matrix.cs:67-77 | every entry is the element-wise product rounded half to even |
| Matrices.Transposed | ImageCompression/ImageCompression/Structures/Matrix.cs:79-86 | entry (i, j) of the m×n transpose is entry (j, i) |
| Matrices.TransposeInvolution | ImageCompression/ImageCompression/Structures/Matrix.cs:79-86 | transposing twice gives the matrix back |
| Matrices.QuantizeDequantizeError | ImageCompression/ImageCompression/Structures/Matrix.cs:63-75 | for a positive divisor q, rounding v/q and multiplying back by q stays within q/2 + 1/2 of v |
| Matrices.Matrix.Zero | ImageCompression/ImageCompression/Structures/Matrix.cs:9-12 | `new Matrix(n, m)`: a fresh n×m array of zeros |
| Matrices.Matrix.Wrap | ImageCompression/ImageCompression/Structures/Matrix.cs:14-17 | `new Matrix(array)` shares the given array, without a copy |
| Matrices.Matrix.Get | ImageCompression/ImageCompression/Structures/Matrix.cs:29-31 | the indexer reads one cell; out-of-range indices throw IndexOutOfRange |
| Matrices.Matrix.Set | ImageCompression/ImageCompression/Structures/Matrix.cs:29-33 | the indexer writes exactly one cell of the shared array; out-of-range indices throw and change nothing |
| Matrices.Matrix.Multiply | ImageCompression/ImageCompression/Structures/Matrix.cs:35-53 | throws "Can't multiply matrices" exactly when a.M ≠ b.N; otherwise a fresh matrix equal to Product |
| Matrices.Matrix.Accumulate | ImageCompression/ImageCompression/Structures/Matrix.cs:47-49 | after the k loop, cell (i, j) holds the full dot product and no other cell changed |
| Matrices.Matrix.AddTerm | ImageCompression/ImageCompression/Structures/Matrix.cs:49 | one more term of the dot product, no other cell changed |
| Matrices.Matrix.Divide | ImageCompression/ImageCompression/Structures/Matrix.cs:55-65 | throws "Matrices sizes don't match" exactly on a shape mismatch; otherwise a fresh matrix equal to Quotient |
| Matrices.Matrix.RoundMultiply | ImageCompression/ImageCompression/Structures/Matrix.cs:67-77 | throws "Matrices sizes don't match" exactly on a shape mismatch; otherwise a fresh matrix equal to RoundProduct |
| Matrices.Matrix.Transpose | ImageCompression/ImageCompression/Structures/Matrix.cs:79-86 | a fresh M×N matrix equal to Transposed |
| PersistentStacks.PersistentStack.constructor | ImageCompression/ImageCompression/Structures/PersistentStack.cs:8-12 | an empty history with the cursor at 0 |
| PersistentStacks.PersistentStack.Add | ImageCompression/ImageCompression/Structures/PersistentStack.cs:14-20 | the entries from the cursor on are dropped, the item appended and the cursor advanced: the item is current and nothing is left to redo |
| PersistentStacks.PersistentStack.Current | ImageCompression/ImageCompression/Structures/PersistentStack.cs:22-27 | the entry just before the cursor; an empty history throws "Current on empty stack" |
| PersistentStacks.PersistentStack.Pop | ImageCompression/ImageCompression/Structures/PersistentStack.cs:29-34 | the cursor steps back, keeping the list; at 0 it throws "Pop from empty stack" |
| PersistentStacks.PersistentStack.Unpop | ImageCompression/ImageCompression/Structures/PersistentStack.cs:36-41 | the cursor steps forward, keeping the list; at the head it throws "Unpop from stack head" |
| PersistentStacks.PersistentStack.Clear | ImageCompression/ImageCompression/Structures/PersistentStack.cs:53-57 | an empty list with the cursor at 0 |
| PersistentStacks.PersistentStack.Count | ImageCompression/ImageCompression/Structures/PersistentStack.cs:59 | the count is the cursor: 0 exactly when empty, the list length exactly at the head |
| Common.RoundHalfEven | ImageCompression/ImageCompression/Algorithms/DiscreteCosineTransform/DctAlgorithm.cs:104 | `Math.Round`: the nearest integer, ties to the even one |
| Common.ToInt32 | ImageCompression/ImageCompression/Algorithms/DiscreteCosineTransform/DctAlgorithm.cs:87 | `Convert.ToInt32(double)`: rounds half to even and throws Overflow outside the int range |
| Common.Clamp | ImageCompression/ImageCompression/Algorithms/DiscreteCosineTransform/DctAlgorithm.cs:105 | `Math.Max(lo, Math.Min(hi, v))` lies in [lo, hi] and is v when v already does |
| Wavelet.CoefsByWaveletType | ImageCompression/ImageCompression/Algorithms/Wavelets/Wavelet.cs:262-299 | the four wavelet types (ImageCompression/ImageCompression/Algorithms/Wavelets/WaveletType.cs:5-18) and only they have a filter, of 2, 2, 4 and 6 coefficients; any other byte throws ArgumentOutOfRange |
| Wavelet.FiltersOrthonormal | ImageCompression/ImageCompression/Algorithms/Wavelets/Wavelet.cs:266-285 | with exact square roots the Haar 1/√2 and Daubechies 4 filters have unit norm, Haar 0.5 has norm 1/2, and Daubechies 4 is orthogonal to its shift by two |
| Wavelet.GetHighPassFilter | ImageCompression/ImageCompression/Algorithms/Wavelets/Wavelet.cs:320-330 | the array filled with the alternating-sign factor is the quadrature mirror HighPass of the low-pass filter |
| Wavelet.HighPassTwice | ImageCompression/ImageCompression/Algorithms/Wavelets/Wavelet.cs:320-330 | mirroring twice gives the filter back, negated when its length is even |
| Wavelet.MirrorOrthogonal | ImageCompression/ImageCompression/Algorithms/Wavelets/Wavelet.cs:320-330 | an even-length filter is orthogonal to its mirror |
| Wavelet.InverseCoefs | ImageCompression/ImageCompression/Algorithms/Wavelets/Wavelet.cs:354-368 | the inverse filters exist exactly when both filters have the same even length; different lengths throw "Invalid program state", an odd length throws IndexOutOfRange |
| Wavelet.InverseAtPair | ImageCompression/ImageCompression/Algorithms/Wavelets/Wavelet.cs:361-367 | coefficients i and i + 1 of an inverse filter are the forward pair at (i - back + n) mod n |
| Wavelet.InversePair | ImageCompression/ImageCompression/Algorithms/Wavelets/Wavelet.cs:363-366 | one round writes the four coefficients of pair i and leaves the others unchanged |
| Wavelet.GetInverseCoefs | ImageCompression/ImageCompression/Algorithms/Wavelets/Wavelet.cs:354-368 | the loop's result, or its throw, is InverseCoefs of the inputs |
| Wavelet.InverseCoefsPlacement | ImageCompression/ImageCompression/Algorithms/Wavelets/Wavelet.cs:354-368 | every forward pair (lower[k], higher[k]) sits at (k + 2) mod n of the inverse low-pass filter for even k and at (k + 1) mod n of the inverse high-pass filter for odd k |
| Wavelet.PairPlacedAt | ImageCompression/ImageCompression/Algorithms/Wavelets/Wavelet.cs:361-367 | the pair read back with shift back sits at (k + back) mod n |
| Wavelet.Tap | ImageCompression/ImageCompression/Algorithms/Wavelets/Wavelet.cs:345-346 | the index read has C#'s truncating remainder: inside (-m, m), the Euclidean remainder when the dividend is non-negative and non-positive otherwise |
| Wavelet.TruncRemRange | ImageCompression/ImageCompression/Algorithms/Wavelets/Wavelet.cs:345-346 | C#'s remainder by a positive m lies strictly between -m and m and takes the sign of the dividend |
| Wavelet.PairConvolved | ImageCompression/ImageCompression/Algorithms/Wavelets/Wavelet.cs:332-352 | the result exists exactly when the filters have equal lengths, the line has even length and every tap is inside the data; unequal filters throw "Invalid program state", the other failures IndexOutOfRange |
| Wavelet.PairSums | ImageCompression/ImageCompression/Algorithms/Wavelets/Wavelet.cs:341-347 | the inner loop's two sums are the window sums of both filters at i, or None when a read falls before the start |
| Wavelet.ConvolvedByEntries | ImageCompression/ImageCompression/Algorithms/Wavelets/Wavelet.cs:339-350 | a line agreeing with the convolution on every entry is the convolved line |
| Wavelet.WritePair | ImageCompression/ImageCompression/Algorithms/Wavelets/Wavelet.cs:348-349 | writing a pair changes exactly entries i and i + 1 and extends the filled prefix by two |
| Wavelet.PairConvolution | ImageCompression/ImageCompression/Algorithms/Wavelets/Wavelet.cs:332-352 | the method's result, or its throw, is PairConvolved of the inputs |
| Wavelet.PairConvolutionDefined | ImageCompression/ImageCompression/Algorithms/Wavelets/Wavelet.cs:332-352 | with equal filter lengths, an even-length line and a shift no larger than the line, the convolution succeeds |
| Wavelet.PairConvolutionShortLineFails | ImageCompression/ImageCompression/Algorithms/Wavelets/Wavelet.cs:345-346 | a line shorter than the shift is read before its start and throws IndexOutOfRange |
| Wavelet.D6InverseOnTwoFails | ImageCompression/ImageCompression/Algorithms/Wavelets/Wavelet.cs:242 | the Daubechies 6 inverse pass (shift 4) throws on a line of two entries, where the forward pass does not |
| Wavelet.CyclicPairConvolved | ImageCompression/ImageCompression/Algorithms/Wavelets/Wavelet.cs:332-352 | the cyclic-index convolution is defined for every shift, whenever the filters have equal lengths and the line has even length |
| Wavelet.TapIsCyclic | ImageCompression/ImageCompression/Algorithms/Wavelets/Wavelet.cs:345-346 | wherever the code as written reads inside the line, it reads the cyclic index |
| Wavelet.CyclicAgrees | ImageCompression/ImageCompression/Algorithms/Wavelets/Wavelet.cs:332-352 | the cyclic convolution returns what the code as written returns, wherever the latter succeeds |
| Wavelet.Scaled | ImageCompression/ImageCompression/Algorithms/Wavelets/Wavelet.cs:332-352 | scaling keeps the length (with ScaledByOne: scaling by 1 is the identity) |
| Wavelet.TwoTapInverse | ImageCompression/ImageCompression/Algorithms/Wavelets/Wavelet.cs:354-368 | the mirror of [a, b] is [b, -a], and its inverse filters are the forward pair itself |
| Wavelet.TwoTapPair | ImageCompression/ImageCompression/Algorithms/Wavelets/Wavelet.cs:332-352 | on one pair, the inverse two-tap pass gives back the original entries scaled by a² + b² |
| Wavelet.TwoTapForward | ImageCompression/ImageCompression/Algorithms/Wavelets/Wavelet.cs:339-350 | the forward two-tap pass maps pair (x0, x1) to (a·x0 + b·x1, b·x0 - a·x1) |
| Wavelet.TwoTapLine | ImageCompression/ImageCompression/Algorithms/Wavelets/Wavelet.cs:339-350 | a line decoded pair by pair equals the original scaled by a² + b² |
| Wavelet.TwoTapRoundTrip | ImageCompression/ImageCompression/Algorithms/Wavelets/Wavelet.cs:214-260 | the decoder's inverse pass undoes the forward pass of a two-tap filter up to a² + b²: exactly for Haar 1/√2, halving for Haar 0.5 |
| WaveletChannel.Deinterleave | ImageCompression/ImageCompression/Algorithms/Wavelets/Wavelet.cs:201 | every index of a window of size h lands inside the window |
| WaveletChannel.Interleave | ImageCompression/ImageCompression/Algorithms/Wavelets/Wavelet.cs:234 | for an even size the gather index of a window position lies inside the window |
| WaveletChannel.DeinterleaveBijection | ImageCompression/ImageCompression/Algorithms/Wavelets/Wavelet.cs:201 | for an even size the scatter index map is a bijection of [0, h) with inverse Interleave, even indices filling the first half and odd ones the second |
| WaveletChannel.InterleaveHits | ImageCompression/ImageCompression/Algorithms/Wavelets/Wavelet.cs:234 | the one window position that the gather sends to i is Deinterleave(i) |
| WaveletChannel.DeinterleaveOddCollision | ImageCompression/ImageCompression/Algorithms/Wavelets/Wavelet.cs:201 | for an odd size of at least 3, indices 1 and h - 1 both land at (h - 1) / 2 |
| WaveletChannel.Window | ImageCompression/ImageCompression/Algorithms/Wavelets/Wavelet.cs:177-206 | the top-left h×w window holds the grid's cells |
| WaveletChannel.Paste | ImageCompression/ImageCompression/Algorithms/Wavelets/Wavelet.cs:197-203 | pasting keeps the grid's shape, replaces the window's cells and keeps all others |
| WaveletChannel.PasteOwnWindow | ImageCompression/ImageCompression/Algorithms/Wavelets/Wavelet.cs:197-203 | pasting a grid's own window back changes nothing |
| WaveletChannel.PasteOverPaste | ImageCompression/ImageCompression/Algorithms/Wavelets/Wavelet.cs:197-203 | the window of a pasted grid is what was pasted, and a second paste replaces the first |
| WaveletChannel.LineOutcome | ImageCompression/ImageCompression/Algorithms/Wavelets/Wavelet.cs:184 | whether a line converts depends only on its length, and the exception only on the filters |
| WaveletChannel.RowsConvolved | ImageCompression/ImageCompression/Algorithms/Wavelets/Wavelet.cs:180-187 | the row pass keeps the window's h×w shape (with RowOfRowsConvolved: each row is the convolved row) |
| WaveletChannel.ColumnsConvolved | ImageCompression/ImageCompression/Algorithms/Wavelets/Wavelet.cs:189-196 | the column pass keeps the window's h×w shape (with ColumnOfColumnsConvolved: each column is the convolved column) |
| WaveletChannel.Scattered | ImageCompression/ImageCompression/Algorithms/Wavelets/Wavelet.cs:197-203 | the forward scatter keeps the window's h×w shape |
| WaveletChannel.Gathered | ImageCompression/ImageCompression/Algorithms/Wavelets/Wavelet.cs:230-236 | the inverse gather keeps the window's h×w shape |
| WaveletChannel.GatheredScattered | ImageCompression/ImageCompression/Algorithms/Wavelets/Wavelet.cs:197-203 | for even sizes the gather reads back exactly what the scatter wrote, and the other way round |
| WaveletChannel.ForwardLevel | ImageCompression/ImageCompression/Algorithms/Wavelets/Wavelet.cs:177-203 | one forward iteration (rows, columns, scatter) keeps the window's shape |
| WaveletChannel.DecodeLevel | ImageCompression/ImageCompression/Algorithms/Wavelets/Wavelet.cs:228-254 | one decode iteration (gather, columns, rows) keeps the window's shape |
| WaveletChannel.LevelRoundTrip | ImageCompression/ImageCompression/Algorithms/Wavelets/Wavelet.cs:214-260 | the decode level undoes the forward level when the inverse filters undo the forward ones on lines of both sizes |
| WaveletChannel.ForwardStep | ImageCompression/ImageCompression/Algorithms/Wavelets/Wavelet.cs:177-206 | a forward iteration succeeds exactly when both passes' lines convert, throws what PairConvolution throws, and keeps the channel's shape |
| WaveletChannel.HalvedSize | ImageCompression/ImageCompression/Algorithms/Wavelets/Wavelet.cs:204-205 | halving never grows the window |
| WaveletChannel.ForwardFrom | ImageCompression/ImageCompression/Algorithms/Wavelets/Wavelet.cs:177-206 | the forward iterations keep the channel's shape |
| WaveletChannel.DecodeStep | ImageCompression/ImageCompression/Algorithms/Wavelets/Wavelet.cs:228-258 | a decode iteration keeps the rows×cols channel shape |
| WaveletChannel.DecodeFrom | ImageCompression/ImageCompression/Algorithms/Wavelets/Wavelet.cs:228-258 | the decode iterations keep the rows×cols channel shape |
| WaveletChannel.HalvedSizeIsShift | ImageCompression/ImageCompression/Algorithms/Wavelets/Wavelet.cs:204-205 | c halvings are the shift >> c |
| WaveletChannel.DecodeRetracesForward | ImageCompression/ImageCompression/Algorithms/Wavelets/Wavelet.cs:225-226 | starting from size >> (k - 1) and doubling c times reaches the window of forward iteration k - 1 - c, while every earlier forward size was even |
| WaveletChannel.ForwardFromLevels | ImageCompression/ImageCompression/Algorithms/Wavelets/Wavelet.cs:177-206 | the forward iterations succeed exactly when every level converts, and otherwise throw what PairConvolution throws |
| WaveletChannel.StepRoundTrip | ImageCompression/ImageCompression/Algorithms/Wavelets/Wavelet.cs:214-260 | one decode step undoes one forward step on the same window |
| WaveletChannel.PassesRoundTrip | ImageCompression/ImageCompression/Algorithms/Wavelets/Wavelet.cs:214-260 | with filters whose inverse undoes them on every window size, the decode iterations give back the channel the forward iterations started from |
| WaveletChannel.Thresholded | ImageCompression/ImageCompression/Algorithms/Wavelets/Wavelet.cs:211 | a coefficient becomes 0 exactly when it is below the threshold in magnitude (or 0), otherwise it is multiplied by 255 |
| WaveletChannel.ThresholdedGrid | ImageCompression/ImageCompression/Algorithms/Wavelets/Wavelet.cs:207-211 | the threshold step keeps the shape and applies Thresholded to every cell |
| WaveletChannel.Applied | ImageCompression/ImageCompression/Algorithms/Wavelets/Wavelet.cs:170-212 | the transformed channel keeps its shape, and an unknown wavelet type throws ArgumentOutOfRange |
| WaveletChannel.Decoded | ImageCompression/ImageCompression/Algorithms/Wavelets/Wavelet.cs:214-260 | the decoded channel is rows×cols, and an unknown wavelet type throws ArgumentOutOfRange |
| WaveletChannel.AppliedOk | ImageCompression/ImageCompression/Algorithms/Wavelets/Wavelet.cs:170-212 | for a known type the transform succeeds exactly when every convolved window has even sizes (or no rows or no columns), and otherwise throws IndexOutOfRange |
| WaveletChannel.TwoTapInvertsLines | ImageCompression/ImageCompression/Algorithms/Wavelets/Wavelet.cs:332-368 | a unit-norm two-tap filter is undone exactly by its own inverse filters on every even-length line |
| WaveletChannel.Haar2RoundTrip | ImageCompression/ImageCompression/Algorithms/Wavelets/Wavelet.cs:170-260 | for Haar 1/√2, decoding k iterations gives back exactly the channel the k forward iterations started from, whenever every window size before the last is even |
| WaveletPasses.ReadRow | ImageCompression/ImageCompression/Algorithms/Wavelets/Wavelet.cs:182-183 | the line holds the first w cells of row i |
| WaveletPasses.ReadColumn | ImageCompression/ImageCompression/Algorithms/Wavelets/Wavelet.cs:191-192 | the line holds the first h cells of column j |
| WaveletPasses.WriteRow | ImageCompression/ImageCompression/Algorithms/Wavelets/Wavelet.cs:185-186 | the converted line lands on the first cells of row i, and every other cell keeps its value |
| WaveletPasses.WriteColumn | ImageCompression/ImageCompression/Algorithms/Wavelets/Wavelet.cs:194-195 | the converted line lands on the first cells of column j, and every other cell keeps its value |
| WaveletPasses.ConvolveRows | ImageCompression/ImageCompression/Algorithms/Wavelets/Wavelet.cs:180-187 | the row pass succeeds exactly when there are no rows or its lines convert; a failure throws PairConvolution's error before writing anything; on success the window of dst is the convolved rows of src's window, and the rest is kept |
| WaveletPasses.ConvolveColumn | ImageCompression/ImageCompression/Algorithms/Wavelets/Wavelet.cs:190-195 | one column converts exactly when its line does, and is then written over column j |
| WaveletPasses.ConvolveColumns | ImageCompression/ImageCompression/Algorithms/Wavelets/Wavelet.cs:189-196 | the column pass succeeds exactly when there are no columns or its lines convert; on success the window of dst is the convolved columns of src's window, and the rest is kept |
| WaveletPasses.Scatter | ImageCompression/ImageCompression/Algorithms/Wavelets/Wavelet.cs:197-203 | the window of the channel becomes the scattered window of result, and the rest is kept |
| WaveletPasses.Gather | ImageCompression/ImageCompression/Algorithms/Wavelets/Wavelet.cs:230-236 | the gather fails with IndexOutOfRange exactly when a non-empty window is larger than the channel; otherwise the window of the ordered channel is the gathered window, and the rest is kept |
| WaveletPasses.Threshold | ImageCompression/ImageCompression/Algorithms/Wavelets/Wavelet.cs:207-211 | the channel becomes ThresholdedGrid of its old cells |
| WaveletPasses.ForwardIteration | ImageCompression/ImageCompression/Algorithms/Wavelets/Wavelet.cs:177-203 | one iteration succeeds or throws as ForwardStep does, and leaves ForwardStep's channel |
| WaveletPasses.DecodeIteration | ImageCompression/ImageCompression/Algorithms/Wavelets/Wavelet.cs:230-254 | one iteration succeeds or throws as DecodeStep does, and leaves DecodeStep's channel |
| WaveletPasses.DoApplyWavelet | ImageCompression/ImageCompression/Algorithms/Wavelets/Wavelet.cs:170-212 | the method throws what Applied throws, and otherwise leaves Applied's channel |
| WaveletPasses.DecodeChannel | ImageCompression/ImageCompression/Algorithms/Wavelets/Wavelet.cs:214-260 | the method throws what Decoded throws, and otherwise leaves (and returns) Decoded's channel |
| WaveletContainer.HeaderBytes | ImageCompression/ImageCompression/Algorithms/Wavelets/Wavelet.cs:62-67 | the header takes 29 bytes: height, width, the two resolutions, the type byte, the iteration count |
| WaveletContainer.ParseHeader | ImageCompression/ImageCompression/Algorithms/Wavelets/Wavelet.cs:41-46 | the header reads exactly when at least 29 bytes remain, field by field from the offsets SaveWavelet wrote them at; otherwise EndOfStream |
| WaveletContainer.ParseWrittenHeader | ImageCompression/ImageCompression/Algorithms/Wavelets/Wavelet.cs:41-46 | a written header reads back as itself, followed by the untouched rest |
| WaveletContainer.IntsBytes | ImageCompression/ImageCompression/Algorithms/Wavelets/Wavelet.cs:119-126 | n ints written take 4n bytes (with IntsBytesAt: int k at bytes 4k to 4k + 3) |
| WaveletContainer.ParseInts | ImageCompression/ImageCompression/Algorithms/Wavelets/Wavelet.cs:105-108 | count ints read exactly when 4·count bytes remain, int k from the four bytes at 4k; otherwise EndOfStream |
| WaveletContainer.ParseWrittenInts | ImageCompression/ImageCompression/Algorithms/Wavelets/Wavelet.cs:105-108 | ints written read back as the same ints |
| WaveletContainer.GridBytes | ImageCompression/ImageCompression/Algorithms/Wavelets/Wavelet.cs:119-126 | a grid is written row-major, m ints per row |
| WaveletContainer.ParseRows | ImageCompression/ImageCompression/Algorithms/Wavelets/Wavelet.cs:103-109 | n rows of m ints read exactly when the bytes suffice, giving an n×m grid; otherwise EndOfStream |
| WaveletContainer.ParseWrittenRows | ImageCompression/ImageCompression/Algorithms/Wavelets/Wavelet.cs:103-109 | rows written read back as the same rows |
| WaveletContainer.ChannelBytes | ImageCompression/ImageCompression/Algorithms/Wavelets/Wavelet.cs:113-127 | a channel takes 8 bytes of size plus 4 per cell |
| WaveletContainer.ParseChannel | ImageCompression/ImageCompression/Algorithms/Wavelets/Wavelet.cs:98-111 | too few bytes give EndOfStream, a negative size gives Overflow (the array allocation), and a read channel consumes bytes |
| WaveletContainer.ParseWrittenChannel | ImageCompression/ImageCompression/Algorithms/Wavelets/Wavelet.cs:98-127 | a channel WriteChannel wrote is what ReadChannel reads back |
| WaveletContainer.RealsOf | ImageCompression/ImageCompression/Algorithms/Wavelets/Wavelet.cs:107 | each read int is stored as the equal double |
| WaveletContainer.Rounded | ImageCompression/ImageCompression/Algorithms/Wavelets/Wavelet.cs:123 | the conversion succeeds exactly when every cell rounds (half to even) into the int range, and gives those ints; otherwise Overflow |
| WaveletContainer.RoundedReals | ImageCompression/ImageCompression/Algorithms/Wavelets/Wavelet.cs:107-123 | an int read as a double converts back to itself |
| WaveletContainer.Encoded | ImageCompression/ImageCompression/Algorithms/Wavelets/Wavelet.cs:56-72 | the written stream starts with the 29 header bytes and the channel count |
| WaveletContainer.RealsAll | ImageCompression/ImageCompression/Algorithms/Wavelets/Wavelet.cs:49-50 | every channel is read as doubles, in order |
| WaveletContainer.DecodedChannel | ImageCompression/ImageCompression/Algorithms/Wavelets/Wavelet.cs:50 | a decoded channel keeps its size, and an unknown wavelet type throws ArgumentOutOfRange |
| WaveletContainer.DecodedAll | ImageCompression/ImageCompression/Algorithms/Wavelets/Wavelet.cs:49-50 | decoding all channels keeps their count and sizes |
| WaveletContainer.OpenChannel | ImageCompression/ImageCompression/Algorithms/Wavelets/Wavelet.cs:50 | one round reads and decodes a channel, and a failed read throws the read's error |
| WaveletContainer.OpenChannels | ImageCompression/ImageCompression/Algorithms/Wavelets/Wavelet.cs:48-50 | count rounds give count channels and consume bytes |
| WaveletContainer.OpenWrittenChannels | ImageCompression/ImageCompression/Algorithms/Wavelets/Wavelet.cs:48-50 | written channels open exactly as decoding their doubles would, with the same error on failure |
| WaveletContainer.ToByte | ImageCompression/ImageCompression/Algorithms/Wavelets/Wavelet.cs:165-168 | a magnitude of at least 255 gives 255; otherwise the byte lies within 0.5 of the magnitude |
| WaveletContainer.ToByteOfByte | ImageCompression/ImageCompression/Algorithms/Wavelets/Wavelet.cs:165-168 | a byte value or its negation converts to itself |
| WaveletContainer.GrayBytes | ImageCompression/ImageCompression/Algorithms/Wavelets/Wavelet.cs:83-84 | a single channel gives n·m bytes (with GrayPixel: cell (i, j) at byte i·m + j) |
| WaveletContainer.Colors | ImageCompression/ImageCompression/Algorithms/Wavelets/Wavelet.cs:86-91 | the colour grid has channel 0's size and holds the three channels' bytes |
| WaveletContainer.Pixels | ImageCompression/ImageCompression/Algorithms/Wavelets/Wavelet.cs:74-96 | GetBytes fails with IndexOutOfRange exactly when there is no channel, or a non-empty colour image has only two channels or one that channel 1 or 2 does not cover; otherwise n·m or 4·n·m bytes |
| WaveletContainer.ColorPixel | ImageCompression/ImageCompression/Algorithms/Wavelets/Wavelet.cs:87-91 | pixel (i, j) holds channels 2, 1, 0 and 255 at 4(i·m + j), and reading the buffer back as colours gives the three channels |
| WaveletContainer.Assembled | ImageCompression/ImageCompression/Algorithms/Wavelets/Wavelet.cs:51-52 | the bitmap carries GetBytes' pixels, Gray8 exactly for one channel, and a zero height throws DivideByZero |
| WaveletContainer.Open | ImageCompression/ImageCompression/Algorithms/Wavelets/Wavelet.cs:35-54 | a stream shorter than 33 bytes gives EndOfStream, a negative channel count Overflow; an opened bitmap carries the header's size and resolution, and is Gray8 exactly when the count is 1 |
| WaveletContainer.OpenOfSave | ImageCompression/ImageCompression/Algorithms/Wavelets/Wavelet.cs:35-72 | opening what SaveWavelet wrote decodes the saved ints, read as doubles, and builds the bitmap from them, whatever follows |
| WaveletContainer.RoundedAll | ImageCompression/ImageCompression/Algorithms/Wavelets/Wavelet.cs:69-70 | all channels convert exactly when each does, each giving its own ints; otherwise Overflow |
| WaveletContainer.AppliedChannel | ImageCompression/ImageCompression/Algorithms/Wavelets/Wavelet.cs:23 | a transformed channel keeps its size, and an unknown wavelet type throws ArgumentOutOfRange |
| WaveletContainer.AppliedAll | ImageCompression/ImageCompression/Algorithms/Wavelets/Wavelet.cs:21-24 | transforming all channels keeps their count and sizes |
| WaveletContainer.AppliedAllFails | ImageCompression/ImageCompression/Algorithms/Wavelets/Wavelet.cs:21-24 | a channel that fails stops the whole loop with its error |
| WaveletContainer.OpenChannelsFails | ImageCompression/ImageCompression/Algorithms/Wavelets/Wavelet.cs:48-50 | a read or decode that fails stops the opening with its error |
| WaveletContainer.ChannelsOf | ImageCompression/ImageCompression/Algorithms/Wavelets/Wavelet.cs:48 | the channel vector as values keeps count and cells |
| WaveletContainer.ReadRowCells | ImageCompression/ImageCompression/Algorithms/Wavelets/Wavelet.cs:105-108 | row i gets the m ints read, as doubles, and other rows are kept |
| WaveletContainer.ReadCells | ImageCompression/ImageCompression/Algorithms/Wavelets/Wavelet.cs:103-109 | the fresh channel gets the n rows read, or the read's error |
| WaveletContainer.ReadChannel | ImageCompression/ImageCompression/Algorithms/Wavelets/Wavelet.cs:98-111 | the method reads or fails as ParseChannel does, and the fresh channel holds the read ints as doubles |
| WaveletContainer.WriteRowCells | ImageCompression/ImageCompression/Algorithms/Wavelets/Wavelet.cs:121-125 | a row is written exactly when every cell converts, appending its ints; otherwise Overflow |
| WaveletContainer.WriteRows | ImageCompression/ImageCompression/Algorithms/Wavelets/Wavelet.cs:119-126 | the rows are written exactly when all convert, appending the converted grid |
| WaveletContainer.WriteChannel | ImageCompression/ImageCompression/Algorithms/Wavelets/Wavelet.cs:113-127 | the method succeeds exactly when Rounded does, appending that channel's bytes; otherwise Overflow |
| WaveletContainer.WriteChannels | ImageCompression/ImageCompression/Algorithms/Wavelets/Wavelet.cs:69-70 | all channels are written exactly when all convert, appending their bytes in order |
| WaveletContainer.SaveWavelet | ImageCompression/ImageCompression/Algorithms/Wavelets/Wavelet.cs:56-72 | the method succeeds exactly when every channel converts, and then writes Encoded of the header and the converted channels |
| WaveletContainer.PackGray | ImageCompression/ImageCompression/Algorithms/Wavelets/Wavelet.cs:78-84 | a fresh buffer holding GrayBytes of the single channel |
| WaveletContainer.WriteWindow | ImageCompression/ImageCompression/Algorithms/Wavelets/Wavelet.cs:88-91 | bytes b to b + 3 become blue, green, red and 255; all others are kept |
| WaveletContainer.PackPixel | ImageCompression/ImageCompression/Algorithms/Wavelets/Wavelet.cs:87-91 | pixel (i, j) is written exactly when channels 2 and 1 reach it, else IndexOutOfRange |
| WaveletContainer.PackColorsRow | ImageCompression/ImageCompression/Algorithms/Wavelets/Wavelet.cs:81-93 | row i is written exactly when every pixel of it is reachable, else IndexOutOfRange |
| WaveletContainer.PackColors | ImageCompression/ImageCompression/Algorithms/Wavelets/Wavelet.cs:78-95 | the colour buffer is Pixels of the channels, or its error |
| WaveletContainer.GetBytes | ImageCompression/ImageCompression/Algorithms/Wavelets/Wavelet.cs:74-96 | the method returns a fresh buffer holding Pixels of the channels, or its error |
| WaveletContainer.OpenNext | ImageCompression/ImageCompression/Algorithms/Wavelets/Wavelet.cs:50 | one round fails as OpenChannels does and otherwise gives a fresh decoded channel |
| WaveletContainer.ReadChannels | ImageCompression/ImageCompression/Algorithms/Wavelets/Wavelet.cs:47-50 | the loop gives OpenChannels' channels and rest, or its error |
| WaveletContainer.OpenWavelet | ImageCompression/ImageCompression/Algorithms/Wavelets/Wavelet.cs:35-54 | the method returns exactly Open of the decompressed bytes |
| WaveletContainer.ApplyNext | ImageCompression/ImageCompression/Algorithms/Wavelets/Wavelet.cs:23 | one channel transformed extends the transformed prefix, or fails as AppliedAll does |
| WaveletContainer.ApplyAll | ImageCompression/ImageCompression/Algorithms/Wavelets/Wavelet.cs:21-24 | the channels end as AppliedAll of their old values, or the loop fails with its error |
| WaveletContainer.ApplyWavelet | ImageCompression/ImageCompression/Algorithms/Wavelets/Wavelet.cs:14-33 | the channels are transformed as AppliedAll says; then the bytes written are Encoded of the header and the converted channels, or Overflow |

## Left out

- Floating point: every `double` is a real. Rounding error, NaN and infinities are not modelled. `Math.Sqrt(2)` and `Math.Sqrt(3)` are parameters, and lemmas that need their values require `sqrt2 * sqrt2 == 2.0` and `sqrt3 * sqrt3 == 3.0`.
- The DCT numerics: `GetDctMatrix` (cos and sqrt), the `C·X·Cᵀ` block products of `ApplyDct` (DctAlgorithm.cs:189-215), and the top-level `ApplyDct`/`DecodeDct` pipelines (DctAlgorithm.cs:13-39) that chain them with the modelled stages. Each stage they call is modelled separately.
- The wavelet numerics: the exactness of the D4 and D6 reconstruction, and the truncated D6 literals. Only the Haar filters get a proved round trip, and the D4 filter gets its orthonormality relations.
- LZMA compression and file I/O: `LzmaEncodeStream`, `LzmaDecodeStream`, `File.Open`/`File.OpenRead` and the save path. The containers are modelled as the plain byte sequence that `BinaryWriter` writes and `BinaryReader` reads. A double is an opaque 8-byte field.
- WPF and the UI:
  - `BitmapSource.Create` and `CopyPixels`; `GetColors` and `Create`, whose sources are not part of this model; `BitmapImageExtensions.GetBytes`;
  - the dialogs, message boxes and event handlers of MainWindow.xaml.cs, including `LoadImage`;
  - PSNR.
  Where a modelled operation hands a buffer to `BitmapSource.Create`, the model returns the arguments it would pass.
- The wavelet codec's conversions between bitmaps and channels: `GetChannels`, `GetChannel`, `ToColors`, `ToGrey` and `ConvertToBytes` (Wavelet.cs:129-163, 301-318). These are a division by 255.0 and `ToByte` over doubles. `WaveletContainer.ApplyWavelet` starts from the channels they build, and the bitmap returned for display is left out.
- `Effects.ApplyMedianCut` (Effects.cs:61-66): it only calls `MedianCut.Build`, which `MedianCuts.Build` models. The `EffectByType` dictionary is modelled only as the set of effects it has entries for (`Effects.CanApplyExactly`).
- `SaveJpeg`, `SavePng` and `SaveWithEncoder` (BitmapExtensions.cs:54-72) write files. `BitmapExtensions.Save` returns which encoder would write to which path.
- `Vector.GetHashCode` (Vector.cs:43-46) is the array's reference hash. No law about it is stated, and the hash sets that rely on it are modelled as explained under `Lbg.CreateQuantizedSet`.
- EnumExtensions, the attribute classes, ExtensionNotSupportedException and MCNOde.cs have no behaviour to model.
- The algorithm files use members that the shown structures lack, and the model follows the algorithm files:
  - DctParameters.cs declares `GeneratorsY` and `GeneratorsC` (lines 11 and 13) but only a single `int? N` (line 9), and no `SavePath`. DctAlgorithm.cs (lines 113-115) and Jpeg.cs (lines 13, 22-23, 55, 64-65) use `Ny`, `Nc` and `SavePath`. So `DctParams.DctParameters` has `Ny` and `Nc` beside the declared fields; the save path is left out with the file I/O.
  - `MatrixGenerators` is not part of this model's sources. It is modelled as an `(alpha, gamma)` pair of ints.
  - `Vector<T>` has a get-only indexer and no `Convert`, yet DctAlgorithm.cs writes `v[k] = …` (line 132) and calls `Convert` (line 87). The model gives `Vectors.Vector` an `Update` and a `Convert`.
  - Effects.cs and MainWindow.xaml.cs use effect kinds that EffectType.cs does not declare (`MedianCut`, `QuantizationRgb`, `QuantizationYCrCb`, `MonochromeBad`, `MonochromeGood`). `Effects.EffectType` lists all of them.
- MedianCuts.Search: the probe index `(l + r) / 2` is not wrapped. The histogram rows it searches hold 256 counts, so that sum never overflows.
- `MedianCuts.CubeMedian` follows MedianCut.cs:48 as written: the third component is searched within `cube.Oy`, not `cube.Oz`. `MedianCuts.MedianIgnoresOz` states the consequence.
- Collection order: `HashSet` enumeration order is not claimed. `SolveByKruskal`'s `Dictionary<int, List<…>>` is only ever added to, and its `Values` are taken in insertion order (what .NET's dictionary does when nothing is removed); `Lbg.GroupByRoot` and `Lbg.KruskalClusters` rely on that order. Likewise `MedianCuts.Build`'s `palletDict` is only ever added to (MedianCut.cs:33-40), and `palette[j] == CubeMedian(cubes[j])` relies on `Values.ToArray()` giving insertion order; `Keys.First(...)` needs no such order, because the cubes are disjoint (`MedianCuts.FirstCubeIsOnly`). `List.Sort` is not stable, and its order among equal lengths is not claimed. `Edges.SortByLength` and `DctQuantization.SmallestRemaining` each pick one valid order. `Lbg.KruskalClusters` is stated over the order `Edges.SortByLength` picks; `Lbg.UniteAlongEdges` holds for any edge order.
- Lbg.MeanBetween: holds only for clusters of at most Int32.MaxValue / 255 colours. Larger clusters can wrap the int sum (`Lbg.MeanWrapsPastLimit`), and `Lbg.Mean` models that wrap.
- Lbg.RefinedStaysInBox: for the same reason, holds only for at most Int32.MaxValue / 255 colours.
- Lbg.Build: the initial palette and the search that produced it are ghost outputs, so that the contract can name them; the source keeps neither.
- Lbg.CreateQuantizedSet: promises only that every quantized colour is present, that nothing else is, and that there are at most as many entries as colours. Whether equal colours are merged depends on reference hashes.
- BitmapExtensions.ToLower: lowers ASCII letters only. `ToLowerInvariant` on other letters is not modelled.
- WaveletContainer.GetBytes: the buffer size `n·m·4` is an unbounded integer. The source's int32 product overflows for images of more than 2^29 pixels.
- WaveletContainer.Pixels: the same unbounded size as `GetBytes`.
- WaveletContainer.SaveWavelet: on a cell that does not convert, states only the Overflow error. It does not state the bytes already written, which the source leaves in the (discarded) compressed file.
- WaveletContainer.ApplyWavelet: after a failed transform, the contents of the channels are not stated.
- WaveletContainer.ApplyAll: after a failed transform, the contents of the channels are not stated.
- WaveletPasses.DoApplyWavelet: after a throw, the channel contents are not stated (the source discards them).
- WaveletPasses.DecodeChannel: after a throw, the channel contents are not stated (the source discards them).
- WaveletPasses.ForwardIteration: after a throw, the arrays' contents are not stated.
- WaveletPasses.DecodeIteration: after a throw, the arrays' contents are not stated.
- DctQuantization.QuantizeLargest: after a throw, the contents of the first block are not stated.
- DctBlocks.PlaceMatrix: after an overflow, the cells of the window are not stated. Only the cells outside the window are proved unchanged.
- Jpeg.Load: after a failed read, the fields already assigned to the parameters are not stated.
- Jpeg.ReadHeader: after a failed read, the fields already assigned to the parameters are not stated.

## Findings

| source | as written | input that shows it | evidently intended | confidence | as-written member | corrected member |
|---|---|---|---|---|---|---|
| ImageCompression/ImageCompression/Algorithms/Wavelets/Wavelet.cs:345-346 | `PairConvolution` reads `data[(i + k - delta + m) % m]`. C#'s `%` truncates, so when `delta` exceeds the line length `m` the index can be negative and the read throws. `DecodeChannel` passes `delta = n - 2`, which is 4 for Daubechies 6. | a Daubechies 6 channel whose last forward window has a side of 2, e.g. a 4×4 image with 2 iterations: the first decode pass convolves lines of 2 entries with shift 4 and reads index -1 | a cyclic index `(i + k - delta) mod m`, which the `+ m` is evidently meant to give | high, not executed | Wavelet.D6InverseOnTwoFails (with Wavelet.PairConvolutionShortLineFails) | Wavelet.CyclicPairConvolved, defined for every shift, with Wavelet.CyclicAgrees: it returns what the code returns wherever the code returns. The channel model keeps the code's throw, so these two differ only on the failing inputs. |
