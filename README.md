# SDL glyph-graph pipeline in Dafny

This project models the SDL pipeline. The pipeline reads a picture of a colour-coded grid and is made of these parts:

- **Sampler.** It reads one pixel at the centre of every square.
- **Solver.** It finds the green "glyph" blocks (4-connected green squares). It sorts them by centre, top to bottom and then left to right. It names them `A`, `B`, …, `Z`, `AA`, …. For each block it records the later blocks that a red corridor leads to.
- **Go program (`main.go`).** It does the same on a `CompressedImage` literal. It also has a simpler search: green squares that share a green-or-red component with another green square.
- **Python helpers.** One prints the Go literal (`image_to_struct.py`). One prints the grid as `G`/`R`/`B`/`.` characters (`print_grid.py`). One estimates the square size from runs of similar pixels (`analyze_image.py`).

Pictures and grids are `seq<seq<Pixel>>`, indexed `[y][x]`. The class of a square (green, red, green-or-red) is a parameter `Pixel -> bool`. So the search engine below serves both programs: Go's `G > R` / `R > G` rules and Python's strict dominance rules.

Modules:

- `Grid` (grid.dfy): pixels, points, 4-adjacency, paths inside a class, connected components.
- `Flood` (flood.dfy): the breadth-first fill, proved to return exactly the component of its start cell.
- `Labelling` (labelling.dfy): the row-major scan. It starts a fill at every unvisited class cell. Proved to return a partition of the class cells into components, in reading order of their first cells.
- `Corridor` (corridor.dfy): the red search from one block. Proved to visit exactly the red cells joined to the block by red paths. The blocks it reports are exactly those sharing a red corridor with it.
- `Naming` (naming.dfy): block names and their inverse.
- `Text` (text.dfy): dictionary order on strings and a sort into it; decimal printing of integers with its parser.
- `Blocks` (blocks.dfy): the bounding box and centre; the sort by centre; naming; the cell-to-block map; the graph loop. The main theorem is `Blocks.Connect`: node `i` lists block `j` exactly when `i < j` and the two blocks are linked by a red corridor. Its list is sorted and has no repeats.
- `GoGlyphs` (glyphs_go.dfy): the Go program, with the four examples from its `main`.
- `Sampling` (sampling.dfy): Python's floor division and centre sampling with its bounds clamp.
- `FindConnections` (find_connections.dfy): the Python solver.
- `PrintGrid` (print_grid.dfy), `ImageToStruct` (image_to_struct.dfy), `AnalyzeImage` (analyze_image.dfy): the three helper scripts.

`ImageToStruct.SourceRoundTrip` proves that reading back the printed Go source gives the image that the Go program is handed. That is the same `CompressedImage` whose squares are the sampled grid.

## Model

| member | source | states |
|---|---|---|
| Grid.Neighbours | main.go:83-100 | the four candidate neighbours of a cell are exactly its 4-adjacent cells |
| Grid.ComponentIsJoined | connect_glyphs/find_connections.py:106-123 | a cell belongs to a component exactly when a path of class cells joins it to the component's first cell |
| Grid.JoinedSymmetric | main.go:83-100 | being joined by a path of class cells is symmetric |
| Grid.JoinedTransitive | main.go:83-100 | being joined by a path of class cells is transitive |
| Flood.Fill | main.go:232-262 | the breadth-first fill from an unvisited class cell returns exactly that cell's component, starting with it; it adds exactly the component to the visited set and keeps the set closed under adjacency |
| Flood.Finish | connect_glyphs/find_connections.py:106-123 | when the queue is empty, the cells taken off it form a complete component |
| Labelling.Scan | connect_glyphs/find_connections.py:93-125 | the row-major scan returns components that are disjoint and cover every class cell, each starting at its first cell in reading order, in reading order of those first cells |
| Labelling.PartitionUnique | connect_glyphs/find_connections.py:97-125 | in such a partition every class cell lies in exactly one component |
| Corridor.Seed | main.go:305-322 | the initial queue holds exactly the red neighbours of the block, each once |
| Corridor.ExpandRed | main.go:329-350 | one expansion step keeps the search invariant and records a block exactly when a dequeued red cell touches one of its other cells |
| Corridor.MarkedIsCorridor | main.go:324-351 | the cells the red search visits are exactly the red cells joined by red paths to a red neighbour of the block |
| Corridor.Search | connect_glyphs/find_connections.py:150-185 | the red search visits each corridor cell once and reaches exactly the other blocks that touch the corridor; never the block itself |
| Corridor.HitIsReached | main.go:336-343 | a block touched by a visited cell during the search is exactly a block reached through the corridor |
| Corridor.ReachedIsLinked | main.go:336-343 | when the cell map owns every block's cells, reaching block t from block a means a red path links the two blocks |
| Corridor.LinkedSymmetric | main.go:353-358 | the corridor link is symmetric, so keeping only the later block loses no pair |
| Naming.GenerateName | main.go:372-379 | a name exists exactly below 702; it has one letter below 26 and two letters from 26 on; reading it back with `NameIndex` gives n |
| Naming.NameInjective | main.go:372-379 | different block numbers below 702 get different names |
| Naming.NameLetters | main.go:372-379 | names are made of upper-case letters |
| Naming.NameExamples | connect_glyphs/find_connections.py:51-55 | 0 is A, 25 is Z, 26 is AA, 27 is AB, 701 is ZZ; 702 is out of range |
| Text.LexTransitive | main.go:360 | the dictionary order is transitive |
| Text.LexTotal | connect_glyphs/find_connections.py:193 | any two strings are equal or ordered one way |
| Text.LexAsymmetric | main.go:360 | two strings are never each before the other |
| Text.SortStrings | connect_glyphs/find_connections.py:193 | sorting keeps the same multiset of strings |
| Text.SortStringsSorted | main.go:360 | sorting leaves the strings in dictionary order |
| Text.SortStringsStrict | main.go:360 | sorting strings without repeats gives a strictly increasing list of the same strings |
| Text.SortStringsMembers | main.go:360 | sorting keeps exactly the strings it was given |
| Text.DecimalRoundTrip | image_to_struct.py:15-19 | parsing the decimal text of an integer gives it back |
| Text.TakeDecimal | image_to_struct.py:34 | a decimal text followed by a non-digit splits off exactly |
| Blocks.MinX | connect_glyphs/find_connections.py:36 | the least x of a block is a lower bound that some cell attains |
| Blocks.MaxX | connect_glyphs/find_connections.py:37 | the greatest x of a block is an upper bound that some cell attains |
| Blocks.MinY | main.go:236-247 | the least y of a block is a lower bound that some cell attains |
| Blocks.MaxY | main.go:236-247 | the greatest y of a block is an upper bound that some cell attains |
| Blocks.SortByCentrePermutes | main.go:272-277 | the sort by centre keeps the same blocks |
| Blocks.SortByCentreSorted | main.go:272-277 | after the sort, centres are ordered by y and then by x |
| Blocks.SortByCentreStable | connect_glyphs/find_connections.py:131 | blocks with equal centres stay in the order of their discovery ids |
| Blocks.AssignNames | main.go:280-283 | naming succeeds exactly for at most 702 blocks; then block i gets id i and name number i and keeps its cells and centre |
| Blocks.NumberedNamesDistinct | connect_glyphs/find_connections.py:134-136 | after naming, different blocks have different names |
| Blocks.IndexPoints | main.go:287-292 | the cell map has exactly the cells of the blocks as keys; a cell maps to the last block listing it |
| Blocks.IndexOwns | connect_glyphs/find_connections.py:140-143 | for disjoint blocks numbered by position, the cell map sends every block cell to its own block |
| Blocks.Connections | main.go:353-360 | the kept connections are exactly the names of reached blocks with a larger id, in dictionary order, without repeats when names are distinct |
| Blocks.PickedNames | main.go:353-358 | after the loop over the reached blocks, a name is picked exactly when some reached block with a larger id carries it |
| Blocks.BuildNode | main.go:295-361 | a node carries its block's name and centre and lists the later blocks its corridor reaches |
| Blocks.BuildGraph | connect_glyphs/find_connections.py:147-199 | the graph has one node per block, in block order |
| Blocks.GraphWired | main.go:294-361 | node i lists block j exactly when i < j and a red corridor links the two blocks |
| Blocks.PairRecordedOnce | main.go:353-358 | no node lists itself, every linked pair is recorded on the earlier block only, and never in both directions |
| Blocks.GraphRecords | main.go:296-300 | every node has its block's name and centre, and its connections are strictly increasing |
| Blocks.SortedPartition | main.go:272-277 | sorting a partition of the green cells into components gives a partition again |
| Blocks.RenamedPartition | main.go:280-283 | renumbering and naming keep the blocks' cells |
| Blocks.Wire | connect_glyphs/find_connections.py:138-199 | the graph loop over named blocks gives a wired, recorded graph |
| Blocks.Connect | main.go:270-361 | sort, name, index and wire: succeeds exactly for at most 702 blocks, otherwise fails with an index error; the blocks are the sorted ones renumbered, still a partition, and on success named, wired and recorded |
| Blocks.RenumberedSorted | main.go:272-283 | renumbering a sorted list keeps it sorted |
| GoGlyphs.Colours | main.go:29-36 | no pixel is both green and red; a pixel is neither exactly when R equals G; blue plays no part |
| GoGlyphs.CountTwo | main.go:79-81 | counting more than one green cell in a component means it holds two distinct green cells |
| GoGlyphs.KeepGreens | main.go:103-112 | the filter keeps, once each, the green cells of a component that holds at least two of them |
| GoGlyphs.KeptIsConnected | main.go:43-44 | a green cell of a green-or-red component is kept exactly when another green cell is joined to it |
| GoGlyphs.KeptExactly | main.go:43-44 | after filtering every component, a cell is in the result exactly when it is green and joined to another green cell |
| GoGlyphs.KeepNext | main.go:106-112 | appending one component's kept cells keeps the result free of repeats and exact so far |
| GoGlyphs.FindConnectedGreenSquares | main.go:45-117 | the result lists, once each, exactly the green cells joined by a green-or-red path to another green cell |
| GoGlyphs.Example1 | main.go:122-137 | two greens joined by a red find two squares |
| GoGlyphs.Example2 | main.go:141-152 | a green beside a blue square finds none |
| GoGlyphs.Example3 | main.go:156-167 | a green joined only to a red finds none |
| GoGlyphs.Example4 | main.go:172-185 | three greens joined through reds find three squares |
| GoGlyphs.Lonely | main.go:156-167 | with a single green cell nothing is connected |
| GoGlyphs.Half | main.go:264 | Go's integer halving truncates toward zero |
| GoGlyphs.Centre | main.go:264 | the centre of a block lies inside its bounding box |
| GoGlyphs.Bounds | main.go:236-247 | the loop over a block's cells finds its least and greatest x and y |
| GoGlyphs.MakeBlocks | main.go:224-268 | one block per component, in discovery order, with id 0, no name yet and the Go centre |
| GoGlyphs.CentresKept | main.go:264-283 | after sorting and renaming every block still has its own Go centre |
| GoGlyphs.GenerateConnectivityGraph | main.go:217-370 | the blocks partition the green cells into components, carry their centres and are sorted by centre; the graph exists exactly for at most 702 blocks and is then named, recorded and wired |
| Sampling.FloorDivNonNegative | image_to_struct.py:9-10 | floor division of a size by a positive square size is a natural number |
| Sampling.FloorDivBounds | image_to_struct.py:9-10 | the floor quotient q of a by b satisfies q*b <= a < q*b + b for positive b, and the mirrored bounds for negative b |
| Sampling.SampleInside | image_to_struct.py:26-31 | for a square inside the grid the clamp never fires: the sample is the square's centre and lies inside the picture |
| Sampling.SampledGrid | connect_glyphs/find_connections.py:82-90 | the sampled grid has height // size rows of width // size squares |
| Sampling.SamplePoint | print_grid.py:15-21 | the centre computation and clamp read exactly the sampled grid's pixel |
| FindConnections.Colours | connect_glyphs/find_connections.py:44-48 | no pixel is both green and red; a pixel is neither exactly when R equals G or B is at least R and G, so every tie for the largest channel gives neither |
| FindConnections.ColoursAgainstGo | connect_glyphs/find_connections.py:44-48 | Python's green and red imply Go's, but not the other way (a bluish pixel is green in Go only) |
| FindConnections.CalculateCenter | connect_glyphs/find_connections.py:33-40 | an empty block has centre (0, 0); otherwise the centre lies inside the bounding box |
| FindConnections.ParseGrid | connect_glyphs/find_connections.py:75-90 | grid sizes are width // 16 and height // 16 and the grid is the sampled grid |
| FindConnections.MakeBlocks | connect_glyphs/find_connections.py:125 | one block per component, id = discovery index, with the Python centre |
| FindConnections.SortedInScanOrder | connect_glyphs/find_connections.py:131 | blocks with equal centres stay in the reading order of their first cells, and the centres survive the sort |
| FindConnections.SolvePuzzle | connect_glyphs/find_connections.py:59-199 | like the Go graph with Python's colours and sampling, and ties in scan order |
| PrintGrid.CellChar | print_grid.py:23-30 | G, R, B each exactly when that channel exceeds both others, '.' exactly when none does |
| PrintGrid.AgreesWithSolver | print_grid.py:23-26 | the printer's G and R are exactly the solver's green and red |
| PrintGrid.PrintGrid | print_grid.py:4-31 | a zero square size fails with division by zero; otherwise one line per grid row, each the characters of that row's sampled squares |
| ImageToStruct.Header | image_to_struct.py:12-20 | the header is nine lines |
| ImageToStruct.EntryRoundTrip | image_to_struct.py:34 | a pixel entry line reads back as the same pixel |
| ImageToStruct.ReadEntry | image_to_struct.py:34 | an entry line with a seven-character prefix and two five-character separators starting with a comma reads back as its three numbers, whatever non-number text follows |
| ImageToStruct.MapInverse | image_to_struct.py:24-34 | mapping a left inverse after a function gives the list back |
| ImageToStruct.PrintRow | image_to_struct.py:23-35 | the lines printed for row y are the row's opening brace, one entry per sampled square, and its closing brace |
| ImageToStruct.NoRows | image_to_struct.py:9-10 | a negative square size gives no rows |
| ImageToStruct.PrintRows | image_to_struct.py:22-35 | the loop over rows prints the body for the sampled grid, and nothing for a negative size |
| ImageToStruct.ConvertImage | image_to_struct.py:4-37 | a zero square size fails with division by zero; otherwise the printed lines are header, body and footer |
| ImageToStruct.HeaderRoundTrip | image_to_struct.py:15-19 | a header line reads back as its number |
| ImageToStruct.ReadEntries | image_to_struct.py:34 | a row's entry lines read back as the row |
| ImageToStruct.ReadLastRow | image_to_struct.py:35 | reading one more printed row appends that row |
| ImageToStruct.ReadBody | image_to_struct.py:22-35 | the printed body reads back as the rows |
| ImageToStruct.GeneratedImage | image_to_struct.py:14-20 | the literal is a well-formed image of width // size by height // size squares |
| ImageToStruct.SourceRoundTrip | image_to_struct.py:12-37 | reading the printed Go source gives back the generated image |
| AnalyzeImage.Labels | analyze_image.py:13-25 | the labels of runs give one label per pixel |
| AnalyzeImage.RunsSplit | analyze_image.py:13-25 | runs are positive and sum to the line length; a pixel starts a new run exactly when it is not similar to the previous pixel |
| AnalyzeImage.DriftingRun | analyze_image.py:18 | similarity is checked against the previous pixel, so a run can drift: three pixels with red 0, 9, 18 form one run although the ends differ by 18 |
| AnalyzeImage.RecordedBounds | analyze_image.py:21-25 | each recorded run is between 2 and the line length, and recorded runs sum to at most the line length |
| AnalyzeImage.RunLengths | analyze_image.py:13-25 | the run loop records exactly the runs longer than one, in order |
| AnalyzeImage.TallyCounts | analyze_image.py:43 | the tally has distinct keys, each the count of that run length, in order of first occurrence |
| AnalyzeImage.RankPermutes | analyze_image.py:43 | ranking keeps the same entries |
| AnalyzeImage.RankDescending | analyze_image.py:43 | ranking orders entries by decreasing count |
| AnalyzeImage.RankStable | analyze_image.py:43 | entries with equal count stay in first-occurrence order |
| AnalyzeImage.MostCommonSpec | analyze_image.py:43-44 | at most n entries, each a present run length with its correct count, distinct, by decreasing count with ties in first-occurrence order |
| AnalyzeImage.MostCommonCut | analyze_image.py:43-44 | a length left out means n were kept, each counted at least as often, and every kept one with the same count occurs first in the list, so ties at the cut keep the first-encountered lengths |
| AnalyzeImage.EstimateSpec | analyze_image.py:52-56 | the estimate is at least 1; it is 1 exactly when no common run exceeds 5, otherwise it is the first common run longer than 5 |
| AnalyzeImage.PositionsInside | analyze_image.py:12 | the three scan positions lie inside a positive size |
| AnalyzeImage.Column | analyze_image.py:31-32 | a column holds the picture's pixels at that x from top to bottom |
| AnalyzeImage.RowScanBounds | analyze_image.py:11-25 | every run recorded over the three rows is at most the width |
| AnalyzeImage.ColumnScanBounds | analyze_image.py:27-40 | every run recorded over the three columns is at most the height |
| AnalyzeImage.EstimateWithin | analyze_image.py:55-56 | the estimate from runs within a size is at most that size |
| AnalyzeImage.ScanRows | analyze_image.py:11-25 | the loop over the given row positions records the runs of those rows in order |
| AnalyzeImage.ScanColumns | analyze_image.py:27-40 | the loop over the given column positions records the runs of those columns in order |
| AnalyzeImage.DetectGridSize | analyze_image.py:5-63 | reports the five most common runs in rows and columns; the estimates come from them and lie between 1 and the size; the grid sizes are the floor quotients, at least 1 |

## Left out

- Image loading goes through PIL's `Image.open`, `convert('RGB')` and `load`. The picture is a parameter given as rows of RGB pixels with its width and height. A picture smaller than its stated size, which would raise an IndexError, is excluded by `Fits`/`WellFormed`.
- A missing file (the `FileNotFoundError` branch at connect_glyphs/find_connections.py:63-65) is not modelled: no file system.
- The JSON output (main.go:364-368, connect_glyphs/find_connections.py:202-204) and the console messages are not modelled. The JSON is not written; the graph is returned as `GraphNode` values.
- `visualize` in connect_glyphs/find_connections.py and the files visualize_results.py, predict.py and train_model.py are not part of this model.
- `__main__` blocks and Go's `main` entry, which set fixed file names. The four test grids of Go's `main` are kept as `GoGlyphs.Example1`–`Example4`.
- Printed output is returned as a list of lines (`PrintGrid.PrintGrid`, `ImageToStruct.ConvertImage`). `AnalyzeImage.DetectGridSize` returns the printed values in an `Estimate` record.
- `GoGlyphs.FindConnectedGreenSquares`: Go counts greens during the fill and filters afterwards. The model fills first, then counts and filters per component. The result is the same set of cells, each once. Its order is not stated: Go lists the kept cells component by component in flood order, and the contract speaks only of membership.
- `GoGlyphs.GenerateConnectivityGraph`: Go's `sort.Slice` is not stable. The model sorts with a stable insertion sort, so for equal centres it fixes one of the orders Go may produce. The contract states only what holds for every order: sorted by centre, still a partition.
- `GoGlyphs.Bounds`: Go tracks the bounding box while the fill runs. The model computes it from the finished block, which gives the same values.
- Python sets and dicts iterated for connections are modelled by their contents only. Iteration order is left open (`Grid.Pick`); only the sorted result is stated.
- Point objects, blocks and the cell map are values. Python's in-place updates of `block.id` and `block.name` are modelled by building the renumbered list.
- Integer widths: Go `int` and Python integers are unbounded here; pictures fit in 64 bits. Python's `//` is `Sampling.FloorDiv` (floor). Go's `/ 2` on a centre is `GoGlyphs.Half` (truncation).
- `Naming.GenerateName`: from 702 on the two-letter formula indexes past `Z`. That is a panic in Go and an IndexError in Python; here it is `Err(IndexOutOfRange)`, which `Blocks.Connect` passes on.
- A zero square size raises `ZeroDivisionError` in `convert_image` and `print_grid`; here it is `Err(DivisionByZero)`.
- `AnalyzeImage.DetectGridSize` requires a picture with positive width and height. An opened image file always has both. With height 0 and width at least 2, the source would fail with an IndexError when reading row 0.
- `AnalyzeImage.MostCommon` models `Counter.most_common(n)` by its documented result: entries by decreasing count, equal counts in first-insertion order. The heap-based selection inside `collections` is not modelled.
