# MazeMaker in Dafny

A model of the maze generator in `MazeMaker/main.swift`, with proofs about it.

The maze is a square grid of cells. Each cell is a pillar `X`, a passage `O` or a blank `B`. The outer index is `x` (`grid[x][y]`).

`Maze.init(size:)` carves a border that alternates pillar and passage. It also seeds the frontier `potentiallyValidX` with the non-corner border pillars. `generateMaze(n:)` builds a `(2n-1) x (2n-1)` maze and then loops. Each pass picks a frontier pillar and tries the four directions in shuffled order. On the first direction whose one-step and two-step cells both exist and are blank, it writes a passage and a new pillar and adds the new pillar to the frontier. When no direction works, it drops the picked pillar from the frontier. `printMazeLines` draws each cell as ` `, `-`, `|` or `+` from which of its four neighbours are occupied.

The project has four modules:

- `Cells` (`cells.dfy`) holds the cell states, directions and their vectors, coordinates, the bounds-checked `safe` subscript and `occupied`.
- `MazeGrid` (`maze.dfy`) holds the class `Maze` with its fields `grid` and `potentiallyValidX`. The constructor runs the border loop on a local grid and a local set, as the Swift initialiser mutates its half-built fields, and assigns the fields once at the end. It also holds the functions `InitialGrid` and `InitialFrontier` that specify that loop, and lemmas about the carved border.
- `Growth` (`growth.dfy`) holds `TryMarkingRandomDirection` and `GenerateMaze` as module-level methods: the first takes a `Maze` and mutates its grid, the second takes `n`, builds a `Maze` and returns its grid. It also holds the pure `Mark` function that specifies one try, the loop invariant, and the termination argument. The last part proves what a finished maze looks like: at the end, every even/even cell is a pillar, no pillar can grow, every pillar is joined by a walk over passages to some cell of the carved border, the border keeps its alternating pillar/passage pattern, and so all pillars form one connected component. The walk to the border comes from a ghost certificate kept alongside the loop: each pillar has a depth, 0 on the border, and each deeper pillar points over a passage to one a level shallower. The rest of the way goes around the border ring to the corner (0, 0), and two such walks, one read backwards, join any two pillars.
- `LineArt` (`line_art.dfy`) gives the character choice of `printMazeLines` as a pure function, with lemmas about it.

The two random choices become arbitrary choices:

- `randomElement()` becomes `x :| x in maze.potentiallyValidX`.
- `shuffled()` becomes `ShuffledDirections`, which returns some permutation of the four directions.

Every property is therefore proved for every possible choice.

## Model

| member | source | states |
|---|---|---|
| Cells.Vector | MazeMaker/main.swift:52-62 | each direction is a unit step along exactly one axis: N and S change only y, E and W change only x |
| Cells.SafeAt | MazeMaker/main.swift:187-191 | the safe subscript yields an element exactly when the index is valid, and then it is the element at that index |
| Cells.Lookup | MazeMaker/main.swift:157-160 | `grid[safe: x]?[safe: y]` yields a cell exactly when both indices are in range, and then it is `grid[x][y]` |
| Cells.Occupied | MazeMaker/main.swift:175-185 | `occupied` holds exactly for a present `X` or `O`; a missing cell or a blank is unoccupied |
| MazeGrid.Put | MazeMaker/main.swift:89 | a single cell assignment changes that one cell and keeps the grid's shape and every other cell |
| MazeGrid.Maze.constructor | MazeMaker/main.swift:82-99 | after the border loop the grid is `InitialGrid(size)`: each cell holds the value written by the last iteration that writes it, and the frontier is `InitialFrontier(size)` |
| MazeGrid.BorderIteration | MazeMaker/main.swift:87-97 | one pass of the outer loop writes the four cells of running index i with the current pillar/passage value and seeds them into the frontier when i is even and not 0 or size-1 |
| MazeGrid.SeededCount | MazeMaker/main.swift:87-96 | after i passes the frontier holds four cells for every even index strictly between 0 and min(i, size-1) |
| MazeGrid.InitialGridPattern | MazeMaker/main.swift:84-97 | for odd sizes the border cell at running index i is `X` when i is even and `O` when i is odd, the four corners are `X`, and every interior cell is `B` |
| MazeGrid.InitialFrontierPillars | MazeMaker/main.swift:86-96 | a cell is in the initial frontier exactly when it is in the grid, is not a corner, and holds `X` |
| MazeGrid.InitialFrontierSize | MazeMaker/main.swift:86-96 | for size 2n-1 the initial frontier has 4(n-2) elements, and none when n <= 2 |
| Cells.OneStep | MazeMaker/main.swift:122 | `tryO` is a neighbour along exactly one axis |
| Cells.TwoSteps | MazeMaker/main.swift:123 | `tryX` lies on the same line as start, twice as far from start along d as `tryO` |
| MazeGrid.BorderState | MazeMaker/main.swift:89 | `isX ? .X : .O` is never blank, and is `X` exactly when `isX` holds |
| MazeGrid.BorderCells | MazeMaker/main.swift:88 | the four cells written at index i, in the loop's order; for 0 <= i < size they are all in the grid and on the border |
| Growth.CanExtend | MazeMaker/main.swift:124 | the test: the one-step and the two-step cells both exist and are `B` |
| Growth.Mark | MazeMaker/main.swift:117-131 | the returned coordinate and the grid after one try; the properties are proved by `Growth.MarkSpec` |
| Growth.FirstOpen | MazeMaker/main.swift:120-129 | the found index is the first from i whose direction has both its one-step and two-step cells in bounds and blank; none is found only when every direction fails |
| Growth.Extend | MazeMaker/main.swift:125-126 | after the two writes the one-step cell is `O`, the two-step cell is `X`, and the shape and every other cell are unchanged |
| Growth.NoneIffExhausted | MazeMaker/main.swift:120-130 | for a permutation of the directions, no direction passes exactly when every one of the four directions fails |
| Growth.ShuffledDirections | MazeMaker/main.swift:120 | `Direction.allDirections.shuffled()`, over the four directions listed at line 65: the order lists each of them exactly once |
| Growth.MarkSpec | MazeMaker/main.swift:117-131 | a try returns nothing exactly when all four directions fail, and then the grid is unchanged; otherwise it finds a direction d with every earlier direction failing and d's two cells in bounds and blank, returns start+2d, sets start+d to `O` and start+2d to `X`, and leaves the shape and every other cell unchanged |
| Growth.TryMarkingRandomDirection | MazeMaker/main.swift:117-131 | the returned coordinate and the new grid are those of `Mark` on the old grid; the assert at line 118 (start is `X`) is its precondition |
| Growth.ExtendGrows | MazeMaker/main.swift:122-126 | one extension overwrites only blank cells and keeps the grid's dimensions |
| Growth.ExtendPlaced | MazeMaker/main.swift:122-126 | pillars stay on even/even positions and passages on positions with exactly one odd index |
| Growth.ExtendLinked | MazeMaker/main.swift:122-126 | every passage still lies between two pillars, including the new one between start and start+2d |
| Growth.ExtendKeeps | MazeMaker/main.swift:108-110 | a successful pass keeps the loop invariant: only blanks overwritten since construction, every frontier member an `X`, every `X` outside the frontier unable to grow; and it uses up blanks |
| Growth.MarkKeeps | MazeMaker/main.swift:108-113 | either branch of a pass keeps the invariant; a success uses up blanks, a failure leaves the grid unchanged and drops the picked member |
| Growth.InitialInvariant | MazeMaker/main.swift:82-99 | the constructed grid and frontier satisfy the loop invariant, so every frontier member is `X` (the assert at line 118) from the start, and the corners, which are left out, cannot grow |
| Growth.PillarAt | MazeMaker/main.swift:103-115 | at termination every even/even cell holds a pillar, proved for each even y by induction along x from the border pillar at x = 0 |
| Growth.AllPillarsBuilt | MazeMaker/main.swift:103-115 | at termination a cell is `X` exactly when both of its indices are even |
| Growth.RootedInitial | MazeMaker/main.swift:84-97 | every pillar of the constructed grid lies on the border, so it has depth 0 |
| Growth.RootedExtend | MazeMaker/main.swift:122-127 | after a success the new pillar `start+2d` is joined over `start+d` to `start`, one level deeper, and every older pillar keeps its walk, because only blanks were overwritten |
| Growth.MarkRooted | MazeMaker/main.swift:117-131 | one try, successful or not, keeps every pillar joined to the border |
| Growth.WalkToBorder | MazeMaker/main.swift:102-115 | from any pillar the certificate yields a walk, pillar to pillar over passages, that ends on the border |
| Growth.FinishedMaze | MazeMaker/main.swift:106-108 | when the frontier is empty the grid is a finished maze, including that every pillar reaches the border |
| Growth.GenerateMaze | MazeMaker/main.swift:102-115 | the loop terminates, by fewer blanks or else a smaller frontier, and the returned grid is a finished (2n-1) x (2n-1) maze: the border is kept, pillars sit exactly at even/even positions, every passage joins two pillars, no pillar can grow, every pillar is joined by a walk over passages to the border, and any two pillars are joined by a walk (one component) |
| Growth.GeneratedBorder | MazeMaker/main.swift:86-97 | generation never changes the carved border |
| Growth.EdgeWalkY | MazeMaker/main.swift:86-97 | on the left or right edge of the carved border, the pillar at an even y walks along the edge to the pillar at y = 0 |
| Growth.EdgeWalkX | MazeMaker/main.swift:86-97 | on the top or bottom edge of the carved border, the pillar at an even x walks along the edge to the pillar at x = 0 |
| Growth.BorderToCorner | MazeMaker/main.swift:86-97 | every pillar of the carved border walks around the ring to the corner (0, 0) |
| Growth.ReachesCorner | MazeMaker/main.swift:102-115 | in a finished maze every pillar walks to the corner pillar (0, 0) |
| Growth.GeneratedConnected | MazeMaker/main.swift:102-115 | in a finished maze any two pillars are joined by a walk over passages |
| Growth.GeneratedOneComponent | MazeMaker/main.swift:102-115 | the pillars of a finished maze form a single connected component |
| Growth.SinglePillarMaze | MazeMaker/main.swift:102-115 | for n = 1 the result is `[[X]]` |
| Growth.RingMaze | MazeMaker/main.swift:102-115 | for n = 2 the frontier starts empty and the result is the bare 3 x 3 ring |
| LineArt.CellChar | MazeMaker/main.swift:147-168 | a cell is drawn as a space exactly when it is blank, and always as one of ` `, `-`, `\|`, `+` |
| LineArt.CellCharByNeighbours | MazeMaker/main.swift:152-168 | with neighbours N = y-1, S = y+1, E = x+1, W = x-1, a missing neighbour being unoccupied: `-` exactly when only N and S are occupied, `\|` exactly when only E and W are, `+` otherwise |
| LineArt.Render | MazeMaker/main.swift:144-171 | the drawn rows have the grid's shape, and the character at (x, y) is the one chosen for that cell |
| LineArt.RenderMirrored | MazeMaker/main.swift:144-171 | the drawing of the grid mirrored along its diagonal is the mirrored drawing, with `-` and `\|` swapped |
| LineArt.MirrorSwapsLines | MazeMaker/main.swift:152-168 | mirroring the grid along its diagonal swaps `-` and `\|` and keeps ` ` and `+` |
| LineArt.PassageCharacters | MazeMaker/main.swift:147-168 | in a grid laid out as generation keeps it, a passage with odd x is drawn `\|`, one with even x is drawn `-`, and odd/odd cells are drawn as spaces |

## Left out

- The output of `printMaze` and `printMazeLines`, the top-level call at line 200 and the commented-out loop at lines 194-198 are I/O. The model gives the character of each cell (`CellChar`) and the rows (`Render`) as values.
- `MazeState.description` is a fixed mapping to strings. Only `printMaze` (line 136) uses it, and that printing is left out.
- The entropy behind `randomElement()` and `shuffled()` is library randomness. Both are arbitrary choices here, constrained only by membership and by being a permutation.
- Swift's trapping `Int` arithmetic is not modelled. The model's integers are unbounded, so an overflow of `2 * n - 1` or of a coordinate is not represented.
- GenerateMaze: requires `n >= 1`. For `n <= 0` the size is negative and Swift traps when it makes the arrays.
- The constructor accepts any `size >= 0`, as the Swift code does. The lemmas about the border pattern and the frontier assume an odd size, which is all `generateMaze` uses. For even sizes three corners end as `O`. The write at index size-1 overwrites (0, size-1) and (size-1, 0) and writes (size-1, size-1) for the first time.
- Swift's `[[MazeState]]` is a value type. The model keeps it as a `seq` field of `Maze` that each write reassigns, so copy-on-write and storage sharing are not represented.
- GenerateMaze: its contract states no acyclicity or spanning-tree property. "passages = pillars - 1" does not hold for this code: the carved border is a closed ring, and for n = 3 the maze has 9 pillars and 9 passages. A weaker property does hold and is not proved: for n >= 2 there are as many passages as pillars, and the border ring is the only cycle, because a passage is only written next to a blank two-step cell. Stating it needs counts of passages and of cycles over the whole grid, which the loop invariant does not track. `IsGeneratedMaze` therefore admits some grids generation cannot produce, for example a 5 x 5 ring whose centre pillar is joined to two border pillars.
