# AoC2020 `Common` library — a Dafny model

This project models four parts of the shared `Common` library of an
Advent of Code solutions repository, and proves what each of them promises.

- **Grid search** (`PathFinding`). Flood fill, breadth-first search and
  uniform-cost search over a grid. The grid is abstract: a map from positions
  to non-negative entry weights, plus a neighbour function. The searches keep
  their queues, visited sets and predecessor and cost dictionaries as local
  state that changes step by step. They are modelled as methods with loops,
  proved against reachability, hop counts and route costs.
- **Circular list** (`CircularList`). A linked list with a cursor node that
  wraps around at both ends. It is a class holding the values as a sequence
  and the cursor as an optional index. Every operation states its new state,
  including the exceptions the C# code raises, which become `Fail` outcomes.
- **Integer maths** (`Maths`).
  - Euclid's gcd and the lcm, both with C#'s truncating division and
    remainder.
  - The lcm folded over a list.
  - Manhattan distance and the shoelace area of a closed polygon.
  - Detection of a repeating pattern in a sequence.
- **Sequence generator** (`Combinator`). `GetCombinations` builds every
  sequence over a list of elements, level by level, with lengths from 2 up to
  a bound. The `Generate` overloads filter its result by length, by distinct
  elements and by a hash-sum grouping.

`Wrappers` holds the `Option`, `Result` and `Outcome` types that the error
paths use.

Positions are `(int, int)` pairs. Grid cells are identified by their
position. A route is a sequence of positions in which each cell is a grid
neighbour of the one before it and satisfies the caller's constraint. The
start cell is never tested against the constraint. The C# searches return a
`Task` and keep their results in local variables. The model returns that
local state instead:
- the path as the C# code builds it, target first and start last;
- a flag saying whether the loop stopped at the target;
- the cells in the order they left the queue, as a ghost result.

## Model

| member | source | states |
|---|---|---|
| PathFinding.Unseen | Common/PathFinding.cs:46 | The neighbour filter keeps exactly the neighbours that are not queued, not yet visited and satisfy the constraint, with no repeats. |
| PathFinding.FloodFill | Common/PathFinding.cs:12-27 | Once the queue is empty, the visited set is exactly the start plus every cell reachable from it. The visiting order starts at the start and never visits a cell twice. |
| PathFinding.FloodStepShape | Common/PathFinding.cs:18-25 | One iteration keeps the queue free of repeats and disjoint from the visited cells, and grows the visited set. |
| PathFinding.FloodStepSound | Common/PathFinding.cs:20-25 | One iteration only ever queues or visits cells that are reachable from the start. |
| PathFinding.FloodStepClosed | Common/PathFinding.cs:20-25 | After one iteration, every step out of a visited cell still leads to a visited or queued cell. |
| PathFinding.ClosedHoldsReachable | Common/PathFinding.cs:18-26 | A set that holds the start and is closed under steps holds every reachable cell. This is why the finished flood fill misses nothing. |
| PathFinding.BackChainReachable | Common/PathFinding.cs:52-58 | A path read backwards from the start, one step at a time, proves that its first cell is reachable. |
| PathFinding.Reconstruct | Common/PathFinding.cs:52-58 | Following the recorded predecessors from the last dequeued cell ends at the start. The path begins at that cell, ends at the start, and each entry is followed by its recorded predecessor. The loop terminates because each predecessor has a smaller rank. |
| PathFinding.TryAddAll | Common/PathFinding.cs:47 | Each newly found neighbour gets the expanded cell as its predecessor. Entries already in the map keep their value. |
| PathFinding.BreadthFirstSearch | Common/PathFinding.cs:30-58 | The path ends at the start, holds the start nowhere else, and is made of steps. It begins at the target exactly when the target is reachable, and then no route to the target is shorter. When the start is the target, the path is that one cell. The dequeued cells start at the start, never repeat, and include the target at most as the last one. The path begins at the last dequeued cell. When the target is missed, the dequeued cells are exactly the reachable cells. |
| PathFinding.BfsExplore | Common/PathFinding.cs:33-50 | The search loop ends in one of two states. Either it stopped at the target, with the fewest hops to it, or it expanded every cell it discovered. Every predecessor link is a step from a cell one hop nearer the start. The loop's final `current` is the last dequeued cell; every earlier dequeued cell was expanded. |
| PathFinding.BfsStep | Common/PathFinding.cs:39-48 | One expansion keeps the loop invariant (bookkeeping, predecessor tree, queue order, closure) and expands a new cell. |
| PathFinding.BfsStepShape | Common/PathFinding.cs:46-48 | One expansion leaves no cell queued twice. The cells with a predecessor remain exactly those expanded or queued. |
| PathFinding.BfsStepTree | Common/PathFinding.cs:46-47 | Each cell found in one expansion gets the expanded cell as its predecessor, reached by a step and one hop further from the start. |
| PathFinding.BfsStepOrder | Common/PathFinding.cs:39-48 | The queue holds hop counts d and then d+1 in order, so cells leave the queue in non-decreasing hop count. |
| PathFinding.BfsStepClosed | Common/PathFinding.cs:46-48 | Every step out of an expanded cell leads to a discovered cell whose hop count is at most one more. |
| PathFinding.FrontierBound | Common/PathFinding.cs:39-48 | Any route that leaves the expanded cells is at least as long as the hop count of the queue's head. |
| PathFinding.BfsFound | Common/PathFinding.cs:43-44 | When the target is dequeued, its hop count is less than the length of every route to it. |
| PathFinding.TreeReachable | Common/PathFinding.cs:52-58 | Every key of a predecessor map whose links are steps toward a cell of lower rank is reachable from the start. |
| PathFinding.Exhausted | Common/PathFinding.cs:39-50 | When the loop runs out of cells, the expanded cells hold the start, every step out of them stays inside, and they are exactly the reachable cells. |
| PathFinding.DequeueNext | Common/PathFinding.cs:39-41 | Dequeuing a cell that was not yet expanded appends it to the dequeue order, which stays free of repeats and starts at the start; the new `current` is that cell. |
| PathFinding.BfsConclusion | Common/PathFinding.cs:52-58 | The path rebuilt from the final state consists of steps from the start, which it holds only as its last cell. It reaches the target exactly when the target is reachable, and then it is a shortest route. When the start is the target, the path is that one cell. |
| PathFinding.TryGetValue | Common/PathFinding.cs:88 | The lookup succeeds exactly for keys in the cost map and yields their cost. |
| PathFinding.RelaxCell | Common/PathFinding.cs:88-97 | A neighbour without a cost gets the dequeued priority plus its weight. It is enqueued at that cost plus the heuristic and records the expanded cell as its predecessor. |
| PathFinding.Relax | Common/PathFinding.cs:86-99 | After the `foreach`, every unvisited neighbour has exactly that cost, queue entry and predecessor. All other entries are untouched. |
| PathFinding.UcsFresh | Common/PathFinding.cs:86 | The unvisited neighbours of the dequeued cell have neither a cost nor a queue entry, and none is listed twice. So the cheaper-cost update and the `continue` are never taken. |
| PathFinding.LeastPriority | Common/PathFinding.cs:79 | A non-empty priority queue has an entry of least priority. Any such entry may be dequeued. |
| PathFinding.UcsStep | Common/PathFinding.cs:79-99 | One expansion keeps the loop invariant: bookkeeping, predecessor tree with costs, queue priorities and closure. With a zero heuristic it also keeps Dijkstra's ordering. |
| PathFinding.UcsStepCheapest | Common/PathFinding.cs:86-99 | With a zero heuristic, no expanded cell costs more than any queued priority. A step out of an expanded cell costs no less than the cell it reaches. |
| PathFinding.CheapestOrder | Common/PathFinding.cs:79-96 | With a zero heuristic, the dequeued cell and all earlier ones cost no more than any entry queued after the expansion. |
| PathFinding.UcsFound | Common/PathFinding.cs:83-84 | When the target has the least priority, its cost (with a zero heuristic) is no more than the total entry weight of any route to it. |
| PathFinding.CostInside | Common/PathFinding.cs:88-91 | Along a route whose earlier cells were all expanded, each cell's recorded cost is at most the route's weight up to it. |
| PathFinding.ChainCost | Common/PathFinding.cs:102-108 | Along a reconstructed path, the first cell's cost is the sum of the entry weights of every cell but the start. |
| PathFinding.UcsExplore | Common/PathFinding.cs:71-100 | The search loop ends in one of two states. Either it stopped at the target, and with a zero heuristic nothing beats its cost. Or it expanded every visited cell. Predecessor links are steps that record costs. The loop's final `current` is the last dequeued cell; every earlier dequeued cell was expanded. |
| PathFinding.UcsTurn | Common/PathFinding.cs:79-99 | One turn of the loop dequeues a cell of least priority. At the target it stops in the exit state and the dequeue order is complete. Otherwise it expands the cell, keeps the loop invariant and the dequeue order, and shrinks the set of unexpanded grid cells. |
| PathFinding.UcsExpand | Common/PathFinding.cs:86-99 | Expanding the dequeued cell of least priority keeps the loop invariant, gives the cell a predecessor, and shrinks the set of unexpanded grid cells. |
| PathFinding.UcsConclusion | Common/PathFinding.cs:102-108 | The rebuilt path consists of steps from the start, which it holds only as its last cell. It reaches the target exactly when the target is reachable. With a zero heuristic it then has least total entry weight. When the start is the target, the path is that one cell. |
| PathFinding.UniformCostSearch | Common/PathFinding.cs:68-108 | The path ends at the start, holds the start nowhere else, and is made of steps. It begins at the target exactly when the target is reachable. With a zero heuristic it is a cheapest route by entry weight. When the start is the target, the path is that one cell, whatever the heuristic. The dequeued cells start at the start, never repeat, and include the target at most as the last one. The path begins at the last dequeued cell. When the target is missed, the dequeued cells are exactly the reachable cells. |
| CircularList.StepRight | Common/CircularList.cs:50 | One step right from index c is (c + 1) mod count. |
| CircularList.StepLeft | Common/CircularList.cs:36 | One step left from index c is (c - 1) mod count. |
| CircularList.MoveRoundTrip | Common/CircularList.cs:31-52 | k steps right and then k steps left return to the starting index. |
| CircularList.AfterRemoval | Common/CircularList.cs:83 | After removing node k, the cursor goes to the successor (which takes index k). For the last node of a longer list it goes to the predecessor, at index k - 1. It is null exactly when the list becomes empty. |
| CircularList.RemoveAt | Common/CircularList.cs:84 | Removing node k keeps every other value, in order. |
| CircularList.IndexOf | Common/CircularList.cs:79 | `Find` yields the first node holding the value, or nothing exactly when the value is absent. |
| CircularList.RenderSingle | Common/CircularList.cs:134-135 | One value renders as its text followed by a comma. |
| CircularList.RenderConcat | Common/CircularList.cs:134-135 | Rendering two runs of values one after the other is rendering the first run, then the second. |
| CircularList.RenderFront | Common/CircularList.cs:134-135 | Read from the front, a rendering is the first value's text and a comma, then the rendering of the rest. |
| CircularList.RenderSeparators | Common/CircularList.cs:134-135 | When no value's text contains a comma, the rendering holds one comma per value. |
| CircularList.CircularList.constructor | Common/CircularList.cs:14-16 | A new list is empty with a null cursor. |
| CircularList.CircularList.Current | Common/CircularList.cs:22 | The value at the cursor. It throws exactly on an empty list. |
| CircularList.CircularList.At | Common/CircularList.cs:24 | `this[i]` is the i-th value in list order. Any other index throws. |
| CircularList.CircularList.GetIndex | Common/CircularList.cs:113 | The cursor's position, and -1 exactly for an empty list. |
| CircularList.CircularList.MoveLeft | Common/CircularList.cs:31-38 | A negative count throws and changes nothing. Otherwise the cursor moves from i to (i - n) mod Count and the values are unchanged. A move on an empty list throws. |
| CircularList.CircularList.MoveRight | Common/CircularList.cs:45-52 | A negative count throws and changes nothing. Otherwise the cursor moves from i to (i + n) mod Count and the values are unchanged. A move on an empty list throws. |
| CircularList.MoveRightThenLeft | Common/CircularList.cs:31-52 | MoveRight(k) followed by MoveLeft(k) restores the cursor and the values. |
| CircularList.CircularList.Insert | Common/CircularList.cs:60-62 | The value is placed right after (or before) the cursor and becomes the cursor. Removing it gives back the old list. On an empty list it throws. |
| CircularList.CircularList.Add | Common/CircularList.cs:69 | The value is appended and becomes the current value. |
| CircularList.CircularList.TryRemove | Common/CircularList.cs:77-86 | Reports whether the value was present, and changes nothing if it was not. Otherwise the first node holding it is removed and the cursor moves to its successor, else its predecessor. |
| CircularList.CircularList.RemoveCurrent | Common/CircularList.cs:92-97 | The cursor node is removed. The cursor moves to its successor, else its predecessor, else nowhere. On an empty list it throws. |
| CircularList.CircularList.ResetHead | Common/CircularList.cs:103 | The cursor goes to index 0, or Count - 1, and the values are unchanged. |
| CircularList.CircularList.SetHeadByIndex | Common/CircularList.cs:110 | An index in range becomes the cursor, so `GetIndex` gives it back and `Current` equals `this[idx]`. Any other index throws and leaves the cursor. |
| CircularList.CircularList.ToString | Common/CircularList.cs:134-135 | The text is the rendering of the values in list order: the first value's text and a comma, then the rest rendered the same way. A non-empty list's text ends in a comma. When no value's text holds a comma, there is one comma per value. |
| Maths.CsQuot | Common/Maths.cs:87 | C#'s truncating division: the quotient's magnitude is the quotient of the magnitudes. |
| Maths.CsRem | Common/Maths.cs:99 | C#'s remainder: dividend = divisor × quotient + remainder. The remainder is smaller than the divisor in magnitude and has the dividend's sign. |
| Maths.GreatestCommonDivisor | Common/Maths.cs:98-99 | The result divides both arguments. It is zero exactly when both are. It is non-negative for non-negative arguments. |
| Maths.GcdIsGreatest | Common/Maths.cs:98-99 | Every common divisor of the arguments divides the result. |
| Maths.GcdBezout | Common/Maths.cs:98-99 | The result is an integer combination a·s + b·t of the arguments. |
| Maths.LeastCommonMultiple | Common/Maths.cs:86-87 | The division by the gcd fails exactly when both arguments are zero. |
| Maths.LcmOfPositives | Common/Maths.cs:86-87 | For positive arguments: the result is a positive common multiple; lcm × gcd = a × b; and it divides every common multiple. |
| Maths.LcmDividesCommonMultiple | Common/Maths.cs:86-87 | For positive arguments the lcm divides every common multiple. |
| Maths.LeastCommonMultipleOf | Common/Maths.cs:74-75 | An empty list fails as `Aggregate` does. A one-element list yields its element. |
| Maths.LcmOfListOfPositives | Common/Maths.cs:74-75 | For positive inputs the fold yields a positive common multiple of every input, and it divides every other common multiple. |
| Maths.GetManhattanDistance | Common/Maths.cs:129-130 | Non-negative, and zero exactly for equal points. |
| Maths.ManhattanSymmetric | Common/Maths.cs:129-130 | The distance does not depend on argument order. |
| Maths.ManhattanTriangle | Common/Maths.cs:129-130 | The distance obeys the triangle inequality. |
| Maths.CalculateAreaShoeLace | Common/Maths.cs:11-21 | Succeeds exactly for a non-empty polygon whose first and last vertices agree. An empty list raises the `First()` error and an open polygon the argument error. |
| Maths.ReverseSwapsSums | Common/Maths.cs:17-18 | Reversing the vertex order swaps the two shoelace sums. |
| Maths.ShoeLaceReversal | Common/Maths.cs:11-21 | The area, or the error, does not change when the vertex order is reversed. |
| Maths.ShoeLaceUnitSquare | Common/Maths.cs:17-20 | The closed unit square has area 1. |
| Maths.RepetitionTestIsPeriodic | Common/Maths.cs:51-58 | The test "the sequence equals its first i elements repeated Count / i times" holds exactly when i divides Count and every element equals the one i places earlier. |
| Maths.PatternRebuildsSequence | Common/Maths.cs:51-58 | A periodic sequence is its leading block repeated. |
| Maths.FindPatternLength | Common/Maths.cs:47-65 | 0 means no block length up to Count/2 repeats. Otherwise the result is the least such length: at most Count/2, dividing Count, with the sequence periodic in it. |
| Maths.DetectPattern | Common/Maths.cs:30-45 | A cycle starts at the least index whose suffix repeats. Its pattern is the suffix's shortest repeating block, and repeating that block rebuilds the suffix. With no such index the result is (false, none, -1). |
| Combinator.ExpandAll | Common/Combinator.cs:82 | Each previous-level list is extended by the element, keeping order and count. |
| Combinator.InnerStep | Common/Combinator.cs:73-83 | One pass of the inner loop appends that element's level entries. On the first level these are singletons. On later levels they extend every list of the previous length. |
| Combinator.LevelSound | Common/Combinator.cs:71-85 | Every list produced at level k has length k and draws all its values from the elements. |
| Combinator.LevelComplete | Common/Combinator.cs:71-85 | Every length-k sequence over the elements is produced at level k. |
| Combinator.LevelSize | Common/Combinator.cs:71-85 | Level k holds nᵏ lists, for n elements. |
| Combinator.UptoMembers | Common/Combinator.cs:71-85 | Before the final filter, the result holds exactly the sequences over the elements with lengths 1 to cLength. |
| Combinator.GetCombinations | Common/Combinator.cs:67-87 | The nested loops and the final filter compute the level-by-level combinations. |
| Combinator.CombinationsMembers | Common/Combinator.cs:67-87 | The result holds exactly the sequences over the elements with lengths 2 to cLength. It is empty when cLength ≤ 1. |
| Combinator.CombinationsOfLength | Common/Combinator.cs:67-87 | For 2 ≤ k ≤ cLength the length-k part of the result is level k, with nᵏ entries. |
| Combinator.OfLengthMembers | Common/Combinator.cs:20-21 | The length filter keeps exactly the lists of that length. |
| Combinator.WithoutLengthMembers | Common/Combinator.cs:86 | The final filter keeps exactly the lists not of length 1. |
| Combinator.DistinctOnlyMembers | Common/Combinator.cs:24-25 | The uniqueness filter keeps exactly the lists with no repeated element. |
| Combinator.GenerateOfLength | Common/Combinator.cs:63-65 | Every returned list draws its values from the elements and has length cLength, or any length from 2 to cLength with the full-set flag. |
| Combinator.GenerateAll | Common/Combinator.cs:47-49 | The overload without a length is the length overload with cLength the element count, so every list it returns has that length (2 to Count for a full set) over the elements. |
| Combinator.GenerateOfLengthMembers | Common/Combinator.cs:63-65 | Without the full-set flag the result is exactly the sequences over the elements of length cLength (at least 2). With it, lengths 2 to cLength. |
| Combinator.GenerateAllMembers | Common/Combinator.cs:47-49 | The same, with cLength the element count. Without the full-set flag there are nⁿ lists. A single element gives nothing. |
| Combinator.OptionsLength | Common/Combinator.cs:14 | The length is the element count when no length is given or elements must be unique. Otherwise it is the given length. |
| Combinator.FilteredMembers | Common/Combinator.cs:14-25 | The length and uniqueness filters keep exactly the admitted lists: lengths 2 to cLength, exactly cLength unless full set, and distinct elements when unique. |
| Combinator.FirstPerHashSumKept | Common/Combinator.cs:30-33 | The grouping keeps only lists it was given, and only ones whose hash sum it had not met before. |
| Combinator.FirstPerHashSumUnique | Common/Combinator.cs:30-33 | No two kept lists share a hash sum. |
| Combinator.FirstPerHashSumCovers | Common/Combinator.cs:30-33 | Every hash sum of the input is represented by a kept list. |
| Combinator.GenerateWith | Common/Combinator.cs:10-36 | Every list `Generate(elements, options)` returns is admitted by the options: entries from the elements, length cLength (2 to cLength for a full set), and no repeated entry when elements must be unique. |
| Combinator.GenerateWithComplete | Common/Combinator.cs:10-36 | If the options keep order, every admitted list is returned. Otherwise every admitted list's hash sum is represented, and by one list only. |
| Combinator.DefaultOptionsGenerate | Common/Combinator.cs:91-112 | With the record's default options, `Generate(elements, options)` equals `Generate(elements)`. |

## Left out

- The `renderAction` callbacks and `Console.WriteLine` in `PathFinding.cs` are not modelled; they only display progress. The awaits at lines 49 and 98 have no null check, so a call without a callback would throw `NullReferenceException` there. The model treats the callback as absent.
- `Grid2d` is not part of this model. Its cell storage, neighbour rules and indexer are an abstract grid: a weight map plus a neighbour function whose neighbours are grid cells listed once.
  - The searches require the start to be a grid cell, where `grid[start]` would otherwise throw.
  - `grid[target]`, used only as the heuristic's argument, is passed as the target position. A target outside the grid would make `grid[target]` at `PathFinding.cs:96` throw on the first relaxation; the model does not treat that as an error, and the search simply does not find the target.
- `GetNeighbors` is taken to return a list built once. `PathFinding.cs` enumerates the neighbours twice, at lines 47 and 48: once to record predecessors, then to enqueue them. The model evaluates the filtered neighbours once and uses that value for both passes. A lazily re-filtered sequence would see the just-recorded cells as visited and enqueue nothing; that reading is not modelled.
- The BFS sentinel predecessor `Cell((0,0))` of the start is stored but never followed, as in the source; the reconstruction stops on the start.
- The order of equal priorities in .NET's `PriorityQueue` is not modelled: any entry of least priority may be dequeued, and every property holds for each choice.
- UniformCostSearch: cost optimality is stated only for a zero heuristic. The source adds the dequeued priority, heuristic included, into the costs, so with another heuristic the costs are not route weights.
- The `long`/`INumber<T>` arithmetic is modelled on unbounded integers. Overflow is not modelled.
- LeastCommonMultiple: the lcm properties are proved for positive arguments only. For arguments of mixed sign the gcd as written can be negative, which makes the result negative too; the model computes that value but states nothing about it.
- `IsPointInsidePolygon` is not modelled: it relies on GDI+ region tests.
- `HashToHexadecimal` is not modelled: it relies on MD5.
- The `Vector2`/`Vector3` Manhattan overloads are not modelled: they use floating point.
- The `INode` Manhattan overload is not modelled: it depends on an interface that is not part of this model.
- The circular list's nodes are identified by their index. The node array built by `ToNodeArray` becomes plain indexing.
- Node identity and aliasing are not modelled, and neither are the base `LinkedList<T>` members the class inherits but does not override (such as `AddFirst`, which does not move the cursor).
- `ToString` takes the value-to-text conversion as a parameter.
- Default arguments are not modelled; every call passes them explicitly. These are `n = 1` of `MoveLeft` and `MoveRight`, `after = true` of `Insert`, `toFirst = true` of `ResetHead`, `isFullSet = false` of the `Generate` overloads, and the null `renderAction` of the searches.
- `GetHashCode` is a parameter of the `Generate(elements, options)` model. The hash-sum grouping is stated in terms of it, not in terms of unordered equality, since different lists can share a sum.
- `CombinatorResult<T>` is not modelled: it only wraps the list for enumeration.
- `r.Expand(e)` is modelled as appending `e` to `r`.
- `SolutionTemplate`, `CellularAutomatonOptions` and the per-day tests are not part of this model: they contain no library logic.
