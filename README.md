# graphs_algo in Dafny

This project models two small families of algorithms from the Python
repository graphs_algo and proves what they compute.

1. **Maximum-sum windows.**
   - `best` (BestOnN.py, copied in BestCycle.py) is the linear scan for the contiguous window of largest sum. It returns the sum, the first index, the last index and the length of the window.
   - `bestCycle` (BestCycle.py) finds the same for a circular array. It combines `best(a)` with `sum(a) + best(-a)`.
   - `petrol_station` (PetrolStationBest.py) decides whether a car can drive once round a circuit of stations. If it can, it picks the start at the first station of the best circular window of `a - b`.
2. **Floyd-Warshall over square matrices.**
   - Boolean transitive closure (Floyd_Warshall_Boolean.py).
   - Shortest paths with an INF sentinel (Floyd_Warshall_Weights.py).
   - Path matrices built by joining the i→k and k→j paths.
   - Negative-cycle detection from the diagonal (Floyd_Warshall_Negative_Cycle.py).
   - Connected-component labelling and two connectivity tests.
   - The conversions between vertex weights and edge weights (VertexWeight2EdgeWeight.py, WeightsOnVerticesEdges.py).
   - The two-bottles puzzle (Bottles_Problem_Boolean_FW.py). Its states (i, j) are numbered (n+1)·i+j, and the boolean closure of its move matrix answers which states can be reached.

**Modules**

| module | file | contents |
|---|---|---|
| `MaxSubarray` | max_subarray.dfy | `best` as a method. It is proved against `IsBest`, a declarative description that fixes the result uniquely, tie-breaks included. |
| `CircularMaxSubarray` | best_cycle.dfy | `bestCycle`, proved against `IsCircularBest` |
| `PetrolStation` | petrol_station.dfy | `petrol_station`, proved against `CanComplete`: the tank never runs dry |
| `ExtInt` | dist.dfy | `Dist = Fin(int) \| Inf`, with INF absorbing addition |
| `Walks` | walks.dfy | walks as edge sequences, and their weights |
| `FloydWarshall` | fw_core.dfy | the in-place passes as pure functions on `seq<seq<Dist>>`, in exactly the cell order of the loops, with the path matrix alongside |
| `ShortestPaths` | fw_theory.dfy | what the passes compute: the least walk weights, negative-cycle detection, idempotence |
| `WeightedFloydWarshall` | fw_weights.dfy | the weighted procedures as methods on `array2<Dist>` |
| `BooleanFloydWarshall` | fw_boolean.dfy | the boolean procedures as methods on `array2<bool>`. A boolean matrix is the weighted one with true as 0 and false as INF. |
| `Components` | components.dfy | `connectComponentsOfGraph`, `isConnected` and `isConnectedComplexN`, generic over the cell test. The boolean module tests `bm[i][j]`; the weighted module tests `mat[i][j] != INF`. |
| `VertexWeights`, `VertexEdgeWeights` | vertex_weights.dfy, vertex_edge_weights.dfy | the weight conversions and what the halved matrix means |
| `Bottles` | bottles.dfy | the index arithmetic, the move matrix, and the path query |
| `Arith` | arith.dfy | Euclidean division facts |

**How the source's integers and lists are modelled**

- Python's `//` and `%` are applied only to positive divisors (2, `n + 1`, the array length). There they agree with Dafny's Euclidean `/` and `%`.
- Python lists that the source mutates in place become `array2`. Each method states its new contents as a pure function of the old contents, and the properties are proved about those functions.
- A path string such as `"0->1,1->2"` is a sequence of tokens: one token per edge, plus a separator token. The boolean and weighted files write "," between the two halves of a joined path; Bottles_Problem_Boolean_FW.py writes nothing. The separator is a parameter of the model.

**Duplicated code.** The Floyd-Warshall, path-matrix, component and connectivity functions are repeated almost verbatim in VertexWeight2EdgeWeight.py (lines 62-165) and WeightsOnVerticesEdges.py (lines 60-163), and partly in Floyd_Warshall_Negative_Cycle.py (lines 10-47). Each copy is modelled once, by the member cited for Floyd_Warshall_Weights.py. The copies differ only in how they spell the diagonal loop. The two conversions of WeightsOnVerticesEdges.py at lines 28-57 are the same formulas as VertexWeight2EdgeWeight.py lines 30-59, and `ToVertexWeights` and `ToEdgeWeights` model both.

## Model

| member | source | states |
|---|---|---|
| MaxSubarray.Best | BestOnN.py:12-46 | For a non-empty array the result r satisfies `IsBest`: 0 ≤ begin ≤ end < n, length = end − begin + 1, and sum = a[begin..end]. No non-empty window sums to more. Every window ending before `end` sums to strictly less, because `>` keeps the first record. `begin` is the earliest start from the first positive element whose window to `end` still reaches the maximum. The same code is BestCycle.py:11-58. |
| MaxSubarray.LeftmostMax | BestOnN.py:20-23 | The loop over j returns an index m holding the largest element, with every element before m strictly smaller: the leftmost maximum. |
| MaxSubarray.Scan | BestOnN.py:27-44 | Started at the first positive element, the running-sum loop ends with (sum_max, end_max + 1 − length, end_max, length) satisfying `IsBest`. |
| MaxSubarray.ScanDone | BestOnN.py:33-44 | When the loop invariant holds at i = n, the recorded window is a best window of the whole array, including the windows that start before the first positive element. |
| MaxSubarray.BestIsUnique | BestOnN.py:33-44 | Two results satisfying `IsBest` are equal, so Best's contract fixes the sum, both ends and the length. |
| MaxSubarray.NonPositiveBest | BestOnN.py:20-26 | When no element is positive, the leftmost largest element, as a window of length 1, is the result. |
| MaxSubarray.FirstPositive | BestOnN.py:16-18 | The first scan stops at the first positive element, or at n when there is none. Everything before it is ≤ 0. |
| MaxSubarray.PrefixDoesNotHelp | BestOnN.py:16-28 | A window that starts before the first positive element is no better than the same window started at it. A window ending before it sums to at most 0. |
| MaxSubarray.ScanStep | BestOnN.py:33-43 | One iteration of the main scan keeps the loop invariant in each branch: reset on a negative running sum, keep, or new record. |
| MaxSubarray.CheckBestSound | BestOnN.py:1-6 | A candidate that passes the brute-force comparison with every window satisfies `IsBest`. |
| MaxSubarray.BestExample1 | BestOnN.py:64 | [2,8,1,5,2] gives (18, 0, 4, 5), and nothing else. |
| MaxSubarray.BestExample2 | BestOnN.py:55 | [5,100,-150,5,20,100] gives (125, 3, 5, 3). |
| MaxSubarray.BestExample3 | BestOnN.py:56 | [1,10,-15,3,-10] gives (11, 0, 1, 2). |
| MaxSubarray.BestExample4 | BestOnN.py:63 | [-2,-8,-1,-5,-2] gives (-1, 2, 2, 1). |
| MaxSubarray.BestExample5 | BestOnN.py:71 | [-1,-2,-2,-1,-50] gives (-1, 0, 0, 1): the leftmost maximum. |
| MaxSubarray.BestExample6 | BestOnN.py:67 | [1,2,3,-50,2,4,-34,6] gives (6, 0, 2, 3): the tie keeps the earliest end. |
| MaxSubarray.BestExample7 | BestOnN.py:72 | [6,-50,1,2,3,-34,3,3] gives (6, 0, 0, 1). |
| CircularMaxSubarray.Negated | BestCycle.py:80-85 | `T_arr` has the same length as `a`, with T_arr[i] = −a[i]. |
| CircularMaxSubarray.SumNegated | BestCycle.py:83-87 | Every slice of `T_arr` sums to minus the same slice of `a`. |
| CircularMaxSubarray.CircSumAsSums | BestCycle.py:62-67 | A circular window is either a straight slice or a suffix followed by a prefix. |
| CircularMaxSubarray.StraightAsCircular | BestCycle.py:90-91 | The straight best window is a consistent circular window: end = (begin + length − 1) mod n. |
| CircularMaxSubarray.CircSumAllBelow | BestCycle.py:75-78 | When every element is below a negative bound, so is every circular window. This makes returning `best(a)` right when its sum is negative. |
| CircularMaxSubarray.CircularWindowBound | BestCycle.py:88-90 | Every circular window sums to at most `best(a).sum` or at most `sum(a) + best(-a).sum`. |
| CircularMaxSubarray.WrappedEnds | BestCycle.py:93 | The window that wraps around a[b..e] starts at (e+1) mod n, and its last element is (b−1) mod n. |
| CircularMaxSubarray.WrappedSum | BestCycle.py:88 | The window wrapping around best(−a)'s slice sums to sum(a) minus that slice, which is `sum_cyclic_best`. |
| CircularMaxSubarray.WrappedWindow | BestCycle.py:92-93 | When the wrapped candidate wins, the corrected decision returns exactly that circular window with that sum. |
| CircularMaxSubarray.Combine | BestCycle.py:75-93 | The decision of `bestCycle` once best(a) and best(−a) are known, with the wrapped window's ends corrected. It never returns less than a non-negative straight sum, never less than the wrapped sum sum(a) + best(−a).sum when the straight sum is non-negative, and a wrapped result has length n − best(−a).length. `CombineIsCircularBest` proves the result optimal over all circular windows. |
| CircularMaxSubarray.CombineAsWritten | BestCycle.py:88-93 | Line 93 as written: it reports the same sum and length as the corrected decision, and the same window whenever best(−a) has length 1. `CombineAsWrittenCounterexample` shows its ends can name a different window. |
| CircularMaxSubarray.CombineIsCircularBest | BestCycle.py:75-93 | The corrected decision returns a best circular window: its fields are consistent, and no circular window of 1..n elements sums to more. It is never below `best(a).sum`. |
| CircularMaxSubarray.NegativeStraightIsCircularBest | BestCycle.py:75-78 | When `best(a).sum` is negative, `best(a)` is already a best circular window. |
| CircularMaxSubarray.CandidateIsCircularBest | BestCycle.py:88-93 | When `best(a).sum` ≥ 0, the corrected choice between `best(a)` and the window wrapping around `best(-a)` is a best circular window. |
| CircularMaxSubarray.BestCycle | BestCycle.py:61-93 | The method's result is the corrected decision applied to `best(a)` and `best(-a)`. It is a best circular window, at least `best(a).sum`. |
| CircularMaxSubarray.CombineAsWrittenCounterexample | BestCycle.py:93 | On [5,-3,-3,5], line 93 as written returns (10, 2, 1, 2), but the circular window of length 2 at index 2 sums to 2. |
| CircularMaxSubarray.CombineOnCounterexample | BestCycle.py:93 | On the same array the corrected decision returns (10, 3, 0, 2), and that window sums to 10. |
| CircularMaxSubarray.CombineAsWrittenRecorded | BestCycle.py:106 | Line 93 as written reproduces the recorded (109, 5, 6, 8), although the 8 elements from index 5 sum to 77. The corrected decision gives (109, 8, 3, 8), which does sum to 109. |
| CircularMaxSubarray.CombineAsWrittenRecorded2 | BestCycle.py:108 | Line 93 as written reproduces the recorded (101, 5, 6, 7), although the 7 elements from index 5 sum to 69. The corrected decision gives (101, 8, 3, 7), which does sum to 101. |
| CircularMaxSubarray.BestCycleExample1 | BestCycle.py:102 | [2,0,-5,2] gives (4, 3, 1, 3). |
| CircularMaxSubarray.BestCycleExample2 | BestCycle.py:109 | [95,100,-150,5,20,100] gives (320, 3, 1, 5). |
| CircularMaxSubarray.BestCycleExample3 | BestCycle.py:107 | [10,2,-5,8,-100,3,150,-180,1,2,3,88] gives the whole recorded (162, 8, 6, 11). |
| CircularMaxSubarray.BestCycleExample4 | BestCycle.py:103 | [-2,0,5,-2] gives the recorded (5, 2, 2, 1). The straight window wins, 5 against the wrapped 3. The circular window of length 2 at index 1 also sums to 5, so only the tie-breaking of `best` fixes this answer. |
| CircularMaxSubarray.BestCycleExample5 | BestCycle.py:104 | [1,10,-15,3,-10] gives the recorded (11, 0, 1, 2). The straight and wrapped sums tie at 11, and the tie keeps the straight window. |
| PetrolStation.Balance | PetrolStationBest.py:39 | c[i] = a[i] − b[i], with the same length. |
| PetrolStation.SumBalance | PetrolStationBest.py:39-42 | sum(c) = sum(a) − sum(b). So the `sum_c < 0` branch cannot be taken after line 35. |
| PetrolStation.FullCircle | PetrolStationBest.py:5-8 | Going once round from any station collects sum(c). |
| PetrolStation.BelowBest | PetrolStationBest.py:46 | No circular window, from any start, sums to more than the best circular window. |
| PetrolStation.BestStartCompletes | PetrolStationBest.py:46-54 | When sum(c) ≥ 0, starting at the first station of the best circular window with an empty tank, the tank is never negative over the whole circuit. |
| PetrolStation.InsideBestWindow | PetrolStationBest.py:46-54 | Every proper prefix of the best circular window collects a non-negative amount; otherwise the rest of the window would beat it. |
| PetrolStation.PastBestWindow | PetrolStationBest.py:46-54 | With sum(c) ≥ 0, going past the end of the best window, still short of a full circle, also collects a non-negative amount. |
| PetrolStation.PickedStartCompletes | PetrolStationBest.py:46-54 | Once the two best windows are pinned down, the start the corrected combination picks completes the circuit. |
| PetrolStation.NoStartCompletes | PetrolStationBest.py:35-38 | When sum(c) < 0, no start completes the circuit. |
| PetrolStation.PetrolStation | PetrolStationBest.py:18-55 | The result is true iff the lists have the same length and sum(b) ≤ sum(a). When true, the start is the first station of the window that `bestCycle` returns for c = a − b: the corrected combination of the two best windows `best(c)` and `best(-c)`, returned as ghost outputs. The circuit completes from that station. With equal lengths and false, no station works. The checks at lines 43 and 47 never fire. |
| PetrolStation.AsWrittenStartStalls | PetrolStationBest.py:53-54 | With fuel [5,0,0,5] and legs [0,3,3,0], the start that BestCycle.py line 93 as written yields is station 2, which runs dry on its first leg. The corrected start, station 3, completes. |
| PetrolStation.PetrolExampleFeasible | PetrolStationBest.py:63-69 | [3,6,2,8] with [5,4,3,4]: feasible. The corrected combination of the two best windows of c picks 0-based station 1 (printed as station 2), and the circuit completes from it. `FeasibleExample` carries this over to the method's output. |
| PetrolStation.FeasibleExample | PetrolStationBest.py:57-69 | `petrol_station([3,6,2,8], [5,4,3,4])` returns true and reports 0-based station 1 (printed as station 2), from which the circuit completes. |
| PetrolStation.InfeasibleExample | PetrolStationBest.py:57-73 | `petrol_station([6,11,13,50], [8,10,12,100])` returns false. |
| PetrolStation.PetrolExampleInfeasible | PetrolStationBest.py:67-73 | [6,11,13,50] with [8,10,12,100]: too little fuel, and no start completes. |
| ExtInt.MinIsGlb | Floyd_Warshall_Weights.py:28 | `min(x, y)` is at most both arguments and is one of them, INF included. |
| ExtInt.AddMono | Floyd_Warshall_Weights.py:28 | Addition with INF absorbing is monotone in both arguments. |
| ExtInt.MinMono | Floyd_Warshall_Weights.py:28 | `min` is monotone in both arguments. |
| Walks.WeightConcat | Floyd_Warshall_Weights.py:53 | The weight of two joined walks is the sum of their weights. |
| Walks.WalkConcat | Floyd_Warshall_Weights.py:52-53 | A walk i→k joined to a walk k→j is a walk i→j, with its interior still below the pass bound. |
| FloydWarshall.UptoDecreases | Floyd_Warshall_Weights.py:24-28 | No in-place pass ever increases a cell. |
| FloydWarshall.RowPassDecreases | Floyd_Warshall_Weights.py:27-28 | The loop over j never increases a cell. |
| FloydWarshall.PassDecreases | Floyd_Warshall_Weights.py:26-28 | The loops over i and j in pass k never increase a cell. |
| FloydWarshall.UptoBelowLevel | Floyd_Warshall_Weights.py:25-28 | After k in-place passes every cell is at most the textbook level-k value. This holds even though the loops read cells already updated in the same pass. |
| FloydWarshall.RowPassDone | Floyd_Warshall_Weights.py:27-28 | During pass k, after j steps of row i, the cells before (i, j) are at most the level-(k+1) value, and all cells stay at most level k. |
| FloydWarshall.PassIsDone | Floyd_Warshall_Weights.py:26-28 | A matrix at most level k before pass k is at most level k + 1 in the rows the pass has finished. |
| FloydWarshall.ArcsRender | Floyd_Warshall_Weights.py:44 | Writing a walk as a path entry and reading its edges back gives the walk. |
| FloydWarshall.RenderConcat | Floyd_Warshall_Weights.py:53 | `pathMat[i][k] + "," + pathMat[k][j]` is the entry of the joined walk, and likewise without a separator. |
| FloydWarshall.RelaxPathOk | Floyd_Warshall_Weights.py:52-54 | One cell update keeps the invariant that every finite cell's entry is a walk of that weight and every INF cell's entry is empty. |
| FloydWarshall.JoinedPathOk | Floyd_Warshall_Weights.py:52-53 | Joining the entries (i, k) and (k, j) with the separator gives a walk i→j whose weight is the sum of the two cells. |
| FloydWarshall.PathRowPassOk | Floyd_Warshall_Weights.py:51-54 | The loop over j with path updates keeps the path invariant. |
| FloydWarshall.PathPassOk | Floyd_Warshall_Weights.py:50-54 | The loops over i and j with path updates keep the path invariant. |
| FloydWarshall.PathUptoOk | Floyd_Warshall_Weights.py:49-54 | All passes with path updates keep the path invariant. |
| FloydWarshall.InitialPathsOk | Floyd_Warshall_Weights.py:44 | The initial entries (`"i->j"` where finite, `""` where INF) satisfy the path invariant. |
| FloydWarshall.PathsCorrect | Floyd_Warshall_Weights.py:44-54 | After all passes, each entry is empty iff its cell is INF. Otherwise the entry is a walk i→j of the original matrix whose weight is the cell, written with the file's separator. |
| ShortestPaths.LevelWitness | Floyd_Warshall_Weights.py:16-28 | Every finite level-k value is the weight of a walk whose interior vertices are below k. |
| ShortestPaths.JoinAt | Floyd_Warshall_Weights.py:28 | Walks i→k and k→j with interior below k join into a walk i→j with interior below k + 1, whose weight is the sum. |
| ShortestPaths.LevelLowerBound | Floyd_Warshall_Weights.py:16-28 | With no negative diagonal at lower levels, no walk with interior below k is lighter than the level-k value. |
| ShortestPaths.LevelDecreases | Floyd_Warshall_Weights.py:25-28 | A higher level is never larger than a lower one. |
| ShortestPaths.RunRealized | Floyd_Warshall_Weights.py:24-28 | Every finite result cell is the weight of some walk from its row to its column. |
| ShortestPaths.RunBelowWalks | Floyd_Warshall_Weights.py:24-28 | With no negative closed walk, no walk i→j is lighter than the result cell. |
| ShortestPaths.RunIsShortest | Floyd_Warshall_Weights.py:16-28 | With no negative closed walk, each result cell is the least weight over walks i→j, and is INF iff every such walk uses a missing edge. |
| ShortestPaths.NegativeCycleDetected | Floyd_Warshall_Negative_Cycle.py:10-22 | After the passes some diagonal cell is negative iff the graph has a closed walk of negative weight. |
| ShortestPaths.RunTriangle | Floyd_Warshall_Weights.py:24-28 | With no negative closed walk, the result satisfies the triangle inequality through every vertex. |
| ShortestPaths.UptoFixed | Floyd_Warshall_Weights.py:25-28 | A matrix that satisfies the triangle inequality is left unchanged by the passes. |
| ShortestPaths.RowPassFixed | Floyd_Warshall_Weights.py:27-28 | On a matrix satisfying the triangle inequality, the loop over j changes nothing. |
| ShortestPaths.PassFixed | Floyd_Warshall_Weights.py:26-28 | On such a matrix a whole pass changes nothing. |
| ShortestPaths.RunIdempotent | Floyd_Warshall_Weights.py:24-28 | With no negative closed walk, running `buildFWWeightMatrix` twice equals running it once. |
| ShortestPaths.PotentialBound | Floyd_Warshall_Negative_Cycle.py:90-110 | A proof helper for the cycle-free fixtures `init4` and `init7`, not a model of a source line. Under vertex potentials π with non-negative reduced weights, a finite walk i→j weighs at least π[j] − π[i]. |
| ShortestPaths.PotentialNoNegativeCycle | Floyd_Warshall_Negative_Cycle.py:90-110 | A proof helper for the same fixtures, also used for `NonNegativeWeightsNoNegativeCycle` and `DoubledPotential`. A graph with such potentials has no negative closed walk. |
| WeightedFloydWarshall.BuildFWWeightMatrix | Floyd_Warshall_Weights.py:16-28 | The matrix afterwards is `Run` of the matrix before, and is square of the same size. The copies are VertexWeight2EdgeWeight.py:62-74, WeightsOnVerticesEdges.py:60-72 and Floyd_Warshall_Negative_Cycle.py:10-22. |
| WeightedFloydWarshall.ZeroDiagonal | Floyd_Warshall_Weights.py:38-42 | Every diagonal cell becomes 0, and nothing else changes. |
| WeightedFloydWarshall.RelaxCell | Floyd_Warshall_Weights.py:28 | The assignment `mat[i][j] = min(mat[i][j], mat[i][k] + mat[k][j])` leaves the array holding `Relax` of the matrix before. |
| WeightedFloydWarshall.RelaxRow | Floyd_Warshall_Weights.py:27-28 | The loop over j leaves the array holding `RowPass` of the matrix before. |
| WeightedFloydWarshall.RelaxRowWithPaths | Floyd_Warshall_Weights.py:50-54 | One row of pass k leaves the array holding `RowPass` of the matrix before, as `Run` does. The path matrix becomes `PathRowPass`: an entry changes only when both legs are finite and their sum is strictly smaller, and it becomes leg + "," + leg. |
| WeightedFloydWarshall.BuildPathMatrix | Floyd_Warshall_Weights.py:31-55 | The matrix afterwards is `Run` of the matrix with its diagonal zeroed. The path matrix is `Paths` of that matrix with "," separators. |
| WeightedFloydWarshall.PathMatrixCorrect | Floyd_Warshall_Weights.py:38-54 | After `buildPathMatrix` every diagonal cell is ≤ 0, and an entry is empty iff its cell is INF. Otherwise the entry is a walk whose weight, with the diagonal at 0, is the cell. |
| WeightedFloydWarshall.IsNegativeCycle | Floyd_Warshall_Negative_Cycle.py:50-55 | The result is true iff some diagonal cell is negative, and the matrix is only read. |
| WeightedFloydWarshall.DropLoopsWeight | Floyd_Warshall_Negative_Cycle.py:33-36 | Once the diagonal is zeroed, a walk weighs what it weighs without its self-loops. |
| WeightedFloydWarshall.DropLoopsWalk | Floyd_Warshall_Negative_Cycle.py:33-36 | Taking the self-loops out of a walk with another edge leaves a walk between the same ends. |
| WeightedFloydWarshall.NegativeCycleAfterPathMatrix | Floyd_Warshall_Negative_Cycle.py:25-55 | After `buildPathMatrix`, `isNegativeCycle` is true iff the graph has a negative closed walk that uses no self-loop. |
| WeightedFloydWarshall.NegativeCycleFixtures | Floyd_Warshall_Negative_Cycle.py:63-67 | `initInt` has the cycle 0→1→2→0 of weight −2, so after the passes some diagonal cell is negative. |
| WeightedFloydWarshall.CycleReported | Floyd_Warshall_Negative_Cycle.py:25-55 | A closed walk of negative weight without self-loops makes some diagonal cell negative after `buildPathMatrix`. |
| WeightedFloydWarshall.NegativeCycleInit8 | Floyd_Warshall_Negative_Cycle.py:119-123 | `init8` has the cycle 0→1→2→0 of weight −3, so after the passes some diagonal cell is negative. |
| WeightedFloydWarshall.NoNegativeCycleFixtures | Floyd_Warshall_Negative_Cycle.py:90-110 | `init4` and `init7` are reported free of negative cycles. |
| WeightedFloydWarshall.ConnectComponentsOfGraph | Floyd_Warshall_Weights.py:58-88 | The groups partition 0..n−1 into `count` non-empty ascending groups, and vertex 0 is first in group 0. On a symmetric, transitively closed matrix, two distinct vertices share a group iff their cell is not INF. |
| WeightedFloydWarshall.IsConnectedWeighted | Floyd_Warshall_Weights.py:91-106 | True iff no cell is INF. |
| WeightedFloydWarshall.IsConnectedComplexNWeighted | Floyd_Warshall_Weights.py:109-121 | True iff no cell of row 0 is INF. |
| Components.Spread | Floyd_Warshall_Weights.py:75-79 | The inner loop gives label `count` to every later unlabelled vertex linked to i, and leaves every other label as it was. |
| Components.Label | Floyd_Warshall_Weights.py:67-79 | Every vertex gets a label in 1..count, and every label is used. Vertex 0 gets label 1. On a closed matrix, two distinct vertices share a label iff they are linked. |
| Components.OpenerIsolated | Floyd_Warshall_Weights.py:71-74 | On a closed matrix, a vertex still unlabelled at its own row is linked to no labelled vertex. |
| Components.OpenStep | Floyd_Warshall_Weights.py:71-79 | The row of an unlabelled vertex opens a new label and keeps the labelling sound. |
| Components.JoinStep | Floyd_Warshall_Weights.py:75-79 | On a closed matrix, the row of a labelled vertex changes nothing. |
| Components.ReachedStep | Floyd_Warshall_Weights.py:70-79 | Being linked from a vertex below i + 1 means being linked from below i, or from i. |
| Components.Members | Floyd_Warshall_Weights.py:83-85 | The appended vertices with label c are exactly those with that label, in ascending order. |
| Components.Group | Floyd_Warshall_Weights.py:82-85 | Group c lists, in ascending order, the vertices labelled c + 1. |
| Components.GroupsPartition | Floyd_Warshall_Weights.py:82-88 | Grouping a labelling that uses every label in 1..count partitions the vertices, and vertex 0 opens group 0. |
| Components.GroupsOrdered | Floyd_Warshall_Weights.py:82-85 | Each group holds vertices below n, in strictly ascending order. |
| Components.GroupsDisjoint | Floyd_Warshall_Weights.py:82-85 | No vertex is appended to two groups. |
| Components.GroupsCover | Floyd_Warshall_Weights.py:82-85 | When every label in 1..count is used, no group is empty and every vertex lies in some group. |
| Components.GroupsLinks | Floyd_Warshall_Weights.py:66-88 | Grouping a sound labelling puts two distinct vertices together iff they are linked. |
| Components.ConnectComponents | Floyd_Warshall_Weights.py:58-88 | For any cell test: a partition into `count` ascending groups, with vertex 0 first. On a closed matrix, distinct vertices share a group iff they are linked. |
| Components.IsConnected | Floyd_Warshall_Weights.py:91-106 | On a square matrix (both loops run to `len(mat)`), the flag loop returns true iff every cell is linked. |
| Components.IsConnectedComplexN | Floyd_Warshall_Weights.py:109-121 | The flag loop returns true iff every cell of row 0 is linked. |
| Components.ComplexNAgrees | Floyd_Warshall_Weights.py:91-121 | `isConnected` implies `isConnectedComplexN`, and on a closed matrix the two agree. |
| BooleanFloydWarshall.BuildFWBooleanMatrix | Floyd_Warshall_Boolean.py:6-18 | The matrix afterwards is `Closure` of the matrix before. |
| BooleanFloydWarshall.BoolRelaxCell | Floyd_Warshall_Boolean.py:18 | The assignment `bm[i][j] = bm[i][j] or (bm[i][k] and bm[k][j])` keeps the array the boolean image of the weighted matrix after `Relax`. |
| BooleanFloydWarshall.BoolRelaxRow | Floyd_Warshall_Boolean.py:17-18 | The loop over j keeps the array the boolean image of the weighted matrix after `RowPass`. |
| BooleanFloydWarshall.RelaxEncoded | Floyd_Warshall_Boolean.py:18 | On a matrix encoding booleans (true as 0, false as INF), one `min` update sets the cell to the encoding of `bm[i][j] or (bm[i][k] and bm[k][j])` and leaves every other cell as it was. |
| BooleanFloydWarshall.RelaxPathEncoded | Floyd_Warshall_Boolean.py:42-44 | On such a matrix, the path entry (i, j) is rewritten to entry (i, k), separator, entry (k, j) exactly when the cell is false and both legs are true. |
| BooleanFloydWarshall.SetDiagonal | Floyd_Warshall_Boolean.py:29-32 | Every diagonal cell becomes true, and nothing else changes. |
| BooleanFloydWarshall.BoolRelaxRowWithPaths | Floyd_Warshall_Boolean.py:40-44 | One row of pass k updates cells and entries as the weighted passes do over the true-as-0 encoding. An entry is rewritten only when its cell flips to true. |
| BooleanFloydWarshall.BuildPathMatrix | Floyd_Warshall_Boolean.py:21-45 | The matrix afterwards is the closure of the matrix with a true diagonal, and the path matrix is `Paths` of it with "," separators. |
| BooleanFloydWarshall.BoolPathPasses | Bottles_Problem_Boolean_FW.py:74-93 | `FWAlgorithmBool` (and `FWBooleanForBottle`, lines 97-119): the matrix becomes its closure, with no diagonal change, and the path matrix is `Paths` with no separator. |
| BooleanFloydWarshall.ConnectComponentsBoolean | Floyd_Warshall_Boolean.py:48-78 | A partition into `count` ascending groups, with vertex 0 first. On a symmetric, transitively closed matrix, distinct vertices share a group iff `bm[v][w]`. |
| BooleanFloydWarshall.IsConnectedBoolean | Floyd_Warshall_Boolean.py:82-97 | True iff every cell is true. |
| BooleanFloydWarshall.IsConnectedComplexNBoolean | Floyd_Warshall_Boolean.py:99-111 | True iff every cell of row 0 is true. |
| BooleanFloydWarshall.EncodedWeight | Floyd_Warshall_Boolean.py:18 | Under the encoding, a walk weighs 0 if it uses only true cells and INF otherwise. |
| BooleanFloydWarshall.EncodedNoNegativeCycle | Floyd_Warshall_Boolean.py:18 | An encoded matrix has no negative closed walk, so the shortest-path results apply. |
| BooleanFloydWarshall.ClosureIsReachability | Floyd_Warshall_Boolean.py:6-18 | A cell ends true iff a non-empty walk of true cells leads from its row to its column. |
| BooleanFloydWarshall.ClosureKeepsTrue | Floyd_Warshall_Boolean.py:18 | A true cell never becomes false. |
| BooleanFloydWarshall.RunStaysEncoded | Floyd_Warshall_Boolean.py:14-18 | The weighted passes over an encoded matrix give the encoding of the boolean closure, cell by cell. |
| BooleanFloydWarshall.ClosureIdempotent | Floyd_Warshall_Boolean.py:14-18 | Applying `buildFWBooleanMatrix` twice gives the same matrix as applying it once. |
| BooleanFloydWarshall.BoolPathsCorrect | Floyd_Warshall_Boolean.py:34-44 | An entry is empty iff the closure cell is false. Otherwise it is a walk of true cells from its row to its column, written with the separator convention. |
| VertexWeights.VertexWeightArray2EdgeWeightMatrix | VertexWeight2EdgeWeight.py:11-27 | A fresh n×n matrix. The diagonal is 0, cell (i, j) with i ≠ j is vw[i] + vw[j] when `mat[i][j]`, and INF otherwise. |
| VertexWeights.ToVertexWeights | VertexWeight2EdgeWeight.py:30-43 | `edgeWeightMatrix2VertexWeightMatix`, also `edgeWeights2Vertex_EdgeWeights` at WeightsOnVerticesEdges.py:28-41: a square matrix of the same size in which a cell is INF iff the input cell is. `EdgeRoundTrip` and `VertexRoundTrip` relate it to `ToEdgeWeights`. |
| VertexWeights.ToEdgeWeights | VertexWeight2EdgeWeight.py:46-59 | `vertexWeightMatrix2edgeWeightMatrix`, also at WeightsOnVerticesEdges.py:44-57: a square matrix of the same size in which a cell is INF iff the input cell is. `EdgeWeightsAreEven` and `VertexRoundTrip` are its partners. |
| VertexWeights.EdgeWeightsAreEven | VertexWeight2EdgeWeight.py:46-59 | Every finite cell of `vertexWeightMatrix2edgeWeightMatrix`'s output is even once its end weights are added, so halving it back with `//` is exact. |
| VertexWeights.EdgeWeightsSymmetric | VertexWeight2EdgeWeight.py:20-21 | A symmetric boolean matrix gives a symmetric weight matrix. |
| VertexWeights.EdgeWeightsEven | VertexWeight2EdgeWeight.py:20-23 | Every finite cell e of the built matrix has e + vw[i] + vw[j] even. |
| VertexWeights.EdgeRoundTrip | VertexWeight2EdgeWeight.py:30-59 | Halving into vertex weights and doubling back turns a finite e into e when e + vw[i] + vw[j] is even, and into e − 1 when it is odd. INF stays INF. |
| VertexWeights.EdgeRoundTripExact | VertexWeight2EdgeWeight.py:30-59 | On a matrix whose finite cells are all even in that sense, the round trip gives the matrix back. |
| VertexWeights.VertexRoundTrip | VertexWeight2EdgeWeight.py:30-59 | Doubling a vertex-weight matrix and halving it back always gives it back. |
| VertexWeights.WalkParity | VertexWeight2EdgeWeight.py:62-74 | Over even cells, a finite walk's weight plus the weights of its two ends is even. |
| VertexWeights.RunKeepsEven | VertexWeight2EdgeWeight.py:62-74 | `buildFWWeightMatrix` keeps every finite cell even. |
| VertexWeights.StepFourIsStepTwo | VertexWeight2EdgeWeight.py:232-252 | In `checkFW`, step 4 gives back exactly the matrix of step 2. |
| VertexWeights.WalkWeightIsVertexSum | VertexWeight2EdgeWeight.py:11-27 | In the built matrix, a walk along edges weighs twice the vertex weights along it minus its two end weights. Any other walk weighs INF. |
| VertexWeights.EdgeWalkWeight | VertexWeight2EdgeWeight.py:11-27 | A walk along edges of `mat` weighs 2·(vertex weights along it) − vw[first] − vw[last]. |
| VertexWeights.NonEdgeWalkWeight | VertexWeight2EdgeWeight.py:11-27 | A walk that uses a missing edge weighs INF. |
| VertexWeights.CheapestVertexPath | VertexWeight2EdgeWeight.py:232-252 | With no negative closed walk, step 3's cell (i, j) is finite iff a walk along edges leads from i to j. Its value is the least sum of vertex weights along such a walk, and that least sum is attained. |
| VertexWeights.NonNegativeWeightsNoNegativeCycle | VertexWeight2EdgeWeight.py:11-27 | Non-negative vertex weights give a matrix with no negative closed walk. |
| VertexEdgeWeights.ToEdgesWeights | WeightsOnVerticesEdges.py:11-25 | `toEdgesWeights`: a square matrix of the same size in which a cell is INF iff the input cell is. `HalvedEdge` and `CheapestVertexEdgePath` state what its finite cells mean. |
| VertexEdgeWeights.ToEdgesWeightsEven | WeightsOnVerticesEdges.py:19-21 | Every finite cell of `toEdgesWeights` is even with its end weights added. |
| VertexEdgeWeights.HalvedEdge | WeightsOnVerticesEdges.py:11-41 | Halving `toEdgesWeights(vw, E)` gives exactly E[i][j] + vw[i] + vw[j] on finite cells, diagonal included, and INF elsewhere. |
| VertexEdgeWeights.DoubledWalkWeight | WeightsOnVerticesEdges.py:11-25 | In the doubled matrix a walk weighs 2·(its edge weights) + 2·(weights of the vertices it enters) + vw[first] − vw[last]. It is INF iff one of its edges is INF. |
| VertexEdgeWeights.CheapestVertexEdgePath | WeightsOnVerticesEdges.py:228-244 | With no negative closed walk, step 3's finite cell (i, j) is the cost of some walk i→j (edge weights plus the weights of every vertex visited, the start included), and no walk costs less. An INF cell has no finite walk. |
| VertexEdgeWeights.VertexEdgeStepFourIsStepTwo | WeightsOnVerticesEdges.py:228-244 | In `checkFW`, step 4 gives back exactly the matrix of step 2. |
| VertexEdgeWeights.DoubledPotential | WeightsOnVerticesEdges.py:11-25 | Potentials of the edge weights, doubled, are potentials of the doubled matrix when vertex weights are non-negative. So no negative closed walk appears. |
| Bottles.GetIndex | Bottles_Problem_Boolean_FW.py:54-62 | `get_index`: for j ≤ n, state (i, j) gets a number in the i-th block of n + 1 numbers. `IndexRoundTrip` shows `get_i` and `get_j` invert it. |
| Bottles.GetI | Bottles_Problem_Boolean_FW.py:65-66 | `get_i(k, n)` is the largest i with (n+1)·i ≤ k. |
| Bottles.GetJ | Bottles_Problem_Boolean_FW.py:69-70 | `get_j(k, n)` is at most n, and (n+1)·get_i(k, n) + get_j(k, n) = k. |
| Bottles.IndexRoundTrip | Bottles_Problem_Boolean_FW.py:54-70 | For j ≤ n, `get_i` and `get_j` recover i and j from `get_index(i, j, n)`. |
| Bottles.IndexInRange | Bottles_Problem_Boolean_FW.py:19-24 | A state inside the capacities has a number below (m+1)(n+1). |
| Bottles.StateInRange | Bottles_Problem_Boolean_FW.py:19-24 | Every number below (m+1)(n+1) is a state inside the capacities. Together with the two rows above, `get_index` is a bijection. |
| Bottles.MoveTargetsOf | Bottles_Problem_Boolean_FW.py:25-38 | The six moves from state (i, j) lead to (0, j), (m, j), (i, 0), (i, n), (max(0, i + j − n), min(n, i + j)) and (min(m, i + j), max(0, i + j − m)), in that order. |
| Bottles.MovesStayInside | Bottles_Problem_Boolean_FW.py:25-38 | All six moves from a state inside the capacities stay inside them, so no index is out of range. |
| Bottles.TargetsInRange | Bottles_Problem_Boolean_FW.py:24-38 | From a state numbered below (m+1)(n+1), every move leads to a number below it, so every assignment is in range. |
| Bottles.PoursConserve | Bottles_Problem_Boolean_FW.py:33-37 | Both pours keep the total amount of water. They stop when the source bottle is empty or the target bottle is full. |
| Bottles.TargetsOnBoundary | Bottles_Problem_Boolean_FW.py:25-38 | Every move ends with some bottle empty or full. |
| Bottles.MovesEndOnBoundary | Bottles_Problem_Boolean_FW.py:22-38 | The same holds for the state numbers set in each row. |
| Bottles.WriteMoves | Bottles_Problem_Boolean_FW.py:24-38 | The six assignments set exactly the six move cells of the row and change no other row. |
| Bottles.WriteState | Bottles_Problem_Boolean_FW.py:24-38 | One state's row, empty before, gets exactly its six move cells. Every other row is unchanged. |
| Bottles.WriteStates | Bottles_Problem_Boolean_FW.py:23-38 | The loop over j sets the rows of the states with i litres in the first bottle. All rows before them are kept, and the later rows stay false. |
| Bottles.InitBottlesMatrix | Bottles_Problem_Boolean_FW.py:18-50 | A fresh (m+1)(n+1) square matrix whose cell [a][b] is true iff one move leads from a to b. |
| Bottles.MoveOnBoundary | Bottles_Problem_Boolean_FW.py:25-38 | One move ends with some bottle empty or full. |
| Bottles.MoveIsArc | Bottles_Problem_Boolean_FW.py:25-38 | Each of the six moves from a state inside the capacities is a true cell of the matrix. |
| Bottles.MovesReach | Bottles_Problem_Boolean_FW.py:25-38 | A sequence of moves, each made from the state the previous one left, makes its last state reachable from its first. |
| Bottles.ReachableOnBoundary | Bottles_Problem_Boolean_FW.py:25-38 | Every state reachable by moves has a bottle empty or full. |
| Bottles.ReachedOnBoundary | Bottles_Problem_Boolean_FW.py:82-93 | After the passes, a true cell's column is a state with some bottle empty or full. |
| Bottles.ExistPath | Bottles_Problem_Boolean_FW.py:148-153 | The decision after the reordering: a yes needs both states inside the capacities. |
| Bottles.ExistPathCorrect | Bottles_Problem_Boolean_FW.py:148-153 | On the matrices the passes leave, the query on the states as given says yes iff `StateReachable`: both states are inside the capacities and the second is reachable from the first by one or more moves. The path is then a walk of moves between them, written without separators. |
| Bottles.ExistPathAsWritten | Bottles_Problem_Boolean_FW.py:122-153 | `isExistPath` as written: each pair is reordered so that the larger amount is in the first bottle before the lookup. `AsWrittenCorrect` states exactly when it answers yes, and `ReorderedQueryAnswers` shows a reachable target it misses. |
| Bottles.AsWrittenIgnoresOrder | Bottles_Problem_Boolean_FW.py:137-145 | `isExistPath` as written answers the same for a state and for the state with the two amounts swapped. |
| Bottles.AsWrittenCorrect | Bottles_Problem_Boolean_FW.py:137-153 | The query as written says yes iff the state with the larger amount of the first pair in the first bottle can reach the same reordering of the second pair. |
| Bottles.AsWrittenMisses | Bottles_Problem_Boolean_FW.py:137-153 | When the states as given are reachable but their reorderings are not, the query as written answers no. The query on the states as given and the unordered query answer yes. |
| Bottles.ExistPathUnordered | Bottles_Problem_Boolean_FW.py:122-153 | Whenever the query as written says yes, the unordered query gives the same answer. Any yes it gives is the answer for one placement of the amounts. |
| Bottles.UnorderedYes | Bottles_Problem_Boolean_FW.py:122-153 | The unordered query says yes iff one of the four placements does. |
| Bottles.PlacementCorrect | Bottles_Problem_Boolean_FW.py:148-153 | For one placement, yes iff the placed states are inside the capacities and reachable. |
| Bottles.ExistPathUnorderedCorrect | Bottles_Problem_Boolean_FW.py:122-153 | After the passes the unordered query says yes iff some placement of each pair's amounts gives states inside the capacities, the second reachable from the first. Its path is then a move sequence written without separators. |
| Bottles.FourLitres | Bottles_Problem_Boolean_FW.py:175-199 | With bottles of 5 and 3 litres, four litres in the larger bottle and none in the smaller are reachable from two empty bottles. This is the state the driver's query `isExistPath(0, 0, 0, 4, …)` at line 194 looks up after its reordering. |
| Bottles.ReorderedQueryCounterexample | Bottles_Problem_Boolean_FW.py:137-153 | With m = 4, n = 3, (1, 3) is reachable from (0, 0), but (3, 1), the state the reordering looks up, is not: neither bottle is empty or full there. |
| Bottles.ReorderedQueryAnswers | Bottles_Problem_Boolean_FW.py:137-153 | With m = 4, n = 3, after the passes, the query (0, 0) → (1, 3) as written answers no. The query on the states as given and the unordered query both answer yes. |

## Left out

- Console output: every `print`, the `printMatrix` and `print_boolean_bottles_matrix` helpers, the debug prints inside `buildPathMatrix` and `FWBooleanForBottle`, and the drivers (`test_correctness`, `check*`, `checkPetrolStation`, the `__main__` blocks). The drivers' fixtures appear only as concrete lemmas.
- `isExistPath` prints its answer. It is modelled as a function returning `No` or `Yes(path)`.
- Define_Infinity.py is not part of this model. It is a tour of float, NumPy and Decimal infinities, with no algorithm.
- `math.inf` is a float. The model uses the constructor `Inf`, which absorbs addition and lies above every integer. The dead assignment `INF = 99999` (Floyd_Warshall_Weights.py:9) is overwritten at line 13 and is not modelled.
- Randomness: `createList` and the `random.randint` vertex choices in the drivers.
- Path text: `str(i) + "->" + str(j)` and the "(a,b)->(c,d)" labels of `FWBooleanForBottle` are modelled as edge tokens. Without a separator, the concatenated text of the bottles file can be ambiguous to read back; the model keeps the edges, not the characters.
- The import path `Lesson7.best.BestCycle` (PetrolStationBest.py:15) is taken to be BestCycle.py.
- The commented-out second construction of the bottles matrix (Bottles_Problem_Boolean_FW.py:40-49).
- The 6×6 sample output for m = 1, n = 2 in the module docstring (Bottles_Problem_Boolean_FW.py:4-14) is not checked cell by cell. `MoveTargetsOf` states the six moves of every state in general.
- Bottles.ExistPath: the amounts are `nat`, so negative arguments to `isExistPath` are not modelled.
- MaxSubarray.Best / CircularMaxSubarray.BestCycle: `best([])` raises IndexError at BestOnN.py:14, where it reads `a[0]`, and `bestCycle([])` raises through it at BestCycle.py:75. The model requires a non-empty list and does not model the exception.
- PetrolStation.PetrolStation: the source crashes on two empty lists (`best` reads `a[0]`). The model requires non-empty lists when the lengths agree.
- PetrolStation.PetrolStation uses the corrected `bestCycle` decision (see Findings). `AsWrittenStartStalls` shows what line 93 as written does to the start station.
- CircularMaxSubarray.BestCycle: `best(-a)` is only needed when `best(a).sum ≥ 0`. The method's ghost outputs say so, and the source's early return is kept.
- VertexWeights.CheapestVertexPath and VertexEdgeWeights.CheapestVertexEdgePath assume no negative closed walk, as the Floyd-Warshall results do. `NonNegativeWeightsNoNegativeCycle` and `DoubledPotential` give sufficient conditions.
- Mutable default arguments of the drivers (e.g. Floyd_Warshall_Weights.py:176) are not modelled.

## Findings

| source | as written | input that shows it | evidently intended | confidence | as-written member | corrected member |
|---|---|---|---|---|---|---|
| BestCycle.py:93 | The wrapped window is reported as begin = (b′+1) mod n and end = (e′−1) mod n, where b′ and e′ are the begin and end of `best(-a)`. | [5,-3,-3,5]: the result is (10, 2, 1, 2), but the window of length 2 at index 2 sums to 2. The recorded (109, 5, 6, 8) at BestCycle.py:106 shows the same, and so does (101, 5, 6, 7) at BestCycle.py:108: that window sums to 69, and the corrected answer is (101, 8, 3, 7). | The window after `best(-a)`: begin = (e′+1) mod n, end = (b′−1) mod n. | not executed; high (proved in the model) | CircularMaxSubarray.CombineAsWrittenCounterexample | CircularMaxSubarray.CombineIsCircularBest |
| Bottles_Problem_Boolean_FW.py:137-145 | Each pair is reordered so that the larger amount goes into the first (larger) bottle before the lookup. | m = 4, n = 3, from (0, 0) to (1, 3): the query becomes (3, 1), which is unreachable, so it answers "NO". Yet (1, 3) is reachable by filling the first bottle and pouring it into the second. | The docstring treats each pair as the contents of "one of" the bottles and the other. The answer is yes when some placement of the amounts is reachable. | not executed; medium (intent read from the docstring) | Bottles.ReorderedQueryAnswers | Bottles.ExistPathUnorderedCorrect |
