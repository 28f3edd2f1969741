# Connect Four engine and Bacon-number search, modelled in Dafny

The repository holds two independent programs, and both are modelled here.

**Connect Four** (`src/ConnectFourBoard.java`):
- the 7 × 6 board stored as a flat `int[42]` (cell `(x, y)` at `y*7+x`, row 0 at the top);
- dropping and removing pieces under gravity;
- the win/tie detector;
- the additive pattern score (5, 10 and 1000 points for runs of two, three and four);
- move enumeration by probing every column;
- depth-limited minimax with fail-hard alpha-beta pruning. It mutates the board and undoes each move, and leaves its recommended column in `nextCPUMove`.

**The Bacon game** (`src/Graph.java`, `src/BFSHandler.java`):
- an undirected adjacency map of sets, grown with `add` and `connect`;
- loading from the lines of a text file in which `<a>` lines name actors;
- a breadth-first search that fills a predecessor map and a `byte`-valued distance map;
- the queries `hasPathTo`, `pathTo` and `distanceTo` answered from those maps.

Files:

- `wrappers.dfy`: the `Option` type (`None` also stands for Java's `null`).
- `grid.dfy` (module `Grid`): the board as a `seq<int>` of 42 cells.
  - `Piece` is the bounds-checked read.
  - `Drop` and `Remove` are gravity insertion and removal.
  - `WellFormed` holds when cells are valid and the stacks are settled.
  - `Occupied` counts the pieces.
  - The lemmas prove that drop and remove are inverses and keep the board well formed.
- `evaluation.dfy` (module `Evaluation`): `FirstFour` and `Status` give the detector's result, and `Points`, `Score` and `Evaluate` give the heuristic. The lemmas state what each result means, and the colour-swap lemmas show that exchanging the players negates the evaluation and exchanges the winner.
- `search.dfy` (module `Search`): the game tree of a position (`SearchTree`), unpruned `Minimax`, and the pruned `AlphaBeta` on trees. `SearchGrid`/`SearchMoves` is the pruned search written the way `minMax` recurses over the board.
  - Lemmas prove that the pruned search equals minimax inside the window.
  - At the root window it equals minimax exactly.
  - The recommended column is the first column whose subtree reaches that value.
- `connect_four.dfy` (module `ConnectFour`): class `ConnectFourBoard`, with the `board` array updated in place and the fields `totalMoves`, `previousPlayer` and `nextCPUMove`. Each method is proved against the functions above, applied to `board[..]`.
  - `ProbeMove` is the body of `minMax`'s move loop (drop, recurse, remove).
  - `DirectionPoints` is one line of `getScore`'s pattern test.
  - Both are split out so that each proof stays small.
- `graph.dfy` (module `Graphs`): class `Graph` holds the adjacency map as a `map<string, set<string>>` field, with `Add`, `Connect` and `GetEdges`.
  - `AddNode` and `Link` are the map updates they perform.
  - `Symmetric` is the invariant that `Add` and `Connect` keep.
  - `LoadLines` is the loading loop's result after n lines; `ReadLine` is one pass of that loop, and `FromLines` is the loop.
- `bfs.dfy` (module `Bfs`): the `Byte` newtype and Java's narrowing `(byte)` conversion.
  - Walks, reachability and the loop invariants of the search.
  - `BreadthFirst` is the constructor's queue loop, and `ExploreNeighbours` is its inner loop over a neighbour set.
  - class `BfsHandler` holds the maps and answers the queries.
  - `CreateAsWritten` and `Create` model the constructor's guard as written and as intended (see Findings).

The BFS state keeps a ghost map of the exact, unbounded distances beside the real `byte` map. `Stores` ties the two together: every stored value is the narrowed exact distance. This makes the `(byte)` wrap of `distanceMap.get(current) + 1` explicit.

`HashSet` iteration order is unspecified. The inner loop therefore picks the next neighbour with `:|`, so every proved property holds for any order.

## Model

| member | source | states |
|---|---|---|
| Grid.Index | src/ConnectFourBoard.java:25 | the flat index `y*7+x` of an in-grid cell is below 42 |
| Grid.IndexInjective | src/ConnectFourBoard.java:25 | distinct in-grid cells have distinct flat indices |
| Grid.PieceAfterWrite | src/ConnectFourBoard.java:37 | writing one cell changes what `getPiece` reads at that cell only |
| Grid.Piece | src/ConnectFourBoard.java:24-26 | definition without a contract: `getPiece`, -1 outside the 7×6 grid and `board[y*7+x]` inside it; stated by Grid.PieceMeaning |
| Grid.PieceMeaning | src/ConnectFourBoard.java:24-26 | `getPiece` is -1 exactly outside the 7×6 grid; inside it is `board[y*7+x]` and a valid cell value |
| Grid.LowestEmptyFrom | src/ConnectFourBoard.java:35-36 | the upward scan finds an empty cell with every cell below it (down to the scan start) occupied, or reports that the scanned cells are all occupied |
| Grid.Drop | src/ConnectFourBoard.java:34-43 | a drop into a column without room leaves the board as it was; otherwise the player's piece is at the lowest empty cell of the column (the other cells are kept, by Grid.PieceAfterWrite) |
| Grid.TopmostFrom | src/ConnectFourBoard.java:50-51 | the downward scan finds an occupied cell with every cell above it empty, or reports that the scanned cells are all empty |
| Grid.Remove | src/ConnectFourBoard.java:49-58 | a removal from an empty column leaves the board as it was; otherwise the column's topmost piece is cleared (the other cells are kept, by Grid.PieceAfterWrite) |
| Grid.OccupiedUpdate | src/ConnectFourBoard.java:37-38 | writing a cell changes the piece count by exactly the emptiness change of that cell |
| Grid.OccupiedFull | src/ConnectFourBoard.java:91 | the piece count equals the board size exactly when no cell is empty |
| Grid.EmptyGridOccupiedNone | src/ConnectFourBoard.java:13-16 | an all-empty board has no pieces, so a new board's move counter (0) is right |
| Grid.SettledBelow | src/ConnectFourBoard.java:34-43 | on a settled board every cell below an occupied cell is occupied |
| Grid.LandsOnStack | src/ConnectFourBoard.java:35-37 | a dropped piece lands on an empty cell with only empty cells above it, directly on the column's stack |
| Grid.HasRoomIffTopEmpty | src/ConnectFourBoard.java:34-42 | on a well-formed board a drop succeeds exactly when the column is in range and its top cell is empty |
| Grid.DropKeepsWellFormed | src/ConnectFourBoard.java:34-43 | a drop keeps valid cells and gravity, and adds one piece exactly when the column had room |
| Grid.RemoveKeepsWellFormed | src/ConnectFourBoard.java:49-58 | a removal keeps valid cells and gravity, and takes one piece away exactly when the column had one |
| Grid.RemoveUndoesDrop | src/ConnectFourBoard.java:34-58 | removing from a column right after a successful drop there restores the board exactly |
| Grid.DropUndoesRemove | src/ConnectFourBoard.java:34-58 | dropping the removed piece back restores the board exactly |
| Evaluation.FirstFour | src/ConnectFourBoard.java:79-90 | definition without a contract: the owner of the first four met scanning rows top to bottom and each row left to right, 0 when there is none; stated by Evaluation.FirstFourMeaning |
| Evaluation.FirstFourMeaning | src/ConnectFourBoard.java:79-90 | the scan returns player p only if some cell at or after the scan position holding p starts four in a row along (1,0), (0,1), (-1,1) or (1,1), and returns 0 only if no such cell starts one |
| Evaluation.Status | src/ConnectFourBoard.java:78-92 | `checkWin` never answers "not over" (0) when the counter says 42 moves; its full meaning is stated by Evaluation.StatusWithoutFour and Evaluation.StatusMeaning |
| Evaluation.StatusWithoutFour | src/ConnectFourBoard.java:78-92 | `checkWin` is 0 exactly when there is no four and the counter is not 42; a four is reported with its owner before any tie; without a four, -1 exactly when the counter is 42 |
| Evaluation.StatusMeaning | src/ConnectFourBoard.java:74-92 | on valid cells: a player is returned iff some four exists, and that player owns a four; -1 iff no four and 42 moves; 0 iff no four and fewer moves |
| Evaluation.Points | src/ConnectFourBoard.java:111-122 | definition without a contract: the points one origin earns along one direction, 5 for a run of two, 10 more for three and 1000 more for four; stated by Evaluation.PointsValues and Evaluation.FourIsWorth |
| Evaluation.PointsValues | src/ConnectFourBoard.java:111-122 | one origin earns points along one direction exactly when a run of two starts there, and then 5, 15 or 1015 as the run reaches two, three or four |
| Evaluation.CellScore | src/ConnectFourBoard.java:107-124 | one cell's pattern score is at most 4 × 1015 |
| Evaluation.ScoreFrom | src/ConnectFourBoard.java:105-126 | the score over the remaining cells is at most 4060 per remaining cell |
| Evaluation.Score | src/ConnectFourBoard.java:103-128 | `getScore` is at most 170520 (42 cells × 4060), far inside the int range |
| Evaluation.Evaluate | src/ConnectFourBoard.java:94-96 | `evaluateScore` lies in [-170520, 170520], so the subtraction cannot overflow a Java int |
| Evaluation.FourIsWorth | src/ConnectFourBoard.java:111-122 | the origin of a four along a direction earns 5 + 10 + 1000 = 1015 points for it |
| Evaluation.ScoreFromCoversCell | src/ConnectFourBoard.java:105-126 | the running score over the remaining cells includes every remaining cell's own score |
| Evaluation.FourScoresHigh | src/ConnectFourBoard.java:103-128 | a player who owns a four scores at least 1015 |
| Evaluation.ScoreFromEmpty | src/ConnectFourBoard.java:105-126 | on an empty board the running score is 0 |
| Evaluation.NoFourWithoutPieces | src/ConnectFourBoard.java:79-90 | an empty board has no four in a row |
| Evaluation.NoPiecesEvaluatesToZero | src/ConnectFourBoard.java:94-128 | on an empty board both scores and the evaluation are 0 and the status is "not over" |
| Evaluation.Opponent | src/ConnectFourBoard.java:5-6 | the other colour of HUMAN (1) is CPU (2) and the other way round; 0 and -1 are kept |
| Evaluation.SwapColours | src/ConnectFourBoard.java:94-96 | the board with the colours exchanged, cell by cell; it has the same 42 cells |
| Evaluation.PieceSwapped | src/ConnectFourBoard.java:24-26 | every read of the swapped board, off-grid reads included, is the other colour of the same read |
| Evaluation.RunSwapped | src/ConnectFourBoard.java:111-122 | the same runs start at the same cells on the swapped board |
| Evaluation.PointsSwapped | src/ConnectFourBoard.java:111-122 | each origin and direction earns the same points on the swapped board |
| Evaluation.CellScoreSwapped | src/ConnectFourBoard.java:107-124 | a cell scores for p on the swapped board what it scores for p's opponent on the board |
| Evaluation.ScoreFromSwapped | src/ConnectFourBoard.java:105-126 | the running score of p on the swapped board is the running score of p's opponent on the board |
| Evaluation.EvaluateAntisymmetric | src/ConnectFourBoard.java:94-96 | the evaluation is antisymmetric: exchanging the colours exchanges the two scores and negates `evaluateScore` |
| Evaluation.FirstFourSwapped | src/ConnectFourBoard.java:79-90 | the scan on the swapped board answers the other colour of the scan on the board |
| Evaluation.StatusSwapped | src/ConnectFourBoard.java:78-92 | exchanging the colours exchanges the winner reported by `checkWin` and keeps "tie" and "not over" |
| Search.LegalBelow | src/ConnectFourBoard.java:134-142 | the columns found among the first c are strictly ascending and are exactly those below c with room |
| Search.LegalMoves | src/ConnectFourBoard.java:134-142 | `getPossibleMoves` lists, in strictly ascending order, exactly the columns 0..6 that accept a drop |
| Search.LegalMovesAreOpenColumns | src/ConnectFourBoard.java:130-142 | the possible moves are ascending and are exactly the columns whose top cell is empty |
| Search.NonTerminalHasMove | src/ConnectFourBoard.java:168-172 | when the game is not over there is a legal move, so `possibleMoves.get(0)` is defined |
| Search.Minimax | src/ConnectFourBoard.java:144-161 | definition without a contract: a leaf's value is its score, a node's the best of its subtrees for the side to move; what it computes is stated by Search.BestOfIsExtreme and Search.MinimaxBounded |
| Search.SearchTree | src/ConnectFourBoard.java:165-205 | the game tree is a leaf exactly at depth 0 or a finished game; a node's moves are the legal moves, with one child per move; leaf scores are bounded |
| Search.SearchTreeChild | src/ConnectFourBoard.java:174-178 | helper: unfolds Search.SearchTree by one level (the k-th child is the tree after the drop into the k-th legal column); it states no property of its own |
| Search.BestOfIsExtreme | src/ConnectFourBoard.java:144-161 | the unpruned best of the remaining children is attained by one of them and bounds all of them |
| Search.MinimaxBounded | src/ConnectFourBoard.java:144-161 | the minimax value lies within the evaluation bounds |
| Search.BestOfBounded | src/ConnectFourBoard.java:144-161 | the best of the remaining children lies within the evaluation bounds |
| Search.FirstBest | src/ConnectFourBoard.java:180-183 | the index found is the first child that attains the best value |
| Search.AlphaBeta | src/ConnectFourBoard.java:165-205 | definition without a contract: fail-hard alpha-beta on a tree, answering a leaf's score with no move and a node by its move loop with the first move as fallback; stated against minimax by Search.AlphaBetaAgreesWithMinimax |
| Search.SearchBranches | src/ConnectFourBoard.java:173-204 | definition without a contract: the move loop on trees, tightening the window on strict improvement and stopping when beta <= alpha; stated by Search.SearchBranchesWithinWindow, Search.SearchBranchesAgreesWithBestOf and Search.SearchBranchesFindsFirstBest |
| Search.SearchBranchesStep | src/ConnectFourBoard.java:174-201 | helper: unfolds one iteration of Search.SearchBranches; it states no property of its own |
| Search.SearchBranchesWithinWindow | src/ConnectFourBoard.java:173-204 | the loop returns at least alpha when maximizing and at most beta when minimizing, and its move is the initial best move or one of the moves looked at |
| Search.AlphaBetaAgreesWithMinimax | src/ConnectFourBoard.java:150-151 | fail-hard pruning is exact inside the window (alpha, beta), and at or beyond the window's edges it stays beyond them, on the same side as minimax |
| Search.SearchBranchesAgreesWithBestOf | src/ConnectFourBoard.java:173-204 | the pruned loop over the remaining children returns the window-clamped unpruned best |
| Search.SearchBranchesFindsFirstBest | src/ConnectFourBoard.java:173-189 | with beta = Integer.MAX_VALUE the maximizing loop returns max(alpha, best), and records the first child that reaches it when it improves on alpha |
| Search.SearchGrid | src/ConnectFourBoard.java:165-172 | definition without a contract: `minMax` on a board value, the static evaluation at depth 0 or in a finished game and the move loop over the legal columns otherwise; stated by Search.SearchGridIsAlphaBeta and Search.SearchGridOutcome |
| Search.SearchMoves | src/ConnectFourBoard.java:171-204 | definition without a contract: `minMax`'s move loop on board values (drop, search one level shallower, compare); stated by Search.SearchMovesIsSearchBranches |
| Search.SearchMovesStep | src/ConnectFourBoard.java:174-201 | helper: unfolds one iteration of Search.SearchMoves; it states no property of its own |
| Search.SearchGridIsAlphaBeta | src/ConnectFourBoard.java:165-205 | the board-level recursion computes alpha-beta over the position's game tree |
| Search.ChildrenAgreeInTree | src/ConnectFourBoard.java:174-178 | below a node of a position's search tree, each subtree is searched exactly as the grid after the side to move drops into the matching legal column, for every window |
| Search.SearchMovesIsSearchBranches | src/ConnectFourBoard.java:171-204 | when every subtree is searched exactly as the grid after the drop into the matching move, the board-level move loop of `minMax` and the tree-level loop compute the same value and move |
| Search.SearchGridOutcome | src/ConnectFourBoard.java:165-205 | at depth 0 or in a finished game the result is the static evaluation with no move; otherwise a legal move is recorded and the value is >= alpha (maximizing) or <= beta (minimizing) |
| Search.RootSearchIsMinimax | src/ConnectFourBoard.java:155-156 | from the window (Integer.MIN_VALUE, Integer.MAX_VALUE) the pruned value equals unpruned minimax |
| Search.RootMoveOfTree | src/ConnectFourBoard.java:172-188 | at the root the recorded move is the first move whose subtree reaches the minimax value; earlier moves are strictly worse |
| Search.RootMoveIsFirstBest | src/ConnectFourBoard.java:172-188 | the same for the board search: `nextCPUMove` is the first legal column achieving the maximum |
| ConnectFour.ConnectFourBoard.constructor | src/ConnectFourBoard.java:12-16 | a new board is empty and valid, with no moves, the computer as the last mover and `nextCPUMove` 0 |
| ConnectFour.ConnectFourBoard.GetPiece | src/ConnectFourBoard.java:24-26 | the read equals the grid function `Piece` on the array's contents |
| ConnectFour.ConnectFourBoard.DropPiece | src/ConnectFourBoard.java:34-43 | succeeds iff the column has room; the board becomes `Drop` of the old board (unchanged on failure); the counter rises by one on success; validity (gravity, counter = pieces) is kept |
| ConnectFour.ConnectFourBoard.RemovePiece | src/ConnectFourBoard.java:49-58 | succeeds iff the column holds a piece; the board becomes `Remove` of the old board; the counter falls by one on success; validity is kept |
| ConnectFour.ConnectFourBoard.GetNextPlayer | src/ConnectFourBoard.java:64-66 | toggles the last mover between HUMAN and CPU and returns the new value, which differs from the old one |
| ConnectFour.ConnectFourBoard.CheckWin | src/ConnectFourBoard.java:78-92 | the result is `Status` of the board and the counter (whose meaning is given by StatusMeaning) |
| ConnectFour.ConnectFourBoard.EvaluateScore | src/ConnectFourBoard.java:94-96 | the result is the computer's score minus the human's |
| ConnectFour.ConnectFourBoard.DirectionPoints | src/ConnectFourBoard.java:111-113 | the points one origin earns along one direction: 5, +10 and +1000 for runs of 2, 3 and 4 |
| ConnectFour.ConnectFourBoard.GetScore | src/ConnectFourBoard.java:103-128 | the accumulated score equals the pattern score `Score` of the board |
| ConnectFour.ConnectFourBoard.GetPossibleMoves | src/ConnectFourBoard.java:134-142 | returns the ascending list of open columns and leaves the board and the counter as they were |
| ConnectFour.ConnectFourBoard.ProbeMove | src/ConnectFourBoard.java:176-178 | drop, recursive search and removal leave board and counter unchanged and yield the search value of the position after the move |
| ConnectFour.ConnectFourBoard.MinMax | src/ConnectFourBoard.java:165-205 | a negative depth gives IllegalArgument and touches nothing; otherwise the value is the pruned search of the board, `nextCPUMove` is its move (untouched at the horizon or in a finished game), and the board and counter end as they began |
| Graphs.AddNode | src/Graph.java:42-44 | add inserts the node with an empty set only when it is absent; existing entries stay as they were |
| Graphs.Link | src/Graph.java:51-56 | after connect both ends are nodes, each end's set gains the other end, and no other set changes |
| Graphs.SymmetricIsClosed | src/Graph.java:63-65 | in a symmetric map every neighbour is a node, so `getEdges` of a neighbour is never null |
| Graphs.AddIsIdempotent | src/Graph.java:42-44 | adding a node twice is adding it once |
| Graphs.AddKeepsSymmetric | src/Graph.java:42-44 | add keeps every edge listed at both ends |
| Graphs.LinkKeepsSymmetric | src/Graph.java:51-56 | connect keeps every edge listed at both ends |
| Graphs.Graph.constructor | src/Graph.java:13 | a new graph has no nodes and is symmetric |
| Graphs.Graph.Add | src/Graph.java:42-44 | the map becomes `AddNode` of the old one; symmetry is kept |
| Graphs.Graph.Connect | src/Graph.java:51-56 | the map becomes `Link` of the old one; symmetry is kept |
| Graphs.Graph.GetEdges | src/Graph.java:63-65 | answers the node's neighbour set when it is a node and null (None) otherwise |
| Graphs.IsActorLine | src/Graph.java:26 | definition without a contract: `startsWith("<a>")`, a line of at least three characters whose first three are `<a>` |
| Graphs.LineName | src/Graph.java:25 | the name is the line minus its first three characters |
| Graphs.ActorAt | src/Graph.java:22-26 | definition without a contract: the current actor when line j is read; stated by Graphs.ActorAtIsLastActorLine |
| Graphs.ActorAtIsLastActorLine | src/Graph.java:22-26 | the current actor for a line is the name on the last `<a>` line at or above it, and "" (the initial `new String()`) when there is none |
| Graphs.LoadLines | src/Graph.java:24-28 | definition without a contract: the adjacency after the loop has read n lines, or None once a line was too short; stated by the Load lemmas below |
| Graphs.LoadFailsOnShortLine | src/Graph.java:24-28 | loading fails exactly when some line is shorter than three characters |
| Graphs.LoadKeepsSymmetric | src/Graph.java:24-28 | a loaded graph is symmetric |
| Graphs.LoadGrows | src/Graph.java:24-28 | reading more lines only adds nodes and neighbours |
| Graphs.LoadConnectsLines | src/Graph.java:25-27 | in a loaded graph every line's name and the actor in force for that line (the line's own name after "<a>", "" before the first actor line) list each other |
| Graphs.ActorLinesAreSelfLoops | src/Graph.java:26-27 | every "<a>" line gives its actor a self-loop |
| Graphs.ReadLine | src/Graph.java:25-27 | one pass takes the graph and the current actor from their state after i lines to their state after i + 1 lines |
| Graphs.FromLines | src/Graph.java:19-36 | fails exactly when a line is too short for `substring(3)`; otherwise yields a fresh graph holding the loaded, symmetric adjacency |
| Bfs.ToByte | src/BFSHandler.java:43 | the `(byte)` conversion agrees with its argument modulo 256 and is the identity on -128..127 |
| Bfs.ToByteStep | src/BFSHandler.java:43 | narrowing a narrowed value plus one is narrowing the value plus one, so the stored byte distance is always the narrowed exact distance |
| Bfs.Half | src/BFSHandler.java:78 | Java's `/ 2` truncates toward zero: the remainder is at most one in size and has the dividend's sign |
| Bfs.FrontierTail | src/BFSHandler.java:37 | polling the head of the frontier leaves an ordered queue of nodes no nearer than the polled one, with nothing visited more than one step past it |
| Bfs.PolledIsExpanding | src/BFSHandler.java:37-38 | after a poll the inner loop's invariant holds |
| Bfs.VisitKeepsExpanding | src/BFSHandler.java:40-44 | visiting an unvisited neighbour keeps the predecessor tree, the byte map, the ordered queue and the explored nodes |
| Bfs.TreeGrows | src/BFSHandler.java:42-43 | recording a new neighbour with the polled node as predecessor, one step further, keeps the predecessor tree |
| Bfs.StoresGrows | src/BFSHandler.java:43 | storing `(byte)(distance + 1)` keeps the byte map equal to the narrowed exact distances |
| Bfs.LayeredGrows | src/BFSHandler.java:41 | appending the new neighbour keeps the queue distinct and ordered by distance |
| Bfs.ExpandedAll | src/BFSHandler.java:38-45 | once every neighbour has been seen the queue is a frontier again and the polled node is explored |
| Bfs.ExploreNeighbours | src/BFSHandler.java:38-45 | the visited nodes become the old ones plus the neighbours; old distances are kept; each new node gets the polled node's distance + 1 and the polled node as predecessor; the frontier and the explored nodes are kept; the old queue stays a prefix and exactly the newly visited nodes are appended, each once |
| Bfs.AppendKeeps | src/BFSHandler.java:41-43 | queueing a node that is visited for the first time keeps the queue an append of the old one, each new node listed once |
| Bfs.ExploredBoundsWalks | src/BFSHandler.java:36-46 | when every visited node is explored, every walk from start ends at a visited node no closer than the walk's length |
| Bfs.ReachedIsReachable | src/BFSHandler.java:40-44 | following predecessors back from a visited node gives a walk from start of exactly its distance |
| Bfs.ReachableIffVisited | src/BFSHandler.java:36-46 | after the search a node has a distance exactly when it is reachable from start, and its distance is the length of a shortest walk |
| Bfs.BreadthFirst | src/BFSHandler.java:32-46 | given start in the graph, start has distance 0 and no predecessor; every other visited node has a neighbour one step nearer as predecessor; the byte map holds the narrowed distances; no walk from start leaves the visited nodes or beats a recorded distance |
| Bfs.BfsHandler.constructor | src/BFSHandler.java:32-46 | the handler holds the maps of the search from start over the graph |
| Bfs.BfsHandler.HasPathTo | src/BFSHandler.java:54-56 | true exactly when target is reachable from start |
| Bfs.Reversed | src/BFSHandler.java:68 | the reverse has the same length and the mirrored entries |
| Bfs.Predecessor | src/BFSHandler.java:65 | `previousMap.get` answers the predecessor, or null for a node without one |
| Bfs.PredecessorChain | src/BFSHandler.java:64-67 | the loop collects nothing for an unreached target; otherwise it collects the predecessor chain from target down to start, dist + 1 nodes long |
| Bfs.ChainGrows | src/BFSHandler.java:65-66 | each step of the loop extends the chain by the next predecessor, which is one step nearer |
| Bfs.ChainComplete | src/BFSHandler.java:65 | the loop stops at start, where the chain is complete |
| Bfs.ReversedChainIsWalk | src/BFSHandler.java:63-70 | the reversed chain is a walk from start to target |
| Bfs.BfsHandler.PathTo | src/BFSHandler.java:63-70 | empty for an unreachable target; otherwise a walk from start to target with dist + 1 nodes, no longer than any walk between them |
| Bfs.BfsHandler.DistanceTo | src/BFSHandler.java:77-79 | 127 for an unreachable target; otherwise the halved (truncating) byte distance, narrowed; this is the exact distance / 2 while the distance is below 128 |
| Bfs.CreateAsWritten | src/BFSHandler.java:29-38 | the constructor as written: a null graph or a start in the graph throws IllegalArgumentException, and an absent start makes line 38 dereference null, so no input yields a handler |
| Bfs.Create | src/BFSHandler.java:27-31 | with the intended guard: a handler exactly when the graph is non-null and contains start, otherwise IllegalArgumentException; the handler searched from start over that graph |

## Left out

- ConnectFour.ConnectFourBoard.DropPiece: requires the player to be HUMAN or CPU. Java accepts any int, and writing 0 would break the "counter = pieces" invariant. Every caller passes a player.
- ConnectFour.ConnectFourBoard.RemovePiece: requires 0 <= column < 7. The method is private and always gets a legal column. For column 7, line 52 would clear cell (0, 1) instead.
- `getNextCPUMove` (a field read of `nextCPUMove`) and `toString` (text for display) are not modelled as members.
- `ConnectFourGame.java`, `InputHandler.java` and `BaconGame.java` are not part of this model. They are console drivers, input parsing, timing and printing.
- Graphs.FromLines: takes the file's lines as a sequence. Opening and reading the file, and the messages and stack traces printed for `FileNotFoundException`/`IOException`, are left out. A line shorter than three characters ends loading with None, which stands for the uncaught `StringIndexOutOfBoundsException`.
- Graphs.LineName, Graphs.IsActorLine and Graphs.FromLines: a Java `String` is a sequence of UTF-16 code units, while a Dafny `string` is a sequence of Unicode scalar values. `substring(3)`, `startsWith("<a>")` and the "shorter than three" failure are stated on scalar values. They differ from Java on lines with characters outside the Basic Multilingual Plane: a line made of U+1D400 followed by "a" is three code units in Java but two scalar values here, so the model fails to load a line that Java accepts.
- Bfs.BreadthFirst: the constructor's queue loop is a method over map values whose result the constructor stores in the fields. The source inserts into the fields from inside the loop; the final state is the same.
- Bfs.ExploreNeighbours: receives the neighbour set as a value and visits it in an arbitrary order (`HashSet` order is unspecified). The predecessor chosen for a node is therefore any of the correct ones.
- Bfs.BfsHandler.constructor: requires start in the graph and every neighbour to be a node. The guard that should ensure the first is modelled by Bfs.Create.
- Bfs.Create: requires a non-null graph to be symmetric. Every `Graph` is, because `Add` and `Connect` keep symmetry from the empty map (Graphs.Graph.Connect, Graphs.FromLines).
- Bfs.BfsHandler.DistanceTo: beyond distance 127 the stored byte wraps, and the result is the halved wrapped value. This is stated exactly but not otherwise characterised.
- The alpha/beta arguments and the scores are Java ints; the model uses unbounded integers. Evaluation.Evaluate and Evaluation.Score state that every score fits, and Integer.MIN_VALUE/MAX_VALUE are constants.

## Findings

| source | as written | input that shows it | evidently intended | confidence | as-written member | corrected member |
|---|---|---|---|---|---|---|
| src/BFSHandler.java:30 | `if(graph == null \|\| graph.getEdges(start) != null) throw new IllegalArgumentException();` rejects a start node that IS in the graph; an absent start passes the guard, and `graph.getEdges(current)` at line 38 then yields null, which the for-each dereferences | a graph loaded from the single line `<a>Kevin Bacon`, with start `Kevin Bacon`, throws IllegalArgumentException; with start `Nobody` it throws NullPointerException. No input constructs a handler | throw only when the graph is null or `getEdges(start) == null`, as the doc comment at line 27 says ("if graph is null or start node is not in graph") | high; not executed | Bfs.CreateAsWritten | Bfs.Create |
