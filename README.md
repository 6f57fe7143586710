# Crossword generator and tic-tac-toe player, modelled in Dafny

This project models two programs.

**Crossword generator (`crossword/generate.py`).** It fills a crossword grid as a constraint satisfaction problem. Each variable is a slot in the grid (start cell, direction, length). Its domain is the set of words that may still go there.

`CrosswordCreator`:
- makes every domain node consistent, meaning only words of the slot's length remain;
- makes every pair of crossing slots arc consistent with the AC-3 worklist algorithm;
- then searches by backtracking. It picks the unassigned slot with the fewest remaining words, breaking ties by the most neighbours. It tries that slot's words in least-constraining order.

**Tic-tac-toe player (`tictactoe/tictactoe.py`).** It plays on a 3-by-3 board. It works out whose turn it is, the legal moves, the board each move leads to, the winner, whether the game is over and its utility. It picks an optimal move by minimax search.

Layout:

- `wrappers.dfy`: `Option` and `Result`.
- `crossword.dfy` (module `CrosswordGrid`): slots, the puzzle (size, slots, words, overlap map), neighbours and grid cells. It also states the well-formedness facts the puzzle parser guarantees. The parser, `crossword/crossword.py`, is not part of this model.
- `csp.dfy` (module `Csp`): the meaning of each operation as functions and predicates on values:
  - node consistency, the result of `revise`, and arc consistency;
  - consistency and completeness of an assignment, and what a solution is;
  - the least-constraining score.

  It also holds the lemmas about them.
- `generate.dfy` (module `Generate`): the `CrosswordCreator` class and the `Assignment` class.
  - `CrosswordCreator` keeps the puzzle and the mutable `domains` map. Its methods update the map in place.
  - `Assignment` stands for the dictionary that `backtrack` mutates and returns; it is shared between calls.

  Every loop of the source is a method proved against a declarative definition. Most of these are functions in `Csp`. `LetterGrid` and `WriteWord` are proved against the predicates `Generate.Covered`, `Generate.PlacedLetter` and `Generate.Shows`. `AllArcs`, `ArcsInto`, `FewestWords`, `MostNeighbours` and `SelectUnassignedVariable` state their results with quantifiers in their own contracts.
- `tictactoe.dfy` (module `TicTacToe`):
  - board functions, with the source's loops as methods proved equal to them;
  - the game value `Value`, defined as max or min over the moves;
  - `ValMinimax` and `Minimax`, proved to return that value and an optimal move.

In three places the code differs from the textbook description of its algorithms or from its own docstrings. The model follows the code in each:
- Textbook AC-3 seeds the worklist with the arcs between crossing slots only. With no arcs given, `ac3` instead seeds the worklist with every ordered pair of distinct slots, not only crossing ones. For a pair that does not cross, `revise` changes nothing and returns False (`Generate.CrosswordCreator.Revise`).
- Textbook AC-3 re-queues only the arcs from the neighbours of `x`. After a change, the code re-queues `(z, x)` for every slot `z` other than `x` and `y` (`Generate.CrosswordCreator.ArcsInto`).
- `order_domain_values` counts the neighbour words that AGREE with each candidate and sorts by that count, largest first. Its docstring asks for the number of words each candidate rules out, fewest first. `Csp.LeastConstrainingOrder` proves the two orders coincide.

## Model

| member | source | states |
|---|---|---|
| Generate.CrosswordCreator.constructor | crossword/generate.py:8-16 | every slot's domain starts as the whole word list |
| Generate.CrosswordCreator.LetterGrid | crossword/generate.py:18-32 | a fresh height-by-width grid: a cell is empty iff no assigned word covers it; every letter shown is the letter some assigned word places there; for a consistent assignment every letter of every word appears in its cell |
| Generate.WriteWord | crossword/generate.py:26-31 | writing one word letter by letter puts `word[k]` in the k-th cell of the slot and leaves every other cell as it was, so the grid shows that word on top of the words already written |
| Generate.WriteLetter | crossword/generate.py:28-31 | one step of the inner loop: letter k goes to the k-th cell of the slot, only that cell changes, and the grid shows the word's first k+1 letters |
| Generate.OnSlotCells | crossword/generate.py:28-30 | the first n cells of a slot are exactly the cells its offsets below n compute, down a column or along a row |
| Generate.PlacedLetterUnique | crossword/generate.py:26-31 | in a consistent assignment two words never place different letters in the same cell, so the order of the writes does not matter |
| Generate.CrosswordCreator.EnforceNodeConsistency | crossword/generate.py:96-108 | each domain becomes exactly its words of the slot's length |
| Csp.NodeConsistencySpec | crossword/generate.py:96-108 | node consistency only removes words, leaves only words of the right length, and keeps every word of the right length |
| Csp.NodeConsistencyIdempotent | crossword/generate.py:96-108 | enforcing node consistency twice is the same as once |
| Csp.NodeConsistencyKeepsSolutions | crossword/generate.py:96-108 | every solution of the puzzle survives node consistency |
| Csp.NodeConsistentWordsFit | crossword/generate.py:96-108 | after node consistency every overlap offset is inside every word of both slots, so the indexing in revise and order_domain_values is safe |
| Generate.CrosswordCreator.Revise | crossword/generate.py:119-143 | only the domain of `x` changes; it keeps exactly the words that agree with some word of `y` at the overlap; the result is True iff the domain strictly shrank; slots that do not cross change nothing |
| Csp.ArcConsistentIffRevisedUnchanged | crossword/generate.py:119-143 | an arc is consistent iff revising it removes nothing |
| Csp.RevisedArcConsistent | crossword/generate.py:119-143 | after revise(x, y) the arc x to y is consistent |
| Csp.RevisedKeepsReverseArc | crossword/generate.py:119-143 | revising x against y keeps the arc y to x consistent when it was |
| Csp.ShrinkKeepsArcFrom | crossword/generate.py:119-143 | shrinking the domain of x keeps every arc out of x consistent |
| Csp.RevisedKeepsSolutions | crossword/generate.py:119-143 | no solution of the puzzle loses its word in revise |
| Generate.CrosswordCreator.AllArcs | crossword/generate.py:154-155 | the initial worklist holds exactly the ordered pairs of distinct slots |
| Generate.CrosswordCreator.ArcsInto | crossword/generate.py:161 | the re-queued arcs are exactly (z, x) for every slot z other than x and y |
| Generate.CrosswordCreator.AC3 | crossword/generate.py:145-162 | domains only shrink and keep every solution; False only when some domain that was not empty became empty; on True every domain that was not empty stays non-empty; with no arcs given, True means every arc is consistent; if every arc was already consistent, nothing changes and the result is True |
| Generate.CrosswordCreator.ReviseAndRequeue | crossword/generate.py:157-161 | one round of the AC-3 loop: revises, reports an emptied domain, after a change re-queues exactly the arcs (z, x) for every slot z other than x and y, keeps the loop invariant, and strictly lowers the number of (slot, word) entries whenever it changes a domain, which is why AC-3 terminates |
| Csp.PendingAfterRevise | crossword/generate.py:156-161 | every arc is either still on the worklist or consistent, before and after a revise-and-requeue step |
| Csp.Ac3Step | crossword/generate.py:156-161 | one loop step keeps the AC-3 invariant: progress so far, a valid worklist, non-empty domains, pending-or-consistent arcs |
| Csp.Ac3StepProgress | crossword/generate.py:156-161 | a revise keeps domains shrinking and solutions kept, lowers the entry count when it changes something, and can change something only when the starting domains were not all arc consistent |
| Csp.Ac3Done | crossword/generate.py:162 | with the worklist empty, every arc is consistent |
| Csp.EntriesShrink | crossword/generate.py:156-161 | strictly shrinking one domain strictly lowers the set of (slot, word) entries |
| Generate.CrosswordCreator.AssignmentComplete | crossword/generate.py:164-172 | True iff every slot has a word |
| Generate.CrosswordCreator.Consistent | crossword/generate.py:175-192 | True iff every word has its slot's length and every two crossing assigned slots agree at their overlap |
| Csp.ConsistentRestrict | crossword/generate.py:175-192 | any part of a consistent assignment is consistent |
| Generate.CrosswordCreator.CountAgreeing | crossword/generate.py:202-211 | the count for a word is its score: the number of (unassigned neighbour, neighbour word) pairs that agree with it at the overlap |
| Generate.CrosswordCreator.CountNeighbour | crossword/generate.py:204-210 | one neighbour adds its agreeing words to the count, or nothing when it is assigned |
| Generate.CrosswordCreator.CountAgreeingWith | crossword/generate.py:208-210 | counts exactly the words of one neighbour that agree at the overlap |
| Csp.AgreeingPairsStep | crossword/generate.py:204-210 | adding one neighbour adds its agreeing pairs to the score, or nothing when it is assigned |
| Csp.ScoreSplitsNeighbourWords | crossword/generate.py:194-214 | each remaining neighbour word either agrees with the candidate or is eliminated by it |
| Csp.LeastConstrainingOrder | crossword/generate.py:194-214 | a higher agreeing score means exactly fewer eliminated neighbour words |
| Generate.CrosswordCreator.OrderDomainValues | crossword/generate.py:194-214 | the result lists each word of the domain exactly once, and its scores never increase along the list |
| Generate.InsertByScore | crossword/generate.py:211-213 | inserting a scored word keeps the ranking sorted by score (largest first) and free of repeats, with exactly one new entry |
| Csp.InsertAt | crossword/generate.py:211-213 | insertion at a position keeps the entries before and after it and adds exactly the new one |
| Csp.InsertSorted | crossword/generate.py:213 | inserting before the first smaller score keeps the ranking sorted |
| Csp.InsertDistinct | crossword/generate.py:211 | inserting a new word keeps the words distinct |
| Csp.InsertMembers | crossword/generate.py:211-212 | insertion adds exactly the new entry and the new word |
| Csp.RankedOrderSpec | crossword/generate.py:212-214 | the ranked list holds the ranked words, each once, in score order |
| Generate.CrosswordCreator.SelectUnassignedVariable | crossword/generate.py:216-236 | the chosen slot is unassigned, has a smallest domain among the unassigned slots, and among those with that domain size has the most neighbours |
| Generate.CrosswordCreator.FewestWords | crossword/generate.py:224-228 | the smallest domain size among the candidate slots |
| Generate.CrosswordCreator.MostNeighbours | crossword/generate.py:229-236 | a tied slot with the most neighbours |
| Generate.CrosswordCreator.Backtrack | crossword/generate.py:238-258 | a complete assignment comes back unchanged, without a consistency check; for an incomplete input, any result is the same object, now complete and a consistent completion of the input with domain words; None leaves the assignment as it was and means no completion exists |
| Generate.CrosswordCreator.TryValue | crossword/generate.py:251-257 | one candidate: either a completion that gives the slot this word, or the assignment restored and no completion extending it |
| Csp.NextCandidate | crossword/generate.py:251-257 | once a candidate has failed, every completion uses one of the later candidates |
| Csp.BranchCompletes | crossword/generate.py:252-256 | a completion found below a consistent extension completes the original assignment |
| Csp.CompletesStep | crossword/generate.py:249-251 | every completion gives the chosen slot a word of its domain and also completes the extended assignment |
| Csp.InconsistentHasNoCompletion | crossword/generate.py:253 | an inconsistent partial assignment has no completion, so skipping it loses nothing |
| Csp.UndoEntry | crossword/generate.py:252-257 | adding a slot and popping it again restores the assignment |
| Csp.CompleteCompletesItself | crossword/generate.py:247-248 | a complete, consistent assignment of domain words is its own completion |
| Csp.CompletesWeaken | crossword/generate.py:252-256 | a completion of an extension is a completion of the original |
| Csp.CompletesShrunk | crossword/generate.py:92-94 | a completion with respect to smaller domains is one with respect to the original domains |
| Csp.WordsFitShrunk | crossword/generate.py:92-94 | shrinking domains keeps every word long enough for the overlaps |
| Csp.WordsFitArc | crossword/generate.py:136 | with fitting words, both offsets of an arc are inside the words of both domains |
| Csp.WordsFitArcsFrom | crossword/generate.py:204-209 | with fitting words, every arc out of a slot is safe to index |
| Generate.CrosswordCreator.Solve | crossword/generate.py:88-94 | domains only shrink; a result is a solution of the original puzzle; None means the puzzle has no solution |
| TicTacToe.InitialState | tictactoe/tictactoe.py:13-19 | a 3-by-3 board with every cell empty |
| TicTacToe.InitialStateSpec | tictactoe/tictactoe.py:13-36 | the starting board is balanced, X moves first, nine cells are free and every cell is a legal move |
| TicTacToe.ComputePlayer | tictactoe/tictactoe.py:22-36 | X moves iff X has placed no more marks than O, otherwise O |
| TicTacToe.PlayerAlternates | tictactoe/tictactoe.py:22-36 | on a balanced board every move keeps the board balanced and passes the turn to the other player |
| TicTacToe.ComputeActions | tictactoe/tictactoe.py:39-48 | the result is exactly the set of empty cells |
| TicTacToe.Move | tictactoe/tictactoe.py:59-61 | the chosen cell gets the mover's mark, every other cell is unchanged, and one empty cell fewer remains |
| TicTacToe.Result | tictactoe/tictactoe.py:50-61 | the error "Invalid action" iff the move is off the board or its cell is taken; otherwise the board after the move |
| TicTacToe.CountUpdate | tictactoe/tictactoe.py:59-60 | overwriting one cell changes a mark's count only by what left and what arrived |
| TicTacToe.CountRowUpdate | tictactoe/tictactoe.py:59-60 | the same for one row |
| TicTacToe.CountPositive | tictactoe/tictactoe.py:22-36 | a mark's count is positive iff some cell holds it |
| TicTacToe.CountRowPositive | tictactoe/tictactoe.py:22-36 | the same for one row |
| TicTacToe.WinnerFrom | tictactoe/tictactoe.py:67-76 | the scan from index i returns only a mark that fills a line; None means no row or column from i on and no diagonal is filled |
| TicTacToe.Winner | tictactoe/tictactoe.py:63-76 | a result is a mark that fills a line; None iff neither mark fills a line |
| TicTacToe.TerminalSpec | tictactoe/tictactoe.py:78-89 | the game is over iff some mark fills a line or no move is left; a game not over has an empty cell |
| TicTacToe.ComputeTerminal | tictactoe/tictactoe.py:78-89 | True iff there is a winner or the board is full |
| TicTacToe.Utility | tictactoe/tictactoe.py:91-101 | 1 iff X won, -1 iff O won, 0 iff no mark fills a line |
| TicTacToe.MaxOfSpec | tictactoe/tictactoe.py:110-116 | the best value X can reach is the largest child value, reached by some move, and lies in -1..1 |
| TicTacToe.MinOfSpec | tictactoe/tictactoe.py:118-124 | the best value O can reach is the smallest child value, reached by some move, and lies in -1..1 |
| TicTacToe.ValueOptimal | tictactoe/tictactoe.py:104-126 | a board that is not over has moves, and its value is the best child value for the player to move |
| TicTacToe.ValueInRange | tictactoe/tictactoe.py:104-126 | the game value is always -1, 0 or 1 |
| TicTacToe.ValMinimax | tictactoe/tictactoe.py:104-126 | returns the game value, and a line of legal moves each of which keeps that value, ending in None on a finished board |
| TicTacToe.MaxChild | tictactoe/tictactoe.py:109-116 | the X loop ends with the largest child value and a line through a move reaching it |
| TicTacToe.MinChild | tictactoe/tictactoe.py:117-124 | the O loop ends with the smallest child value and a line through a move reaching it |
| TicTacToe.TryMax | tictactoe/tictactoe.py:111-116 | one X round: the child value lies in -1..1, and it replaces the best so far, with its line, exactly when it is strictly larger |
| TicTacToe.TryMin | tictactoe/tictactoe.py:119-124 | one O round: the child value lies in -1..1, and it replaces the best so far, with its line, exactly when it is strictly smaller |
| TicTacToe.MaxStep | tictactoe/tictactoe.py:113-116 | the X update keeps the best so far the maximum of the moves examined |
| TicTacToe.MinStep | tictactoe/tictactoe.py:121-124 | the O update keeps the best so far the minimum of the moves examined |
| TicTacToe.MaxUnique | tictactoe/tictactoe.py:109-116 | the maximum over a set of moves is unique |
| TicTacToe.MinUnique | tictactoe/tictactoe.py:117-124 | the minimum over a set of moves is unique |
| TicTacToe.Minimax | tictactoe/tictactoe.py:128-133 | None iff the game is over; otherwise a legal move that keeps the game value, that is, an optimal move |

## Left out

- `print`, `save` and `main` of `crossword/generate.py` (terminal output, image drawing, command line) and the debug print in `enforce_node_consistency`: I/O.
- `crossword/crossword.py` is not part of this model. The puzzle arrives as abstract data. The facts its parser guarantees are stated as assumptions (`CrosswordGrid.WellFormed`, `CrosswordGrid.OverlapsMatchCells`): overlap entries for every pair, offsets inside both slots, symmetric overlaps, overlaps that name the shared cell. That every word fits inside the grid is a precondition of `Generate.CrosswordCreator.LetterGrid`.
- `shopping/`, `pagerank/` and `traffic/`: outside the modelled core (file I/O, machine learning, floating point, randomness).
- Python set and dict iteration order. Sets are traversed in an arbitrary order chosen with `:|`, and every contract holds for any order. Which of several equally good words, slots or moves comes first is not modelled.
- `math.inf` in `val_minimax` is the integer sentinel -2 (for X) or 2 (for O). Every utility lies in -1..1, so every comparison comes out the same.
- Python's `IndexError` and `KeyError` paths are excluded by preconditions, not modelled as errors:
  - a word shorter than an overlap offset;
  - an overlap key missing for a pair of slots;
  - a board that is not 3-by-3.
- Generate.CrosswordCreator.Revise: requires every word of both domains to reach the overlap offsets (true after node consistency), where Python would raise `IndexError` on a short word.
- Generate.CrosswordCreator.AC3: requires the same fit for all domains. When a domain was already empty on entry, `revise` cannot change it, so `ac3` may return True with an empty domain. The contract states this case as the code behaves: True keeps non-empty only the domains that were non-empty.
- Generate.CrosswordCreator.AC3: `arcs` is taken as a value. Python pops from and extends the caller's own list in place, so a caller that passes a list sees it changed; the model does not capture that update. No caller in this core passes `arcs`.
- Generate.CrosswordCreator.OrderDomainValues: the stable-sort order among words of equal score is not stated. Only the non-increasing order of scores and the permutation are stated.
- Generate.CrosswordCreator.SelectUnassignedVariable: the choice among slots tied on both keys is not stated.
- Generate.CrosswordCreator.LetterGrid: requires every assigned word to fit inside the grid, where Python would raise `IndexError`. The letter of every word is promised only for a consistent assignment of puzzle slots; otherwise a later write may overwrite an earlier one.
- Generate.CrosswordCreator.AssignmentComplete: a slot explicitly mapped to `None` counts as unassigned in Python. Model words are never `None`, so a slot has a word exactly when it is a key.
- Generate.CrosswordCreator.Backtrack: an assignment that is already complete is returned as it is, without a call to `consistent`, so a complete assignment with a clash at some overlap comes back inconsistent. The contract promises a consistent completion only for an incomplete input. `solve` starts from the empty assignment, which is consistent.
- Generate.CrosswordCreator.Backtrack: requires the domain words to fit the overlaps. This holds for the call from `solve`.
- TicTacToe.ValMinimax: the first move of the returned line depends on the set iteration order. The contract states that it is a legal move keeping the game value, not which of the equally good moves it is.
- TicTacToe.Minimax: the unused default parameter `act=[]` is dropped.
- TicTacToe.Result: Python raises an exception for an invalid action. The model returns `Err("Invalid action")`.
