# Crossword generator and tic-tac-toe player, modelled in Dafny

Two programs from an introductory AI course, modelled as they are written and
proved against specifications of what they compute.

**Crossword generator** (`generate.dfy`, with `crossword.dfy` and `key_sort.dfy`).
`CrosswordCreator` solves a crossword as a constraint-satisfaction problem:
- Each slot ("variable") keeps a domain of candidate words in `domains`. The
  solver changes that map in place, as the program does.
- `EnforceNodeConsistency` drops words of the wrong length.
- `Revise` and `Ac3` prune domains by arc consistency over the overlap map.
  Ac3 uses a worklist that pops from the front and appends arcs to re-check.
- `Consistent` checks a partial assignment. Like the program, it prunes the
  solver's own domains while it checks.
- `OrderDomainValues` and `SelectUnassignedVariable` are the two heuristics.
- `Backtrack` searches depth first. It writes into the caller's
  `Assignment` object and never undoes that write. Every word it adds was in
  its slot's domain when the search reached that slot.
- `LetterGrid` lays an assignment out on a `height × width` array.

Every pruning step is proved to keep the domain keys, to keep node
consistency, to only drop words (`Shrunk`), and never to lose a solution
(`Preserves`). Together these are `Narrowed`. Ac3 is proved to terminate: the
set of (slot, word) pairs shrinks strictly whenever an arc is queued again.
Ac3 answers false exactly when a revision empties a domain. When it starts
from every arc, it ends with every arc consistent. On domains that are already
arc consistent it changes nothing and answers true.

`CrosswordPuzzle` stands in for the puzzle module the generator imports. It
holds the slots, the vocabulary and the overlap map as a read-only datatype,
and defines the constraint-satisfaction notions the solver is proved against.
`KeySort` models Python's `sorted(..., key=...)` as an insertion sort.

**Tic-tac-toe** (`tictactoe.dfy`). The rules are functions on boards:
`InitialState`, `Count`, `Player`, `Result`, `Winner`, `Terminal` and
`Utility`. `Actions` is a method with the program's two nested loops. The
search is three methods, `Maximize`, `Minimize` and `Minimax`, with loops and
alpha-beta cut-offs. Each value they return is proved fail-soft against the
exact game value (`MaxValue`/`MinValue`). The move `Minimax` returns is
proved optimal.

`terminal`, `utility` and the search all ask `winner`. So each of them takes
`Rules`: `AsWritten` plays with the program's own `winner`, and `Corrected`
with the fixed one (see Findings). Every property of the search is proved
under both.

Behaviour of the program that the model keeps as written:
- `consistent` runs `revise` on the solver's domains. The first revision that
  drops words stays done.
- `order_domain_values` counts the unassigned crossing slots whose domain
  holds the same word. It does not count the words that would be ruled out.
- `select_unassigned_variable` breaks a tie on domain size by comparing only
  the first two candidates.
- `backtrack` seeds `ac3` with the arcs `(var, n)`. It keeps the pruned
  domains. A word it writes for a slot whose search then fails stays in the
  assignment.
- `solve` ignores the answer of its first `ac3` call.
- `ac3` can answer true although a domain was already empty when it started.
- Under `AsWritten`, `terminal`, `utility` and the search use the program's
  `winner`, which can miss a filled line; the game then goes on past it.

## Model

| member | source | states |
|---|---|---|
| Generate.CrosswordCreator.constructor | Crossword/generate.py:8-16 | every slot of the puzzle starts with the whole vocabulary; nothing else has a domain |
| Generate.CrosswordCreator.LetterGrid | Crossword/generate.py:18-32 | a fresh height × width grid; a cell is empty exactly when no assigned word reaches it, otherwise it holds a letter some word has there; when words agree at shared cells, every cell shows the letter of each word through it |
| Generate.CrosswordCreator.PaintWord | Crossword/generate.py:26-31 | each cell of the word holds the word's letter there, every other cell keeps what it held, and the grid shows exactly the words written so far |
| Generate.CrosswordCreator.PaintLetter | Crossword/generate.py:28-31 | writing letter k sets its cell, keeps the letters written before it, changes no cell outside the first k + 1 cells of the slot, and keeps the grid showing the words |
| Generate.CellInjective | Crossword/generate.py:28-30 | two letters of one slot lie in the same cell exactly when they are the same letter |
| Generate.InSlotCells | Crossword/generate.py:28-30 | the first n letters of a slot fill exactly the cells of its first n positions along its direction |
| Generate.InSlotGrow | Crossword/generate.py:28-30 | one more letter adds exactly the cell of that letter |
| Generate.PaintStep | Crossword/generate.py:28-31 | writing letter k adds exactly that cell to the covered ones and keeps every letter already shown justified |
| Generate.ShowsAgreed | Crossword/generate.py:18-32 | a grid showing words that agree at every shared cell holds each word's own letters |
| Generate.CrosswordCreator.EnforceNodeConsistency | Crossword/generate.py:96-106 | the domains become exactly `NodeFiltered` of the old ones: each slot keeps the words of its length and only those |
| CrosswordPuzzle.NodeFiltered | Crossword/generate.py:96-106 | the filtered domains are node consistent, only drop words, and keep every word of the right length |
| CrosswordPuzzle.NodeFilteredIdempotent | Crossword/generate.py:96-106 | filtering a second time changes nothing |
| CrosswordPuzzle.NodeFilteredKeepsSolutions | Crossword/generate.py:96-106 | filtering by length loses no solution |
| Generate.CrosswordCreator.Revise | Crossword/generate.py:108-129 | only `x`'s domain changes; it becomes `ReviseArc`, the old words with a partner in `y`'s domain at the crossing (all of them when the slots do not cross); the answer is true exactly when a word was dropped |
| CrosswordPuzzle.RevisedIdempotent | Crossword/generate.py:122-126 | revising a second time against the same words drops nothing more |
| CrosswordPuzzle.RevisedMonotone | Crossword/generate.py:122-126 | more words on either side keep more words: revision is monotone in both domains |
| CrosswordPuzzle.ReviseArcUnchanged | Crossword/generate.py:117-129 | a revision changes nothing exactly when the arc was already consistent |
| CrosswordPuzzle.ReviseArcConsistent | Crossword/generate.py:117-129 | after a revision of `x` against `y` the arc (x, y) is consistent |
| CrosswordPuzzle.ReviseArcKeepsConverse | Crossword/generate.py:117-129 | revising `x` against `y` keeps the arc (y, x) consistent if it was |
| CrosswordPuzzle.ReviseArcKeepsOthers | Crossword/generate.py:117-129 | revising `x` keeps every consistent arc that does not point at `x` consistent |
| CrosswordPuzzle.ReviseArcKeepsSolutions | Crossword/generate.py:117-129 | a solution's word for `x` survives the revision |
| CrosswordPuzzle.ReviseArcSound | Crossword/generate.py:117-129 | one revision is a narrowing step: keys kept, node consistency kept, only words dropped, no solution lost |
| CrosswordPuzzle.NarrowedTrans | Crossword/generate.py:131-157 | two narrowing steps in a row are one narrowing step |
| Generate.CrosswordCreator.OverlapArcs | Crossword/generate.py:140-141 | the starting queue holds exactly the keys of the overlap map |
| Generate.CrosswordCreator.ArcsInto | Crossword/generate.py:154-156 | the queued arcs are exactly (n, x) for each crossing slot n of x other than y |
| Generate.CrosswordCreator.Ac3 | Crossword/generate.py:131-157 | domains only narrow and no solution is lost; the answer is false exactly when some domain that was not empty became empty, and then no solution fits the old domains; on true, every arc is consistent if the queue started with every arc, or held every arc that was not yet consistent; domains already arc consistent are left as they are, with answer true |
| CrosswordPuzzle.Ac3Turn | Crossword/generate.py:142-156 | one pass of the worklist loop keeps the loop invariant, and either leaves the domains unchanged or strictly shrinks the (slot, word) pairs, which bounds the loop |
| CrosswordPuzzle.Ac3StepCovered | Crossword/generate.py:147-156 | after a revision, the arcs queued again cover every arc the revision may have made inconsistent |
| CrosswordPuzzle.PairsShrink | Crossword/generate.py:144-156 | dropping a word strictly shrinks the set of (slot, word) pairs |
| CrosswordPuzzle.EmptyDomainNoSolution | Crossword/generate.py:150-151 | a slot with an empty domain admits no solution within the domains |
| Generate.CrosswordCreator.AssignmentComplete | Crossword/generate.py:159-167 | the assignment is complete exactly when it gives every slot a word |
| CrosswordPuzzle.SubsetSameCard | Crossword/generate.py:165-167 | a subset with as many elements as its superset is equal to it |
| Generate.CrosswordCreator.Consistent | Crossword/generate.py:169-185 | true exactly when the words are distinct, each has its slot's length, and every arc from an assigned slot to a crossing slot is consistent; on true the domains are unchanged; on false they differ at most by one revision, which stays done |
| Generate.CrosswordCreator.ReviseNeighbours | Crossword/generate.py:180-184 | true exactly when every arc from the slot is consistent, with the domains unchanged; otherwise exactly one revision, of that slot, has been made |
| CrosswordPuzzle.InjectiveCard | Crossword/generate.py:174-175 | no word is used twice exactly when the assignment has as many distinct words as slots |
| Generate.ConsistentIgnoresLetters | Crossword/generate.py:169-185 | a node- and arc-consistent two-slot puzzle and an assignment that `consistent` accepts although its crossing letters differ |
| Generate.TwoSlotsArcs | Crossword/generate.py:96-157 | in that puzzle node consistency turns the starting domains into exactly these, and every arc of them is consistent, so `Ac3` leaves them unchanged |
| Generate.TwoSlotsStart | Crossword/generate.py:96-106 | both vocabulary words have the length of both slots, so node consistency keeps the whole vocabulary for each |
| Generate.CrosswordCreator.ConsistentWithLetters | Crossword/generate.py:169-185 | the corrected check: true exactly when the program's checks pass and every two assigned crossing slots agree on the shared letter |
| Generate.CrosswordCreator.LettersMatch | Crossword/generate.py:169-173 | true exactly when every two assigned crossing slots agree on the shared letter |
| Generate.CrosswordCreator.LettersMatchAt | Crossword/generate.py:169-173 | true exactly when the slot agrees with every assigned slot crossing it |
| Generate.CrosswordCreator.OrderDomainValues | Crossword/generate.py:187-209 | the slot's domain, each word once, in non-decreasing order of the number of unassigned crossing slots whose domain holds the same word |
| Generate.CrosswordCreator.RuleOutTable | Crossword/generate.py:194-205 | a table from every word of the domain to its count, and the words listed once each |
| Generate.CrosswordCreator.RuleOuts | Crossword/generate.py:198-204 | the number of unassigned crossing slots whose domain holds the word |
| Generate.HoldingAdd | Crossword/generate.py:199-204 | looking at one more crossing slot adds one to the count exactly when it is unassigned and holds the word |
| Generate.TableStep | Crossword/generate.py:197-205 | adding one word keeps the table's keys, listing and order in step |
| Generate.CountedStep | Crossword/generate.py:205 | adding a word with its own count keeps every entry equal to its count |
| KeySort.Sort | Crossword/generate.py:207-208 | a permutation of its input, non-decreasing in key |
| KeySort.Insert | Crossword/generate.py:207-208 | inserting adds exactly one element and puts either it or the old first element in front |
| KeySort.InsertSorted | Crossword/generate.py:207-208 | inserting into a sorted sequence keeps it sorted |
| KeySort.DistinctFromSet | Crossword/generate.py:207-209 | a list with the multiset of a set holds each of its elements exactly once |
| Generate.CrosswordCreator.SelectUnassignedVariable | Crossword/generate.py:211-230 | an unassigned slot with a smallest domain; when another unassigned slot ties with it, some tied slot has no more crossing slots than it |
| Generate.CrosswordCreator.CandidateTable | Crossword/generate.py:219-222 | a table from exactly the unassigned slots to their domain sizes, and the slots listed once each |
| KeySort.SortedLeast | Crossword/generate.py:223-229 | in the sorted list the first key is least, and the second is least among the others |
| Generate.CrosswordCreator.Backtrack | Crossword/generate.py:232-254 | the domains only narrow; entries already in the assignment never change; every entry it adds holds a word of its slot's domain at the start; after any write the assignment passed `consistent`; a result is the caller's own object with every slot filled; with the letter check, a result the search filled is a solution |
| Generate.CrosswordCreator.TryValue | Crossword/generate.py:243-253 | one try of a value: the assignment is unchanged or holds the value for the slot; entries for other slots never change; every entry added besides the value holds a word of its slot's domain at the start |
| Generate.CrosswordCreator.AssignAndSearch | Crossword/generate.py:249-251 | the value is written for the slot and stays; other entries never change; the assignment stays accepted, and under the letter check its crossings agree |
| Generate.SearchedFrom | Crossword/generate.py:249-251 | once the deeper search returns, the earlier entries and the new one are all still there, and the assignment is still accepted |
| Generate.NewFromStep | Crossword/generate.py:243-253 | a try that keeps or writes a value of the slot's domain, after a deeper search that added only words of narrower domains, adds only words of the starting domains |
| Generate.NewFromShrunk | Crossword/generate.py:247-251 | a word of a narrowed domain is a word of the domain it came from |
| Generate.CrosswordCreator.ArcsFrom | Crossword/generate.py:247 | the arcs (var, n) for exactly the slots n crossing var |
| Generate.UnassignedAfterWrite | Crossword/generate.py:250 | writing a slot's word removes exactly that slot from the unassigned ones, which bounds the recursion |
| Generate.CrosswordCreator.Solve | Crossword/generate.py:88-94 | a result fills every slot with distinct words of the right lengths, each from the vocabulary; with the letter check, it is a solution |
| CrosswordPuzzle.NeighborsSymmetric | Crossword/generate.py:154-156 | in a well-formed puzzle `x` crosses `v` exactly when `v` crosses `x`, so the arcs (n, x) queued again are the converses of x's own arcs |
| CrosswordPuzzle.InjectiveAdd | Crossword/generate.py:174-175 | an assignment has no repeated word exactly when the rest of it has none and the one slot's word is nowhere else in it |
| TicTacToe.InitialState | TicTacToe/tictactoe.py:12-18 | a 3 × 3 board of empty cells |
| TicTacToe.InitialStateStart | TicTacToe/tictactoe.py:12-32 | the initial board has no marks, nine empty cells, and X to move |
| TicTacToe.Count | TicTacToe/tictactoe.py:20-23 | X marks, O marks and empty cells add up to nine |
| TicTacToe.BoardCountCells | TicTacToe/tictactoe.py:20-23 | the row-by-row count equals the count over the nine cells |
| TicTacToe.Player | TicTacToe/tictactoe.py:25-32 | on a board reached in play, X is to move exactly when an odd number of cells is empty |
| TicTacToe.PlayerAlternates | TicTacToe/tictactoe.py:25-61 | on a reachable board a move keeps the board reachable and hands the turn to the other player |
| TicTacToe.Actions | TicTacToe/tictactoe.py:35-44 | exactly the in-range cells that are empty |
| TicTacToe.NoEmptyCells | TicTacToe/tictactoe.py:35-44 | no action is left exactly when all nine cells hold marks |
| TicTacToe.Result | TicTacToe/tictactoe.py:47-61 | no action leaves the board as it is; a move to an occupied cell is refused; otherwise the mover's mark appears at the cell, every other cell is unchanged, and one more mark is on the board |
| TicTacToe.Successor | TicTacToe/tictactoe.py:51-60 | the mover's mark at the cell, all else unchanged, one empty cell fewer |
| TicTacToe.WinnerAsWritten | TicTacToe/tictactoe.py:64-87 | the program's line checks: no winner while both sides have at most two marks; a mark it names fills a line |
| TicTacToe.WinnerAsWrittenMissesColumn | TicTacToe/tictactoe.py:64-87 | a reachable board where X fills a column but the program's check reports no winner |
| TicTacToe.WinnerAsWrittenSound | TicTacToe/tictactoe.py:64-87 | whenever the program names a winner, the corrected `Winner` names one too |
| TicTacToe.WinsNeedsThreeMarks | TicTacToe/tictactoe.py:68-70 | a mark that fills a line has at least three marks on the board, so the early exit loses no winner |
| TicTacToe.LineWinner | TicTacToe/tictactoe.py:72-86 | a named mark fills a line; no mark named means neither fills one |
| TicTacToe.Winner | TicTacToe/tictactoe.py:64-87 | a named mark fills a line, and none is named exactly when no mark fills a line |
| TicTacToe.WinnerUnder | TicTacToe/tictactoe.py:64-87 | a named mark fills a line under both rules; under the corrected rules no mark is named exactly when none fills a line |
| TicTacToe.Terminal | TicTacToe/tictactoe.py:91-99 | the game is over exactly when `winner` names a mark or no cell is empty; it never ends without a filled line or a full board; under the corrected rules it is over exactly when a mark fills a line or no cell is empty |
| TicTacToe.Utility | TicTacToe/tictactoe.py:102-111 | 1 exactly when `winner` names X, -1 exactly when it names O, otherwise 0; a non-zero utility belongs to a line the mark fills, and means the game is over |
| TicTacToe.MaxValue | TicTacToe/tictactoe.py:113-130 | the exact game value with X to choose, in [-1, 1] |
| TicTacToe.MinValue | TicTacToe/tictactoe.py:132-149 | the exact game value with O to choose, in [-1, 1] |
| TicTacToe.SearchAsWrittenPlaysOn | TicTacToe/tictactoe.py:64-149 | on O, O, _ / X, X, X / _, _, _ the program's rules do not end the game and score it 0, and the search values it -1 for O; the corrected rules end it with X the winner and value 1 |
| TicTacToe.PlaysOnRules | TicTacToe/tictactoe.py:64-111 | on that board X fills a line; only the corrected rules see it |
| TicTacToe.PlaysOnSearch | TicTacToe/tictactoe.py:132-149 | under the program's rules, O's move completing the top row makes the value -1 |
| TicTacToe.TopRowForOLoses | TicTacToe/tictactoe.py:64-130 | after that move the game still goes on under the program's rules, and every move X makes then is valued -1 |
| TicTacToe.BottomMoveLoses | TicTacToe/tictactoe.py:64-111 | once the bottom row holds a mark, the program's `winner` reaches the top row and names O |
| TicTacToe.BestMaxAtLeast | TicTacToe/tictactoe.py:118-126 | the best value over moves is at least the value of each move |
| TicTacToe.BestMaxAtMost | TicTacToe/tictactoe.py:118-126 | the best value over moves is at most any bound on every move |
| TicTacToe.BestMinAtMost | TicTacToe/tictactoe.py:137-145 | the least value over moves is at most the value of each move |
| TicTacToe.BestMinAtLeast | TicTacToe/tictactoe.py:137-145 | the least value over moves is at least any common lower bound |
| TicTacToe.MinimizeAfter | TicTacToe/tictactoe.py:119-123 | the value below a move, in [-1, 1] and fail-soft for the window |
| TicTacToe.MaximizeAfter | TicTacToe/tictactoe.py:138-142 | the value below a move, in [-1, 1] and fail-soft for the window |
| TicTacToe.MaxLoopStep | TicTacToe/tictactoe.py:118-129 | one pass of `maximize`'s loop keeps its invariant or makes the cut-off with a justified best move |
| TicTacToe.MaxLoopExhausted | TicTacToe/tictactoe.py:118-130 | when every move was tried, the best move is legal and the value is fail-soft against the best value over all moves |
| TicTacToe.MaxLoopCutOff | TicTacToe/tictactoe.py:127-130 | a cut-off value at or above beta is a lower bound on the best value over all moves |
| TicTacToe.MinLoopStep | TicTacToe/tictactoe.py:137-148 | one pass of `minimize`'s loop keeps its invariant or makes the cut-off with a justified best move |
| TicTacToe.MinLoopExhausted | TicTacToe/tictactoe.py:137-149 | when every move was tried, the best move is legal and the value is fail-soft against the least value over all moves |
| TicTacToe.MinLoopCutOff | TicTacToe/tictactoe.py:146-149 | a cut-off value at or below alpha is an upper bound on the least value over all moves |
| TicTacToe.MaximizeLoop | TicTacToe/tictactoe.py:117-130 | a legal move and a value in [-1, 1], fail-soft for (alpha, beta) against the best value over all moves; inside the window it is the exact value of the move returned |
| TicTacToe.MinimizeLoop | TicTacToe/tictactoe.py:136-149 | the same for the minimising side |
| TicTacToe.Maximize | TicTacToe/tictactoe.py:113-130 | a terminal board gives its utility; otherwise a legal move; the value lies in [-1, 1] and is fail-soft for (alpha, beta) against the exact value; inside the window it is the exact value of the move returned |
| TicTacToe.Minimize | TicTacToe/tictactoe.py:132-149 | the same for the minimising side |
| TicTacToe.Minimax | TicTacToe/tictactoe.py:152-169 | under either rules: no move exactly when the game is over; otherwise a legal move whose resulting board has the exact game value of the current board for the player to move |

## Left out

- `print`, `save` and `main` of the crossword generator are terminal, image and command-line I/O.
- The puzzle module `crossword.py` is not part of this model. Its slots, vocabulary and overlap map are an input datatype, and `WellFormed` states what its loader is taken to guarantee: every ordered pair of distinct slots is a key, and crossings are symmetric and inside the slots. `neighbors(x)` is the set of other slots whose overlap with `x` is not `None`.
- Python's set and dict iteration order is not modelled. Each loop over a set picks any remaining element, so every order is covered. The order of `assignment.items()` in `letter_grid` is treated the same way.
- The infinities in `maximize`, `minimize` and `minimax` are the integers -2 and 2. They lie outside every utility.
- Generate.CrosswordCreator.LetterGrid: requires every letter to fall inside the grid. The program raises `IndexError` otherwise, and that error is not modelled.
- Generate.CrosswordCreator.Revise: requires node-consistent domains, as do `Ac3`, `Consistent` and `Backtrack`. The program would raise `IndexError` on a word shorter than a crossing index; `solve` filters by length before any of them runs.
- Generate.CrosswordCreator.Backtrack: does not state that a solution is found whenever one exists, although its documentation (Crossword/generate.py:233-237) promises it. The pruning keeps every solution (`Narrowed` includes `Preserves`), but the program itself breaks completeness: a word written for a slot whose deeper search fails stays in the shared assignment (Crossword/generate.py:244, 250), so later tries run from that stale partial assignment.
- KeySort.Sort: does not state that equal keys keep their input order, as Python's `sorted` does. The input order is an arbitrary set or dict order here, so no property depends on it.
- Generate.CrosswordCreator.TryValue: does not require that the value is in the slot's current domain. The values come from `order_domain_values` before the loop, and the domains narrow between tries (Crossword/generate.py:243-248), so a later value may have left the domain. `Backtrack` states instead that every added word was in its slot's domain when the search reached the slot.
- Generate.CrosswordCreator.SelectUnassignedVariable: states the degree tie-break only as the code does it, comparing the first two candidates. It does not promise the highest degree among all tied slots.

## Findings

| source | as written | input that shows it | evidently intended | confidence | as-written member | corrected member |
|---|---|---|---|---|---|---|
| TicTacToe/tictactoe.py:64-87 | `winner` checks lines in a fixed order and returns the middle cell of the first line whose three cells are equal, even when all three are empty | X in the right column, O at (0,1) and (1,1), left column empty: the empty left column is matched first, so no winner is reported | report a mark only for a line that mark fills | high; not executed | TicTacToe.WinnerAsWrittenMissesColumn | TicTacToe.Winner |
| TicTacToe/tictactoe.py:91-111 | `terminal` and `utility` trust `winner`, so a line it misses neither ends the game nor scores it, and the search plays on | O, O, _ / X, X, X / _, _, _ with O to move: the empty bottom row hides X's middle row; the game goes on, scores 0, and the search values it -1 for O | the game ends as soon as a mark fills a line, and is scored for that mark | high; not executed | TicTacToe.SearchAsWrittenPlaysOn | TicTacToe.Terminal |
| Crossword/generate.py:169-185 | `consistent` checks distinct words, lengths and that no revision of an assigned slot drops a word, but never compares the letters of two assigned crossing words, although its documentation says an accepted assignment has no conflicting letters | two 2-letter slots, across and down, sharing their first cell; vocabulary {"ab", "ba"}; "ab" across and "ba" down is accepted | reject an assignment whose crossing slots disagree on the shared letter | high; not executed | Generate.ConsistentIgnoresLetters | Generate.CrosswordCreator.ConsistentWithLetters |

The game functions and the search take `Rules`. Under `AsWritten` they are the program's own. Under `Corrected`, `Terminal` says the game is over exactly when a mark fills a line or the board is full, and every search property holds as well.

`Backtrack`, `TryValue` and `Solve` take a flag, `checkLetters`. When it is false, the search is the program's as written. When it is true, the search uses the corrected check, and a result it fills is proved to be a solution.
