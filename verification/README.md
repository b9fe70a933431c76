# Verified model of four AI course projects

This Dafny project models the deterministic core of four small programs and
proves what they promise:

- **Crossword generator** (`project3/crossword/generate.py`). A constraint
  satisfaction solver. It works over a puzzle of slots ("variables"), a
  vocabulary, and the overlaps between crossing slots. `CrosswordCreator`
  keeps a map from each slot to its candidate words (its domain). It narrows
  the domains in place: first by word length (node consistency), then with a
  worklist of arcs (`revise`, `ac3`). After that it runs a backtracking search
  with the minimum-remaining-values rule, a degree tie-break and the
  least-constraining-value order. `letter_grid` draws an assignment onto the
  grid.
- **Minesweeper** (`project1/minesweeper/minesweeper.py`). The board's mine
  count around a cell. A `Sentence` is a set of cells and a count of the mines
  among them. `MinesweeperAI` is a knowledge base of sentences that marks
  cells safe or mined, prunes empty and duplicate sentences, and infers new
  sentences from pairs where one sentence's cells are a subset of another's.
- **Tic-tac-toe** (`project0/tictactoe/tictactoe.py`). The rules (turn order,
  legal moves, the move function, winner, end of game, utility) and the
  minimax player.
- **Shopping classifier** (`project4/shopping/shopping.py`). The string
  encoders for month, visitor type and booleans, and the counting in
  `evaluate`.

## Files

| file | contents |
|---|---|
| `wrappers.dfy` | `Option` |
| `cardinality.dfy` | set-size facts |
| `iteration.dfy` | Python `for x in set`, `sorted(key=...)`, filtering a list |
| `crossword_puzzle.dfy` | slots, puzzle, overlaps and neighbours |
| `crossword_constraints.dfy` | consistency, solutions, domain filters |
| `crossword_steps.dfy` | the solver's loops, on values |
| `crossword_grid.dfy` | the letter grid |
| `generate.dfy` | class `CrosswordCreator` |
| `minesweeper_game.dfy` | class `Minesweeper` |
| `minesweeper_sentence.dfy` | class `Sentence` and its truth lemmas |
| `knowledge_lists.dfy` | `list.remove` and the duplicate-removal loops |
| `minesweeper_ai.dfy` | class `MinesweeperAI` |
| `tictactoe.dfy` | the game and minimax |
| `shopping.dfy` | encoders and `evaluate` |

## How the model is organised

**Crossword.** The `crossword` module that parses puzzles is not part of this
model.

- **The puzzle.** It is a `Crossword` value whose slots are `Variable` values.
  `WellFormed` states what the solver relies on: slots lie on the grid, and
  overlaps are recorded both ways round at offsets inside both slots. Two
  distinct slots share a cell exactly at their recorded overlap.
- **The solver.** `CrosswordCreator` is a class whose `domains` field the
  methods reassign, as the source mutates `self.domains`.
- **The specification.** Consistency and "solution" are predicates
  (`IsConsistent`, `SolutionFrom`, `Solution`). Every method is proved
  against them.
  - `Solve` returns a solution of the starting domains, or `None` only when
    there is none.
  - `Backtrack` is sound and complete relative to the current domains.
- **Where it departs from the textbook.** The source's `ac3` re-queues
  `(x, z)` for the other neighbours `z` of a revised `x`, where the textbook
  re-queues `(z, x)`. Its initial queue holds each neighbour pair in one
  direction only. The model follows the code.
  - It does not claim that the domains are arc consistent when `ac3`
    returns true.
  - It proves that domains only shrink, that no solution is lost, and that
    the loop terminates.
  - It proves that false comes only after some domain was just emptied, and
    that the puzzle then has no solution.
- **Iteration order.** Python iterates sets and dicts in an unspecified
  order. Loops over them pick elements with `:|`, or use `Enumerate`, which
  promises only some order that lists each element once.

**Minesweeper.**

- **State as values.** The AI's `knowledge` is a sequence of sentence values
  `(cells, count)`. Each `Sentence` in the source is its own object, so an
  in-place update of one sentence is a replacement at its index.
- **Soundness.** It is stated against a ghost mine set `mineSet`. When all
  knowledge is true of `mineSet`, `cell` is safe and the reported count is
  right, `AddKnowledge` keeps all knowledge true.
- **Aliasing.** `known_safes` and `known_mines` return the sentence's own
  cell set. The loops at lines 278-288 therefore empty that sentence while
  they mark its cells, and a sentence that is all mines keeps its count.
  `ConcludeSafes` and `ConcludeMines` model exactly this, and the value
  functions `SafesConcluded` and `MinesConcluded` state the resulting
  knowledge.
- **`remove_equal_sentences`, as written.** For a sentence with `k` equal
  copies it removes `k(k-1)/2` copies:
  - with one or two copies, one is left;
  - with three copies, all are removed;
  - with four or more, `list.remove` raises `ValueError`.

  `RemoveEqualSentences` returns `false` exactly in that last case, with
  the removals before the failing one made, and `AddKnowledge` passes the
  `false` on.
- **Whole calls as values.** `Added`, `Settled`, `Concluded` and `Pruned`
  give the state `add_knowledge` leaves, and the methods are proved equal
  to them.

**Tic-tac-toe.**

- **Empty and `math.inf`.** `EMPTY` is Python's `None`, so `Empty` also
  stands for "no winner". `math.inf` is the integer sentinel `INF = 2`,
  outside the utilities -1, 0 and 1.
- **The minimax specification.** Minimax values are given by the ghost
  functions `MaxSpec` and `MinSpec`. `MaxValue`, `MinValue` and `Minimax`
  are proved against them.
- **Termination.** The recursion ends because every move fills one empty
  cell.

**Shopping.**

- **Encoders.** They are `dict.get` over fixed tables and answer `None` for
  unknown keys.
- **`Evaluate`.** It counts true positives and true negatives, and divides
  them as `real` values by the label counts.

## Model

| member | source | states |
|---|---|---|
| CrosswordPuzzle.Overlap | project3/crossword/generate.py:132-135 | the recorded overlap of two slots. The offsets lie inside both slots and name a shared cell |
| CrosswordPuzzle.NoOverlapNoSharedCell | project3/crossword/generate.py:132-135 | two distinct slots with no overlap (`None`) share no cell |
| CrosswordPuzzle.Neighbors | project3/crossword/generate.py:170-171 | the crossing slots of `v`: other slots of the puzzle, never `v` itself |
| CrosswordPuzzle.NeighborsSymmetric | project3/crossword/generate.py:170-171 | `neighbors` is symmetric: exactly the other slots that cross `v` |
| CrosswordConstraints.ConsistentRestrict | project3/crossword/generate.py:212-254 | every sub-assignment of a consistent assignment is consistent |
| CrosswordConstraints.SolutionFromStep | project3/crossword/generate.py:347-352 | a solution extending `a` also extends `a` with its own word for any unassigned slot |
| CrosswordConstraints.NodeFiltered | project3/crossword/generate.py:97-116 | keeps every slot, makes every domain node consistent, and only removes words |
| CrosswordConstraints.NodeFilteredFixpoint | project3/crossword/generate.py:97-116 | the length filter yields node-consistent domains, leaves node-consistent ones unchanged, and is idempotent |
| CrosswordConstraints.NodeFilteredKeepsSolutions | project3/crossword/generate.py:97-116 | the length filter only removes words, and keeps every solution |
| CrosswordConstraints.NodeConsistentIndexable | project3/crossword/generate.py:141 | after node consistency, every overlap offset indexes every candidate word |
| CrosswordConstraints.ShrunkIndexable | project3/crossword/generate.py:141 | shrinking domains keeps every overlap offset indexable |
| CrosswordConstraints.Supported | project3/crossword/generate.py:138-145 | the words of `x` kept by `revise`: exactly those that match some word of `y` at the overlap |
| CrosswordConstraints.SolutionWordsMatch | project3/crossword/generate.py:138-145 | a solution's word for `x` has support in `y`'s domain |
| CrosswordConstraints.RevisedKeepsSolutions | project3/crossword/generate.py:147-149 | removing the unsupported words of `x` loses no solution |
| CrosswordConstraints.ValueStep | project3/crossword/generate.py:349-352 | the solutions extending `a[v := w]` are exactly the solutions extending `a` that give `v` the word `w` |
| CrosswordConstraints.InconsistentNoSolution | project3/crossword/generate.py:351 | an inconsistent assignment has no solution extending it, so the search may skip it |
| CrosswordConstraints.SolutionValueListed | project3/crossword/generate.py:348 | every solution takes a word of `v` that the value ordering lists |
| CrosswordConstraints.ExcludedStep | project3/crossword/generate.py:348-355 | the values tried so far, none of which leads to a solution, grow by one |
| CrosswordConstraints.ExcludedAll | project3/crossword/generate.py:356 | once every listed value has failed, no solution extends `a` |
| CrosswordConstraints.SolutionShrunk | project3/crossword/generate.py:93-95 | a solution over narrowed domains is a solution over the original ones |
| CrosswordConstraints.KeepsSolutionsTrans | project3/crossword/generate.py:177-195 | "no solution lost" composes across revisions |
| CrosswordConstraints.EmptyDomainNoSolution | project3/crossword/generate.py:185-186 | a slot with an empty domain leaves the puzzle without solution |
| CrosswordConstraints.CandidatesShrink | project3/crossword/generate.py:147-150 | removing a word strictly shrinks the set of (slot, word) candidates, which is the termination measure of `ac3` |
| CrosswordConstraints.RuledOutStep | project3/crossword/generate.py:278-285 | counting one more slot adds its clashing candidates when it is unassigned, crosses `x` and is not `x`, and nothing otherwise |
| CrosswordSteps.Misfits | project3/crossword/generate.py:107-110 | the words to remove: exactly those of the wrong length, each listed once |
| CrosswordSteps.HasSupport | project3/crossword/generate.py:139-143 | the flag is set iff some word of `y` matches `wx` at the overlap |
| CrosswordSteps.Unsupported | project3/crossword/generate.py:138-145 | the words to remove: exactly those of `x` without support in `y` |
| CrosswordSteps.InitialArcs | project3/crossword/generate.py:168-173 | the initial queue holds each neighbour pair exactly once, in one direction, with no repeats |
| CrosswordSteps.ArcsFrom | project3/crossword/generate.py:170-173 | one slot's arcs are added to the queue without repeating a pair in either direction |
| CrosswordSteps.Requeue | project3/crossword/generate.py:189-195 | the queue gets `(x, z)` for each other neighbour `z` of `x` unless `(x, z)` or `(z, x)` is queued already (both checks of line 194), and nothing else changes |
| CrosswordSteps.TallyClashes | project3/crossword/generate.py:282-285 | each word's count grows by the number of words of `z` it clashes with |
| CrosswordSteps.TallyWord | project3/crossword/generate.py:283-285 | one word's count grows by its clashes with `z`, and the other counts are unchanged |
| CrosswordSteps.ClashesPrefix | project3/crossword/generate.py:283-285 | scanning one more word of `z` adds one clash exactly when it clashes |
| CrosswordSteps.AllCross | project3/crossword/generate.py:280-284 | every crossing slot's words can be indexed at its overlap with `x` |
| CrosswordSteps.NothingTallied | project3/crossword/generate.py:272 | all counts start at zero |
| CrosswordSteps.ConflictCounts | project3/crossword/generate.py:272-285 | each word of `x` is mapped to the number of candidates of unassigned crossing slots it rules out |
| CrosswordSteps.CountSlot | project3/crossword/generate.py:278-285 | counting one more slot keeps each count equal to the candidates ruled out so far |
| CrosswordSteps.ClashesAdd | project3/crossword/generate.py:284-285 | one more word of `z` adds one clash when it clashes, and none otherwise |
| CrosswordSteps.WordsDistinct | project3/crossword/generate.py:218-225 | true iff no two slots hold the same word |
| CrosswordSteps.LengthsRight | project3/crossword/generate.py:228-230 | true iff every word has its slot's length |
| CrosswordSteps.CrossingsAgree | project3/crossword/generate.py:243-252 | true iff every crossing pair of assigned slots agrees on the shared letter |
| CrosswordSteps.LaterAgree | project3/crossword/generate.py:244-252 | true iff slot `i` agrees with every later slot of the list |
| CrosswordSteps.AgreeFromPairs | project3/crossword/generate.py:243-252 | checking the pairs `i < j` of the list covers every crossing pair |
| CrosswordSteps.OneSlotAgrees | project3/crossword/generate.py:234-235 | a single assigned slot needs no crossing check |
| CrosswordSteps.DomainSizes | project3/crossword/generate.py:302-310 | each unassigned slot is mapped to its domain size |
| CrosswordSteps.Degrees | project3/crossword/generate.py:326-328 | each tied slot is mapped to its number of neighbours |
| CrosswordSteps.Fewest | project3/crossword/generate.py:312-319 | the smallest size, and exactly the slots that have it |
| CrosswordSteps.MostNeighbors | project3/crossword/generate.py:322-330 | a tied slot with the most neighbours |
| CrosswordSteps.FewestThenMostNeighbors | project3/crossword/generate.py:301-330 | an unassigned slot with the smallest domain, and the most neighbours among those tied |
| Iteration.SortByKey | project3/crossword/generate.py:287 | `sorted(..., key=...)`: a permutation of the input in non-decreasing key order |
| CrosswordGrid.OnSlotCells | project3/crossword/generate.py:29-31 | letter `k` of a slot falls on cell `CellOf(v, k)`, and each covered cell is some letter's |
| CrosswordGrid.ConsistentUnanimous | project3/crossword/generate.py:243-252 | a consistent assignment fits the grid, and crossing words agree on every cell |
| CrosswordGrid.PaintWord | project3/crossword/generate.py:28-32 | the slot's cells hold the word's letters, and every other cell is unchanged |
| CrosswordGrid.PaintedStep | project3/crossword/generate.py:27-32 | painting one more word keeps every cell the letter of some covering word, and empty iff uncovered |
| CrosswordGenerate.CrosswordCreator.constructor | project3/crossword/generate.py:9-17 | every slot's domain is the whole vocabulary |
| CrosswordGenerate.CrosswordCreator.RemoveWords | project3/crossword/generate.py:147-149 | `x`'s domain loses exactly the listed words, and the other domains are unchanged |
| CrosswordGenerate.CrosswordCreator.EnforceNodeConsistency | project3/crossword/generate.py:97-116 | each domain becomes the words of its slot's length |
| CrosswordGenerate.CrosswordCreator.FilterLength | project3/crossword/generate.py:108-116 | one slot's domain becomes the words of its length |
| CrosswordGenerate.CrosswordCreator.Revise | project3/crossword/generate.py:119-152 | no overlap: nothing changes. Otherwise `x` keeps exactly its supported words and the other domains are unchanged. True iff a word was removed |
| CrosswordGenerate.CrosswordCreator.KeepSupported | project3/crossword/generate.py:138-152 | `x` keeps its supported words, and the result is true iff a word was removed |
| CrosswordGenerate.CrosswordCreator.AC3 | project3/crossword/generate.py:155-197 | domains only shrink and lose no solution. False only when a domain was just emptied, and then there is no solution. True means no domain was emptied by the call |
| CrosswordGenerate.CrosswordCreator.ReviseArc | project3/crossword/generate.py:179-195 | one turn: only `x`'s domain may change, to its supported words when the slots overlap. Unchanged or emptied: the queue is kept. Otherwise the other neighbours of `x` are re-queued as `Requeued` describes. The candidates strictly shrink on a change, and an emptied domain is reported exactly |
| CrosswordGenerate.CrosswordCreator.AssignmentComplete | project3/crossword/generate.py:200-209 | for an assignment of puzzle slots, complete iff every slot is assigned |
| CrosswordGenerate.CrosswordCreator.Consistent | project3/crossword/generate.py:212-254 | true iff distinct words, right lengths, and every crossing agrees |
| CrosswordGenerate.CrosswordCreator.OrderDomainValues | project3/crossword/generate.py:257-290 | a permutation of `x`'s domain in non-decreasing order of values ruled out |
| CrosswordGenerate.CrosswordCreator.SelectUnassignedVariable | project3/crossword/generate.py:293-330 | an unassigned slot with the fewest remaining words, and the most neighbours among those tied |
| CrosswordGenerate.CrosswordCreator.Backtrack | project3/crossword/generate.py:333-356 | complete `a` is returned as it is. Otherwise the result is a solution extending `a`, and `None` means there is none |
| CrosswordGenerate.CrosswordCreator.TryValue | project3/crossword/generate.py:349-355 | trying `w` for `v` either finds a solution extending `a`, or proves that no solution gives `v` the word `w` |
| CrosswordGenerate.CrosswordCreator.Solve | project3/crossword/generate.py:89-95 | the result solves the puzzle over the starting domains, and `None` means no solution exists |
| CrosswordGenerate.CrosswordCreator.LetterGrid | project3/crossword/generate.py:19-33 | height by width. A cell is empty iff no word covers it, and otherwise holds a covering word's letter, the shared one where the words agree |
| MinesweeperGame.NeighborhoodAtMostEight | project1/minesweeper/minesweeper.py:65-76 | at most eight neighbours, so at most eight mines around a cell |
| MinesweeperGame.NearbyStep | project1/minesweeper/minesweeper.py:69-76 | one scanned cell is counted iff it is not the centre, is in bounds and is a mine |
| MinesweeperGame.NearbyRows | project1/minesweeper/minesweeper.py:66-67 | the scan starts with nothing counted and ends with every near mine counted |
| MinesweeperGame.PyIndex | project1/minesweeper/minesweeper.py:53 | Python list indexing: negative indices count from the end |
| MinesweeperGame.Minesweeper.constructor | project1/minesweeper/minesweeper.py:10-34 | the board marks exactly the placed mines, and none is found yet |
| MinesweeperGame.Minesweeper.IsMine | project1/minesweeper/minesweeper.py:51-53 | the board entry under Python indexing. For an in-bounds cell, whether it is a mine |
| MinesweeperGame.Minesweeper.NearbyMines | project1/minesweeper/minesweeper.py:55-78 | the number of in-bounds mines within one row and column, excluding the cell; 0..8 |
| MinesweeperGame.Minesweeper.Won | project1/minesweeper/minesweeper.py:80-84 | true iff the flagged cells are exactly the mines |
| MinesweeperSentence.KnownMinesAreMines | project1/minesweeper/minesweeper.py:104-111 | a true sentence with count equal to its size is all mines |
| MinesweeperSentence.KnownSafesAreSafe | project1/minesweeper/minesweeper.py:113-120 | a true sentence with count zero holds no mine |
| MinesweeperSentence.AfterMine | project1/minesweeper/minesweeper.py:122-129 | the cell leaves the sentence, nothing else does, and the count less the size is kept |
| MinesweeperSentence.AfterSafe | project1/minesweeper/minesweeper.py:131-137 | the cell leaves the sentence, nothing else does, and the count is kept |
| MinesweeperSentence.AfterMineKeepsTruth | project1/minesweeper/minesweeper.py:122-129 | marking a real mine keeps a sentence true, removes the cell, and is idempotent |
| MinesweeperSentence.AfterSafeKeepsTruth | project1/minesweeper/minesweeper.py:131-137 | marking a safe cell keeps a sentence true, removes the cell, and is idempotent |
| MinesweeperSentence.SubsetInference | project1/minesweeper/minesweeper.py:303-307 | from true `x` and `y` with `y.cells` a subset of `x.cells`, the difference sentence is true |
| MinesweeperSentence.Sentence.constructor | project1/minesweeper/minesweeper.py:94-96 | a sentence over the given cells and count |
| MinesweeperSentence.Sentence.KnownMines | project1/minesweeper/minesweeper.py:104-111 | the cells iff count equals their number, else `None` |
| MinesweeperSentence.Sentence.KnownSafes | project1/minesweeper/minesweeper.py:113-120 | the cells iff count is zero, else `None` |
| MinesweeperSentence.Sentence.MarkMine | project1/minesweeper/minesweeper.py:122-129 | a member leaves the sentence and the count drops by one. A non-member changes nothing |
| MinesweeperSentence.Sentence.MarkSafe | project1/minesweeper/minesweeper.py:131-137 | a member leaves the sentence and the count stays. A non-member changes nothing |
| KnowledgeLists.IndexOf | project1/minesweeper/minesweeper.py:191 | the first position holding `x`, or the length when there is none |
| KnowledgeLists.IndexOfIsFirst | project1/minesweeper/minesweeper.py:191 | any position that is the first holding `x` is `IndexOf` |
| KnowledgeLists.RemoveFirst | project1/minesweeper/minesweeper.py:191 | `list.remove`: one copy fewer, or `None` (`ValueError`) when absent |
| KnowledgeLists.RemoveEach | project1/minesweeper/minesweeper.py:209-211 | a run of `list.remove` calls. When none raises, the list is shorter by the number of removals |
| KnowledgeLists.RemovedSoFar | project1/minesweeper/minesweeper.py:209-211 | the list as the removals leave it, stopping at the first that raises: the full result when none raises, and never more copies of anything than before |
| KnowledgeLists.RemovedSoFarKeeps | project1/minesweeper/minesweeper.py:209-211 | removals, even cut short by a raise, leave only elements that were there |
| KnowledgeLists.RemoveEachCounts | project1/minesweeper/minesweeper.py:209-211 | a run of removals succeeds iff the removed multiset fits, and leaves the multiset difference |
| KnowledgeLists.RemoveEachKeeps | project1/minesweeper/minesweeper.py:209-211 | removals leave only elements that were there |
| KnowledgeLists.Filter | project1/minesweeper/minesweeper.py:186-188 | only elements of the list with the wanted test result |
| KnowledgeLists.FilterSnoc | project1/minesweeper/minesweeper.py:186-188 | filtering a list with one more element adds that element exactly when it passes |
| KnowledgeLists.RemoveFirstPastHead | project1/minesweeper/minesweeper.py:191 | removing a value other than the head acts on the tail |
| KnowledgeLists.RemoveEachPastHead | project1/minesweeper/minesweeper.py:190-191 | removals that never name the head act on the tail |
| KnowledgeLists.RemoveEachHead | project1/minesweeper/minesweeper.py:190-191 | removing the head, then the rest, acts on the tail |
| KnowledgeLists.RemoveEachMatching | project1/minesweeper/minesweeper.py:185-191 | removing the collected empty sentences never raises, and leaves exactly the others in order |
| KnowledgeLists.EqualPairs | project1/minesweeper/minesweeper.py:202-208 | the list of later equal copies collected for every popped sentence; only sentences with at least two copies are collected |
| KnowledgeLists.Copies | project1/minesweeper/minesweeper.py:206-208 | the copies of `s` collected from the rest of the list |
| KnowledgeLists.PairsStep | project1/minesweeper/minesweeper.py:202-208 | one more copy adds that many pairs |
| KnowledgeLists.PairsAgainstCopies | project1/minesweeper/minesweeper.py:209-211 | `k(k-1)/2` removals fit in `k` copies iff `k <= 3`, leaving one copy for `k` of 1 or 2 and none for 3 |
| KnowledgeLists.EqualPairsCount | project1/minesweeper/minesweeper.py:202-208 | a sentence with `k` copies is collected `k(k-1)/2` times |
| KnowledgeLists.RemoveEqualOutcome | project1/minesweeper/minesweeper.py:198-211 | the duplicate removal succeeds iff no sentence occurs four times, and then leaves one copy of sentences that occurred once or twice and none of those that occurred three times |
| KnowledgeLists.RemoveAll | project1/minesweeper/minesweeper.py:209-211 | the loop of removals: true iff none raises, and the list as the removals up to the failing one leave it |
| KnowledgeLists.Collect | project1/minesweeper/minesweeper.py:185-188 | collects exactly the matching elements in order |
| KnowledgeLists.EqualCopies | project1/minesweeper/minesweeper.py:198-208 | collects the equal later copies for each popped sentence |
| KnowledgeLists.Occurs | project1/minesweeper/minesweeper.py:265-269 | `already_exists` iff an equal sentence is in the knowledge |
| MinesweeperAgent.SafeMarkedKeepsTruth | project1/minesweeper/minesweeper.py:170-177 | marking non-mines keeps every sentence true |
| MinesweeperAgent.MineMarkedKeepsTruth | project1/minesweeper/minesweeper.py:161-168 | marking a mine keeps every sentence true |
| MinesweeperAgent.SafeMarkedTwice | project1/minesweeper/minesweeper.py:259-260 | marking `a` and then `b` safe is marking `a + b` safe |
| MinesweeperAgent.SafeMarkedNothing | project1/minesweeper/minesweeper.py:259-260 | marking no cell changes nothing |
| MinesweeperAgent.TrueIsTrueOrEmpty | project1/minesweeper/minesweeper.py:274-288 | all-true knowledge is true-or-emptied |
| MinesweeperAgent.ClearedDropped | project1/minesweeper/minesweeper.py:179-192 | dropping emptied sentences leaves only true ones |
| MinesweeperAgent.DifferenceCard | project1/minesweeper/minesweeper.py:248-249 | removing a subset removes its size |
| MinesweeperAgent.NeighbourSentenceTrue | project1/minesweeper/minesweeper.py:239-263 | the new sentence (unknown neighbours, count less the known mines) is true of the real mines |
| MinesweeperAgent.KnownMinesNear | project1/minesweeper/minesweeper.py:241-256 | on the board, known mines around a cell are its in-bounds neighbours that are known mines |
| MinesweeperAgent.InferFor | project1/minesweeper/minesweeper.py:299-308 | the inferences of one sentence, at most one per sentence of `ys`; what they are is stated by `InferForMembers` |
| MinesweeperAgent.Inferred | project1/minesweeper/minesweeper.py:295-308 | the inferences of every ordered pair, at most one per pair; what they are is stated by `InferredMembers` |
| MinesweeperAgent.InferForMembers | project1/minesweeper/minesweeper.py:299-308 | `z` is collected for `x` iff some other sentence `y` with cells inside `x`'s has difference `z` |
| MinesweeperAgent.InferredMembers | project1/minesweeper/minesweeper.py:295-308 | `z` is in `sentence_to_write` iff it is the difference of some `x` and some other `y` with `y.cells` a subset of `x.cells` |
| MinesweeperAgent.WrittenOne | project1/minesweeper/minesweeper.py:311-322 | one inferred sentence: count zero makes its cells safe and takes them out of every sentence; otherwise it is in the knowledge afterwards, nothing else is added and the safes are unchanged |
| MinesweeperAgent.WriteInferred | project1/minesweeper/minesweeper.py:310-322 | writing the inferred sentences only adds safes, and every inferred sentence of count zero has its cells made safe |
| MinesweeperAgent.MineSetMarked | project1/minesweeper/minesweeper.py:161-168 | marking a set of cells as mines in every sentence keeps the number of sentences |
| MinesweeperAgent.MineSetMarkedBalance | project1/minesweeper/minesweeper.py:161-168 | each sentence keeps only cells it had, loses every marked cell, and keeps its count less its size |
| MinesweeperAgent.MineSetMarkedStep | project1/minesweeper/minesweeper.py:284-288 | marking one more mine in every sentence extends the marked set by that cell |
| MinesweeperAgent.MineSetMarkedNothing | project1/minesweeper/minesweeper.py:284-288 | marking no mines changes nothing |
| MinesweeperAgent.MineSetMarkedKeepsTruth | project1/minesweeper/minesweeper.py:161-168 | marking real mines keeps every true-or-emptied sentence true-or-emptied |
| MinesweeperAgent.SafeMarkedPopped | project1/minesweeper/minesweeper.py:278-281 | removing a cell from its own sentence first, then marking it safe everywhere, is marking it safe everywhere |
| MinesweeperAgent.SafesConcluded | project1/minesweeper/minesweeper.py:275-281 | sentences only lose cells and keep their counts. A sentence of count zero sends its cells to the safes and out of every sentence |
| MinesweeperAgent.MinesConcluded | project1/minesweeper/minesweeper.py:282-288 | sentences only lose cells, and the sentence itself keeps its count. An all-mines sentence sends its cells to the mines and out of every sentence |
| MinesweeperAgent.ConcludedAt | project1/minesweeper/minesweeper.py:274-288 | one turn of the loop keeps the number of sentences and only adds safes and mines |
| MinesweeperAgent.Concluded | project1/minesweeper/minesweeper.py:274-288 | the first `n` turns of the loop keep the number of sentences and only add safes and mines |
| MinesweeperAgent.SafesConcludedKeepsTruth | project1/minesweeper/minesweeper.py:275-281 | the safes a sentence concludes are not mines, and true-or-emptied knowledge stays so |
| MinesweeperAgent.MinesConcludedKeepsTruth | project1/minesweeper/minesweeper.py:282-288 | the mines a sentence concludes are real mines, and true-or-emptied knowledge stays so |
| MinesweeperAgent.Pruned | project1/minesweeper/minesweeper.py:291-292 | the two removals: no raise iff no sentence with cells occurs four times, and only old sentences with cells are left |
| MinesweeperAgent.PrunedOutcome | project1/minesweeper/minesweeper.py:291-292 | the same facts, stated on the lists of sentences to remove |
| MinesweeperAgent.NeighbourAdded | project1/minesweeper/minesweeper.py:239-271 | safes only grow, and a nonzero adjusted count leaves the neighbour sentence in the knowledge |
| MinesweeperAgent.Added | project1/minesweeper/minesweeper.py:216-328 | `cell` is safe, safes and mines only grow, and no sentence is left empty |
| MinesweeperAgent.Settled | project1/minesweeper/minesweeper.py:273-327 | safes and mines only grow, and no sentence is left empty |
| MinesweeperAgent.InferForTrue | project1/minesweeper/minesweeper.py:299-308 | inferences of one true sentence against true sentences are true |
| MinesweeperAgent.InferredTrue | project1/minesweeper/minesweeper.py:295-308 | every sentence drawn by the subset rule from true knowledge is true |
| MinesweeperAgent.SubsetInferences | project1/minesweeper/minesweeper.py:295-308 | `sentence_to_write` for every ordered pair of distinct sentences with a subset relation |
| MinesweeperAgent.InferAgainst | project1/minesweeper/minesweeper.py:299-308 | the inner loop's inferences for one sentence |
| MinesweeperAgent.ScanBounds | project1/minesweeper/minesweeper.py:241-242 | the neighbour scan starts with nothing and ends having passed every unknown cell and known mine |
| MinesweeperAgent.ScanNextRow | project1/minesweeper/minesweeper.py:241-242 | the end of one scanned row is the start of the next |
| MinesweeperAgent.ScanStep | project1/minesweeper/minesweeper.py:243-256 | one scanned cell is kept, counted as a known mine, or skipped, exactly as the branches decide |
| MinesweeperAgent.MinesweeperAI.constructor | project1/minesweeper/minesweeper.py:145-159 | nothing played or known, which is true of every mine set |
| MinesweeperAgent.MinesweeperAI.MarkMine | project1/minesweeper/minesweeper.py:161-168 | `cell` joins `mines`, every sentence marks it as a mine, and no sentence keeps it |
| MinesweeperAgent.MinesweeperAI.MarkSafe | project1/minesweeper/minesweeper.py:170-177 | `cell` joins `safes`, every sentence marks it safe, and no sentence keeps it |
| MinesweeperAgent.MinesweeperAI.RemoveNoCells | project1/minesweeper/minesweeper.py:179-192 | exactly the sentences with cells are left, in order |
| MinesweeperAgent.MinesweeperAI.RemoveEqualSentences | project1/minesweeper/minesweeper.py:194-214 | raises iff some sentence occurs four or more times. Otherwise one copy is left of sentences occurring once or twice, and none of those occurring three times. On a raise, the removals before the failing one have been made (`RemovedSoFar`) |
| MinesweeperAgent.MinesweeperAI.NeighbourCells | project1/minesweeper/minesweeper.py:239-256 | the unknown in-bounds neighbours, and the count less the known mines around the cell |
| MinesweeperAgent.MinesweeperAI.ScanRow | project1/minesweeper/minesweeper.py:242-256 | one row of the scan advances both results by that row |
| MinesweeperAgent.MinesweeperAI.AddNeighbourSentence | project1/minesweeper/minesweeper.py:257-271 | the knowledge and safes become `NeighbourAdded` of the old ones. Count zero: the unknown neighbours are marked safe. Otherwise the sentence is appended unless present. Soundness is kept |
| MinesweeperAgent.MinesweeperAI.MarkSafeEach | project1/minesweeper/minesweeper.py:259-260 | all the cells join `safes` and leave every sentence. Soundness is kept |
| MinesweeperAgent.MinesweeperAI.ConcludeFrom | project1/minesweeper/minesweeper.py:274-288 | the new knowledge, safes and mines are `ConcludedAt` of the old ones: a known-safe or known-mine sentence loses its cells to `safes` or `mines`. Soundness is kept |
| MinesweeperAgent.MinesweeperAI.ConcludeSafes | project1/minesweeper/minesweeper.py:275-281 | the new knowledge and safes are `SafesConcluded` of the old ones. Count zero: its cells become safe and it is emptied. Otherwise nothing changes |
| MinesweeperAgent.MinesweeperAI.ConcludeMines | project1/minesweeper/minesweeper.py:282-288 | the new knowledge and mines are `MinesConcluded` of the old ones. Count equal to the size: its cells become mines and it is emptied with its count kept. Otherwise nothing changes |
| MinesweeperAgent.MinesweeperAI.PopSafes | project1/minesweeper/minesweeper.py:278-281 | every cell of the sentence is marked safe in every sentence and joins `safes`; nothing else changes |
| MinesweeperAgent.MinesweeperAI.PopMines | project1/minesweeper/minesweeper.py:284-288 | every cell of the sentence is marked a mine in every other sentence and joins `mines`; the sentence is emptied with its count kept |
| MinesweeperAgent.MinesweeperAI.PopMine | project1/minesweeper/minesweeper.py:285-288 | a cell of the sentence leaves it, is marked a mine in every sentence and joins `mines`; nothing else changes |
| MinesweeperAgent.MinesweeperAI.MarkConcludedCells | project1/minesweeper/minesweeper.py:274-288 | the new state is `Concluded` over every sentence, keeping soundness |
| MinesweeperAgent.MinesweeperAI.InferFromSubsets | project1/minesweeper/minesweeper.py:295-324 | the knowledge and safes after writing each inferred sentence, with soundness kept |
| MinesweeperAgent.MinesweeperAI.Prune | project1/minesweeper/minesweeper.py:291-292 | the flag and knowledge are `Pruned` of the old knowledge: only old sentences with cells are left, and true-or-emptied knowledge becomes true |
| MinesweeperAgent.MinesweeperAI.WriteOne | project1/minesweeper/minesweeper.py:311-322 | the knowledge and safes become `WrittenOne` of the old ones, and a true sentence keeps soundness |
| MinesweeperAgent.MinesweeperAI.AddKnowledge | project1/minesweeper/minesweeper.py:216-328 | the flag, knowledge, safes and mines are `Added` of the old ones. `cell` is played and safe, and the sets only grow. No sentence is empty. Knowledge true of the mines stays true |
| MinesweeperAgent.MinesweeperAI.DrawConclusions | project1/minesweeper/minesweeper.py:273-327 | the flag and new state are `Settled` of the old state; the sets only grow, no sentence is empty, and soundness is kept |
| MinesweeperAgent.MinesweeperAI.MakeSafeMove | project1/minesweeper/minesweeper.py:330-343 | a safe unplayed cell, or `None` iff none exists. Nothing changes |
| TicTacToe.EmptyCells | project0/tictactoe/tictactoe.py:43-54 | exactly the free cells of the board |
| TicTacToe.InitialState | project0/tictactoe/tictactoe.py:13-19 | a 3 by 3 board of empty cells, all nine of them free |
| TicTacToe.Player | project0/tictactoe/tictactoe.py:22-40 | X iff the two marks are equally many, otherwise O |
| TicTacToe.RowCountEmpty | project0/tictactoe/tictactoe.py:28-33 | an all-empty row holds no mark |
| TicTacToe.XMovesFirst | project0/tictactoe/tictactoe.py:13-40 | X moves on the initial board |
| TicTacToe.Actions | project0/tictactoe/tictactoe.py:43-54 | exactly the cells holding `EMPTY` |
| TicTacToe.Result | project0/tictactoe/tictactoe.py:57-66 | a new 3 by 3 board |
| TicTacToe.ResultMarksOneCell | project0/tictactoe/tictactoe.py:57-66 | the action's cell holds the mover's mark, and every other cell is as before |
| TicTacToe.ResultFillsOneCell | project0/tictactoe/tictactoe.py:57-66 | a legal move removes exactly its cell from the free cells |
| TicTacToe.RowCountUpdate | project0/tictactoe/tictactoe.py:28-33 | writing one cell changes a row's count of a mark by that cell alone |
| TicTacToe.BoardCountUpdate | project0/tictactoe/tictactoe.py:28-33 | writing one cell changes the board's count of a mark by that cell alone |
| TicTacToe.TurnsAlternate | project0/tictactoe/tictactoe.py:37-40 | in play from the initial board, a move hands the turn to the other player |
| TicTacToe.WinnerFromFindsLine | project0/tictactoe/tictactoe.py:74-100 | the checks from line `k` on return a player only with a complete line, and `None` iff none is complete |
| TicTacToe.WinnerHoldsLine | project0/tictactoe/tictactoe.py:69-100 | a winner holds a complete line. No winner iff no line is complete |
| TicTacToe.CellAt | project0/tictactoe/tictactoe.py:109-111 | cell number `k` in row-major order |
| TicTacToe.FreeFromFindsCell | project0/tictactoe/tictactoe.py:109-112 | the scan from cell `k` finds a free cell iff one exists |
| TicTacToe.FreeIffMoves | project0/tictactoe/tictactoe.py:107-115 | the scan finds a free cell iff there is a legal move |
| TicTacToe.Terminal | project0/tictactoe/tictactoe.py:103-115 | over iff there is a winner or no free cell |
| TicTacToe.Utility | project0/tictactoe/tictactoe.py:118-128 | 1, -1 or 0 iff the winner is X, O or none |
| TicTacToe.ResultLosesAMove | project0/tictactoe/tictactoe.py:166-167 | a move strictly shrinks the free cells, so the recursion ends |
| TicTacToe.MaxSpecIsUtility | project0/tictactoe/tictactoe.py:159-168 | the max value is always -1, 0 or 1 |
| TicTacToe.MinSpecIsUtility | project0/tictactoe/tictactoe.py:171-180 | the min value is always -1, 0 or 1 |
| TicTacToe.MaxFromBound | project0/tictactoe/tictactoe.py:166-167 | every move from cell `k` on is at most the running maximum |
| TicTacToe.MaxFromNone | project0/tictactoe/tictactoe.py:163 | with no move from cell `k` on, the maximum is `-inf` |
| TicTacToe.MaxFromAttained | project0/tictactoe/tictactoe.py:166-167 | with a move from cell `k` on, the maximum is attained by one of them |
| TicTacToe.MaxOverMovesIsBest | project0/tictactoe/tictactoe.py:163-168 | some legal move attains the maximum, and none exceeds it |
| TicTacToe.MinFromBound | project0/tictactoe/tictactoe.py:178-179 | every move from cell `k` on is at least the running minimum |
| TicTacToe.MinFromNone | project0/tictactoe/tictactoe.py:175 | with no move from cell `k` on, the minimum is `inf` |
| TicTacToe.MinFromAttained | project0/tictactoe/tictactoe.py:178-179 | with a move from cell `k` on, the minimum is attained by one of them |
| TicTacToe.MinOverMovesIsBest | project0/tictactoe/tictactoe.py:175-180 | some legal move attains the minimum, and none goes below it |
| TicTacToe.MaxValue | project0/tictactoe/tictactoe.py:159-168 | the minimax value with X to choose, in -1..1 |
| TicTacToe.MinValue | project0/tictactoe/tictactoe.py:171-180 | the minimax value with O to choose, in -1..1 |
| TicTacToe.Minimax | project0/tictactoe/tictactoe.py:131-156 | `None` iff no free cell. Otherwise a free cell that is optimal for the mover: the largest `minValue` for X, the smallest `maxValue` for O |
| Shopping.Get | project4/shopping/shopping.py:135 | `dict.get`: the stored value iff the key is present, else `None` |
| Shopping.MonthToInt | project4/shopping/shopping.py:147-163 | defined iff the name is one of the twelve, and then its calendar index 0..11 |
| Shopping.VisitToInt | project4/shopping/shopping.py:128-135 | 1 iff a returning visitor, 0 iff new or other, `None` otherwise |
| Shopping.TrueOrFalse | project4/shopping/shopping.py:138-144 | 1 iff "TRUE", 0 iff "FALSE", `None` otherwise |
| Shopping.MonthCodesInOrder | project4/shopping/shopping.py:148-161 | "Jan" to "Dec" (with "June") map to 0..11 in order |
| Shopping.MonthToIntInjective | project4/shopping/shopping.py:148-161 | no two month names share a code |
| Shopping.TablesAreCaseSensitive | project4/shopping/shopping.py:128-163 | lookups are exact: "Jun", "jan", "True" and the like are `None` |
| Shopping.AgreementsAtMostOccurrences | project4/shopping/shopping.py:192-196 | matches on `v` never exceed the labels equal to `v` |
| Shopping.OccurrencesMonotone | project4/shopping/shopping.py:198 | counting a longer prefix never finds fewer |
| Shopping.RateInUnitInterval | project4/shopping/shopping.py:198 | a part over a larger positive whole lies in [0, 1] |
| Shopping.Evaluate | project4/shopping/shopping.py:175-198 | true positives over positives and true negatives over negatives, each in [0, 1]. `None` when either count is zero |

## Left out

- **Display and I/O.**
  - `print`, `save` and `main` of the crossword generator.
  - `Minesweeper.print` and `Sentence.__str__`.
  - `main`, `load_data`, `create_list` and `train_model` of the shopping
    classifier.

  These are terminal, file, CSV or image I/O, or calls into scikit-learn.
- **The puzzle parser.** It builds slots, overlaps and the vocabulary.
  `crossword.py` is not part of this model. Its output is a `Crossword`
  value assumed `WellFormed`.
- **Randomness.** Random mine placement in `Minesweeper.__init__` is the
  constructor's `placed` parameter. `make_random_move` uses
  `random.randrange` and is not modelled.
- **Floating point.** The division in `evaluate` is exact `real` division.
  Where the source raises `ZeroDivisionError` (no positive or no negative
  label), the model returns `None`.
- **Iteration order.** Python's set and dict order is any order here. The
  model states results for every order.
- **Sort order.** `sorted`'s stability is not stated: `SortByKey` promises
  a permutation in key order, not the order of equal keys.
- AC3: proves no arc-consistency claim on true. The source's queue
  re-adds `(x, z)` rather than `(z, x)`, so domains may still hold
  unsupported words when it returns. A true answer does not promise
  non-empty domains either, because a domain that was empty before `ac3`
  never makes `revise` remove a word.
- Revise: requires `x != y` and that every overlap offset indexes every
  candidate word. AC3, ReviseArc, OrderDomainValues and Backtrack require the
  same indexing property. The source raises `KeyError` or `IndexError`
  outside these cases. `Solve` establishes the indexing property through
  node consistency before using them.
- LetterGrid: requires every assigned letter to fall inside the grid.
  Python's negative indices and the `IndexError` past the edge are not
  modelled there.
- Result: requires the action to be on the board. Python's `IndexError`
  and negative indices are not modelled there.
- **remove_equal_sentences.** Its `list_to_keep` is never read, so it is not
  modelled.
- AddKnowledge: models the `ValueError` of a failing removal as the
  result `false`. The work done up to it stays, including the removals
  made before the one that raises (`RemovedSoFar`).
- Evaluate: requires `|predictions| <= |labels|`. The source raises
  `IndexError` otherwise; its only caller passes a prediction per label.
- TallyWord: adds a word's clash count once, where the source adds 1 per
  clash. The final counts are the same.
- **Proof splits.** `KeepSupported`, `ReviseArc`, `TryValue`, `CountSlot`,
  `ScanRow`, `PopSafes`, `PopMines`, `PopMine`, `WriteOne`,
  `DrawConclusions` and the `Conclude*` methods divide one source loop or
  function into proof-sized steps. They add no behaviour.
- **Knowledge as values.** The agent's knowledge holds sentence values, not
  shared `Sentence` objects. The source does share them:
  - `list_to_verify` (line 199) and `all_sentences` (line 296) are shallow
    copies of `knowledge`;
  - an appended `z` (line 322) stays in `sentence_to_write`, and a later
    `z` of count zero mutates it through `mark_safe`.

  Nothing observable is lost all the same. No object occurs twice in
  `knowledge`. The copies are only read while nothing mutates them. An
  appended `z` is mutated only after the write loop has passed it. The
  one aliasing that matters, the cell set `known_safes` and `known_mines`
  return, is modelled.
