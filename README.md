# Sparse Game of Life engine of multiconway, in Dafny

multiconway is a shared Game of Life board. Clients place coloured live cells, and a timer advances
the board one generation every few seconds. The engine keeps one store of *tracked* cells. A tracked
cell has a position, a colour and an alive flag. Dead cells enter the store as a frontier around
live ones. A cell leaves the store only when an insert replaces it with a live cell at the same
position, so no tracked position is ever lost and the store only grows; the board is unbounded
and sparse. This project models that engine and proves:

- the store's invariants (one cell per position; every live cell has its 8 Moore neighbours tracked);
- that each operation keeps those invariants;
- the step's transition rule, and its independence from the order in which cells are visited;
- the frontier's growth;
- the read view;
- a few classic patterns (the block, the blinker and an L-tromino that fills in to a block).

Files and modules:

- `cells.dfy` (`Cells`): the cell record, its dictionary view, positions, Moore neighbourhoods,
  and the two store invariants `Unique` and `Framed`.
- `neighbors.dfy` (`Counting`): the live-neighbour count as a function over the scan, and what it
  equals when positions are unique.
- `frontier.dfy` (`Frontier`): frontier expansion around a cell, as a function of the store.
- `insert.dfy` (`InsertCell`): insert-or-replace of a live cell, as a function of the store.
- `step.dfy` (`Generations`): one generation step, as a function of the store.
- `game.dfy` (`Engine`): the store as a class `Board`, whose methods are the engine's loops.
  Each method is proved equal to the function above it. Each state-changing method also keeps
  `Valid()` (both invariants).
- `patterns.dfy` (`Patterns`): still life, oscillator and birth examples, proved against the step.

Modelling choices:

- The store is a Python `set` of `Cell` objects. `Cell` defines no equality or hash, so the set
  compares cells by identity. It is modelled as a `seq<Cell>`:
  - the sequence order stands for the set's iteration order;
  - an add appends at the end;
  - two entries may share a position, so one position per cell is an invariant (`Unique`), not a
    property of the type.
- Coordinates and colour components are unbounded integers. The code checks neither bounds nor
  colour ranges, and neither does the model.
- In the step, the underpopulation test reads `adj == 1 or (adj == 0 and alive)` because of Python's
  operator precedence. For a dead cell with one live neighbour it sets `alive` to false, which it
  already is; the cell is also carried over as dead. `Engine.Transition` proves that the four
  rules and the carry-over, as written, add every copy exactly once, with Conway's next state. So
  the precedence changes nothing.
- `app.py` has no bounds on the board, no snapshot persistence, and no special case for a step on
  an empty board. The model has none either: a step on an empty store leaves it empty
  (`Generations.StepKeepsTracked`).

## Model

| member | source | states |
|---|---|---|
| Cells.Moore | app.py:113-128 | the 8 offsets tested are exactly the positions that differ from p by at most one step on each axis, and there are 8 of them |
| Counting.LiveNeighborsIsCard | app.py:109-129 | with unique positions, the count is the number of Moore positions of p that hold an alive cell; dead cells and p itself are never counted |
| Counting.NeighborsBounded | app.py:109-129 | with unique positions, the count is at most 8 |
| Counting.NeighborsOrderIndependent | app.py:109-129 | with unique positions, the count depends only on the set of alive positions, not on scan order or on the dead cells |
| Engine.Board.Neighbors | app.py:109-129 | the eight literal offset tests, in the source's order, compute the live-neighbour count; with unique positions it is between 0 and 8 |
| Engine.Board.CellAt | app.py:131-135 | the early-return scan answers true exactly when some tracked cell, alive or dead, is at (x, y) |
| Frontier.FrontierOrder | app.py:98-107 | the add order has 8 entries and covers exactly the Moore neighbourhood of c |
| Frontier.FillAllSpec | app.py:98-107 | the guarded adds only append; each appended cell is a dead placeholder in c's colour at an untracked position of the list, no two at the same position; the tracked positions become the old ones plus the list; uniqueness is kept |
| Frontier.FillAllNoop | app.py:99-107 | when every position is already tracked, nothing is added |
| Frontier.ExpandOnlyFillsGaps | app.py:97-107 | expansion keeps the old store as a prefix and adds at most 8 cells, each dead, in c's colour, at a Moore position of c that was untracked |
| Frontier.ExpandCompletesFrontier | app.py:97-107 | afterwards the tracked positions are exactly the old ones plus the Moore neighbourhood of c |
| Frontier.ExpandKeepsUnique | app.py:97-107 | expansion keeps positions unique |
| Frontier.ExpandIdempotent | app.py:97-107 | a second expansion around the same cell changes nothing |
| Frontier.ExpandKeepsFramed | app.py:97-107 | expansion keeps every alive cell's frontier tracked |
| Frontier.ExpandKeepsLive | app.py:97-107 | expansion leaves the alive positions unchanged |
| Frontier.ExpandFramesAround | app.py:97-107 | expansion around c frames the store when every other alive cell was framed before |
| Engine.Board.AddDeadCellsAround | app.py:97-107 | the loop over -1..1 and the two side adds leave exactly the expansion of the old store around c; the store invariant is kept |
| InsertCell.FirstAt | app.py:38-39 | the scan stops at the first cell at p; no earlier cell is at p; it reaches the end only when no cell is at p |
| InsertCell.RemoveFirstAtSpec | app.py:38-41 | removal keeps every cell at another position and adds none; with unique positions no cell at p is left and uniqueness is kept |
| InsertCell.ReplacedPositions | app.py:38-42 | after the removal and the add, the tracked positions are the old ones plus (x, y) |
| InsertCell.InsertKeepsUnique | app.py:37-43 | inserting keeps positions unique |
| InsertCell.InsertPlacesCell | app.py:37-43 | with unique positions, after inserting the new live cell with the given colour is in the store and is the only cell at (x, y) |
| InsertCell.InsertKeepsOthers | app.py:37-43 | every cell at another position stays; the tracked positions become the old ones, (x, y) and its Moore neighbourhood |
| InsertCell.InsertLive | app.py:37-43 | with unique positions, after inserting the alive positions are the old ones plus (x, y) |
| InsertCell.InsertKeepsFramed | app.py:37-43 | inserting keeps every alive cell's frontier tracked |
| Engine.Board.AddCell | app.py:37-43 | the scan-remove-break, the add and the expansion leave exactly the insert of the old store; the store invariant is kept |
| Engine.Transition | app.py:65-89 | rules 1-4 and the carry-over, as written with the source's precedence, add the copy exactly once, with Conway's next state, and mark it newborn exactly when a dead cell has 3 live neighbours |
| Generations.BirthsSpec | app.py:82-85 | the newborn list holds exactly the alive copies of the cells that are born |
| Generations.StepKeepsTracked | app.py:60-91 | each old cell has exactly one copy, at the same index, with the same position and colour and Conway's next state for its count against the old generation; nothing tracked is dropped; an empty store stays empty |
| Generations.GenerationPositions | app.py:63-91 | the copies have the same positions as the old cells, and stay unique when those were |
| Generations.StepKeepsUnique | app.py:57-93 | a step keeps positions unique |
| Generations.StepPositions | app.py:85-93 | after a step the tracked positions are the old ones plus the Moore neighbourhoods of the newborns; every newborn has all 8 neighbours tracked |
| Generations.StepKeepsFramed | app.py:57-93 | a step keeps every alive cell's frontier tracked |
| Generations.NewbornFramed | app.py:82-93 | with unique positions, a position that comes alive in a step has all 8 Moore neighbours tracked afterwards |
| Generations.StepLive | app.py:63-91 | with unique positions, a position is alive after a step exactly when it was tracked and Conway's rule holds for its old state and old count |
| Generations.PlaneLife | app.py:57-93 | in a store with unique positions where every alive cell has its frontier tracked, a position is alive next exactly when Conway's rule holds for its state and the number of alive positions around it: the sparse step is Life on the unbounded plane |
| Generations.UntrackedIsolated | app.py:97-107 | in such a store a position with an alive Moore neighbour is tracked |
| Generations.StepOrderIndependent | app.py:60-91 | two scan orders of the same store give the same alive positions and the same tracked positions after a step |
| Generations.ExpandAllPositions | app.py:92-93 | expanding around each newborn in turn tracks exactly the old positions plus all their Moore neighbourhoods |
| Generations.ExpandAllExtends | app.py:92-93 | those expansions only append dead cells |
| Generations.ExpandAllKeepsUnique | app.py:92-93 | those expansions keep positions unique |
| Engine.Board.Step | app.py:57-93 | the copy loop, the swap and the expansion loop leave exactly the next state of the old store; the store invariant is kept |
| Engine.Board.GetCells | app.py:48-55 | the view's keys are the scan indices of the alive cells, each with position and colour and no alive flag; it shows exactly the alive positions |
| Engine.ViewPositions | app.py:19-20 | a view built from the alive cells' dictionaries shows exactly the alive positions |
| Engine.Board.constructor | app.py:21 | the store starts empty, which satisfies the invariant |
| Patterns.BlockIsStillLife | app.py:63-93 | a 2x2 block stays the same 2x2 block |
| Patterns.BlinkerTurnsVertical | app.py:63-93 | a horizontal blinker whose middle has the positions above and below it tracked becomes vertical |
| Patterns.BlinkerTurnsHorizontal | app.py:63-93 | a vertical blinker whose middle has the positions beside it tracked becomes horizontal |
| Patterns.BlinkerOscillates | app.py:57-93 | the blinker returns to its first shape after two steps |
| Patterns.TrominoBirth | app.py:63-93 | an L-tromino with its corner tracked fills in to a block, and the newborn corner gets its whole frontier |
| Patterns.StepAroundThree | app.py:63-91 | a store whose alive positions are three given positions is alive next exactly at the tracked positions where Conway's rule holds around those three |
| Patterns.StepAroundFour | app.py:63-91 | the same around four given positions |

## Left out

- The Flask routes and static files (app.py:23-30), including `/info`. They serve files or report
  the store's size, and hold no engine logic.
- JSON parsing and the HTTP answers of the add-cell request (app.py:34-36, 44-46): the missing-body
  check and the 200/404 codes. `Engine.Board.AddCell` takes integers that are already parsed.
- The background scheduler (app.py:137-139) and concurrency. The code has no locking. Each
  operation is modelled as atomic, one after the other.
- Logging and the step's timing with `datetime` (app.py:58, 95), and `Cell.__str__` (app.py:17-18),
  which only formats text.
- The browser client `public/game.js` (drawing, events, random colours, pixel conversion).
  `public/game.js` is not part of this model.
- Object identity: a cell is a value here. The step does share objects: a newborn copy is put both
  in the new set and in the newborn list (app.py:84-85), and the expansion later reads that stored
  object (app.py:92-93). But no cell is changed after it is stored: the step copies each cell
  before changing it, each `alive` assignment (app.py:69, 78, 83) comes before that copy's first
  add, and the branches that assign exclude each other. So nothing observable depends on
  identity, except that the set, comparing by identity, can hold two cells at one position. The
  `seq` model keeps that.
- Set iteration order: Python does not specify the order in which a `set` is scanned. The model fixes
  it as insertion order, with the new generation scanned in the old generation's order.
  `Generations.StepOrderIndependent` shows that the alive and tracked positions after a step do not
  depend on that order.
- Generations.StepOrderIndependent: compares only the alive and tracked positions. A placeholder
  added around two newborns at once takes the colour of whichever newborn is expanded first. Its
  colour, and the order of the store, can therefore depend on the scan order.
