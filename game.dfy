/** The shared cell store and the operations the web handlers and the timer run on it. */
module Engine {
  import opened Cells
  import opened Counting
  import opened Frontier
  import opened InsertCell
  import opened Generations

  /** The single global store of tracked cells, alive and dead. The sequence order is the order
      in which the store is scanned; new cells are appended at its end. */
  class Board {
    var cells: seq<Cell>

    /** The invariant every operation keeps: positions are unique and every alive cell
        has its 8 Moore neighbours tracked. */
    ghost predicate Valid()
      reads this
    {
      Unique(cells) && Framed(cells)
    }

    /** The store starts empty. */
    constructor ()
      ensures cells == [] && Valid()
    {
      cells := [];
    }

    /** Scans the store for a cell, alive or dead, at (x, y); stops at the first one. */
    method CellAt(x: int, y: int) returns (found: bool)
      ensures found <==> (x, y) in Positions(cells)
    {
      for i := 0 to |cells|
        invariant forall k :: 0 <= k < i ==> PosOf(cells[k]) != (x, y)
      {
        if cells[i].x == x && cells[i].y == y {
          assert cells[i] in cells;
          return true;
        }
      }
      return false;
    }

    /** Counts the alive cells at the 8 Moore offsets of cell, testing each offset of each scanned cell.
        The offset labels are the source's own: they say where c lies from cell, taking y + 1 as up. */
    method Neighbors(cell: Cell) returns (out: int)
      ensures out == LiveNeighbors(cells, PosOf(cell))
      ensures Unique(cells) ==> 0 <= out <= 8
    {
      out := 0;
      for i := 0 to |cells|
        invariant out == LiveNeighbors(cells[..i], PosOf(cell))
      {
        var c := cells[i];
        assert cells[..i + 1][..i] == cells[..i];
        if c.alive {
          if cell.x == c.x + 1 && cell.y == c.y - 1 { out := out + 1; }  // upper left
          if cell.x == c.x && cell.y == c.y - 1 { out := out + 1; }      // upper middle
          if cell.x == c.x - 1 && cell.y == c.y - 1 { out := out + 1; }  // upper right
          if cell.x == c.x + 1 && cell.y == c.y { out := out + 1; }      // middle left
          if cell.x == c.x - 1 && cell.y == c.y { out := out + 1; }      // middle right
          if cell.x == c.x + 1 && cell.y == c.y + 1 { out := out + 1; }  // lower left
          if cell.x == c.x && cell.y == c.y + 1 { out := out + 1; }      // lower middle
          if cell.x == c.x - 1 && cell.y == c.y + 1 { out := out + 1; }  // lower right
        }
      }
      assert cells[..|cells|] == cells;
      if Unique(cells) {
        NeighborsBounded(cells, PosOf(cell));
      }
    }

    /** Adds a dead cell in c's colour at every Moore position of c where no cell is tracked. */
    method AddDeadCellsAround(c: Cell)
      modifies this
      ensures cells == Expand(old(cells), c)
      ensures old(Valid()) ==> Valid()
    {
      ghost var ps := FrontierOrder(c);
      for i := -1 to 2
        invariant cells == FillAll(old(cells), ps[..2 * (i + 1)], c)
      {
        ghost var n := 2 * (i + 1);
        assert ps[n] == (c.x + i, c.y + 1) && ps[n + 1] == (c.x + i, c.y - 1) by {
          if i == -1 {} else if i == 0 {} else {}
        }
        assert ps[..n + 1][..n] == ps[..n] && ps[..n + 2][..n + 1] == ps[..n + 1];
        var t := CellAt(c.x + i, c.y + 1);
        if !t {
          cells := cells + [Cell(c.x + i, c.y + 1, c.r, c.g, c.b, false)];
        }
        t := CellAt(c.x + i, c.y - 1);
        if !t {
          cells := cells + [Cell(c.x + i, c.y - 1, c.r, c.g, c.b, false)];
        }
      }
      assert ps[..7][..6] == ps[..6] && ps[..8][..7] == ps[..7] && ps[..8] == ps;
      var t := CellAt(c.x + 1, c.y);
      if !t {
        cells := cells + [Cell(c.x + 1, c.y, c.r, c.g, c.b, false)];
      }
      assert cells == FillAll(old(cells), ps[..7], c);
      t := CellAt(c.x - 1, c.y);
      if !t {
        cells := cells + [Cell(c.x - 1, c.y, c.r, c.g, c.b, false)];
      }
      assert cells == FillAll(old(cells), ps[..8], c);
      if old(Valid()) {
        ExpandKeepsUnique(old(cells), c);
        ExpandKeepsFramed(old(cells), c);
      }
    }

    /** Inserts a live cell at (x, y) in the given colour, replacing the cell there if there is one,
        and expands the frontier around it. */
    method AddCell(x: int, y: int, r: int, g: int, b: int)
      modifies this
      ensures cells == Insert(old(cells), x, y, r, g, b)
      ensures old(Valid()) ==> Valid()
    {
      var nc := Cell(x, y, r, g, b, true);
      ghost var before := cells;
      for i := 0 to |cells|
        invariant cells == before
        invariant forall k :: 0 <= k < i ==> PosOf(cells[k]) != (x, y)
      {
        if cells[i].x == nc.x && cells[i].y == nc.y {
          assert FirstAt(before, (x, y)) == i;
          cells := cells[..i] + cells[i + 1..];
          break;
        }
      }
      assert cells == RemoveFirstAt(before, (x, y));
      cells := cells + [nc];
      AddDeadCellsAround(Cell(x, y, r, g, b, true));
      if old(Valid()) {
        InsertKeepsUnique(before, x, y, r, g, b);
        InsertKeepsFramed(before, x, y, r, g, b);
      }
    }

    /** The read view: for every alive cell, keyed by its index in one scan of the store,
        its position and colour without the alive flag. */
    method GetCells() returns (out: map<int, CellDict>)
      ensures out.Keys == set k | 0 <= k < |cells| && cells[k].alive
      ensures forall k :: k in out ==> out[k] == ToDict(cells[k])
      ensures (set v | v in out.Values :: (v.x, v.y)) == LivePositions(cells)
    {
      out := map[];
      var clist := cells;
      for i := 0 to |clist|
        invariant out.Keys == set k | 0 <= k < i && clist[k].alive
        invariant forall k :: k in out ==> out[k] == ToDict(clist[k])
      {
        if clist[i].alive {
          out := out[i := ToDict(clist[i])];
        }
      }
      ViewPositions(cells, out);
    }

    /** Advances one generation. Every cell is copied and given its next state from its count
        against the current store, which is left untouched until all copies exist; the copies
        then replace the store, and the frontier is expanded around each newborn. */
    method Step()
      modifies this
      ensures cells == NextState(old(cells))
      ensures old(Valid()) ==> Valid()
    {
      ghost var gen := cells;
      var newcells: seq<Cell> := [];
      var newcpos: seq<Cell> := [];
      for i := 0 to |cells|
        invariant cells == gen
        invariant |newcells| == i && forall k :: 0 <= k < i ==> newcells[k] == Successor(gen, gen[k])
        invariant newcpos == Births(gen, gen[..i])
      {
        var c := cells[i];
        var adj := Neighbors(c);
        var newc, added, born := Transition(c, adj);
        if born {
          newcpos := newcpos + [newc];
        }
        // the copy enters the new set once, however many of the rules added it
        if added {
          newcells := newcells + [newc];
        }
        assert gen[..i + 1][..i] == gen[..i];
      }
      assert newcells == Generation(gen);
      assert gen[..|gen|] == gen;
      cells := newcells;
      for j := 0 to |newcpos|
        invariant cells == ExpandAll(newcells, newcpos[..j])
      {
        assert newcpos[..j + 1][..j] == newcpos[..j];
        AddDeadCellsAround(newcpos[j]);
      }
      assert newcpos[..|newcpos|] == newcpos;
      if old(Valid()) {
        StepKeepsUnique(gen);
        StepKeepsFramed(gen);
      }
    }
  }

  /** The four rules and the carry-over, applied in order to the copy of c whose count is adj.
      Whatever the count, the copy is added to the next generation exactly once, with the state
      Conway's rule gives, and it is reported as a newborn exactly when a dead cell has three
      live neighbours. */
  method Transition(c: Cell, adj: nat) returns (newc: Cell, added: bool, born: bool)
    ensures added
    ensures newc == c.(alive := Conway(c.alive, adj))
    ensures born <==> !c.alive && adj == 3
  {
    newc := c;
    added := false;
    born := false;
    // 1. underpopulation, as the source groups it: adj == 1 or (adj == 0 and alive)
    if adj == 1 || (adj == 0 && c.alive) {
      newc := newc.(alive := false);
      added := true;
    }
    // 2. survival
    if (adj == 2 || adj == 3) && c.alive {
      added := true;
    }
    // 3. overpopulation
    if adj > 3 && c.alive {
      newc := newc.(alive := false);
      added := true;
    }
    // 4. reproduction
    if adj == 3 && !c.alive {
      newc := newc.(alive := true);
      added := true;
      born := true;
    }
    // dead cells are carried over
    if !c.alive {
      added := true;
    }
  }

  /** A view built from the alive cells of cs shows exactly the alive positions of cs. */
  lemma ViewPositions(cs: seq<Cell>, out: map<int, CellDict>)
    requires out.Keys == set k | 0 <= k < |cs| && cs[k].alive
    requires forall k :: k in out ==> out[k] == ToDict(cs[k])
    ensures (set v | v in out.Values :: (v.x, v.y)) == LivePositions(cs)
  {
    forall q | q in LivePositions(cs) ensures q in (set v | v in out.Values :: (v.x, v.y)) {
      var c :| c in cs && c.alive && PosOf(c) == q;
      var k :| 0 <= k < |cs| && cs[k] == c;
      assert k in out && out[k] in out.Values;
    }
    forall v | v in out.Values ensures (v.x, v.y) in LivePositions(cs) {
      var k :| k in out && out[k] == v;
      assert cs[k] in cs;
    }
  }
}
