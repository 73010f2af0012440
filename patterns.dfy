/** Classic small patterns, checked against the step: a still life, an oscillator, and a birth. */
module Patterns {
  import opened Cells
  import opened Counting
  import opened Generations

  /** An alive cell at (x, y); the colour plays no part in any count. */
  function Live(x: int, y: int): Cell {
    Cell(x, y, 0, 0, 0, true)
  }

  function Ind(b: bool): nat {
    if b then 1 else 0
  }

  lemma CountThree(a: Cell, b: Cell, c: Cell, p: Pos)
    ensures LiveNeighbors([a, b, c], p) == Ind(Contributes(a, p)) + Ind(Contributes(b, p)) + Ind(Contributes(c, p))
  {
    assert [a, b, c][..2] == [a, b];
    assert [a, b][..1] == [a];
    assert [a][..0] == [];
    assert LiveNeighbors([a], p) == Ind(Contributes(a, p));
    assert LiveNeighbors([a, b], p) == Ind(Contributes(a, p)) + Ind(Contributes(b, p));
  }

  lemma CountFour(a: Cell, b: Cell, c: Cell, d: Cell, p: Pos)
    ensures LiveNeighbors([a, b, c, d], p)
      == Ind(Contributes(a, p)) + Ind(Contributes(b, p)) + Ind(Contributes(c, p)) + Ind(Contributes(d, p))
  {
    assert [a, b, c, d][..3] == [a, b, c];
    CountThree(a, b, c, p);
  }

  /** With unique positions, the alive positions after a step can be read off any other sequence
      with unique positions and the same alive positions: only the count depends on the cells. */
  lemma LiveNext(gen: seq<Cell>, model: seq<Cell>, p: Pos)
    requires Unique(gen) && Unique(model) && LivePositions(model) == LivePositions(gen)
    ensures p in LivePositions(NextState(gen)) <==>
      p in Positions(gen) && Conway(p in LivePositions(gen), LiveNeighbors(model, p))
  {
    StepLive(gen);
    NeighborsOrderIndependent(gen, model, p);
  }

  /** Conway's rule around three alive positions a, b, c: whether p is alive next,
      given whether it is one of them and how many of them are its Moore neighbours. */
  predicate NextAroundThree(a: Pos, b: Pos, c: Pos, p: Pos) {
    Conway(p == a || p == b || p == c, Ind(Adjacent(p, a)) + Ind(Adjacent(p, b)) + Ind(Adjacent(p, c)))
  }

  /** The same rule around four alive positions. */
  predicate NextAroundFour(a: Pos, b: Pos, c: Pos, d: Pos, p: Pos) {
    Conway(p == a || p == b || p == c || p == d,
           Ind(Adjacent(p, a)) + Ind(Adjacent(p, b)) + Ind(Adjacent(p, c)) + Ind(Adjacent(p, d)))
  }

  /** A store with unique positions whose alive positions are exactly a, b, c (all different)
      is alive next exactly at the tracked positions where the rule around a, b, c holds. */
  lemma StepAroundThree(gen: seq<Cell>, a: Pos, b: Pos, c: Pos, p: Pos)
    requires Unique(gen) && a != b && a != c && b != c && LivePositions(gen) == {a, b, c}
    ensures p in LivePositions(NextState(gen)) <==> p in Positions(gen) && NextAroundThree(a, b, c, p)
  {
    var u, v, w := Live(a.0, a.1), Live(b.0, b.1), Live(c.0, c.1);
    var model := [u, v, w];
    assert LivePositions(model) == LivePositions(gen) by {
      assert forall e :: e in model <==> e == u || e == v || e == w;
    }
    LiveNext(gen, model, p);
    CountThree(u, v, w, p);
  }

  /** The four-position counterpart of StepAroundThree. */
  lemma StepAroundFour(gen: seq<Cell>, a: Pos, b: Pos, c: Pos, d: Pos, p: Pos)
    requires Unique(gen) && a != b && a != c && a != d && b != c && b != d && c != d
    requires LivePositions(gen) == {a, b, c, d}
    ensures p in LivePositions(NextState(gen)) <==> p in Positions(gen) && NextAroundFour(a, b, c, d, p)
  {
    var u, v, w, z := Live(a.0, a.1), Live(b.0, b.1), Live(c.0, c.1), Live(d.0, d.1);
    var model := [u, v, w, z];
    assert LivePositions(model) == LivePositions(gen) by {
      assert forall e :: e in model <==> e == u || e == v || e == w || e == z;
    }
    LiveNext(gen, model, p);
    CountFour(u, v, w, z, p);
  }

  /** Around the horizontal line (0,0), (1,0), (2,0) the rule holds exactly on the vertical line. */
  lemma HorizontalRule(p: Pos)
    ensures NextAroundThree((0, 0), (1, 0), (2, 0), p) <==> p in {(1, -1), (1, 0), (1, 1)}
  {
  }

  /** Around the vertical line (1,-1), (1,0), (1,1) the rule holds exactly on the horizontal line. */
  lemma VerticalRule(p: Pos)
    ensures NextAroundThree((1, -1), (1, 0), (1, 1), p) <==> p in {(0, 0), (1, 0), (2, 0)}
  {
  }

  /** Around the L-tromino (0,0), (1,0), (0,1) the rule holds exactly on the 2x2 block. */
  lemma TrominoRule(p: Pos)
    ensures NextAroundThree((0, 0), (1, 0), (0, 1), p) <==> p in {(0, 0), (1, 0), (0, 1), (1, 1)}
  {
  }

  /** A 2x2 block is a still life: after one step exactly the same four positions are alive. */
  lemma BlockIsStillLife(gen: seq<Cell>)
    requires Unique(gen) && LivePositions(gen) == {(0, 0), (1, 0), (0, 1), (1, 1)}
    ensures LivePositions(NextState(gen)) == {(0, 0), (1, 0), (0, 1), (1, 1)}
  {
    assert LivePositions(gen) <= Positions(gen);
    forall p ensures p in LivePositions(NextState(gen)) <==> p in {(0, 0), (1, 0), (0, 1), (1, 1)} {
      StepAroundFour(gen, (0, 0), (1, 0), (0, 1), (1, 1), p);
    }
  }

  /** The horizontal blinker (0,0), (1,0), (2,0) turns vertical: (1,-1), (1,0), (1,1).
      The two positions above and below its middle must be tracked, as they are in a store
      where every alive cell has its frontier. */
  lemma BlinkerTurnsVertical(gen: seq<Cell>)
    requires Unique(gen) && LivePositions(gen) == {(0, 0), (1, 0), (2, 0)}
    requires (1, -1) in Positions(gen) && (1, 1) in Positions(gen)
    ensures LivePositions(NextState(gen)) == {(1, -1), (1, 0), (1, 1)}
  {
    assert LivePositions(gen) <= Positions(gen);
    forall p ensures p in LivePositions(NextState(gen)) <==> p in {(1, -1), (1, 0), (1, 1)} {
      StepAroundThree(gen, (0, 0), (1, 0), (2, 0), p);
      HorizontalRule(p);
    }
  }

  /** The vertical blinker (1,-1), (1,0), (1,1) turns back horizontal: (0,0), (1,0), (2,0),
      when the two positions beside its middle are tracked. */
  lemma BlinkerTurnsHorizontal(gen: seq<Cell>)
    requires Unique(gen) && LivePositions(gen) == {(1, -1), (1, 0), (1, 1)}
    requires (0, 0) in Positions(gen) && (2, 0) in Positions(gen)
    ensures LivePositions(NextState(gen)) == {(0, 0), (1, 0), (2, 0)}
  {
    assert LivePositions(gen) <= Positions(gen);
    forall p ensures p in LivePositions(NextState(gen)) <==> p in {(0, 0), (1, 0), (2, 0)} {
      StepAroundThree(gen, (1, -1), (1, 0), (1, 1), p);
      VerticalRule(p);
    }
  }

  /** The blinker has period two: two steps bring back the horizontal line. The positions beside
      the middle need no frame, because they were alive and a step drops no tracked position. */
  lemma BlinkerOscillates(gen: seq<Cell>)
    requires Unique(gen) && LivePositions(gen) == {(0, 0), (1, 0), (2, 0)}
    requires (1, -1) in Positions(gen) && (1, 1) in Positions(gen)
    ensures LivePositions(NextState(gen)) == {(1, -1), (1, 0), (1, 1)}
    ensures LivePositions(NextState(NextState(gen))) == {(0, 0), (1, 0), (2, 0)}
  {
    BlinkerTurnsVertical(gen);
    StepKeepsUnique(gen);
    StepKeepsTracked(gen);
    assert (0, 0) in LivePositions(gen) && (2, 0) in LivePositions(gen);
    assert LivePositions(gen) <= Positions(gen);
    BlinkerTurnsHorizontal(NextState(gen));
  }

  /** An L-tromino (0,0), (1,0), (0,1) with its corner (1,1) tracked fills in to a block:
      (1,1) is born, and its whole Moore neighbourhood is tracked after the step. */
  lemma TrominoBirth(gen: seq<Cell>)
    requires Unique(gen) && LivePositions(gen) == {(0, 0), (1, 0), (0, 1)}
    requires (1, 1) in Positions(gen)
    ensures LivePositions(NextState(gen)) == {(0, 0), (1, 0), (0, 1), (1, 1)}
    ensures Moore((1, 1)) <= Positions(NextState(gen))
  {
    FillsToBlock(gen);
    NewbornFramed(gen, (1, 1));
  }

  lemma FillsToBlock(gen: seq<Cell>)
    requires Unique(gen) && LivePositions(gen) == {(0, 0), (1, 0), (0, 1)}
    requires (1, 1) in Positions(gen)
    ensures LivePositions(NextState(gen)) == {(0, 0), (1, 0), (0, 1), (1, 1)}
  {
    assert LivePositions(gen) <= Positions(gen);
    forall p ensures p in LivePositions(NextState(gen)) <==> p in {(0, 0), (1, 0), (0, 1), (1, 1)} {
      StepAroundThree(gen, (0, 0), (1, 0), (0, 1), p);
      TrominoRule(p);
    }
  }
}
