/** Cells of the sparse Game of Life board and the geometry of the Moore neighbourhood. */
module Cells {

  /** A grid position (x, y). The board is unbounded, so coordinates are unbounded integers. */
  type Pos = (int, int)

  /** One tracked cell: its position, its colour and whether it is alive.
      Colour components are whatever integers the client sent; nothing validates them. */
  datatype Cell = Cell(x: int, y: int, r: int, g: int, b: int, alive: bool)

  /** The alive-free view of a cell that the read API serialises: position and colour. */
  datatype CellDict = CellDict(x: int, y: int, r: int, g: int, b: int)

  function PosOf(c: Cell): Pos { (c.x, c.y) }

  function ToDict(c: Cell): CellDict { CellDict(c.x, c.y, c.r, c.g, c.b) }

  /** Two positions are Moore neighbours when they differ and are at most one step apart on each axis. */
  predicate Adjacent(p: Pos, q: Pos) {
    p != q && -1 <= p.0 - q.0 <= 1 && -1 <= p.1 - q.1 <= 1
  }

  /** The 8 positions around p. */
  function Moore(p: Pos): (m: set<Pos>)
    ensures forall q :: q in m <==> Adjacent(p, q)
    ensures |m| == 8
  {
    var (x, y) := p;
    var ring := {(x - 1, y - 1), (x, y - 1), (x + 1, y - 1), (x - 1, y), (x + 1, y), (x - 1, y + 1), (x, y + 1), (x + 1, y + 1)};
    assert forall q :: Adjacent(p, q) ==> q in ring by {
      forall q | Adjacent(p, q) ensures q in ring {
        var (u, v) := q;
        assert -1 <= u - x <= 1 && -1 <= v - y <= 1;
      }
    }
    ring
  }

  /** Every position at which the sequence holds a cell, alive or dead. */
  function Positions(cs: seq<Cell>): set<Pos> {
    set c | c in cs :: PosOf(c)
  }

  /** Every position at which the sequence holds an alive cell. */
  function LivePositions(cs: seq<Cell>): set<Pos> {
    set c | c in cs && c.alive :: PosOf(c)
  }

  /** The store's central invariant: no two entries share a position. */
  ghost predicate Unique(cs: seq<Cell>) {
    forall i, j :: 0 <= i < j < |cs| ==> PosOf(cs[i]) != PosOf(cs[j])
  }

  /** Every alive cell has its whole Moore neighbourhood tracked, so that births around it can be seen. */
  ghost predicate Framed(cs: seq<Cell>) {
    forall c :: c in cs && c.alive ==> Moore(PosOf(c)) <= Positions(cs)
  }

  lemma {:induction false} PositionsAppend(cs: seq<Cell>, d: seq<Cell>)
    ensures Positions(cs + d) == Positions(cs) + Positions(d)
    ensures LivePositions(cs + d) == LivePositions(cs) + LivePositions(d)
  {
    assert forall c :: c in cs + d <==> c in cs || c in d;
  }

  /** With unique positions, a position is live exactly when the one cell that sits there is alive. */
  lemma {:induction false} LiveAtUnique(cs: seq<Cell>, k: nat)
    requires Unique(cs) && k < |cs|
    ensures PosOf(cs[k]) in LivePositions(cs) <==> cs[k].alive
  {
    if PosOf(cs[k]) in LivePositions(cs) {
      var c :| c in cs && c.alive && PosOf(c) == PosOf(cs[k]);
      var j :| 0 <= j < |cs| && cs[j] == c;
      assert j == k;
    }
  }

  /** Positions of a non-empty sequence, split into those of its prefix and of its last cell. */
  lemma PositionsSnoc(cs: seq<Cell>)
    requires cs != []
    ensures Positions(cs) == Positions(cs[..|cs| - 1]) + {PosOf(cs[|cs| - 1])}
    ensures LivePositions(cs) == LivePositions(cs[..|cs| - 1]) + (if cs[|cs| - 1].alive then {PosOf(cs[|cs| - 1])} else {})
  {
    var init, c := cs[..|cs| - 1], cs[|cs| - 1];
    assert cs == init + [c];
    PositionsAppend(init, [c]);
    assert Positions([c]) == {PosOf(c)};
    assert LivePositions([c]) == if c.alive then {PosOf(c)} else {};
  }

  /** The last cell of a sequence with unique positions sits where no earlier cell does. */
  lemma LastPositionFresh(cs: seq<Cell>)
    requires Unique(cs) && cs != []
    ensures Unique(cs[..|cs| - 1])
    ensures PosOf(cs[|cs| - 1]) !in Positions(cs[..|cs| - 1])
  {
    var init := cs[..|cs| - 1];
    forall d | d in init ensures PosOf(d) != PosOf(cs[|cs| - 1]) {
      var j :| 0 <= j < |init| && init[j] == d;
      assert cs[j] == d;
    }
  }

  /** Appending a cell at an untracked position keeps positions unique. */
  lemma UniqueSnoc(cs: seq<Cell>, d: Cell)
    requires Unique(cs) && PosOf(d) !in Positions(cs)
    ensures Unique(cs + [d])
  {
    var r := cs + [d];
    forall i, j | 0 <= i < j < |r| ensures PosOf(r[i]) != PosOf(r[j]) {
      if j == |cs| {
        assert r[i] in cs;
      }
    }
  }

  lemma SubsetCard<T>(a: set<T>, b: set<T>)
    requires a <= b
    ensures |a| <= |b|
  {
    assert b == a + (b - a);
  }
}
