/** The live-neighbour count that decides every transition. */
module Counting {
  import opened Cells

  /** A cell adds one to the count of p when it is alive and sits in a Moore position of p. */
  predicate Contributes(c: Cell, p: Pos) {
    c.alive && Adjacent(p, PosOf(c))
  }

  /** The count of p against the cells cs, one per contributing cell, in scan order. */
  function LiveNeighbors(cs: seq<Cell>, p: Pos): nat
    decreases |cs|
  {
    if cs == [] then 0
    else LiveNeighbors(cs[..|cs| - 1], p) + (if Contributes(cs[|cs| - 1], p) then 1 else 0)
  }

  /** When positions are unique the count is the number of Moore positions of p holding an alive cell:
      dead placeholders and the cell at p itself are never counted. */
  lemma {:induction false} LiveNeighborsIsCard(cs: seq<Cell>, p: Pos)
    requires Unique(cs)
    ensures LiveNeighbors(cs, p) == |LivePositions(cs) * Moore(p)|
  {
    if cs == [] {
      assert LivePositions(cs) == {};
    } else {
      var init, c := cs[..|cs| - 1], cs[|cs| - 1];
      LastPositionFresh(cs);
      LiveNeighborsIsCard(init, p);
      var A, M, q := LivePositions(init), Moore(p), PosOf(c);
      assert LiveNeighbors(cs, p) == |A * M| + (if c.alive && q in M then 1 else 0);
      PositionsSnoc(cs);
      if c.alive {
        assert q !in A;
        CardInsertMeet(A, M, q);
      }
    }
  }

  lemma CardInsertMeet<T>(A: set<T>, M: set<T>, q: T)
    requires q !in A
    ensures |(A + {q}) * M| == |A * M| + (if q in M then 1 else 0)
  {
    if q in M {
      assert (A + {q}) * M == A * M + {q};
    } else {
      assert (A + {q}) * M == A * M;
    }
  }

  /** With unique positions the count lies between 0 and 8. */
  lemma NeighborsBounded(cs: seq<Cell>, p: Pos)
    requires Unique(cs)
    ensures LiveNeighbors(cs, p) <= 8
  {
    LiveNeighborsIsCard(cs, p);
    SubsetCard(LivePositions(cs) * Moore(p), Moore(p));
  }

  /** With unique positions the count depends only on which positions are alive, not on the order
      or the number of the dead cells that are tracked. */
  lemma NeighborsOrderIndependent(a: seq<Cell>, b: seq<Cell>, p: Pos)
    requires Unique(a) && Unique(b)
    requires LivePositions(a) == LivePositions(b)
    ensures LiveNeighbors(a, p) == LiveNeighbors(b, p)
  {
    LiveNeighborsIsCard(a, p);
    LiveNeighborsIsCard(b, p);
  }
}
