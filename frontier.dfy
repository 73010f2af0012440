/** Frontier expansion: dead placeholder cells around a cell, so that the sparse store can see
    births in the empty space next to it. */
module Frontier {
  import opened Cells

  /** The dead placeholder that expansion around c puts at p: c's colour, not alive. */
  function Placeholder(p: Pos, c: Cell): Cell {
    Cell(p.0, p.1, c.r, c.g, c.b, false)
  }

  /** One guarded add: a placeholder at p unless a cell, alive or dead, is already tracked there. */
  function Fill(cs: seq<Cell>, p: Pos, c: Cell): seq<Cell> {
    if p in Positions(cs) then cs else cs + [Placeholder(p, c)]
  }

  /** The eight positions in the order the expansion visits them: for each column offset
      -1, 0, 1 the position at y + 1 and then the one at y - 1, then (x + 1, y) and (x - 1, y). */
  function FrontierOrder(c: Cell): (ps: seq<Pos>)
    ensures |ps| == 8
    ensures forall q :: q in ps <==> q in Moore(PosOf(c))
  {
    [(c.x - 1, c.y + 1), (c.x - 1, c.y - 1), (c.x, c.y + 1), (c.x, c.y - 1),
     (c.x + 1, c.y + 1), (c.x + 1, c.y - 1), (c.x + 1, c.y), (c.x - 1, c.y)]
  }

  /** The guarded adds for ps, one after the other; each test sees the adds before it. */
  function FillAll(cs: seq<Cell>, ps: seq<Pos>, c: Cell): seq<Cell>
    decreases |ps|
  {
    if ps == [] then cs else Fill(FillAll(cs, ps[..|ps| - 1], c), ps[|ps| - 1], c)
  }

  /** The store after expanding the frontier around c. */
  function Expand(cs: seq<Cell>, c: Cell): seq<Cell> {
    FillAll(cs, FrontierOrder(c), c)
  }

  /** The guarded adds keep every existing cell where it was and only append dead placeholders
      in c's colour, at pairwise different positions of ps that were untracked; afterwards exactly
      the old positions and those of ps are tracked. */
  lemma FillAllSpec(cs: seq<Cell>, ps: seq<Pos>, c: Cell)
    ensures var r := FillAll(cs, ps, c);
      && |r| >= |cs| && r[..|cs|] == cs
      && (forall k :: |cs| <= k < |r| ==>
            r[k] == Placeholder(PosOf(r[k]), c) && PosOf(r[k]) in ps && PosOf(r[k]) !in Positions(cs))
      && (forall i, j :: |cs| <= i < j < |r| ==> PosOf(r[i]) != PosOf(r[j]))
      && Positions(r) == Positions(cs) + (set q | q in ps)
      && (Unique(cs) ==> Unique(r))
  {
    FillAllAppends(cs, ps, c);
    FillAllPositions(cs, ps, c);
    if Unique(cs) {
      FillAllKeepsUnique(cs, ps, c);
    }
  }

  /** The guarded adds track exactly the old positions and those of ps. */
  lemma {:induction false} FillAllPositions(cs: seq<Cell>, ps: seq<Pos>, c: Cell)
    ensures Positions(FillAll(cs, ps, c)) == Positions(cs) + (set q | q in ps)
  {
    if ps != [] {
      var init, p := ps[..|ps| - 1], ps[|ps| - 1];
      FillAllPositions(cs, init, c);
      var s := FillAll(cs, init, c);
      assert (set q | q in ps) == (set q | q in init) + {p} by {
        assert ps == init + [p];
      }
      if p !in Positions(s) {
        var d := Placeholder(p, c);
        assert PosOf(d) == p;
        PositionsAppend(s, [d]);
        assert Positions([d]) == {p};
      }
    }
  }

  /** The guarded adds only append, and each appended cell is a placeholder in c's colour at a
      position of ps that no cell held before it. */
  lemma {:induction false} FillAllAppends(cs: seq<Cell>, ps: seq<Pos>, c: Cell)
    ensures var r := FillAll(cs, ps, c);
      && |r| >= |cs| && r[..|cs|] == cs
      && (forall k :: |cs| <= k < |r| ==>
            r[k] == Placeholder(PosOf(r[k]), c) && PosOf(r[k]) in ps && PosOf(r[k]) !in Positions(cs))
      && (forall i, j :: |cs| <= i < j < |r| ==> PosOf(r[i]) != PosOf(r[j]))
  {
    if ps != [] {
      var init, p := ps[..|ps| - 1], ps[|ps| - 1];
      FillAllAppends(cs, init, c);
      FillAllPositions(cs, init, c);
      var s := FillAll(cs, init, c);
      if p !in Positions(s) {
        var d := Placeholder(p, c);
        assert PosOf(d) == p;
        forall i | |cs| <= i < |s| ensures PosOf(s[i]) != p {
          assert s[i] in s;
        }
      }
    }
  }

  /** The guarded adds keep positions unique. */
  lemma {:induction false} FillAllKeepsUnique(cs: seq<Cell>, ps: seq<Pos>, c: Cell)
    requires Unique(cs)
    ensures Unique(FillAll(cs, ps, c))
  {
    if ps != [] {
      var init, p := ps[..|ps| - 1], ps[|ps| - 1];
      FillAllKeepsUnique(cs, init, c);
      var s := FillAll(cs, init, c);
      if p !in Positions(s) {
        var d := Placeholder(p, c);
        assert PosOf(d) == p;
        UniqueSnoc(s, d);
      }
    }
  }

  /** Guarded adds at positions already tracked change nothing. */
  lemma {:induction false} FillAllNoop(cs: seq<Cell>, ps: seq<Pos>, c: Cell)
    requires forall q :: q in ps ==> q in Positions(cs)
    ensures FillAll(cs, ps, c) == cs
  {
    if ps != [] {
      FillAllNoop(cs, ps[..|ps| - 1], c);
      assert ps[|ps| - 1] in ps;
    }
  }

  /** Expansion never changes an existing cell: the old store is a prefix of the new one, and
      every appended cell is a dead placeholder in c's colour at a Moore position of c that was empty. */
  lemma ExpandOnlyFillsGaps(cs: seq<Cell>, c: Cell)
    ensures var r := Expand(cs, c);
      && |cs| <= |r| <= |cs| + 8 && r[..|cs|] == cs
      && forall k :: |cs| <= k < |r| ==>
           !r[k].alive && r[k].r == c.r && r[k].g == c.g && r[k].b == c.b
           && Adjacent(PosOf(c), PosOf(r[k])) && PosOf(r[k]) !in Positions(cs)
  {
    FillAllSpec(cs, FrontierOrder(c), c);
    var r := Expand(cs, c);
    var added := set k | |cs| <= k < |r| :: PosOf(r[k]);
    assert added <= Moore(PosOf(c));
    AddedDistinct(cs, r, c);
    SubsetCard(added, Moore(PosOf(c)));
  }

  /** The appended placeholders sit at pairwise different positions, so there are as many
      of those positions as appended cells. */
  lemma AddedDistinct(cs: seq<Cell>, r: seq<Cell>, c: Cell)
    requires r == Expand(cs, c)
    ensures |set k | |cs| <= k < |r| :: PosOf(r[k])| == |r| - |cs|
  {
    FillAllSpec(cs, FrontierOrder(c), c);
    DistinctTail(r, |cs|);
  }

  /** For a sequence whose entries from index n on have pairwise different positions,
      the set of those positions has one element per entry. */
  lemma {:induction false} DistinctTail(r: seq<Cell>, n: nat)
    requires n <= |r|
    requires forall i, j :: n <= i < j < |r| ==> PosOf(r[i]) != PosOf(r[j])
    ensures |set k | n <= k < |r| :: PosOf(r[k])| == |r| - n
    decreases |r| - n
  {
    if n < |r| {
      DistinctTail(r, n + 1);
      var rest := set k | n + 1 <= k < |r| :: PosOf(r[k]);
      assert (set k | n <= k < |r| :: PosOf(r[k])) == rest + {PosOf(r[n])};
      assert PosOf(r[n]) !in rest;
    }
  }

  /** After expansion every Moore position of c is tracked, and nothing else became tracked. */
  lemma ExpandCompletesFrontier(cs: seq<Cell>, c: Cell)
    ensures Positions(Expand(cs, c)) == Positions(cs) + Moore(PosOf(c))
  {
    FillAllSpec(cs, FrontierOrder(c), c);
    assert (set q | q in FrontierOrder(c)) == Moore(PosOf(c));
  }

  /** Expansion keeps positions unique. */
  lemma ExpandKeepsUnique(cs: seq<Cell>, c: Cell)
    requires Unique(cs)
    ensures Unique(Expand(cs, c))
  {
    FillAllSpec(cs, FrontierOrder(c), c);
  }

  /** A second expansion around the same cell changes nothing. */
  lemma ExpandIdempotent(cs: seq<Cell>, c: Cell)
    ensures Expand(Expand(cs, c), c) == Expand(cs, c)
  {
    ExpandCompletesFrontier(cs, c);
    FillAllNoop(Expand(cs, c), FrontierOrder(c), c);
  }

  /** Expansion adds only dead cells and loses no position, so alive cells keep their frontier. */
  lemma ExpandKeepsFramed(cs: seq<Cell>, c: Cell)
    requires Framed(cs)
    ensures Framed(Expand(cs, c))
  {
    ExpandFramesAround(cs, c);
  }

  /** Expansion around c completes c's own frontier, so only the other alive cells need theirs
      already tracked beforehand. */
  lemma ExpandFramesAround(cs: seq<Cell>, c: Cell)
    requires forall d :: d in cs && d.alive && d != c ==> Moore(PosOf(d)) <= Positions(cs)
    ensures Framed(Expand(cs, c))
  {
    var r := Expand(cs, c);
    ExpandOnlyFillsGaps(cs, c);
    ExpandCompletesFrontier(cs, c);
    FramedByExtension(cs, r, c);
  }

  /** If r extends cs with dead cells and tracks c's frontier besides the old positions, every alive
      cell of r other than c has its frontier tracked whenever it had it in cs. */
  lemma FramedByExtension(cs: seq<Cell>, r: seq<Cell>, c: Cell)
    requires forall d :: d in cs && d.alive && d != c ==> Moore(PosOf(d)) <= Positions(cs)
    requires |r| >= |cs| && r[..|cs|] == cs && forall k :: |cs| <= k < |r| ==> !r[k].alive
    requires Positions(r) == Positions(cs) + Moore(PosOf(c))
    ensures Framed(r)
  {
    forall d | d in r && d.alive ensures Moore(PosOf(d)) <= Positions(r) {
      var k :| 0 <= k < |r| && r[k] == d;
      assert k < |cs| && cs[k] == d;
    }
  }

  /** Expansion adds only dead cells, so it leaves the alive positions as they were. */
  lemma ExpandKeepsLive(cs: seq<Cell>, c: Cell)
    ensures LivePositions(Expand(cs, c)) == LivePositions(cs)
  {
    var r := Expand(cs, c);
    ExpandOnlyFillsGaps(cs, c);
    var tail := r[|cs|..];
    assert r == cs + tail;
    PositionsAppend(cs, tail);
    forall d | d in tail ensures !d.alive {
      var k :| 0 <= k < |tail| && tail[k] == d;
      assert r[|cs| + k] == d;
    }
    assert LivePositions(tail) == {};
  }
}
