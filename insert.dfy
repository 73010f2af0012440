/** Insert-or-replace of a live cell, as the add-cell request performs it on parsed integers. */
module InsertCell {
  import opened Cells
  import opened Frontier

  /** The index of the first cell at p in scan order, or |cs| when no cell is at p. */
  function FirstAt(cs: seq<Cell>, p: Pos): (i: nat)
    ensures i <= |cs|
    ensures i < |cs| ==> PosOf(cs[i]) == p
    ensures forall k :: 0 <= k < i ==> PosOf(cs[k]) != p
    decreases |cs|
  {
    if cs == [] then 0
    else if PosOf(cs[0]) == p then 0
    else 1 + FirstAt(cs[1..], p)
  }

  /** The scan-and-remove: drops the first cell at p, if there is one, and keeps the rest in order. */
  function RemoveFirstAt(cs: seq<Cell>, p: Pos): seq<Cell> {
    var i := FirstAt(cs, p);
    if i < |cs| then cs[..i] + cs[i + 1..] else cs
  }

  /** The live cell the request creates. */
  function NewCell(x: int, y: int, r: int, g: int, b: int): Cell {
    Cell(x, y, r, g, b, true)
  }

  /** The store after inserting a live cell at (x, y): remove, append, expand around it. */
  function Insert(cs: seq<Cell>, x: int, y: int, r: int, g: int, b: int): seq<Cell> {
    var nc := NewCell(x, y, r, g, b);
    Expand(RemoveFirstAt(cs, (x, y)) + [nc], nc)
  }

  /** Removal keeps every cell that is not at p, in order, and takes nothing but a cell at p.
      With unique positions no cell at p is left afterwards. */
  lemma RemoveFirstAtSpec(cs: seq<Cell>, p: Pos)
    ensures var s := RemoveFirstAt(cs, p);
      && |s| <= |cs|
      && (forall d :: d in s ==> d in cs)
      && (forall d :: d in cs && PosOf(d) != p ==> d in s)
      && Positions(cs) - {p} <= Positions(s) <= Positions(cs)
      && (Unique(cs) ==> Unique(s) && p !in Positions(s))
  {
    var i := FirstAt(cs, p);
    if i < |cs| {
      RemoveIndexMembers(cs, i);
      if Unique(cs) {
        RemoveIndexUnique(cs, i);
      }
    }
  }

  /** Taking out the cell at index i keeps every other cell and adds none. */
  lemma RemoveIndexMembers(cs: seq<Cell>, i: nat)
    requires i < |cs|
    ensures var s := cs[..i] + cs[i + 1..];
      && (forall d :: d in s ==> d in cs)
      && (forall d :: d in cs && d != cs[i] ==> d in s)
  {
    var s := cs[..i] + cs[i + 1..];
    assert cs == cs[..i] + [cs[i]] + cs[i + 1..];
    forall d | d in cs && d != cs[i] ensures d in s {
      var k :| 0 <= k < |cs| && cs[k] == d;
      if k < i { assert s[k] == d; } else { assert s[k - 1] == d; }
    }
  }

  /** Taking out the cell at index i keeps positions unique, and leaves no cell at its position. */
  lemma RemoveIndexUnique(cs: seq<Cell>, i: nat)
    requires i < |cs| && Unique(cs)
    ensures Unique(cs[..i] + cs[i + 1..])
    ensures PosOf(cs[i]) !in Positions(cs[..i] + cs[i + 1..])
  {
    var s := cs[..i] + cs[i + 1..];
    forall u, v | 0 <= u < v < |s| ensures PosOf(s[u]) != PosOf(s[v]) {
      var u', v' := if u < i then u else u + 1, if v < i then v else v + 1;
      assert s[u] == cs[u'] && s[v] == cs[v'];
    }
    forall d | d in s ensures PosOf(d) != PosOf(cs[i]) {
      var k :| 0 <= k < |s| && s[k] == d;
      var k' := if k < i then k else k + 1;
      assert cs[k'] == d && k' != i;
    }
  }

  /** Before the expansion, the store is the old one with the cell at (x, y) replaced:
      its positions are the old ones plus (x, y). */
  lemma ReplacedPositions(cs: seq<Cell>, nc: Cell)
    ensures Positions(RemoveFirstAt(cs, PosOf(nc)) + [nc]) == Positions(cs) + {PosOf(nc)}
  {
    var s := RemoveFirstAt(cs, PosOf(nc));
    RemoveFirstAtSpec(cs, PosOf(nc));
    PositionsAppend(s, [nc]);
    assert Positions([nc]) == {PosOf(nc)};
  }

  /** Inserting keeps positions unique. */
  lemma InsertKeepsUnique(cs: seq<Cell>, x: int, y: int, r: int, g: int, b: int)
    requires Unique(cs)
    ensures Unique(Insert(cs, x, y, r, g, b))
  {
    var nc := NewCell(x, y, r, g, b);
    var s := RemoveFirstAt(cs, (x, y));
    RemoveFirstAtSpec(cs, (x, y));
    UniqueSnoc(s, nc);
    ExpandKeepsUnique(s + [nc], nc);
  }

  /** After inserting into a store with unique positions, the new cell is in the store and it is
      the one cell at (x, y), alive with the given colour (its frontier: InsertKeepsOthers). */
  lemma InsertPlacesCell(cs: seq<Cell>, x: int, y: int, r: int, g: int, b: int)
    requires Unique(cs)
    ensures var res := Insert(cs, x, y, r, g, b);
      && Cell(x, y, r, g, b, true) in res
      && (forall k :: 0 <= k < |res| && PosOf(res[k]) == (x, y) ==> res[k] == Cell(x, y, r, g, b, true))
  {
    var nc := NewCell(x, y, r, g, b);
    var s := RemoveFirstAt(cs, (x, y));
    var t := s + [nc];
    var res := Insert(cs, x, y, r, g, b);
    RemoveFirstAtSpec(cs, (x, y));
    ExpandOnlyFillsGaps(t, nc);
    OnlyCellAt(s, nc, res);
  }

  /** If s has no cell at nc's position and res extends s + [nc] only with cells at positions
      untracked in s + [nc], then nc is the one cell of res at that position. */
  lemma OnlyCellAt(s: seq<Cell>, nc: Cell, res: seq<Cell>)
    requires PosOf(nc) !in Positions(s)
    requires |s| + 1 <= |res| && res[..|s| + 1] == s + [nc]
    requires forall k :: |s| + 1 <= k < |res| ==> PosOf(res[k]) !in Positions(s + [nc])
    ensures nc in res
    ensures forall k :: 0 <= k < |res| && PosOf(res[k]) == PosOf(nc) ==> res[k] == nc
  {
    var t := s + [nc];
    assert res[|s|] == t[|s|] == nc;
    assert nc in t;
    forall k | 0 <= k < |s| ensures PosOf(res[k]) != PosOf(nc) {
      assert res[k] == t[k] == s[k] && s[k] in s;
    }
  }

  /** Inserting leaves every cell that was at another position in the store, and the tracked
      positions become the old ones, (x, y) and its Moore neighbourhood. */
  lemma InsertKeepsOthers(cs: seq<Cell>, x: int, y: int, r: int, g: int, b: int)
    ensures var res := Insert(cs, x, y, r, g, b);
      && (forall d :: d in cs && PosOf(d) != (x, y) ==> d in res)
      && Positions(res) == Positions(cs) + {(x, y)} + Moore((x, y))
  {
    var nc := NewCell(x, y, r, g, b);
    var s := RemoveFirstAt(cs, (x, y));
    var t := s + [nc];
    var res := Insert(cs, x, y, r, g, b);
    RemoveFirstAtSpec(cs, (x, y));
    ReplacedPositions(cs, nc);
    ExpandOnlyFillsGaps(t, nc);
    ExpandCompletesFrontier(t, nc);
    forall d | d in cs && PosOf(d) != (x, y) ensures d in res {
      PrefixMember(s, t, res, d);
    }
  }

  /** A member of s is a member of anything that extends s + [nc]. */
  lemma PrefixMember(s: seq<Cell>, t: seq<Cell>, res: seq<Cell>, d: Cell)
    requires d in s && |t| == |s| + 1 && t[..|s|] == s
    requires |t| <= |res| && res[..|t|] == t
    ensures d in res
  {
    var k :| 0 <= k < |s| && s[k] == d;
    assert res[k] == t[k] == s[k];
  }

  /** Inserting keeps every alive cell's frontier tracked. */
  lemma InsertKeepsFramed(cs: seq<Cell>, x: int, y: int, r: int, g: int, b: int)
    requires Framed(cs)
    ensures Framed(Insert(cs, x, y, r, g, b))
  {
    var nc := NewCell(x, y, r, g, b);
    var s := RemoveFirstAt(cs, (x, y));
    RemoveFirstAtSpec(cs, (x, y));
    ReplacedPositions(cs, nc);
    FramedBeforeExpand(cs, s, nc);
    ExpandFramesAround(s + [nc], nc);
  }

  /** Every alive cell of s + [nc] other than nc came from cs, whose frontiers are still tracked. */
  lemma FramedBeforeExpand(cs: seq<Cell>, s: seq<Cell>, nc: Cell)
    requires Framed(cs) && (forall d :: d in s ==> d in cs)
    requires Positions(cs) <= Positions(s + [nc])
    ensures forall d :: d in s + [nc] && d.alive && d != nc ==> Moore(PosOf(d)) <= Positions(s + [nc])
  {
    forall d | d in s + [nc] && d.alive && d != nc ensures Moore(PosOf(d)) <= Positions(s + [nc]) {
      assert d in s;
    }
  }

  /** With unique positions, inserting makes (x, y) alive and changes no other position's state. */
  lemma InsertLive(cs: seq<Cell>, x: int, y: int, r: int, g: int, b: int)
    requires Unique(cs)
    ensures LivePositions(Insert(cs, x, y, r, g, b)) == LivePositions(cs) + {(x, y)}
  {
    var nc := NewCell(x, y, r, g, b);
    var s := RemoveFirstAt(cs, (x, y));
    RemoveFirstAtSpec(cs, (x, y));
    RemovedLive(cs, s, (x, y));
    PositionsAppend(s, [nc]);
    assert LivePositions([nc]) == {(x, y)} by {
      assert forall d :: d in [nc] <==> d == nc;
    }
    ExpandKeepsLive(s + [nc], nc);
  }

  /** If s keeps every cell of cs at another position than p, holds only cells of cs and none at p,
      then its alive positions are those of cs without p. */
  lemma RemovedLive(cs: seq<Cell>, s: seq<Cell>, p: Pos)
    requires forall d :: d in s ==> d in cs
    requires forall d :: d in cs && PosOf(d) != p ==> d in s
    requires p !in Positions(s)
    ensures LivePositions(s) == LivePositions(cs) - {p}
  {
    forall q | q in LivePositions(s) ensures q != p {
      var d :| d in s && d.alive && PosOf(d) == q;
    }
  }
}
