/** One generation step: every tracked cell is copied with its next state by Conway's rules,
    counted against the old generation, and the frontier is then expanded around each newborn. */
module Generations {
  import opened Cells
  import opened Counting
  import opened Frontier

  /** Conway's rule: an alive cell stays alive with 2 or 3 live neighbours, a dead one is born with exactly 3. */
  predicate Conway(alive: bool, adj: int) {
    if alive then adj == 2 || adj == 3 else adj == 3
  }

  /** The copy of c in the next generation: same position and colour, next state by Conway's rule,
      with the count taken against the whole old generation gen. */
  function Successor(gen: seq<Cell>, c: Cell): Cell {
    c.(alive := Conway(c.alive, LiveNeighbors(gen, PosOf(c))))
  }

  /** A dead cell with exactly three live neighbours is born. */
  predicate IsBirth(gen: seq<Cell>, c: Cell) {
    !c.alive && LiveNeighbors(gen, PosOf(c)) == 3
  }

  /** The copies, one per old cell, in scan order. */
  function Generation(gen: seq<Cell>): seq<Cell> {
    seq(|gen|, k requires 0 <= k < |gen| => Successor(gen, gen[k]))
  }

  /** The newborn copies among the cells cs, in scan order. */
  function Births(gen: seq<Cell>, cs: seq<Cell>): seq<Cell>
    decreases |cs|
  {
    if cs == [] then []
    else Births(gen, cs[..|cs| - 1]) + (if IsBirth(gen, cs[|cs| - 1]) then [Successor(gen, cs[|cs| - 1])] else [])
  }

  /** The frontier expansions around bs, one after the other. */
  function ExpandAll(cs: seq<Cell>, bs: seq<Cell>): seq<Cell>
    decreases |bs|
  {
    if bs == [] then cs else Expand(ExpandAll(cs, bs[..|bs| - 1]), bs[|bs| - 1])
  }

  /** The store after one step from generation gen. */
  function NextState(gen: seq<Cell>): seq<Cell> {
    ExpandAll(Generation(gen), Births(gen, gen))
  }

  /** Every Moore position of some cell of bs. */
  function Frontiers(bs: seq<Cell>): set<Pos> {
    set b, q | b in bs && q in Moore(PosOf(b)) :: q
  }

  /** Every Moore position of a cell of gen that is born. */
  function BirthFrontier(gen: seq<Cell>): set<Pos> {
    set c, q | c in gen && IsBirth(gen, c) && q in Moore(PosOf(c)) :: q
  }

  /** The newborns are exactly the copies of the cells of cs that are born, and they are alive. */
  lemma {:induction false} BirthsSpec(gen: seq<Cell>, cs: seq<Cell>)
    ensures forall b :: b in Births(gen, cs) ==> b.alive && exists c :: c in cs && IsBirth(gen, c) && b == Successor(gen, c)
    ensures forall c :: c in cs && IsBirth(gen, c) ==> Successor(gen, c) in Births(gen, cs)
  {
    if cs != [] {
      var init, last := cs[..|cs| - 1], cs[|cs| - 1];
      BirthsSpec(gen, init);
      assert cs == init + [last];
      forall c | c in cs ensures c in init || c == last { }
    }
  }

  /** Expanding around each of bs keeps every existing cell in place and appends only dead cells. */
  lemma {:induction false} ExpandAllExtends(cs: seq<Cell>, bs: seq<Cell>)
    ensures var r := ExpandAll(cs, bs);
      && |r| >= |cs| && r[..|cs|] == cs
      && (forall k :: |cs| <= k < |r| ==> !r[k].alive)
  {
    if bs != [] {
      var init, last := bs[..|bs| - 1], bs[|bs| - 1];
      ExpandAllExtends(cs, init);
      var s := ExpandAll(cs, init);
      ExpandOnlyFillsGaps(s, last);
      ExtendTwice(cs, s, Expand(s, last));
    }
  }

  /** Expanding around each of bs tracks exactly the old positions plus the frontiers of bs. */
  lemma {:induction false} ExpandAllPositions(cs: seq<Cell>, bs: seq<Cell>)
    ensures Positions(ExpandAll(cs, bs)) == Positions(cs) + Frontiers(bs)
  {
    if bs == [] {
      assert Frontiers(bs) == {};
    } else {
      var init, last := bs[..|bs| - 1], bs[|bs| - 1];
      ExpandAllPositions(cs, init);
      var s := ExpandAll(cs, init);
      assert ExpandAll(cs, bs) == Expand(s, last);
      ExpandCompletesFrontier(s, last);
      FrontiersSnoc(bs);
      UnionRegroup(Positions(ExpandAll(cs, bs)), Positions(s), Positions(cs), Frontiers(init),
                   Moore(PosOf(last)), Frontiers(bs));
    }
  }

  lemma UnionRegroup<T>(x: set<T>, y: set<T>, p: set<T>, f: set<T>, m: set<T>, z: set<T>)
    requires x == y + m && y == p + f && z == f + m
    ensures x == p + z
  {
  }

  /** Expanding around each of bs keeps positions unique. */
  lemma {:induction false} ExpandAllKeepsUnique(cs: seq<Cell>, bs: seq<Cell>)
    requires Unique(cs)
    ensures Unique(ExpandAll(cs, bs))
  {
    if bs != [] {
      ExpandAllKeepsUnique(cs, bs[..|bs| - 1]);
      ExpandKeepsUnique(ExpandAll(cs, bs[..|bs| - 1]), bs[|bs| - 1]);
    }
  }

  /** If s extends cs with dead cells and r extends s with dead cells, r extends cs with dead cells. */
  lemma ExtendTwice(cs: seq<Cell>, s: seq<Cell>, r: seq<Cell>)
    requires |s| >= |cs| && s[..|cs|] == cs && forall k :: |cs| <= k < |s| ==> !s[k].alive
    requires |r| >= |s| && r[..|s|] == s && forall k :: |s| <= k < |r| ==> !r[k].alive
    ensures |r| >= |cs| && r[..|cs|] == cs && forall k :: |cs| <= k < |r| ==> !r[k].alive
  {
    assert r[..|cs|] == s[..|cs|];
    forall k | |cs| <= k < |s| ensures !r[k].alive {
      assert r[k] == s[k];
    }
  }

  lemma FrontiersSnoc(bs: seq<Cell>)
    requires bs != []
    ensures Frontiers(bs) == Frontiers(bs[..|bs| - 1]) + Moore(PosOf(bs[|bs| - 1]))
  {
    var init, last := bs[..|bs| - 1], bs[|bs| - 1];
    assert bs == init + [last];
    forall q | q in Frontiers(bs) ensures q in Frontiers(init) + Moore(PosOf(last)) {
      var b :| b in bs && q in Moore(PosOf(b));
      if b != last {
        assert b in init;
      }
    }
    forall q | q in Moore(PosOf(last)) ensures q in Frontiers(bs) {
      assert last in bs;
    }
  }

  /** The next generation's copies keep each old cell's position and colour. */
  lemma GenerationPositions(gen: seq<Cell>)
    ensures Positions(Generation(gen)) == Positions(gen)
    ensures Unique(gen) ==> Unique(Generation(gen))
  {
    var g := Generation(gen);
    forall q | q in Positions(gen) ensures q in Positions(g) {
      var c :| c in gen && PosOf(c) == q;
      var k :| 0 <= k < |gen| && gen[k] == c;
      assert g[k] in g;
    }
    forall q | q in Positions(g) ensures q in Positions(gen) {
      var c :| c in g && PosOf(c) == q;
      var k :| 0 <= k < |g| && g[k] == c;
      assert gen[k] in gen;
    }
  }

  /** A step drops no tracked cell: each old cell has exactly one copy, at the same index, with the
      same position and colour, alive exactly when Conway's rule says so for its count against the
      old generation; cells are only ever appended after them. A step on an empty store leaves it empty. */
  lemma StepKeepsTracked(gen: seq<Cell>)
    ensures var n := NextState(gen);
      && |n| >= |gen|
      && (forall k :: 0 <= k < |gen| ==>
            n[k] == gen[k].(alive := n[k].alive)
            && n[k].alive == Conway(gen[k].alive, LiveNeighbors(gen, PosOf(gen[k]))))
      && Positions(gen) <= Positions(n)
      && (gen == [] ==> n == [])
  {
    var g := Generation(gen);
    var n := NextState(gen);
    ExpandAllExtends(g, Births(gen, gen));
    ExpandAllPositions(g, Births(gen, gen));
    GenerationPositions(gen);
    forall k | 0 <= k < |gen| ensures n[k] == g[k] {
      assert n[k] == n[..|g|][k];
    }
    if gen == [] {
      assert Births(gen, gen) == [];
    }
  }

  /** A step keeps positions unique. */
  lemma StepKeepsUnique(gen: seq<Cell>)
    requires Unique(gen)
    ensures Unique(NextState(gen))
  {
    GenerationPositions(gen);
    ExpandAllKeepsUnique(Generation(gen), Births(gen, gen));
  }

  /** The Moore positions of the newborns are the Moore positions of the born cells of gen. */
  lemma BirthsFrontier(gen: seq<Cell>)
    ensures Frontiers(Births(gen, gen)) == BirthFrontier(gen)
  {
    BirthsSpec(gen, gen);
    forall q | q in Frontiers(Births(gen, gen)) ensures q in BirthFrontier(gen) {
      var b :| b in Births(gen, gen) && q in Moore(PosOf(b));
      var c :| c in gen && IsBirth(gen, c) && b == Successor(gen, c);
      assert PosOf(c) == PosOf(b);
    }
    forall q | q in BirthFrontier(gen) ensures q in Frontiers(Births(gen, gen)) {
      var c :| c in gen && IsBirth(gen, c) && q in Moore(PosOf(c));
      var b := Successor(gen, c);
      assert b in Births(gen, gen) && PosOf(b) == PosOf(c);
    }
  }

  /** After a step the store tracks exactly the old positions and the Moore positions of every
      newborn: each newborn has its whole frontier tracked, and nothing else was added. */
  lemma StepPositions(gen: seq<Cell>)
    ensures Positions(NextState(gen)) == Positions(gen) + BirthFrontier(gen)
    ensures forall c :: c in gen && IsBirth(gen, c) ==> Moore(PosOf(c)) <= Positions(NextState(gen))
  {
    var g := Generation(gen);
    ExpandAllPositions(g, Births(gen, gen));
    GenerationPositions(gen);
    BirthsFrontier(gen);
  }

  /** A step keeps every alive cell's frontier tracked: survivors had theirs already and
      newborns receive theirs. */
  lemma StepKeepsFramed(gen: seq<Cell>)
    requires Framed(gen)
    ensures Framed(NextState(gen))
  {
    var n := NextState(gen);
    ExpandAllExtends(Generation(gen), Births(gen, gen));
    StepKeepsTracked(gen);
    StepPositions(gen);
    forall d | d in n && d.alive ensures Moore(PosOf(d)) <= Positions(n) {
      var k :| 0 <= k < |n| && n[k] == d;
      assert k < |gen|;
      assert PosOf(gen[k]) == PosOf(d);
      if !gen[k].alive {
        assert IsBirth(gen, gen[k]);
      }
    }
  }

  /** With unique positions, a position is alive after a step exactly when it was tracked and
      Conway's rule holds for whether it was alive and its live-neighbour count. */
  lemma StepLive(gen: seq<Cell>)
    requires Unique(gen)
    ensures forall p :: p in LivePositions(NextState(gen)) <==>
      p in Positions(gen) && Conway(p in LivePositions(gen), LiveNeighbors(gen, p))
  {
    var n := NextState(gen);
    ExpandAllExtends(Generation(gen), Births(gen, gen));
    StepKeepsTracked(gen);
    forall p | p in LivePositions(n)
      ensures p in Positions(gen) && Conway(p in LivePositions(gen), LiveNeighbors(gen, p))
    {
      var d :| d in n && d.alive && PosOf(d) == p;
      var k :| 0 <= k < |n| && n[k] == d;
      assert k < |gen|;
      LiveAtUnique(gen, k);
      assert gen[k] in gen;
    }
    forall p | p in Positions(gen) && Conway(p in LivePositions(gen), LiveNeighbors(gen, p))
      ensures p in LivePositions(n)
    {
      var c :| c in gen && PosOf(c) == p;
      var k :| 0 <= k < |gen| && gen[k] == c;
      LiveAtUnique(gen, k);
      assert n[k] in n;
    }
  }

  /** With unique positions, a position that comes alive in a step has its whole Moore
      neighbourhood tracked afterwards. */
  lemma NewbornFramed(gen: seq<Cell>, p: Pos)
    requires Unique(gen) && p in LivePositions(NextState(gen)) && p !in LivePositions(gen)
    ensures Moore(p) <= Positions(NextState(gen))
  {
    StepLive(gen);
    StepPositions(gen);
    var c :| c in gen && PosOf(c) == p;
    assert IsBirth(gen, c);
  }

  /** In a store where positions are unique and every alive cell has its frontier tracked, the
      step is Conway's Life on the whole unbounded plane: a position is alive next exactly when
      the rule holds for its state and the number of alive positions around it, tracked or not. */
  lemma PlaneLife(gen: seq<Cell>, p: Pos)
    requires Unique(gen) && Framed(gen)
    ensures p in LivePositions(NextState(gen)) <==>
      Conway(p in LivePositions(gen), |LivePositions(gen) * Moore(p)|)
  {
    StepLive(gen);
    LiveNeighborsIsCard(gen, p);
    UntrackedIsolated(gen, p);
  }

  /** In a framed store a position with an alive position around it is tracked, so an untracked
      position has none. */
  lemma UntrackedIsolated(gen: seq<Cell>, p: Pos)
    requires Framed(gen)
    ensures LivePositions(gen) * Moore(p) != {} ==> p in Positions(gen)
  {
    if q :| q in LivePositions(gen) * Moore(p) {
      var c :| c in gen && c.alive && PosOf(c) == q;
      assert Adjacent(p, q);
      assert Adjacent(q, p);
      assert Moore(q) <= Positions(gen);
      assert p in Moore(q);
    }
  }

  /** Each count reads only the old generation, so with unique positions the order in which cells
      are visited changes neither the alive positions nor the tracked positions after the step. */
  lemma StepOrderIndependent(a: seq<Cell>, b: seq<Cell>)
    requires Unique(a) && Unique(b) && multiset(a) == multiset(b)
    ensures LivePositions(NextState(a)) == LivePositions(NextState(b))
    ensures Positions(NextState(a)) == Positions(NextState(b))
  {
    assert forall c :: c in a <==> c in multiset(a);
    assert forall c :: c in b <==> c in multiset(b);
    assert Positions(a) == Positions(b);
    assert LivePositions(a) == LivePositions(b);
    forall p ensures LiveNeighbors(a, p) == LiveNeighbors(b, p) {
      NeighborsOrderIndependent(a, b, p);
    }
    StepLive(a);
    StepLive(b);
    StepPositions(a);
    StepPositions(b);
    assert BirthFrontier(a) == BirthFrontier(b);
  }
}
