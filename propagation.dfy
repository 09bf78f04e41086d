/** Neighbour narrowing and the bounded recursive propagation of one pass. */
module Propagation {
  import opened Directions
  import opened Cells

  /** The tiles some option of a cell allows in direction dir (the union of their rules). */
  ghost function Allowed(possible: (Tile, Direction) -> set<Tile>, opts: set<Tile>, dir: Direction): (r: set<Tile>)
    ensures forall o :: o in opts ==> possible(o, dir) <= r
    ensures forall t :: t in r ==> exists o :: o in opts && t in possible(o, dir)
  {
    set o, t | o in opts && t in possible(o, dir) :: t
  }

  lemma AllowedStep(possible: (Tile, Direction) -> set<Tile>, opts: set<Tile>, o: Tile, dir: Direction)
    ensures Allowed(possible, opts + {o}, dir) == Allowed(possible, opts, dir) + possible(o, dir)
  {
  }

  lemma SubsetCardinality(a: set<Tile>, b: set<Tile>)
    requires a <= b
    ensures |a| < |b| <==> a < b
  {
    assert b == a + (b - a);
    if a < b {
      var x :| x in b - a;
    }
  }

  /**
   * Narrowing of the neighbour nb of cell c: the neighbour's options are
   * intersected with what c's options allow towards it; the flag says whether
   * they strictly shrank.
   */
  ghost function Narrow(cfg: Config, g: seq<Cell>, c: nat, nb: Neighbour): (r: (seq<Cell>, bool))
    requires c < |g| && nb.cell < |g|
    ensures |r.0| == |g|
  {
    var n := g[nb.cell];
    var narrowed := n.options * Allowed(cfg.possible, g[c].options, nb.dir);
    if n.collapsed then (g, false)
    else if cfg.allowImperfect && narrowed == {} then (g, false)
    else if |narrowed| < |n.options| then (g[nb.cell := n.(options := narrowed)], true)
    else (g, false)
  }

  /**
   * A collapsed neighbour is left alone and reported unchanged; with imperfect
   * tolerance an empty intersection changes nothing; otherwise the neighbour's
   * options become the intersection with what c allows, and the result is true
   * exactly when they strictly shrank. In strict mode the intersection may be empty.
   */
  lemma NarrowSpec(cfg: Config, g: seq<Cell>, c: nat, nb: Neighbour)
    requires c < |g| && nb.cell < |g|
    ensures var r := Narrow(cfg, g, c, nb);
      var allowed := Allowed(cfg.possible, g[c].options, nb.dir);
      (forall i :: 0 <= i < |g| && i != nb.cell ==> r.0[i] == g[i]) &&
      r.0[nb.cell].collapsed == g[nb.cell].collapsed &&
      r.0[nb.cell].checked == g[nb.cell].checked &&
      r.0[nb.cell].options <= g[nb.cell].options &&
      (r.1 <==> r.0[nb.cell].options < g[nb.cell].options) &&
      (!r.1 ==> r.0 == g) &&
      (g[nb.cell].collapsed ==> !r.1) &&
      (r.1 ==> r.0[nb.cell].options == g[nb.cell].options * allowed) &&
      (cfg.allowImperfect && g[nb.cell].options * allowed == {} ==> !r.1) &&
      (!g[nb.cell].collapsed && !(cfg.allowImperfect && g[nb.cell].options * allowed == {}) ==>
        r.0[nb.cell].options == g[nb.cell].options * allowed)
  {
    var n := g[nb.cell];
    SubsetCardinality(n.options * Allowed(cfg.possible, g[c].options, nb.dir), n.options);
  }

  lemma NarrowUnfold(cfg: Config, g: seq<Cell>, c: nat, nb: Neighbour)
    requires c < |g| && nb.cell < |g| && !g[nb.cell].collapsed
    ensures var narrowed := g[nb.cell].options * Allowed(cfg.possible, g[c].options, nb.dir);
      Narrow(cfg, g, c, nb) ==
        if cfg.allowImperfect && narrowed == {} then (g, false)
        else if |narrowed| < |g[nb.cell].options| then (g[nb.cell := g[nb.cell].(options := narrowed)], true)
        else (g, false)
  {
  }

  /** The result of a propagation: the new grid and, in order, the cells expanded. */
  datatype Pass = Pass(grid: seq<Cell>, expanded: seq<nat>)

  /**
   * What every propagation promises: options only shrink, collapsed flags and
   * collapsed cells' options are untouched, exactly the expanded cells become
   * checked, each of them was unchecked before, and none is expanded twice.
   */
  ghost predicate PassOk(g: seq<Cell>, r: Pass)
  {
    |r.grid| == |g| &&
    (forall i :: 0 <= i < |g| ==>
      r.grid[i].options <= g[i].options &&
      r.grid[i].collapsed == g[i].collapsed &&
      (g[i].collapsed ==> r.grid[i].options == g[i].options) &&
      r.grid[i].checked == (g[i].checked || i in r.expanded)) &&
    (forall k :: 0 <= k < |r.expanded| ==> r.expanded[k] < |g| && !g[r.expanded[k]].checked) &&
    Distinct(r.expanded)
  }

  lemma DistinctAppend(a: seq<nat>, b: seq<nat>)
    requires Distinct(a) && Distinct(b)
    requires forall x :: x in a ==> x !in b
    ensures Distinct(a + b)
  {
    forall i, j | 0 <= i < j < |a + b| ensures (a + b)[i] != (a + b)[j] {
      if i < |a| && j >= |a| {
        assert (a + b)[i] in a && (a + b)[j] in b;
      }
    }
  }

  /**
   * Propagation from cell c at the given depth. A cell past the depth bound
   * or already checked in this pass is left alone; otherwise it is marked
   * checked and its neighbours are visited in order.
   */
  ghost function Propagate(cfg: Config, g: seq<Cell>, c: nat, depth: nat): (r: Pass)
    requires NeighboursOk(cfg.neighbours, |g|) && c < |g|
    requires depth <= MaxRecursionDepth + 1
    ensures |r.grid| == |g|
    decreases MaxRecursionDepth + 1 - depth, 1, 0
  {
    if depth > MaxRecursionDepth || g[c].checked then Pass(g, [])
    else
      var v := Visit(cfg, g[c := g[c].(checked := true)], c, 0, depth);
      Pass(v.grid, [c] + v.expanded)
  }

  /**
   * The neighbour loop of an expanded cell c from the k-th neighbour on: each
   * neighbour is narrowed and, when it shrank, propagated from one level deeper.
   */
  ghost function Visit(cfg: Config, g: seq<Cell>, c: nat, k: nat, depth: nat): (r: Pass)
    requires NeighboursOk(cfg.neighbours, |g|) && c < |g|
    requires k <= |cfg.neighbours[c]| && depth <= MaxRecursionDepth
    ensures |r.grid| == |g|
    decreases MaxRecursionDepth + 1 - depth, 0, |cfg.neighbours[c]| - k
  {
    if k == |cfg.neighbours[c]| then Pass(g, [])
    else
      var nb := cfg.neighbours[c][k];
      var n := Narrow(cfg, g, c, nb);
      var p := if n.1 then Propagate(cfg, n.0, nb.cell, depth + 1) else Pass(n.0, []);
      var q := Visit(cfg, p.grid, c, k + 1, depth);
      Pass(q.grid, p.expanded + q.expanded)
  }

  /**
   * A propagation terminates within the depth bound, narrows without
   * touching collapsed cells, marks exactly the cells it expands, and expands
   * only cells unchecked before it, each at most once.
   */
  lemma {:induction false} PropagateOk(cfg: Config, g: seq<Cell>, c: nat, depth: nat)
    requires NeighboursOk(cfg.neighbours, |g|) && c < |g|
    requires depth <= MaxRecursionDepth + 1
    ensures PassOk(g, Propagate(cfg, g, c, depth))
    decreases MaxRecursionDepth + 1 - depth, 1, 0
  {
    if !(depth > MaxRecursionDepth || g[c].checked) {
      var g1 := g[c := g[c].(checked := true)];
      VisitOk(cfg, g1, c, 0, depth);
      var v := Visit(cfg, g1, c, 0, depth);
      DistinctAppend([c], v.expanded);
    }
  }

  lemma {:induction false} VisitOk(cfg: Config, g: seq<Cell>, c: nat, k: nat, depth: nat)
    requires NeighboursOk(cfg.neighbours, |g|) && c < |g|
    requires k <= |cfg.neighbours[c]| && depth <= MaxRecursionDepth
    ensures PassOk(g, Visit(cfg, g, c, k, depth))
    decreases MaxRecursionDepth + 1 - depth, 0, |cfg.neighbours[c]| - k
  {
    if k < |cfg.neighbours[c]| {
      var nb := cfg.neighbours[c][k];
      var n := Narrow(cfg, g, c, nb);
      NarrowOk(cfg, g, c, nb);
      var p := if n.1 then Propagate(cfg, n.0, nb.cell, depth + 1) else Pass(n.0, []);
      if n.1 {
        PropagateOk(cfg, n.0, nb.cell, depth + 1);
        PassOkCompose(g, Pass(n.0, []), p);
      }
      VisitOk(cfg, p.grid, c, k + 1, depth);
      PassOkCompose(g, p, Visit(cfg, p.grid, c, k + 1, depth));
    }
  }

  /** A narrowing is a pass that expands nothing. */
  lemma NarrowOk(cfg: Config, g: seq<Cell>, c: nat, nb: Neighbour)
    requires c < |g| && nb.cell < |g|
    ensures PassOk(g, Pass(Narrow(cfg, g, c, nb).0, []))
  {
    NarrowSpec(cfg, g, c, nb);
  }

  /** Two passes in sequence make one pass that expands the cells of both. */
  lemma PassOkCompose(g: seq<Cell>, p: Pass, q: Pass)
    requires PassOk(g, p) && PassOk(p.grid, q)
    ensures PassOk(g, Pass(q.grid, p.expanded + q.expanded))
  {
    forall x | x in p.expanded ensures x !in q.expanded {
      var i :| 0 <= i < |p.expanded| && p.expanded[i] == x;
    }
    DistinctAppend(p.expanded, q.expanded);
    var e := p.expanded + q.expanded;
    forall k | 0 <= k < |e| ensures e[k] < |g| && !g[e[k]].checked {
      if k >= |p.expanded| {
        assert e[k] == q.expanded[k - |p.expanded|];
      }
    }
  }

  /** h has no empty cell that was non-empty in g. */
  ghost predicate KeepsNonEmpty(g: seq<Cell>, h: seq<Cell>)
  {
    |h| == |g| && forall i :: 0 <= i < |g| && g[i].options != {} ==> h[i].options != {}
  }

  /** With imperfect tolerance a neighbour check never empties a cell. */
  lemma NarrowKeepsNonEmpty(cfg: Config, g: seq<Cell>, c: nat, nb: Neighbour)
    requires c < |g| && nb.cell < |g| && cfg.allowImperfect
    ensures KeepsNonEmpty(g, Narrow(cfg, g, c, nb).0)
  {
    NarrowSpec(cfg, g, c, nb);
  }

  /**
   * With imperfect tolerance a propagation never empties a cell: the only
   * narrowing it refuses is the one that would.
   */
  lemma {:induction false} PropagateKeepsNonEmpty(cfg: Config, g: seq<Cell>, c: nat, depth: nat)
    requires NeighboursOk(cfg.neighbours, |g|) && c < |g|
    requires depth <= MaxRecursionDepth + 1 && cfg.allowImperfect
    ensures KeepsNonEmpty(g, Propagate(cfg, g, c, depth).grid)
    decreases MaxRecursionDepth + 1 - depth, 1, 0
  {
    if !(depth > MaxRecursionDepth || g[c].checked) {
      VisitKeepsNonEmpty(cfg, g[c := g[c].(checked := true)], c, 0, depth);
    }
  }

  lemma {:induction false} VisitKeepsNonEmpty(cfg: Config, g: seq<Cell>, c: nat, k: nat, depth: nat)
    requires NeighboursOk(cfg.neighbours, |g|) && c < |g|
    requires k <= |cfg.neighbours[c]| && depth <= MaxRecursionDepth && cfg.allowImperfect
    ensures KeepsNonEmpty(g, Visit(cfg, g, c, k, depth).grid)
    decreases MaxRecursionDepth + 1 - depth, 0, |cfg.neighbours[c]| - k
  {
    if k < |cfg.neighbours[c]| {
      var nb := cfg.neighbours[c][k];
      var n := Narrow(cfg, g, c, nb);
      NarrowKeepsNonEmpty(cfg, g, c, nb);
      var p := if n.1 then Propagate(cfg, n.0, nb.cell, depth + 1) else Pass(n.0, []);
      if n.1 {
        PropagateKeepsNonEmpty(cfg, n.0, nb.cell, depth + 1);
      }
      assert KeepsNonEmpty(g, p.grid);
      VisitKeepsNonEmpty(cfg, p.grid, c, k + 1, depth);
    }
  }

  lemma PropagateUnfold(cfg: Config, g: seq<Cell>, c: nat, depth: nat)
    requires NeighboursOk(cfg.neighbours, |g|) && c < |g|
    requires depth <= MaxRecursionDepth && !g[c].checked
    ensures Propagate(cfg, g, c, depth).grid == Visit(cfg, g[c := g[c].(checked := true)], c, 0, depth).grid
  {
  }

  lemma VisitUnfold(cfg: Config, g: seq<Cell>, c: nat, k: nat, depth: nat)
    requires NeighboursOk(cfg.neighbours, |g|) && c < |g|
    requires k < |cfg.neighbours[c]| && depth <= MaxRecursionDepth
    ensures var nb := cfg.neighbours[c][k];
      var n := Narrow(cfg, g, c, nb);
      Visit(cfg, g, c, k, depth).grid ==
        Visit(cfg, if n.1 then Propagate(cfg, n.0, nb.cell, depth + 1).grid else n.0, c, k + 1, depth).grid
  {
  }

  lemma VisitEnd(cfg: Config, g: seq<Cell>, c: nat, depth: nat)
    requires NeighboursOk(cfg.neighbours, |g|) && c < |g| && depth <= MaxRecursionDepth
    ensures Visit(cfg, g, c, |cfg.neighbours[c]|, depth).grid == g
  {
  }

  /** In strict mode narrowing can leave a neighbour with no options; tolerant mode refuses that narrowing. */
  lemma StrictNarrowingCanEmpty()
    ensures var g := [Cell({0}, false, false), Cell({1}, false, false)];
      var strict := Config({0, 1}, [0, 1], [[Neighbour(1, East)], []], (t, dir) => {}, t => 1.0, s => [], false);
      var r := Narrow(strict, g, 0, Neighbour(1, East));
      var r2 := Narrow(strict.(allowImperfect := true), g, 0, Neighbour(1, East));
      r.1 && r.0[1].options == {} && !r2.1 && r2.0 == g
  {
    var g := [Cell({0}, false, false), Cell({1}, false, false)];
    var strict := Config({0, 1}, [0, 1], [[Neighbour(1, East)], []], (t, dir) => {}, t => 1.0, s => [], false);
    assert Allowed(strict.possible, g[0].options, East) == {};
  }
}
