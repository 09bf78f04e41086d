/** One solver step as a function of the grid before it, the running flag and the draws. */
module Steps {
  import opened Cells
  import opened Selection
  import opened Weighted
  import opened Propagation

  /** What a step reports: true (solved), false (more to do), or the solve exception. */
  datatype Outcome = Complete | Incomplete | Contradiction

  /**
   * The random draws of one step, supplied from outside: an index for the tie
   * among lowest-entropy cells, the coin choosing pure over weighted random,
   * an index for the pure random pick and a fraction in [0, 1) for the
   * weighted pick. Each index is reduced modulo the size of the list it picks from.
   */
  datatype Draws = Draws(cell: nat, pureRandom: bool, option: nat, fraction: real)

  datatype StepState = StepState(outcome: Outcome, grid: seq<Cell>, running: bool)

  /** The grid a step works on: reinitialised when no solve is running. */
  ghost function Start(cfg: Config, g: seq<Cell>, running: bool): (r: seq<Cell>)
    ensures |r| == |g|
  {
    if running then g else Initialised(g, cfg.tiles)
  }

  /** The grid at selection time: checked flags cleared. */
  ghost function Prepared(cfg: Config, g: seq<Cell>, running: bool): (r: seq<Cell>)
    ensures |r| == |g|
  {
    Cleared(Start(cfg, g, running))
  }

  /** The tile a collapse commits to, drawn from the iteration order of the options. */
  ghost function Pick(cfg: Config, opts: set<Tile>, d: Draws): (t: Tile)
    requires opts != {}
    requires Enumerates(cfg.optionOrder(opts), opts)
    ensures t in opts
  {
    var xs := cfg.optionOrder(opts);
    var x :| x in opts;
    assert x in xs;
    if d.pureRandom then xs[d.option % |xs|]
    else xs[WeightedIndex(cfg.frequency, xs, d.fraction)]
  }

  /** The last loop of a step, after handling cells[..k]: each singleton reached is collapsed and propagated from. */
  ghost function CollapseSingletons(cfg: Config, g: seq<Cell>, cells: seq<nat>, k: nat): (r: seq<Cell>)
    requires NeighboursOk(cfg.neighbours, |g|) && InRange(cells, |g|)
    requires k <= |cells|
    ensures |r| == |g|
    decreases k
  {
    if k == 0 then g
    else
      var h := CollapseSingletons(cfg, g, cells, k - 1);
      var i := cells[k - 1];
      if |h[i].options| == 1 then Propagate(cfg, h[i := h[i].(collapsed := true)], i, 0).grid else h
  }

  /** One step from grid g with the given running flag. */
  ghost function StepSpec(cfg: Config, g: seq<Cell>, running: bool, d: Draws): (s: StepState)
    requires WellFormed(cfg, |g|)
    ensures |s.grid| == |g|
    ensures s.running <==> s.outcome != Complete
  {
    var g2 := Prepared(cfg, g, running);
    var lowest := LowestEntropyCells(g2, cfg.order);
    if lowest == [] then StepState(Complete, g2, false)
    else
      var chosen := lowest[d.cell % |lowest|];
      if g2[chosen].options == {} then StepState(Contradiction, g2, true)
      else
        var pick := Pick(cfg, g2[chosen].options, d);
        var g3 := g2[chosen := g2[chosen].(options := {pick})];
        var g4 := Propagate(cfg, g3, chosen, 0).grid;
        StepState(Incomplete, CollapseSingletons(cfg, g4, cfg.order, |cfg.order|), true)
  }

  /** Setup leaves every cell with the full catalog and uncollapsed, keeping its checked flag. */
  lemma InitialisedCells(g: seq<Cell>, tiles: set<Tile>, i: nat)
    requires i < |g|
    ensures var r := Initialised(g, tiles);
      r[i].options == tiles && !r[i].collapsed && r[i].checked == g[i].checked
  {
  }

  /** A setup happens on the step after a Complete one and on no other step of a running solve. */
  lemma StepRestart(cfg: Config, g: seq<Cell>, running: bool, d: Draws)
    requires WellFormed(cfg, |g|)
    ensures var s := StepSpec(cfg, g, running, d);
      Start(cfg, s.grid, s.running) == if s.outcome == Complete then Initialised(s.grid, cfg.tiles) else s.grid
  {
  }

  /** A propagation refines the grid it starts from. */
  lemma PropagateRefines(cfg: Config, g: seq<Cell>, c: nat, depth: nat)
    requires NeighboursOk(cfg.neighbours, |g|) && c < |g|
    requires depth <= MaxRecursionDepth + 1
    ensures Refines(g, Propagate(cfg, g, c, depth).grid)
  {
    PropagateOk(cfg, g, c, depth);
  }

  /** Marking a singleton collapsed refines the grid. */
  lemma MarkRefines(h: seq<Cell>, i: nat)
    requires i < |h|
    ensures Refines(h, h[i := h[i].(collapsed := true)])
  {
  }

  /** Later points of the final loop refine earlier ones. */
  lemma {:induction false} CollapseSingletonsMonotone(cfg: Config, g: seq<Cell>, cells: seq<nat>, m: nat, n: nat)
    requires NeighboursOk(cfg.neighbours, |g|) && InRange(cells, |g|)
    requires m <= n <= |cells|
    ensures Refines(CollapseSingletons(cfg, g, cells, m), CollapseSingletons(cfg, g, cells, n))
    decreases n
  {
    var hm := CollapseSingletons(cfg, g, cells, m);
    if m < n {
      CollapseSingletonsMonotone(cfg, g, cells, m, n - 1);
      var h := CollapseSingletons(cfg, g, cells, n - 1);
      var i := cells[n - 1];
      if |h[i].options| == 1 {
        var h1 := h[i := h[i].(collapsed := true)];
        MarkRefines(h, i);
        PropagateRefines(cfg, h1, i, 0);
        RefinesTransitive(h, h1, CollapseSingletons(cfg, g, cells, n));
      }
      RefinesTransitive(hm, h, CollapseSingletons(cfg, g, cells, n));
    }
  }

  /** The final loop only narrows, and never touches the options of a collapsed cell. */
  lemma CollapseSingletonsRefines(cfg: Config, g: seq<Cell>, cells: seq<nat>)
    requires NeighboursOk(cfg.neighbours, |g|) && InRange(cells, |g|)
    ensures Refines(g, CollapseSingletons(cfg, g, cells, |cells|))
  {
    CollapseSingletonsMonotone(cfg, g, cells, 0, |cells|);
  }

  /** A cell that has exactly one option when the final loop reaches it ends collapsed, with that option. */
  lemma SingletonReachedIsCollapsed(cfg: Config, g: seq<Cell>, cells: seq<nat>, j: nat)
    requires NeighboursOk(cfg.neighbours, |g|) && InRange(cells, |g|)
    requires j < |cells|
    requires |CollapseSingletons(cfg, g, cells, j)[cells[j]].options| == 1
    ensures var r := CollapseSingletons(cfg, g, cells, |cells|);
      r[cells[j]].collapsed && r[cells[j]].options == CollapseSingletons(cfg, g, cells, j)[cells[j]].options
  {
    var h := CollapseSingletons(cfg, g, cells, j);
    var i := cells[j];
    var h1 := h[i := h[i].(collapsed := true)];
    PropagateOk(cfg, h1, i, 0);
    CollapseSingletonsMonotone(cfg, g, cells, j + 1, |cells|);
  }

  /** The draws never change the verdict of selection: a step is Complete exactly when every cell of its starting grid is collapsed. */
  lemma StepCompleteIff(cfg: Config, g: seq<Cell>, running: bool, d: Draws)
    requires WellFormed(cfg, |g|)
    ensures var s := StepSpec(cfg, g, running, d);
      s.outcome == Complete <==> forall i :: 0 <= i < |g| ==> Start(cfg, g, running)[i].collapsed
  {
    var g1 := Start(cfg, g, running);
    var g2 := Prepared(cfg, g, running);
    LowestEntropyCellsEmpty(g2, cfg.order);
    if forall i :: i in cfg.order ==> g2[i].collapsed {
      forall i | 0 <= i < |g| ensures g1[i].collapsed {
        assert i in cfg.order;
      }
    }
  }

  /** A cell collapsed in a step's starting grid is the cell as it was before the step. */
  lemma StartKeepsCollapsed(cfg: Config, g: seq<Cell>, running: bool)
    ensures forall i :: 0 <= i < |g| && Start(cfg, g, running)[i].collapsed ==> Start(cfg, g, running)[i] == g[i]
  {
    if !running {
      forall i | 0 <= i < |g| ensures !Start(cfg, g, running)[i].collapsed {
        InitialisedCells(g, cfg.tiles, i);
      }
    }
  }

  /** A Complete step stops the solve and leaves every cell's options and collapsed flag as they were. */
  lemma StepCompleteUnchanged(cfg: Config, g: seq<Cell>, running: bool, d: Draws)
    requires WellFormed(cfg, |g|)
    requires StepSpec(cfg, g, running, d).outcome == Complete
    ensures var s := StepSpec(cfg, g, running, d);
      !s.running &&
      forall i :: 0 <= i < |g| ==> s.grid[i].options == g[i].options && s.grid[i].collapsed == g[i].collapsed
  {
    StartKeepsCollapsed(cfg, g, running);
    StepCompleteIff(cfg, g, running, d);
  }

  /** A step throws exactly when its starting grid holds an uncollapsed cell with no options left. */
  lemma StepContradictionIff(cfg: Config, g: seq<Cell>, running: bool, d: Draws)
    requires WellFormed(cfg, |g|)
    ensures var s := StepSpec(cfg, g, running, d);
      var g1 := Start(cfg, g, running);
      s.outcome == Contradiction <==> exists i :: 0 <= i < |g| && !g1[i].collapsed && g1[i].options == {}
  {
    var g1 := Start(cfg, g, running);
    var g2 := Prepared(cfg, g, running);
    var lowest := LowestEntropyCells(g2, cfg.order);
    if exists i :: 0 <= i < |g| && !g1[i].collapsed && g1[i].options == {} {
      var i :| 0 <= i < |g| && !g1[i].collapsed && g1[i].options == {};
      assert i in cfg.order;
      LowestEntropyCellsMembers(g2, cfg.order, i);
      assert i in lowest;
      var chosen := lowest[d.cell % |lowest|];
      LowestEntropyCellsMembers(g2, cfg.order, chosen);
      assert Entropy(g2[chosen]) == 0;
    } else if lowest != [] {
      var chosen := lowest[d.cell % |lowest|];
      assert chosen in lowest;
      assert g2[chosen].options != {};
    }
  }

  /** Whether a step throws does not depend on the imperfect-tolerance flag. */
  lemma ContradictionIndependentOfImperfect(cfg: Config, g: seq<Cell>, running: bool, d: Draws, imperfect: bool)
    requires WellFormed(cfg, |g|)
    ensures WellFormed(cfg.(allowImperfect := imperfect), |g|)
    ensures StepSpec(cfg, g, running, d).outcome == Contradiction <==>
      StepSpec(cfg.(allowImperfect := imperfect), g, running, d).outcome == Contradiction
  {
    var cfg2 := cfg.(allowImperfect := imperfect);
    assert WellFormed(cfg2, |g|);
    StepContradictionIff(cfg, g, running, d);
    StepContradictionIff(cfg2, g, running, d);
    assert Start(cfg, g, running) == Start(cfg2, g, running);
  }

  /** Clearing the checked flags refines a grid. */
  lemma ClearedRefines(g: seq<Cell>)
    ensures Refines(g, Cleared(g))
  {
  }

  /** Collapsing an uncollapsed cell to one of its own options refines the grid. */
  lemma CollapseRefines(g: seq<Cell>, c: nat, t: Tile)
    requires c < |g| && !g[c].collapsed && t in g[c].options
    ensures Refines(g, g[c := g[c].(options := {t})])
  {
  }

  /** Within a solve, each step only narrows options, and a collapsed cell keeps its options and its flag. */
  lemma StepRefines(cfg: Config, g: seq<Cell>, running: bool, d: Draws)
    requires WellFormed(cfg, |g|)
    ensures Refines(Start(cfg, g, running), StepSpec(cfg, g, running, d).grid)
  {
    var g1 := Start(cfg, g, running);
    var g2 := Prepared(cfg, g, running);
    ClearedRefines(g1);
    var lowest := LowestEntropyCells(g2, cfg.order);
    if lowest != [] {
      var chosen := lowest[d.cell % |lowest|];
      assert chosen in lowest;
      if g2[chosen].options != {} {
        var pick := Pick(cfg, g2[chosen].options, d);
        var g3 := g2[chosen := g2[chosen].(options := {pick})];
        CollapseRefines(g2, chosen, pick);
        PropagateRefines(cfg, g3, chosen, 0);
        var g4 := Propagate(cfg, g3, chosen, 0).grid;
        CollapseSingletonsRefines(cfg, g4, cfg.order);
        RefinesTransitive(g1, g2, g3);
        RefinesTransitive(g1, g3, g4);
        RefinesTransitive(g1, g4, StepSpec(cfg, g, running, d).grid);
      }
    }
  }

  lemma SubsetOfSingleton(a: set<Tile>, t: Tile)
    requires a <= {t}
    ensures a == {} || a == {t}
  {
    if t in a {
      assert a == {t};
    }
  }

  /** With imperfect tolerance the final loop never empties a cell. */
  lemma {:induction false} CollapseSingletonsKeepsNonEmpty(cfg: Config, g: seq<Cell>, cells: seq<nat>, k: nat)
    requires NeighboursOk(cfg.neighbours, |g|) && InRange(cells, |g|)
    requires k <= |cells| && cfg.allowImperfect
    ensures KeepsNonEmpty(g, CollapseSingletons(cfg, g, cells, k))
    decreases k
  {
    if k > 0 {
      CollapseSingletonsKeepsNonEmpty(cfg, g, cells, k - 1);
      var h := CollapseSingletons(cfg, g, cells, k - 1);
      var i := cells[k - 1];
      if |h[i].options| == 1 {
        PropagateKeepsNonEmpty(cfg, h[i := h[i].(collapsed := true)], i, 0);
      }
    }
  }

  /**
   * A step that neither finishes nor throws collapses the drawn cell among the
   * uncollapsed cells of minimum entropy to the drawn tile: that cell ends with
   * at most that tile, and collapsed unless later propagation emptied it, which
   * only strict mode can do; with imperfect tolerance it ends collapsed to the tile.
   */
  lemma StepIncompleteCollapses(cfg: Config, g: seq<Cell>, running: bool, d: Draws)
    requires WellFormed(cfg, |g|)
    requires StepSpec(cfg, g, running, d).outcome == Incomplete
    ensures var s := StepSpec(cfg, g, running, d);
      var g2 := Prepared(cfg, g, running);
      var lowest := LowestEntropyCells(g2, cfg.order);
      lowest != [] &&
      var chosen := lowest[d.cell % |lowest|];
      !g2[chosen].collapsed && g2[chosen].options != {} &&
      (forall i :: 0 <= i < |g| && !g2[i].collapsed ==> |g2[chosen].options| <= |g2[i].options|) &&
      var t := Pick(cfg, g2[chosen].options, d);
      t in g2[chosen].options &&
      s.grid[chosen].options <= {t} &&
      (s.grid[chosen].options != {} ==> s.grid[chosen].collapsed) &&
      (cfg.allowImperfect ==> s.grid[chosen].options == {t} && s.grid[chosen].collapsed)
  {
    var g2 := Prepared(cfg, g, running);
    var lowest := LowestEntropyCells(g2, cfg.order);
    var chosen := lowest[d.cell % |lowest|];
    assert chosen in lowest;
    LowestEntropyCellsMembers(g2, cfg.order, chosen);
    forall i | 0 <= i < |g| && !g2[i].collapsed ensures |g2[chosen].options| <= |g2[i].options| {
      assert i in cfg.order;
    }
    var pick := Pick(cfg, g2[chosen].options, d);
    var g3 := g2[chosen := g2[chosen].(options := {pick})];
    PropagateRefines(cfg, g3, chosen, 0);
    var g4 := Propagate(cfg, g3, chosen, 0).grid;
    var r := CollapseSingletons(cfg, g4, cfg.order, |cfg.order|);
    assert r == StepSpec(cfg, g, running, d).grid;
    var j :| 0 <= j < |cfg.order| && cfg.order[j] == chosen;
    var h := CollapseSingletons(cfg, g4, cfg.order, j);
    CollapseSingletonsMonotone(cfg, g4, cfg.order, 0, j);
    CollapseSingletonsMonotone(cfg, g4, cfg.order, j, |cfg.order|);
    SubsetOfSingleton(h[chosen].options, pick);
    if cfg.allowImperfect {
      PropagateKeepsNonEmpty(cfg, g3, chosen, 0);
      CollapseSingletonsKeepsNonEmpty(cfg, g4, cfg.order, j);
    }
    if |h[chosen].options| == 1 {
      SingletonReachedIsCollapsed(cfg, g4, cfg.order, j);
    }
    assert r[chosen].options <= {pick} && (r[chosen].options != {} ==> r[chosen].collapsed);
  }

}
