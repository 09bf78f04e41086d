/** The step engine of the solver, working in place on the matrix's cells. */
module WfcSolver {
  import opened Directions
  import opened Cells
  import opened Selection
  import opened Weighted
  import opened Propagation
  import opened Steps

  class Solver {
    /** The matrix's cells, by position. */
    const grid: array<Cell>
    /** The tile catalog, the matrix's layout, the tile rules and the tolerance flag. */
    const cfg: Config
    var running: bool
    /** The cell population captured at setup, in iteration order. */
    var cells: seq<nat>

    ghost predicate Valid()
      reads this
    {
      WellFormed(cfg, grid.Length) &&
      (cells == [] || cells == cfg.order) &&
      (running ==> cells == cfg.order)
    }

    constructor (grid: array<Cell>, cfg: Config)
      requires WellFormed(cfg, grid.Length)
      ensures Valid()
      ensures this.grid == grid && this.cfg == cfg
      ensures !running && cells == []
    {
      this.grid := grid;
      this.cfg := cfg;
      running := false;
      cells := [];
    }

    /** Gives every cell the full tile set, uncollapsed, and starts a solve. */
    method SetupSolver()
      requires Valid()
      modifies this, grid
      ensures Valid()
      ensures running && cells == cfg.order
      ensures grid[..] == Initialised(old(grid[..]), cfg.tiles)
    {
      cells := cfg.order;
      running := true;
      var k := 0;
      while k < |cells|
        invariant 0 <= k <= |cells|
        invariant running && cells == cfg.order
        invariant forall i :: 0 <= i < grid.Length ==>
          grid[i] == if i in cells[..k] then old(grid[i]).(options := cfg.tiles, collapsed := false) else old(grid[i])
      {
        var i := cells[k];
        assert cells[..k + 1] == cells[..k] + [i];
        grid[i] := grid[i].(options := cfg.tiles, collapsed := false);
        k := k + 1;
      }
      assert cells[..k] == cells;
    }

    /** Resets the per-pass checked flag of every captured cell. */
    method ClearChecked()
      requires Valid() && cells == cfg.order
      modifies grid
      ensures grid[..] == Cleared(old(grid[..]))
    {
      var k := 0;
      while k < |cells|
        invariant 0 <= k <= |cells|
        invariant forall i :: 0 <= i < grid.Length ==>
          grid[i] == if i in cells[..k] then old(grid[i]).(checked := false) else old(grid[i])
      {
        var i := cells[k];
        assert cells[..k + 1] == cells[..k] + [i];
        grid[i] := grid[i].(checked := false);
        k := k + 1;
      }
      assert cells[..k] == cells;
    }

    /** The scan for the uncollapsed cells of minimum entropy, ties kept in order. */
    method LowestEntropy() returns (lowest: seq<nat>)
      requires Valid()
      ensures lowest == LowestEntropyCells(grid[..], cells)
    {
      ghost var g := grid[..];
      var minEntropy: Option<nat> := None;
      lowest := [];
      var k := 0;
      while k < |cells|
        invariant 0 <= k <= |cells|
        invariant InRange(cells[..k], |g|)
        invariant minEntropy == MinEntropy(g, cells[..k])
        invariant lowest == if minEntropy.None? then [] else CellsAt(g, cells[..k], minEntropy.value)
      {
        var i := cells[k];
        assert cells[..k + 1] == cells[..k] + [i];
        if !grid[i].collapsed {
          var e := |grid[i].options|;
          if minEntropy.None? || e < minEntropy.value {
            ScanStep(g, cells[..k], i, e);
            CellsAtEmpty(g, cells[..k], e);
            minEntropy := Some(e);
            lowest := [i];
          } else if e == minEntropy.value {
            ScanStep(g, cells[..k], i, e);
            lowest := lowest + [i];
          } else {
            ScanStep(g, cells[..k], i, minEntropy.value);
          }
        } else if minEntropy.Some? {
          ScanStep(g, cells[..k], i, minEntropy.value);
        } else {
          ScanStep(g, cells[..k], i, 0);
        }
        k := k + 1;
      }
      assert cells[..k] == cells;
    }

    /** The tiles that some option in opts allows in direction dir (the union of their rules). */
    method ValidOptions(opts: set<Tile>, dir: Direction) returns (valid: set<Tile>)
      ensures valid == Allowed(cfg.possible, opts, dir)
    {
      valid := {};
      var rest := opts;
      while rest != {}
        invariant rest <= opts
        invariant valid == Allowed(cfg.possible, opts - rest, dir)
        decreases rest
      {
        var option :| option in rest;
        AllowedStep(cfg.possible, opts - rest, option, dir);
        assert opts - (rest - {option}) == (opts - rest) + {option};
        valid := valid + cfg.possible(option, dir);
        rest := rest - {option};
      }
      assert opts - rest == opts;
    }

    /** The options that are also valid, collected one by one. */
    method RemainingOptions(opts: set<Tile>, valid: set<Tile>) returns (remaining: set<Tile>)
      ensures remaining == opts * valid
    {
      remaining := {};
      var rest := opts;
      while rest != {}
        invariant rest <= opts
        invariant remaining == (opts - rest) * valid
        decreases rest
      {
        var option :| option in rest;
        if option in valid {
          remaining := remaining + {option};
        }
        rest := rest - {option};
      }
      assert opts - rest == opts;
    }

    /** Narrows neighbour nb of cell c, in direction dir from c; reports whether it shrank. */
    method CheckNeighbourOptions(c: nat, nb: nat, dir: Direction) returns (changed: bool)
      requires Valid() && c < grid.Length && nb < grid.Length
      modifies grid
      ensures (grid[..], changed) == Narrow(cfg, old(grid[..]), c, Neighbour(nb, dir))
    {
      if grid[nb].collapsed {
        return false;
      }
      var validOptions := ValidOptions(grid[c].options, dir);
      var newOptions := RemainingOptions(grid[nb].options, validOptions);
      ghost var g := grid[..];
      NarrowUnfold(cfg, g, c, Neighbour(nb, dir));
      if cfg.allowImperfect && newOptions == {} {
        return false;
      }
      if |newOptions| < |grid[nb].options| {
        // intersect the neighbour's options with the filtered set
        grid[nb] := grid[nb].(options := grid[nb].options * newOptions);
        assert grid[..] == g[nb := g[nb].(options := newOptions)];
        return true;
      }
      return false;
    }

    /**
     * Propagates from cell c at the given depth. Every call is made at a depth
     * of at most one past the bound, which the precondition records.
     */
    method ReduceEntropy(c: nat, depth: nat)
      requires Valid() && c < grid.Length
      requires depth <= MaxRecursionDepth + 1
      modifies grid
      ensures grid[..] == Propagate(cfg, old(grid[..]), c, depth).grid
      decreases MaxRecursionDepth + 1 - depth
    {
      if depth > MaxRecursionDepth || grid[c].checked {
        return;
      }
      // the entropy is a function of the options, so there is nothing to recompute
      PropagateUnfold(cfg, grid[..], c, depth);
      grid[c] := grid[c].(checked := true);
      ghost var marked := grid[..];
      var neighbours := cfg.neighbours[c];
      var k := 0;
      while k < |neighbours|
        invariant 0 <= k <= |neighbours|
        invariant Visit(cfg, marked, c, 0, depth).grid == Visit(cfg, grid[..], c, k, depth).grid
      {
        ghost var before := grid[..];
        var neighbour := neighbours[k];
        VisitUnfold(cfg, before, c, k, depth);
        var changed := CheckNeighbourOptions(c, neighbour.cell, neighbour.dir);
        ghost var narrowed := grid[..];
        assert (narrowed, changed) == Narrow(cfg, before, c, neighbour);
        if changed {
          ReduceEntropy(neighbour.cell, depth + 1);
        }
        k := k + 1;
      }
      VisitEnd(cfg, grid[..], c, depth);
    }

    /** The total frequency of the options, accumulated in order. */
    method TotalFrequency(options: seq<Tile>) returns (total: real)
      ensures total == Sum(cfg.frequency, options)
    {
      total := 0.0;
      var i := 0;
      while i < |options|
        invariant 0 <= i <= |options|
        invariant total == Sum(cfg.frequency, options[..i])
      {
        assert options[..i + 1][..i] == options[..i];
        total := total + cfg.frequency(options[i]);
        i := i + 1;
      }
      assert options[..i] == options;
    }

    /** Weighted choice among options: the first whose running total of frequencies reaches fraction * total. */
    method WeightedRandomSelection(options: seq<Tile>, fraction: real) returns (pick: Tile)
      requires |options| > 0
      requires 0.0 <= fraction < 1.0
      ensures pick == options[WeightedIndex(cfg.frequency, options, fraction)]
    {
      var totalFrequency := TotalFrequency(options);
      var value := fraction * totalFrequency;
      ghost var k := SelectedIndex(cfg.frequency, options, value);
      assert k == WeightedIndex(cfg.frequency, options, fraction);
      var cumulativeFrequency := 0.0;
      var i := 0;
      while i < |options|
        invariant 0 <= i <= |options|
        invariant cumulativeFrequency == Sum(cfg.frequency, options[..i])
        invariant forall j :: 0 <= j < i ==> Through(cfg.frequency, options, j) < value
      {
        assert options[..i + 1][..i] == options[..i];
        cumulativeFrequency := cumulativeFrequency + cfg.frequency(options[i]);
        assert cumulativeFrequency == Through(cfg.frequency, options, i);
        if value <= cumulativeFrequency {
          assert k == i;
          pick := options[i];
          assert pick == options[k];
          return;
        }
        i := i + 1;
      }
      assert k == |options| - 1;
      return options[|options| - 1];
    }

    /** The tile a collapse commits to: a uniform pick or a weighted one, as the coin says. */
    method ChooseTile(opts: set<Tile>, d: Draws) returns (pick: Tile)
      requires Valid() && opts != {}
      requires 0.0 <= d.fraction < 1.0
      ensures pick == Pick(cfg, opts, d)
    {
      var options := cfg.optionOrder(opts);
      var x :| x in opts;
      assert x in options;
      if d.pureRandom {
        pick := options[d.option % |options|];
      } else {
        pick := WeightedRandomSelection(options, d.fraction);
      }
    }

    /** The last loop of a step: every cell with one option left is collapsed and propagated from. */
    method CollapseSingletonCells()
      requires Valid() && cells == cfg.order
      modifies grid
      ensures grid[..] == CollapseSingletons(cfg, old(grid[..]), cells, |cells|)
    {
      var k := 0;
      while k < |cells|
        invariant 0 <= k <= |cells|
        invariant grid[..] == CollapseSingletons(cfg, old(grid[..]), cells, k)
      {
        var i := cells[k];
        if |grid[i].options| == 1 {
          grid[i] := grid[i].(collapsed := true);
          ReduceEntropy(i, 0);
        }
        k := k + 1;
      }
    }

    /** One selection, collapse and propagation cycle. */
    method Step(d: Draws) returns (outcome: Outcome)
      requires Valid()
      requires 0.0 <= d.fraction < 1.0
      modifies this, grid
      ensures Valid() && cells == cfg.order
      ensures StepState(outcome, grid[..], running) == StepSpec(cfg, old(grid[..]), old(running), d)
    {
      if !running {
        SetupSolver();
      }
      ClearChecked();
      ghost var g2 := grid[..];
      assert g2 == Prepared(cfg, old(grid[..]), old(running));
      var lowest := LowestEntropy();
      if |lowest| == 0 {
        running := false;
        return Complete;
      }
      var chosen := lowest[d.cell % |lowest|];
      if grid[chosen].options == {} {
        return Contradiction;
      }
      var pick := ChooseTile(grid[chosen].options, d);
      // reduce the chosen cell to the picked tile; it stays uncollapsed until the loop below marks it
      grid[chosen] := grid[chosen].(options := {pick});
      ReduceEntropy(chosen, 0);
      // mark each single-option cell collapsed and propagate from it
      CollapseSingletonCells();
      return Incomplete;
    }
  }
}
