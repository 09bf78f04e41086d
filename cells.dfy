/** The solver's view of its collaborators: cells, tiles, neighbours and the tile catalog. */
module Cells {
  import opened Directions

  datatype Option<T> = None | Some(value: T)

  /** Tiles are compared by identity only. */
  type Tile = nat

  /** The solving state of one grid position. Entropy is not stored: it is Entropy(options). */
  datatype Cell = Cell(options: set<Tile>, collapsed: bool, checked: bool)

  /** One neighbour of a cell: its position and the direction from the cell towards it. */
  datatype Neighbour = Neighbour(cell: nat, dir: Direction)

  /** The bound on the depth of one propagation recursion. */
  const MaxRecursionDepth: nat := 10

  /** Only the order of entropies matters to the solver; the number of options is used. */
  function Entropy(c: Cell): (e: nat)
    ensures e == 0 <==> c.options == {}
  {
    |c.options|
  }

  /**
   * Everything the solver reads but never changes: the tile catalog, the grid's
   * enumeration order and adjacency, each tile's directional rules and frequency,
   * the iteration order of an option set, and the imperfect-tolerance flag.
   */
  datatype Config = Config(
    tiles: set<Tile>,
    order: seq<nat>,
    neighbours: seq<seq<Neighbour>>,
    possible: (Tile, Direction) -> set<Tile>,
    frequency: Tile -> real,
    optionOrder: set<Tile> -> seq<Tile>,
    allowImperfect: bool)

  ghost predicate Distinct(xs: seq<nat>)
  {
    forall i, j :: 0 <= i < j < |xs| ==> xs[i] != xs[j]
  }

  /** xs lists every element of s exactly once (the iteration of a hash set). */
  ghost predicate Enumerates(xs: seq<Tile>, s: set<Tile>)
  {
    |xs| == |s| && forall x :: x in xs <==> x in s
  }

  ghost predicate InRange(cells: seq<nat>, n: nat)
  {
    forall k :: 0 <= k < |cells| ==> cells[k] < n
  }

  ghost predicate NeighboursOk(neighbours: seq<seq<Neighbour>>, n: nat)
  {
    |neighbours| == n &&
    forall c, k :: 0 <= c < n && 0 <= k < |neighbours[c]| ==> neighbours[c][k].cell < n
  }

  /** The collaborators describe a grid of n cells consistently. */
  ghost predicate WellFormed(cfg: Config, n: nat)
  {
    NeighboursOk(cfg.neighbours, n) &&
    |cfg.order| == n && InRange(cfg.order, n) &&
    (forall i: nat :: i < n ==> i in cfg.order) &&
    (forall s: set<Tile> :: Enumerates(cfg.optionOrder(s), s))
  }

  /** h is a later state of g: options only shrink, collapsed cells stay collapsed and keep their options. */
  ghost predicate Refines(g: seq<Cell>, h: seq<Cell>)
  {
    |h| == |g| &&
    forall i :: 0 <= i < |g| ==>
      h[i].options <= g[i].options &&
      (g[i].collapsed ==> h[i].collapsed && h[i].options == g[i].options)
  }

  lemma RefinesTransitive(f: seq<Cell>, g: seq<Cell>, h: seq<Cell>)
    requires Refines(f, g) && Refines(g, h)
    ensures Refines(f, h)
  {
  }

  /** Every cell reset to the full catalog and uncollapsed (the checked flags are kept). */
  ghost function Initialised(g: seq<Cell>, tiles: set<Tile>): (r: seq<Cell>)
    ensures |r| == |g|
  {
    seq(|g|, i requires 0 <= i < |g| => g[i].(options := tiles, collapsed := false))
  }

  /** Every cell's per-pass checked flag cleared. */
  ghost function Cleared(g: seq<Cell>): (r: seq<Cell>)
    ensures |r| == |g|
  {
    seq(|g|, i requires 0 <= i < |g| => g[i].(checked := false))
  }
}
