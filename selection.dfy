/** Selection of the lowest-entropy uncollapsed cells, in the grid's enumeration order. */
module Selection {
  import opened Cells

  /** The smallest entropy among the uncollapsed cells listed; None stands for +infinity. */
  ghost function MinEntropy(g: seq<Cell>, cells: seq<nat>): (m: Option<nat>)
    requires InRange(cells, |g|)
    ensures m.None? <==> forall i :: i in cells ==> g[i].collapsed
    ensures m.Some? ==> exists i :: i in cells && !g[i].collapsed && Entropy(g[i]) == m.value
    ensures m.Some? ==> forall i :: i in cells && !g[i].collapsed ==> m.value <= Entropy(g[i])
    decreases |cells|
  {
    if cells == [] then None
    else
      var rest := cells[..|cells| - 1];
      var i := cells[|cells| - 1];
      assert cells == rest + [i];
      var m := MinEntropy(g, rest);
      if g[i].collapsed then m
      else if m.None? || Entropy(g[i]) < m.value then Some(Entropy(g[i]))
      else m
  }

  /** The uncollapsed cells listed whose entropy is e, in the order listed. */
  ghost function CellsAt(g: seq<Cell>, cells: seq<nat>, e: nat): (r: seq<nat>)
    requires InRange(cells, |g|)
    ensures |r| <= |cells|
    decreases |cells|
  {
    if cells == [] then []
    else
      var i := cells[|cells| - 1];
      CellsAt(g, cells[..|cells| - 1], e) + (if !g[i].collapsed && Entropy(g[i]) == e then [i] else [])
  }

  lemma {:induction false} CellsAtMembers(g: seq<Cell>, cells: seq<nat>, e: nat, x: nat)
    requires InRange(cells, |g|)
    ensures x in CellsAt(g, cells, e) <==> x in cells && !g[x].collapsed && Entropy(g[x]) == e
    decreases |cells|
  {
    if cells != [] {
      var rest := cells[..|cells| - 1];
      assert cells == rest + [cells[|cells| - 1]];
      CellsAtMembers(g, rest, e, x);
    }
  }

  lemma CellsAtListed(g: seq<Cell>, cells: seq<nat>, e: nat)
    requires InRange(cells, |g|)
    ensures forall x :: x in CellsAt(g, cells, e) ==> x in cells && !g[x].collapsed
    ensures InRange(CellsAt(g, cells, e), |g|)
  {
    var r := CellsAt(g, cells, e);
    forall k | 0 <= k < |r| ensures r[k] in cells && !g[r[k]].collapsed && r[k] < |g| {
      CellsAtMembers(g, cells, e, r[k]);
      var j :| 0 <= j < |cells| && cells[j] == r[k];
    }
  }

  /** With no listed uncollapsed cell at entropy e, CellsAt is empty. */
  lemma CellsAtEmpty(g: seq<Cell>, cells: seq<nat>, e: nat)
    requires InRange(cells, |g|)
    requires forall i :: i in cells && !g[i].collapsed ==> Entropy(g[i]) != e
    ensures CellsAt(g, cells, e) == []
  {
    if CellsAt(g, cells, e) != [] {
      var x := CellsAt(g, cells, e)[0];
      CellsAtMembers(g, cells, e, x);
    }
  }

  /** The candidate list of one step: every uncollapsed cell of minimum entropy. */
  ghost function LowestEntropyCells(g: seq<Cell>, cells: seq<nat>): (r: seq<nat>)
    requires InRange(cells, |g|)
    ensures forall x :: x in r ==> x in cells && !g[x].collapsed
    ensures InRange(r, |g|)
  {
    match MinEntropy(g, cells)
    case None => []
    case Some(m) =>
      CellsAtListed(g, cells, m);
      CellsAt(g, cells, m)
  }

  /**
   * x is a candidate exactly when it is listed, uncollapsed, and no listed
   * uncollapsed cell has lower entropy; collapsed cells are never candidates.
   */
  lemma LowestEntropyCellsMembers(g: seq<Cell>, cells: seq<nat>, x: nat)
    requires InRange(cells, |g|)
    ensures x in LowestEntropyCells(g, cells) <==>
      x in cells && !g[x].collapsed &&
      forall j :: j in cells && !g[j].collapsed ==> Entropy(g[x]) <= Entropy(g[j])
  {
    var m := MinEntropy(g, cells);
    if m.Some? {
      CellsAtMembers(g, cells, m.value, x);
      if x in cells && !g[x].collapsed &&
         forall j :: j in cells && !g[j].collapsed ==> Entropy(g[x]) <= Entropy(g[j]) {
        var w :| w in cells && !g[w].collapsed && Entropy(g[w]) == m.value;
        assert Entropy(g[x]) <= Entropy(g[w]);
      }
    }
  }

  /** There is no candidate exactly when every listed cell is collapsed. */
  lemma LowestEntropyCellsEmpty(g: seq<Cell>, cells: seq<nat>)
    requires InRange(cells, |g|)
    ensures LowestEntropyCells(g, cells) == [] <==> forall i :: i in cells ==> g[i].collapsed
  {
    var m := MinEntropy(g, cells);
    if m.Some? {
      var w :| w in cells && !g[w].collapsed && Entropy(g[w]) == m.value;
      CellsAtMembers(g, cells, m.value, w);
    }
  }

  /** How one more listed cell i updates the minimum and the cells at an entropy. */
  lemma ScanStep(g: seq<Cell>, cells: seq<nat>, i: nat, e: nat)
    requires InRange(cells, |g|) && i < |g|
    ensures InRange(cells + [i], |g|)
    ensures var m := MinEntropy(g, cells);
      MinEntropy(g, cells + [i]) ==
        if g[i].collapsed then m
        else if m.None? || Entropy(g[i]) < m.value then Some(Entropy(g[i]))
        else m
    ensures CellsAt(g, cells + [i], e) ==
      CellsAt(g, cells, e) + (if !g[i].collapsed && Entropy(g[i]) == e then [i] else [])
  {
    assert (cells + [i])[..|cells|] == cells;
  }
}
