/** The escape phase's maze solver: the cavern's tiles are laid out on a
    boolean grid framed by a ring of walls, and a recursive depth-first search
    marks a route from the explorer's tile to the exit. */
module Maze {

  /** A tile of the cavern as the host reports it. */
  datatype Tile = Tile(row: nat, column: nat)

  /** A grid cell, as (x, y) = (column, row). */
  type Cell = (int, int)

  /** The grid cell of a tile: x is its column, y its row. */
  function CellOf(t: Tile): Cell
  {
    (t.column, t.row)
  }

  /** The largest column among `tiles`, folded with `max` from 0 in list order. */
  function MaxColumn(tiles: seq<Tile>): (m: nat)
    ensures forall t :: t in tiles ==> t.column <= m
    ensures tiles == [] ==> m == 0
    ensures tiles != [] ==> exists t :: t in tiles && t.column == m
  {
    if tiles == [] then 0
    else
      var m0 := MaxColumn(tiles[..|tiles| - 1]);
      var t := tiles[|tiles| - 1];
      assert forall u :: u in tiles ==> u in tiles[..|tiles| - 1] || u == t;
      if t.column > m0 then t.column else m0
  }

  /** The largest row among `tiles`, folded with `max` from 0 in list order. */
  function MaxRow(tiles: seq<Tile>): (m: nat)
    ensures forall t :: t in tiles ==> t.row <= m
    ensures tiles == [] ==> m == 0
    ensures tiles != [] ==> exists t :: t in tiles && t.row == m
  {
    if tiles == [] then 0
    else
      var m0 := MaxRow(tiles[..|tiles| - 1]);
      var t := tiles[|tiles| - 1];
      assert forall u :: u in tiles ==> u in tiles[..|tiles| - 1] || u == t;
      if t.row > m0 then t.row else m0
  }

  /** The grid's width and height: one past the largest column and row, plus
      one more for the far wall. */
  function GridExtent(tiles: seq<Tile>): (nat, nat)
  {
    (MaxColumn(tiles) + 2, MaxRow(tiles) + 2)
  }

  /** The cell of every tile lies inside the grid and clear of its far walls,
      so every index the set-up writes is in bounds. */
  lemma TilesInsideGrid(tiles: seq<Tile>, t: Tile)
    requires t in tiles
    ensures 0 <= CellOf(t).0 < GridExtent(tiles).0 - 1
    ensures 0 <= CellOf(t).1 < GridExtent(tiles).1 - 1
  {
    assert t.column <= MaxColumn(tiles) && t.row <= MaxRow(tiles);
  }

  /** The grid cell of a tile as the set-up's first loop computes it: the
      column is read for both coordinates. */
  function CellAsWritten(t: Tile): Cell
  {
    (t.column, t.column)
  }

  /** The grid's extent as the set-up computes it from `CellAsWritten`. */
  function GridExtentAsWritten(tiles: seq<Tile>): (nat, nat)
  {
    (MaxColumn(tiles) + 2, MaxColumn(tiles) + 2)
  }

  /** Three tiles in one column, the exit at the bottom: the height is taken
      from the columns, so the exit's row lies outside the grid and forcing
      the exit open indexes past the end of the arrays. */
  lemma ExitOutsideGridAsWritten()
    ensures var tiles := [Tile(1, 1), Tile(2, 1), Tile(3, 1)];
            forall t :: t in tiles ==> CellAsWritten(t).1 < GridExtentAsWritten(tiles).1
    ensures var tiles := [Tile(1, 1), Tile(2, 1), Tile(3, 1)];
            CellOf(tiles[2]).1 >= GridExtentAsWritten(tiles).1
  {
    var tiles := [Tile(1, 1), Tile(2, 1), Tile(3, 1)];
    assert tiles[..2][..1] == [Tile(1, 1)] && tiles[..2] == [Tile(1, 1), Tile(2, 1)];
    assert MaxColumn(tiles) == 1;
  }

  /** Some tile of `tiles` has its cell at (i, j). */
  ghost predicate HasTile(tiles: seq<Tile>, i: int, j: int)
  {
    exists t :: t in tiles && t.column == i && t.row == j
  }

  /** (i, j) lies on the outer ring of a `w` by `h` grid. */
  predicate OnBorder(w: int, h: int, i: int, j: int)
  {
    i == 0 || j == 0 || i == w - 1 || j == h - 1
  }

  lemma HasTileExtend(tiles: seq<Tile>, k: nat, i: int, j: int)
    requires k < |tiles|
    ensures HasTile(tiles[..k + 1], i, j) <==>
            HasTile(tiles[..k], i, j) || (tiles[k].column == i && tiles[k].row == j)
  {
    assert tiles[..k + 1] == tiles[..k] + [tiles[k]];
    if HasTile(tiles[..k + 1], i, j) {
      var t :| t in tiles[..k + 1] && t.column == i && t.row == j;
      assert t in tiles[..k] || t == tiles[k];
    }
    if tiles[k].column == i && tiles[k].row == j {
      assert tiles[k] in tiles[..k + 1];
    }
  }

  /** The cells of `a` that hold true. */
  ghost function TrueCells(a: array2<bool>): set<Cell>
    reads a
  {
    set i, j | 0 <= i < a.Length0 && 0 <= j < a.Length1 && a[i, j] :: (i, j)
  }

  /** Every cell of a `w` by `h` grid. */
  ghost function AllCells(w: int, h: int): set<Cell>
  {
    set i, j | 0 <= i < w && 0 <= j < h :: (i, j)
  }

  /** The first set-up loop: the largest column and row, each folded with
      `max` from 0, plus two. */
  method MeasureGrid(tiles: seq<Tile>) returns (mx: nat, my: nat)
    ensures (mx, my) == GridExtent(tiles)
  {
    mx, my := 0, 0;
    for k := 0 to |tiles|
      invariant mx == MaxColumn(tiles[..k]) && my == MaxRow(tiles[..k])
    {
      MaxPrefixStep(tiles, k);
      mx := if tiles[k].column > mx then tiles[k].column else mx;
      my := if tiles[k].row > my then tiles[k].row else my;
    }
    assert tiles[..|tiles|] == tiles;
    mx, my := mx + 2, my + 2;
  }

  /** One more tile folds its column and row into the running maxima. */
  lemma MaxPrefixStep(tiles: seq<Tile>, k: nat)
    requires k < |tiles|
    ensures MaxColumn(tiles[..k + 1]) == if tiles[k].column > MaxColumn(tiles[..k]) then tiles[k].column else MaxColumn(tiles[..k])
    ensures MaxRow(tiles[..k + 1]) == if tiles[k].row > MaxRow(tiles[..k]) then tiles[k].row else MaxRow(tiles[..k])
  {
    assert tiles[..k + 1][..k] == tiles[..k];
  }

  /** The second set-up loop: each tile's cell is cleared in `seen` and
      `onPath` and opened in `open`. */
  method PlaceTiles(tiles: seq<Tile>, open: array2<bool>, seen: array2<bool>, onPath: array2<bool>)
    requires (open.Length0, open.Length1) == GridExtent(tiles)
    requires seen.Length0 == open.Length0 == onPath.Length0
    requires seen.Length1 == open.Length1 == onPath.Length1
    requires open != seen && open != onPath && seen != onPath
    requires forall i, j :: 0 <= i < open.Length0 && 0 <= j < open.Length1 ==>
      !open[i, j] && !seen[i, j] && !onPath[i, j]
    modifies open, seen, onPath
    ensures forall i, j :: 0 <= i < open.Length0 && 0 <= j < open.Length1 ==>
      (open[i, j] <==> HasTile(tiles, i, j)) && !seen[i, j] && !onPath[i, j]
  {
    for k := 0 to |tiles|
      invariant forall i, j :: 0 <= i < open.Length0 && 0 <= j < open.Length1 ==>
        (open[i, j] <==> HasTile(tiles[..k], i, j)) && !seen[i, j] && !onPath[i, j]
    {
      var x, y := tiles[k].column, tiles[k].row;
      TilesInsideGrid(tiles, tiles[k]);
      seen[x, y] := false;
      onPath[x, y] := false;
      open[x, y] := true;
      forall i, j | 0 <= i < open.Length0 && 0 <= j < open.Length1
        ensures open[i, j] <==> HasTile(tiles[..k + 1], i, j)
      {
        HasTileExtend(tiles, k, i, j);
      }
    }
    assert tiles[..|tiles|] == tiles;
  }

  /** The third set-up loop: every cell of the outer ring is cleared in all
      three grids; the other cells keep their values. */
  method CloseBorder(open: array2<bool>, seen: array2<bool>, onPath: array2<bool>)
    requires seen.Length0 == open.Length0 == onPath.Length0
    requires seen.Length1 == open.Length1 == onPath.Length1
    requires open != seen && open != onPath && seen != onPath
    modifies open, seen, onPath
    ensures forall i, j :: 0 <= i < open.Length0 && 0 <= j < open.Length1 ==>
      var inner := !OnBorder(open.Length0, open.Length1, i, j);
      open[i, j] == (old(open[i, j]) && inner) &&
      seen[i, j] == (old(seen[i, j]) && inner) &&
      onPath[i, j] == (old(onPath[i, j]) && inner)
  {
    var mx, my := open.Length0, open.Length1;
    for x := 0 to mx
      invariant forall i, j :: 0 <= i < mx && 0 <= j < my ==>
        var keep := i >= x || !OnBorder(mx, my, i, j);
        open[i, j] == (old(open[i, j]) && keep) &&
        seen[i, j] == (old(seen[i, j]) && keep) &&
        onPath[i, j] == (old(onPath[i, j]) && keep)
    {
      for y := 0 to my
        invariant forall i, j :: 0 <= i < mx && 0 <= j < my ==>
          var keep := i > x || (i == x && j >= y) || !OnBorder(mx, my, i, j);
          open[i, j] == (old(open[i, j]) && keep) &&
          seen[i, j] == (old(seen[i, j]) && keep) &&
          onPath[i, j] == (old(onPath[i, j]) && keep)
      {
        if x == 0 || y == 0 || x == mx - 1 || y == my - 1 {
          seen[x, y] := false;
          onPath[x, y] := false;
          open[x, y] := false;
        }
      }
    }
  }

  class Maze {
    const maxX: nat
    const maxY: nat
    const startX: nat
    const startY: nat
    const endX: nat
    const endY: nat
    /** Cells the search may enter. */
    const isOpen: array2<bool>
    /** Cells the search has expanded. */
    const wasHere: array2<bool>
    /** Cells on the route found. */
    const path: array2<bool>

    ghost predicate Valid()
      reads this
    {
      isOpen.Length0 == maxX && wasHere.Length0 == maxX && path.Length0 == maxX &&
      isOpen.Length1 == maxY && wasHere.Length1 == maxY && path.Length1 == maxY &&
      isOpen != wasHere && isOpen != path && wasHere != path &&
      startX < maxX && startY < maxY && endX < maxX && endY < maxY
    }

    /** A route cell is an expanded cell, and an expanded cell is open. */
    ghost predicate Marked()
      reads this, isOpen, wasHere, path
    {
      TrueCells(path) <= TrueCells(wasHere) <= TrueCells(isOpen)
    }

    /** Cells not yet expanded; every expansion removes one. */
    ghost function Pending(): set<Cell>
      reads this, wasHere
    {
      AllCells(maxX, maxY) - TrueCells(wasHere)
    }

    /** `route` starts at (x, y), ends at the exit, moves one cell left,
        right, up or down at a time, and every cell before the exit is
        marked as on the route. */
    ghost predicate MarkedRoute(route: seq<Cell>, x: int, y: int)
      reads this, path
    {
      |route| > 0 && route[0] == (x, y) && route[|route| - 1] == (endX, endY) &&
      (forall k :: 0 <= k < |route| - 1 ==>
        Adjacent(route[k], route[k + 1]) && route[k] in TrueCells(path))
    }

    /** Lay out the tiles on a grid one cell wider and taller than the largest
        column and row, close its outer ring, and force the exit open. */
    constructor (tiles: seq<Tile>, start: Tile, exit: Tile)
      requires start in tiles && exit in tiles
      ensures Valid() && Marked()
      ensures (maxX, maxY) == GridExtent(tiles)
      ensures (startX, startY) == CellOf(start) && (endX, endY) == CellOf(exit)
      ensures forall i, j :: 0 <= i < maxX && 0 <= j < maxY ==>
        (isOpen[i, j] <==> (i == endX && j == endY) || (HasTile(tiles, i, j) && !OnBorder(maxX, maxY, i, j)))
      ensures TrueCells(wasHere) == {} && TrueCells(path) == {}
      ensures fresh(isOpen) && fresh(wasHere) && fresh(path)
    {
      var mx, my := MeasureGrid(tiles);
      var open := new bool[mx, my]((i, j) => false);
      var seen := new bool[mx, my]((i, j) => false);
      var onPath := new bool[mx, my]((i, j) => false);
      PlaceTiles(tiles, open, seen, onPath);
      CloseBorder(open, seen, onPath);
      TilesInsideGrid(tiles, start);
      TilesInsideGrid(tiles, exit);
      open[exit.column, exit.row] := true;

      maxX, maxY := mx, my;
      startX, startY := start.column, start.row;
      endX, endY := exit.column, exit.row;
      isOpen, wasHere, path := open, seen, onPath;
      new;
      assert TrueCells(wasHere) == {} && TrueCells(path) == {};
    }

    /** The recursive search from (x, y): true at once on the exit, false at
        once (changing nothing) on a closed or already expanded cell;
        otherwise the cell is expanded and its left, right, upper and lower
        neighbours are tried in turn, the cell being marked as on the route
        when one of them succeeds. */
    method FindPath(x: int, y: int) returns (found: bool, ghost route: seq<Cell>)
      requires Valid() && Marked() && 0 <= x < maxX && 0 <= y < maxY
      modifies wasHere, path
      decreases Pending(), 1
      ensures Valid() && Marked()
      ensures x == endX && y == endY ==> found && unchanged(wasHere, path)
      ensures !(x == endX && y == endY) && (!isOpen[x, y] || old(wasHere[x, y])) ==>
        !found && unchanged(wasHere, path)
      ensures !(x == endX && y == endY) && isOpen[x, y] && !old(wasHere[x, y]) ==>
        wasHere[x, y] && (found <==> path[x, y])
      ensures old(TrueCells(wasHere)) <= TrueCells(wasHere)
      ensures old(TrueCells(path)) <= TrueCells(path)
      ensures TrueCells(path) - old(TrueCells(path)) <= TrueCells(wasHere) - old(TrueCells(wasHere))
      ensures !found ==> TrueCells(path) == old(TrueCells(path))
      ensures found ==> MarkedRoute(route, x, y)
    {
      if x == endX && y == endY {
        return true, [(x, y)];
      }
      if !isOpen[x, y] || wasHere[x, y] {
        return false, [];
      }
      ghost var expanded, onRoute := TrueCells(wasHere), TrueCells(path);
      wasHere[x, y] := true;
      assert TrueCells(wasHere) == expanded + {(x, y)};
      assert (x, y) in AllCells(maxX, maxY);
      if x != 0 {
        found, route := Try(x, y, x - 1, y, expanded, onRoute);
        if found {
          return;
        }
      }
      if x != maxX - 1 {
        found, route := Try(x, y, x + 1, y, expanded, onRoute);
        if found {
          return;
        }
      }
      if y != 0 {
        found, route := Try(x, y, x, y - 1, expanded, onRoute);
        if found {
          return;
        }
      }
      if y != maxY - 1 {
        found, route := Try(x, y, x, y + 1, expanded, onRoute);
        if found {
          return;
        }
      }
      return false, [];
    }

    /** One branch of the search from the expanded cell (x, y): search from
        its neighbour (nx, ny) and, on success, mark (x, y) as on the route.
        `expanded` and `onRoute` are the marks as they stood when (x, y) was
        entered. */
    method Try(x: int, y: int, nx: int, ny: int, ghost expanded: set<Cell>, ghost onRoute: set<Cell>)
      returns (found: bool, ghost route: seq<Cell>)
      requires Valid() && Marked() && 0 <= x < maxX && 0 <= y < maxY
      requires 0 <= nx < maxX && 0 <= ny < maxY && Adjacent((x, y), (nx, ny))
      requires (x, y) !in expanded && (x, y) in TrueCells(wasHere) && (x, y) !in TrueCells(path)
      requires expanded <= TrueCells(wasHere) && onRoute <= TrueCells(path)
      requires TrueCells(path) - onRoute <= TrueCells(wasHere) - expanded
      requires AllCells(maxX, maxY) - expanded > Pending()
      modifies wasHere, path
      decreases AllCells(maxX, maxY) - expanded, 0
      ensures Valid() && Marked()
      ensures expanded <= TrueCells(wasHere) && onRoute <= TrueCells(path)
      ensures TrueCells(path) - onRoute <= TrueCells(wasHere) - expanded
      ensures old(TrueCells(wasHere)) <= TrueCells(wasHere)
      ensures (x, y) in TrueCells(wasHere)
      ensures found <==> (x, y) in TrueCells(path)
      ensures !found ==> TrueCells(path) == old(TrueCells(path))
      ensures found ==> MarkedRoute(route, x, y)
    {
      ghost var r;
      found, r := FindPath(nx, ny);
      if found {
        path[x, y] := true;
        route := [(x, y)] + r;
      } else {
        route := [];
      }
    }

    /** Search from the explorer's tile; `ok` is false where the search fails
        and an IllegalArgumentException is raised. */
    method Solve() returns (ok: bool, ghost route: seq<Cell>)
      requires Valid() && Marked()
      modifies wasHere, path
      ensures Valid() && Marked()
      ensures ok ==> MarkedRoute(route, startX, startY)
      ensures !ok ==> TrueCells(path) == old(TrueCells(path))
      ensures ok ==> forall k :: 0 <= k < |route| - 1 ==> route[k] in TrueCells(isOpen)
    {
      ok, route := FindPath(startX, startY);
    }
  }

  /** Two cells one step apart horizontally or vertically. */
  predicate Adjacent(a: Cell, b: Cell)
  {
    ((a.0 - b.0 == 1 || b.0 - a.0 == 1) && a.1 == b.1) ||
    ((a.1 - b.1 == 1 || b.1 - a.1 == 1) && a.0 == b.0)
  }
}
