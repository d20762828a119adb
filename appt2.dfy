/**
 * The viewer script that highlights a connected collision region: it chunks
 * the flat collision array into rows, counts the region under a click or the
 * mouse, and lists the region's tiles in `highlightedBlocks`.
 */
module Appt2 {
  import opened TileGrid
  import opened FloodFill

  /** The number of tiles per row of `collisionsMap`. */
  const RowLength := 70

  /** The rows laid end to end. */
  function Flatten(rows: seq<seq<int>>): seq<int>
  {
    if rows == [] then [] else Flatten(rows[..|rows| - 1]) + rows[|rows| - 1]
  }

  lemma FlattenAppend(rows: seq<seq<int>>, row: seq<int>)
    ensures Flatten(rows + [row]) == Flatten(rows) + row
  {
  }

  function Min(a: int, b: int): int
  {
    if a <= b then a else b
  }

  /**
   * The `collisionsMap` loop: rows are taken with `slice(i, 70 + i)`, which
   * stops at the end of the array.
   */
  method BuildCollisionsMap(collisions: seq<int>) returns (rows: seq<seq<int>>)
    ensures |rows| == (|collisions| + RowLength - 1) / RowLength
    ensures forall k :: 0 <= k < |rows| ==>
              rows[k] == collisions[k * RowLength .. Min(k * RowLength + RowLength, |collisions|)]
    ensures forall k :: 0 <= k < |rows| - 1 ==> |rows[k]| == RowLength
    ensures |rows| > 0 ==> 0 < |rows[|rows| - 1]| <= RowLength
    ensures Flatten(rows) == collisions
  {
    rows := [];
    var i := 0;
    while i < |collisions|
      invariant 0 <= i <= |collisions| + RowLength - 1
      invariant i == |rows| * RowLength
      invariant forall k :: 0 <= k < |rows| ==>
                  rows[k] == collisions[k * RowLength .. Min(k * RowLength + RowLength, |collisions|)]
      invariant Flatten(rows) == collisions[..Min(i, |collisions|)]
      decreases |collisions| - i
    {
      var row := collisions[i .. Min(RowLength + i, |collisions|)];
      FlattenAppend(rows, row);
      assert collisions[..Min(i, |collisions|)] + row == collisions[..Min(i + RowLength, |collisions|)];
      rows := rows + [row];
      i := i + RowLength;
    }
  }

  /** The page state this script keeps: the list of highlighted tiles. */
  class Viewer {
    var highlightedBlocks: seq<Tile>

    constructor ()
      ensures highlightedBlocks == []
    {
      highlightedBlocks := [];
    }

    /**
     * addCollisionBlock(tileX, tileY, visited): the traversal of
     * checkConnectedBlocks, pushing each tile it enters onto the list.
     */
    method AddCollisionBlock(g: Grid, tileX: int, tileY: int, visited: VisitedSet)
      modifies this, visited
      decreases Unvisited(|g.cells|, visited.seen)
      ensures visited.seen == Flood(g, Tile(tileX, tileY), old(visited.seen)).seen
      ensures highlightedBlocks == old(highlightedBlocks) + Flood(g, Tile(tileX, tileY), old(visited.seen)).order
    {
      ghost var t, seen, h := Tile(tileX, tileY), visited.seen, highlightedBlocks;
      var index := tileY * g.width + tileX;
      if !IsCollision(g, index) || index in visited.seen {
        return;
      }
      visited.seen := visited.seen + {index};
      highlightedBlocks := highlightedBlocks + [Tile(tileX, tileY)];
      ghost var s0, h0 := visited.seen, highlightedBlocks;
      assert IsCollision(g, Index(g, t)) && Index(g, t) !in seen && s0 == seen + {Index(g, t)};
      UnvisitedDrop(|g.cells|, seen, index, s0);
      if tileX > 0 {
        AddCollisionBlock(g, tileX - 1, tileY, visited);
      }
      assert StepTrace(g, tileX > 0, Tile(tileX - 1, tileY), s0, visited.seen, h0, highlightedBlocks);
      TraceShrinks(g, tileX > 0, Tile(tileX - 1, tileY), s0, visited.seen, h0, highlightedBlocks);
      ghost var s1, h1 := visited.seen, highlightedBlocks;
      if tileX < g.width - 1 {
        AddCollisionBlock(g, tileX + 1, tileY, visited);
      }
      assert StepTrace(g, tileX < g.width - 1, Tile(tileX + 1, tileY), s1, visited.seen, h1, highlightedBlocks);
      TraceShrinks(g, tileX < g.width - 1, Tile(tileX + 1, tileY), s1, visited.seen, h1, highlightedBlocks);
      ghost var s2, h2 := visited.seen, highlightedBlocks;
      if tileY > 0 {
        AddCollisionBlock(g, tileX, tileY - 1, visited);
      }
      assert StepTrace(g, tileY > 0, Tile(tileX, tileY - 1), s2, visited.seen, h2, highlightedBlocks);
      TraceShrinks(g, tileY > 0, Tile(tileX, tileY - 1), s2, visited.seen, h2, highlightedBlocks);
      ghost var s3, h3 := visited.seen, highlightedBlocks;
      if tileY < g.height - 1 {
        AddCollisionBlock(g, tileX, tileY + 1, visited);
      }
      assert StepTrace(g, tileY < g.height - 1, Tile(tileX, tileY + 1), s3, visited.seen, h3, highlightedBlocks);
      FloodComposeTrace(g, tileX, tileY, seen, s0, h, s1, h1, s2, h2, s3, h3, visited.seen, highlightedBlocks);
    }

    /**
     * highlightCollisionBlocks(tileX, tileY): clear the list, then list the
     * region from a fresh `visited`.
     */
    method HighlightCollisionBlocks(g: Grid, tileX: int, tileY: int)
      modifies this
      ensures highlightedBlocks == Flood(g, Tile(tileX, tileY), {}).order
      ensures forall j, k :: 0 <= j < k < |highlightedBlocks| ==> highlightedBlocks[j] != highlightedBlocks[k]
      ensures forall k :: 0 <= k < |highlightedBlocks| ==> Marked(g, highlightedBlocks[k])
      ensures InGrid(g, Tile(tileX, tileY)) ==>
                (set u | u in highlightedBlocks) == Component(g, Tile(tileX, tileY)) &&
                |highlightedBlocks| == |Component(g, Tile(tileX, tileY))|
    {
      highlightedBlocks := [];
      var visited := new VisitedSet();
      AddCollisionBlock(g, tileX, tileY, visited);
      FloodDistinct(g, Tile(tileX, tileY), {});
      FloodEnteredMarked(g, Tile(tileX, tileY), {});
      if InGrid(g, Tile(tileX, tileY)) {
        FloodFindsComponent(g, Tile(tileX, tileY));
      }
    }

    /**
     * The click handler from the tile under the mouse on: a collision tile
     * whose region counts at least four is highlighted and the modal shown.
     */
    method OnClick(g: Grid, tileX: int, tileY: int) returns (showModal: bool)
      modifies this
      ensures showModal <==>
                IsCollision(g, Index(g, Tile(tileX, tileY))) &&
                |Flood(g, Tile(tileX, tileY), {}).order| >= RevealThreshold
      ensures InGrid(g, Tile(tileX, tileY)) ==>
                (showModal <==> |Component(g, Tile(tileX, tileY))| >= RevealThreshold)
      ensures showModal ==> highlightedBlocks == Flood(g, Tile(tileX, tileY), {}).order
      ensures !showModal ==> highlightedBlocks == old(highlightedBlocks)
    {
      showModal := false;
      var tileIndex := tileY * g.width + tileX;
      if IsCollision(g, tileIndex) {
        var connectedBlocks := ConnectedCount(g, tileX, tileY);
        if connectedBlocks >= RevealThreshold {
          HighlightCollisionBlocks(g, tileX, tileY);
          showModal := true;
        }
      }
      if InGrid(g, Tile(tileX, tileY)) {
        FloodFindsComponent(g, Tile(tileX, tileY));
        ComponentOfSeed(g, Tile(tileX, tileY));
      }
    }

    /**
     * The hover handler from the tile under the mouse on: clear the list,
     * then highlight the region when it counts at least four.
     */
    method OnMouseMove(g: Grid, mouseTileX: int, mouseTileY: int)
      modifies this
      ensures highlightedBlocks ==
                if IsCollision(g, Index(g, Tile(mouseTileX, mouseTileY))) &&
                   |Flood(g, Tile(mouseTileX, mouseTileY), {}).order| >= RevealThreshold
                then Flood(g, Tile(mouseTileX, mouseTileY), {}).order
                else []
    {
      highlightedBlocks := [];
      var tileIndex := mouseTileY * g.width + mouseTileX;
      if IsCollision(g, tileIndex) {
        var connectedBlocks := ConnectedCount(g, mouseTileX, mouseTileY);
        if connectedBlocks >= RevealThreshold {
          HighlightCollisionBlocks(g, mouseTileX, mouseTileY);
        }
      }
    }
  }
}
