/**
 * The viewer script with invisible collision tiles: on load it lists every
 * collision tile as a pixel position in `collisionsHighlighted`, and a click
 * on a collision tile whose region counts at least four shows the modal.
 */
module AppInvisivel {
  import opened TileGrid
  import opened FloodFill

  /** The side of a tile in pixels. */
  const TileSize := 32

  /** A pixel position of a tile's top-left corner. */
  datatype Pixel = Pixel(x: int, y: int)

  /**
   * The indices below `n` that hold the collision code, in increasing order:
   * the indices `highlightCollisions` pushes an entry for.
   */
  function CollisionIndices(collisions: seq<int>, n: nat): seq<int>
    requires n <= |collisions|
  {
    if n == 0 then []
    else CollisionIndices(collisions, n - 1) + (if collisions[n - 1] == CollisionTile then [n - 1] else [])
  }

  /** An index is listed exactly when it is below `n` and holds the collision code; the list is increasing. */
  lemma {:induction false} CollisionIndicesExact(collisions: seq<int>, n: nat)
    requires n <= |collisions|
    ensures forall i :: i in CollisionIndices(collisions, n) <==> 0 <= i < n && collisions[i] == CollisionTile
    ensures forall j, k :: 0 <= j < k < |CollisionIndices(collisions, n)| ==>
              CollisionIndices(collisions, n)[j] < CollisionIndices(collisions, n)[k]
  {
    if n > 0 {
      CollisionIndicesExact(collisions, n - 1);
      var prev := CollisionIndices(collisions, n - 1);
      var tail := if collisions[n - 1] == CollisionTile then [n - 1] else [];
      assert CollisionIndices(collisions, n) == prev + tail;
      forall j, k | 0 <= j < k < |prev + tail| ensures (prev + tail)[j] < (prev + tail)[k] {
        if k == |prev| {
          assert prev[j] in prev;
        }
      }
    }
  }

  /** The pixel position of index `i` on a map `mapWidth` tiles wide. */
  function PixelOf(i: int, mapWidth: int): Pixel
    requires mapWidth > 0
  {
    Pixel((i % mapWidth) * TileSize, (i / mapWidth) * TileSize)
  }

  /** The pixel positions of a list of indices, in the same order. */
  function PixelsOf(indices: seq<int>, mapWidth: int): seq<Pixel>
    requires mapWidth > 0
  {
    if indices == [] then []
    else PixelsOf(indices[..|indices| - 1], mapWidth) + [PixelOf(indices[|indices| - 1], mapWidth)]
  }

  lemma PixelsOfAppend(indices: seq<int>, i: int, mapWidth: int)
    requires mapWidth > 0
    ensures PixelsOf(indices + [i], mapWidth) == PixelsOf(indices, mapWidth) + [PixelOf(i, mapWidth)]
  {
    assert (indices + [i])[..|indices|] == indices;
  }

  /** Entry `k` of the list is the position of index `k`. */
  lemma {:induction false} PixelsOfAt(indices: seq<int>, mapWidth: int)
    requires mapWidth > 0
    ensures |PixelsOf(indices, mapWidth)| == |indices|
    ensures forall k :: 0 <= k < |indices| ==> PixelsOf(indices, mapWidth)[k] == PixelOf(indices[k], mapWidth)
  {
    if indices != [] {
      var init := indices[..|indices| - 1];
      PixelsOfAt(init, mapWidth);
      assert indices == init + [indices[|indices| - 1]];
      PixelsOfAppend(init, indices[|indices| - 1], mapWidth);
    }
  }

  /** What `highlightCollisions` leaves in `collisionsHighlighted`. */
  function CollisionPixels(collisions: seq<int>, mapWidth: int): seq<Pixel>
    requires mapWidth > 0
  {
    PixelsOf(CollisionIndices(collisions, |collisions|), mapWidth)
  }

  /**
   * A listed position is a pair of non-negative multiples of the tile size
   * from which the index is recovered, with the column inside the map.
   */
  lemma PixelOfInverts(i: int, mapWidth: int)
    requires i >= 0 && mapWidth > 0
    ensures PixelOf(i, mapWidth).x >= 0 && PixelOf(i, mapWidth).x % TileSize == 0
    ensures PixelOf(i, mapWidth).y >= 0 && PixelOf(i, mapWidth).y % TileSize == 0
    ensures PixelOf(i, mapWidth).x < mapWidth * TileSize
    ensures (PixelOf(i, mapWidth).y / TileSize) * mapWidth + PixelOf(i, mapWidth).x / TileSize == i
  {
  }

  /** Each entry of the listing is the position of a collision index, and the entries follow index order. */
  lemma CollisionPixelsExact(collisions: seq<int>, mapWidth: int)
    requires mapWidth > 0
    ensures |CollisionPixels(collisions, mapWidth)| == |CollisionIndices(collisions, |collisions|)|
    ensures forall k :: 0 <= k < |CollisionPixels(collisions, mapWidth)| ==>
              var i := CollisionIndices(collisions, |collisions|)[k];
              0 <= i < |collisions| && collisions[i] == CollisionTile &&
              CollisionPixels(collisions, mapWidth)[k] == PixelOf(i, mapWidth)
    ensures forall i :: 0 <= i < |collisions| && collisions[i] == CollisionTile ==>
              PixelOf(i, mapWidth) in CollisionPixels(collisions, mapWidth)
    ensures forall j, k :: 0 <= j < k < |CollisionIndices(collisions, |collisions|)| ==>
              CollisionIndices(collisions, |collisions|)[j] < CollisionIndices(collisions, |collisions|)[k]
  {
    var idx := CollisionIndices(collisions, |collisions|);
    CollisionIndicesExact(collisions, |collisions|);
    PixelsOfAt(idx, mapWidth);
    forall k | 0 <= k < |idx|
      ensures 0 <= idx[k] < |collisions| && collisions[idx[k]] == CollisionTile
    {
      assert idx[k] in idx;
    }
    forall i | 0 <= i < |collisions| && collisions[i] == CollisionTile
      ensures PixelOf(i, mapWidth) in CollisionPixels(collisions, mapWidth)
    {
      var k :| 0 <= k < |idx| && idx[k] == i;
      assert CollisionPixels(collisions, mapWidth)[k] == PixelOf(i, mapWidth);
    }
  }

  /** The page state this script keeps: the listed collision positions. */
  class Viewer {
    var collisionsHighlighted: seq<Pixel>

    constructor ()
      ensures collisionsHighlighted == []
    {
      collisionsHighlighted := [];
    }

    /**
     * highlightCollisions(): reset the list, then push the position of every
     * index holding the collision code. The result depends on the inputs
     * only, so a second call leaves the same list.
     */
    method HighlightCollisions(collisions: seq<int>, mapWidth: int)
      requires mapWidth > 0
      modifies this
      ensures collisionsHighlighted == CollisionPixels(collisions, mapWidth)
    {
      collisionsHighlighted := [];
      var i := 0;
      while i < |collisions|
        invariant 0 <= i <= |collisions|
        invariant collisionsHighlighted == PixelsOf(CollisionIndices(collisions, i), mapWidth)
      {
        if collisions[i] == CollisionTile {
          var x := (i % mapWidth) * TileSize;
          var y := (i / mapWidth) * TileSize;
          collisionsHighlighted := collisionsHighlighted + [Pixel(x, y)];
          assert CollisionIndices(collisions, i + 1) == CollisionIndices(collisions, i) + [i];
          PixelsOfAppend(CollisionIndices(collisions, i), i, mapWidth);
        } else {
          assert CollisionIndices(collisions, i + 1) == CollisionIndices(collisions, i) + [];
          assert CollisionIndices(collisions, i) + [] == CollisionIndices(collisions, i);
        }
        i := i + 1;
      }
    }
  }

  /**
   * The click handler from the tile under the mouse on: the modal is shown
   * exactly for a collision tile whose region counts at least four.
   */
  method OnClick(g: Grid, tileX: int, tileY: int) returns (showModal: bool)
    ensures showModal <==>
              IsCollision(g, Index(g, Tile(tileX, tileY))) &&
              |Flood(g, Tile(tileX, tileY), {}).order| >= RevealThreshold
    ensures InGrid(g, Tile(tileX, tileY)) ==>
              (showModal <==> |Component(g, Tile(tileX, tileY))| >= RevealThreshold)
  {
    showModal := false;
    var tileIndex := tileY * g.width + tileX;
    if IsCollision(g, tileIndex) {
      var connectedBlocks := ConnectedCount(g, tileX, tileY);
      if connectedBlocks >= RevealThreshold {
        showModal := true;
      }
    }
    if InGrid(g, Tile(tileX, tileY)) {
      FloodFindsComponent(g, Tile(tileX, tileY));
      ComponentOfSeed(g, Tile(tileX, tileY));
    }
  }
}
