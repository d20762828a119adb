/**
 * The collision layer of the tile map: a flat, row-major array of tile codes
 * together with the map's size in tiles, the 4-directional adjacency between
 * tiles, and the connected region ("component") of collision tiles that a
 * seed tile belongs to.
 */
module TileGrid {

  /** The tile code that marks a collision tile. */
  const CollisionTile := 1025

  /**
   * The collision layer. `width` and `height` are the map's size in tiles
   * (the image size divided by the tile size); `cells` is read at
   * `y * width + x`.
   */
  datatype Grid = Grid(cells: seq<int>, width: nat, height: nat)

  /** A tile coordinate (column, row); any pair of integers. */
  datatype Tile = Tile(x: int, y: int)

  /** The flat index at which a tile is read; computed without a bounds check. */
  function Index(g: Grid, t: Tile): int
  {
    t.y * g.width + t.x
  }

  /** A read at `i` yields the collision code; a read outside the array yields nothing. */
  predicate IsCollision(g: Grid, i: int)
  {
    0 <= i < |g.cells| && g.cells[i] == CollisionTile
  }

  /** The tile lies on the map. */
  predicate InGrid(g: Grid, t: Tile)
  {
    0 <= t.x < g.width && 0 <= t.y < g.height
  }

  /** The tile, read through its flat index, is a collision tile. */
  predicate Marked(g: Grid, t: Tile)
  {
    IsCollision(g, Index(g, t))
  }

  /** The two tiles differ by one step along exactly one axis. */
  predicate Adjacent(a: Tile, b: Tile)
  {
    (a.x == b.x && (a.y == b.y + 1 || b.y == a.y + 1)) ||
    (a.y == b.y && (a.x == b.x + 1 || b.x == a.x + 1))
  }

  /** A non-empty walk of adjacent on-map collision tiles. */
  ghost predicate IsPath(g: Grid, p: seq<Tile>)
  {
    && |p| > 0
    && (forall k :: 0 <= k < |p| ==> InGrid(g, p[k]) && Marked(g, p[k]))
    && (forall k :: 0 < k < |p| ==> Adjacent(p[k - 1], p[k]))
  }

  /** `u` can be reached from `s` by a walk through on-map collision tiles. */
  ghost predicate Reachable(g: Grid, s: Tile, u: Tile)
  {
    exists p :: IsPath(g, p) && p[0] == s && p[|p| - 1] == u
  }

  /**
   * The 4-connected region of collision tiles containing `s` (empty when `s`
   * is not an on-map collision tile).
   */
  ghost function Component(g: Grid, s: Tile): set<Tile>
  {
    set x, y | 0 <= x < g.width && 0 <= y < g.height && Reachable(g, s, Tile(x, y)) :: Tile(x, y)
  }

  lemma ComponentMembers(g: Grid, s: Tile, u: Tile)
    ensures u in Component(g, s) <==> InGrid(g, u) && Reachable(g, s, u)
  {
    if InGrid(g, u) && Reachable(g, s, u) {
      assert Tile(u.x, u.y) == u;
    }
  }

  /** Only a marked on-map seed has a non-empty region, and then it contains the seed. */
  lemma ComponentOfSeed(g: Grid, s: Tile)
    ensures InGrid(g, s) && Marked(g, s) <==> s in Component(g, s)
    ensures Component(g, s) != {} ==> InGrid(g, s) && Marked(g, s)
  {
    if InGrid(g, s) && Marked(g, s) {
      ReachableSelf(g, s);
      ComponentMembers(g, s, s);
    }
    if Component(g, s) != {} {
      var u :| u in Component(g, s);
      ComponentMembers(g, s, u);
    }
  }

  lemma ReachableSelf(g: Grid, t: Tile)
    requires InGrid(g, t) && Marked(g, t)
    ensures Reachable(g, t, t)
  {
    assert IsPath(g, [t]);
  }

  /** A step from `s` onto `n` extends every walk that starts at `n`. */
  lemma ReachablePrepend(g: Grid, s: Tile, n: Tile, u: Tile)
    requires InGrid(g, s) && Marked(g, s) && Adjacent(s, n)
    requires Reachable(g, n, u)
    ensures Reachable(g, s, u)
  {
    var p :| IsPath(g, p) && p[0] == n && p[|p| - 1] == u;
    var q := [s] + p;
    assert forall k :: 0 < k < |q| ==> q[k] == p[k - 1];
    assert IsPath(g, q);
  }

  /** Adjacency is symmetric, so every walk can be taken backwards. */
  lemma {:induction false} ReachableSymmetric(g: Grid, s: Tile, u: Tile)
    requires Reachable(g, s, u)
    ensures Reachable(g, u, s)
  {
    var p :| IsPath(g, p) && p[0] == s && p[|p| - 1] == u;
    var q := seq(|p|, k requires 0 <= k < |p| => p[|p| - 1 - k]);
    assert forall k :: 0 < k < |q| ==> Adjacent(q[k - 1], q[k]) by {
      forall k | 0 < k < |q| ensures Adjacent(q[k - 1], q[k]) {
        assert Adjacent(p[|p| - 1 - k], p[|p| - k]);
      }
    }
    assert IsPath(g, q);
  }

  /** Walks compose. */
  lemma ReachableTransitive(g: Grid, s: Tile, m: Tile, u: Tile)
    requires Reachable(g, s, m) && Reachable(g, m, u)
    ensures Reachable(g, s, u)
  {
    var p :| IsPath(g, p) && p[0] == s && p[|p| - 1] == m;
    var q :| IsPath(g, q) && q[0] == m && q[|q| - 1] == u;
    var r := p + q[1..];
    assert forall k :: 0 < k < |r| ==> Adjacent(r[k - 1], r[k]) by {
      forall k | 0 < k < |r| ensures Adjacent(r[k - 1], r[k]) {
        if k < |p| {
          assert r[k - 1] == p[k - 1] && r[k] == p[k];
        } else {
          assert r[k] == q[k - |p| + 1];
          assert r[k - 1] == q[k - |p|];
        }
      }
    }
    assert IsPath(g, r);
  }

  /**
   * The region does not depend on which of its tiles is used as the seed.
   */
  lemma ComponentReseed(g: Grid, s: Tile, u: Tile)
    requires u in Component(g, s)
    ensures Component(g, u) == Component(g, s)
  {
    ComponentMembers(g, s, u);
    ReachableSymmetric(g, s, u);
    forall w | w in Component(g, u) ensures w in Component(g, s) {
      ComponentMembers(g, u, w);
      ReachableTransitive(g, s, u, w);
      ComponentMembers(g, s, w);
    }
    forall w | w in Component(g, s) ensures w in Component(g, u) {
      ComponentMembers(g, s, w);
      ReachableTransitive(g, u, s, w);
      ComponentMembers(g, u, w);
    }
  }

  /**
   * A set that contains the start of a walk and that is closed under steps
   * onto on-map collision tiles contains the walk's end.
   */
  lemma {:induction false} PathStaysIn(g: Grid, p: seq<Tile>, S: set<Tile>)
    requires IsPath(g, p) && p[0] in S
    requires forall u, w :: u in S && InGrid(g, w) && Adjacent(u, w) && Marked(g, w) ==> w in S
    ensures p[|p| - 1] in S
  {
    if |p| > 1 {
      var q := p[..|p| - 1];
      assert IsPath(g, q);
      PathStaysIn(g, q, S);
      assert Adjacent(p[|p| - 2], p[|p| - 1]);
    }
  }

  lemma MulMonotone(a: int, b: int, c: nat)
    requires a <= b
    ensures a * c <= b * c
  {
  }

  /** Distinct on-map tiles have distinct flat indices. */
  lemma IndexInjective(g: Grid, a: Tile, b: Tile)
    requires InGrid(g, a) && InGrid(g, b) && Index(g, a) == Index(g, b)
    ensures a == b
  {
    if a.y < b.y {
      MulMonotone(a.y + 1, b.y, g.width);
      assert false;
    } else if b.y < a.y {
      MulMonotone(b.y + 1, a.y, g.width);
      assert false;
    }
  }

  /** The four bounds-guarded moves reach exactly the on-map neighbours of an on-map tile. */
  lemma GridNeighbour(g: Grid, t: Tile, w: Tile)
    requires InGrid(g, t) && InGrid(g, w) && Adjacent(t, w)
    ensures || (t.x > 0 && w == Tile(t.x - 1, t.y))
            || (t.x < g.width - 1 && w == Tile(t.x + 1, t.y))
            || (t.y > 0 && w == Tile(t.x, t.y - 1))
            || (t.y < g.height - 1 && w == Tile(t.x, t.y + 1))
  {
  }
}
