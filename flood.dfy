/**
 * The recursive 4-directional flood fill shared by both viewer scripts.
 *
 * `Flood` is a pure reference definition of the traversal: from a tile and
 * the set of already visited flat indices it yields the new visited set and
 * the tiles in the order the traversal first enters them. The imperative
 * `CheckConnectedBlocks` (and `Appt2.Viewer.AddCollisionBlock`) mutate a
 * shared visited object and are proved to follow `Flood` step for step; the
 * lemmas below prove what the traversal computes.
 */
module FloodFill {
  import opened TileGrid

  /** The outcome of one traversal: visited indices, and the tiles entered, in order. */
  datatype Visit = Visit(seen: set<int>, order: seq<Tile>)

  /** The integers `0 .. n-1`. */
  function Range(n: nat): (r: set<int>)
    ensures forall i :: i in r <==> 0 <= i < n
    ensures |r| == n
  {
    if n == 0 then {} else Range(n - 1) + {n - 1}
  }

  /** Every flat index that can hold a tile code. */
  function CellIndices(g: Grid): set<int>
  {
    Range(|g.cells|)
  }

  /** Continue with a sub-traversal `b` that started from `a`'s visited set. */
  function Join(a: Visit, b: Visit): Visit
  {
    Visit(b.seen, a.order + b.order)
  }

  /** The four moves out of a tile, tried in this order. */
  datatype Direction = Left | Right | Up | Down

  const Directions: seq<Direction> := [Left, Right, Up, Down]

  /** The bounds check that guards a move. */
  predicate Guard(g: Grid, t: Tile, d: Direction)
  {
    match d
    case Left => t.x > 0
    case Right => t.x < g.width - 1
    case Up => t.y > 0
    case Down => t.y < g.height - 1
  }

  /** The tile a move leads to. */
  function Neighbour(t: Tile, d: Direction): Tile
  {
    match d
    case Left => Tile(t.x - 1, t.y)
    case Right => Tile(t.x + 1, t.y)
    case Up => Tile(t.x, t.y - 1)
    case Down => Tile(t.x, t.y + 1)
  }

  /**
   * Reference traversal: stop at a tile that is not a collision tile or whose
   * index is already visited; otherwise mark it, enter it, and continue with
   * the guarded moves out of it.
   */
  function Flood(g: Grid, t: Tile, seen: set<int>): (r: Visit)
    ensures seen <= r.seen
    decreases Unvisited(|g.cells|, seen), 0
  {
    var i := Index(g, t);
    if !IsCollision(g, i) || i in seen then Visit(seen, [])
    else
      UnvisitedDrop(|g.cells|, seen, i, seen + {i});
      Moves(g, t, Directions, Visit(seen + {i}, [t]))
  }

  /** The moves `ds` out of `t`, one after the other, each continuing from what the previous visited. */
  function Moves(g: Grid, t: Tile, ds: seq<Direction>, acc: Visit): (r: Visit)
    ensures acc.seen <= r.seen
    decreases Unvisited(|g.cells|, acc.seen), 2, |ds|
  {
    if ds == [] then acc
    else
      var next := Step(g, Guard(g, t, ds[0]), Neighbour(t, ds[0]), acc);
      UnvisitedMonotone(|g.cells|, acc.seen, next.seen);
      Moves(g, t, ds[1..], next)
  }

  /** One guarded move: when `guard` holds, traverse from `n` and append what it entered. */
  function Step(g: Grid, guard: bool, n: Tile, acc: Visit): (r: Visit)
    ensures acc.seen <= r.seen
    decreases Unvisited(|g.cells|, acc.seen), 1
  {
    if guard then Join(acc, Flood(g, n, acc.seen)) else acc
  }

  /** The four guarded moves written out one after the other. */
  lemma MovesUnroll(g: Grid, t: Tile, v0: Visit)
    ensures Moves(g, t, Directions, v0) ==
            var v1 := Step(g, Guard(g, t, Left), Neighbour(t, Left), v0);
            var v2 := Step(g, Guard(g, t, Right), Neighbour(t, Right), v1);
            var v3 := Step(g, Guard(g, t, Up), Neighbour(t, Up), v2);
            Step(g, Guard(g, t, Down), Neighbour(t, Down), v3)
  {
    var v1 := Step(g, Guard(g, t, Left), Neighbour(t, Left), v0);
    var v2 := Step(g, Guard(g, t, Right), Neighbour(t, Right), v1);
    var v3 := Step(g, Guard(g, t, Up), Neighbour(t, Up), v2);
    assert Directions[1..] == [Right, Up, Down];
    assert Moves(g, t, Directions, v0) == Moves(g, t, [Right, Up, Down], v1);
    assert [Right, Up, Down][1..] == [Up, Down];
    assert Moves(g, t, [Right, Up, Down], v1) == Moves(g, t, [Up, Down], v2);
    assert [Up, Down][1..] == [Down];
    assert Moves(g, t, [Up, Down], v2) == Moves(g, t, [Down], v3);
    assert [Down][1..] == [];
    assert Moves(g, t, [Down], v3) == Moves(g, t, [], Step(g, Guard(g, t, Down), Neighbour(t, Down), v3));
  }

  /** One visit of a new collision tile, written out as the four guarded moves in source order. */
  lemma FloodUnroll(g: Grid, t: Tile, seen: set<int>)
    requires IsCollision(g, Index(g, t)) && Index(g, t) !in seen
    ensures Flood(g, t, seen) ==
            var v0 := Visit(seen + {Index(g, t)}, [t]);
            var v1 := Step(g, t.x > 0, Tile(t.x - 1, t.y), v0);
            var v2 := Step(g, t.x < g.width - 1, Tile(t.x + 1, t.y), v1);
            var v3 := Step(g, t.y > 0, Tile(t.x, t.y - 1), v2);
            Step(g, t.y < g.height - 1, Tile(t.x, t.y + 1), v3)
  {
    MovesUnroll(g, t, Visit(seen + {Index(g, t)}, [t]));
  }

  // ---------------------------------------------------------------------
  // Finite-set facts

  lemma CardMonotone<T>(a: set<T>, b: set<T>)
    requires a <= b
    ensures |a| <= |b|
  {
    assert b == a + (b - a);
  }

  /** The number of indices below `n` that are not in `seen`: what a traversal has left to visit. */
  function Unvisited(n: nat, seen: set<int>): (r: nat)
    ensures r <= n
  {
    if n == 0 then 0 else Unvisited(n - 1, seen) + (if n - 1 in seen then 0 else 1)
  }

  lemma {:induction false} UnvisitedMonotone(n: nat, a: set<int>, b: set<int>)
    requires a <= b
    ensures Unvisited(n, b) <= Unvisited(n, a)
  {
    if n > 0 {
      UnvisitedMonotone(n - 1, a, b);
    }
  }

  /** Visiting a new index of the array strictly shrinks what is left to visit. */
  lemma {:induction false} UnvisitedDrop(n: nat, a: set<int>, i: int, b: set<int>)
    requires 0 <= i < n && i !in a && a + {i} <= b
    ensures Unvisited(n, b) < Unvisited(n, a)
  {
    if i == n - 1 {
      UnvisitedMonotone(n - 1, a, b);
    } else {
      UnvisitedDrop(n - 1, a, i, b);
    }
  }

  lemma CardSplit<T>(a: set<T>, b: set<T>, c: set<T>)
    requires a <= b <= c
    ensures |c - a| == |b - a| + |c - b|
  {
  }

  lemma {:induction false} DistinctCard(s: seq<Tile>)
    requires forall j, k :: 0 <= j < k < |s| ==> s[j] != s[k]
    ensures |set u | u in s| == |s|
  {
    if |s| > 0 {
      var s' := s[..|s| - 1];
      DistinctCard(s');
      assert (set u | u in s) == (set u | u in s') + {s[|s| - 1]};
      assert s[|s| - 1] !in s';
    }
  }

  // ---------------------------------------------------------------------
  // What one traversal adds

  /**
   * `v` extends `seen` by exactly the indices of the tiles it entered; those
   * tiles hold the collision code and have pairwise distinct indices.
   */
  ghost predicate Extends(g: Grid, seen: set<int>, v: Visit)
  {
    && seen <= v.seen
    && (forall k :: 0 <= k < |v.order| ==>
          IsCollision(g, Index(g, v.order[k])) && Index(g, v.order[k]) in v.seen && Index(g, v.order[k]) !in seen)
    && (forall i :: i in v.seen && i !in seen ==> exists k :: 0 <= k < |v.order| && Index(g, v.order[k]) == i)
    && (forall j, k :: 0 <= j < k < |v.order| ==> Index(g, v.order[j]) != Index(g, v.order[k]))
    && |v.order| == |v.seen - seen|
  }

  lemma JoinExtends(g: Grid, seen: set<int>, a: Visit, b: Visit)
    requires Extends(g, seen, a) && Extends(g, a.seen, b)
    ensures Extends(g, seen, Join(a, b))
  {
    var j := Join(a, b);
    JoinEntered(g, seen, a, b);
    JoinCovers(g, seen, a, b);
    CardSplit(seen, a.seen, b.seen);
  }

  lemma JoinEntered(g: Grid, seen: set<int>, a: Visit, b: Visit)
    requires seen <= a.seen <= b.seen
    requires forall k :: 0 <= k < |a.order| ==>
               IsCollision(g, Index(g, a.order[k])) && Index(g, a.order[k]) in a.seen && Index(g, a.order[k]) !in seen
    requires forall k :: 0 <= k < |b.order| ==>
               IsCollision(g, Index(g, b.order[k])) && Index(g, b.order[k]) in b.seen && Index(g, b.order[k]) !in a.seen
    requires forall j, k :: 0 <= j < k < |a.order| ==> Index(g, a.order[j]) != Index(g, a.order[k])
    requires forall j, k :: 0 <= j < k < |b.order| ==> Index(g, b.order[j]) != Index(g, b.order[k])
    ensures forall k :: 0 <= k < |Join(a, b).order| ==>
              IsCollision(g, Index(g, Join(a, b).order[k])) && Index(g, Join(a, b).order[k]) in Join(a, b).seen &&
              Index(g, Join(a, b).order[k]) !in seen
    ensures forall j, k :: 0 <= j < k < |Join(a, b).order| ==>
              Index(g, Join(a, b).order[j]) != Index(g, Join(a, b).order[k])
  {
    var o := Join(a, b).order;
    forall k | 0 <= k < |o| ensures o[k] == if k < |a.order| then a.order[k] else b.order[k - |a.order|] {
    }
  }

  lemma JoinCovers(g: Grid, seen: set<int>, a: Visit, b: Visit)
    requires forall i :: i in a.seen && i !in seen ==> exists k :: 0 <= k < |a.order| && Index(g, a.order[k]) == i
    requires forall i :: i in b.seen && i !in a.seen ==> exists k :: 0 <= k < |b.order| && Index(g, b.order[k]) == i
    ensures forall i :: i in Join(a, b).seen && i !in seen ==>
              exists k :: 0 <= k < |Join(a, b).order| && Index(g, Join(a, b).order[k]) == i
  {
    var j := Join(a, b);
    forall i | i in j.seen && i !in seen
      ensures exists k :: 0 <= k < |j.order| && Index(g, j.order[k]) == i
    {
      if i in a.seen {
        var k :| 0 <= k < |a.order| && Index(g, a.order[k]) == i;
        assert j.order[k] == a.order[k];
      } else {
        var k :| 0 <= k < |b.order| && Index(g, b.order[k]) == i;
        assert j.order[|a.order| + k] == b.order[k];
      }
    }
  }

  /**
   * The count of one traversal equals the number of indices it newly marks as
   * visited, and every tile it enters is a distinct collision tile.
   */
  lemma {:induction false} FloodExtends(g: Grid, t: Tile, seen: set<int>)
    ensures Extends(g, seen, Flood(g, t, seen))
    decreases Unvisited(|g.cells|, seen), 0
  {
    var i := Index(g, t);
    if IsCollision(g, i) && i !in seen {
      var v0 := Visit(seen + {i}, [t]);
      assert v0.seen - seen == {i};
      assert Index(g, v0.order[0]) == i;
      UnvisitedDrop(|g.cells|, seen, i, v0.seen);
      MovesExtends(g, seen, t, Directions, v0);
    }
  }

  lemma {:induction false} MovesExtends(g: Grid, seen: set<int>, t: Tile, ds: seq<Direction>, acc: Visit)
    requires Extends(g, seen, acc)
    ensures Extends(g, seen, Moves(g, t, ds, acc))
    decreases Unvisited(|g.cells|, acc.seen), 2, |ds|
  {
    if ds != [] {
      var next := Step(g, Guard(g, t, ds[0]), Neighbour(t, ds[0]), acc);
      StepExtends(g, seen, Guard(g, t, ds[0]), Neighbour(t, ds[0]), acc);
      UnvisitedMonotone(|g.cells|, acc.seen, next.seen);
      MovesExtends(g, seen, t, ds[1..], next);
    }
  }

  lemma {:induction false} StepExtends(g: Grid, seen: set<int>, guard: bool, n: Tile, acc: Visit)
    requires Extends(g, seen, acc)
    ensures Extends(g, seen, Step(g, guard, n, acc))
    decreases Unvisited(|g.cells|, acc.seen), 1
  {
    if guard {
      FloodExtends(g, n, acc.seen);
      JoinExtends(g, seen, acc, Flood(g, n, acc.seen));
    }
  }

  /** A traversal from a collision tile leaves that tile's index visited. */
  lemma FloodCovers(g: Grid, t: Tile, seen: set<int>)
    requires IsCollision(g, Index(g, t))
    ensures Index(g, t) in Flood(g, t, seen).seen
  {
  }

  /**
   * Edge case: a seed that is not a collision tile, or whose index is already
   * visited, contributes nothing and leaves the visited set as it was.
   */
  lemma FloodStops(g: Grid, t: Tile, seen: set<int>)
    requires !IsCollision(g, Index(g, t)) || Index(g, t) in seen
    ensures Flood(g, t, seen) == Visit(seen, [])
  {
  }

  /** The count of one traversal never exceeds the length of the collision array. */
  lemma FloodBound(g: Grid, t: Tile, seen: set<int>)
    ensures |Flood(g, t, seen).order| <= |g.cells|
    ensures |g.cells| == g.width * g.height ==> |Flood(g, t, seen).order| <= g.width * g.height
  {
    var r := Flood(g, t, seen);
    FloodExtends(g, t, seen);
    CardMonotone(r.seen - seen, CellIndices(g));
  }

  // ---------------------------------------------------------------------
  // What a traversal from an on-map seed reaches

  /**
   * Every tile `v` entered lies on the map and is reachable from `t`; and
   * every on-map collision neighbour of an entered tile (from position
   * `from` on) has its index visited.
   */
  ghost predicate Settled(g: Grid, t: Tile, v: Visit, from: nat)
  {
    && (forall k :: 0 <= k < |v.order| ==> InGrid(g, v.order[k]) && Reachable(g, t, v.order[k]))
    && (forall k, w :: from <= k < |v.order| && InGrid(g, w) && Adjacent(v.order[k], w) && Marked(g, w) ==>
          Index(g, w) in v.seen)
  }

  lemma JoinSettled(g: Grid, t: Tile, a: Visit, n: Tile, b: Visit)
    requires InGrid(g, t) && Marked(g, t) && Adjacent(t, n)
    requires Settled(g, t, a, 1) && Settled(g, n, b, 0) && a.seen <= b.seen
    ensures Settled(g, t, Join(a, b), 1)
  {
    var j := Join(a, b);
    forall k | 0 <= k < |j.order| ensures InGrid(g, j.order[k]) && Reachable(g, t, j.order[k]) {
      if k >= |a.order| {
        assert j.order[k] == b.order[k - |a.order|];
        ReachablePrepend(g, t, n, j.order[k]);
      }
    }
    forall k, w | 1 <= k < |j.order| && InGrid(g, w) && Adjacent(j.order[k], w) && Marked(g, w)
      ensures Index(g, w) in j.seen
    {
      if k >= |a.order| {
        assert j.order[k] == b.order[k - |a.order|];
      }
    }
  }

  /**
   * From an on-map seed the traversal enters only tiles of the seed's region,
   * and it visits every on-map collision neighbour of each tile it enters.
   */
  lemma {:induction false} FloodSettled(g: Grid, t: Tile, seen: set<int>)
    requires InGrid(g, t)
    ensures Settled(g, t, Flood(g, t, seen), 0)
    decreases Unvisited(|g.cells|, seen), 0
  {
    var i := Index(g, t);
    if IsCollision(g, i) && i !in seen {
      var v0 := Visit(seen + {i}, [t]);
      ReachableSelf(g, t);
      UnvisitedDrop(|g.cells|, seen, i, v0.seen);
      MovesSettled(g, t, Directions, v0);
      var r := Flood(g, t, seen);
      forall w | InGrid(g, w) && Adjacent(t, w) && Marked(g, w) ensures Index(g, w) in r.seen {
        var d := GuardedMove(g, t, w);
      }
    }
  }

  /** Every on-map neighbour of an on-map tile is the target of one of the guarded moves. */
  lemma GuardedMove(g: Grid, t: Tile, w: Tile) returns (d: Direction)
    requires InGrid(g, t) && InGrid(g, w) && Adjacent(t, w)
    ensures d in Directions && Guard(g, t, d) && Neighbour(t, d) == w
  {
    GridNeighbour(g, t, w);
    d := if w == Tile(t.x - 1, t.y) then Left
         else if w == Tile(t.x + 1, t.y) then Right
         else if w == Tile(t.x, t.y - 1) then Up
         else Down;
  }

  lemma {:induction false} MovesSettled(g: Grid, t: Tile, ds: seq<Direction>, acc: Visit)
    requires InGrid(g, t) && Marked(g, t) && Settled(g, t, acc, 1)
    requires |acc.order| > 0 && acc.order[0] == t
    ensures Settled(g, t, Moves(g, t, ds, acc), 1)
    ensures |Moves(g, t, ds, acc).order| > 0 && Moves(g, t, ds, acc).order[0] == t
    ensures forall d :: d in ds && Guard(g, t, d) && Marked(g, Neighbour(t, d)) ==>
              Index(g, Neighbour(t, d)) in Moves(g, t, ds, acc).seen
    decreases Unvisited(|g.cells|, acc.seen), 2, |ds|
  {
    if ds != [] {
      var next := Step(g, Guard(g, t, ds[0]), Neighbour(t, ds[0]), acc);
      StepSettled(g, t, Guard(g, t, ds[0]), Neighbour(t, ds[0]), acc);
      if Guard(g, t, ds[0]) && Marked(g, Neighbour(t, ds[0])) {
        FloodCovers(g, Neighbour(t, ds[0]), acc.seen);
      }
      UnvisitedMonotone(|g.cells|, acc.seen, next.seen);
      MovesSettled(g, t, ds[1..], next);
      forall d | d in ds && Guard(g, t, d) && Marked(g, Neighbour(t, d))
        ensures Index(g, Neighbour(t, d)) in Moves(g, t, ds, acc).seen
      {
        if d != ds[0] {
          assert d in ds[1..];
        }
      }
    }
  }

  lemma {:induction false} StepSettled(g: Grid, t: Tile, guard: bool, n: Tile, acc: Visit)
    requires InGrid(g, t) && Marked(g, t) && Settled(g, t, acc, 1)
    requires guard ==> InGrid(g, n) && Adjacent(t, n)
    requires |acc.order| > 0 && acc.order[0] == t
    ensures Settled(g, t, Step(g, guard, n, acc), 1)
    ensures |Step(g, guard, n, acc).order| > 0 && Step(g, guard, n, acc).order[0] == t
    decreases Unvisited(|g.cells|, acc.seen), 1
  {
    if guard {
      FloodSettled(g, n, acc.seen);
      JoinSettled(g, t, acc, n, Flood(g, n, acc.seen));
    }
  }

  /**
   * Main theorem: with nothing visited yet, a traversal from an on-map seed
   * enters exactly the tiles of the seed's 4-connected collision region, each
   * once, so its count is the size of that region.
   */
  lemma FloodFindsComponent(g: Grid, t: Tile)
    requires InGrid(g, t)
    ensures (set u | u in Flood(g, t, {}).order) == Component(g, t)
    ensures |Flood(g, t, {}).order| == |Component(g, t)|
  {
    EnteredInComponent(g, t);
    ComponentEntered(g, t);
    EnteredDistinct(g, t);
  }

  /** A fresh traversal from any on-map tile of a seed's region enters the same tiles, as many of them, as one from the seed. */
  lemma FloodSameRegion(g: Grid, s: Tile, u: Tile)
    requires InGrid(g, s) && u in Component(g, s)
    ensures (set w | w in Flood(g, u, {}).order) == (set w | w in Flood(g, s, {}).order)
    ensures |Flood(g, u, {}).order| == |Flood(g, s, {}).order|
  {
    ComponentMembers(g, s, u);
    ComponentReseed(g, s, u);
    FloodFindsComponent(g, s);
    FloodFindsComponent(g, u);
  }

  lemma EnteredInComponent(g: Grid, t: Tile)
    requires InGrid(g, t)
    ensures (set u | u in Flood(g, t, {}).order) <= Component(g, t)
  {
    var r := Flood(g, t, {});
    FloodSettled(g, t, {});
    forall u | u in r.order ensures u in Component(g, t) {
      ComponentMembers(g, t, u);
    }
  }

  /** Every tile of the region is entered: walks from the seed only step onto entered tiles. */
  lemma ComponentEntered(g: Grid, t: Tile)
    requires InGrid(g, t)
    ensures Component(g, t) <= (set u | u in Flood(g, t, {}).order)
  {
    var r := Flood(g, t, {});
    FloodCoversNew(g, t, {});
    FloodOnMap(g, t, {});
    FloodClosed(g, t, {});
    var S := set u | u in r.order;
    forall a, w | a in S && InGrid(g, w) && Adjacent(a, w) && Marked(g, w) ensures w in S {
      var k :| 0 <= k < |r.order| && r.order[k] == a;
      EnteredTile(g, r, w);
    }
    forall u | u in Component(g, t) ensures u in S {
      ComponentMembers(g, t, u);
      var p :| IsPath(g, p) && p[0] == t && p[|p| - 1] == u;
      FloodCovers(g, t, {});
      EnteredTile(g, r, t);
      PathStaysIn(g, p, S);
    }
  }

  lemma EnteredDistinct(g: Grid, t: Tile)
    requires InGrid(g, t)
    ensures |set u | u in Flood(g, t, {}).order| == |Flood(g, t, {}).order|
  {
    var r := Flood(g, t, {});
    FloodOnMap(g, t, {});
    FloodDistinct(g, t, {});
    DistinctCard(r.order);
  }

  // Single facts about one traversal, each taken from `Extends` or `Settled`.

  lemma FloodCoversNew(g: Grid, t: Tile, seen: set<int>)
    ensures forall i :: i in Flood(g, t, seen).seen && i !in seen ==>
              exists k :: 0 <= k < |Flood(g, t, seen).order| && Index(g, Flood(g, t, seen).order[k]) == i
  {
    FloodExtends(g, t, seen);
  }

  /** Every tile a traversal enters holds the collision code and was not visited before. */
  lemma FloodEnteredMarked(g: Grid, t: Tile, seen: set<int>)
    ensures forall k :: 0 <= k < |Flood(g, t, seen).order| ==>
              Marked(g, Flood(g, t, seen).order[k]) && Index(g, Flood(g, t, seen).order[k]) !in seen
  {
    FloodExtends(g, t, seen);
  }

  lemma FloodDistinct(g: Grid, t: Tile, seen: set<int>)
    ensures forall j, k :: 0 <= j < k < |Flood(g, t, seen).order| ==>
              Flood(g, t, seen).order[j] != Flood(g, t, seen).order[k]
  {
    FloodExtends(g, t, seen);
  }

  lemma FloodOnMap(g: Grid, t: Tile, seen: set<int>)
    requires InGrid(g, t)
    ensures forall k :: 0 <= k < |Flood(g, t, seen).order| ==> InGrid(g, Flood(g, t, seen).order[k])
  {
    FloodSettled(g, t, seen);
  }

  lemma FloodClosed(g: Grid, t: Tile, seen: set<int>)
    requires InGrid(g, t)
    ensures forall k, w ::
              (0 <= k < |Flood(g, t, seen).order| && InGrid(g, w) &&
               Adjacent(Flood(g, t, seen).order[k], w) && Marked(g, w)) ==>
                Index(g, w) in Flood(g, t, seen).seen
  {
    FloodSettled(g, t, seen);
  }

  /** With nothing visited before, an on-map tile whose index was visited is one of the entered tiles. */
  lemma EnteredTile(g: Grid, r: Visit, w: Tile)
    requires forall i :: i in r.seen ==> exists k :: 0 <= k < |r.order| && Index(g, r.order[k]) == i
    requires forall k :: 0 <= k < |r.order| ==> InGrid(g, r.order[k])
    requires InGrid(g, w) && Index(g, w) in r.seen
    ensures w in r.order
  {
    var k :| 0 <= k < |r.order| && Index(g, r.order[k]) == Index(g, w);
    IndexInjective(g, r.order[k], w);
  }

  /**
   * The count of a traversal is the number of indices it newly visits, all of
   * which hold the collision code.
   */
  lemma FloodCountsNew(g: Grid, t: Tile, seen: set<int>)
    ensures |Flood(g, t, seen).order| == |Flood(g, t, seen).seen - seen|
    ensures forall i :: i in Flood(g, t, seen).seen - seen ==> IsCollision(g, i)
  {
    FloodExtends(g, t, seen);
  }

  // ---------------------------------------------------------------------
  // The imperative traversal

  /** The `visited` dictionary shared by all calls of one search (its keys; values are always true). */
  class VisitedSet {
    var seen: set<int>

    constructor ()
      ensures seen == {}
    {
      seen := {};
    }
  }

  /**
   * What one guarded recursive call leaves behind: the visited set `after` and
   * the count `c` it returned (nothing when the guard is false).
   */
  ghost predicate StepOutcome(g: Grid, guard: bool, n: Tile, before: set<int>, after: set<int>, c: nat)
  {
    if guard then after == Flood(g, n, before).seen && c == |Flood(g, n, before).order|
    else after == before && c == 0
  }

  /** A guarded call never un-visits an index, so the unvisited part of the array does not grow. */
  lemma OutcomeShrinks(g: Grid, guard: bool, n: Tile, before: set<int>, after: set<int>, c: nat)
    requires StepOutcome(g, guard, n, before, after, c)
    ensures Unvisited(|g.cells|, after) <= Unvisited(|g.cells|, before)
  {
    UnvisitedMonotone(|g.cells|, before, after);
  }

  lemma StepResult(g: Grid, guard: bool, n: Tile, acc: Visit, after: set<int>, c: nat)
    requires StepOutcome(g, guard, n, acc.seen, after, c)
    ensures after == Step(g, guard, n, acc).seen
    ensures |acc.order| + c == |Step(g, guard, n, acc).order|
  {
  }

  /** The four guarded calls made from a newly visited tile compose to one `Flood`. */
  lemma FloodCompose(g: Grid, x: int, y: int, seen: set<int>, s0: set<int>,
                     s1: set<int>, c1: nat, s2: set<int>, c2: nat,
                     s3: set<int>, c3: nat, s4: set<int>, c4: nat)
    requires IsCollision(g, Index(g, Tile(x, y))) && Index(g, Tile(x, y)) !in seen
    requires s0 == seen + {Index(g, Tile(x, y))}
    requires StepOutcome(g, x > 0, Tile(x - 1, y), s0, s1, c1)
    requires StepOutcome(g, x < g.width - 1, Tile(x + 1, y), s1, s2, c2)
    requires StepOutcome(g, y > 0, Tile(x, y - 1), s2, s3, c3)
    requires StepOutcome(g, y < g.height - 1, Tile(x, y + 1), s3, s4, c4)
    ensures Flood(g, Tile(x, y), seen).seen == s4
    ensures |Flood(g, Tile(x, y), seen).order| == 1 + c1 + c2 + c3 + c4
  {
    var t := Tile(x, y);
    FloodUnroll(g, t, seen);
    var v0 := Visit(s0, [t]);
    StepResult(g, x > 0, Tile(x - 1, y), v0, s1, c1);
    var v1 := Step(g, x > 0, Tile(x - 1, y), v0);
    StepResult(g, x < g.width - 1, Tile(x + 1, y), v1, s2, c2);
    var v2 := Step(g, x < g.width - 1, Tile(x + 1, y), v1);
    StepResult(g, y > 0, Tile(x, y - 1), v2, s3, c3);
    var v3 := Step(g, y > 0, Tile(x, y - 1), v2);
    StepResult(g, y < g.height - 1, Tile(x, y + 1), v3, s4, c4);
  }

  /**
   * The same for a call that appends the tiles it enters to a list: the
   * visited set goes from `before` to `after` and the list from `hBefore` to
   * `hAfter`.
   */
  ghost predicate StepTrace(g: Grid, guard: bool, n: Tile, before: set<int>, after: set<int>,
                            hBefore: seq<Tile>, hAfter: seq<Tile>)
  {
    if guard then after == Flood(g, n, before).seen && hAfter == hBefore + Flood(g, n, before).order
    else after == before && hAfter == hBefore
  }

  lemma TraceShrinks(g: Grid, guard: bool, n: Tile, before: set<int>, after: set<int>,
                     hBefore: seq<Tile>, hAfter: seq<Tile>)
    requires StepTrace(g, guard, n, before, after, hBefore, hAfter)
    ensures Unvisited(|g.cells|, after) <= Unvisited(|g.cells|, before)
  {
    UnvisitedMonotone(|g.cells|, before, after);
  }

  lemma TraceResult(g: Grid, guard: bool, n: Tile, acc: Visit, after: set<int>,
                    h: seq<Tile>, hBefore: seq<Tile>, hAfter: seq<Tile>)
    requires StepTrace(g, guard, n, acc.seen, after, hBefore, hAfter)
    requires hBefore == h + acc.order
    ensures after == Step(g, guard, n, acc).seen
    ensures hAfter == h + Step(g, guard, n, acc).order
  {
    if guard {
      var f := Flood(g, n, acc.seen);
      assert h + acc.order + f.order == h + (acc.order + f.order);
    }
  }

  /** The four guarded appending calls made from a newly entered tile compose to one `Flood`. */
  lemma FloodComposeTrace(g: Grid, x: int, y: int, seen: set<int>, s0: set<int>, h: seq<Tile>,
                          s1: set<int>, h1: seq<Tile>, s2: set<int>, h2: seq<Tile>,
                          s3: set<int>, h3: seq<Tile>, s4: set<int>, h4: seq<Tile>)
    requires IsCollision(g, Index(g, Tile(x, y))) && Index(g, Tile(x, y)) !in seen
    requires s0 == seen + {Index(g, Tile(x, y))}
    requires StepTrace(g, x > 0, Tile(x - 1, y), s0, s1, h + [Tile(x, y)], h1)
    requires StepTrace(g, x < g.width - 1, Tile(x + 1, y), s1, s2, h1, h2)
    requires StepTrace(g, y > 0, Tile(x, y - 1), s2, s3, h2, h3)
    requires StepTrace(g, y < g.height - 1, Tile(x, y + 1), s3, s4, h3, h4)
    ensures Flood(g, Tile(x, y), seen).seen == s4
    ensures h4 == h + Flood(g, Tile(x, y), seen).order
  {
    var t := Tile(x, y);
    FloodUnroll(g, t, seen);
    var v0 := Visit(s0, [t]);
    TraceResult(g, x > 0, Tile(x - 1, y), v0, s1, h, h + [t], h1);
    var v1 := Step(g, x > 0, Tile(x - 1, y), v0);
    TraceResult(g, x < g.width - 1, Tile(x + 1, y), v1, s2, h, h1, h2);
    var v2 := Step(g, x < g.width - 1, Tile(x + 1, y), v1);
    TraceResult(g, y > 0, Tile(x, y - 1), v2, s3, h, h2, h3);
    var v3 := Step(g, y > 0, Tile(x, y - 1), v2);
    TraceResult(g, y < g.height - 1, Tile(x, y + 1), v3, s4, h, h3, h4);
  }

  /**
   * checkConnectedBlocks(tileX, tileY, visited): counts the tiles it newly
   * visits, marking them in the shared `visited` object.
   */
  method CheckConnectedBlocks(g: Grid, tileX: int, tileY: int, visited: VisitedSet) returns (count: nat)
    modifies visited
    decreases Unvisited(|g.cells|, visited.seen)
    ensures visited.seen == Flood(g, Tile(tileX, tileY), old(visited.seen)).seen
    ensures count == |Flood(g, Tile(tileX, tileY), old(visited.seen)).order|
    ensures !IsCollision(g, Index(g, Tile(tileX, tileY))) || Index(g, Tile(tileX, tileY)) in old(visited.seen) ==>
              count == 0 && visited.seen == old(visited.seen)
  {
    ghost var t, seen := Tile(tileX, tileY), visited.seen;
    var index := tileY * g.width + tileX;
    if !IsCollision(g, index) || index in visited.seen {
      return 0;
    }
    visited.seen := visited.seen + {index};
    count := 1;
    ghost var s0 := visited.seen;
    assert IsCollision(g, Index(g, t)) && Index(g, t) !in seen && s0 == seen + {Index(g, t)};
    UnvisitedDrop(|g.cells|, seen, index, s0);
    var c1 := 0;
    if tileX > 0 {
      c1 := CheckConnectedBlocks(g, tileX - 1, tileY, visited);
    }
    assert StepOutcome(g, tileX > 0, Tile(tileX - 1, tileY), s0, visited.seen, c1);
    OutcomeShrinks(g, tileX > 0, Tile(tileX - 1, tileY), s0, visited.seen, c1);
    count := count + c1;
    ghost var s1 := visited.seen;
    var c2 := 0;
    if tileX < g.width - 1 {
      c2 := CheckConnectedBlocks(g, tileX + 1, tileY, visited);
    }
    assert StepOutcome(g, tileX < g.width - 1, Tile(tileX + 1, tileY), s1, visited.seen, c2);
    OutcomeShrinks(g, tileX < g.width - 1, Tile(tileX + 1, tileY), s1, visited.seen, c2);
    count := count + c2;
    ghost var s2 := visited.seen;
    var c3 := 0;
    if tileY > 0 {
      c3 := CheckConnectedBlocks(g, tileX, tileY - 1, visited);
    }
    assert StepOutcome(g, tileY > 0, Tile(tileX, tileY - 1), s2, visited.seen, c3);
    OutcomeShrinks(g, tileY > 0, Tile(tileX, tileY - 1), s2, visited.seen, c3);
    count := count + c3;
    ghost var s3 := visited.seen;
    var c4 := 0;
    if tileY < g.height - 1 {
      c4 := CheckConnectedBlocks(g, tileX, tileY + 1, visited);
    }
    assert StepOutcome(g, tileY < g.height - 1, Tile(tileX, tileY + 1), s3, visited.seen, c4);
    count := count + c4;
    FloodCompose(g, tileX, tileY, seen, s0, s1, c1, s2, c2, s3, c3, visited.seen, c4);
  }

  /** The least connected count for which a click or hover reveals the region. */
  const RevealThreshold := 4

  /** The count a handler gets from checkConnectedBlocks(tileX, tileY) with its default, empty `visited`. */
  method ConnectedCount(g: Grid, tileX: int, tileY: int) returns (count: nat)
    ensures count == |Flood(g, Tile(tileX, tileY), {}).order|
    ensures !IsCollision(g, Index(g, Tile(tileX, tileY))) ==> count == 0
    ensures count <= |g.cells|
    ensures InGrid(g, Tile(tileX, tileY)) ==> count == |Component(g, Tile(tileX, tileY))|
  {
    var visited := new VisitedSet();
    count := CheckConnectedBlocks(g, tileX, tileY, visited);
    FloodBound(g, Tile(tileX, tileY), {});
    if InGrid(g, Tile(tileX, tileY)) {
      FloodFindsComponent(g, Tile(tileX, tileY));
    }
  }
}
