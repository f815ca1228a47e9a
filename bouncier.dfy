/** The `bouncierApp` of bouncierApp.cpp: a fixed array of circle bodies, the
    uniform grid that files each body under the cell of its centre, `setup`
    and the per-frame `update`. */
module Bouncier {
  import opened Vectors
  import opened Bodies
  import opened Grid

  /** The bucket that grid `g` files each body under: the cell of its centre. */
  ghost function Homes(g: UniformGrid, cs: seq<Circle>): seq<nat>
    requires g.Valid()
  {
    seq(|cs|, k requires 0 <= k < |cs| => g.CellIndexForPosition(cs[k].center.x, cs[k].center.y))
  }

  lemma HomesUpdate(g: UniformGrid, cs: seq<Circle>, k: nat, c: Circle)
    requires g.Valid() && k < |cs|
    ensures Homes(g, cs[k := c]) == Homes(g, cs)[k := g.CellIndexForPosition(c.center.x, c.center.y)]
  {
  }

  /** The loop of `setup`: body `i`, for each `i` in order, is put into the
      empty grid `g`. Afterwards every body is filed exactly once,
      under the cell of its centre. */
  method PutAll(g: UniformGrid, bodies: seq<Circle>)
    requires g.Valid() && forall b :: 0 <= b < g.grid.Length ==> g.grid[b] == []
    modifies g.grid
    ensures Tracks(g.grid[..], |bodies|, Homes(g, bodies))
  {
    var n := |bodies|;
    ghost var none := seq(n, _ => g.grid.Length);
    ghost var homes := Homes(g, bodies);
    TracksEmpty(g.grid[..], n, none);
    assert homes[..0] + none[0..] == none;
    var i := 0;
    while i < n
      invariant 0 <= i <= n
      invariant Tracks(g.grid[..], n, homes[..i] + none[i..])
    {
      PutNext(g.grid[..], n, homes, none, i);
      g.Put(i, bodies[i].center);
      i := i + 1;
    }
    assert homes[..n] + none[n..] == homes;
  }

  /** One step of `PutAll`: body `i`, in no bucket so far, is appended to its
      home bucket. */
  lemma PutNext(g: seq<Bucket>, n: nat, homes: seq<nat>, none: seq<nat>, i: nat)
    requires |homes| == n && |none| == n && i < n
    requires homes[i] < |g| && none[i] >= |g|
    requires Tracks(g, n, homes[..i] + none[i..])
    ensures Tracks(g[homes[i] := g[homes[i]] + [i]], n, homes[..i + 1] + none[i + 1..])
  {
    var before := homes[..i] + none[i..];
    PutKeeps(g, n, before, i, homes[i]);
    assert before[i := homes[i]] == homes[..i + 1] + none[i + 1..];
  }

  /** The bodies after body `i` has met each of `candidates` but itself, in
      order, by `Contact`: what the candidate loop of `update` does to them. */
  function CollideSeq(cs: seq<Circle>, i: nat, candidates: seq<nat>, sqrt: real -> real): (r: seq<Circle>)
    requires i < |cs| && forall e :: e in candidates ==> e < |cs|
    ensures |r| == |cs|
    ensures forall k :: 0 <= k < |cs| ==> r[k].radius == cs[k].radius
    // Only body `i` and the candidates can change.
    ensures forall k :: 0 <= k < |cs| && k != i && k !in candidates ==> r[k] == cs[k]
    decreases |candidates|
  {
    if candidates == [] then cs
    else
      var n := |candidates| - 1;
      PrefixMembers(candidates, n);
      var prev := CollideSeq(cs, i, candidates[..n], sqrt);
      var o := candidates[n];
      assert o in candidates;
      if o == i then prev
      else
        var (c2, o2) := Contact(prev[i], prev[o], sqrt);
        prev[o := o2][i := c2]
  }

  lemma PrefixMembers(s: seq<nat>, n: nat)
    requires n <= |s|
    ensures forall e :: e in s[..n] ==> e in s
  {
  }

  function Momentum(c: Circle): Vector2 { Scale(Mass(c.radius), c.vel) }

  /** The total momentum of a sequence of bodies. */
  function TotalMomentum(cs: seq<Circle>): Vector2
  {
    if cs == [] then Vector2(0.0, 0.0)
    else Add(TotalMomentum(cs[..|cs| - 1]), Momentum(cs[|cs| - 1]))
  }

  /** Replacing body `k` changes the total momentum by the change of its own. */
  lemma {:induction false} TotalMomentumUpdate(cs: seq<Circle>, k: nat, x: Circle)
    requires k < |cs|
    ensures TotalMomentum(cs[k := x]) == Add(Sub(TotalMomentum(cs), Momentum(cs[k])), Momentum(x))
  {
    var n := |cs| - 1;
    if k == n {
      assert cs[k := x][..n] == cs[..n];
    } else {
      assert cs[k := x][..n] == cs[..n][k := x];
      TotalMomentumUpdate(cs[..n], k, x);
    }
  }

  /** With a true square root, one contact conserves the total momentum of
      all the bodies. */
  lemma {:induction false} ContactKeepsTotalMomentum(cs: seq<Circle>, i: nat, o: nat, sqrt: real -> real)
    requires IsSqrt(sqrt) && i < |cs| && o < |cs| && i != o
    ensures var (c2, o2) := Contact(cs[i], cs[o], sqrt);
      TotalMomentum(cs[o := o2][i := c2]) == TotalMomentum(cs)
  {
    var c, x := cs[i], cs[o];
    var (c2, o2) := Contact(c, x, sqrt);
    if Overlapping(c, x) {
      ContactOverlapping(c, x, sqrt);
      TotalMomentumUpdate(cs, o, o2);
      assert cs[o := o2][i] == c;
      TotalMomentumUpdate(cs[o := o2], i, c2);
    } else {
      assert cs[o := o2][i := c2] == cs;
    }
  }

  /** With a true square root, the candidate loop of `update` conserves the
      total momentum of all the bodies. */
  lemma {:induction false} CollideSeqKeepsTotalMomentum(cs: seq<Circle>, i: nat, candidates: seq<nat>, sqrt: real -> real)
    requires IsSqrt(sqrt)
    requires i < |cs| && forall e :: e in candidates ==> e < |cs|
    ensures TotalMomentum(CollideSeq(cs, i, candidates, sqrt)) == TotalMomentum(cs)
    decreases |candidates|
  {
    if candidates != [] {
      var n := |candidates| - 1;
      PrefixMembers(candidates, n);
      CollideSeqKeepsTotalMomentum(cs, i, candidates[..n], sqrt);
      var prev := CollideSeq(cs, i, candidates[..n], sqrt);
      assert candidates[n] in candidates;
      if candidates[n] != i {
        ContactKeepsTotalMomentum(prev, i, candidates[n], sqrt);
      }
    }
  }

  class BouncierApp {
    const circles: array<Circle>
    const ug: UniformGrid

    /** Every body is filed exactly once, under the cell of its centre, and
        the grid holds nothing else. */
    ghost predicate Valid()
      reads circles, ug.grid
    {
      ug.Valid() && Tracks(ug.grid[..], circles.Length, Homes(ug, circles[..]))
    }

    /** `setup`: a `cols` x `rows` grid over the window, then every body, in
        order, is put into it. The bodies `setup` draws at random are the
        parameter `bodies`. */
    constructor Setup(bodies: seq<Circle>, screenWidth: real, screenHeight: real, cols: nat, rows: nat)
      requires screenWidth > 0.0 && screenHeight > 0.0 && cols > 0 && rows > 0
      ensures Valid()
      ensures circles[..] == bodies
      ensures ug.worldWidth == screenWidth && ug.worldHeight == screenHeight
      ensures ug.cols == cols && ug.rows == rows
      ensures fresh(circles) && fresh(ug) && fresh(ug.grid)
    {
      var g := new UniformGrid(screenWidth, screenHeight, cols, rows);
      var cs := new Circle[|bodies|](k requires 0 <= k < |bodies| => bodies[k]);
      assert cs[..] == bodies;
      PutAll(g, bodies);
      assert cs[..] == bodies;
      circles := cs;
      ug := g;
    }

    /** The erase-`find`-`put` passage of `update`, run for a candidate that
        was pushed and for the moving body at the end of its step: body `id`
        leaves the bucket of `prev`, where it must be, since erasing the end
        iterator is undefined, and is put under the cell of its current
        centre. */
    method Rebin(id: nat, prev: Vector2)
      requires ug.Valid() && id < circles.Length
      requires id in ug.grid[ug.CellIndexForPosition(prev.x, prev.y)]
      modifies ug.grid
      ensures var from := ug.CellIndexForPosition(prev.x, prev.y);
        Find(old(ug.grid[from]), id) < |old(ug.grid[from])|
      ensures var from := ug.CellIndexForPosition(prev.x, prev.y);
        var to := ug.CellIndexForPosition(circles[id].center.x, circles[id].center.y);
        ug.grid[..] == Moved(old(ug.grid[..]), id, from, to)
    {
      var from := ug.CellIndexForPosition(prev.x, prev.y);
      FindFinds(ug.grid[from], id);
      var k := Find(ug.grid[from], id);
      ug.grid[from] := EraseAt(ug.grid[from], k);
      ug.Put(id, circles[id].center);
    }

    /** The candidate loop body of `update` for one candidate `o` of the
        moving body `i` (`o` is not `i`): the contact of the two, and, when they overlapped, `o` is moved
        to the bucket of its new centre. Body `i` is still filed under
        `prevCell`, the cell of its centre before this frame's move. */
    method Collide(i: nat, o: nat, ghost prevCell: nat, sqrt: real -> real)
      requires ug.Valid()
      requires i < circles.Length && o < circles.Length && i != o
      requires Tracks(ug.grid[..], circles.Length, Homes(ug, circles[..])[i := prevCell])
      modifies circles, ug.grid
      ensures var (c2, o2) := Contact(old(circles[i]), old(circles[o]), sqrt);
        circles[..] == old(circles[..])[o := o2][i := c2]
      ensures var x := old(circles[o]);
        var from := ug.CellIndexForPosition(x.center.x, x.center.y);
        Find(old(ug.grid[from]), o) < |old(ug.grid[from])|
      ensures var (c2, o2) := Contact(old(circles[i]), old(circles[o]), sqrt);
        var x := old(circles[o]);
        ug.grid[..] == if Overlapping(old(circles[i]), x)
          then Moved(old(ug.grid[..]), o, ug.CellIndexForPosition(x.center.x, x.center.y),
                     ug.CellIndexForPosition(o2.center.x, o2.center.y))
          else old(ug.grid[..])
      ensures Tracks(ug.grid[..], circles.Length, Homes(ug, circles[..])[i := prevCell])
      ensures forall k :: 0 <= k < circles.Length ==> circles[k].radius == old(circles[k].radius)
    {
      var c := circles[i];
      var x := circles[o];
      ghost var cs := circles[..];
      ghost var g := ug.grid[..];
      ghost var home := Homes(ug, cs)[i := prevCell];
      assert home[o] == ug.CellIndexForPosition(x.center.x, x.center.y);
      MovedKeeps(g, circles.Length, home, o, home[o]);
      if Overlapping(c, x) {
        var (newC, newO) := Contact(c, x, sqrt);
        circles[o] := newO;
        circles[i] := newC;
        ghost var from := ug.CellIndexForPosition(x.center.x, x.center.y);
        ghost var to := ug.CellIndexForPosition(newO.center.x, newO.center.y);
        assert home[o] == from;
        TrackedInHomeOnly(g, circles.Length, home, o);
        Rebin(o, x.center);
        MovedKeeps(g, circles.Length, home, o, to);
        HomesUpdate(ug, cs, o, newO);
        HomesUpdate(ug, cs[o := newO], i, newC);
        assert circles[..] == cs[o := newO][i := newC];
        assert Homes(ug, circles[..])[i := prevCell] == home[o := to];
      }
    }

    /** The start of `update`'s step for body `i`: it moves by its velocity and then
        bounces off the window's edges, the top and bottom first. */
    method Advance(i: nat, screenWidth: real, screenHeight: real)
      requires i < circles.Length
      modifies circles
      ensures var c := old(circles[i]);
        circles[..] == old(circles[..])[i := WallStep(c.(center := Add(c.center, c.vel)), screenWidth, screenHeight)]
    {
      var c := circles[i];
      c := c.(center := Add(c.center, c.vel));
      c := WallStep(c, screenWidth, screenHeight);
      circles[i] := c;
    }

    /** The candidate loop of `update`: body `i` meets every candidate but
        itself, in order, and the bodies become `CollideSeq` of them. Body `i`
        stays filed under `prevCell` throughout. */
    method CollideAll(i: nat, ghost prevCell: nat, candidates: seq<nat>, sqrt: real -> real)
      requires ug.Valid() && i < circles.Length
      requires forall e :: e in candidates ==> e < circles.Length
      requires Tracks(ug.grid[..], circles.Length, Homes(ug, circles[..])[i := prevCell])
      modifies circles, ug.grid
      ensures circles[..] == CollideSeq(old(circles[..]), i, candidates, sqrt)
      ensures Tracks(ug.grid[..], circles.Length, Homes(ug, circles[..])[i := prevCell])
    {
      var j := 0;
      PrefixMembers(candidates, 0);
      while j < |candidates|
        invariant 0 <= j <= |candidates|
        invariant forall e :: e in candidates[..j] ==> e < circles.Length
        invariant circles[..] == CollideSeq(old(circles[..]), i, candidates[..j], sqrt)
        invariant Tracks(ug.grid[..], circles.Length, Homes(ug, circles[..])[i := prevCell])
      {
        var o := candidates[j];
        assert o in candidates;
        assert candidates[..j + 1][..j] == candidates[..j];
        PrefixMembers(candidates, j + 1);
        if o != i {
          Collide(i, o, prevCell, sqrt);
        }
        j := j + 1;
      }
      assert candidates[..j] == candidates;
    }

    /** `update`: each body in turn moves by its velocity, bounces off the
        window's edges, collides with every other body filed within one cell
        width and height of its previous centre, and is then refiled under the
        cell of its new centre. Afterwards every body is again filed exactly
        once, under the cell of its centre; no body changes size. */
    method Update(screenWidth: real, screenHeight: real, sqrt: real -> real)
      requires Valid()
      modifies circles, ug.grid
      ensures Valid()
      ensures forall k :: 0 <= k < circles.Length ==> circles[k].radius == old(circles[k].radius)
    {
      var n := circles.Length;
      var i := 0;
      while i < n
        invariant 0 <= i <= n
        invariant Valid()
        invariant forall k :: 0 <= k < n ==> circles[k].radius == old(circles[k].radius)
      {
        var prevCenter := circles[i].center;
        ghost var prevCell := ug.CellIndexForPosition(prevCenter.x, prevCenter.y);
        ghost var cs := circles[..];
        Advance(i, screenWidth, screenHeight);
        HomesUpdate(ug, cs, i, circles[i]);
        assert Homes(ug, circles[..])[i := prevCell] == Homes(ug, cs);

        var candidates := ug.GetObjectsInRect(prevCenter.x, prevCenter.y,
                                              (ug.CellWidthSize() * 2) as real,
                                              (ug.CellHeightSize() * 2) as real);
        QueryYieldsBodies(ug, n, Homes(ug, cs), prevCenter, candidates);
        CollideAll(i, prevCell, candidates, sqrt);

        ghost var home := Homes(ug, circles[..])[i := prevCell];
        ghost var g := ug.grid[..];
        ghost var to := ug.CellIndexForPosition(circles[i].center.x, circles[i].center.y);
        TrackedInHomeOnly(g, n, home, i);
        Rebin(i, prevCenter);
        MovedKeeps(g, n, home, i, to);
        assert home[i := to] == Homes(ug, circles[..]);
        i := i + 1;
      }
    }
  }

  /** The query `update` makes around a body's previous centre, one cell
      width and height in every direction, returns only bodies. */
  lemma QueryYieldsBodies(g: UniformGrid, n: nat, home: seq<nat>, p: Vector2, candidates: seq<nat>)
    requires g.Valid() && Tracks(g.grid[..], n, home)
    requires
      var w, h := (g.CellWidthSize() * 2) as real, (g.CellHeightSize() * 2) as real;
      candidates == RectRun(g.grid[..], g.cols, g.rows,
                            g.Column(p.x - w * 0.5), g.Column(p.x + w * 0.5) + 1,
                            g.Row(p.y - h * 0.5), g.Row(p.y + h * 0.5) + 1)
    ensures forall e :: e in candidates ==> e < n
  {
    var w, h := (g.CellWidthSize() * 2) as real, (g.CellHeightSize() * 2) as real;
    RectRunBounded(g.grid[..], g.cols, g.rows,
                   g.Column(p.x - w * 0.5), g.Column(p.x + w * 0.5) + 1,
                   g.Row(p.y - h * 0.5), g.Row(p.y + h * 0.5) + 1, n);
  }
}
