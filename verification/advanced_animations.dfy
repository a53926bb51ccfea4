/** The logic inside `AdvancedAnimations`: the start-up gate, the
    pointer-attracted particles with trails, the matrix rain's drop
    counters and the neural network's node pairing. */

/** The controller's `init()`: nothing starts under reduced motion. */
module AdvancedAnimations {

  datatype Effect = NeuralNetwork | MatrixRain | FloatingGeometry | CyberHud | Tilt3D | AdvancedParticles | Glitch

  /** The effects `init()` starts, in order. */
  function InitPlan(reducedMotion: bool): (plan: seq<Effect>)
    ensures reducedMotion <==> plan == []
    ensures !reducedMotion ==> |plan| == 7 && forall e: Effect :: e in plan
  {
    if reducedMotion then []
    else
      var plan := [NeuralNetwork, MatrixRain, FloatingGeometry, CyberHud, Tilt3D, AdvancedParticles, Glitch];
      assert forall e: Effect :: e in plan by {
        forall e: Effect ensures e in plan {
          if e.NeuralNetwork? { assert plan[0] == e; }
          else if e.MatrixRain? { assert plan[1] == e; }
          else if e.FloatingGeometry? { assert plan[2] == e; }
          else if e.CyberHud? { assert plan[3] == e; }
          else if e.Tilt3D? { assert plan[4] == e; }
          else if e.AdvancedParticles? { assert plan[5] == e; }
          else { assert plan[6] == e; }
        }
      }
      plan
  }
}

/** `AdvancedParticle` and the frame loop of `initAdvancedParticles`. */
module AdvancedParticle {
  import opened Base
  import opened Field

  const Count: nat := 80
  const MaxTrail: nat := 10
  const AttractRadius: real := 150.0

  datatype Particle = Particle(pos: Point, vel: Point, size: real, hue: real, opacity: real,
                               trail: seq<Point>, life: real, maxLife: real)

  /** The draws of one `reset()`. */
  datatype ResetDraws = ResetDraws(x: Draw, y: Draw, vx: Draw, vy: Draw, size: Draw, hue: Draw, opacity: Draw)

  /** `reset()`: a fresh position, velocity and look and an empty trail;
      `life` and `maxLife` are left alone. */
  function Reset(p: Particle, w: nat, h: nat, d: ResetDraws): (r: Particle)
    ensures 0.0 <= r.pos.x <= w as real && 0.0 <= r.pos.y <= h as real
    ensures -1.0 <= r.vel.x < 1.0 && -1.0 <= r.vel.y < 1.0
    ensures 1.0 <= r.size < 4.0 && 180.0 <= r.hue < 240.0 && 0.5 <= r.opacity < 1.0
    ensures r.trail == [] && r.life == p.life && r.maxLife == p.maxLife
  {
    p.(pos := Point(Scale(d.x, w as real), Scale(d.y, h as real)),
       vel := Point((d.vx - 0.5) * 2.0, (d.vy - 0.5) * 2.0),
       size := d.size * 3.0 + 1.0, hue := d.hue * 60.0 + 180.0, opacity := d.opacity * 0.5 + 0.5,
       trail := [])
  }

  /** The constructor: `reset()`, then a life in [100, 200) that also
      becomes `maxLife`. */
  function Create(w: nat, h: nat, d: ResetDraws, lifeDraw: Draw): (p: Particle)
    ensures Valid(p) && p.life == p.maxLife && 100.0 <= p.maxLife < 200.0
  {
    var life := lifeDraw * 100.0 + 100.0;
    Reset(Particle(Point(0.0, 0.0), Point(0.0, 0.0), 0.0, 0.0, 0.0, [], life, life), w, h, d)
  }

  /** What every particle keeps between frames: a life in (0, maxLife]
      and a trail of at most ten points. */
  predicate Valid(p: Particle) {
    0.0 < p.life <= p.maxLife && |p.trail| <= MaxTrail
  }

  /** The size of the velocity nudge per unit of offset to the pointer. */
  function Pull(d: real): real
    requires d > 0.0
  {
    (AttractRadius - d) / AttractRadius * 0.01 / d
  }

  /** The mouse attraction of `update()`, `d` being the distance from the
      particle to the pointer. Within 150 pixels the velocity is nudged by
      a positive multiple of the offset to the pointer; farther away it is
      unchanged. */
  function Attract(vel: Point, pos: Point, mouse: Point, d: real): (v: Point)
    requires IsDistance(d, pos, mouse)
    ensures d >= AttractRadius || d == 0.0 ==> v == vel
    ensures 0.0 < d < AttractRadius ==>
      Pull(d) > 0.0 && v.x - vel.x == Pull(d) * (mouse.x - pos.x) && v.y - vel.y == Pull(d) * (mouse.y - pos.y)
  {
    if d < AttractRadius && d != 0.0 then
      var force := (AttractRadius - d) / AttractRadius;
      var dx, dy := mouse.x - pos.x, mouse.y - pos.y;
      PullFactors(dx, d, force);
      PullFactors(dy, d, force);
      Point(vel.x + (dx / d) * force * 0.01, vel.y + (dy / d) * force * 0.01)
    else vel
  }

  lemma PullFactors(delta: real, d: real, force: real)
    requires 0.0 < d < AttractRadius && force == (AttractRadius - d) / AttractRadius
    ensures (delta / d) * force * 0.01 == Pull(d) * delta
    ensures Pull(d) > 0.0
  {
    var c := force * 0.01;
    assert c > 0.0;
    assert Pull(d) == c / d;
    assert (delta / d) * force * 0.01 == (delta / d) * c;
  }

  /** The nudge is never longer than 0.01 pixels per frame: its squared
      length is `(force * 0.01)^2` with `force` in (0, 1). */
  lemma NudgeBounded(vel: Point, pos: Point, mouse: Point, d: real)
    requires IsDistance(d, pos, mouse)
    ensures var v := Attract(vel, pos, mouse, d);
      SqDist(v, vel) <= 0.0001
  {
    var v := Attract(vel, pos, mouse, d);
    if 0.0 < d < AttractRadius {
      var c := Pull(d);
      var dx, dy := mouse.x - pos.x, mouse.y - pos.y;
      var cd := c * d;
      assert cd == (AttractRadius - d) / AttractRadius * 0.01;
      assert 0.0 < cd < 0.01;
      var sq := dx * dx + dy * dy;
      assert sq == d * d;
      calc {
        SqDist(v, vel);
        (c * dx) * (c * dx) + (c * dy) * (c * dy);
        { ScaledSquares(c, dx, dy); }
        (c * c) * sq;
        (c * c) * (d * d);
        { SquareOfProduct(c, d); }
        cd * cd;
      }
      SquareStrict(cd, 0.01);
    }
  }

  lemma ScaledSquares(c: real, a: real, b: real)
    ensures (c * a) * (c * a) + (c * b) * (c * b) == (c * c) * (a * a + b * b)
  {
  }

  lemma SquareOfProduct(c: real, d: real)
    ensures (c * c) * (d * d) == (c * d) * (c * d)
  {
  }

  /** The trail after one move: the new point at the front, the oldest
      dropped once there are more than ten. */
  function PushTrail(trail: seq<Point>, p: Point): (r: seq<Point>)
    ensures |r| == if |trail| < MaxTrail then |trail| + 1 else |trail|
    ensures r[0] == p && r[1..] == trail[..|r| - 1]
  {
    var t := [p] + trail;
    if |t| > MaxTrail then t[..|t| - 1] else t
  }

  /** `update()`. `d` is the distance to the pointer at `mouse`; `draws`
      are the draws of the `reset()` that runs when the life is used up. */
  function Update(p: Particle, w: nat, h: nat, mouse: Point, d: real, draws: ResetDraws): (r: Particle)
    requires IsDistance(d, p.pos, mouse)
    ensures Valid(p) ==> Valid(r)
    ensures 0.0 <= r.pos.x <= w as real && 0.0 <= r.pos.y <= h as real
    ensures r.maxLife == p.maxLife
    ensures p.life - 1.0 > 0.0 ==>
      var v := Attract(p.vel, p.pos, mouse, d);
      var moved := Point(p.pos.x + v.x, p.pos.y + v.y);
      r == p.(pos := Point(Wrap(moved.x, w), Wrap(moved.y, h)), vel := v,
              trail := PushTrail(p.trail, moved), life := p.life - 1.0)
    ensures p.life - 1.0 <= 0.0 ==> r == Reset(p, w, h, draws).(life := p.maxLife)
  {
    var v := Attract(p.vel, p.pos, mouse, d);
    var moved := Point(p.pos.x + v.x, p.pos.y + v.y);
    var q := p.(pos := Point(Wrap(moved.x, w), Wrap(moved.y, h)), vel := v,
                trail := PushTrail(p.trail, moved), life := p.life - 1.0);
    if q.life <= 0.0 then Reset(q, w, h, draws).(life := p.maxLife) else q
  }

  /** The glow alpha `draw()` uses, at most the particle's opacity. */
  function Alpha(p: Particle): (a: real)
    requires p.maxLife != 0.0
    ensures Valid(p) && p.opacity >= 0.0 ==> 0.0 < a <= p.opacity || (a == 0.0 && p.opacity == 0.0)
  {
    var f := p.life / p.maxLife;
    var a := p.opacity * f;
    if Valid(p) && p.opacity >= 0.0 then
      assert 0.0 < f <= 1.0;
      assert a <= p.opacity * 1.0;
      a
    else a
  }

  /** `initAdvancedParticles` creates 80 particles. */
  function CreateAll(w: nat, h: nat, draws: seq<ResetDraws>, lifeDraws: seq<Draw>): (ps: seq<Particle>)
    requires |draws| == Count && |lifeDraws| == Count
    ensures |ps| == Count && forall i :: 0 <= i < Count ==> Valid(ps[i])
  {
    seq(Count, i requires 0 <= i < Count => Create(w, h, draws[i], lifeDraws[i]))
  }

  /** The inputs one particle's update needs in a frame. */
  predicate FrameInputs(ps: seq<Particle>, mouse: Point, ds: seq<real>, draws: seq<ResetDraws>) {
    |ds| == |ps| && |draws| == |ps|
    && forall i :: 0 <= i < |ps| ==> Valid(ps[i]) && IsDistance(ds[i], ps[i].pos, mouse)
  }

  /** One `animate()` frame: every particle is updated exactly once, in
      index order; none is added or removed. */
  method Frame(ps: seq<Particle>, w: nat, h: nat, mouse: Point, ds: seq<real>, draws: seq<ResetDraws>)
    returns (r: seq<Particle>)
    requires FrameInputs(ps, mouse, ds, draws)
    ensures |r| == |ps|
    ensures forall i :: 0 <= i < |ps| ==> r[i] == Update(ps[i], w, h, mouse, ds[i], draws[i]) && Valid(r[i])
  {
    r := [];
    var i := 0;
    while i < |ps|
      invariant 0 <= i <= |ps| && |r| == i
      invariant forall k :: 0 <= k < i ==> r[k] == Update(ps[k], w, h, mouse, ds[k], draws[k])
    {
      r := r + [Update(ps[i], w, h, mouse, ds[i], draws[i])];
      i := i + 1;
    }
  }

  /** The connection pass after the updates: threshold 120, strongest
      opacity 0.3. */
  function Links(d: seq<seq<real>>, n: nat): seq<Link>
    requires IsTable(d, n)
  {
    Connections(d, n, 120.0, 0.3)
  }

  lemma LinksCorrect(d: seq<seq<real>>, ps: seq<Particle>)
    requires IsTableOf(d, Positions(ps, (p: Particle) => p.pos))
    ensures var r := Links(d, |ps|);
      Ordered(r)
      && (forall i: nat, j: nat :: Drawn(r, i, j) <==> i < j < |ps| && d[i][j] < 120.0)
      && (forall m :: 0 <= m < |r| ==> 0.0 < r[m].alpha <= 0.3)
  {
    ConnectionsCorrect(d, |ps|, 120.0, 0.3);
  }
}

/** The matrix rain: one drop counter per 10-pixel column. */
module MatrixRain {
  import opened Base

  const FontSize: nat := 10

  /** The number of columns the `x < canvas.width / fontSize` loop fills:
      the width divided by 10, rounded up. */
  function Columns(width: nat): (c: nat)
    ensures forall x: nat :: x < c <==> x * FontSize < width
  {
    (width + FontSize - 1) / FontSize
  }

  function InitDrops(width: nat): (drops: seq<int>)
    ensures |drops| == Columns(width) && forall i :: 0 <= i < |drops| ==> drops[i] == 1
  {
    seq(Columns(width), _ => 1)
  }

  /** One `drawMatrix()` tick on a canvas `height` pixels high: a drop below
      the bottom edge restarts when its draw exceeds 0.975, and every drop
      then moves down one row. */
  function DrawMatrix(drops: seq<int>, height: nat, coins: seq<Draw>): (r: seq<int>)
    requires |coins| == |drops|
    ensures |r| == |drops|
    ensures forall i :: 0 <= i < |drops| ==> r[i] == 1 || r[i] == drops[i] + 1
    ensures forall i :: 0 <= i < |drops| ==> (r[i] == 1 && drops[i] != 0 <==> drops[i] * FontSize > height && coins[i] > 0.975)
  {
    seq(|drops|, i requires 0 <= i < |drops| =>
      (if drops[i] * FontSize > height && coins[i] > 0.975 then 0 else drops[i]) + 1)
  }

  predicate AllPositive(drops: seq<int>) {
    forall i :: 0 <= i < |drops| ==> drops[i] >= 1
  }

  function Rain(drops: seq<int>, heights: seq<nat>, coins: seq<seq<Draw>>): (r: seq<int>)
    requires |heights| == |coins|
    requires forall k :: 0 <= k < |coins| ==> |coins[k]| == |drops|
    ensures |r| == |drops|
    decreases |coins|
  {
    if coins == [] then drops
    else
      var next := DrawMatrix(drops, heights[0], coins[0]);
      Rain(next, heights[1..], coins[1..])
  }

  /** Whatever the canvas height does between ticks, the number of drops
      never changes and every drop stays at row 1 or below. */
  lemma {:induction false} DropsStayPositive(width: nat, drops: seq<int>, heights: seq<nat>, coins: seq<seq<Draw>>)
    requires drops == InitDrops(width) || AllPositive(drops)
    requires |heights| == |coins|
    requires forall k :: 0 <= k < |coins| ==> |coins[k]| == |drops|
    ensures AllPositive(Rain(drops, heights, coins))
    decreases |coins|
  {
    if coins != [] {
      var next := DrawMatrix(drops, heights[0], coins[0]);
      assert AllPositive(next);
      var rest := coins[1..];
      assert forall k :: 0 <= k < |rest| ==> |rest[k]| == |next| by {
        forall k | 0 <= k < |rest|
          ensures |rest[k]| == |next|
        {
          assert rest[k] == coins[k + 1];
        }
      }
      DropsStayPositive(width, next, heights[1..], rest);
    }
  }
}

/** The neural network: 20 nodes at random percentage positions, wired
    when closer than 30 units. */
module NeuralNet {
  import opened Base
  import opened Field

  const Count: nat := 20
  const Reach: real := 30.0

  /** A node's `left`/`top` percentages. */
  function Node(rx: Draw, ry: Draw): (p: Point)
    ensures 0.0 <= p.x < 100.0 && 0.0 <= p.y < 100.0
  {
    Point(Scale(rx, 100.0), Scale(ry, 100.0))
  }

  function Nodes(draws: seq<(Draw, Draw)>): (ps: seq<Point>)
    requires |draws| == Count
    ensures |ps| == Count
  {
    seq(Count, i requires 0 <= i < Count => Node(draws[i].0, draws[i].1))
  }

  /** A connection element from node `i`, as wide as the distance. */
  datatype Wire = Wire(i: nat, j: nat, width: real)

  /** The connections, in the order the loops create them. */
  function Wires(d: seq<seq<real>>): (ws: seq<Wire>)
    requires IsTable(d, Count)
    ensures |ws| == |Connections(d, Count, Reach, 1.0)|
    ensures forall m :: 0 <= m < |ws| ==>
      ws[m].i == Connections(d, Count, Reach, 1.0)[m].i && ws[m].j == Connections(d, Count, Reach, 1.0)[m].j
      && ws[m].i < ws[m].j < Count
    ensures forall m :: 0 <= m < |ws| ==> ws[m].width == d[ws[m].i][ws[m].j]
  {
    var ls := Connections(d, Count, Reach, 1.0);
    ConnectionsCorrect(d, Count, Reach, 1.0);
    seq(|ls|, m requires 0 <= m < |ls| => Wire(ls[m].i, ls[m].j, d[ls[m].i][ls[m].j]))
  }

  /** Two nodes are wired exactly when `i < j` and they are closer than 30;
      each pair at most once. */
  lemma WiresCorrect(d: seq<seq<real>>, ps: seq<Point>)
    requires |ps| == Count && IsTableOf(d, ps)
    ensures var ws := Wires(d);
      (forall i: nat, j: nat :: (exists m :: 0 <= m < |ws| && ws[m].i == i && ws[m].j == j) <==> i < j < Count && d[i][j] < Reach)
      && (forall a, b :: 0 <= a < b < |ws| ==> (ws[a].i, ws[a].j) != (ws[b].i, ws[b].j))
  {
    var ls := Connections(d, Count, Reach, 1.0);
    ConnectionsCorrect(d, Count, Reach, 1.0);
    var ws := Wires(d);
    forall a, b | 0 <= a < b < |ws|
      ensures (ws[a].i, ws[a].j) != (ws[b].i, ws[b].j)
    {
      assert Before(ls[a], ls[b]);
    }
    forall i: nat, j: nat
      ensures (exists m :: 0 <= m < |ws| && ws[m].i == i && ws[m].j == j) <==> i < j < Count && d[i][j] < Reach
    {
      assert (exists m :: 0 <= m < |ws| && ws[m].i == i && ws[m].j == j) <==> Drawn(ls, i, j);
    }
  }
}
