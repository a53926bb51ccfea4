/** The background particles: the particles.js library when it is loaded,
    otherwise a small canvas animation of 20 drifting dots joined by faint
    lines. */
module Particles {
  import opened Base
  import opened Field

  const Count: nat := 20
  const Reach: real := 100.0
  const LineOpacity: real := 0.2

  /** One fallback dot; `hue` is the hue of its `hsl(…)` colour. */
  datatype Particle = Particle(pos: Point, vel: Point, hue: real, size: real, opacity: real)

  /** The seven draws of one `reset()`, in the order the code takes them. */
  datatype ResetDraws = ResetDraws(x: Draw, y: Draw, vx: Draw, vy: Draw, hue: Draw, size: Draw, opacity: Draw)

  /** The closed canvas rectangle: the boundary check only resets a dot
      that is strictly outside it. */
  predicate InBox(p: Point, w: nat, h: nat) {
    0.0 <= p.x <= w as real && 0.0 <= p.y <= h as real
  }

  /** The ranges `reset()` draws velocity, colour, size and opacity from;
      nothing but `reset()` changes them. */
  predicate Looks(p: Particle) {
    -0.5 <= p.vel.x < 0.5 && -0.5 <= p.vel.y < 0.5
    && 180.0 <= p.hue < 240.0 && 1.0 <= p.size < 3.0 && 0.2 <= p.opacity < 0.5
  }

  /** What every dot keeps between frames on a `w` by `h` canvas. */
  predicate Valid(p: Particle, w: nat, h: nat) {
    InBox(p.pos, w, h) && Looks(p)
  }

  /** `reset()`: a fresh dot somewhere on the canvas. */
  function Reset(w: nat, h: nat, d: ResetDraws): (p: Particle)
    ensures Valid(p, w, h)
    ensures w > 0 ==> p.pos.x < w as real
    ensures h > 0 ==> p.pos.y < h as real
  {
    Particle(Point(Scale(d.x, w as real), Scale(d.y, h as real)),
             Point((d.vx - 0.5) * 1.0, (d.vy - 0.5) * 1.0),
             180.0 + Scale(d.hue, 60.0), Scale(d.size, 2.0) + 1.0, Scale(d.opacity, 0.3) + 0.2)
  }

  /** `update()`: the dot moves by its velocity and is reset, with the
      draws `d`, when the move takes it outside the canvas. */
  function Update(p: Particle, w: nat, h: nat, d: ResetDraws): (r: Particle)
    ensures InBox(r.pos, w, h)
    ensures Looks(p) ==> Looks(r)
    ensures var moved := Point(p.pos.x + p.vel.x, p.pos.y + p.vel.y);
      (InBox(moved, w, h) ==> r == p.(pos := moved))
      && (!InBox(moved, w, h) ==> r == Reset(w, h, d))
  {
    var moved := Point(p.pos.x + p.vel.x, p.pos.y + p.vel.y);
    if moved.x < 0.0 || moved.x > w as real || moved.y < 0.0 || moved.y > h as real then Reset(w, h, d)
    else p.(pos := moved)
  }

  /** The 20 dots the fallback creates. */
  function CreateAll(w: nat, h: nat, draws: seq<ResetDraws>): (ps: seq<Particle>)
    requires |draws| == Count
    ensures |ps| == Count && forall i :: 0 <= i < Count ==> Valid(ps[i], w, h)
  {
    seq(Count, i requires 0 <= i < Count => Reset(w, h, draws[i]))
  }

  /** What `initParticles` sets up. */
  datatype Backend =
    | Library                          // `particlesJS` exists and draws the scene
    | Fallback(particles: seq<Particle>) // the canvas fallback with its dots
    | Nothing                          // fallback wanted but `#particles-js` is missing

  /** `initParticles`: the library when it is loaded; otherwise the
      fallback, which gives up when the container element is missing. */
  function InitParticles(libraryLoaded: bool, containerPresent: bool, w: nat, h: nat,
                         draws: seq<ResetDraws>): (b: Backend)
    requires |draws| == Count
    ensures b.Library? <==> libraryLoaded
    ensures b.Nothing? <==> !libraryLoaded && !containerPresent
    ensures b.Fallback? ==>
      |b.particles| == Count && forall i :: 0 <= i < Count ==> Valid(b.particles[i], w, h)
  {
    if libraryLoaded then Library
    else if !containerPresent then Nothing
    else Fallback(CreateAll(w, h, draws))
  }

  /** The update pass of one `animate()` frame on a `w` by `h` canvas. */
  function Frame(ps: seq<Particle>, w: nat, h: nat, draws: seq<ResetDraws>): (r: seq<Particle>)
    requires |draws| == |ps|
    ensures |r| == |ps|
    ensures forall i :: 0 <= i < |ps| ==> r[i] == Update(ps[i], w, h, draws[i])
  {
    seq(|ps|, i requires 0 <= i < |ps| => Update(ps[i], w, h, draws[i]))
  }

  /** The canvas size and the reset draws of each frame. */
  datatype Tick = Tick(w: nat, h: nat, draws: seq<ResetDraws>)

  predicate Fits(ticks: seq<Tick>, n: nat) {
    forall k :: 0 <= k < |ticks| ==> |ticks[k].draws| == n
  }

  predicate AllLook(ps: seq<Particle>) {
    forall i :: 0 <= i < |ps| ==> Looks(ps[i])
  }

  /** A run of frames, the canvas possibly resized between them. */
  function Run(ps: seq<Particle>, ticks: seq<Tick>): seq<Particle>
    requires Fits(ticks, |ps|)
    decreases |ticks|
  {
    if ticks == [] then ps
    else
      var next := Frame(ps, ticks[0].w, ticks[0].h, ticks[0].draws);
      assert Fits(ticks[1..], |next|) by {
        forall k | 0 <= k < |ticks[1..]|
          ensures |ticks[1..][k].draws| == |next|
        {
          assert ticks[1..][k] == ticks[k + 1];
        }
      }
      Run(next, ticks[1..])
  }

  /** However the window is resized, the animation keeps its number of
      dots, every dot ends on the latest canvas, and the drawn ranges of
      velocity, colour, size and opacity hold throughout. */
  lemma {:induction false} RunKeepsDots(ps: seq<Particle>, ticks: seq<Tick>)
    requires Fits(ticks, |ps|) && AllLook(ps)
    ensures var r := Run(ps, ticks);
      |r| == |ps| && AllLook(r)
      && (ticks != [] ==> forall i :: 0 <= i < |r| ==> InBox(r[i].pos, ticks[|ticks| - 1].w, ticks[|ticks| - 1].h))
    decreases |ticks|
  {
    if ticks != [] {
      var t := ticks[0];
      var next := Frame(ps, t.w, t.h, t.draws);
      assert AllLook(next);
      var rest := ticks[1..];
      assert Fits(rest, |next|) by {
        forall k | 0 <= k < |rest|
          ensures |rest[k].draws| == |next|
        {
          assert rest[k] == ticks[k + 1];
        }
      }
      RunKeepsDots(next, rest);
      if rest == [] {
        assert Run(next, rest) == next;
        assert forall i :: 0 <= i < |next| ==> InBox(next[i].pos, t.w, t.h);
      } else {
        assert rest[|rest| - 1] == ticks[|ticks| - 1];
      }
    }
  }

  /** The connection pass: dots closer than 100 pixels are joined, at most
      0.2 opaque. */
  function Links(d: seq<seq<real>>, n: nat): seq<Link>
    requires IsTable(d, n)
  {
    Connections(d, n, Reach, LineOpacity)
  }

  /** Each pair of dots is joined exactly when they are closer than 100
      pixels, once, in loop order, with an opacity in (0, 0.2]. */
  lemma LinksCorrect(d: seq<seq<real>>, ps: seq<Particle>)
    requires IsTableOf(d, Positions(ps, (p: Particle) => p.pos))
    ensures var r := Links(d, |ps|);
      Ordered(r)
      && (forall i: nat, j: nat :: Drawn(r, i, j) <==> i < j < |ps| && d[i][j] < Reach)
      && (forall m :: 0 <= m < |r| ==> 0.0 < r[m].alpha <= LineOpacity)
  {
    ConnectionsCorrect(d, |ps|, Reach, LineOpacity);
  }
}
