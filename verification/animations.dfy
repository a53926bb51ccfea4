/** The `AnimationController`: the reduced-motion gate, the scroll
    observer that reveals elements and starts their entrance animation
    once, the count-up of the statistics numbers and the throttled
    parallax. */
module Animations {
  import opened Base
  import AdvancedAnimations

  /** The effects `initAdvancedEffects` installs, in order. */
  datatype Extra = ParallaxEffect | HoverEffects | FloatingAnimations

  /** What `init()` has set up when it returns or throws, and whether it
      threw. */
  datatype Setup = Setup(minimalFade: bool, scrollAnimations: bool, extras: seq<Extra>, threw: bool)

  /** `init()` as written. Line 20 calls `initIntersectionObservers`, which
      the class does not define, so without reduced motion the call throws
      a `TypeError` once the scroll animations are running: no extra effect
      starts, and the exception leaves the constructor. */
  function InitAsWritten(reducedMotion: bool): (s: Setup)
    ensures s.minimalFade <==> reducedMotion
    ensures s.scrollAnimations <==> !reducedMotion
    ensures s.threw <==> !reducedMotion
    ensures s.extras == []
  {
    if reducedMotion then Setup(true, false, [], false)
    else Setup(false, true, [], true)
  }

  /** `window.animationController` and the exports of lines 337-347 are
      set only when the constructor at line 334 returns; a throw ends the
      script there. */
  function ControllerInstalled(s: Setup): (installed: bool)
    ensures installed <==> !s.threw
  {
    !s.threw
  }

  /** Without reduced motion the written `init()` starts no extra effect
      and leaves no controller behind, where the corrected one starts all
      three effects. */
  lemma ExtrasLostAsWritten(reducedMotion: bool)
    ensures !reducedMotion ==>
      InitAsWritten(reducedMotion).extras == [] && Init(reducedMotion).extras != []
    ensures ControllerInstalled(InitAsWritten(reducedMotion)) <==> reducedMotion
    ensures ControllerInstalled(Init(reducedMotion))
  {
  }

  /** `init()` as evidently intended, with the call to the missing method
      left out: under reduced motion only the minimal fade-in runs;
      otherwise the scroll animations and every advanced effect. */
  function Init(reducedMotion: bool): (s: Setup)
    ensures !s.threw
    ensures s.minimalFade <==> reducedMotion
    ensures s.scrollAnimations <==> !reducedMotion
    ensures forall x: Extra :: x in s.extras <==> !reducedMotion
  {
    if reducedMotion then Setup(true, false, [], false)
    else Setup(false, true, InitAdvancedEffects(reducedMotion), false)
  }

  /** `initAdvancedEffects`, which repeats the reduced-motion check. */
  function InitAdvancedEffects(reducedMotion: bool): (extras: seq<Extra>)
    ensures reducedMotion <==> extras == []
    ensures !reducedMotion ==> |extras| == 3 && forall x: Extra :: x in extras
  {
    if reducedMotion then []
    else
      var extras := [ParallaxEffect, HoverEffects, FloatingAnimations];
      assert forall x: Extra :: x in extras by {
        forall x: Extra ensures x in extras {
          if x.ParallaxEffect? { assert extras[0] == x; }
          else if x.HoverEffects? { assert extras[1] == x; }
          else { assert extras[2] == x; }
        }
      }
      extras
  }

  /** Both controllers read the same media query. Under reduced motion
      neither starts an advanced effect, as written or corrected; without
      it the corrected controller starts its effects exactly when the
      other controller starts its own, while the written one starts none. */
  lemma ReducedMotionAgrees(reducedMotion: bool)
    ensures reducedMotion ==>
      InitAsWritten(reducedMotion).extras == [] && Init(reducedMotion).extras == []
      && AdvancedAnimations.InitPlan(reducedMotion) == []
    ensures Init(reducedMotion).minimalFade <==> Init(reducedMotion).extras == []
    ensures Init(reducedMotion).extras == [] <==> AdvancedAnimations.InitPlan(reducedMotion) == []
    ensures !reducedMotion ==>
      InitAsWritten(reducedMotion).extras == [] && AdvancedAnimations.InitPlan(reducedMotion) != []
  {
  }

  // ---------------------------------------------------------------------
  // Scroll reveal and the one-time entrance animation

  /** The per-class animators `triggerElementAnimation` dispatches to. */
  datatype Animator = StatCard | SkillCard | ProjectCard

  const Visible: string := "visible"
  const FullyVisible: string := "fully-visible"

  /** The class that selects each animator. */
  function ClassOf(a: Animator): (c: string)
    ensures c != Visible && c != FullyVisible
  {
    match a
    case StatCard => "stat-card"
    case SkillCard => "skill-card"
    case ProjectCard => "project-card"
  }

  /** The position of each animator in the dispatch order. */
  function Rank(a: Animator): nat {
    match a
    case StatCard => 0
    case SkillCard => 1
    case ProjectCard => 2
  }

  /** An observed element: its class list and its `data-animated` flag. */
  datatype Element = Element(classes: set<string>, animated: bool)

  predicate NoRepeats(s: seq<Animator>) {
    forall i, j :: 0 <= i < j < |s| ==> s[i] != s[j]
  }

  /** The animators an element's classes select, in source order: an
      element with several card classes gets each of their animations. */
  function Dispatch(classes: set<string>): (started: seq<Animator>)
    ensures forall a :: a in started <==> ClassOf(a) in classes
    ensures forall i, j :: 0 <= i < j < |started| ==> Rank(started[i]) < Rank(started[j])
  {
    (if ClassOf(StatCard) in classes then [StatCard] else [])
    + (if ClassOf(SkillCard) in classes then [SkillCard] else [])
    + (if ClassOf(ProjectCard) in classes then [ProjectCard] else [])
  }

  /** The element after a callback and the animators the callback started. */
  datatype Triggered = Triggered(element: Element, started: seq<Animator>)

  /** `triggerElementAnimation`: an element already flagged is left alone;
      otherwise it is flagged and its animators start. */
  function Trigger(e: Element): (r: Triggered)
    ensures e.animated ==> r == Triggered(e, [])
    ensures !e.animated ==> r.element == e.(animated := true)
    ensures forall a :: a in r.started <==> !e.animated && ClassOf(a) in e.classes
  {
    if e.animated then Triggered(e, [])
    else Triggered(e.(animated := true), Dispatch(e.classes))
  }

  /** A second trigger does nothing, whatever the first one did. */
  lemma TriggerIdempotent(e: Element)
    ensures var once := Trigger(e);
      once.element.animated && Trigger(once.element) == Triggered(once.element, [])
  {
  }

  /** The observer callback for one entry with intersection ratio
      `ratio`: above 0.1 the element is marked visible and triggered,
      above 0.5 also marked fully visible. */
  function OnIntersect(e: Element, ratio: real): (r: Triggered)
    ensures ratio <= 0.1 ==> r == Triggered(e, [])
    ensures ratio > 0.1 ==> Visible in r.element.classes && r.element.animated
    ensures ratio > 0.5 ==> FullyVisible in r.element.classes
    ensures e.classes <= r.element.classes <= e.classes + {Visible, FullyVisible}
    ensures forall a :: a in r.started ==> ClassOf(a) in e.classes
  {
    if ratio > 0.1 then
      var t := Trigger(e.(classes := e.classes + {Visible}));
      if ratio > 0.5 then Triggered(t.element.(classes := t.element.classes + {FullyVisible}), t.started)
      else t
    else Triggered(e, [])
  }

  /** What the reveal keeps true of every observed element: fully visible
      only when visible, and visible only once animated. */
  predicate Revealed(e: Element) {
    (FullyVisible in e.classes ==> Visible in e.classes) && (Visible in e.classes ==> e.animated)
  }

  /** The callbacks for a sequence of ratios of one element, with every
      animator started along the way. */
  function Observe(e: Element, ratios: seq<real>): Triggered
    decreases |ratios|
  {
    if ratios == [] then Triggered(e, [])
    else
      var t := OnIntersect(e, ratios[0]);
      var rest := Observe(t.element, ratios[1..]);
      Triggered(rest.element, t.started + rest.started)
  }

  /** However often the element scrolls in and out of view, each
      entrance animation starts at most once, and only one its classes
      select; an element that starts out revealed stays so. The element
      may come in already `visible` but not flagged, as the app's own
      observer in js/main.js leaves the cards. */
  lemma {:induction false} ObserveAnimatesOnce(e: Element, ratios: seq<real>)
    ensures var r := Observe(e, ratios);
      (Revealed(e) ==> Revealed(r.element)) && NoRepeats(r.started)
      && (e.animated ==> r.started == [])
      && (forall a :: a in r.started ==> ClassOf(a) in e.classes)
    decreases |ratios|
  {
    if ratios != [] {
      var t := OnIntersect(e, ratios[0]);
      ObserveAnimatesOnce(t.element, ratios[1..]);
      var rest := Observe(t.element, ratios[1..]);
      if !e.animated && t.started != [] {
        assert t.element.animated;
        assert rest.started == [];
        assert t.started == Dispatch(e.classes + {Visible});
        assert t.started + rest.started == t.started;
      }
      forall a | a in rest.started
        ensures ClassOf(a) in e.classes
      {
        assert ClassOf(a) in t.element.classes;
        assert ClassOf(a) != Visible && ClassOf(a) != FullyVisible;
      }
    }
  }

  // ---------------------------------------------------------------------
  // The statistics count-up

  const Duration: real := 2000.0

  /** `Math.min(elapsed / duration, 1)`. */
  function Progress(elapsed: real): (p: real)
    ensures p <= 1.0
    ensures p == 1.0 <==> elapsed >= Duration
    ensures elapsed >= 0.0 ==> 0.0 <= p
  {
    if elapsed / Duration < 1.0 then elapsed / Duration else 1.0
  }

  function Cube(x: real): real {
    x * x * x
  }

  /** The ease-out curve `1 - (1 - p)^3`. */
  function Ease(p: real): real {
    1.0 - Cube(1.0 - p)
  }

  lemma CubeDifference(a: real, b: real)
    ensures Cube(b) - Cube(a) == (b - a) * (a * a + a * b + b * b)
  {
  }

  lemma CubeMono(a: real, b: real)
    requires a <= b
    ensures Cube(a) <= Cube(b)
  {
    var m := a + b / 2.0;
    var bb := b * b;
    var s := a * a + a * b + bb;
    assert s == m * m + 0.75 * bb;
    SquareNonNegative(m);
    SquareNonNegative(b);
    CubeDifference(a, b);
    ProductNonNegative(b - a, s);
  }

  /** The curve is non-decreasing everywhere, and runs from 0 to 1 over
      the unit interval. */
  lemma EaseMonotone(p: real, q: real)
    requires p <= q
    ensures Ease(p) <= Ease(q)
  {
    CubeMono(1.0 - q, 1.0 - p);
  }

  lemma EaseRange(p: real)
    requires 0.0 <= p <= 1.0
    ensures 0.0 <= Ease(p) <= 1.0
  {
    CubeMono(0.0, 1.0 - p);
    CubeMono(1.0 - p, 1.0);
  }

  /** The count starts at nothing and ends at the full value. */
  lemma EaseEnds()
    ensures Ease(0.0) == 0.0 && Ease(1.0) == 1.0
  {
    assert Cube(1.0) == 1.0;
    assert Cube(0.0) == 0.0;
  }

  lemma ProgressMonotone(s: real, t: real)
    requires s <= t
    ensures Progress(s) <= Progress(t)
  {
  }

  /** One `updateNumber` frame: the number shown and whether another
      frame is requested. */
  datatype CountStep = CountStep(shown: int, again: bool)

  function CountFrame(target: int, elapsed: real): (r: CountStep)
    ensures r.again <==> elapsed < Duration
    ensures !r.again ==> r.shown == target
    ensures 0 <= target && 0.0 <= elapsed ==> 0 <= r.shown <= target
  {
    var p := Progress(elapsed);
    if p < 1.0 then CountStep(Eased(target, p), true)
    else CountStep(target, false)
  }

  /** `Math.floor(easeOut * target)`: between 0 and the target while the
      progress is in the unit interval. */
  function Eased(target: int, p: real): (shown: int)
    ensures 0 <= target && 0.0 <= p <= 1.0 ==> 0 <= shown <= target
  {
    var x := Ease(p) * target as real;
    BelowTarget(target, p);
    x.Floor
  }

  lemma BelowTarget(target: int, p: real)
    ensures 0 <= target && 0.0 <= p <= 1.0 ==> 0.0 <= Ease(p) * target as real <= target as real
  {
    if 0 <= target && 0.0 <= p <= 1.0 {
      var t := target as real;
      var e := Ease(p);
      EaseRange(p);
      assert 0.0 <= e <= 1.0;
      ScaleBelow(e, t);
    }
  }

  lemma ScaleBelow(e: real, t: real)
    requires 0.0 <= e <= 1.0 && t >= 0.0
    ensures 0.0 <= e * t <= t
  {
    ProductNonNegative(e, t);
    ProductNonNegative(1.0 - e, t);
    assert t - e * t == (1.0 - e) * t;
  }

  lemma ScaleMono(a: real, b: real, t: real)
    requires a <= b && t >= 0.0
    ensures a * t <= b * t
  {
    ProductNonNegative(b - a, t);
  }

  lemma FloorMono(x: real, y: real)
    requires x <= y
    ensures x.Floor <= y.Floor
  {
  }

  /** For a non-negative target the displayed number never goes down as
      time passes, and it ends on the target. */
  lemma CountsUp(target: int, s: real, t: real)
    requires 0 <= target && 0.0 <= s <= t
    ensures CountFrame(target, s).shown <= CountFrame(target, t).shown
    ensures t >= Duration ==> CountFrame(target, t).shown == target
  {
    if t < Duration {
      var ps, pt := Progress(s), Progress(t);
      ProgressMonotone(s, t);
      EaseMonotone(ps, pt);
      var a, b := Ease(ps), Ease(pt);
      ScaleMono(a, b, target as real);
      FloorMono(a * target as real, b * target as real);
      assert CountFrame(target, s).shown == Eased(target, ps);
      assert CountFrame(target, t).shown == Eased(target, pt);
    }
  }

  // ---------------------------------------------------------------------
  // The parallax scroll throttle

  /** The `ticking` flag, the number of animation-frame callbacks queued,
      and the `translateY` offset the hero layers last got. */
  datatype Parallax = Parallax(ticking: bool, pending: nat, offset: real)

  datatype ParallaxEvent = ScrollEvent | FrameAt(pageYOffset: real)

  /** The scroll listener requests a frame only when none is outstanding;
      the frame callback moves the layers by half the scroll distance,
      upwards, and clears the flag. */
  function ParallaxStep(s: Parallax, e: ParallaxEvent): (r: Parallax)
    ensures Calm(s) ==> Calm(r)
    ensures e.FrameAt? && s.pending > 0 ==> r.offset == -0.5 * e.pageYOffset && !r.ticking
    ensures e.ScrollEvent? ==> r.ticking && r.offset == s.offset
  {
    match e
    case ScrollEvent => if !s.ticking then Parallax(true, s.pending + 1, s.offset) else s
    case FrameAt(y) => if s.pending > 0 then Parallax(false, s.pending - 1, y * -0.5) else s
  }

  /** At most one frame is outstanding, exactly while `ticking` is set. */
  predicate Calm(s: Parallax) {
    s.pending <= 1 && (s.ticking <==> s.pending == 1)
  }

  function ParallaxRun(s: Parallax, es: seq<ParallaxEvent>): Parallax
    decreases |es|
  {
    if es == [] then s else ParallaxRun(ParallaxStep(s, es[0]), es[1..])
  }

  function Scrolls(es: seq<ParallaxEvent>): nat {
    if es == [] then 0 else (if es[0].ScrollEvent? then 1 else 0) + Scrolls(es[1..])
  }

  /** However the scroll and frame events interleave, never more than one
      frame is queued, and no more frames are queued than there were
      scroll events. */
  lemma {:induction false} ParallaxThrottled(s: Parallax, es: seq<ParallaxEvent>)
    requires Calm(s)
    ensures var r := ParallaxRun(s, es); Calm(r) && r.pending <= s.pending + Scrolls(es)
    decreases |es|
  {
    if es != [] {
      ParallaxThrottled(ParallaxStep(s, es[0]), es[1..]);
    }
  }
}
