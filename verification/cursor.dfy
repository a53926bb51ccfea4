/** The custom cursor: an outer ring and an inner dot that follow the
    pointer, grow over interactive elements and shrink on a click. Only
    the state that the handlers compute is modelled: the two positions,
    the visibility flag and the inline style strings they rewrite. */
module Cursor {
  import opened Base
  import opened Field
  import opened Text

  /** The suffixes `expand` and `click` append to the two transforms. */
  const OuterGrow: string := " scale(1.5625)"
  const InnerGrow: string := " scale(1.33)"
  const OuterPress: string := " scale(0.9)"
  const InnerPress: string := " scale(1.5)"

  /** The inner dot's background at rest and while the button is down. */
  const Cyan: string := "#00ffff"
  const Magenta: string := "#ff00ff"

  /** The transform both elements get from their initial `cssText`. */
  const Centred: string := "translate(-50%, -50%)"

  /** The follow rates of `animate()`: the ring moves 15% of the way to
      the pointer per frame, the dot 80%. */
  const OuterRate: real := 0.15
  const InnerRate: real := 0.8

  /** The inline styles the handlers rewrite; `opacity` is shared by both
      elements because every handler sets the two to the same value. */
  datatype Dom = Dom(outerTransform: string, innerTransform: string, opacity: string, innerBackground: string)

  /** `dom` is absent when the device has no hover support: `createCursor`
      then returns before creating the elements. */
  datatype Cursor = Cursor(mouse: Point, outer: Point, inner: Point, visible: bool, dom: Option<Dom>)

  /** The state the constructor builds on a `w` by `h` window before its
      closing call to `animate()`: everything at the window's centre and
      visible; the elements exist only with hover support. That first
      frame, which already overwrites both transforms, is the first
      `Frame` event of a run. */
  function Create(hover: bool, w: real, h: real): (c: Cursor)
    ensures c.dom.Some? <==> hover
    ensures c.visible && c.outer == c.mouse && c.inner == c.mouse && c.mouse == Point(w / 2.0, h / 2.0)
    ensures hover ==> c.dom.value == Dom(Centred, Centred, "", Cyan)
  {
    var m := Point(w / 2.0, h / 2.0);
    Cursor(m, m, m, true, if hover then Some(Dom(Centred, Centred, "", Cyan)) else None)
  }

  /** One coordinate of the follow step. */
  function Approach(pos: real, target: real, rate: real): (r: real)
    ensures target - r == (1.0 - rate) * (target - pos)
  {
    pos + (target - pos) * rate
  }

  function Pow(b: real, k: nat): real {
    if k == 0 then 1.0 else b * Pow(b, k - 1)
  }

  /** `k` follow steps towards a pointer that does not move. */
  function Approached(pos: real, target: real, rate: real, k: nat): real {
    if k == 0 then pos else Approach(Approached(pos, target, rate, k - 1), target, rate)
  }

  /** The gap to a still pointer shrinks geometrically: after `k` frames
      it is `(1 - rate)^k` times the starting gap, so 0.85^k for the ring
      and 0.2^k for the dot. */
  lemma {:induction false} ApproachedGap(pos: real, target: real, rate: real, k: nat)
    ensures target - Approached(pos, target, rate, k) == Pow(1.0 - rate, k) * (target - pos)
  {
    if k > 0 {
      GapStep(pos, target, rate, k);
      ApproachedGap(pos, target, rate, k - 1);
      Regroup(target - Approached(pos, target, rate, k), 1.0 - rate, target - Approached(pos, target, rate, k - 1),
              Pow(1.0 - rate, k - 1), target - pos, Pow(1.0 - rate, k));
    }
  }

  /** One more frame scales the gap by `1 - rate`. */
  lemma GapStep(pos: real, target: real, rate: real, k: nat)
    requires k > 0
    ensures target - Approached(pos, target, rate, k) == (1.0 - rate) * (target - Approached(pos, target, rate, k - 1))
    ensures Pow(1.0 - rate, k) == (1.0 - rate) * Pow(1.0 - rate, k - 1)
  {
  }

  lemma Regroup(x: real, a: real, y: real, p: real, g: real, q: real)
    requires x == a * y && y == p * g && q == a * p
    ensures x == q * g
  {
  }

  /** A gap factor in [0, 1) never lets the gap grow. */
  lemma {:induction false} PowBelowOne(b: real, k: nat)
    requires 0.0 <= b < 1.0
    ensures 0.0 <= Pow(b, k) <= 1.0
    ensures k > 0 ==> Pow(b, k) < 1.0
  {
    if k > 0 {
      PowBelowOne(b, k - 1);
      var x := Pow(b, k - 1);
      ProductNonNegative(b, 1.0 - x);
      ProductNonNegative(b, x);
      assert b - b * x == b * (1.0 - x);
    }
  }

  /** `animate()`: both elements follow the pointer, and each transform is
      overwritten with the `translate3d(…)` text for the new position,
      given as `outerText` and `innerText` since number formatting is not
      modelled. Without the elements nothing moves. */
  function Animate(c: Cursor, outerText: string, innerText: string): (r: Cursor)
    ensures c.dom.None? ==> r == c
    ensures c.dom.Some? ==>
      r.dom == Some(c.dom.value.(outerTransform := outerText, innerTransform := innerText))
      && c.mouse.x - r.outer.x == 0.85 * (c.mouse.x - c.outer.x)
      && c.mouse.y - r.outer.y == 0.85 * (c.mouse.y - c.outer.y)
      && c.mouse.x - r.inner.x == 0.2 * (c.mouse.x - c.inner.x)
      && c.mouse.y - r.inner.y == 0.2 * (c.mouse.y - c.inner.y)
      && r.mouse == c.mouse && r.visible == c.visible
  {
    match c.dom
    case None => c
    case Some(d) =>
      c.(outer := Point(Approach(c.outer.x, c.mouse.x, OuterRate), Approach(c.outer.y, c.mouse.y, OuterRate)),
         inner := Point(Approach(c.inner.x, c.mouse.x, InnerRate), Approach(c.inner.y, c.mouse.y, InnerRate)),
         dom := Some(d.(outerTransform := outerText, innerTransform := innerText)))
  }

  /** `expand()`: both transforms get their grow suffix. */
  function Expand(c: Cursor): (r: Cursor)
    ensures c.dom.None? ==> r == c
    ensures c.dom.Some? ==>
      var d := c.dom.value;
      r == c.(dom := Some(d.(outerTransform := d.outerTransform + OuterGrow,
                              innerTransform := d.innerTransform + InnerGrow)))
  {
    match c.dom
    case None => c
    case Some(d) => c.(dom := Some(d.(outerTransform := d.outerTransform + OuterGrow,
                                      innerTransform := d.innerTransform + InnerGrow)))
  }

  /** `contract()`: the first grow suffix is cut out of each transform. */
  function Contract(c: Cursor): (r: Cursor)
    ensures c.dom.None? ==> r == c
    ensures c.dom.Some? ==>
      r.dom.Some? && r.mouse == c.mouse && r.visible == c.visible
      && r.outer == c.outer && r.inner == c.inner
      && r.dom.value.opacity == c.dom.value.opacity
      && r.dom.value.innerBackground == c.dom.value.innerBackground
      && r.dom.value.outerTransform == ReplaceFirst(c.dom.value.outerTransform, OuterGrow, "")
      && r.dom.value.innerTransform == ReplaceFirst(c.dom.value.innerTransform, InnerGrow, "")
      && (!Contains(c.dom.value.outerTransform, OuterGrow) ==> r.dom.value.outerTransform == c.dom.value.outerTransform)
      && (!Contains(c.dom.value.innerTransform, InnerGrow) ==> r.dom.value.innerTransform == c.dom.value.innerTransform)
      && (Contains(c.dom.value.outerTransform, OuterGrow) ==>
            |r.dom.value.outerTransform| == |c.dom.value.outerTransform| - |OuterGrow|)
      && (Contains(c.dom.value.innerTransform, InnerGrow) ==>
            |r.dom.value.innerTransform| == |c.dom.value.innerTransform| - |InnerGrow|)
  {
    match c.dom
    case None => c
    case Some(d) => c.(dom := Some(d.(outerTransform := ReplaceFirst(d.outerTransform, OuterGrow, ""),
                                      innerTransform := ReplaceFirst(d.innerTransform, InnerGrow, ""))))
  }

  /** `click()`: both transforms get their press suffix and the dot turns
      magenta. */
  function Click(c: Cursor): (r: Cursor)
    ensures c.dom.None? ==> r == c
    ensures c.dom.Some? ==>
      var d := c.dom.value;
      r == c.(dom := Some(d.(outerTransform := d.outerTransform + OuterPress,
                              innerTransform := d.innerTransform + InnerPress,
                              innerBackground := Magenta)))
  {
    match c.dom
    case None => c
    case Some(d) => c.(dom := Some(d.(outerTransform := d.outerTransform + OuterPress,
                                      innerTransform := d.innerTransform + InnerPress,
                                      innerBackground := Magenta)))
  }

  /** `release()`: the first press suffix is cut out of each transform and
      the dot turns cyan again. */
  function Release(c: Cursor): (r: Cursor)
    ensures c.dom.None? ==> r == c
    ensures c.dom.Some? ==>
      r.dom.Some? && r.dom.value.innerBackground == Cyan
      && r.mouse == c.mouse && r.visible == c.visible
      && r.outer == c.outer && r.inner == c.inner
      && r.dom.value.opacity == c.dom.value.opacity
      && r.dom.value.outerTransform == ReplaceFirst(c.dom.value.outerTransform, OuterPress, "")
      && r.dom.value.innerTransform == ReplaceFirst(c.dom.value.innerTransform, InnerPress, "")
      && (!Contains(c.dom.value.outerTransform, OuterPress) ==> r.dom.value.outerTransform == c.dom.value.outerTransform)
      && (!Contains(c.dom.value.innerTransform, InnerPress) ==> r.dom.value.innerTransform == c.dom.value.innerTransform)
      && (Contains(c.dom.value.outerTransform, OuterPress) ==>
            |r.dom.value.outerTransform| == |c.dom.value.outerTransform| - |OuterPress|)
      && (Contains(c.dom.value.innerTransform, InnerPress) ==>
            |r.dom.value.innerTransform| == |c.dom.value.innerTransform| - |InnerPress|)
  {
    match c.dom
    case None => c
    case Some(d) => c.(dom := Some(d.(outerTransform := ReplaceFirst(d.outerTransform, OuterPress, ""),
                                      innerTransform := ReplaceFirst(d.innerTransform, InnerPress, ""),
                                      innerBackground := Cyan)))
  }

  /** `hide()`. */
  function Hide(c: Cursor): (r: Cursor)
    ensures c.dom.None? ==> r == c
    ensures c.dom.Some? ==>
      !r.visible && r.dom.Some? && r.dom.value.opacity == "0"
      && r.dom.value == c.dom.value.(opacity := "0") && r.mouse == c.mouse
  {
    match c.dom
    case None => c
    case Some(d) => c.(visible := false, dom := Some(d.(opacity := "0")))
  }

  /** `show()`. */
  function Show(c: Cursor): (r: Cursor)
    ensures c.dom.None? ==> r == c
    ensures c.dom.Some? ==>
      r.visible && r.dom.Some? && r.dom.value.opacity == "1"
      && r.dom.value == c.dom.value.(opacity := "1") && r.mouse == c.mouse
  {
    match c.dom
    case None => c
    case Some(d) => c.(visible := true, dom := Some(d.(opacity := "1")))
  }

  /** The `mousemove` listener: record the pointer and show a hidden
      cursor. The listener is only installed when the elements exist. */
  function MouseMove(c: Cursor, p: Point): (r: Cursor)
    ensures c.dom.None? ==> r == c
    ensures c.dom.Some? ==> r.mouse == p && r.visible && r.outer == c.outer && r.inner == c.inner
    ensures c.dom.Some? && c.visible ==> r == c.(mouse := p)
  {
    if c.dom.None? then c
    else if !c.visible then Show(c.(mouse := p))
    else c.(mouse := p)
  }

  /** The events the cursor reacts to. `HoverIn`/`HoverOut` are the
      capturing `mouseenter`/`mouseleave` on an interactive element;
      `Leave`/`Enter` are the pointer leaving or entering the document. */
  datatype Event =
    | Move(p: Point) | HoverIn | HoverOut | Down | Up
    | PageHidden | PageShown | Leave | Enter
    | Frame(outerText: string, innerText: string)

  function Handle(c: Cursor, e: Event): Cursor {
    match e
    case Move(p) => MouseMove(c, p)
    case HoverIn => Expand(c)
    case HoverOut => Contract(c)
    case Down => Click(c)
    case Up => Release(c)
    case PageHidden => Hide(c)
    case PageShown => Show(c)
    case Leave => Hide(c)
    case Enter => Show(c)
    case Frame(o, i) => Animate(c, o, i)
  }

  function Run(c: Cursor, es: seq<Event>): Cursor
    decreases |es|
  {
    if es == [] then c else Run(Handle(c, es[0]), es[1..])
  }

  /** On a device without hover support no event changes anything: every
      handler returns early, so the state stays exactly as constructed. */
  lemma {:induction false} InertWithoutHover(c: Cursor, es: seq<Event>)
    requires c.dom.None?
    ensures Run(c, es) == c
    decreases |es|
  {
    if es != [] {
      assert Handle(c, es[0]) == c;
      InertWithoutHover(c, es[1..]);
    }
  }

  /** `contract()` after `expand()` restores each transform that did not
      already carry its grow suffix, and leaves everything else alone. */
  lemma ExpandThenContract(c: Cursor)
    requires c.dom.Some?
    ensures var r := Contract(Expand(c)); var d := c.dom.value;
      r.dom.Some? && r.mouse == c.mouse && r.outer == c.outer && r.inner == c.inner && r.visible == c.visible
      && r.dom.value.opacity == d.opacity && r.dom.value.innerBackground == d.innerBackground
      && (!Contains(d.outerTransform, OuterGrow) ==> r.dom.value.outerTransform == d.outerTransform)
      && (!Contains(d.innerTransform, InnerGrow) ==> r.dom.value.innerTransform == d.innerTransform)
  {
    SuffixesHaveUniqueHeads();
    var d := c.dom.value;
    if !Contains(d.outerTransform, OuterGrow) {
      RemoveAppended(d.outerTransform, OuterGrow, "");
      assert d.outerTransform + OuterGrow + "" == d.outerTransform + OuterGrow;
      assert d.outerTransform + "" == d.outerTransform;
    }
    if !Contains(d.innerTransform, InnerGrow) {
      RemoveAppended(d.innerTransform, InnerGrow, "");
      assert d.innerTransform + InnerGrow + "" == d.innerTransform + InnerGrow;
      assert d.innerTransform + "" == d.innerTransform;
    }
  }

  /** `release()` after `click()` restores both transforms under the same
      condition, and the dot ends cyan. */
  lemma ClickThenRelease(c: Cursor)
    requires c.dom.Some?
    ensures var r := Release(Click(c)); var d := c.dom.value;
      r.dom.Some? && r.mouse == c.mouse && r.outer == c.outer && r.inner == c.inner && r.visible == c.visible
      && r.dom.value.opacity == d.opacity && r.dom.value.innerBackground == Cyan
      && (!Contains(d.outerTransform, OuterPress) ==> r.dom.value.outerTransform == d.outerTransform)
      && (!Contains(d.innerTransform, InnerPress) ==> r.dom.value.innerTransform == d.innerTransform)
  {
    SuffixesHaveUniqueHeads();
    var d := c.dom.value;
    if !Contains(d.outerTransform, OuterPress) {
      RemoveAppended(d.outerTransform, OuterPress, "");
      assert d.outerTransform + OuterPress + "" == d.outerTransform + OuterPress;
      assert d.outerTransform + "" == d.outerTransform;
    }
    if !Contains(d.innerTransform, InnerPress) {
      RemoveAppended(d.innerTransform, InnerPress, "");
      assert d.innerTransform + InnerPress + "" == d.innerTransform + InnerPress;
      assert d.innerTransform + "" == d.innerTransform;
    }
  }

  /** Moving the pointer brings back a cursor that was hidden, whatever
      hid it. */
  lemma MoveRevealsCursor(c: Cursor, hider: Event, p: Point)
    requires c.dom.Some? && (hider == PageHidden || hider == Leave)
    ensures var h := Handle(c, hider);
      !h.visible && h.dom.value.opacity == "0"
      && var r := Handle(h, Move(p)); r.visible && r.dom.value.opacity == "1" && r.mouse == p
  {
  }

  /** As written, the grow suffix does not outlive the next animation
      frame: `animate()` overwrites the whole transform with the
      `translate3d(…)` text, so while the pointer is still over a link the
      ring is back to its normal size one frame after `expand()`. */
  lemma GrowLostAfterFrame(c: Cursor, outerText: string, innerText: string)
    requires c.dom.Some? && !Contains(outerText, OuterGrow) && !Contains(innerText, InnerGrow)
    ensures var e := Handle(c, HoverIn); var r := Handle(e, Frame(outerText, innerText));
      e.dom.Some? && Contains(e.dom.value.outerTransform, OuterGrow) && Contains(e.dom.value.innerTransform, InnerGrow)
      && r.dom.Some? && !Contains(r.dom.value.outerTransform, OuterGrow) && !Contains(r.dom.value.innerTransform, InnerGrow)
  {
    var d := c.dom.value;
    assert OccursAt(d.outerTransform + OuterGrow, OuterGrow, |d.outerTransform|);
    assert OccursAt(d.innerTransform + InnerGrow, InnerGrow, |d.innerTransform|);
  }

  /** The corrected cursor: the hover and press states are kept as flags
      and every frame composes them onto the new `translate3d(…)` text, so
      each scale lasts exactly as long as its state. */
  datatype Scaled = Scaled(cursor: Cursor, hovering: bool, pressed: bool)

  /** The transform a frame writes: the position text, then the grow
      suffix while hovering, then the press suffix while pressed. */
  function Compose(text: string, hovering: bool, pressed: bool, grow: string, press: string): string {
    text + (if hovering then grow else "") + (if pressed then press else "")
  }

  function HandleScaled(s: Scaled, e: Event): (r: Scaled)
    ensures s.cursor.dom.Some? ==> r.cursor.dom.Some?
    ensures e.Frame? && s.cursor.dom.Some? ==>
      r.cursor.dom.value.outerTransform == Compose(e.outerText, s.hovering, s.pressed, OuterGrow, OuterPress)
      && r.cursor.dom.value.innerTransform == Compose(e.innerText, s.hovering, s.pressed, InnerGrow, InnerPress)
    ensures r.hovering == (if e.HoverIn? then true else if e.HoverOut? then false else s.hovering)
    ensures r.pressed == (if e.Down? then true else if e.Up? then false else s.pressed)
  {
    match e
    case HoverIn => Scaled(Expand(s.cursor), true, s.pressed)
    case HoverOut => Scaled(Contract(s.cursor), false, s.pressed)
    case Down => Scaled(Click(s.cursor), s.hovering, true)
    case Up => Scaled(Release(s.cursor), s.hovering, false)
    case Frame(o, i) =>
      s.(cursor := Animate(s.cursor, Compose(o, s.hovering, s.pressed, OuterGrow, OuterPress),
                                     Compose(i, s.hovering, s.pressed, InnerGrow, InnerPress)))
    case _ => s.(cursor := Handle(s.cursor, e))
  }

  /** With the correction, a frame shows the grow suffix exactly while the
      pointer is over an interactive element, pressed or not, provided the
      position text itself never contains it. */
  lemma GrowKeptAcrossFrames(s: Scaled, outerText: string, innerText: string)
    requires s.cursor.dom.Some? && !Contains(outerText, OuterGrow) && !Contains(innerText, InnerGrow)
    ensures var r := HandleScaled(s, Frame(outerText, innerText));
      (Contains(r.cursor.dom.value.outerTransform, OuterGrow) <==> s.hovering)
      && (Contains(r.cursor.dom.value.innerTransform, InnerGrow) <==> s.hovering)
  {
    SuffixesHaveUniqueHeads();
    GrowShownIff(outerText, s.hovering, s.pressed, OuterGrow, OuterPress);
    GrowShownIff(innerText, s.hovering, s.pressed, InnerGrow, InnerPress);
  }

  lemma GrowShownIff(text: string, hovering: bool, pressed: bool, grow: string, press: string)
    requires HeadIsUnique(grow) && !Contains(text, grow)
    requires 0 < |press| < |grow| && press[0] == grow[0]
    ensures Contains(Compose(text, hovering, pressed, grow, press), grow) <==> hovering
  {
    var t := Compose(text, hovering, pressed, grow, press);
    if hovering {
      var tail := if pressed then press else "";
      assert t == text + grow + tail;
      assert t[|text|..|text| + |grow|] == grow;
      assert OccursAt(t, grow, |text|);
    } else {
      assert t == text + (if pressed then press else "");
      ShortTailAddsNoOccurrence(text, if pressed then press else "", grow);
    }
  }

  /** The suffixes meet the conditions of the removal lemmas: each begins
      with its only space. */
  lemma SuffixesHaveUniqueHeads()
    ensures HeadIsUnique(OuterGrow) && HeadIsUnique(InnerGrow)
    ensures HeadIsUnique(OuterPress) && HeadIsUnique(InnerPress)
    ensures |OuterPress| < |OuterGrow| && |InnerPress| < |InnerGrow|
  {
  }
}
