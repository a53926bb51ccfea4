/** The self-contained effect classes: the text scramble, the energy
    field, the liquid cursor's trail and the morphing loader. */

/** `TextScramble`: every character position of the element's text
    flickers through random glyphs during its own window of frames and then
    settles on the character of the new text. */
module TextScramble {
  import opened Base

  /** The glyph alphabet: 26 characters, including an em dash. */
  const Glyphs: string := "!<>-_\\/[]{}\U{2014}=+*^?#________"

  /** One queue entry: the old and new character (or `""` beyond the end
      of that text), the frame window, and the glyph last shown. */
  datatype Slot = Slot(from: string, to: string, start: nat, end: nat, glyph: Option<char>)

  datatype Scramble = Scramble(queue: seq<Slot>, frame: nat)

  /** `text[i] || ''`. */
  function CharAt(s: string, i: nat): (r: string)
    ensures i < |s| ==> r == [s[i]]
    ensures i >= |s| ==> r == ""
  {
    if i < |s| then [s[i]] else ""
  }

  function Max(a: nat, b: nat): nat {
    if a < b then b else a
  }

  /** The two draws `setText` makes for each position. */
  datatype SlotDraws = SlotDraws(start: Draw, span: Draw)

  /** The entry `setText` builds for position `i`. */
  predicate FreshSlot(s: Slot, oldText: string, newText: string, i: nat) {
    s.from == CharAt(oldText, i) && s.to == CharAt(newText, i)
    && s.start < 40 && s.start <= s.end < s.start + 40 && s.glyph.None?
  }

  /** `setText(newText)` over the current text `oldText`: a queue as long as the
      longer text, with a start frame in [0, 40) and a window of another
      [0, 40) frames, and the frame counter reset. */
  function SetText(oldText: string, newText: string, draws: seq<SlotDraws>): (sc: Scramble)
    requires |draws| == Max(|oldText|, |newText|)
    ensures sc.frame == 0 && |sc.queue| == |draws|
    ensures forall i :: 0 <= i < |sc.queue| ==> FreshSlot(sc.queue[i], oldText, newText, i)
  {
    var q := seq(|draws|, i requires 0 <= i < |draws| =>
      var start := FloorScaled(draws[i].start, 40);
      Slot(CharAt(oldText, i), CharAt(newText, i), start, start + FloorScaled(draws[i].span, 40), None));
    Scramble(q, 0)
  }

  /** A piece of the frame's HTML: plain text, or one glyph in a span. */
  datatype Piece = Plain(s: string) | Scrambled(c: char)

  /** The two draws an entry in its window may use: the 0.28 coin and the
      glyph pick. */
  datatype GlyphDraws = GlyphDraws(coin: Draw, pick: Draw)

  /** `randomChar()`. */
  function RandomChar(pick: Draw): (c: char)
    ensures c in Glyphs
  {
    Glyphs[FloorScaled(pick, |Glyphs|)]
  }

  datatype SlotStep = SlotStep(piece: Piece, slot: Slot)

  /** One entry of `update()` at frame `frame`. */
  function SlotUpdate(s: Slot, frame: nat, d: GlyphDraws): (r: SlotStep)
    ensures r.slot == s.(glyph := r.slot.glyph)
    ensures frame >= s.end ==> r == SlotStep(Plain(s.to), s)
    ensures s.start <= frame < s.end ==> r.slot.glyph.Some? && r.piece == Scrambled(r.slot.glyph.value)
    // the first glyph of the window, and every redraw, comes from the alphabet
    ensures s.start <= frame < s.end && (s.glyph.None? || d.coin < 0.28) ==> r.slot.glyph == Some(RandomChar(d.pick))
    // a glyph already shown is kept unless the coin falls below 0.28
    ensures s.start <= frame < s.end && s.glyph.Some? && d.coin >= 0.28 ==> r.slot.glyph == s.glyph
    ensures frame < s.start && frame < s.end ==> r == SlotStep(Plain(s.from), s)
  {
    if frame >= s.end then SlotStep(Plain(s.to), s)
    else if frame >= s.start then
      var g := if s.glyph.None? || d.coin < 0.28 then RandomChar(d.pick) else s.glyph.value;
      SlotStep(Scrambled(g), s.(glyph := Some(g)))
    else SlotStep(Plain(s.from), s)
  }

  /** Every entry's window has passed at frame `frame`. */
  predicate AllPast(q: seq<Slot>, frame: nat) {
    forall i :: 0 <= i < |q| ==> frame >= q[i].end
  }

  /** The `complete` counter of `update()`. */
  function CountComplete(q: seq<Slot>, frame: nat): (n: nat)
    ensures n <= |q|
    ensures n == |q| <==> AllPast(q, frame)
  {
    if q == [] then 0
    else
      var n := CountComplete(q[..|q| - 1], frame) + (if frame >= q[|q| - 1].end then 1 else 0);
      assert forall i :: 0 <= i < |q| - 1 ==> q[..|q| - 1][i] == q[i];
      n
  }

  function Ends(q: seq<Slot>): (e: seq<nat>)
    ensures |e| == |q| && forall i :: 0 <= i < |q| ==> e[i] == q[i].end
  {
    seq(|q|, i requires 0 <= i < |q| => q[i].end)
  }

  function Targets(q: seq<Slot>): string {
    if q == [] then "" else Targets(q[..|q| - 1]) + q[|q| - 1].to
  }

  /** What one frame produces: the pieces, whether the promise resolves,
      and the state for the next frame. */
  datatype Frame = Frame(output: seq<Piece>, resolved: bool, next: Scramble)

  /** `update()`: every entry past its window shows its new character,
      every entry inside it a glyph, every other its old character; the
      promise resolves exactly when every entry is past its window, and
      otherwise the frame counter advances. */
  function Update(sc: Scramble, draws: seq<GlyphDraws>): (f: Frame)
    requires |draws| == |sc.queue|
    ensures |f.output| == |sc.queue| == |f.next.queue|
    ensures forall i :: 0 <= i < |sc.queue| ==> f.output[i] == SlotUpdate(sc.queue[i], sc.frame, draws[i]).piece
    ensures forall i :: 0 <= i < |sc.queue| ==> f.next.queue[i] == SlotUpdate(sc.queue[i], sc.frame, draws[i]).slot
    ensures f.resolved <==> AllPast(sc.queue, sc.frame)
    ensures f.next.frame == if f.resolved then sc.frame else sc.frame + 1
  {
    var q := sc.queue;
    var steps := seq(|q|, i requires 0 <= i < |q| => SlotUpdate(q[i], sc.frame, draws[i]));
    var resolved := CountComplete(q, sc.frame) == |q|;
    var q' := seq(|q|, i requires 0 <= i < |q| => steps[i].slot);
    Frame(seq(|q|, i requires 0 <= i < |q| => steps[i].piece), resolved,
      Scramble(q', if resolved then sc.frame else sc.frame + 1))
  }

  /** `update()` changes only the glyphs of the queue: the texts and the
      frame windows stay. */
  lemma UpdateKeepsQueue(sc: Scramble, draws: seq<GlyphDraws>)
    requires |draws| == |sc.queue|
    ensures var q' := Update(sc, draws).next.queue;
      (forall i :: 0 <= i < |sc.queue| ==> q'[i] == sc.queue[i].(glyph := q'[i].glyph))
      && Ends(q') == Ends(sc.queue) && Targets(q') == Targets(sc.queue)
  {
    SameTargets(sc.queue, Update(sc, draws).next.queue);
  }

  lemma {:induction false} SameTargets(q: seq<Slot>, q': seq<Slot>)
    requires |q| == |q'| && forall i :: 0 <= i < |q| ==> q'[i].to == q[i].to
    ensures Targets(q') == Targets(q)
  {
    if q != [] {
      SameTargets(q[..|q| - 1], q'[..|q| - 1]);
    }
  }

  /** The HTML text of a frame. */
  function Html(pieces: seq<Piece>): string {
    if pieces == [] then ""
    else
      Html(pieces[..|pieces| - 1]) +
      match pieces[|pieces| - 1]
      case Plain(s) => s
      case Scrambled(c) => "<span style=\"color: #00ffff\">" + [c] + "</span>"
  }

  /** Every piece is the plain new text of its entry. */
  predicate ShowsTargets(out: seq<Piece>, q: seq<Slot>) {
    |out| == |q| && forall i :: 0 <= i < |q| ==> out[i] == Plain(q[i].to)
  }

  lemma {:induction false} HtmlOfTargets(out: seq<Piece>, q: seq<Slot>, k: nat)
    requires ShowsTargets(out, q) && k <= |q|
    ensures Html(out[..k]) == Targets(q[..k])
  {
    if k > 0 {
      HtmlOfTargets(out, q, k - 1);
      assert out[..k][..k - 1] == out[..k - 1];
      assert q[..k][..k - 1] == q[..k - 1];
    }
  }

  /** A frame in which every window has passed shows the new text of the
      whole queue. */
  lemma ResolvedHtmlIsTargets(sc: Scramble, draws: seq<GlyphDraws>)
    requires |draws| == |sc.queue|
    requires AllPast(sc.queue, sc.frame)
    ensures Html(Update(sc, draws).output) == Targets(sc.queue)
  {
    var out := Update(sc, draws).output;
    assert ShowsTargets(out, sc.queue);
    HtmlOfTargets(out, sc.queue, |sc.queue|);
    assert out[..|sc.queue|] == out;
    assert sc.queue[..|sc.queue|] == sc.queue;
  }

  lemma {:induction false} TargetsOfSetText(oldText: string, newText: string, draws: seq<SlotDraws>, k: nat)
    requires |draws| == Max(|oldText|, |newText|) && k <= |draws|
    ensures Targets(SetText(oldText, newText, draws).queue[..k]) == newText[..if k < |newText| then k else |newText|]
  {
    if k > 0 {
      var q := SetText(oldText, newText, draws).queue;
      TargetsOfSetText(oldText, newText, draws, k - 1);
      assert q[..k][..k - 1] == q[..k - 1];
      if k <= |newText| {
        assert newText[..k] == newText[..k - 1] + [newText[k - 1]];
      }
    }
  }

  /** The new texts of the entries `setText` builds spell the new text. */
  lemma SetTextTargets(oldText: string, newText: string, slotDraws: seq<SlotDraws>)
    requires |slotDraws| == Max(|oldText|, |newText|)
    ensures Targets(SetText(oldText, newText, slotDraws).queue) == newText
  {
    var q := SetText(oldText, newText, slotDraws).queue;
    TargetsOfSetText(oldText, newText, slotDraws, |q|);
    assert q[..|q|] == q;
    assert newText[..|newText|] == newText;
  }

  /** When the promise resolves, the markup string written to `innerHTML`
      is exactly the new text (the browser then parses it as HTML). */
  lemma ResolvedShowsNewText(oldText: string, newText: string, slotDraws: seq<SlotDraws>, sc: Scramble, draws: seq<GlyphDraws>)
    requires |slotDraws| == Max(|oldText|, |newText|)
    requires |draws| == |sc.queue| == |slotDraws|
    requires Targets(sc.queue) == Targets(SetText(oldText, newText, slotDraws).queue)
    requires Update(sc, draws).resolved
    ensures Html(Update(sc, draws).output) == newText
  {
    SetTextTargets(oldText, newText, slotDraws);
    ResolvedHtmlIsTargets(sc, draws);
  }

  /** The largest end frame of the queue (0 for an empty queue). */
  function MaxEnd(e: seq<nat>): (m: nat)
    ensures forall i :: 0 <= i < |e| ==> e[i] <= m
    ensures |e| > 0 ==> exists i :: 0 <= i < |e| && e[i] == m
    ensures |e| == 0 ==> m == 0
  {
    if e == [] then 0
    else
      var m := MaxEnd(e[..|e| - 1]);
      assert forall i :: 0 <= i < |e| - 1 ==> e[..|e| - 1][i] == e[i];
      if e[|e| - 1] > m then e[|e| - 1] else m
  }

  /** The number of `update()` calls until the promise resolves, within
      the frames the draws cover. */
  function UpdatesToResolve(sc: Scramble, draws: seq<seq<GlyphDraws>>): (r: Option<nat>)
    requires forall k :: 0 <= k < |draws| ==> |draws[k]| == |sc.queue|
    ensures r.Some? ==> 0 < r.value <= |draws|
    decreases |draws|
  {
    if draws == [] then None
    else
      var f := Update(sc, draws[0]);
      if f.resolved then Some(1)
      else
        var r := UpdatesToResolve(f.next, draws[1..]);
        if r.None? then None else Some(r.value + 1)
  }

  /** `update()` in terms of the largest end frame: it resolves exactly
      from that frame on, and the end frames do not change. */
  lemma UpdateAgainstMaxEnd(sc: Scramble, ds: seq<GlyphDraws>)
    requires |ds| == |sc.queue|
    ensures var f := Update(sc, ds);
      (f.resolved <==> sc.frame >= MaxEnd(Ends(sc.queue)))
      && f.next.frame == (if f.resolved then sc.frame else sc.frame + 1)
      && |f.next.queue| == |sc.queue|
      && MaxEnd(Ends(f.next.queue)) == MaxEnd(Ends(sc.queue))
  {
    var e := Ends(sc.queue);
    UpdateKeepsQueue(sc, ds);
    if sc.frame < MaxEnd(e) {
      var i :| 0 <= i < |e| && e[i] == MaxEnd(e);
      assert !(sc.frame >= sc.queue[i].end);
    }
  }

  lemma ResolvesNow(sc: Scramble, draws: seq<seq<GlyphDraws>>)
    requires forall k :: 0 <= k < |draws| ==> |draws[k]| == |sc.queue|
    requires sc.frame == MaxEnd(Ends(sc.queue)) && |draws| > 0
    ensures UpdatesToResolve(sc, draws) == Some(1)
  {
    UpdateAgainstMaxEnd(sc, draws[0]);
  }

  lemma NotYet(sc: Scramble, draws: seq<seq<GlyphDraws>>)
    requires forall k :: 0 <= k < |draws| ==> |draws[k]| == |sc.queue|
    requires sc.frame < MaxEnd(Ends(sc.queue)) && |draws| > 0
    ensures var next := Update(sc, draws[0]).next;
      var rest := draws[1..];
      (forall k :: 0 <= k < |rest| ==> |rest[k]| == |next.queue|)
      && next.frame == sc.frame + 1
      && MaxEnd(Ends(next.queue)) == MaxEnd(Ends(sc.queue))
  {
    UpdateAgainstMaxEnd(sc, draws[0]);
    var rest := draws[1..];
    forall k | 0 <= k < |rest|
      ensures |rest[k]| == |sc.queue|
    {
      assert rest[k] == draws[k + 1];
    }
  }

  lemma NotYetCount(sc: Scramble, draws: seq<seq<GlyphDraws>>)
    requires forall k :: 0 <= k < |draws| ==> |draws[k]| == |sc.queue|
    requires sc.frame < MaxEnd(Ends(sc.queue)) && |draws| > 0
    requires forall k :: 0 <= k < |draws| - 1 ==> |draws[1..][k]| == |Update(sc, draws[0]).next.queue|
    ensures var r := UpdatesToResolve(Update(sc, draws[0]).next, draws[1..]);
      r.Some? ==> UpdatesToResolve(sc, draws) == Some(r.value + 1)
  {
    UpdateAgainstMaxEnd(sc, draws[0]);
  }

  lemma {:induction false} ResolvesAtMaxEnd(sc: Scramble, draws: seq<seq<GlyphDraws>>)
    requires forall k :: 0 <= k < |draws| ==> |draws[k]| == |sc.queue|
    requires sc.frame <= MaxEnd(Ends(sc.queue)) < sc.frame + |draws|
    ensures UpdatesToResolve(sc, draws) == Some(MaxEnd(Ends(sc.queue)) - sc.frame + 1)
    decreases |draws|
  {
    if sc.frame == MaxEnd(Ends(sc.queue)) {
      ResolvesNow(sc, draws);
    } else {
      var next, rest := Update(sc, draws[0]).next, draws[1..];
      NotYet(sc, draws);
      NotYetCount(sc, draws);
      ResolvesAtMaxEnd(next, rest);
      var n := UpdatesToResolve(next, rest);
      assert n == Some(MaxEnd(Ends(sc.queue)) - sc.frame);
    }
  }

  /** A scramble as `setText` leaves it: the frame counter reset and one
      fresh entry per position. */
  predicate Fresh(sc: Scramble, oldText: string, newText: string) {
    sc.frame == 0 && |sc.queue| == Max(|oldText|, |newText|)
    && forall i :: 0 <= i < |sc.queue| ==> FreshSlot(sc.queue[i], oldText, newText, i)
  }

  lemma SetTextIsFresh(oldText: string, newText: string, slotDraws: seq<SlotDraws>)
    requires |slotDraws| == Max(|oldText|, |newText|)
    ensures Fresh(SetText(oldText, newText, slotDraws), oldText, newText)
  {
  }

  /** Termination: from any scramble `setText` can produce, the promise
      resolves on update number `m + 1`, where `m` is the largest end
      frame, and that is at most the 79th update, whatever the draws. */
  lemma ScrambleTerminates(sc: Scramble, oldText: string, newText: string, draws: seq<seq<GlyphDraws>>)
    requires Fresh(sc, oldText, newText)
    requires |draws| >= 79 && forall k :: 0 <= k < |draws| ==> |draws[k]| == |sc.queue|
    ensures UpdatesToResolve(sc, draws) == Some(MaxEnd(Ends(sc.queue)) + 1)
    ensures MaxEnd(Ends(sc.queue)) + 1 <= 79
  {
    FreshEndsBounded(sc.queue, oldText, newText);
    ResolvesAtMaxEnd(sc, draws);
  }

  /** Every entry `setText` builds ends before frame 79. */
  lemma FreshEndsBounded(q: seq<Slot>, oldText: string, newText: string)
    requires forall i :: 0 <= i < |q| ==> FreshSlot(q[i], oldText, newText, i)
    ensures MaxEnd(Ends(q)) <= 78
  {
    var e := Ends(q);
    if |e| > 0 {
      var i :| 0 <= i < |e| && e[i] == MaxEnd(e);
      assert FreshSlot(q[i], oldText, newText, i);
    }
  }
}

/** `EnergyField`: 30 glowing particles drifting over a canvas, wrapping at
    its edges, respawning when their life runs out, joined by lines when
    close. */
module EnergyField {
  import opened Base
  import opened Field

  const Count: nat := 30

  datatype Mote = Mote(pos: Point, vel: Point, life: real, maxLife: real, size: real, hue: real, energy: real)

  datatype MoteDraws = MoteDraws(x: Draw, y: Draw, vx: Draw, vy: Draw, life: Draw, size: Draw, hue: Draw, energy: Draw)

  /** One particle of `createParticles()` on a `w` by `h` canvas. */
  function Spawn(w: nat, h: nat, d: MoteDraws): (m: Mote)
    ensures 0.0 <= m.pos.x <= w as real && 0.0 <= m.pos.y <= h as real
    ensures w > 0 ==> m.pos.x < w as real
    ensures h > 0 ==> m.pos.y < h as real
    ensures -1.0 <= m.vel.x < 1.0 && -1.0 <= m.vel.y < 1.0
    ensures 100.0 <= m.life < 200.0 && m.maxLife == 100.0
    ensures 1.0 <= m.size < 4.0 && 180.0 <= m.hue < 240.0 && 0.5 <= m.energy < 1.0
  {
    Mote(Point(Scale(d.x, w as real), Scale(d.y, h as real)), Point((d.vx - 0.5) * 2.0, (d.vy - 0.5) * 2.0),
      d.life * 100.0 + 100.0, 100.0, d.size * 3.0 + 1.0, d.hue * 60.0 + 180.0, d.energy * 0.5 + 0.5)
  }

  function CreateParticles(w: nat, h: nat, draws: seq<MoteDraws>): (ms: seq<Mote>)
    requires |draws| == Count
    ensures |ms| == Count && forall i :: 0 <= i < Count ==> ms[i] == Spawn(w, h, draws[i])
  {
    seq(Count, i requires 0 <= i < Count => Spawn(w, h, draws[i]))
  }

  /** One particle's update in `animate()`: move, age, wrap x then y, and
      respawn at a random point with full life once the life is used up.
      `rx` and `ry` are the respawn draws. */
  function Step(m: Mote, w: nat, h: nat, rx: Draw, ry: Draw): (r: Mote)
    ensures 0.0 <= r.pos.x <= w as real && 0.0 <= r.pos.y <= h as real
    ensures r.vel == m.vel && r.maxLife == m.maxLife && r.size == m.size && r.hue == m.hue && r.energy == m.energy
    ensures m.life - 1.0 > 0.0 ==>
      r.life == m.life - 1.0 && r.pos == Point(Wrap(m.pos.x + m.vel.x, w), Wrap(m.pos.y + m.vel.y, h))
    ensures m.life - 1.0 <= 0.0 ==> r.life == m.maxLife && r.pos == Point(Scale(rx, w as real), Scale(ry, h as real))
  {
    var moved := Point(Wrap(m.pos.x + m.vel.x, w), Wrap(m.pos.y + m.vel.y, h));
    var life := m.life - 1.0;
    if life <= 0.0 then m.(pos := Point(Scale(rx, w as real), Scale(ry, h as real)), life := m.maxLife)
    else m.(pos := moved, life := life)
  }

  datatype Respawn = Respawn(x: Draw, y: Draw)

  /** Successive updates of one particle. */
  function Run(m: Mote, w: nat, h: nat, draws: seq<Respawn>): (r: Mote)
    decreases |draws|
  {
    if draws == [] then m else Run(Step(m, w, h, draws[0].x, draws[0].y), w, h, draws[1..])
  }

  function MaxReal(a: real, b: real): real {
    if a < b then b else a
  }

  /** With a positive `maxLife` the life stays positive and falls by one
      per frame until it is at most `maxLife`, after which it stays so. */
  lemma {:induction false} RunLife(m: Mote, w: nat, h: nat, draws: seq<Respawn>)
    requires m.maxLife > 0.0 && m.life > 0.0
    ensures var r := Run(m, w, h, draws);
      r.maxLife == m.maxLife && r.energy == m.energy
      && 0.0 < r.life <= MaxReal(m.life - |draws| as real, m.maxLife)
    decreases |draws|
  {
    if draws != [] {
      var s := Step(m, w, h, draws[0].x, draws[0].y);
      assert s.life <= MaxReal(m.life - 1.0, m.maxLife);
      RunLife(s, w, h, draws[1..]);
    }
  }

  /** `particle.life / particle.maxLife * particle.energy`, the glow's
      alpha. */
  function Glow(m: Mote): real
    requires m.maxLife != 0.0
  {
    m.life / m.maxLife * m.energy
  }

  /** A freshly created particle starts with more life than `maxLife`, so
      its glow alpha can exceed 1; after 100 frames its life is at most
      `maxLife` for good and the alpha is at most its energy. */
  lemma LifeSettles(w: nat, h: nat, d: MoteDraws, draws: seq<Respawn>)
    requires |draws| >= 100
    ensures var r := Run(Spawn(w, h, d), w, h, draws);
      0.0 < r.life <= r.maxLife && 0.0 < Glow(r) <= r.energy < 1.0
  {
    var m := Spawn(w, h, d);
    RunLife(m, w, h, draws);
    var r := Run(m, w, h, draws);
    GlowBelowEnergy(r.life, r.energy);
  }

  lemma GlowBelowEnergy(life: real, energy: real)
    requires 0.0 < life <= 100.0 && 0.0 < energy
    ensures 0.0 < life / 100.0 * energy <= energy
  {
    var f := life / 100.0;
    assert 0.0 < f <= 1.0;
    var fe := f * energy;
    assert fe <= 1.0 * energy;
  }

  lemma SpawnCanOutliveMaxLife()
    ensures var m := Spawn(10, 10, MoteDraws(0.0, 0.0, 0.0, 0.0, 0.9, 0.0, 0.0, 0.9));
      m.life > m.maxLife && Glow(m) > 1.0
  {
  }

  /** The particle updates of one `animate()` frame. */
  function Frame(ms: seq<Mote>, w: nat, h: nat, draws: seq<Respawn>): (r: seq<Mote>)
    requires |draws| == |ms|
    ensures |r| == |ms|
    ensures forall i :: 0 <= i < |ms| ==> r[i] == Step(ms[i], w, h, draws[i].x, draws[i].y)
  {
    seq(|ms|, i requires 0 <= i < |ms| => Step(ms[i], w, h, draws[i].x, draws[i].y))
  }

  /** `drawConnections()` over the distance table of the updated particles:
      threshold 100, strongest alpha 0.3. */
  function Links(d: seq<seq<real>>, n: nat): seq<Link>
    requires IsTable(d, n)
  {
    Connections(d, n, 100.0, 0.3)
  }

  lemma LinksCorrect(d: seq<seq<real>>, ms: seq<Mote>)
    requires IsTableOf(d, Positions(ms, (p: Mote) => p.pos))
    ensures var r := Links(d, |ms|);
      Ordered(r)
      && (forall i: nat, j: nat :: Drawn(r, i, j) <==> i < j < |ms| && d[i][j] < 100.0)
      && (forall m :: 0 <= m < |r| ==> 0.0 < r[m].alpha <= 0.3)
  {
    ConnectionsCorrect(d, |ms|, 100.0, 0.3);
  }
}

/** `LiquidCursor`: the trail of recent pointer positions, at most 20. */
module LiquidCursor {
  import Field

  const MaxTrail: nat := 20

  datatype TrailPoint = TrailPoint(x: real, y: real, life: real, id: real)

  /** A `mousemove` sample: the position and the point's id
      (`Date.now() + Math.random()`). */
  datatype Sample = Sample(x: real, y: real, id: real)

  function Fresh(s: Sample): TrailPoint {
    TrailPoint(s.x, s.y, 1.0, s.id)
  }

  /** The last `n` elements of `s` (all of it when shorter). */
  function LastN<T>(s: seq<T>, n: nat): (r: seq<T>)
    ensures |r| == if |s| < n then |s| else n
  {
    if |s| <= n then s else s[|s| - n..]
  }

  /** `addTrailPoint(x, y)`: push a point with full life, then drop the
      oldest if the trail is over the limit. */
  function AddTrailPoint(trail: seq<TrailPoint>, s: Sample): (r: seq<TrailPoint>)
    requires |trail| <= MaxTrail
    ensures r == LastN(trail + [Fresh(s)], MaxTrail)
    ensures |r| > 0 && r[|r| - 1] == Fresh(s)
  {
    var t := trail + [Fresh(s)];
    if |t| > MaxTrail then t[1..] else t
  }

  function AddAll(trail: seq<TrailPoint>, ss: seq<Sample>): (r: seq<TrailPoint>)
    requires |trail| <= MaxTrail
    ensures |r| <= MaxTrail
    decreases |ss|
  {
    if ss == [] then trail else AddAll(AddTrailPoint(trail, ss[0]), ss[1..])
  }

  function Points(ss: seq<Sample>): (ps: seq<TrailPoint>)
    ensures |ps| == |ss| && forall i :: 0 <= i < |ss| ==> ps[i] == Fresh(ss[i])
  {
    seq(|ss|, i requires 0 <= i < |ss| => Fresh(ss[i]))
  }

  lemma LastNOfLastN<T>(s: seq<T>, x: T, n: nat)
    requires n > 0
    ensures LastN(LastN(s, n) + [x], n) == LastN(s + [x], n)
  {
  }

  /** However many samples arrive, the trail is exactly the 20 most recent
      points of the whole history, oldest first. */
  lemma {:induction false} TrailKeepsLatest(trail: seq<TrailPoint>, ss: seq<Sample>)
    requires |trail| <= MaxTrail
    ensures AddAll(trail, ss) == LastN(trail + Points(ss), MaxTrail)
    decreases |ss|
  {
    if ss == [] {
      assert trail + Points(ss) == trail;
    } else {
      var t := AddTrailPoint(trail, ss[0]);
      TrailKeepsLatest(t, ss[1..]);
      PointsCons(ss);
      LastNAppend(trail + [Fresh(ss[0])], Points(ss[1..]), MaxTrail);
      Field.AppendAssoc(trail, [Fresh(ss[0])], Points(ss[1..]));
    }
  }

  lemma PointsCons(ss: seq<Sample>)
    requires ss != []
    ensures Points(ss) == [Fresh(ss[0])] + Points(ss[1..])
  {
    assert forall i :: 0 <= i < |ss| - 1 ==> ss[1..][i] == ss[i + 1];
  }

  lemma LastNAppend<T>(s: seq<T>, t: seq<T>, n: nat)
    ensures LastN(LastN(s, n) + t, n) == LastN(s + t, n)
  {
    var a := LastN(s, n);
    if |s| > n {
      assert s + t == s[..|s| - n] + (a + t);
      assert (s + t)[|s + t| - (if |a + t| < n then |a + t| else n)..] == (a + t)[|a + t| - (if |a + t| < n then |a + t| else n)..];
    }
  }

  // ---------------------------------------------------------------------
  // The frame loop

  /** Every point still has life left. */
  predicate AllAlive(t: seq<TrailPoint>) {
    forall k :: 0 <= k < |t| ==> t[k].life > 0.0
  }

  /** One frame's fading of a point. */
  function Age(p: TrailPoint): (q: TrailPoint)
    ensures q.life == p.life - 0.05 && q.(life := p.life) == p
  {
    p.(life := p.life - 0.05)
  }

  /** The `forEach` of `animate()` from index `i` on, over an array that
      had `n` entries when the loop started. A visited point loses 0.05
      life and is spliced out at zero; the splice shifts its successor
      into the index just visited, so that successor is skipped this
      frame. Indices past the shrunk end are not visited. */
  function AnimateFrom(t: seq<TrailPoint>, i: nat, n: nat): (r: seq<TrailPoint>)
    ensures |r| <= |t|
    ensures AllAlive(t) ==> AllAlive(r)
    ensures i >= n || i >= |t| ==> r == t
    decreases n - i
  {
    if i >= n || i >= |t| then t
    else
      var p := Age(t[i]);
      if p.life <= 0.0 then AnimateFrom(t[..i] + t[i + 1..], i + 1, n)
      else AnimateFrom(t[i := p], i + 1, n)
  }

  /** `animate()`: one frame over the whole trail. */
  function Animate(t: seq<TrailPoint>): (r: seq<TrailPoint>)
    ensures |r| <= |t|
    ensures AllAlive(t) ==> AllAlive(r)
  {
    AnimateFrom(t, 0, |t|)
  }

  /** Every point aged by one frame. */
  function AgedAll(t: seq<TrailPoint>): (r: seq<TrailPoint>)
    ensures |r| == |t| && forall k :: 0 <= k < |t| ==> r[k] == Age(t[k])
  {
    seq(|t|, k requires 0 <= k < |t| => Age(t[k]))
  }

  /** While no point reaches zero life, a frame ages every point and
      removes none. */
  lemma {:induction false} AnimateAgesAll(t: seq<TrailPoint>)
    requires forall k :: 0 <= k < |t| ==> t[k].life > 0.05
    ensures Animate(t) == AgedAll(t)
  {
    AgesFrom(t, 0);
    assert t[..0] + AgedAll(t[0..]) == AgedAll(t);
  }

  lemma {:induction false} AgesFrom(t: seq<TrailPoint>, i: nat)
    requires i <= |t|
    requires forall k :: i <= k < |t| ==> t[k].life > 0.05
    ensures AnimateFrom(t, i, |t|) == t[..i] + AgedAll(t[i..])
    decreases |t| - i
  {
    if i == |t| {
      assert t[..i] + AgedAll(t[i..]) == t;
    } else {
      var u := t[i := Age(t[i])];
      assert Age(t[i]).life > 0.0;
      AgesFrom(u, i + 1);
      assert u[..i + 1] + AgedAll(u[i + 1..]) == t[..i] + AgedAll(t[i..]);
    }
  }

  /** The skip, on the smallest trail that shows it: the first point
      expires and is spliced out, and the second is not aged that frame. */
  lemma RemovalSkipsNext()
    ensures var a := TrailPoint(0.0, 0.0, 0.05, 0.0);
      var b := TrailPoint(1.0, 1.0, 1.0, 1.0);
      Animate([a, b]) == [b] && Animate([b]) == [Age(b)]
  {
    var a := TrailPoint(0.0, 0.0, 0.05, 0.0);
    var b := TrailPoint(1.0, 1.0, 1.0, 1.0);
    assert [a, b][..0] + [a, b][1..] == [b];
  }

  /** What reaches the trail: a `mousemove` sample or an animation frame. */
  datatype Event = Move(s: Sample) | Tick

  function Run(t: seq<TrailPoint>, es: seq<Event>): (r: seq<TrailPoint>)
    requires |t| <= MaxTrail
    ensures |r| <= MaxTrail
    decreases |es|
  {
    if es == [] then t
    else
      var next := match es[0]
        case Move(s) => AddTrailPoint(t, s)
        case Tick => Animate(t);
      Run(next, es[1..])
  }

  /** However moves and frames interleave, the trail holds at most 20
      points and only points with life left. */
  lemma {:induction false} RunKeepsTrailAlive(t: seq<TrailPoint>, es: seq<Event>)
    requires |t| <= MaxTrail && AllAlive(t)
    ensures AllAlive(Run(t, es))
    decreases |es|
  {
    if es != [] {
      var next := match es[0]
        case Move(s) => AddTrailPoint(t, s)
        case Tick => Animate(t);
      if es[0].Move? {
        var s := es[0].s;
        assert next == LastN(t + [Fresh(s)], MaxTrail);
        assert forall k :: 0 <= k < |t + [Fresh(s)]| ==> (t + [Fresh(s)])[k].life > 0.0;
      }
      RunKeepsTrailAlive(next, es[1..]);
    }
  }
}

/** `MorphingLoader`: cycles an element's clip path through four shapes,
    one per second. */
module MorphingLoader {

  const Shapes: seq<string> := [
    "circle(50% at 50% 50%)",
    "polygon(50% 0%, 0% 100%, 100% 100%)",
    "polygon(25% 0%, 75% 0%, 100% 50%, 75% 100%, 25% 100%, 0% 50%)",
    "polygon(50% 0%, 100% 50%, 50% 100%, 0% 50%)"]

  datatype Loader = Loader(current: nat, clipPath: string)

  predicate Valid(l: Loader) {
    l.current < |Shapes| && l.clipPath == Shapes[l.current]
  }

  /** The constructor and `init()`. */
  function Init(): (l: Loader)
    ensures Valid(l) && l.current == 0
  {
    Loader(0, Shapes[0])
  }

  /** One tick of the `setInterval` in `morph()`. */
  function Morph(l: Loader): (r: Loader)
    requires Valid(l)
    ensures Valid(r)
    ensures r.current == (l.current + 1) % 4
  {
    var c := if l.current + 1 == |Shapes| then 0 else l.current + 1;
    Loader(c, Shapes[c])
  }

  function Ticks(l: Loader, k: nat): (r: Loader)
    requires Valid(l)
    ensures Valid(r)
    decreases k
  {
    if k == 0 then l else Ticks(Morph(l), k - 1)
  }

  /** Four morphs bring any valid loader back to its shape. */
  lemma FourMorphsReturn(l: Loader)
    requires Valid(l)
    ensures Morph(Morph(Morph(Morph(l)))) == l
  {
    assert l.current == 0 || l.current == 1 || l.current == 2 || l.current == 3;
  }

  /** `a + b` ticks are `a` ticks followed by `b` ticks. */
  lemma {:induction false} TicksAdd(l: Loader, a: nat, b: nat)
    requires Valid(l)
    ensures Ticks(l, a + b) == Ticks(Ticks(l, a), b)
    decreases a
  {
    if a > 0 {
      var m := Morph(l);
      TicksAdd(m, a - 1, b);
      assert Ticks(l, a + b) == Ticks(m, (a - 1) + b);
      assert Ticks(l, a) == Ticks(m, a - 1);
    }
  }

  /** The shapes repeat with period four: four more ticks land on the
      same shape. */
  lemma TicksCycle(l: Loader, k: nat)
    requires Valid(l)
    ensures Ticks(l, k + 4) == Ticks(l, k)
  {
    var m1 := Morph(l);
    var m2 := Morph(m1);
    var m3 := Morph(m2);
    var m4 := Morph(m3);
    FourMorphsReturn(l);
    TicksAdd(l, 1, k + 3);
    TicksAdd(m1, 1, k + 2);
    TicksAdd(m2, 1, k + 1);
    TicksAdd(m3, 1, k);
    assert Ticks(l, k + 4) == Ticks(m4, k);
  }
}
