/** The application controller: performance detection, the boot sequence,
    throttled window listeners, the navbar's scroll effect, per-field
    validation, the resize handler and the keyboard shortcuts. */
module App {
  import opened Base
  import opened Text
  import FormValidator

  // ---------------------------------------------------------------- performance

  datatype Mode = Low | Medium | Mobile | High

  /** `navigator.hardwareConcurrency || 4` and `navigator.deviceMemory || 4`:
      an absent or zero value counts as 4. */
  function OrFour(v: Option<real>): (r: real)
    ensures v.None? || v.value == 0.0 ==> r == 4.0
    ensures v.Some? && v.value != 0.0 ==> r == v.value
  {
    if v.None? || v.value == 0.0 then 4.0 else v.value
  }

  /** `detectPerformance()`. `effectiveType` is `None` when the browser has
      no connection API; `cores` and `memory` are `None` when undefined. */
  function DetectPerformance(effectiveType: Option<string>, cores: Option<real>, memory: Option<real>, width: int): (m: Mode)
    ensures m == Low <==> effectiveType == Some("slow-2g")
    ensures m == Medium <==> effectiveType != Some("slow-2g") && (OrFour(cores) < 4.0 || OrFour(memory) < 4.0)
    ensures m == Mobile <==> effectiveType != Some("slow-2g") && OrFour(cores) >= 4.0 && OrFour(memory) >= 4.0 && width < 768
    ensures m == High <==> effectiveType != Some("slow-2g") && OrFour(cores) >= 4.0 && OrFour(memory) >= 4.0 && width >= 768
  {
    if effectiveType == Some("slow-2g") then Low
    else if OrFour(cores) < 4.0 || OrFour(memory) < 4.0 then Medium
    else if width < 768 then Mobile
    else High
  }

  /** How long the loading screen stays before it fades (milliseconds). */
  function LoadingTime(m: Mode): (ms: nat)
    ensures ms == 1000 || ms == 1500
  {
    if m == Low then 1000 else 1500
  }

  /** `initializeComponents` starts the particle background unless the
      mode is low. */
  predicate ParticlesEnabled(m: Mode) {
    m != Low
  }

  /** Only a `slow-2g` connection shortens the loading screen and switches
      the particles off; missing hardware information never lowers the
      mode below mobile. */
  lemma PerformanceGates(effectiveType: Option<string>, cores: Option<real>, memory: Option<real>, width: int)
    ensures var m := DetectPerformance(effectiveType, cores, memory, width);
      (LoadingTime(m) == 1000 <==> effectiveType == Some("slow-2g"))
      && (ParticlesEnabled(m) <==> effectiveType != Some("slow-2g"))
    ensures effectiveType != Some("slow-2g") ==>
      DetectPerformance(effectiveType, None, None, width) in {Mobile, High}
  {
  }

  // ---------------------------------------------------------------- throttle

  /** The state a `throttle(func, limit)` wrapper closes over. */
  datatype Throttle = Throttle(inThrottle: bool)

  datatype Call = Call(executed: bool, next: Throttle)

  /** A call of the wrapper: it runs `func` only when not throttled, and
      is throttled afterwards in any case. */
  function Invoke(t: Throttle): (c: Call)
    ensures c.executed <==> !t.inThrottle
    ensures c.next.inThrottle
  {
    Call(!t.inThrottle, Throttle(true))
  }

  /** The wrapper's `setTimeout` firing `limit` ms after an execution. */
  function Expire(t: Throttle): (r: Throttle)
    ensures !r.inThrottle
  {
    Throttle(false)
  }

  datatype ThrottleEvent = Invoked | Expired

  function CountExpired(events: seq<ThrottleEvent>): (n: nat)
    ensures n <= |events|
  {
    if events == [] then 0 else (if events[0] == Expired then 1 else 0) + CountExpired(events[1..])
  }

  /** Number of executions of `func` along a sequence of events. */
  function Executions(t: Throttle, events: seq<ThrottleEvent>): nat
    decreases |events|
  {
    if events == [] then 0
    else if events[0] == Expired then Executions(Expire(t), events[1..])
    else var c := Invoke(t); (if c.executed then 1 else 0) + Executions(c.next, events[1..])
  }

  /** However often the wrapped listener fires, `func` runs at most once
      per timer expiry, plus once at the start. */
  lemma {:induction false} ThrottleBound(t: Throttle, events: seq<ThrottleEvent>)
    ensures Executions(t, events) <= (if t.inThrottle then 0 else 1) + CountExpired(events)
    decreases |events|
  {
    if events != [] {
      if events[0] == Expired {
        ThrottleBound(Expire(t), events[1..]);
      } else {
        ThrottleBound(Invoke(t).next, events[1..]);
      }
    }
  }

  /** The limits the two window listeners are throttled with (ms). */
  const ScrollLimit: nat := 16
  const ResizeLimit: nat := 100

  // ---------------------------------------------------------------- navbar

  /** The navbar's classes and the `lastScrollY` its handler closes over:
      `scrolled` is the `scrolled` class, `hidden` the translate of -100%. */
  datatype Navbar = Navbar(scrolled: bool, hidden: bool, lastScrollY: real)

  /** `initNavbarEffects` starts from the current scroll offset. */
  function NavbarAt(scrollY: real): (n: Navbar)
    ensures n.lastScrollY == scrollY && !n.hidden && !n.scrolled
  {
    Navbar(false, false, scrollY)
  }

  /** The navbar scroll handler for the offset `y`. */
  function NavbarScroll(n: Navbar, y: real): (r: Navbar)
    ensures r.scrolled <==> y > 50.0
    ensures r.hidden <==> y > n.lastScrollY && y > 100.0
    ensures r.lastScrollY == y
  {
    Navbar(y > 50.0, y > n.lastScrollY && y > 100.0, y)
  }

  /** A hidden navbar is always marked scrolled, scrolling up always brings
      it back, and a repeated event at the same offset shows it. */
  lemma NavbarDirection(n: Navbar, y: real, y': real)
    ensures NavbarScroll(n, y).hidden ==> NavbarScroll(n, y).scrolled
    ensures y' <= y ==> !NavbarScroll(NavbarScroll(n, y), y').hidden
    ensures y' > y && y' > 100.0 ==> NavbarScroll(NavbarScroll(n, y), y').hidden
  {
  }

  // ---------------------------------------------------------------- boot wiring

  /** What `this.onScroll` refers to: the bound no-op method, or the
      closure `initNavbarEffects` assigns. */
  datatype Handler = NoOp | NavbarEffect

  /** `onScroll` is the property's current value, `listener` what the
      window's scroll listener calls (none before DOM ready), and `navbar`
      the navbar closure's state once assigned. */
  datatype Wiring = Wiring(onScroll: Handler, listener: Option<Handler>, navbar: Option<Navbar>)

  const Constructed := Wiring(NoOp, None, None)

  /** `onDOMReady`: `throttle(this.onScroll, 16)` is evaluated here, so the
      listener keeps the handler the property holds at this moment. */
  function DomReady(w: Wiring): (r: Wiring)
    ensures r.listener == Some(w.onScroll)
    ensures r.onScroll == w.onScroll && r.navbar == w.navbar
  {
    w.(listener := Some(w.onScroll))
  }

  /** `onLoadingComplete`: `initNavbarEffects` replaces `this.onScroll` when
      the navbar element exists. */
  function LoadingComplete(w: Wiring, navbarPresent: bool, scrollY: real): (r: Wiring)
    ensures navbarPresent ==> r.onScroll == NavbarEffect && r.navbar == Some(NavbarAt(scrollY))
    ensures !navbarPresent ==> r == w
    ensures r.listener == w.listener
  {
    if navbarPresent then w.(onScroll := NavbarEffect, navbar := Some(NavbarAt(scrollY))) else w
  }

  /** `init()`: with a loading screen, loading completes after DOM ready
      (1000 or 1500 ms plus a 300 ms fade); without one, it completes
      synchronously before DOM ready is handled. */
  function Boot(loadingScreen: bool, navbarPresent: bool, scrollY: real): Wiring {
    if loadingScreen then LoadingComplete(DomReady(Constructed), navbarPresent, scrollY)
    else DomReady(LoadingComplete(Constructed, navbarPresent, scrollY))
  }

  /** A scroll event as written: the listener calls the handler it
      captured. */
  function Scroll(w: Wiring, y: real): (r: Wiring)
    ensures w.listener == Some(NavbarEffect) && w.navbar.Some? ==> r.navbar == Some(NavbarScroll(w.navbar.value, y))
    ensures !(w.listener == Some(NavbarEffect) && w.navbar.Some?) ==> r == w
  {
    if w.listener == Some(NavbarEffect) && w.navbar.Some? then w.(navbar := Some(NavbarScroll(w.navbar.value, y))) else w
  }

  /** As written, on a page with a loading screen the scroll listener is
      registered while `this.onScroll` is still the no-op, so no scroll
      event ever reaches the navbar; without a loading screen it works. */
  lemma NavbarEffectLostWithLoadingScreen(scrollY: real, y: real)
    ensures Scroll(Boot(true, true, scrollY), y) == Boot(true, true, scrollY)
    ensures !Scroll(Boot(true, true, scrollY), y).navbar.value.scrolled
    ensures Scroll(Boot(false, true, scrollY), y).navbar == Some(NavbarScroll(NavbarAt(scrollY), y))
  {
  }

  /** The evident intent: the listener looks `this.onScroll` up when the
      event fires, as in `throttle(() => this.onScroll(), 16)`. */
  function ScrollLateBound(w: Wiring, y: real): (r: Wiring)
    ensures w.listener.Some? && w.onScroll == NavbarEffect && w.navbar.Some? ==> r.navbar == Some(NavbarScroll(w.navbar.value, y))
    ensures !(w.listener.Some? && w.onScroll == NavbarEffect && w.navbar.Some?) ==> r == w
  {
    if w.listener.Some? && w.onScroll == NavbarEffect && w.navbar.Some? then w.(navbar := Some(NavbarScroll(w.navbar.value, y))) else w
  }

  /** With late binding the navbar reacts to scrolling whether or not the
      page has a loading screen. */
  lemma NavbarEffectLateBound(loadingScreen: bool, scrollY: real, y: real)
    ensures ScrollLateBound(Boot(loadingScreen, true, scrollY), y).navbar == Some(NavbarScroll(NavbarAt(scrollY), y))
    ensures ScrollLateBound(Boot(loadingScreen, true, scrollY), y).navbar.value.scrolled <==> y > 50.0
  {
  }

  // ---------------------------------------------------------------- field validation

  /** The rule `validateField` applies to a field, by the field's name, to
      the trimmed value; other names have no rule. */
  function FieldProblem(fieldName: string, value: string): (e: Option<FormValidator.FormError>)
    ensures fieldName !in {"name", "email", "subject", "message"} ==> e.None?
  {
    var v := Trim(value);
    if fieldName == "name" then (if |v| < 2 then Some(FormValidator.NameTooShort) else None)
    else if fieldName == "email" then (if !FormValidator.ValidateEmail(v) then Some(FormValidator.InvalidEmail) else None)
    else if fieldName == "subject" then (if |v| < 5 then Some(FormValidator.SubjectTooShort) else None)
    else if fieldName == "message" then (if |v| < 10 then Some(FormValidator.MessageTooShort) else None)
    else None
  }

  /** The field's form group: the `error` class and the `.field-error`
      element with its message. */
  datatype FieldView = FieldView(errorClass: bool, errorText: Option<FormValidator.FormError>)

  datatype FieldResult = FieldResult(valid: bool, view: FieldView)

  /** `validateField(field)`: the verdict, and the form group showing the
      error exactly when the field is invalid. */
  function ValidateField(fieldName: string, value: string): (r: FieldResult)
    ensures r.valid <==> FieldProblem(fieldName, value).None?
    ensures r.view.errorClass <==> !r.valid
    ensures r.view.errorText == FieldProblem(fieldName, value)
  {
    var p := FieldProblem(fieldName, value);
    FieldResult(p.None?, FieldView(p.Some?, p))
  }

  /** Checking the name, subject or message on its own agrees with the
      submit-time check of the whole form. */
  lemma NameFieldAgreesWithForm(v: string, f: FormValidator.FormData)
    ensures ValidateField("name", v).valid <==> FormValidator.NameTooShort !in FormValidator.ValidateForm(f.(name := Some(v)))
  {
  }

  lemma SubjectFieldAgreesWithForm(v: string, f: FormValidator.FormData)
    ensures ValidateField("subject", v).valid <==> FormValidator.SubjectTooShort !in FormValidator.ValidateForm(f.(subject := Some(v)))
  {
  }

  lemma MessageFieldAgreesWithForm(v: string, f: FormValidator.FormData)
    ensures ValidateField("message", v).valid <==> FormValidator.MessageTooShort !in FormValidator.ValidateForm(f.(message := Some(v)))
  {
    var m := "message";
    assert m != "name" && m != "email" && m != "subject" by {
      assert m[0] == 'm';
    }
    assert FieldProblem(m, v).None? <==> |Trim(v)| >= 10;
  }

  /** For the e-mail the field check trims the value first and the form
      check does not: they agree on the trimmed value. */
  lemma EmailFieldAgreesWithTrimmedForm(v: string, f: FormValidator.FormData)
    ensures ValidateField("email", v).valid <==> FormValidator.InvalidEmail !in FormValidator.ValidateForm(f.(email := Some(Trim(v))))
  {
  }

  lemma TrimLeadingSpace()
    ensures Trim(" a@b.co") == "a@b.co"
  {
    var s := " a@b.co";
    assert SkipSpace(s, 0) == 1;
    assert SkipSpaceBack(s, 1, |s|) == |s|;
    assert s[1..|s|] == "a@b.co";
  }

  lemma SampleAddressIsValid()
    ensures FormValidator.ValidateEmail("a@b.co")
  {
    var t := "a@b.co";
    assert t[..1] == "a" && t[2..3] == "b" && t[4..] == "co";
    FormValidator.FirstAtSplitIsPattern(t, 1) by {
      assert t[1 + 1..][1] == '.';
    }
  }

  lemma SpacedAddressIsInvalid()
    ensures !FormValidator.ValidateEmail(" a@b.co")
  {
    var s := " a@b.co";
    assert FormValidator.Find(s, '@', 0) == Some(2);
    assert s[..2][0] == ' ';
  }

  /** An address typed with a leading space passes the field check on blur
      but fails the form check on submit. */
  lemma EmailSpaceDisagreement(f: FormValidator.FormData)
    ensures ValidateField("email", " a@b.co").valid
    ensures FormValidator.InvalidEmail in FormValidator.ValidateForm(f.(email := Some(" a@b.co")))
  {
    TrimLeadingSpace();
    SampleAddressIsValid();
    SpacedAddressIsInvalid();
  }

  // ---------------------------------------------------------------- resize

  datatype NavMenu = NavMenu(active: bool, ariaHidden: bool)
  datatype Hamburger = Hamburger(active: bool, ariaExpanded: bool)

  /** The parts of the page `onResize` touches; `particleCount` is the
      particles.js particle number when that library has started. */
  datatype Page = Page(navMenu: Option<NavMenu>, hamburger: Option<Hamburger>, particleCount: Option<int>)

  datatype Resized = Resized(page: Page, refreshed: bool)

  /** `onResize()` for the window width `width`. */
  function OnResize(p: Page, width: int): (r: Resized)
    ensures r.page.navMenu.Some? <==> p.navMenu.Some?
    ensures r.page.hamburger.Some? <==> p.hamburger.Some?
    // a desktop width closes the mobile menu
    ensures width > 768 && p.navMenu.Some? ==> r.page.navMenu == Some(NavMenu(false, true))
    ensures width > 768 && p.hamburger.Some? ==> r.page.hamburger == Some(Hamburger(false, false))
    ensures width <= 768 ==> r.page.navMenu == p.navMenu && r.page.hamburger == p.hamburger
    // a mobile width caps the particle count at 15, refreshing only on change
    ensures r.page.particleCount.Some? <==> p.particleCount.Some?
    ensures r.refreshed <==> width < 768 && p.particleCount.Some? && p.particleCount.value > 15
    ensures r.refreshed ==> r.page.particleCount == Some(15)
    ensures !r.refreshed ==> r.page.particleCount == p.particleCount
  {
    var menu := if width > 768 && p.navMenu.Some? then Some(NavMenu(false, true)) else p.navMenu;
    var burger := if width > 768 && p.hamburger.Some? then Some(Hamburger(false, false)) else p.hamburger;
    var cap := width < 768 && p.particleCount.Some? && p.particleCount.value > 15;
    Resized(Page(menu, burger, if cap then Some(15) else p.particleCount), cap)
  }

  /** Handling the same width twice changes nothing more and never
      refreshes the particles again; at exactly 768 pixels neither branch
      applies. */
  lemma ResizeIdempotent(p: Page, width: int)
    ensures OnResize(OnResize(p, width).page, width).page == OnResize(p, width).page
    ensures !OnResize(OnResize(p, width).page, width).refreshed
    ensures OnResize(p, 768) == Resized(p, false)
  {
  }

  // ---------------------------------------------------------------- shortcuts

  datatype Shortcut = NoShortcut | ScrollTo(section: string) | FocusFirstInput

  /** The `keydown` handler: `tagName` is the event target's tag, `key` the
      event's key. Every result other than `NoShortcut` prevents the
      default action. */
  function KeyShortcut(tagName: string, key: string): (a: Shortcut)
    ensures tagName == "INPUT" || tagName == "TEXTAREA" ==> a == NoShortcut
    ensures a.ScrollTo? ==> a.section in {"home", "skills", "projects", "contact"}
    ensures tagName != "INPUT" && tagName != "TEXTAREA" ==>
      (a == ScrollTo("home") <==> Lower(key) == "h")
      && (a == ScrollTo("skills") <==> Lower(key) == "s")
      && (a == ScrollTo("projects") <==> Lower(key) == "p")
      && (a == ScrollTo("contact") <==> Lower(key) == "c")
      && (a == FocusFirstInput <==> Lower(key) == "/")
      && (a == NoShortcut <==> Lower(key) !in {"h", "s", "p", "c", "/"})
  {
    if tagName == "INPUT" || tagName == "TEXTAREA" then NoShortcut
    else
      var k := Lower(key);
      if k == "h" then ScrollTo("home")
      else if k == "s" then ScrollTo("skills")
      else if k == "p" then ScrollTo("projects")
      else if k == "c" then ScrollTo("contact")
      else if k == "/" then FocusFirstInput
      else NoShortcut
  }

  lemma LowerIdempotent(s: string)
    ensures Lower(Lower(s)) == Lower(s)
  {
  }

  /** The shortcuts ignore the letter case, and outside text inputs each of
      the five keys, in either case, has its action. */
  lemma ShortcutsIgnoreCase(tagName: string, key: string)
    ensures KeyShortcut(tagName, key) == KeyShortcut(tagName, Lower(key))
    ensures tagName != "INPUT" && tagName != "TEXTAREA" ==>
      KeyShortcut(tagName, "H") == ScrollTo("home") && KeyShortcut(tagName, "s") == ScrollTo("skills")
      && KeyShortcut(tagName, "P") == ScrollTo("projects") && KeyShortcut(tagName, "c") == ScrollTo("contact")
      && KeyShortcut(tagName, "/") == FocusFirstInput
  {
    LowerIdempotent(key);
    assert Lower("H") == "h" && Lower("s") == "s" && Lower("P") == "p" && Lower("c") == "c" && Lower("/") == "/";
  }
}
