/** The pure logic of the card renderer and the form validator: mastery
    levels and skill filtering, difficulty stars and featured-first project
    ordering, the typing animation's step, and the contact-form checks.
    The HTML templates themselves are not modelled. */

/** Skill cards: the mastery classification and the category filter. */
module Skills {

  datatype Mastery = Intermediate | Proficient | Advanced | Expert

  /** Position of a mastery level in the order of the thresholds. */
  function Rank(m: Mastery): nat {
    match m
    case Intermediate => 0
    case Proficient => 1
    case Advanced => 2
    case Expert => 3
  }

  /** The `masteryLevel` a card shows for a skill's `level`: a total
      classification by the thresholds 90, 80 and 70. */
  function MasteryLevel(level: int): (m: Mastery)
    ensures m == Expert <==> 90 <= level
    ensures m == Advanced <==> 80 <= level < 90
    ensures m == Proficient <==> 70 <= level < 80
    ensures m == Intermediate <==> level < 70
  {
    if level >= 90 then Expert
    else if level >= 80 then Advanced
    else if level >= 70 then Proficient
    else Intermediate
  }

  /** A higher level never gets a lower mastery. */
  lemma MasteryMonotone(a: int, b: int)
    requires a <= b
    ensures Rank(MasteryLevel(a)) <= Rank(MasteryLevel(b))
  {
  }

  /** A card's `data-category` is the category of the skill it shows. */
  datatype Card = Card(category: string)

  /** `filterSkills(category)`: for each card, whether it is shown. */
  function FilterSkills(category: string, cards: seq<Card>): (shown: seq<bool>)
    ensures |shown| == |cards|
    ensures forall i :: 0 <= i < |cards| ==> (shown[i] <==> category == "all" || cards[i].category == category)
  {
    seq(|cards|, i requires 0 <= i < |cards| => category == "all" || cards[i].category == category)
  }

  /** The filter buttons partition the cards: `"all"` shows every card, a
      card's own category shows it, and two different categories other
      than `"all"` never show the same card. */
  lemma FilterPartitions(c1: string, c2: string, cards: seq<Card>, i: nat)
    requires i < |cards|
    ensures FilterSkills("all", cards)[i]
    ensures FilterSkills(cards[i].category, cards)[i]
    ensures c1 != c2 && c1 != "all" && c2 != "all" ==> !(FilterSkills(c1, cards)[i] && FilterSkills(c2, cards)[i])
  {
  }
}

/** Project cards: difficulty stars and the featured-first order. */
module Projects {
  import opened Base
  import Text

  datatype Project = Project(title: string, featured: bool, difficulty: Option<int>)

  const Star: char := '\U{2605}'

  /** `'★'.repeat(project.difficulty || 3)`: a missing or zero difficulty
      shows three stars; a negative one makes `repeat` throw a RangeError,
      modelled as `None`. */
  function DifficultyStars(difficulty: Option<int>): (r: Option<string>)
    ensures (difficulty.None? || difficulty.value == 0) ==> r.Some? && |r.value| == 3
    ensures difficulty.Some? && difficulty.value > 0 ==> r.Some? && |r.value| == difficulty.value
    ensures difficulty.Some? && difficulty.value < 0 ==> r.None?
    ensures r.Some? ==> forall k :: 0 <= k < |r.value| ==> r.value[k] == Star
  {
    var count := if difficulty.None? || difficulty.value == 0 then 3 else difficulty.value;
    if count < 0 then None else Some(Text.Repeat(Star, count))
  }

  /** The projects whose `featured` flag equals `want`, in their order. */
  function Filter(ps: seq<Project>, want: bool): (r: seq<Project>)
    ensures |r| <= |ps|
    ensures forall k :: 0 <= k < |r| ==> r[k].featured == want
  {
    if ps == [] then []
    else (if ps[0].featured == want then [ps[0]] else []) + Filter(ps[1..], want)
  }

  /** The order `renderProjects` lays the cards out in. */
  function RenderOrder(ps: seq<Project>): seq<Project> {
    Filter(ps, true) + Filter(ps, false)
  }

  /** `renderProjects()`: nothing is rendered when the grid element or the
      data is missing. */
  function RenderProjects(gridPresent: bool, data: Option<seq<Project>>): (r: Option<seq<Project>>)
    ensures r.Some? <==> gridPresent && data.Some?
    ensures r.Some? ==> r.value == RenderOrder(data.value)
  {
    if !gridPresent || data.None? then None else Some(RenderOrder(data.value))
  }

  predicate FeaturedFirst(r: seq<Project>) {
    forall i, j :: 0 <= i < j < |r| && r[j].featured ==> r[i].featured
  }

  lemma {:induction false} FilterSplitsMultiset(ps: seq<Project>)
    ensures multiset(Filter(ps, true)) + multiset(Filter(ps, false)) == multiset(ps)
  {
    if ps != [] {
      var h, t := ps[0], ps[1..];
      FilterSplitsMultiset(t);
      var yes: seq<Project> := if h.featured then [h] else [];
      var no: seq<Project> := if h.featured then [] else [h];
      assert Filter(ps, true) == yes + Filter(t, true);
      assert Filter(ps, false) == no + Filter(t, false);
      assert ps == [h] + t;
      SplitHead(ps, h, t, yes, no, Filter(t, true), Filter(t, false));
    }
  }

  /** The head goes to one side; the splits of the tail add up. */
  lemma SplitHead<T>(ps: seq<T>, h: T, t: seq<T>, yes: seq<T>, no: seq<T>, ft: seq<T>, ff: seq<T>)
    requires ps == [h] + t
    requires (yes == [h] && no == []) || (yes == [] && no == [h])
    requires multiset(ft) + multiset(ff) == multiset(t)
    ensures multiset(yes + ft) + multiset(no + ff) == multiset(ps)
  {
  }

  lemma {:induction false} FilterAppend(a: seq<Project>, b: seq<Project>, want: bool)
    ensures Filter(a + b, want) == Filter(a, want) + Filter(b, want)
  {
    if a != [] {
      assert (a + b)[1..] == a[1..] + b;
      FilterAppend(a[1..], b, want);
    } else {
      assert a + b == b;
    }
  }

  lemma {:induction false} FilterAllOrNothing(ps: seq<Project>, want: bool)
    ensures (forall k :: 0 <= k < |ps| ==> ps[k].featured == want) ==> Filter(ps, want) == ps
    ensures (forall k :: 0 <= k < |ps| ==> ps[k].featured != want) ==> Filter(ps, want) == []
  {
    if ps != [] {
      FilterAllOrNothing(ps[1..], want);
      assert ps == [ps[0]] + ps[1..];
    }
  }

  /** The rendered order is a permutation of the data. */
  lemma RenderIsPermutation(ps: seq<Project>)
    ensures multiset(RenderOrder(ps)) == multiset(ps)
  {
    FilterSplitsMultiset(ps);
  }

  /** Every featured project precedes every other one. */
  lemma RenderIsFeaturedFirst(ps: seq<Project>)
    ensures FeaturedFirst(RenderOrder(ps))
  {
    var f, o := Filter(ps, true), Filter(ps, false);
    var r: seq<Project> := f + o;
    forall i, j | 0 <= i < j < |r|
      ensures r[j].featured ==> r[i].featured
    {
      if i < |f| {
        assert r[i] == f[i];
      } else {
        assert r[j] == o[j - |f|];
      }
    }
  }

  /** Each group keeps its relative order: the partition is stable. */
  lemma RenderIsStable(ps: seq<Project>, want: bool)
    ensures Filter(RenderOrder(ps), want) == Filter(ps, want)
  {
    var f, o := Filter(ps, true), Filter(ps, false);
    FilterAppend(f, o, want);
    FilterAllOrNothing(f, want);
    FilterAllOrNothing(o, want);
  }

  lemma {:induction false} FeaturedFirstSplits(r: seq<Project>)
    requires FeaturedFirst(r)
    ensures r == Filter(r, true) + Filter(r, false)
  {
    if r != [] {
      if r[0].featured {
        assert FeaturedFirst(r[1..]);
        FeaturedFirstSplits(r[1..]);
      } else {
        assert forall k :: 0 <= k < |r| ==> !r[k].featured;
        FilterAllOrNothing(r, true);
        FilterAllOrNothing(r, false);
      }
    }
  }

  /** The stable partition is unique: any arrangement that puts featured
      projects first and keeps each group's order is the rendered one. */
  lemma StablePartitionIsUnique(ps: seq<Project>, r: seq<Project>)
    requires FeaturedFirst(r)
    requires Filter(r, true) == Filter(ps, true) && Filter(r, false) == Filter(ps, false)
    ensures r == RenderOrder(ps)
  {
    FeaturedFirstSplits(r);
  }
}

/** `TypingAnimation`: types a word one character at a time, waits, deletes
    it, and moves on to the next word, cyclically. */
module Typing {
  import opened Base

  datatype Options = Options(typeSpeed: int, deleteSpeed: int, delayBetweenWords: int)

  /** The constructor's options object: `typeSpeed: options.typeSpeed || 100`
      and so on, followed by `...options`, so a key the caller passes always
      wins (even a falsy one) and only an absent key takes the default. */
  function ResolveOptions(typeSpeed: Option<int>, deleteSpeed: Option<int>, delay: Option<int>): (o: Options)
    ensures o.typeSpeed == (if typeSpeed.Some? then typeSpeed.value else 100)
    ensures o.deleteSpeed == (if deleteSpeed.Some? then deleteSpeed.value else 50)
    ensures o.delayBetweenWords == (if delay.Some? then delay.value else 2000)
  {
    Options(
      match typeSpeed case Some(v) => v case None => 100,
      match deleteSpeed case Some(v) => v case None => 50,
      match delay case Some(v) => v case None => 2000)
  }

  datatype Typer = Typer(index: nat, text: string, deleting: bool)

  /** The state right after construction, before the first `type()`. */
  const Start := Typer(0, "", false)

  /** `currentWordIndex` points into a non-empty word list and
      `currentText` is a prefix of the current word. */
  predicate Valid(words: seq<string>, s: Typer) {
    0 < |words| && s.index < |words| && s.text <= words[s.index]
  }

  /** One `type()` call: the next state and the timeout before the next
      call. */
  datatype Step = Step(next: Typer, delay: int)

  /** `currentWord.substring(0, n)`: `n` is clamped to `[0, |word|]`. */
  function Substring(word: string, n: int): (r: string)
    ensures r <= word
    ensures |r| == if n < 0 then 0 else if n > |word| then |word| else n
  {
    if n < 0 then "" else if n > |word| then word else word[..n]
  }

  /** `type()` needs only a current word to read; whatever the shown text
      was, the new one is a prefix of the current word. */
  function Type(words: seq<string>, opts: Options, s: Typer): (r: Step)
    requires 0 < |words| && s.index < |words|
    ensures Valid(words, r.next)
    // typing grows the text by one character, capped at the word
    ensures !s.deleting ==> r.next.text == Substring(words[s.index], |s.text| + 1)
    // deleting shrinks it by one
    ensures s.deleting ==> r.next.text == Substring(words[s.index], |s.text| - 1)
    // the full word switches to deleting after `delayBetweenWords`
    ensures !s.deleting ==> r.next.index == s.index
    ensures !s.deleting ==> (r.next.deleting <==> r.next.text == words[s.index])
    ensures !s.deleting ==> r.delay == if r.next.deleting then opts.delayBetweenWords else opts.typeSpeed
    // the empty text while deleting moves on to the next word after 500 ms
    ensures s.deleting ==> (r.next.deleting <==> r.next.text != "")
    ensures s.deleting ==> r.next.index == if r.next.deleting then s.index else (s.index + 1) % |words|
    ensures s.deleting ==> r.delay == if r.next.deleting then opts.deleteSpeed else 500
  {
    var word := words[s.index];
    var text := if s.deleting then Substring(word, |s.text| - 1) else Substring(word, |s.text| + 1);
    var speed := if s.deleting then opts.deleteSpeed else opts.typeSpeed;
    if !s.deleting && text == word then Step(Typer(s.index, text, true), opts.delayBetweenWords)
    else if s.deleting && text == "" then Step(Typer((s.index + 1) % |words|, text, false), 500)
    else Step(Typer(s.index, text, s.deleting), speed)
  }

  /** `n` consecutive `type()` calls. */
  function Run(words: seq<string>, opts: Options, s: Typer, n: nat): (r: Typer)
    requires Valid(words, s)
    ensures Valid(words, r)
    decreases n
  {
    if n == 0 then s else Run(words, opts, Type(words, opts, s).next, n - 1)
  }

  lemma {:induction false} RunSplit(words: seq<string>, opts: Options, s: Typer, a: nat, b: nat)
    requires Valid(words, s)
    ensures Run(words, opts, s, a + b) == Run(words, opts, Run(words, opts, s, a), b)
    decreases a
  {
    if a > 0 {
      RunSplit(words, opts, Type(words, opts, s).next, a - 1, b);
    }
  }

  lemma {:induction false} TypingPhase(words: seq<string>, opts: Options, i: nat, m: nat)
    requires 0 < |words| && i < |words| && 0 < m <= |words[i]|
    ensures Run(words, opts, Typer(i, "", false), m) == Typer(i, words[i][..m], m == |words[i]|)
  {
    if m > 1 {
      TypingPhase(words, opts, i, m - 1);
      RunSplit(words, opts, Typer(i, "", false), m - 1, 1);
    }
  }

  lemma {:induction false} DeletingPhase(words: seq<string>, opts: Options, i: nat, m: nat)
    requires 0 < |words| && i < |words| && 0 < m < |words[i]|
    ensures Run(words, opts, Typer(i, words[i], true), m) == Typer(i, words[i][..|words[i]| - m], true)
  {
    if m > 1 {
      DeletingPhase(words, opts, i, m - 1);
      RunSplit(words, opts, Typer(i, words[i], true), m - 1, 1);
    }
  }

  /** A full cycle: starting from an empty text on a non-empty word, `2 |w|`
      steps type the word, delete it again and arrive at the empty text of
      the next word (cyclically). */
  lemma TypingCycle(words: seq<string>, opts: Options, i: nat)
    requires 0 < |words| && i < |words| && |words[i]| > 0
    ensures Run(words, opts, Typer(i, "", false), 2 * |words[i]|) == Typer((i + 1) % |words|, "", false)
  {
    var w := words[i];
    TypingPhase(words, opts, i, |w|);
    assert w[..|w|] == w;
    RunSplit(words, opts, Typer(i, "", false), |w|, |w|);
    if |w| > 1 {
      DeletingPhase(words, opts, i, |w| - 1);
      RunSplit(words, opts, Typer(i, w, true), |w| - 1, 1);
    }
  }

  /** The role list the page passes in. */
  const TypingRoles: seq<string> := [
    "Full Stack Developer", "UI/UX Designer", "DevOps Engineer", "Tech Innovator",
    "Problem Solver", "Code Architect", "Digital Creator", "System Designer"]

  /** With the page's roles, the first cycle ends on the second role. */
  lemma FirstRoleCycle(opts: Options)
    ensures Valid(TypingRoles, Start)
    ensures Run(TypingRoles, opts, Start, 2 * |TypingRoles[0]|) == Typer(1, "", false)
  {
    TypingCycle(TypingRoles, opts, 0);
  }
}

/** `FormValidator`: the e-mail pattern and the whole-form check. */
module FormValidator {
  import opened Base
  import opened Text

  /** A run of characters matching `[^\s@]`. */
  predicate Clean(s: string) {
    forall k :: 0 <= k < |s| ==> !IsSpace(s[k]) && s[k] != '@'
  }

  /** What `/^[^\s@]+@[^\s@]+\.[^\s@]+$/` accepts: `s` splits as
      `L + "@" + D1 + "." + D2` with `L`, `D1`, `D2` non-empty and clean.
      `a` is the index of the `@`, `b` that of the separating dot. */
  ghost predicate EmailPattern(s: string) {
    exists a, b :: 0 < a && a + 1 < b && b + 1 < |s| && s[a] == '@' && s[b] == '.'
      && Clean(s[..a]) && Clean(s[a + 1..b]) && Clean(s[b + 1..])
  }

  /** The first index of `c` in `s` at or after `from`. */
  function Find(s: string, c: char, from: nat): (r: Option<nat>)
    ensures r.Some? ==> from <= r.value < |s| && s[r.value] == c
    ensures forall k :: from <= k < |s| && (r.None? || k < r.value) ==> s[k] != c
    decreases |s| - from
  {
    if from >= |s| then None else if s[from] == c then Some(from) else Find(s, c, from + 1)
  }

  /** The check by one split at the first `@`: the local part before it and
      the domain after it must be clean, and the domain must contain a dot
      that is neither its first nor its last character. */
  function ValidateEmail(s: string): (ok: bool)
    ensures ok <==> EmailPattern(s)
  {
    match Find(s, '@', 0)
    case None =>
      NoAtMeansNoMatch(s);
      false
    case Some(a) =>
      EmailSplitAtFirstAt(s, a);
      0 < a && Clean(s[..a]) && GoodDomain(s[a + 1..])
  }

  lemma NoAtMeansNoMatch(s: string)
    requires forall k :: 0 <= k < |s| ==> s[k] != '@'
    ensures !EmailPattern(s)
  {
  }

  /** The domain part after the first `@` is clean and has an inner dot. */
  predicate GoodDomain(d: string) {
    Clean(d) && exists p :: 1 <= p < |d| - 1 && d[p] == '.'
  }

  lemma EmailSplitAtFirstAt(s: string, a: nat)
    requires a < |s| && s[a] == '@' && forall k :: 0 <= k < a ==> s[k] != '@'
    ensures EmailPattern(s) <==> 0 < a && Clean(s[..a]) && GoodDomain(s[a + 1..])
  {
    if EmailPattern(s) {
      PatternSplitsAtFirstAt(s, a);
    }
    if 0 < a && Clean(s[..a]) && GoodDomain(s[a + 1..]) {
      FirstAtSplitIsPattern(s, a);
    }
  }

  lemma PatternSplitsAtFirstAt(s: string, a: nat)
    requires a < |s| && s[a] == '@' && forall k :: 0 <= k < a ==> s[k] != '@'
    requires EmailPattern(s)
    ensures 0 < a && Clean(s[..a]) && GoodDomain(s[a + 1..])
  {
    var a', b :| 0 < a' && a' + 1 < b && b + 1 < |s| && s[a'] == '@' && s[b] == '.'
      && Clean(s[..a']) && Clean(s[a' + 1..b]) && Clean(s[b + 1..]);
    SameAt(s, a, a');
    DomainOfSplit(s, a, b);
  }

  /** A clean prefix ending at an `@` ends at the first `@`. */
  lemma SameAt(s: string, a: nat, a': nat)
    requires a < |s| && s[a] == '@' && forall k :: 0 <= k < a ==> s[k] != '@'
    requires a' < |s| && s[a'] == '@' && Clean(s[..a'])
    ensures a == a'
  {
    forall k | 0 <= k < a'
      ensures s[k] != '@'
    {
      assert s[..a'][k] == s[k];
    }
  }

  lemma DomainOfSplit(s: string, a: nat, b: nat)
    requires a + 1 < b && b + 1 < |s| && s[b] == '.'
    requires Clean(s[a + 1..b]) && Clean(s[b + 1..])
    ensures GoodDomain(s[a + 1..])
  {
    var d := s[a + 1..];
    assert d == s[a + 1..b] + [s[b]] + s[b + 1..];
    CleanJoin(s[a + 1..b], s[b], s[b + 1..]);
    assert d[b - a - 1] == '.';
  }

  lemma CleanJoin(x: string, c: char, y: string)
    requires Clean(x) && Clean(y) && !IsSpace(c) && c != '@'
    ensures Clean(x + [c] + y)
  {
  }

  lemma FirstAtSplitIsPattern(s: string, a: nat)
    requires a < |s| && s[a] == '@'
    requires 0 < a && Clean(s[..a]) && GoodDomain(s[a + 1..])
    ensures EmailPattern(s)
  {
    var d := s[a + 1..];
    var p :| 1 <= p < |d| - 1 && d[p] == '.';
    var b := a + 1 + p;
    assert s[a + 1..b] == d[..p];
    assert s[b + 1..] == d[p + 1..];
    assert Clean(d[..p]) && Clean(d[p + 1..]);
  }

  /** The fields of the submitted form; a field the form lacks is `None`. */
  datatype FormData = FormData(name: Option<string>, email: Option<string>, subject: Option<string>, message: Option<string>)

  /** The four messages `validateForm` can report, in the order it checks. */
  datatype FormError = NameTooShort | InvalidEmail | SubjectTooShort | MessageTooShort

  function Order(e: FormError): nat {
    match e
    case NameTooShort => 0
    case InvalidEmail => 1
    case SubjectTooShort => 2
    case MessageTooShort => 3
  }

  /** A present field whose trimmed text has at least `min` characters. */
  predicate LongEnough(v: Option<string>, min: nat) {
    v.Some? && |Trim(v.value)| >= min
  }

  predicate NameOk(f: FormData) { LongEnough(f.name, 2) }
  predicate EmailOk(f: FormData) { f.email.Some? && ValidateEmail(f.email.value) }
  predicate SubjectOk(f: FormData) { LongEnough(f.subject, 5) }
  predicate MessageOk(f: FormData) { LongEnough(f.message, 10) }

  predicate Ascending(errors: seq<FormError>) {
    forall i, j :: 0 <= i < j < |errors| ==> Order(errors[i]) < Order(errors[j])
  }

  /** Appends `e` to the errors found so far unless its check passed. */
  function Check(prev: seq<FormError>, ok: bool, e: FormError): (r: seq<FormError>)
    requires Ascending(prev)
    requires forall k :: 0 <= k < |prev| ==> Order(prev[k]) < Order(e)
    ensures Ascending(r)
    ensures forall k :: 0 <= k < |r| ==> Order(r[k]) <= Order(e)
    ensures e in r <==> !ok
    ensures forall x :: x != e ==> (x in r <==> x in prev)
    ensures |r| <= |prev| + 1
  {
    if ok then prev else prev + [e]
  }

  /** `validateForm`: every failing check, in the order the checks run. */
  function ValidateForm(f: FormData): (errors: seq<FormError>)
    ensures |errors| <= 4
    ensures Ascending(errors)
    ensures NameTooShort in errors <==> !NameOk(f)
    ensures InvalidEmail in errors <==> !EmailOk(f)
    ensures SubjectTooShort in errors <==> !SubjectOk(f)
    ensures MessageTooShort in errors <==> !MessageOk(f)
    ensures errors == [] <==> NameOk(f) && EmailOk(f) && SubjectOk(f) && MessageOk(f)
  {
    Collect(NameOk(f), EmailOk(f), SubjectOk(f), MessageOk(f))
  }

  /** The errors of the four checks given their verdicts. */
  function Collect(nameOk: bool, emailOk: bool, subjectOk: bool, messageOk: bool): (errors: seq<FormError>)
    ensures |errors| <= 4
    ensures Ascending(errors)
    ensures NameTooShort in errors <==> !nameOk
    ensures InvalidEmail in errors <==> !emailOk
    ensures SubjectTooShort in errors <==> !subjectOk
    ensures MessageTooShort in errors <==> !messageOk
    ensures errors == [] <==> nameOk && emailOk && subjectOk && messageOk
  {
    var e1 := Check([], nameOk, NameTooShort);
    var e2 := Check(e1, emailOk, InvalidEmail);
    var e3 := Check(e2, subjectOk, SubjectTooShort);
    var e4 := Check(e3, messageOk, MessageTooShort);
    assert e4 == [] <== nameOk && emailOk && subjectOk && messageOk;
    e4
  }
}
