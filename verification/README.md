# Portfolio front end — a Dafny model of its script logic

The site is a single-page developer portfolio. Its scripts boot the page
(performance detection, a loading screen, deferred start-up), validate the
contact form, render and filter the skill and project cards, type the hero
roles letter by letter, reveal and count up elements as they scroll into
view, drive a custom cursor, and paint several canvas effects (background
particles, an energy field, an attracted particle swarm, matrix rain, a
neural-network backdrop, a text scrambler, a morphing loader).

This project models the state those scripts compute, as pure functions over
immutable datatypes, and proves what the code promises about it. The
browser is kept out:

- every `Math.random()` is a `Base.Draw`, a real in [0, 1), passed in;
- timers, `requestAnimationFrame` and events become explicit steps or
  sequences of events;
- pairwise distances, which the code computes with `Math.sqrt`, are passed
  in as a table `d[i][j]`; `Field.BelowIffSquaredBelow` ties a table entry
  to the squared distance it stands for.

Two behaviours of the code are modelled as they are, though they may
surprise: the edge wrap of the energy field and the particle swarm sends a
coordinate below 0 to W and one above W to 0, so positions range over the
closed [0, W] (`Field.Wrap`); and a spawned energy particle draws its life
from [100, 200) while its `maxLife` is 100, so its glow alpha can exceed 1
until it has aged (`EnergyField.SpawnCanOutliveMaxLife`).

Modules follow the source files:

| file | modules | source |
|---|---|---|
| base.dfy | Base | random draws, `Math.floor(Math.random() * n)` |
| text.dfy | Text | `trim`, `replace` with a string pattern, `toLowerCase`, `repeat` |
| field.dfy | Field | points, edge wrapping, and the pairwise connection loop shared by four effects |
| main.dfy | App | js/main.js |
| components.dfy | Skills, Projects, Typing, FormValidator | js/components.js, typing roles from js/data.js |
| animations.dfy | Animations | js/animations.js |
| advanced_animations.dfy | AdvancedAnimations, AdvancedParticle, MatrixRain, NeuralNet | js/advanced-animations.js |
| particles.dfy | Particles | js/particles.js |
| cursor.dfy | Cursor | js/optimized-cursor.js |
| ultra_effects.dfy | TextScramble, EnergyField, LiquidCursor, MorphingLoader | js/ultra-effects.js |

## Model

| member | source | states |
|---|---|---|
| Base.Scale | js/particles.js:130-131 | `Math.random() * n` lies in [0, n], and in [0, n) when n > 0 |
| Base.FloorScaled | js/ultra-effects.js:62-64 | `Math.floor(Math.random() * n)` is a valid index 0 <= k < n when n > 0 |
| Text.Trim | js/main.js:269 | the result is the input with all leading and trailing white space removed: a slice flanked by white space only, neither end of which is white space; empty only for an all-white-space input |
| Text.TrimIdempotent | js/components.js:337 | trimming twice is trimming once |
| Text.ReplaceFirst | js/optimized-cursor.js:185 | the occurrence replaced is the first one, none occurring before it; the input comes back unchanged when the pattern does not occur |
| Text.RemoveAppended | js/optimized-cursor.js:173-189 | removing a suffix whose first character occurs nowhere else in it from `a + suffix + b` gives `a + b` when `a` does not contain it, so `contract` undoes `expand` |
| Text.Lower | js/main.js:518 | lower-casing keeps the length and maps each character on its own |
| Text.Repeat | js/components.js:57 | `c.repeat(n)` has length n and only the character c |
| Field.Wrap | js/ultra-effects.js:173-176 | a coordinate past an edge jumps to the opposite edge; the result is always in the closed range [0, W]; an in-range value is kept |
| Field.WrapKeepsFarEdge | js/advanced-animations.js:320-323 | wrapping is idempotent, the far edge W itself is kept, and a negative value lands on W |
| Field.BelowIffSquaredBelow | js/particles.js:178-182 | the distance is below the threshold exactly when the squared distance is below the squared threshold |
| Field.AlphaRange | js/particles.js:184 | the line opacity `(T - d) / T * k` lies in (0, k] for every distance below T |
| Field.ConnectionsCorrect | js/particles.js:176-184 | the `i < j` double loop draws a line for a pair exactly when its distance is below the threshold, each pair once, in loop order, with opacity in (0, k] |
| Field.AllCloseLinksEveryPair | js/ultra-effects.js:207-213 | when every pair is close, n dots give n(n-1)/2 lines |
| Field.RowsBelowCount | js/ultra-effects.js:207-208 | the first i rows of the loop visit i(2n-i-1)/2 pairs when every pair is close |
| Field.DrawConnections | js/ultra-effects.js:206-224 | the imperative double loop computes exactly the functional connection list |
| App.OrFour | js/main.js:35-36 | a missing or zero `hardwareConcurrency`/`deviceMemory` reads as 4 |
| App.DetectPerformance | js/main.js:32-44 | the mode is low exactly on `slow-2g`, otherwise medium with fewer than 4 cores or 4 GB, otherwise mobile below 768 px wide, otherwise high |
| App.LoadingTime | js/main.js:52 | the loading screen stays 1000 ms or 1500 ms |
| App.PerformanceGates | js/main.js:46-91 | low mode gets the short loading screen and no particles; any other mode gets the long screen and particles |
| App.Invoke | js/main.js:128-134 | a call of the wrapper runs the function exactly when the wrapper is not throttled, and leaves it throttled |
| App.Expire | js/main.js:132 | the timeout disarms the throttle |
| App.ThrottleBound | js/main.js:126-135 | over any sequence of calls and timeouts, the wrapped function runs at most once more than the number of timeouts |
| App.NavbarAt | js/main.js:443 | the navbar closure starts from the current scroll position, shown and unscrolled |
| App.NavbarScroll | js/main.js:445-463 | `scrolled` exactly above 50 px; hidden exactly when scrolling down past 100 px; the position is remembered |
| App.NavbarDirection | js/main.js:449-462 | a hidden navbar is also scrolled; scrolling up or staying shows it; scrolling down past 100 px hides it |
| App.DomReady | js/main.js:137 | the scroll listener, registered from `onDOMReady`, captures the handler `this.onScroll` holds at DOM ready |
| App.LoadingComplete | js/main.js:439-445 | with a navbar, `this.onScroll` becomes the navbar closure; the registered listener is untouched |
| App.Scroll | js/main.js:137 | a scroll event reaches the navbar only when the captured handler is the navbar closure |
| App.NavbarEffectLostWithLoadingScreen | js/main.js:20-65 | as written, with a loading screen no scroll event changes the navbar; without one it works |
| App.ScrollLateBound | js/main.js:445-463 | the corrected listener looks up the current handler at each event |
| App.NavbarEffectLateBound | js/main.js:137 | corrected, the navbar follows scrolling with or without a loading screen |
| App.FieldProblem | js/main.js:275-300 | only the four known field names have a rule |
| App.ValidateField | js/main.js:268-313 | a field is valid exactly when its rule finds no problem; the error class and message are shown exactly when invalid |
| App.NameFieldAgreesWithForm | js/main.js:276-281 | the single-field check and the whole-form check (js/components.js line 337) agree on the name |
| App.SubjectFieldAgreesWithForm | js/main.js:288-293 | the single-field check and the whole-form check (js/components.js line 345) agree on the subject |
| App.MessageFieldAgreesWithForm | js/main.js:294-299 | the single-field check and the whole-form check (js/components.js line 349) agree on the message |
| App.EmailFieldAgreesWithTrimmedForm | js/main.js:269-287 | the single-field email check equals the form check (js/components.js line 341) applied to the trimmed address |
| App.EmailSpaceDisagreement | js/main.js:269 | an address with a leading space passes the field check, which trims, and fails the form check (js/components.js line 341), which does not |
| App.TrimLeadingSpace | js/main.js:269 | trimming `" a@b.co"` gives `"a@b.co"` |
| App.SampleAddressIsValid | js/components.js:330 | `a@b.co` matches the address pattern |
| App.SpacedAddressIsInvalid | js/components.js:330 | `" a@b.co"` does not |
| App.OnResize | js/main.js:703-727 | above 768 px the menu and hamburger are closed; below 768 px a particle count above 15 is cut to 15 and refreshed; nothing else changes |
| App.ResizeIdempotent | js/main.js:703-727 | a second resize to the same width changes nothing and refreshes nothing; exactly 768 px changes nothing |
| App.KeyShortcut | js/main.js:511-543 | no shortcut while typing in an input or text area; otherwise h, s, p and c (either case) scroll to home, skills, projects and contact, `/` focuses the first input, each action comes from exactly its key, and every other key does nothing |
| App.LowerIdempotent | js/main.js:518 | lower-casing twice is lower-casing once |
| App.ShortcutsIgnoreCase | js/main.js:514-534 | a key and its lower-case form trigger the same action; h, s, p, c scroll to home, skills, projects, contact |
| Skills.MasteryLevel | js/components.js:13-15 | the four mastery levels by threshold 90, 80, 70, each as an if-and-only-if |
| Skills.MasteryMonotone | js/components.js:13-15 | a higher skill level never gets a lower mastery |
| Skills.FilterSkills | js/components.js:171-194 | a card is shown exactly for `all` or its own category |
| Skills.FilterPartitions | js/components.js:176 | `all` shows every card; a card's own category shows it; two distinct categories never both show it |
| Projects.DifficultyStars | js/components.js:57 | the star string has `difficulty` stars, 3 when missing or zero, and is an error (a RangeError) when negative |
| Projects.Filter | js/components.js:143-144 | the filter keeps only projects of the wanted kind |
| Projects.RenderProjects | js/components.js:138-150 | nothing is rendered without the grid or the data; otherwise featured projects first |
| Projects.FilterSplitsMultiset | js/components.js:143-144 | the two filters split the projects without loss or duplication |
| Projects.FilterAppend | js/components.js:143-144 | filtering distributes over concatenation |
| Projects.FilterAllOrNothing | js/components.js:143-144 | a filter keeps everything or nothing when all projects agree or all disagree |
| Projects.RenderIsPermutation | js/components.js:145 | the rendered list is a permutation of the data |
| Projects.RenderIsFeaturedFirst | js/components.js:142-145 | no featured project follows a non-featured one |
| Projects.RenderIsStable | js/components.js:143-145 | each kind keeps its original relative order |
| Projects.FeaturedFirstSplits | js/components.js:145 | a featured-first list is its featured part followed by the rest |
| Projects.StablePartitionIsUnique | js/components.js:142-145 | the render order is the only featured-first, stable arrangement |
| Typing.ResolveOptions | js/components.js:205-210 | a given option wins over the default; the defaults are 100, 50 and 2000 ms |
| Typing.Type | js/components.js:219-242 | from any state whose word index is in range, the shown text afterwards is a prefix of the current word; one step adds or removes one letter, turns to deleting on a full word after the word delay, and moves to the next word (cyclically) after 500 ms on an empty text |
| Typing.Run | js/components.js:241 | the shown text stays a prefix of the current word, whose index stays in range |
| Typing.RunSplit | js/components.js:241 | a + b steps are a steps then b steps |
| Typing.TypingPhase | js/components.js:224-234 | from an empty text, m steps type the first m letters of the word |
| Typing.DeletingPhase | js/components.js:222-223 | from a full word, m steps delete its last m letters |
| Typing.TypingCycle | js/components.js:219-242 | a word of length L is typed and deleted in 2L steps, ending empty on the next word |
| Typing.FirstRoleCycle | js/data.js:347-356 | the first role cycles through to the second |
| FormValidator.Find | js/components.js:330 | the first position of a character at or after a start |
| FormValidator.ValidateEmail | js/components.js:329-332 | the result is the address pattern: non-space non-@ text, @, and a domain with a dot |
| FormValidator.NoAtMeansNoMatch | js/components.js:330 | an address without `@` never matches |
| FormValidator.EmailSplitAtFirstAt | js/components.js:330 | the pattern holds exactly when the text before the first @ is non-empty and clean and the rest is a good domain |
| FormValidator.PatternSplitsAtFirstAt | js/components.js:330 | every match splits at the first @ |
| FormValidator.FirstAtSplitIsPattern | js/components.js:330 | a clean local part before an @ and a good domain after it form a match |
| FormValidator.Check | js/components.js:337-351 | one test appends its error exactly when it fails, keeping the list in order |
| FormValidator.ValidateForm | js/components.js:334-354 | each of the four errors is reported exactly when its test fails, in form order, at most four, and none exactly when all pass |
| FormValidator.Collect | js/components.js:335-353 | the four checks in sequence report exactly the failed ones, in order |
| Animations.InitAsWritten | js/animations.js:12-22 | reduced motion gives only the minimal fade; otherwise the scroll animations start, the call on line 20 throws, and no extra effect starts |
| Animations.ControllerInstalled | js/animations.js:334 | `window.animationController` is assigned exactly when the constructor returns |
| Animations.ExtrasLostAsWritten | js/animations.js:20 | as written, without reduced motion no extra effect starts and no controller is installed, where the corrected `init()` starts all three |
| Animations.Init | js/animations.js:12-22 | the corrected `init()`, with line 20 left out: reduced motion gives only the minimal fade; otherwise the scroll animations and every extra effect, and it returns normally |
| Animations.InitAdvancedEffects | js/animations.js:151-162 | the three extra effects start exactly without reduced motion; as written `init()` never reaches this method |
| Animations.ReducedMotionAgrees | js/animations.js:12-22 | under reduced motion neither this controller (as written or corrected) nor the advanced one (js/advanced-animations.js lines 12-25) starts an effect; without it the corrected controller starts its effects exactly when the advanced one does, while the written one starts none |
| Animations.Dispatch | js/animations.js:80-90 | the started animations are exactly those whose class the element has, in code order |
| Animations.Trigger | js/animations.js:75-91 | an element animates once: marked, it starts nothing; unmarked, it is marked and starts its class animations |
| Animations.TriggerIdempotent | js/animations.js:76-77 | triggering twice starts nothing the second time |
| Animations.OnIntersect | js/animations.js:42-55 | above 10% visible the element gets `visible` and animates; above 50% also `fully-visible`; only those classes are added |
| Animations.ObserveAnimatesOnce | js/animations.js:42-91 | over any sequence of intersection ratios, from any element state (including a card already made `visible` by the app's observer in js/main.js), an already animated element starts nothing, and each animation starts at most once and only for the element's own classes; a revealed element stays revealed |
| Animations.Progress | js/animations.js:133 | progress is at most 1, non-negative for non-negative time, and 1 exactly from 2000 ms on |
| Animations.ProgressMonotone | js/animations.js:133 | progress never goes back |
| Animations.EaseMonotone | js/animations.js:136 | the cubic ease-out is monotone |
| Animations.EaseRange | js/animations.js:136 | it maps [0, 1] into [0, 1] |
| Animations.EaseEnds | js/animations.js:136 | it fixes 0 and 1 |
| Animations.CountFrame | js/animations.js:131-146 | the counter asks for another frame exactly before 2000 ms, shows the target at the end and stays within [0, target] |
| Animations.CountsUp | js/animations.js:125-149 | the shown number never decreases over time and reaches the target |
| Animations.ParallaxStep | js/animations.js:176-185 | a scroll sets `ticking`; a frame applies `-0.5 * pageYOffset` and clears it (the handler of the corrected `init()`; as written it is never installed) |
| Animations.ParallaxThrottled | js/animations.js:176-185 | for the handler of the corrected `init()` (never installed as written): however scrolls and frames interleave, at most one frame callback is outstanding, exactly while `ticking` is set, and no more are queued than there were scrolls |
| AdvancedAnimations.InitPlan | js/advanced-animations.js:12-25 | reduced motion starts nothing; otherwise seven starts covering every effect, so each starts exactly once |
| AdvancedParticle.Reset | js/advanced-animations.js:288-297 | a reset particle lies on the canvas with the drawn velocity, size, hue and opacity ranges, an empty trail, and its life kept |
| AdvancedParticle.Create | js/advanced-animations.js:281-286 | a new particle starts with life equal to `maxLife` in [100, 200) |
| AdvancedParticle.Attract | js/advanced-animations.js:301-309 | within 150 px the velocity is nudged toward the pointer by `(150 - d) / 150 * 0.01` of the unit direction; otherwise unchanged |
| AdvancedParticle.NudgeBounded | js/advanced-animations.js:305-308 | the nudge is at most 0.01 in length |
| AdvancedParticle.PushTrail | js/advanced-animations.js:316-317 | the newest point goes first, followed by the old trail in order; a trail below 10 points grows by one, a full one drops its oldest point |
| AdvancedParticle.Update | js/advanced-animations.js:299-331 | the particle ends on the canvas and keeps its maximum life; a valid particle stays valid; while life remains it moves, wraps, records its trail and loses one life; at zero it is exactly `reset()` with the given draws (new position, velocity, size, hue, opacity, empty trail) and full life |
| AdvancedParticle.Alpha | js/advanced-animations.js:334 | for a valid particle the drawing alpha lies in (0, opacity], or is 0 when the opacity is 0 |
| AdvancedParticle.CreateAll | js/advanced-animations.js:372-374 | 80 valid particles |
| AdvancedParticle.Frame | js/advanced-animations.js:381-384 | a frame updates each particle in turn, all staying valid |
| AdvancedParticle.LinksCorrect | js/advanced-animations.js:387-394 | particles closer than 120 px are joined once each, opacity in (0, 0.3] |
| MatrixRain.Columns | js/advanced-animations.js:95-99 | the loop `x < width / 10` makes one column per x with 10x < width |
| MatrixRain.InitDrops | js/advanced-animations.js:99-101 | one drop per column, all at row 1 |
| MatrixRain.DrawMatrix | js/advanced-animations.js:110-118 | each drop moves down one row, and restarts at row 1 exactly when it is below the canvas and the coin exceeds 0.975 |
| MatrixRain.Rain | js/advanced-animations.js:103-118 | frames keep the number of drops |
| MatrixRain.DropsStayPositive | js/advanced-animations.js:99-118 | every drop row stays positive forever |
| NeuralNet.Node | js/advanced-animations.js:39-46 | each node lies in the [0, 100) percentage square |
| NeuralNet.Nodes | js/advanced-animations.js:36-48 | twenty nodes |
| NeuralNet.Wires | js/advanced-animations.js:51-58 | one wire per connection, with its length as width |
| NeuralNet.WiresCorrect | js/advanced-animations.js:51-58 | two nodes are wired exactly when closer than 30, once per pair |
| Particles.Reset | js/particles.js:129-137 | a reset dot lies on the canvas, strictly inside the far edges when the canvas is not empty, with the drawn velocity, hue, size and opacity |
| Particles.Update | js/particles.js:139-148 | a dot moves by its velocity and is reset exactly when the move leaves the canvas; it stays on the canvas |
| Particles.CreateAll | js/particles.js:162-164 | 20 valid dots |
| Particles.InitParticles | js/particles.js:2-100 | the library when loaded; otherwise the fallback, or nothing without the container |
| Particles.Frame | js/particles.js:170-173 | a frame updates every dot |
| Particles.RunKeepsDots | js/particles.js:114-173 | across any resizes the dot count and drawn ranges are kept and every dot ends on the latest canvas |
| Particles.LinksCorrect | js/particles.js:176-184 | dots closer than 100 px are joined once each, opacity in (0, 0.2] |
| Cursor.Create | js/optimized-cursor.js:3-23 | before the constructor's first `animate()` frame the cursor is centred and visible, with both transforms centred; the elements exist exactly with hover support |
| Cursor.Approach | js/optimized-cursor.js:156-160 | one frame closes the gap to the pointer by the follow rate |
| Cursor.ApproachedGap | js/optimized-cursor.js:156-160 | after k frames the gap is `(1 - rate)^k` times the original |
| Cursor.PowBelowOne | js/optimized-cursor.js:156-160 | for a remaining fraction `1 - rate` in [0, 1) the gap factor after k frames stays in [0, 1], and is below 1 from the first frame on |
| Cursor.Animate | js/optimized-cursor.js:152-167 | ring and dot close 15% and 80% of their gap; both transforms are overwritten by the position text |
| Cursor.Expand | js/optimized-cursor.js:169-179 | both transforms get their grow suffix |
| Cursor.Contract | js/optimized-cursor.js:181-191 | each transform loses the first occurrence of its grow suffix (one suffix length shorter when present, unchanged when absent); positions, visibility, opacity and the dot colour are kept |
| Cursor.Click | js/optimized-cursor.js:193-202 | the press suffixes are added and the dot turns magenta |
| Cursor.Release | js/optimized-cursor.js:204-210 | each transform loses the first occurrence of its press suffix (one suffix length shorter when present, unchanged when absent), the dot turns cyan, and positions, visibility and opacity are kept |
| Cursor.Hide | js/optimized-cursor.js:234-240 | the cursor is hidden with opacity 0 |
| Cursor.Show | js/optimized-cursor.js:242-248 | the cursor is shown with opacity 1 |
| Cursor.MouseMove | js/optimized-cursor.js:79-86 | the pointer is recorded and a hidden cursor is shown again |
| Cursor.InertWithoutHover | js/optimized-cursor.js:21-23 | without hover support no event changes anything |
| Cursor.ExpandThenContract | js/optimized-cursor.js:103-119 | leaving an element undoes entering it |
| Cursor.ClickThenRelease | js/optimized-cursor.js:122-123 | releasing undoes pressing, and the dot ends cyan |
| Cursor.MoveRevealsCursor | js/optimized-cursor.js:79-136 | a cursor hidden by leaving the page or hiding the tab comes back on the next move |
| Cursor.GrowLostAfterFrame | js/optimized-cursor.js:163-173 | as written, one frame after `expand` the grow suffix is gone |
| Cursor.HandleScaled | js/optimized-cursor.js:152-210 | corrected, hover and press are kept as flags and every frame composes their suffixes onto the position |
| Cursor.GrowKeptAcrossFrames | js/optimized-cursor.js:169-191 | corrected, a frame shows the grow suffix exactly while hovering |
| TextScramble.CharAt | js/ultra-effects.js:18-19 | an index past the end reads as the empty string |
| TextScramble.SetText | js/ultra-effects.js:11-29 | one queue entry per position of the longer text, starting in [0, 40) and ending fewer than 40 frames after its start, no glyph yet, the frame counter reset |
| TextScramble.RandomChar | js/ultra-effects.js:62-64 | a glyph from the fixed character set |
| TextScramble.SlotUpdate | js/ultra-effects.js:36-49 | before its start a position shows the old letter, after its end the new one, in between a scramble glyph redrawn with probability 0.28 |
| TextScramble.CountComplete | js/ultra-effects.js:33-54 | all positions are complete exactly when every end frame has passed |
| TextScramble.Update | js/ultra-effects.js:31-60 | a frame updates every position and resolves exactly when all are complete; otherwise the frame counter advances |
| TextScramble.UpdateAgainstMaxEnd | js/ultra-effects.js:56-59 | a frame resolves exactly from the largest end frame on, and no end frame changes |
| TextScramble.ResolvedHtmlIsTargets | js/ultra-effects.js:38-52 | the resolved output is the queue's target letters |
| TextScramble.SetTextTargets | js/ultra-effects.js:11-29 | the targets of a fresh queue spell the new text |
| TextScramble.ResolvedShowsNewText | js/ultra-effects.js:11-60 | once resolved, the string assigned to `innerHTML` is exactly the new text |
| TextScramble.SetTextIsFresh | js/ultra-effects.js:11-29 | `setText` builds a fresh queue |
| TextScramble.ScrambleTerminates | js/ultra-effects.js:11-60 | from a fresh queue the promise resolves on frame `maxEnd + 1`, never after frame 79, whatever the draws |
| TextScramble.ResolvesAtMaxEnd | js/ultra-effects.js:31-60 | from any frame up to the largest end, resolution comes after `maxEnd - frame + 1` updates |
| EnergyField.Spawn | js/ultra-effects.js:149-159 | a new particle lies on the canvas with the drawn ranges and life in [100, 200) over `maxLife` 100 |
| EnergyField.CreateParticles | js/ultra-effects.js:146-161 | thirty particles |
| EnergyField.Step | js/ultra-effects.js:167-183 | a particle moves and wraps; when its life runs out it respawns with full life at a random point |
| EnergyField.RunLife | js/ultra-effects.js:170-183 | life stays positive and falls one per frame until at most `maxLife` |
| EnergyField.LifeSettles | js/ultra-effects.js:154-186 | after 100 frames the glow alpha is in (0, energy] |
| EnergyField.SpawnCanOutliveMaxLife | js/ultra-effects.js:154-186 | a fresh particle can start with more life than `maxLife`, so its alpha exceeds 1 |
| EnergyField.Frame | js/ultra-effects.js:167-198 | a frame steps every particle |
| EnergyField.LinksCorrect | js/ultra-effects.js:206-224 | particles closer than 100 px are joined once each, opacity in (0, 0.3] |
| LiquidCursor.AddTrailPoint | js/ultra-effects.js:289-299 | the new point is appended and the oldest dropped beyond 20 |
| LiquidCursor.TrailKeepsLatest | js/ultra-effects.js:282-299 | over `addTrailPoint` calls alone, with no animation frame in between, the trail is the latest 20 points in order |
| LiquidCursor.AnimateFrom | js/ultra-effects.js:312-317 | a frame's loop never lengthens the trail and keeps every remaining point alive |
| LiquidCursor.Animate | js/ultra-effects.js:311-320 | a frame never lengthens the trail, and a trail of living points stays living |
| LiquidCursor.AnimateAgesAll | js/ultra-effects.js:312-317 | while no point reaches zero life, a frame removes nothing and lowers every life by 0.05 |
| LiquidCursor.RemovalSkipsNext | js/ultra-effects.js:313-316 | a point spliced out at zero life makes the loop skip its successor, which keeps its life that frame |
| LiquidCursor.Run | js/ultra-effects.js:281-320 | moves and frames in any interleaving keep the trail at 20 points or fewer |
| LiquidCursor.RunKeepsTrailAlive | js/ultra-effects.js:281-320 | moves and frames in any interleaving leave only points with life left |
| LiquidCursor.AddAll | js/ultra-effects.js:282-284 | the trail never holds more than 20 points |
| MorphingLoader.Init | js/ultra-effects.js:334-341 | the loader starts on the circle |
| MorphingLoader.Morph | js/ultra-effects.js:343-348 | each tick advances to the next shape, cyclically |
| MorphingLoader.FourMorphsReturn | js/ultra-effects.js:328-345 | four ticks return to the same shape |
| MorphingLoader.TicksAdd | js/ultra-effects.js:344-347 | a + b ticks are a ticks then b ticks |
| MorphingLoader.TicksCycle | js/ultra-effects.js:343-348 | the shapes repeat with period four |

## Left out

- The DOM, the canvas, CSS, inline style text other than the cursor transforms, ARIA attributes and console logging: the model keeps only the state the scripts compute.
- Timers, `requestAnimationFrame`, `setInterval` and event dispatch: each callback is a step function and a run is a sequence of steps or events.
- `Math.random`: every draw is a parameter in [0, 1).
- `Math.sqrt`, `Math.pow` and the browser's floating point: reals are exact, and distances come from a given table tied to squared distances by a lemma.
- The particles.js library configuration (js/particles.js:10-91): it is a data object handed to a third-party library.
- The AI assistant, glitch effects, floating geometry, the HUD and the 3D tilt of js/advanced-animations.js.
- The trail's DOM elements in `LiquidCursor.addTrailPoint`, each removed by a 2000 ms timer; the trail array and its per-frame fading are modelled.
- `innerHTML` parsing: the text scrambler writes markup strings, and a new text containing `<` or `&` is parsed again as HTML by the browser; the model stops at the string written.
- The data of js/data.js other than the typing roles.
- Form submission, the toast notifications, the hamburger menu and Escape handlers, and focus handling.
- renderSkills, animateSkillBars, animateCounters and Toast in js/components.js: they only build markup and style text.
- The error message texts: each error is an enumerated value.
- The matrix glyph choice and the text scrambler's glyph timing are kept only as draws.
- Number formatting (`toLocaleString`, the `translate3d(…)` text of the cursor): such text is passed in as a string.
- The target parsing of `animateNumber` (`parseInt` of a data attribute or the digits of the text): the target is an integer parameter.
- Cursor focus colours, border and box shadow, and the click ripple.
- The staggered delays of the minimal fade-in.
- String lengths count UTF-16 code units in the browser and characters here; `toLowerCase` is modelled for ASCII letters only.
- AdvancedParticle.Attract: at distance 0 the code divides 0 by 0 and writes NaN into the velocity; the model leaves the velocity unchanged there.
- Typing.ResolveOptions: an option key present with the value `undefined` overrides the default with `undefined`; options are either given with a number or absent.

## Findings

| source | as written | input that shows it | evidently intended | confidence | as-written member | corrected member |
|---|---|---|---|---|---|---|
| js/main.js:137 | the scroll listener is registered at DOM ready with the value `this.onScroll` has at that moment, the no-op; the navbar closure is assigned to `this.onScroll` (line 445) only after the loading screen ends (lines 20-30, 46-65) | a page with a loading screen and a navbar, then any scroll, e.g. to y = 200 | the navbar reacts to scrolling (class `scrolled` above 50 px, hidden when scrolling down past 100 px) | high, not executed | App.NavbarEffectLostWithLoadingScreen | App.NavbarEffectLateBound |
| js/animations.js:20 | `init()` calls `this.initIntersectionObservers()`, which the class does not define; without reduced motion the call throws a `TypeError` after the scroll animations start, so `initAdvancedEffects` never runs, the constructor throws, and `window.animationController` (line 334) and the exports (lines 337-347) are never set | a browser without the reduced-motion preference loads the page | the extra effects (parallax, hover, floating) start and the controller is installed for js/main.js line 432 | high, not executed | Animations.ExtrasLostAsWritten | Animations.Init |
| js/optimized-cursor.js:163-177 | `animate()` overwrites both transforms each frame with the position text, wiping the scale suffix `expand()` appended | pointer enters a link, then one animation frame | the cursor stays enlarged while the pointer is over an interactive element | medium, not executed | Cursor.GrowLostAfterFrame | Cursor.GrowKeptAcrossFrames |
