# Page behaviour of "Cindy's Journey", modelled in Dafny

The page script `script.js` is mostly DOM glue. Five small pieces of it are
sequential logic with a precise meaning, and this project models and verifies them:

- **Section lookup** (`Sections`). `getSectionIndex` maps a section id to the
  index of its navigation dot. The written lookup and the evidently intended one
  are both modelled (see Findings).
- **Konami-code easter egg** (`Konami`). The `keydown` listener is modelled as a
  class `KonamiMatcher` with the `konamiIndex` counter. A ghost history of keys
  ties the counter to the function `Counter` over every key typed so far.
- **Nav-dot activation** (`NavDots`). The section observer's callback is modelled
  as an `array<bool>` of `active` marks. One batch of intersection reports is a
  loop over the entries. Each loop step is specified by the function `ApplyBatch`.
- **Parallax scroll throttle** (`Parallax`). The `ticking` flag protocol is
  modelled as a class `ParallaxOrbs`. It counts outstanding frame callbacks and
  recomputes. A ghost history of scroll and frame events ties it to `Replay`.
- **Scroll reveal** (`Reveal`). The reveal observer's callback is a class
  `ScrollReveal`. It adds the cards reported intersecting to its set of revealed
  cards. The model assumes that no `.reveal-card` carries the `revealed` class in
  the page markup, and the script never removes that class.

Browser plumbing becomes explicit calls. An IntersectionObserver batch is a call
with a sequence of entries, a keystroke is `OnKey`, a scroll event is `OnScroll`
and an animation frame is `OnFrame`. The environment probes for reduced motion
and viewport width are parameters of the `ParallaxOrbs` constructor. Element
handles are section-id strings (nav dots) or natural numbers (reveal cards).

Three facts about `script.js` shape the model:

- The reveal observer never stops observing a card: the `unobserve` call at
  script.js:63 is commented out. A card reported again is marked again, which
  changes nothing (`RevealIdempotent`).
- The nav-dot callback (script.js:105-116) keeps no "active section index"
  variable. Its only state is the `active` marks on the dots. Before the first
  intersection report, those marks come from the page markup.
- `getSectionIndex` is not total over strings (script.js:142; see Findings).
  The nav-dot model uses the lookup as written. So a section whose id is an
  inherited Object.prototype name would leave every dot inactive
  (`InheritedIdClearsDots`). For every other id, the written lookup and the
  corrected one agree.

## Model

| member | source | states |
|---|---|---|
| `Sections.SectionIndex` | script.js:128-143 | The result is always a dot index 0..6. `""`, `"hero"` and every unknown id give 0. Each of the seven ids gives its own position. A non-zero result names exactly the id it came from. |
| `Sections.SectionIndexRoundTrip` | script.js:129-137 | The id of dot k maps back to k. For k in 1..6, an id maps to k exactly when it is the id of dot k. |
| `Sections.PropertyRead` | script.js:142 | A property read on `sectionMap` yields a number exactly for its seven own keys, and that number is the key's value in the literal. It yields an inherited member exactly for the Object.prototype names, and that member is the one of the same name. Otherwise it yields undefined. |
| `Sections.SectionIndexAsWritten` | script.js:128-143 | The result is never undefined. It is the inherited member of the same name exactly when the id is an Object.prototype name. Every numeric result equals the corrected `SectionIndex`. So the early return and the `??` default both give 0. |
| `Sections.AsWrittenNotTotal` | script.js:142 | For every inherited Object.prototype name, `"toString"` among them, the written lookup yields that inherited member, which is not a number. |
| `Sections.AsWrittenAgrees` | script.js:140-142 | For every id that is not an inherited Object.prototype name, the written lookup equals the corrected `SectionIndex`. |
| `NavDots.EntryIndex` | script.js:108-109 | A reported section with no id is treated as the hero, giving 0. Each of the seven ids gives its own dot index. An inherited Object.prototype name gives no number. Every other id gives the corrected `SectionIndex`. |
| `NavDots.Activation` | script.js:111-113 | Dot i is active exactly when the computed index is strictly equal to the number i. So exactly one dot is active for a dot index, and none for a non-numeric index. |
| `NavDots.ApplyEntry` | script.js:107-114 | A non-intersecting entry leaves the dots unchanged. The number of dots never changes. |
| `NavDots.ApplyBatch` | script.js:105-116 | Processing a batch keeps the number of dots. |
| `NavDots.LastEntryWins` | script.js:106-115 | After a batch, the dots are exactly `Activation` of the last intersecting entry's index, so that entry alone decides. A batch with no intersecting entry leaves the dots as they were. |
| `NavDots.ExactlyOneActive` | script.js:106-115 | With one dot per section, if the last intersecting entry's id is not an inherited Object.prototype name, exactly one dot is active afterwards: that entry's dot. |
| `NavDots.InheritedIdClearsDots` | script.js:109-113 | If the last intersecting entry's id is an inherited Object.prototype name, `i === index` fails for every dot and no dot is active afterwards. |
| `NavDots.NonIntersectingBatchUnchanged` | script.js:107 | A batch made only of non-intersecting entries changes no dot. |
| `NavDots.ActivateDot` | script.js:111-113 | The array afterwards holds exactly `Activation(length, index)`, for numeric and non-numeric indices alike. |
| `NavDots.ProcessBatch` | script.js:105-116 | The array afterwards equals `ApplyBatch` of its old contents and the batch. |
| `Konami.Step` | script.js:359-367 | The new counter is in 0..9. A key other than `konamiCode[index]` gives counter 0 and no easter egg. A matching key below the tenth advances the counter by one without firing. The matching tenth key fires the easter egg, and the counter is then 0. |
| `Konami.Counter` | script.js:355-368 | After any keys the counter lies in 0..9 and is at most the number of keys typed. |
| `Konami.Fires` | script.js:359-362 | The easter egg can fire only on a key that ends the code (`"a"`), and the counter is then back at 0. `FiresIff` proves exactly when it fires. |
| `Konami.CounterMeansSuffix` | script.js:359-367 | A counter of i means the last i keys are the first i keys of the code, and the counter was 0 just before them. |
| `Konami.CounterAfterCode` | script.js:359-361 | If the counter was 0 and the last k < 10 keys are the first k keys of the code, the counter is exactly k. |
| `Konami.FiresOnlyAfterCode` | script.js:360-364 | If the easter egg fires, the last ten keys were the code and the counter was 0 before them. |
| `Konami.FiresAfterCode` | script.js:360-364 | Ten code keys typed from counter 0 fire the easter egg on the last key. |
| `Konami.FiresIff` | script.js:358-368 | The easter egg fires exactly when the last ten keys are the code, typed from counter 0. The counter is 0 after it fires. |
| `Konami.MismatchResets` | script.js:365-367 | A key other than the expected one resets the counter to 0 and fires nothing, even when that key is the code's first key. |
| `Konami.UpUpUpResets` | script.js:355-367 | "Up, Up, Up" from a fresh counter ends at 0, not 1. |
| `Konami.KonamiMatcher.constructor` | script.js:356 | The counter starts at 0 with no keys seen. |
| `Konami.KonamiMatcher.OnKey` | script.js:358-368 | It appends the key to the history and keeps `konamiIndex == Counter(history)`. It reports a firing exactly when `Fires(history)`. The new counter, per case: 0 after a mismatching key, `old + 1` after a matching key below the tenth, or 0 with a firing after the matching tenth key. |
| `Parallax.ListenerAttached` | script.js:216-224 | No listener under a reduced-motion preference, none below 768 px, and a listener in every other case. |
| `Parallax.Replay` | script.js:226-243 | Replays the events in order from `ticking` false. Recomputes plus outstanding callbacks never exceed the number of events. `ReplayCoherent` and `RecomputesBounded` prove what the state means. |
| `Parallax.StepEvent` | script.js:226-243 | A scroll while `ticking`, or with no listener, changes nothing. A frame clears `ticking` whenever a callback was outstanding. Recompute counts never decrease. |
| `Parallax.ReplayCoherent` | script.js:226-243 | At most one frame callback is ever outstanding, and `ticking` is set exactly while there is one. |
| `Parallax.RecomputesBounded` | script.js:226-243 | There are never more recomputes than frames. Recomputes plus outstanding callbacks never exceed the scroll events. |
| `Parallax.DetachedNeverRecomputes` | script.js:216-224 | With no listener (reduced motion, or a narrow viewport), no event schedules or recomputes anything. |
| `Parallax.ScrollsLeaveOnePending` | script.js:227-241 | After k >= 1 scroll events, exactly one callback is outstanding, `ticking` is set, and nothing was recomputed. |
| `Parallax.Coalescing` | script.js:226-243 | k >= 1 scroll events followed by one frame cause exactly one recompute. `ticking` is clear afterwards, with nothing outstanding. |
| `Parallax.ParallaxOrbs.constructor` | script.js:212-224 | `ticking` starts false. The listener is attached exactly when reduced motion is off and the viewport is at least 768 px wide. |
| `Parallax.ParallaxOrbs.OnScroll` | script.js:226-243 | It schedules a frame exactly when the listener is attached and `ticking` was false. `ticking` is then set, at most one callback is outstanding, and the state equals `Replay` of the history. |
| `Parallax.ParallaxOrbs.OnFrame` | script.js:228-239 | The callback runs exactly when `ticking` was set. It recomputes once and leaves `ticking` false with nothing outstanding. |
| `Reveal.RevealBatch` | script.js:58-66 | Goes through the batch in order and adds each intersecting entry's card. Every card revealed afterwards was already revealed or is the target of some entry of the batch. `RevealBatchMembers` proves what it means. |
| `Reveal.RevealBatchMembers` | script.js:58-66 | A card is revealed after a batch exactly when it already was, or some entry of the batch reports it intersecting. |
| `Reveal.RevealMonotone` | script.js:58-66 | No batch removes the mark from any card. |
| `Reveal.RevealCompose` | script.js:58-66 | Two batches in a row act like their concatenation. |
| `Reveal.RevealIdempotent` | script.js:61-63 | Delivering the same batch again changes nothing. |
| `Reveal.NonIntersectingUnchanged` | script.js:60 | A batch made only of non-intersecting entries reveals nothing. |
| `Reveal.ScrollReveal.constructor` | script.js:68-70 | It observes the given cards, and none is revealed yet. |
| `Reveal.ScrollReveal.OnIntersections` | script.js:58-66 | The revealed set becomes `RevealBatch` of the old one. It only grows and stays within the observed cards. |

## Left out

- The fallback smooth scroll `smoothScrollTo` with its `easeInOutCubic` (script.js:182-207) is floating-point numerics driven by animation frames.
- The parallax offsets `0.1 + index * 0.05` and the transform strings (script.js:229-236) are floating point. The model only counts recomputes.
- `initMouseParallax` and `initJobCardAnimations` (script.js:249-304) are never called. The mouse parallax is also floating point.
- The loader timers and the hero stagger (script.js:18-44) are pure timer sequencing.
- The nav-dot click handlers and the global `scrollToSection` (script.js:89-96, 148-156) only call the browser's `scrollIntoView`.
- The visibility pause, touch feedback, easter-egg markup and console banner (script.js:309-349, 371-424) are style and DOM side effects.
- IntersectionObserver geometry (thresholds and root margins, script.js:52-56, 99-103) is left to the platform. The model receives its reports as entries.
- The native smooth-scroll probe (script.js:163) only gates the smooth-scroll fallback, which is left out.
- Reveal.ScrollReveal.OnIntersections requires every reported card to be observed. The platform only reports observed targets.

## Findings

| source | as written | input that shows it | evidently intended | confidence | as-written member | corrected member |
|---|---|---|---|---|---|---|
| script.js:142 | `sectionMap[sectionId] ?? 0` also reads members every object inherits from Object.prototype. Those are functions or objects, not nullish, so `??` keeps them. | `getSectionIndex("toString")` returns `Object.prototype.toString`. `"constructor"`, `"valueOf"` and `"__proto__"` do the same. With such an id, no nav dot would be active. | Every id other than the seven section ids maps to 0. | not executed; high (standard ECMAScript property lookup). On the page only the seven section ids reach this line. The nav-dot model keeps the lookup as written and proves that the two agree on those ids. | `Sections.AsWrittenNotTotal` | `Sections.SectionIndex` |
