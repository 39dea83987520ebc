# Questionnaire navigation controller

A Dafny model of `NavigationData`, the controller of a multi-slide school
meals application form. The whole questionnaire is rendered at once as a
sequence of `section.slide` elements. The controller decides which slide is
visible by putting the `current` class on it. It also records coarse
progress: `stepsCompleted` and `currentSlideIndex`. It follows the address
bar: a fragment `#/<slide-id>` selects a slide. An empty fragment (`#`, `#/`,
or none at all) selects the first slide. The id `debug` makes every slide
current.

Files:

- `wrappers.dfy`: `Option`, which stands for JavaScript's `null` and
  `undefined`.
- `hash.dfy` (module `Hash`): reading the slide id out of a URL
  (`url.split('#')[1] || '/'`, then `substr(1)`), the fragment `init`
  writes, and the fragment `next`/`jump` write (`'#/' + id`), with their
  round-trip lemmas.
- `slides.dfy` (module `SlideModel`): a slide is a value with an `id`, a
  `current` flag and the `data-begins-section` and `data-incomplete`
  attributes. This module holds the navigation rules as functions on values:
  `NextTarget` and `FirstIncomplete` for the scans, `Reflect` for
  `reflectProgress`, and `Scan`/`GoTo` for the state `goToSlide` leaves after
  visiting k slides and after visiting all of them. It also holds the lemmas
  about these rules.
- `navigation.dfy` (module `Navigation`): the class `NavigationData`. Its
  fields are the slide sequence and the two progress fields. Its methods have
  the source's loops (retag in place, count, scan with early return), and
  each one is proved against the functions above. The module ends with
  end-to-end lemmas that follow a written fragment through the hash-change
  handler.

The browser is not modelled. The DOM query `getElementsByClassName('slide')`
becomes the `slides` field. Methods that write `window.location.hash` return
the fragment they would write. A `hashchange` event becomes a call to
`HandleHashChange` with the new URL. The functions `AfterNext` and
`AfterInit` chain a write and the resulting hash change, standing in for the
browser. The lemmas `InitSelectsFirstSlide`, `NextStep` and `FourSlideWalk`
state what such chains lead to.

Behaviour of the code worth knowing, which the model keeps:

- `stepsCompleted` counts section beginnings at or before the current slide
  (the current slide included), minus one. It starts as `null`.
- `currentSlideIndex` starts as 0. When no slide matches, it keeps its
  previous value.
- `next()` with no next slide, `jump()` with no incomplete slide, and a hash
  change that resolves to no id when there are no slides all throw in the
  code; none of them is a no-op. The model returns `None` or
  `handled == false`, and the state is unchanged.
- Debug mode is turned on by a fragment of `#`, then any one character
  other than `#`, then `debug`, up to the end or the next `#`. `#/debug` is
  the usual form, but `#!debug` and `#/debug#top` work too, because
  `substr(1)` drops whatever the first character is (`DebugFragment`). The
  `#debug/` form named in the source's opening comment reads as the id
  `ebug/` (`MisspeltDebugFragment`).

## Model

| member | source | states |
|---|---|---|
| `Hash.FragmentId` | src/stores/NavigationData.js:147 | the model of the parse: the piece between the first `#` and the next, `/` when it is missing or empty, without its first character |
| `Hash.SlideHash` | src/stores/NavigationData.js:164-170 | the model of the fragment `next`/`jump` write: `#/` followed by the id |
| `Hash.Find` | src/stores/NavigationData.js:147 | the first index of a character, or none exactly when the character is absent; nothing before that index is the character |
| `Hash.SplitSecond` | src/stores/NavigationData.js:147 | `split('#')[1]` is missing exactly when the URL has no `#`, and never contains `#` |
| `Hash.SplitSecondOf` | src/stores/NavigationData.js:147 | for every URL `pre + "#" + seg + rest` with no `#` in `pre` or `seg`, and `rest` empty or starting with `#`, the second piece is exactly `seg` |
| `Hash.FragmentIdOfSegment` | src/stores/NavigationData.js:147 | the id is the non-empty text between the first `#` and the next `#` (or the end), without its first character |
| `Hash.FragmentIdOfSlideHash` | src/stores/NavigationData.js:146-148 | round trip: a URL that is a fragment-free page address followed by `'#/' + id`, exactly as `next`/`jump` write it, reads back as `id`, for every id without `#` |
| `Hash.FragmentIdOfRoot` | src/stores/NavigationData.js:147-148 | a page address with no `#`, followed by nothing, `#` or `#/`, carries the empty id, so the handler falls back to the first slide |
| `Hash.InitHash` | src/stores/NavigationData.js:153-158 | `init` always writes a fragment different from the current one, always `#` or `#/`, and `#` exactly when the current one is `#/` |
| `Hash.InitHashIsRoot` | src/stores/NavigationData.js:146-158 | whatever the current fragment, the one `init` writes reads as the empty id |
| `Hash.DebugFragment` | src/stores/NavigationData.js:135-147 | every fragment `#`, one character other than `#`, `debug`, then the end or another `#`, reads as the debug id (`#/debug` among them) |
| `Hash.MisspeltDebugFragment` | src/stores/NavigationData.js:9 | the `#debug/` form in the comment reads as `ebug/`, so it does not turn on debug mode |
| `SlideModel.Matches` | src/stores/NavigationData.js:135 | the model of the test in `goToSlide`: the slide's id is the id, or the id is `debug` |
| `SlideModel.Reflect` | src/stores/NavigationData.js:107-126 | the model of `reflectProgress` for the slide at `target`: index and section count through it minus one; for a target past the end, the length and the total minus one |
| `SlideModel.Scan` | src/stores/NavigationData.js:132-141 | the model of the state after `goToSlide`'s loop has visited the first `k` slides: those retagged, and progress reflected for the last match among them |
| `SlideModel.GoTo` | src/stores/NavigationData.js:128-141 | the model of the state `goToSlide` leaves: `Scan` over every slide |
| `SlideModel.FirstFrom` | src/stores/NavigationData.js:63-92 | the forward scan finds the lowest index at or after `k` whose slide has the property, or none when no slide has it |
| `SlideModel.NextTarget` | src/stores/NavigationData.js:60-81 | `nextSlide` is slide `i+1` when the first current slide is `i` and is not the last; none when it is the last; slide 0 when no slide is current; none when there are no slides |
| `SlideModel.FirstIncomplete` | src/stores/NavigationData.js:83-97 | `firstIncompleteSlide`/`jumpSlide` is the lowest-index incomplete slide; none exactly when no slide is incomplete |
| `SlideModel.LastMatch` | src/stores/NavigationData.js:132-141 | the last slide below `k` that matches `id` (`slide.id === id \|\| id === 'debug'`), with no match after it; none when no slide matches |
| `SlideModel.SectionsBefore` | src/stores/NavigationData.js:112-115 | the section count over the first `k` slides is at most `k` |
| `SlideModel.SectionsBeforeCounts` | src/stores/NavigationData.js:109-124 | the counter equals the size of the set of section-beginning indices below `k` |
| `SlideModel.SectionsBeforeMonotone` | src/stores/NavigationData.js:112-115 | the count never decreases as the scan goes further |
| `SlideModel.ReflectRecords` | src/stores/NavigationData.js:107-126 | `reflectProgress(slides[t])` sets `currentSlideIndex` to `t`, and sets `stepsCompleted` to the number of section-beginning slides at indices at most `t`, minus one; for a slide not in the sequence it records the length and the total minus one; the slides do not change |
| `SlideModel.ReflectBounds` | src/stores/NavigationData.js:107-126 | progress is at most the target index, and at least 0 when the first slide begins a section |
| `SlideModel.ReflectMonotone` | src/stores/NavigationData.js:107-126 | a later target never gives less progress |
| `SlideModel.ReflectExample` | src/stores/NavigationData.js:107-126 | with sections at 0, 3 and 7, slide 0 gives 0, slide 5 gives 1, slide 7 gives 2 |
| `SlideModel.ScanStep` | src/stores/NavigationData.js:132-141 | one loop iteration of `goToSlide`: retag slide `k` and, when it matches, reflect progress for it |
| `SlideModel.GoToRetags` | src/stores/NavigationData.js:128-141 | `goToSlide` keeps the order, ids, section and incomplete flags of every slide; a slide ends up current exactly when it matches |
| `SlideModel.GoToSelects` | src/stores/NavigationData.js:128-141 | with unique ids and a non-debug id, after `goToSlide(slides[k].id)` exactly slide `k` is current, `currentSlideIndex == k`, and `stepsCompleted` is the number of sections through `k`, minus one |
| `SlideModel.GoToUnmatched` | src/stores/NavigationData.js:128-141 | an id no slide has (not `debug`) leaves no slide current and both progress fields unchanged |
| `SlideModel.GoToAtMostOneCurrent` | src/stores/NavigationData.js:128-141 | with unique ids and a non-debug id, at most one slide is current afterwards, and `currentSlideIndex` is its index |
| `SlideModel.GoToDebug` | src/stores/NavigationData.js:135-137 | `goToSlide('debug')` marks every slide current; `currentSlideIndex` ends at the last index, with that slide's progress |
| `SlideModel.GoToForgets` | src/stores/NavigationData.js:128-141 | when some slide matches, the state after `goToSlide` does not depend on the current flags or progress fields before it |
| `SlideModel.GoToIdempotent` | src/stores/NavigationData.js:128-141 | running `goToSlide(id)` twice gives the same state as running it once (flags, `currentSlideIndex`, `stepsCompleted`), for every id |
| `Navigation.ResolveId` | src/stores/NavigationData.js:146-148 | the handler navigates to the fragment's id when it is non-empty, and otherwise (a URL with no fragment, `#` or `#/`, or an empty piece) to the first slide's id; it has no id exactly when the fragment is empty and there are no slides |
| `Navigation.NavigationData.constructor` | src/stores/NavigationData.js:22-27 | a new controller has `stepsCompleted == null`, `currentSlideIndex == 0` and the given slides |
| `Navigation.NavigationData.NextSlide` | src/stores/NavigationData.js:60-81 | the scan with early return computes `NextTarget` of the slides |
| `Navigation.NavigationData.FirstIncompleteSlide` | src/stores/NavigationData.js:83-93 | the scan with early return computes `FirstIncomplete` of the slides |
| `Navigation.NavigationData.JumpSlide` | src/stores/NavigationData.js:95-97 | `jumpSlide` is `firstIncompleteSlide` |
| `Navigation.NavigationData.CanJump` | src/stores/NavigationData.js:99-105 | jumping is never permitted |
| `Navigation.NavigationData.ReflectProgress` | src/stores/NavigationData.js:107-126 | the counting loop leaves the state `Reflect(old state, target)` |
| `Navigation.NavigationData.GoToSlide` | src/stores/NavigationData.js:128-144 | the in-place retagging loop leaves the state `GoTo(old state, id)` |
| `Navigation.NavigationData.HandleHashChange` | src/stores/NavigationData.js:146-151 | navigates to `ResolveId(newURL)`; where the source throws (no id, no slides), it reports failure and leaves the state unchanged |
| `Navigation.NavigationData.Next` | src/stores/NavigationData.js:164-166 | writes `'#/' + id` of `NextTarget`; nothing exactly when there is no next slide |
| `Navigation.NavigationData.Jump` | src/stores/NavigationData.js:168-170 | writes `'#/' + id` of the first incomplete slide; nothing exactly when no slide is incomplete |
| `Navigation.NavigateToWrittenHash` | src/stores/NavigationData.js:146-170 | with no other slide sharing slide `k`'s id, and that id non-empty, free of `#` and not `debug`, the fragment written for slide `k`, taken back as written by the handler, selects `k`: only `k` is current, with index `k` and its progress |
| `Navigation.InitSelectsFirstSlide` | src/stores/NavigationData.js:146-158 | after `init` the handler resolves to the first slide's id, whatever the previous fragment |
| `Navigation.NextStep` | src/stores/NavigationData.js:60-81 | `next` from slide `k`, followed through the hash change, gives the same state as navigating straight to slide `k+1` |
| `Navigation.FourSlideWalk` | src/stores/NavigationData.js:107-170 | slides A(section), B, C(section), D: after `init` only A is current, at index 0 with progress 0; each `next` makes only the following slide current (B: index 1, progress 0; C: 2, 1; D: 3, 1); from D `next` has no target |

## Left out

- The `hashchange` polyfill and the `window.onhashchange` registration
  (src/stores/NavigationData.js:29-49) are browser event plumbing. A hash
  change is modelled as a call to `HandleHashChange` with the new URL.
- `window.scrollTo(0, 0)` (line 143) and `back()` through
  `window.history.back()` (lines 160-162) are foreign browser calls. Because
  the history stack is not modelled, neither is the stale forward-history
  hazard described in the opening comment.
- `window.location.hash` and the asynchronous delivery of its change are
  not modelled. `Init` is the pure function `Hash.InitHash` of the current
  fragment, and `Next`/`Jump` return the fragment they would write.
- URL serialisation: the new URL a hash change delivers is taken to be the
  page address followed by the fragment exactly as written. Browsers
  percent-encode some fragment characters (space, `"`, `<`, `>`, backtick,
  control and non-ASCII characters), so an id such as `a b` comes back as
  `a%20b`, matches no slide, and leaves none current. The round-trip lemmas
  `FragmentIdOfSlideHash`, `NavigateToWrittenHash` and `NextStep` hold only
  for ids the browser keeps unencoded.
- The DOM: `getElementsByClassName('slide')` (lines 52-54) becomes the
  `slides` field, and DOM element identity (`slide == slides[i]`) becomes
  the slide's index. The `current` class is a boolean. The className
  concatenation and the regular-expression strip (lines 130, 136, 139) are
  not modelled. That includes the strip's side effect on other class names
  that contain the text `current`.
- The `currentSlide` getter (lines 56-58) is a plain index read
  (`undefined` out of range). No modelled operation uses it.
- `nextSlide` on an empty sequence returns `slides[0]`, which is
  `undefined`, while it returns `null` after the last slide. Both become
  `None`, and `next()` throws on either.
- Throwing in `next()`, `jump()` and `handleHashChange` is modelled as a
  `None` or `false` result with the state unchanged. The exception itself is
  not modelled.
- MobX `@observable`/`@action` decorators, `CURRENT_CLASS_NAME` and the
  unused `history` field (lines 22-27) are not modelled.
- src/components/application/slides/MilitaryIncome.jsx and
  src/components/application/Checkbox.jsx are not part of this model. They
  are React rendering and input glue with no navigation logic.
