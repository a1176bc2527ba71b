# Portfolio widgets: verified state model

A Dafny model of the three pieces of state logic in a React portfolio site:

- **RotatingText** (`src/Components/RotatingText.tsx`): a cursor `currentTextIndex` over a fixed
  list `texts`. It has four imperative operations, `next`, `previous`, `jumpTo` and `reset`. The
  `loop` prop decides between wrapping and saturating at the ends, and `jumpTo` clamps its target.
  The `onNext` handler is called only when the index really changes. The entry under the cursor is
  split into words (each word but the last is followed by a space) and, optionally, characters.
  `getStaggerDelay` computes a per-character reveal delay.
- **Projects** (`src/Pages/Projects.tsx`): the `ImageSlider` shown in the detail modal. It keeps a
  modular image index, a 1-based `k / n` badge and one highlighted dot. The section holds the
  modal's open/close state (`selectedProject`, `isModalOpen`). Each `ProjectCard` shows a
  tech-stack preview of four badges plus a `+N` overflow badge.
- **HomePageBottom** (`src/Components/HomePageBottom.tsx`): a banner that cycles through four
  fixed messages.

Modules:

- `JsMath` holds JavaScript's `%`, `Math.min`, `Math.max` and `Math.abs` on integers. Dafny's `%`
  is Euclidean; JavaScript's truncates.
- `Optional` holds `null`/`undefined`.
- `Cyclic` is the `(i + 1) % n` / `(i - 1 + n) % n` counter shared by the slider and the banner.
  It carries the iteration lemmas.
- `Words` models `split(" ")`, the character split and the rendered text.
- `RotatingText`, `Projects` and `HomePageBottom` follow the three source files.

Every state is an immutable value, and every handler is a pure function from the old state to
the new one. A `setInterval` tick is one call to the step function. `RotatingText` operations
return an `Outcome`: the new index plus the list of arguments `onNext` received.

The slider's state lives in the `ImageSlider` component, which is mounted inside `ProjectModal`.
The model therefore follows React's rule: state survives a re-render that keeps the component
mounted at the same place with the same key. It starts at 0 when the component is mounted again,
and is dropped when the modal renders nothing. Closing the modal unmounts the slider, so a
project opened from a closed modal always starts on its first image. The slider has no `key`, so
opening another project while the modal shows keeps the old index (see "## Findings"). The
section's functions take a `keyed` flag: `false` is the code as written, and `true` adds
`key={project.id}` to the slider.

At the edges the code behaves as follows, and the model follows it:

- With an empty `texts`, the code's `next` moves the index from 0 to 1 (`0 === -1` is false).
  With `loop`, `previous` moves it to -1. Neither is a no-op. The model keeps these moves; its
  range lemmas assume a non-empty list. Rendering an empty `texts` already fails at
  `texts[0].text`.
- The modal is a full-screen overlay, but it does not trap keyboard focus. At widths of 768px and
  up, the "View Case Study" buttons behind it stay reachable with Tab, and pressing one calls
  `openModal` while the modal shows. Below that width the text side holding those buttons is
  hidden (`hidden md:flex`), so it cannot take focus, and the cards themselves take no focus.
  `Projects.Enabled` lets a project of the list open in every state. That is exact for the wide
  layout and over-approximates the narrow one.
- `project.images || [project.image]` keeps an explicitly empty `images` array, because `[]` is
  truthy. The slider then renders nothing. The two real projects both list their images.
- `splitIntoCharacters` uses `Intl.Segmenter` when the browser has it and `Array.from` otherwise.
  The model takes the splitter as a parameter and relies only on what both branches guarantee:
  the pieces of a word concatenate back to the word (`Words.SpellsWord`).

## Model

| member | source | states |
|---|---|---|
| JsMath.Rem | src/Pages/Projects.tsx:76 | JavaScript `%` for a positive divisor: it agrees with Euclidean `%` on non-negative dividends, is in (-b, 0] on negative ones, is the identity below the divisor, and always differs from the dividend by a multiple of the divisor |
| JsMath.Clamp | src/Components/RotatingText.tsx:163 | `Math.max(lo, Math.min(x, hi))` lies in [lo, hi] when that range is non-empty, is `x` inside it, `hi` above it, and `lo` below it or when the range is empty |
| Cyclic.Succ | src/Pages/Projects.tsx:79-81 | `(i + 1) % n` keeps an in-range index in range, adds one below the last position, and wraps the last position to 0 |
| Cyclic.Pred | src/Pages/Projects.tsx:75-77 | `(i - 1 + n) % n` keeps an in-range index in range, subtracts one above 0, and wraps 0 to n - 1 |
| Cyclic.PredAfterSucc | src/Pages/Projects.tsx:75-81 | a backward step undoes a forward step |
| Cyclic.SuccAfterPred | src/Pages/Projects.tsx:75-81 | a forward step undoes a backward step |
| Cyclic.SuccNIsAddition | src/Pages/Projects.tsx:79-81 | k forward steps from i land on (i + k) mod n |
| Cyclic.PredNIsSubtraction | src/Pages/Projects.tsx:75-77 | k backward steps from i land on (i - k) mod n |
| Cyclic.SuccNInRange | src/Pages/Projects.tsx:79-81 | every iterate of an in-range index stays in [0, n) |
| Cyclic.SuccNFullTurn | src/Pages/Projects.tsx:79-81 | n forward steps are the identity |
| Cyclic.PredNFullTurn | src/Pages/Projects.tsx:75-77 | n backward steps are the identity |
| RotatingText.HandleIndexChange | src/Components/RotatingText.tsx:129-135 | stores the new index; `onNext` receives exactly that index, once, when a handler was passed, and nothing is reported without one |
| RotatingText.MoveTo | src/Components/RotatingText.tsx:144-146 | commits the target, and calls `onNext` once with it exactly when it differs from the current index |
| RotatingText.Next | src/Components/RotatingText.tsx:137-147 | with `loop` it equals the modular successor; without `loop` it equals `min(i + 1, len - 1)`; it stays in range; `onNext` is called only on change |
| RotatingText.Previous | src/Components/RotatingText.tsx:149-159 | with `loop` it equals the modular predecessor (0 wraps to len - 1); without `loop` it equals `max(i - 1, 0)`; it stays in range; `onNext` is called only on change |
| RotatingText.JumpTo | src/Components/RotatingText.tsx:161-169 | any integer target lands in range for a non-empty list: targets inside are kept, negative ones go to 0, too-large ones go to len - 1; `onNext` is called only on change |
| RotatingText.Reset | src/Components/RotatingText.tsx:171-175 | the index becomes 0; there is no callback when it was already 0 |
| RotatingText.Apply | src/Components/RotatingText.tsx:137-175 | each of the four operations notifies only on change and keeps an in-range cursor in range |
| RotatingText.Batch | src/Components/RotatingText.tsx:137-175 | calls made from one handler all read the same index: the last call that moves the index decides it, and `onNext` receives, in call order, what every call reported (nothing from calls that do not move); with no moving call nothing changes; the cursor stays in range |
| RotatingText.LastMove | src/Components/RotatingText.tsx:131 | the state left by a batch of setter calls is the current value when no caller moves it, and otherwise one of the targets |
| RotatingText.LastMoveIsLast | src/Components/RotatingText.tsx:131 | a moving target with no moving target after it is the value that sticks |
| RotatingText.SingleCallBatchIsRun | src/Components/RotatingText.tsx:137-175 | a handler making one call behaves like that call made on its own |
| RotatingText.RunStaysInRange | src/Components/RotatingText.tsx:137-175 | any sequence of the four operations keeps the cursor, and every index passed to `onNext`, inside a non-empty list |
| RotatingText.LoopingTicksAreModular | src/Components/RotatingText.tsx:188-192 | with `loop`, k auto-advance ticks from i reach (i + k) mod len |
| RotatingText.LoopingFullTurn | src/Components/RotatingText.tsx:137-147 | with `loop`, len calls to `next` return the cursor to its start |
| RotatingText.LoopingTicksNotifyEachStep | src/Components/RotatingText.tsx:129-147 | with `loop` and at least two entries, k ticks call `onNext` k times, with (i + 1) mod len, ..., (i + k) mod len |
| RotatingText.SingleEntryTicksAreSilent | src/Components/RotatingText.tsx:137-147 | a one-entry list never moves under `next` and never calls `onNext` |
| RotatingText.SaturatingTicks | src/Components/RotatingText.tsx:137-147 | without `loop`, k calls to `next` reach `min(i + k, len - 1)`, so the cursor never passes the last entry |
| RotatingText.SaturatingRewinds | src/Components/RotatingText.tsx:149-159 | without `loop`, k calls to `previous` reach `max(i - k, 0)`, so the cursor never goes below 0 |
| RotatingText.JumpToIdempotent | src/Components/RotatingText.tsx:161-169 | a second `jumpTo` to the same target changes nothing and calls nobody |
| RotatingText.PreviousUndoesNext | src/Components/RotatingText.tsx:137-159 | `previous` after `next` restores the index when `loop` is on or the cursor is not at the last entry |
| RotatingText.FourTicksOnFourEntries | src/Components/RotatingText.tsx:188-192 | four ticks on a looping four-entry list starting at 0 report 1, 2, 3, 0 and end at 0 |
| RotatingText.BackBackForward | src/Components/RotatingText.tsx:137-159 | on three looping entries, previous, previous, next from 0 report 2, 1, 2 |
| RotatingText.DoubleNextInOneHandler | src/Components/RotatingText.tsx:137-147 | with two or more looping entries, two `next` calls in one handler move the cursor once and report that index twice, unlike two ticks on successive renders |
| RotatingText.NextThenResetInOneHandler | src/Components/RotatingText.tsx:137-175 | `next` then `reset` in one handler from entry 0 of three ends on entry 1 and reports 1 once, because `reset` still sees index 0 |
| RotatingText.CurrentElements | src/Components/RotatingText.tsx:84-108 | one word per piece of `split(" ")`, each spelling its piece, whichever character splitter runs; with their spaces the words spell exactly the entry; only the last word has no trailing space; the icon is present exactly for `{text, icon}` entries |
| RotatingText.StaggerDelay | src/Components/RotatingText.tsx:110-127 | with a non-negative duration the delay is non-negative for every in-range character, and for the centre, random and numeric origins always |
| RotatingText.StaggerDelayIsScaledDistance | src/Components/RotatingText.tsx:110-124 | each delay is the distance from the origin times the duration; for "first", "last" and "center" the distance is in [0, total - 1] |
| RotatingText.LastMirrorsFirst | src/Components/RotatingText.tsx:113-115 | the "last" delay of character i is the "first" delay of character total - 1 - i |
| RotatingText.CenterStartsFirst | src/Components/RotatingText.tsx:116-119 | with a positive duration, the "center" delay is 0 exactly at index floor(total / 2) |
| RotatingText.CenterIsSymmetric | src/Components/RotatingText.tsx:116-119 | on an odd count the "center" delays of i and total - 1 - i are equal |
| RotatingText.FirstIsMonotone | src/Components/RotatingText.tsx:113 | with a non-negative duration, "first" delays never decrease along the text |
| Words.Split | src/Components/RotatingText.tsx:93 | `split(" ")` returns at least one piece, and no piece contains a space |
| Words.JoinSplit | src/Components/RotatingText.tsx:93 | joining the pieces of `split(" ")` with spaces gives back the text |
| Words.SplitJoin | src/Components/RotatingText.tsx:93 | space-free pieces survive joining and splitting again |
| Words.Characters | src/Components/RotatingText.tsx:81 | the `Array.from` fallback yields one one-character string per character, and they concatenate back to the word |
| Words.CharactersSpellWord | src/Components/RotatingText.tsx:81 | the `Array.from` fallback is a valid character splitter: its pieces spell every word |
| Words.SegmentByCharacters | src/Components/RotatingText.tsx:81-95 | with the `Array.from` fallback each word has as many animated pieces as characters |
| Words.Segment | src/Components/RotatingText.tsx:91-107 | one word per piece of `split(" ")`, each spelling its piece; `needsSpace` holds for every word except the last; character mode hands each piece to the splitter, other modes keep it whole |
| Words.Render | src/Components/RotatingText.tsx:209-230 | the on-screen text of a row of words: empty for no words, opening with the first word's pieces, and containing a space whenever some word asks for one |
| Words.RenderIsJoin | src/Components/RotatingText.tsx:209-230 | words spelling the pieces, with spaces between them only, render as the pieces joined by spaces |
| Words.RenderSegment | src/Components/RotatingText.tsx:209-230 | in either split mode and with either character splitter, the rendered pieces and spaces spell the entry exactly |
| Projects.GoToPrev | src/Pages/Projects.tsx:75-77 | stays in [0, n) for an in-range index, wraps 0 to n - 1, and otherwise steps back by one |
| Projects.GoToNext | src/Pages/Projects.tsx:79-81 | stays in [0, n) for an in-range index, wraps n - 1 to 0, and otherwise steps forward by one |
| Projects.SliderStep | src/Pages/Projects.tsx:75-115 | an arrow or dot press keeps an in-range index in range, and a dot sets the index to its own position |
| Projects.Dots | src/Pages/Projects.tsx:112-123 | one dot per image, highlighted exactly where its position equals the current index, so exactly one dot is highlighted when the index is in range and none otherwise |
| Projects.OneDotActive | src/Pages/Projects.tsx:116-117 | such a row of dots has exactly one highlight when the index is in the row |
| Projects.RenderSlider | src/Pages/Projects.tsx:71-128 | renders nothing exactly for an empty list; otherwise the badge reads `i + 1` of n and the image is `images[i]`, defined exactly when i is in range; arrows and dots appear exactly when n > 1, with one dot highlighted for an in-range index and none otherwise |
| Projects.PrevUndoesNext | src/Pages/Projects.tsx:75-81 | `goToPrev` after `goToNext`, and `goToNext` after `goToPrev`, return the original index |
| Projects.NextPressesCount | src/Pages/Projects.tsx:79-81 | k presses of the next arrow are k steps of the modular counter |
| Projects.NextFullTurn | src/Pages/Projects.tsx:79-81 | n presses of the next arrow show the starting image again |
| Projects.ModalImages | src/Pages/Projects.tsx:156 | the slider gets `images` when present and `[image]` otherwise; it is empty exactly when `images` is an empty array |
| Projects.Rerender | src/Pages/Projects.tsx:155-158 | there is a slider exactly while the modal shows; one mounted afresh starts at 0; one that stays mounted keeps its index as written, and with `key={project.id}` keeps it only for the same project id |
| Projects.OpenModal | src/Pages/Projects.tsx:327-330 | the selected project becomes p, the modal is open and showing, and a slider mounted afresh starts at image 0 |
| Projects.CloseModal | src/Pages/Projects.tsx:332-335 | the modal is closed, the selection is null, and the slider is unmounted |
| Projects.Enabled | src/Pages/Projects.tsx:97-123 | an arrow or dot press is deliverable exactly when the rendered modal draws that button (more than one image, dot in range); an open is deliverable exactly for a project of the list, whose cards and buttons (lines 355-370) call `openModal` |
| Projects.Step | src/Pages/Projects.tsx:327-370 | every deliverable event keeps the slider mounted exactly while the modal shows; closes, arrow and dot presses, and opens from a closed modal keep the index naming an image of the shown project; with the keyed slider every event does |
| Projects.RunPage | src/Pages/Projects.tsx:300-385 | any deliverable event sequence keeps the slider mounted exactly while the modal shows |
| Projects.RunPageIsValid | src/Pages/Projects.tsx:300-385 | with the keyed slider, after any deliverable sequence of opens, closes, arrow and dot presses, the page is valid and the modal shows a defined image with a badge `k / n`, 1 <= k <= n |
| Projects.InitialPageIsValid | src/Pages/Projects.tsx:303-304 | the first render has no selection, a closed modal and no slider |
| Projects.OpenThenCloseRestores | src/Pages/Projects.tsx:327-335 | opening any project and closing again returns the section to its first render |
| Projects.ReopenStartsAtFirstImage | src/Pages/Projects.tsx:71 | after a close, the next open shows the first image |
| Projects.RenderModal | src/Pages/Projects.tsx:131-158 | the modal renders exactly when it is open with a non-null project; it shows that project's title and stack; a slider appears unless `images` is an empty array; its badge is the slider index plus one, and its image is defined exactly when the page is valid |
| Projects.OpenWhileShowingStrandsIndex | src/Pages/Projects.tsx:155-158 | as written, opening a listed project while the modal shows an index past that project's images leaves the page invalid: the image is undefined and the badge reads `k / n` with k > n |
| Projects.StrandedAfterFiveEvents | src/Pages/Projects.tsx:155-158 | as written, opening the first project, pressing next three times and opening the second leaves index 3 against three images: no image, badge `4 / 3` |
| Projects.CardTechPreview | src/Pages/Projects.tsx:278-289 | the card shows the first `min(4, len)` entries; a `+N` badge appears exactly when len > 4; shown plus N is len |
| Projects.PreviewLosesNothing | src/Pages/Projects.tsx:278-289 | the shown badges followed by the hidden remainder are the whole stack, and the remainder has N entries |
| Projects.CatalogueFacts | src/Pages/Projects.tsx:19-64 | the two cards read `+3` and `+2`, and their modals have four and three images |
| Projects.IdsAreUnique | src/Pages/Projects.tsx:19-64 | no two projects on the page share an id, so `key={project.id}` changes exactly when the project does |
| Projects.SwitchingProjectsShowsFirstImage | src/Pages/Projects.tsx:19-64 | last image of the first project, then close, then open the second: the second project's first image shows, keyed or not |
| HomePageBottom.Step | src/Components/HomePageBottom.tsx:22 | `(i + 1) % 4` keeps the index in [0, 4), adds one below 3, and wraps 3 to 0 |
| HomePageBottom.Banner | src/Components/HomePageBottom.tsx:43 | the banner text is one of the four messages |
| HomePageBottom.IndexAfterIsModular | src/Components/HomePageBottom.tsx:13-22 | after k fades from the initial 0 the index is k mod 4, so `messages[index]` is always defined |
| HomePageBottom.SameAsCounter | src/Components/HomePageBottom.tsx:22 | the rotator is the shared modular counter started at 0 |
| HomePageBottom.Periodic | src/Components/HomePageBottom.tsx:4-22 | the messages come round again every four fades |
| HomePageBottom.FirstBanners | src/Components/HomePageBottom.tsx:4-43 | the indices after 1 to 4 fades are 1, 2, 3, 0, and the fifth banner repeats the first message |

## Left out

- Animation, layout and rendering: framer-motion variants, GSAP tweens, ScrollTrigger pinning (the `useGSAP` block in the projects section), class names and styles. These are calls into external libraries.
- Timer lifecycle (`setInterval` / `clearInterval` in both rotators): a tick is one call to `RotatingText.Next` or `HomePageBottom.Step`. Timer start, cancellation and the `rotationInterval` period are left out. The home banner's index moves in the fade-out's `onComplete`, which is modelled as that step.
- The "random" stagger origin draws `Math.floor(Math.random() * total)`. The draw is a parameter of `RotatingText.StaggerDelay`, not a random value.
- RotatingText.StaggerDelay: durations and indices are integers. The source's `staggerDuration` is a JavaScript number (0.025 in the skills section), and floating-point rounding is not modelled. In this version the render does not read the delay at all.
- RotatingText.JumpTo: targets are integers. Fractional, `NaN` or infinite numbers passed to `jumpTo` are not modelled.
- Words.Characters: models the `Array.from(text)` fallback over single-unit characters. Grapheme clustering by `Intl.Segmenter` is a foreign call; the model keeps only its promise that the pieces spell the word, so piece boundaries are not modelled.
- RotatingText.Run: composes operations as if React re-rendered between them, as timer ticks and separate clicks do. Several calls made from one handler read the same stale index; that case is `RotatingText.Batch`.
- Icons are opaque labels. In the source they are React elements.
- Project fields that only feed the display (description, features, GitHub URL) are not part of `Projects.Project`.
- React's batching of the two `setState` calls in `openModal` / `closeModal` is modelled as one atomic transition.
- `TiltText`, `TypingText`, the intro, keyword, skills-knowledge and footer pages, the header and the app shell have no state logic of their own and are not part of this model.
- `src/Pages/HomePage.tsx` (its `isLargeScreen` state, set from window resizes), `src/Pages/Skills.tsx` (a caller that passes `{text, icon}` entries to `RotatingText`) and `src/Components/Projects/ProjectCard.tsx` (a second card component that the projects section does not import) are not part of this model. The first depends on the window size, the second only configures `RotatingText`, and the third is never rendered by the modelled section.

## Findings

| source | as written | input that shows it | evidently intended | confidence | as-written member | corrected member |
|---|---|---|---|---|---|---|
| src/Pages/Projects.tsx:155-158 | `ImageSlider` has no `key`, so its index survives a switch to another project while the modal shows; at widths of 768px and up, the "View Case Study" buttons (lines 366-370) stay keyboard-reachable behind the overlay; below that width they are hidden (line 362) and cannot take focus | at a width of 768px or more: open the first project, press next three times, Tab to the second project's button and press Enter: index 3 against three images, no image, badge `4 / 3` | `key={project.id}` on the slider, so each project opens on its first image | medium, not executed | Projects.OpenWhileShowingStrandsIndex | Projects.RunPageIsValid |
