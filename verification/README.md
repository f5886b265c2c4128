# Project carousel: a Dafny model

This project models the project carousel of a personal portfolio site. The
carousel shows three project cards at a time: the previous, the centred and the
next project. It rotates on its own every few seconds. Arrow buttons and a row
of indicator dots let the visitor move it by hand. A manual move pauses the
automatic rotation, and a timeout later turns it back on.

The model has three modules:

- `CarouselIndex` covers the wrap-around index arithmetic. It defines one step
  forward, one step back, and `k` steps forward.
- `CarouselState` is the state machine. The state is `State(index, autoPlaying)`.
  The events are `Tick` (the auto-advance interval fires), `GoToPrevious`,
  `GoToNext`, `GoToSlide(k)` (a dot click) and `Resume` (the resume timeout
  fires). `Run` folds a sequence of events over a state.
- `CarouselView` covers what is shown. `GetVisibleProjects` builds the
  three-card window and `Dots` builds the indicator row. `Window` is the
  intended window, built from the arrow steps `PrevIndex` and `NextIndex`
  rather than from the loop's offsets.

The number of projects `n` is a parameter with `n > 0`. The fixed four-project
list is `CarouselView.Projects`.

The source's `%` truncates toward zero, while Dafny's `%` is Euclidean. The two
agree here, because every dividend is non-negative. The backward step adds `n`
before reducing, and the model keeps that `+ n` as written.

The carousel in the code is index-based.

## Model

| member | source | states |
|---|---|---|
| CarouselIndex.NextIndex | components/ui/project-carousel.tsx:57 | The forward step always lands in `[0, n)`. It moves to `i + 1` inside the list and wraps from the last slide to slide 0. |
| CarouselIndex.PrevIndex | components/ui/project-carousel.tsx:71 | The backward step `(i - 1 + n) % n` always lands in `[0, n)`. It moves to `i - 1` inside the list and wraps from slide 0 to slide `n - 1`. |
| CarouselIndex.PrevUndoesNext | components/ui/project-carousel.tsx:70-80 | For every valid index, a step back after a step forward returns to the start. |
| CarouselIndex.NextUndoesPrev | components/ui/project-carousel.tsx:70-80 | For every valid index, a step forward after a step back returns to the start. |
| CarouselIndex.NextTimesIsShift | components/ui/project-carousel.tsx:56-58 | `k` forward steps from `i` land on `(i + k) % n`. |
| CarouselIndex.NextTimesShiftFirst | components/ui/project-carousel.tsx:57 | Taking the first of `k + 1` forward steps up front reaches the same slide. |
| CarouselIndex.FullCycle | components/ui/project-carousel.tsx:56-58 | `n` forward steps bring every valid index back to itself. |
| CarouselState.AutoAdvance | components/ui/project-carousel.tsx:53-61 | A tick leaves a paused carousel unchanged. While playing, it moves the index one slide forward with wrap-around. It never changes the auto-play flag. |
| CarouselState.GoToSlideState | components/ui/project-carousel.tsx:63-68 | A dot click sets the index to exactly `k` and pauses auto-play. |
| CarouselState.GoToPreviousState | components/ui/project-carousel.tsx:70-74 | The left arrow gives a valid index one slide back, wrapping at 0, and pauses auto-play. |
| CarouselState.GoToNextState | components/ui/project-carousel.tsx:76-80 | The right arrow gives a valid index one slide forward, wrapping at `n - 1`, and pauses auto-play. |
| CarouselState.ResumeState | components/ui/project-carousel.tsx:67 | The resume timeout turns auto-play on and keeps the index. |
| CarouselState.Step | components/ui/project-carousel.tsx:53-80 | Every well-formed event keeps the index in range. Every manual navigation pauses auto-play. `Resume` re-enables auto-play without moving the index. A tick while paused changes nothing. |
| CarouselState.InitValid | components/ui/project-carousel.tsx:50-51 | The mounted carousel starts on slide 0 with auto-play on, which is a valid state for every non-empty list. |
| CarouselState.RunPreservesValid | components/ui/project-carousel.tsx:53-80 | The index stays in `[0, n)` across any sequence of ticks, arrow presses, dot clicks and resumes. |
| CarouselState.ReachableValid | components/ui/project-carousel.tsx:50-80 | Every state reachable from the initial state has an index in range. |
| CarouselState.PausedTicksAreIgnored | components/ui/project-carousel.tsx:53-54 | While auto-play is off, any number of ticks leaves the state unchanged. |
| CarouselState.TicksAdvance | components/ui/project-carousel.tsx:56-58 | While auto-play is on, `k` ticks move the index `k` slides forward and keep auto-play on. |
| CarouselState.TicksFullCycle | components/ui/project-carousel.tsx:56-58 | `n` ticks while playing return the carousel to exactly its starting state. |
| CarouselState.NextPressesAdvance | components/ui/project-carousel.tsx:76-80 | `k > 0` right-arrow presses move the index `k` slides forward and leave auto-play off. |
| CarouselState.NextPressesFullCycle | components/ui/project-carousel.tsx:76-80 | `n` right-arrow presses return to the starting slide, with auto-play paused. |
| CarouselState.ArrowsAreInverse | components/ui/project-carousel.tsx:70-80 | Right then left, or left then right, restores the index. The only other change is that auto-play is paused. |
| CarouselState.NavigateThenResume | components/ui/project-carousel.tsx:63-80 | A manual navigation pauses auto-play. Its later `Resume` turns auto-play back on and keeps the slide the navigation chose. |
| CarouselState.DotClickCentres | components/ui/project-carousel.tsx:152-156 | Clicking dot `k < n` changes only the index, to `k`, and the flag, to paused. The result is valid. |
| CarouselView.Window | components/ui/project-carousel.tsx:82-92 | The intended window has three slots, each naming a project in range. Exactly one slot, the middle one, is the centre, and for a valid index it holds that index. |
| CarouselView.GetVisibleProjects | components/ui/project-carousel.tsx:82-92 | The loop over offsets -1, 0, +1 yields exactly three cards. They are the previous, the current and the next project, in that order, each carrying its own project record. Only the middle card is `Center`. For a valid index the middle card is that index. |
| CarouselView.WindowIndicesDistinct | components/ui/project-carousel.tsx:82-92 | With at least three projects, the three visible slots name three different projects. |
| CarouselView.WindowSidesCoincide | components/ui/project-carousel.tsx:84-85 | With one or two projects, the left and right neighbours are the same project. |
| CarouselView.WindowShiftsOnNext | components/ui/project-carousel.tsx:76-92 | After one step forward, the old centre is the new left side and the old right side is the new centre. |
| CarouselView.VisibleKeysDistinct | components/ui/project-carousel.tsx:107-109 | For the four-project list, the three visible cards never share a key (`id`). |
| CarouselView.Dots | components/ui/project-carousel.tsx:152-155 | One dot per project. Dot `i` is active exactly when `i` equals the current index. |
| CarouselView.OneActiveDot | components/ui/project-carousel.tsx:152-155 | Exactly one dot is active when the index is in range, namely dot `index`. No dot is active otherwise. |
| CarouselView.ActiveDotIsCentre | components/ui/project-carousel.tsx:152-155 | In a valid state the active dot is the centred card's project. No other dot is active. |
| CarouselView.DotClickActivatesDot | components/ui/project-carousel.tsx:152-156 | After a click on dot `k`, dot `k` is the single active dot. |

## Left out

- Timer semantics are not modelled. This covers the 4-second interval, the 10-second timeouts, and the interval restarting whenever auto-play turns back on. `Tick` and `Resume` are events that may arrive in any order.
- Stacked resume timeouts are not modelled. Each manual move schedules its own timeout, so an earlier move's timeout can resume auto-play soon after a later move. In the model this is a `Resume` arriving right after a navigation.
- Rendering is not modelled: the JSX markup, styling, images, the accordion that shows details on the centred card, and the card and button library components.
- The other files are not modelled: the journey timeline, the experience tabs, the page layout, the scroll-driven black bar and the third-party script loader. They are static data mapped to markup, viewport geometry, or a foreign script.
- CarouselState.GoToSlideState: accepts any `k`, as `goToSlide` does. Range holds because the dots only pass project indices, which is captured by `WellFormedEvent` and not by a precondition.
