/**
 The state machine of the project carousel.

 The component holds two pieces of state: the index of the centred slide and
 whether auto-play is on. The 4-second interval and the 10-second resume
 timeout are not modelled as time: each firing is an event, `Tick` for the
 interval and `Resume` for the timeout. Manual navigation (the arrow buttons
 and the indicator dots) pauses auto-play; a later `Resume` turns it back on.
 */
module CarouselState {
  import opened CarouselIndex

  /** `index` is the centred slide; `autoPlaying` says whether the interval runs. */
  datatype State = State(index: nat, autoPlaying: bool)

  /** What can happen to a mounted carousel. `GoToSlide(k)` is a click on dot `k`. */
  datatype Event = Tick | GoToPrevious | GoToNext | GoToSlide(k: nat) | Resume

  /** The index names one of the `n` projects. */
  predicate Valid(s: State, n: nat) {
    s.index < n
  }

  /** Dots exist only for project indices, so a dot click names one of them. */
  predicate WellFormedEvent(e: Event, n: nat) {
    e.GoToSlide? ==> e.k < n
  }

  predicate WellFormedEvents(es: seq<Event>, n: nat) {
    forall i :: 0 <= i < |es| ==> WellFormedEvent(es[i], n)
  }

  /** A freshly mounted carousel: first slide, auto-play on. */
  function Init(): State {
    State(0, true)
  }

  /** One firing of the auto-advance interval. The interval is only installed
      while auto-play is on, so a paused carousel ignores the event. */
  function AutoAdvance(s: State, n: nat): (r: State)
    requires n > 0
    ensures r.index < n || r == s
    ensures r.autoPlaying == s.autoPlaying
    ensures !s.autoPlaying ==> r == s
    ensures s.autoPlaying && Valid(s, n) ==>
      if s.index == n - 1 then r.index == 0 else r.index == s.index + 1
  {
    if s.autoPlaying then s.(index := NextIndex(s.index, n)) else s
  }

  /** A click on indicator dot `k`. */
  function GoToSlideState(s: State, k: nat): (r: State)
    ensures r.index == k && !r.autoPlaying
  {
    State(k, false)
  }

  /** The left arrow: one slide back, auto-play paused. */
  function GoToPreviousState(s: State, n: nat): (r: State)
    requires n > 0
    ensures Valid(r, n) && !r.autoPlaying
    ensures Valid(s, n) ==>
      if s.index == 0 then r.index == n - 1 else r.index == s.index - 1
  {
    State(PrevIndex(s.index, n), false)
  }

  /** The right arrow: one slide forward, auto-play paused. */
  function GoToNextState(s: State, n: nat): (r: State)
    requires n > 0
    ensures Valid(r, n) && !r.autoPlaying
    ensures Valid(s, n) ==>
      if s.index == n - 1 then r.index == 0 else r.index == s.index + 1
  {
    State(NextIndex(s.index, n), false)
  }

  /** The 10-second timeout scheduled by a manual navigation fires. */
  function ResumeState(s: State): (r: State)
    ensures r.index == s.index && r.autoPlaying
  {
    s.(autoPlaying := true)
  }

  /** The effect of one event on the carousel. */
  function Step(s: State, e: Event, n: nat): (r: State)
    requires n > 0
    ensures Valid(s, n) && WellFormedEvent(e, n) ==> Valid(r, n)
    ensures (e.GoToPrevious? || e.GoToNext? || e.GoToSlide?) ==> !r.autoPlaying
    ensures e.Resume? ==> r.autoPlaying && r.index == s.index
    ensures e.Tick? && !s.autoPlaying ==> r == s
  {
    match e
    case Tick => AutoAdvance(s, n)
    case GoToPrevious => GoToPreviousState(s, n)
    case GoToNext => GoToNextState(s, n)
    case GoToSlide(k) => GoToSlideState(s, k)
    case Resume => ResumeState(s)
  }

  /** The effect of a sequence of events, in order. */
  function Run(s: State, es: seq<Event>, n: nat): State
    requires n > 0
    decreases |es|
  {
    if es == [] then s else Run(Step(s, es[0], n), es[1..], n)
  }

  /** `k` copies of one event. */
  function Repeat(e: Event, k: nat): (es: seq<Event>)
    ensures |es| == k
    ensures forall i :: 0 <= i < k ==> es[i] == e
  {
    seq(k, _ => e)
  }

  /** The initial state is valid for every non-empty project list. */
  lemma InitValid(n: nat)
    requires n > 0
    ensures Valid(Init(), n) && Init().autoPlaying
  {
  }

  /** The index invariant survives any sequence of well-formed events. */
  lemma {:induction false} RunPreservesValid(s: State, es: seq<Event>, n: nat)
    requires n > 0
    requires Valid(s, n)
    requires WellFormedEvents(es, n)
    ensures Valid(Run(s, es, n), n)
    decreases |es|
  {
    if es != [] {
      assert WellFormedEvent(es[0], n);
      RunPreservesValid(Step(s, es[0], n), es[1..], n);
    }
  }

  /** Every reachable state is valid. */
  lemma ReachableValid(es: seq<Event>, n: nat)
    requires n > 0
    requires WellFormedEvents(es, n)
    ensures Valid(Run(Init(), es, n), n)
  {
    RunPreservesValid(Init(), es, n);
  }

  /** While paused, interval ticks change nothing. */
  lemma {:induction false} PausedTicksAreIgnored(s: State, k: nat, n: nat)
    requires n > 0
    requires !s.autoPlaying
    ensures Run(s, Repeat(Tick, k), n) == s
  {
    if k > 0 {
      assert Repeat(Tick, k)[1..] == Repeat(Tick, k - 1);
      PausedTicksAreIgnored(s, k - 1, n);
    }
  }

  /** While playing, `k` ticks advance the index by `k` slides, wrapping. */
  lemma {:induction false} TicksAdvance(s: State, k: nat, n: nat)
    requires n > 0
    requires Valid(s, n) && s.autoPlaying
    ensures Run(s, Repeat(Tick, k), n) == State(NextTimes(s.index, k, n), true)
    decreases k
  {
    if k > 0 {
      var s' := AutoAdvance(s, n);
      assert Repeat(Tick, k)[1..] == Repeat(Tick, k - 1);
      TicksAdvance(s', k - 1, n);
      NextTimesShiftFirst(s.index, k - 1, n);
    }
  }

  /** `k` presses of the right arrow advance the index by `k` slides. */
  lemma {:induction false} NextPressesAdvance(s: State, k: nat, n: nat)
    requires n > 0
    requires Valid(s, n)
    requires k > 0
    ensures Run(s, Repeat(GoToNext, k), n) == State(NextTimes(s.index, k, n), false)
    decreases k
  {
    var s' := GoToNextState(s, n);
    assert Repeat(GoToNext, k)[1..] == Repeat(GoToNext, k - 1);
    if k == 1 {
      assert Run(s', [], n) == s';
    } else {
      NextPressesAdvance(s', k - 1, n);
    }
    NextTimesShiftFirst(s.index, k - 1, n);
  }

  /** A full round of `n` auto-advance ticks returns to the starting slide. */
  lemma TicksFullCycle(s: State, n: nat)
    requires n > 0
    requires Valid(s, n) && s.autoPlaying
    ensures Run(s, Repeat(Tick, n), n) == s
  {
    TicksAdvance(s, n, n);
    FullCycle(s.index, n);
  }

  /** A full round of `n` right-arrow presses returns to the starting slide,
      with auto-play paused. */
  lemma NextPressesFullCycle(s: State, n: nat)
    requires n > 0
    requires Valid(s, n)
    ensures Run(s, Repeat(GoToNext, n), n) == s.(autoPlaying := false)
  {
    NextPressesAdvance(s, n, n);
    FullCycle(s.index, n);
  }

  /** The right arrow undoes the left arrow and vice versa. */
  lemma ArrowsAreInverse(s: State, n: nat)
    requires n > 0
    requires Valid(s, n)
    ensures Run(s, [GoToNext, GoToPrevious], n) == s.(autoPlaying := false)
    ensures Run(s, [GoToPrevious, GoToNext], n) == s.(autoPlaying := false)
  {
  }

  /** A manual navigation followed by its resume timeout leaves the carousel on
      the navigated slide with auto-play back on. */
  lemma NavigateThenResume(s: State, e: Event, n: nat)
    requires n > 0
    requires e.GoToPrevious? || e.GoToNext? || e.GoToSlide?
    ensures !Step(s, e, n).autoPlaying
    ensures Run(s, [e, Resume], n) == Step(s, e, n).(autoPlaying := true)
  {
    var s' := Step(s, e, n);
    assert [e, Resume][1..] == [Resume];
    assert Run(s, [e, Resume], n) == Run(s', [Resume], n);
    assert Run(s', [Resume], n) == Run(ResumeState(s'), [], n);
  }

  /** Clicking dot `k` centres slide `k` and changes nothing besides pausing. */
  lemma DotClickCentres(s: State, k: nat, n: nat)
    requires n > 0
    requires k < n
    ensures Run(s, [GoToSlide(k)], n) == s.(index := k, autoPlaying := false)
    ensures Valid(Run(s, [GoToSlide(k)], n), n)
  {
  }
}
