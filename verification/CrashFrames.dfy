/**
 The frames drawn while a crash-recovery child stands by, and what they decide: the child is
 dismissed at a window's 10th good frame, and the process gives up at a window's 3rd bad frame
 in a row.

 `Step` is the specification of `CrashRecovery.CrashRecovery`.  The reference is the history
 itself: `Renders` is the sequence of frames a window saw, read off the run.
 */
module CrashFrames {
  import opened Wrappers

  type WindowId = nat

  datatype DrawFrameResult = Successful | Errored

  const NUM_DRAW_ERRORS_BEFORE_EXITING := 3
  const NUM_SUCCESSFUL_DRAW_FRAMES_PER_WINDOW := 10

  datatype Counters = Counters(
    consecutiveErrors: map<WindowId, nat>,
    successfulFrames: map<WindowId, nat>,
    renders: map<WindowId, seq<DrawFrameResult>>)

  // `child` is the slot for the recovery process; `running` the global flag; `tornDown` counts
  // the torn-down events; after `exited` nothing happens any more.
  datatype State = State(child: Option<Counters>, running: bool, exited: bool, tornDown: nat)

  datatype FrameStep = Frame(window: WindowId, result: DrawFrameResult) | Teardown

  function Count(m: map<WindowId, nat>, w: WindowId): nat {
    if w in m then m[w] else 0
  }

  function History(c: Counters, w: WindowId): seq<DrawFrameResult> {
    if w in c.renders then c.renders[w] else []
  }

  function Errs(c: Counters, w: WindowId): Counters {
    c.(renders := c.renders[w := History(c, w) + [Errored]],
       consecutiveErrors := c.consecutiveErrors[w := Count(c.consecutiveErrors, w) + 1])
  }

  function Draws(c: Counters, w: WindowId): Counters {
    Counters(c.consecutiveErrors[w := 0],
             c.successfulFrames[w := Count(c.successfulFrames, w) + 1],
             c.renders[w := History(c, w) + [Successful]])
  }

  function Step(s: State, step: FrameStep): State {
    if s.exited || s.child.None? then s
    else
      match step
      case Frame(w, Errored) =>
        var c := Errs(s.child.value, w);
        s.(child := Some(c), exited := c.consecutiveErrors[w] >= NUM_DRAW_ERRORS_BEFORE_EXITING)
      case Frame(w, Successful) =>
        var c := Draws(s.child.value, w);
        if c.successfulFrames[w] >= NUM_SUCCESSFUL_DRAW_FRAMES_PER_WINDOW
        then s.(child := None, running := false, tornDown := s.tornDown + 1)
        else s.(child := Some(c))
      case Teardown => s.(child := None, running := false)
  }

  const Spawned := State(Some(Counters(map[], map[], map[])), true, false, 0)

  function Run(steps: seq<FrameStep>): State {
    if steps == [] then Spawned else Step(Run(steps[..|steps| - 1]), steps[|steps| - 1])
  }

  predicate Alive(s: State) {
    s.child.Some? && !s.exited
  }

  // ----- the reference -----

  function Renders(steps: seq<FrameStep>, w: WindowId): seq<DrawFrameResult> {
    if steps == [] then []
    else
      var last := steps[|steps| - 1];
      Renders(steps[..|steps| - 1], w) + if last.Frame? && last.window == w then [last.result] else []
  }

  function TrailingErrors(h: seq<DrawFrameResult>): nat {
    if h == [] || h[|h| - 1] == Successful then 0 else 1 + TrailingErrors(h[..|h| - 1])
  }

  function Successes(h: seq<DrawFrameResult>): nat {
    if h == [] then 0
    else Successes(h[..|h| - 1]) + if h[|h| - 1] == Successful then 1 else 0
  }

  ghost predicate ThreeBad(h: seq<DrawFrameResult>, i: nat) {
    i + 3 <= |h| && h[i] == h[i + 1] == h[i + 2] == Errored
  }

  // No three bad frames in a row anywhere, and fewer than ten good ones.
  ghost predicate Tolerable(h: seq<DrawFrameResult>) {
    Successes(h) < 10 && forall i: nat :: !ThreeBad(h, i)
  }

  // ----- lemmas on histories -----

  lemma {:induction false} TrailingRun(h: seq<DrawFrameResult>, n: nat)
    ensures TrailingErrors(h) >= n <==> n <= |h| && forall i :: |h| - n <= i < |h| ==> h[i] == Errored
    decreases n
  {
    if n > 0 && h != [] && h[|h| - 1] == Errored { TrailingRun(h[..|h| - 1], n - 1); }
  }

  lemma Snoc(h: seq<DrawFrameResult>, r: DrawFrameResult)
    ensures TrailingErrors(h + [r]) == if r == Errored then TrailingErrors(h) + 1 else 0
    ensures Successes(h + [r]) == Successes(h) + if r == Successful then 1 else 0
  {
    assert (h + [r])[..|h|] == h;
  }

  // Adding a frame stays tolerable when it neither completes three errors nor ten successes.
  lemma TolerableExtends(h: seq<DrawFrameResult>, r: DrawFrameResult)
    ensures var h' := h + [r];
            Tolerable(h') <==> Tolerable(h) && TrailingErrors(h') < 3 && Successes(h') < 10
  {
    var h' := h + [r];
    assert h'[..|h|] == h;
    TrailingRun(h', 3);
    forall i: nat ensures ThreeBad(h', i) <==> ThreeBad(h, i) || (i + 3 == |h'| && TrailingErrors(h') >= 3) {
    }
    if TrailingErrors(h') >= 3 {
      assert ThreeBad(h', |h'| - 3);
    }
  }

  lemma {:induction false} TolerableIsShort(h: seq<DrawFrameResult>)
    requires Tolerable(h)
    ensures |h| <= 3 * Successes(h) + TrailingErrors(h) && TrailingErrors(h) <= 2
  {
    if h != [] {
      var init, last := h[..|h| - 1], h[|h| - 1];
      assert h == init + [last];
      TolerableExtends(init, last);
      TolerableIsShort(init);
    }
  }

  /** A tolerable history has at most 29 frames (9 good ones and 10 gaps of at most 2 bad ones),
      and some history is that long. */
  lemma AtMostTwentyNineFrames(h: seq<DrawFrameResult>)
    ensures Tolerable(h) ==> |h| <= 29
    ensures exists longest :: Tolerable(longest) && |longest| == 29
  {
    if Tolerable(h) { TolerableIsShort(h); }
    var longest := Rounds(9) + [Errored, Errored];
    RoundsTolerable(9);
    TolerableExtends(Rounds(9), Errored);
    TolerableExtends(Rounds(9) + [Errored], Errored);
    Snoc(Rounds(9), Errored);
    Snoc(Rounds(9) + [Errored], Errored);
    assert longest == (Rounds(9) + [Errored]) + [Errored];
  }

  function Rounds(n: nat): (h: seq<DrawFrameResult>)
    ensures |h| == 3 * n
  {
    if n == 0 then [] else Rounds(n - 1) + [Errored, Errored, Successful]
  }

  lemma {:induction false} RoundsTolerable(n: nat)
    requires n < 10
    ensures Tolerable(Rounds(n)) && Successes(Rounds(n)) == n
    ensures n > 0 ==> Rounds(n)[|Rounds(n)| - 1] == Successful
  {
    if n > 0 {
      RoundsTolerable(n - 1);
      RoundTolerable(Rounds(n - 1));
    }
  }

  lemma RoundTolerable(h: seq<DrawFrameResult>)
    requires Tolerable(h) && Successes(h) < 9 && (h != [] ==> h[|h| - 1] == Successful)
    ensures Tolerable(h + [Errored, Errored, Successful])
    ensures Successes(h + [Errored, Errored, Successful]) == Successes(h) + 1
  {
    var h1 := h + [Errored];
    var h2 := h1 + [Errored];
    Snoc(h, Errored);
    Snoc(h1, Errored);
    Snoc(h2, Successful);
    TolerableExtends(h, Errored);
    TolerableExtends(h1, Errored);
    TolerableExtends(h2, Successful);
    assert h2 + [Successful] == h + [Errored, Errored, Successful];
  }

  // ----- runs -----

  // The counters stand for this history of window w.
  predicate Agrees(c: Counters, w: WindowId, h: seq<DrawFrameResult>) {
    && History(c, w) == h
    && Count(c.consecutiveErrors, w) == TrailingErrors(h)
    && Count(c.successfulFrames, w) == Successes(h)
  }

  lemma StepAgrees(s: State, step: FrameStep, w: WindowId, h: seq<DrawFrameResult>)
    requires Alive(s) && Alive(Step(s, step)) && Agrees(s.child.value, w, h)
    ensures Agrees(Step(s, step).child.value, w, if step.Frame? && step.window == w then h + [step.result] else h)
  {
    if step.Frame? {
      Snoc(h, step.result);
      if step.window != w { FramesAreSeparate(s, step.window, step.result, w); }
    }
  }

  // A frame of one window leaves every other window's counters and history alone.
  lemma FramesAreSeparate(s: State, w: WindowId, r: DrawFrameResult, v: WindowId)
    requires Alive(s) && v != w && Step(s, Frame(w, r)).child.Some?
    ensures var was, now := s.child.value, Step(s, Frame(w, r)).child.value;
            && Count(now.consecutiveErrors, v) == Count(was.consecutiveErrors, v)
            && Count(now.successfulFrames, v) == Count(was.successfulFrames, v)
            && History(now, v) == History(was, v)
  {
  }

  /** While the child is alive and the process has not exited, each window's error counter is the
      trailing run of errors in the frames it saw, its success counter is their number of
      successes, and the logged sequence is those frames. */
  lemma {:induction false} CountersAgreeWithHistory(steps: seq<FrameStep>, w: WindowId)
    requires Alive(Run(steps))
    ensures Agrees(Run(steps).child.value, w, Renders(steps, w))
  {
    if steps != [] {
      var init, last := steps[..|steps| - 1], steps[|steps| - 1];
      NotAliveStays(Run(init), last);
      CountersAgreeWithHistory(init, w);
      StepAgrees(Run(init), last, w, Renders(init, w));
      assert Renders(init, w) + [] == Renders(init, w);
    }
  }

  // What the next frame decides, told from the history alone.
  lemma NextFrame(steps: seq<FrameStep>, w: WindowId, r: DrawFrameResult)
    requires Alive(Run(steps))
    ensures var h, s := Renders(steps, w) + [r], Step(Run(steps), Frame(w, r));
            && (s.exited <==> TrailingErrors(h) >= 3)
            && (s.child.None? <==> r == Successful && Successes(h) >= 10)
            && s.tornDown == Run(steps).tornDown + if s.child.None? then 1 else 0
  {
    CountersAgreeWithHistory(steps, w);
    Snoc(Renders(steps, w), r);
  }

  ghost predicate AllTolerable(steps: seq<FrameStep>) {
    forall w :: Tolerable(Renders(steps, w))
  }

  // One more frame of window w: the other histories are as tolerable as before.
  lemma AllTolerableExtends(steps: seq<FrameStep>, w: WindowId, r: DrawFrameResult)
    ensures AllTolerable(steps + [Frame(w, r)]) <==> AllTolerable(steps) && Tolerable(Renders(steps, w) + [r])
  {
    var longer := steps + [Frame(w, r)];
    assert longer[..|longer| - 1] == steps;
    forall v ensures Renders(longer, v) == if v == w then Renders(steps, w) + [r] else Renders(steps, v) {
      assert Renders(steps, v) + [] == Renders(steps, v);
    }
    TolerableExtends(Renders(steps, w), r);
    if AllTolerable(longer) {
      assert Tolerable(Renders(longer, w));
      forall v ensures Tolerable(Renders(steps, v)) {
        assert Tolerable(Renders(longer, v));
      }
    }
  }

  /** The child is still alive, and the process still running, exactly when nobody tore the child
      down and every window's history is tolerable. */
  lemma {:induction false} AliveIff(steps: seq<FrameStep>)
    ensures Alive(Run(steps)) <==> Teardown !in steps && AllTolerable(steps)
  {
    if steps != [] {
      var init, last := steps[..|steps| - 1], steps[|steps| - 1];
      assert steps == init + [last];
      AliveIff(init);
      match last {
        case Frame(w, r) =>
          AllTolerableExtends(init, w, r);
          TolerableExtends(Renders(init, w), r);
          Snoc(Renders(init, w), r);
          if Alive(Run(init)) { NextFrame(init, w, r); }
        case Teardown =>
      }
    }
  }

  // Once the slot is empty or the process has exited, no step changes anything.
  lemma NotAliveStays(s: State, step: FrameStep)
    ensures !Alive(s) ==> Step(s, step) == s
  {
  }

  /** By the 30th frame of any one window the child has been killed or the process has exited. */
  lemma ThirtiethFrameDecides(steps: seq<FrameStep>, w: WindowId)
    requires |Renders(steps, w)| >= 30
    ensures !Alive(Run(steps))
  {
    AliveIff(steps);
    AtMostTwentyNineFrames(Renders(steps, w));
  }

  /** Over any run the running flag is true exactly when the slot holds a process, the torn-down
      event is sent at most once, and once it is sent, or the child is torn down, the slot stays
      empty, so that nothing is sent afterwards. */
  lemma {:induction false} TornDownOnce(steps: seq<FrameStep>, more: seq<FrameStep>)
    ensures var s := Run(steps);
            && (s.running <==> s.child.Some?)
            && s.tornDown <= 1
            && (s.tornDown == 1 ==> s.child.None?)
            && (s.child.None? ==> Run(steps + more) == s)
            && (Teardown in steps ==> s.child.None? || s.exited)
    decreases |steps| + 2 * |more|
  {
    if more != [] {
      var init := more[..|more| - 1];
      TornDownOnce(steps, init);
      assert (steps + more)[..|steps + more| - 1] == steps + init;
    } else {
      assert steps + more == steps;
      if steps != [] {
        var init := steps[..|steps| - 1];
        assert steps == init + [steps[|steps| - 1]];
        TornDownOnce(init, []);
      }
    }
  }

  // While the child lives, this is the tenth good frame of its window.
  ghost predicate Dismisses(before: seq<FrameStep>, step: FrameStep) {
    && Teardown !in before && AllTolerable(before)
    && step.Frame? && step.result == Successful && Successes(Renders(before, step.window)) == 9
  }

  ghost function Dismissals(steps: seq<FrameStep>): nat {
    if steps == [] then 0
    else
      var init := steps[..|steps| - 1];
      Dismissals(init) + if Dismisses(init, steps[|steps| - 1]) then 1 else 0
  }

  // While the child lives, this is the third bad frame of its window in a row.
  ghost predicate GivesUp(before: seq<FrameStep>, step: FrameStep) {
    && Teardown !in before && AllTolerable(before)
    && step.Frame? && step.result == Errored && TrailingErrors(Renders(before, step.window)) == 2
  }

  ghost predicate EverGivesUp(steps: seq<FrameStep>) {
    steps != [] && (EverGivesUp(steps[..|steps| - 1]) || GivesUp(steps[..|steps| - 1], steps[|steps| - 1]))
  }

  /** The torn-down event is sent exactly when a window's tenth good frame dismisses the child, and the
      process exits exactly at a window's third bad frame in a row while the child lives; tearing the
      child down by hand does neither. */
  lemma {:induction false} HowItEnds(steps: seq<FrameStep>)
    ensures Run(steps).tornDown == Dismissals(steps) <= 1
    ensures Run(steps).exited <==> EverGivesUp(steps)
  {
    TornDownOnce(steps, []);
    if steps != [] {
      var init, last := steps[..|steps| - 1], steps[|steps| - 1];
      HowItEnds(init);
      AliveIff(init);
      if last.Frame? && Alive(Run(init)) {
        NextFrame(init, last.window, last.result);
        Snoc(Renders(init, last.window), last.result);
        TolerableIsShort(Renders(init, last.window));
      }
    }
  }

  // The runs show each window the same frames, however they are interleaved.
  ghost predicate SameHistories(steps: seq<FrameStep>, other: seq<FrameStep>) {
    forall w :: Renders(steps, w) == Renders(other, w)
  }

  /** The interleaving of windows does not matter: two runs without a teardown that show each
      window the same frames end with the child alive in both or in neither, and while it is alive
      every window has the same counters and history in both. */
  lemma InterleavingDoesNotMatter(steps: seq<FrameStep>, other: seq<FrameStep>, w: WindowId)
    requires SameHistories(steps, other) && Teardown !in steps && Teardown !in other
    ensures Alive(Run(steps)) <==> Alive(Run(other))
    ensures Alive(Run(steps)) ==>
              var c, c' := Run(steps).child.value, Run(other).child.value;
              && Count(c.consecutiveErrors, w) == Count(c'.consecutiveErrors, w)
              && Count(c.successfulFrames, w) == Count(c'.successfulFrames, w)
              && History(c, w) == History(c', w)
  {
    AliveIff(steps);
    AliveIff(other);
    assert AllTolerable(steps) <==> AllTolerable(other);
    if Alive(Run(steps)) {
      CountersAgreeWithHistory(steps, w);
      CountersAgreeWithHistory(other, w);
    }
  }
}
