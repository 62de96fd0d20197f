/**
 The app's windows and its one hotkey ("quake") window, as values.

 A window id is the window's position in the log of every window ever opened, so ids are never
 reused.  Steps that only the operating system takes (closing a window, moving focus) are steps
 like any other.  `Step` is the specification of the methods of `Windows.App`.
 */
module Desktops {
  import opened Wrappers

  type WindowId = nat

  // What a window was opened with.
  datatype Opening =
    | HotkeyWindow
    | EmptyWindow
    | Restored(index: nat, quakeMode: bool)
    | FromTemplate(index: nat)

  datatype WindowState = Open | PendingOpen | Hidden

  datatype Quake = Quake(state: WindowState, window: WindowId)

  // `visible` holds the open windows, each with whether it is on screen.
  datatype Desktop = Desktop(
    log: seq<Opening>, visible: map<WindowId, bool>, quake: Option<Quake>, hideWhenUnfocused: bool)

  datatype Snapshot = Snapshot(window: WindowId, quakeMode: bool)

  predicate IsHotkey(opening: Opening) {
    opening.HotkeyWindow? || (opening.Restored? && opening.quakeMode)
  }

  // ----- windowing -----

  function Add(d: Desktop, opening: Opening, shown: bool): Desktop {
    d.(log := d.log + [opening], visible := d.visible[|d.log| := shown])
  }

  function AddAll(d: Desktop, openings: seq<Opening>): Desktop {
    if openings == [] then d
    else Add(AddAll(d, openings[..|openings| - 1]), openings[|openings| - 1], true)
  }

  lemma AddOneMore(d: Desktop, openings: seq<Opening>, last: Opening)
    ensures AddAll(d, openings + [last]) == Add(AddAll(d, openings), last, true)
  {
    assert (openings + [last])[..|openings|] == openings;
  }

  function SetShown(d: Desktop, w: WindowId, shown: bool): Desktop {
    if w in d.visible then d.(visible := d.visible[w := shown]) else d
  }

  // ----- the hotkey window -----

  function Toggle(d: Desktop): Desktop {
    if d.quake.None? || d.quake.value.window !in d.visible then
      Add(d, HotkeyWindow, true).(quake := Some(Quake(PendingOpen, |d.log|)))
    else
      var q := d.quake.value;
      if q.state.Hidden?
      then SetShown(d, q.window, true).(quake := Some(q.(state := PendingOpen)))
      else SetShown(d, q.window, false).(quake := Some(q.(state := Hidden)))
  }

  // The unfocus rule, on a change of the active window.
  function FocusChanged(d: Desktop, active: Option<WindowId>): Desktop {
    if !d.hideWhenUnfocused || d.quake.None? then d
    else
      var q := d.quake.value;
      match q.state
      case PendingOpen => d.(quake := Some(q.(state := Open)))
      case Open =>
        if active == Some(q.window) then d
        else SetShown(d, q.window, false).(quake := Some(q.(state := Hidden)))
      case Hidden => d
  }

  function FocusPane(d: Desktop, w: WindowId): Desktop {
    var d' := if d.quake.Some? && d.quake.value.window == w
              then d.(quake := Some(d.quake.value.(state := Open)))
              else d;
    SetShown(d', w, true)
  }

  // ----- restoring a session -----

  // The window at this index is opened after all others.
  predicate OpensLast(snapshots: seq<Snapshot>, activeIndex: Option<nat>, i: nat) {
    i < |snapshots| && !snapshots[i].quakeMode && activeIndex == Some(i)
  }

  // The loop over the first k snapshots.
  function RestoreLoop(d: Desktop, snapshots: seq<Snapshot>, activeIndex: Option<nat>, isWindows: bool, k: nat): Desktop
    requires k <= |snapshots|
  {
    if k == 0 then d
    else
      var i := k - 1;
      var done := RestoreLoop(d, snapshots, activeIndex, isWindows, i);
      if snapshots[i].quakeMode then
        if isWindows then done
        else Add(done, Restored(i, true), false).(quake := Some(Quake(Hidden, |done.log|)))
      else if activeIndex == Some(i) then done
      else Add(done, Restored(i, false), true)
  }

  predicate HasNormal(snapshots: seq<Snapshot>) {
    exists i :: 0 <= i < |snapshots| && !snapshots[i].quakeMode
  }

  function Restore(d: Desktop, snapshots: seq<Snapshot>, activeIndex: Option<nat>, isWindows: bool,
          enabled: bool): Desktop {
    if !enabled then d
    else
      var looped := RestoreLoop(d, snapshots, activeIndex, isWindows, |snapshots|);
      var filled := if HasNormal(snapshots) then looped else Add(looped, EmptyWindow, true);
      if activeIndex.Some? && OpensLast(snapshots, activeIndex, activeIndex.value)
      then Add(filled, Restored(activeIndex.value, false), true)
      else filled
  }

  // ----- steps -----

  datatype DesktopStep =
    | Toggles
    | FocusChanges(active: Option<WindowId>)
    | FocusesPane(window: WindowId)
    | ShownByOtherAction(window: WindowId)
    | HiddenByOtherAction(window: WindowId)
    | Closes(window: WindowId)
    | OpensEmpty
    | SetsHideWhenUnfocused(on: bool)
    | Restores(snapshots: seq<Snapshot>, activeIndex: Option<nat>, isWindows: bool, enabled: bool)

  function Step(d: Desktop, step: DesktopStep): Desktop {
    match step
    case Toggles => Toggle(d)
    case FocusChanges(active) => FocusChanged(d, active)
    case FocusesPane(w) => FocusPane(d, w)
    case ShownByOtherAction(w) => SetShown(d, w, true)
    case HiddenByOtherAction(w) => SetShown(d, w, false)
    case Closes(w) => d.(visible := d.visible - {w})
    case OpensEmpty => Add(d, EmptyWindow, true)
    case SetsHideWhenUnfocused(on) => d.(hideWhenUnfocused := on)
    case Restores(snapshots, activeIndex, isWindows, enabled) =>
      Restore(d, snapshots, activeIndex, isWindows, enabled)
  }

  // ----- invariants -----

  ghost predicate IdsLogged(d: Desktop) {
    && (forall w :: w in d.visible ==> w < |d.log|)
    && (d.quake.Some? ==> d.quake.value.window < |d.log|)
  }

  predicate IsOpenHotkey(d: Desktop, w: WindowId) {
    w in d.visible && w < |d.log| && IsHotkey(d.log[w])
  }

  // Every open hotkey window is the recorded one; so there is at most one.
  ghost predicate OneHotkey(d: Desktop) {
    forall w :: IsOpenHotkey(d, w) ==> d.quake.Some? && d.quake.value.window == w
  }

  ghost predicate HotkeyIsOpen(d: Desktop) {
    exists w :: IsOpenHotkey(d, w)
  }

  // While the recorded window is open, it is on screen exactly in the states Open and PendingOpen.
  ghost predicate Agrees(d: Desktop) {
    d.quake.Some? && d.quake.value.window in d.visible ==>
      (d.visible[d.quake.value.window] <==> !d.quake.value.state.Hidden?)
  }

  /** Toggling makes record and screen agree from any state at all, and turns a hotkey window that
      is recorded as hidden, or that is not open, into a visible one, and any other into a hidden
      one.  So toggling flips an open hotkey window exactly when record and screen agreed before. */
  lemma ToggleAgrees(d: Desktop)
    requires IdsLogged(d)
    ensures var d', q := Toggle(d), Toggle(d).quake;
            && Agrees(d') && q.Some? && q.value.window in d'.visible
            && (d'.visible[q.value.window] <==>
                  d.quake.None? || d.quake.value.window !in d.visible || d.quake.value.state.Hidden?)
            && (d.quake.Some? && d.quake.value.window in d.visible ==>
                  (d'.visible[q.value.window] != d.visible[q.value.window] <==> Agrees(d)))
            && (if d.quake.Some? && d.quake.value.window in d.visible
                then q.value.window == d.quake.value.window && d'.log == d.log
                else q.value.window == |d.log| && d'.log == d.log + [HotkeyWindow])
  {
  }

  // A focus event hides a visible hotkey window exactly when hiding is on, the state is Open, and
  // another window (or none) became active.
  lemma FocusHidesIff(d: Desktop, active: Option<WindowId>)
    requires d.quake.Some? && d.quake.value.window in d.visible && d.visible[d.quake.value.window]
    ensures var w := d.quake.value.window;
            !FocusChanged(d, active).visible[w] <==>
            d.hideWhenUnfocused && d.quake.value.state.Open? && active != Some(w)
  {
  }

  /** Showing a window by an action that does not record it breaks the agreement exactly when that
      window is the hotkey window, recorded as hidden. */
  lemma UnrecordedShowKeepsAgreementIff(d: Desktop, w: WindowId)
    requires Agrees(d) && w in d.visible
    ensures Agrees(SetShown(d, w, true)) <==> !(d.quake == Some(Quake(Hidden, w)))
  {
  }

  /** Hiding a window without recording it breaks the agreement exactly when that window is the
      hotkey window, recorded as not hidden. */
  lemma UnrecordedHideKeepsAgreementIff(d: Desktop, w: WindowId)
    requires Agrees(d) && w in d.visible
    ensures Agrees(SetShown(d, w, false)) <==>
            !(d.quake.Some? && d.quake.value.window == w && !d.quake.value.state.Hidden?)
  {
  }

  // ----- restoring, window by window -----

  function QuakeCount(snapshots: seq<Snapshot>, k: nat): nat
    requires k <= |snapshots|
  {
    if k == 0 then 0 else QuakeCount(snapshots, k - 1) + if snapshots[k - 1].quakeMode then 1 else 0
  }

  // Restoring this opens no hotkey window.
  predicate BringsNoHotkey(snapshots: seq<Snapshot>, isWindows: bool, enabled: bool) {
    !enabled || isWindows || QuakeCount(snapshots, |snapshots|) == 0
  }

  // What the loop leaves: old windows untouched, new ones logged, and the last hotkey window recorded.
  lemma {:induction false} RestoreLoopFacts(d: Desktop, snapshots: seq<Snapshot>, activeIndex: Option<nat>,
          isWindows: bool, k: nat)
    requires k <= |snapshots| && IdsLogged(d) && Agrees(d)
    ensures var r := RestoreLoop(d, snapshots, activeIndex, isWindows, k);
            var quakes := if isWindows then 0 else QuakeCount(snapshots, k);
            && IdsLogged(r) && Agrees(r) && |d.log| <= |r.log| && r.log[..|d.log|] == d.log
            && (forall w :: w < |d.log| ==> (w in r.visible <==> w in d.visible))
            && (quakes == 0 ==> r.quake == d.quake && forall w :: IsOpenHotkey(r, w) <==> IsOpenHotkey(d, w))
            && (quakes > 0 ==>
                  r.quake.Some? && r.quake.value.window >= |d.log| && IsOpenHotkey(r, r.quake.value.window))
            && (quakes == 1 ==> forall w :: IsOpenHotkey(r, w) <==> IsOpenHotkey(d, w) || w == r.quake.value.window)
            && (quakes >= 2 ==> exists w :: IsOpenHotkey(r, w) && w != r.quake.value.window)
  {
    if k > 0 {
      var i := k - 1;
      RestoreLoopFacts(d, snapshots, activeIndex, isWindows, i);
      var done := RestoreLoop(d, snapshots, activeIndex, isWindows, i);
      var r := RestoreLoop(d, snapshots, activeIndex, isWindows, k);
      forall w ensures IsOpenHotkey(r, w) <==>
          IsOpenHotkey(done, w) || (w == |done.log| && snapshots[i].quakeMode && !isWindows) {
      }
      if !isWindows && snapshots[i].quakeMode && QuakeCount(snapshots, i) > 0 {
        assert IsOpenHotkey(r, done.quake.value.window);
      }
    }
  }

  lemma AddNormalChangesNothing(d: Desktop, opening: Opening)
    requires IdsLogged(d) && !IsHotkey(opening)
    ensures var r := Add(d, opening, true);
            && IdsLogged(r) && (Agrees(r) <==> Agrees(d)) && (OneHotkey(r) <==> OneHotkey(d))
  {
    var r := Add(d, opening, true);
    forall w ensures IsOpenHotkey(r, w) <==> IsOpenHotkey(d, w) {
    }
  }

  lemma LoopKeepsOneHotkeyIff(d: Desktop, snapshots: seq<Snapshot>, activeIndex: Option<nat>, isWindows: bool)
    requires IdsLogged(d) && Agrees(d) && OneHotkey(d)
    ensures var r := RestoreLoop(d, snapshots, activeIndex, isWindows, |snapshots|);
            var quakes := QuakeCount(snapshots, |snapshots|);
            OneHotkey(r) <==> isWindows || quakes == 0 || (quakes == 1 && !HotkeyIsOpen(d))
  {
    RestoreLoopFacts(d, snapshots, activeIndex, isWindows, |snapshots|);
    var r := RestoreLoop(d, snapshots, activeIndex, isWindows, |snapshots|);
    if !isWindows && QuakeCount(snapshots, |snapshots|) == 1 && HotkeyIsOpen(d) {
      var w: WindowId :| IsOpenHotkey(d, w);
      assert IsOpenHotkey(r, w) && w < |d.log| <= r.quake.value.window;
    }
  }

  /** Restoring a session always keeps record and screen in agreement; it leaves at most one hotkey
      window, the recorded one, exactly when it opens none (as on Windows), or opens one while none
      was open. */
  lemma RestoreKeepsOneHotkeyIff(d: Desktop, snapshots: seq<Snapshot>, activeIndex: Option<nat>,
          isWindows: bool, enabled: bool)
    requires IdsLogged(d) && Agrees(d) && OneHotkey(d)
    ensures var r := Restore(d, snapshots, activeIndex, isWindows, enabled);
            var quakes := QuakeCount(snapshots, |snapshots|);
            && IdsLogged(r) && Agrees(r)
            && (OneHotkey(r) <==> !enabled || isWindows || quakes == 0 || (quakes == 1 && !HotkeyIsOpen(d)))
  {
    if enabled {
      RestoreLoopFacts(d, snapshots, activeIndex, isWindows, |snapshots|);
      LoopKeepsOneHotkeyIff(d, snapshots, activeIndex, isWindows);
      var looped := RestoreLoop(d, snapshots, activeIndex, isWindows, |snapshots|);
      AddNormalChangesNothing(looped, EmptyWindow);
      var filled := if HasNormal(snapshots) then looped else Add(looped, EmptyWindow, true);
      if activeIndex.Some? { AddNormalChangesNothing(filled, Restored(activeIndex.value, false)); }
    }
  }

  // ----- what one step does to a window that was open -----

  // A restore leaves the windows that were open as they were.
  lemma {:induction false} RestoreLoopLeaves(d: Desktop, snapshots: seq<Snapshot>, activeIndex: Option<nat>,
          isWindows: bool, k: nat, v: WindowId)
    requires k <= |snapshots| && IdsLogged(d) && v < |d.log|
    ensures var r := RestoreLoop(d, snapshots, activeIndex, isWindows, k);
            && |d.log| <= |r.log|
            && (v in r.visible <==> v in d.visible)
            && (v in d.visible ==> r.visible[v] == d.visible[v])
  {
    if k > 0 { RestoreLoopLeaves(d, snapshots, activeIndex, isWindows, k - 1, v); }
  }

  lemma StepLeavesOpen(d: Desktop, step: DesktopStep, v: WindowId)
    requires IdsLogged(d) && v in d.visible
    ensures v in Step(d, step).visible <==> step != Closes(v)
    ensures step.Restores? ==> Step(d, step).visible[v] == d.visible[v]
  {
    match step {
      case Restores(snapshots, activeIndex, isWindows, enabled) =>
        if enabled { RestoreLoopLeaves(d, snapshots, activeIndex, isWindows, |snapshots|, v); }
      case _ =>
    }
  }

  /** An open window that is off screen comes on screen in one step exactly when it is shown, one of
      its panes is focused, or it is the hotkey window, recorded as hidden, and is toggled.  So no
      focus event, no restore and no step on another window ever shows it. */
  lemma ComesOnScreenIff(d: Desktop, step: DesktopStep, v: WindowId)
    requires IdsLogged(d) && v in d.visible && !d.visible[v] && step != Closes(v)
    ensures v in Step(d, step).visible
    ensures Step(d, step).visible[v] <==>
            || step in {FocusesPane(v), ShownByOtherAction(v)}
            || (step == Toggles && d.quake == Some(Quake(Hidden, v)))
  {
    StepLeavesOpen(d, step, v);
  }

  /** An open window that is on screen leaves it in one step exactly when it is hidden by some other
      action, or it is the hotkey window and either is toggled while not recorded as hidden, or
      recorded as Open, with hiding on, when another window (or none) becomes active. */
  lemma GoesOffScreenIff(d: Desktop, step: DesktopStep, v: WindowId)
    requires IdsLogged(d) && v in d.visible && d.visible[v] && step != Closes(v)
    ensures v in Step(d, step).visible
    ensures !Step(d, step).visible[v] <==>
            || step == HiddenByOtherAction(v)
            || (step == Toggles && d.quake in {Some(Quake(Open, v)), Some(Quake(PendingOpen, v))})
            || (step.FocusChanges? && d.hideWhenUnfocused && d.quake == Some(Quake(Open, v)) && step.active != Some(v))
  {
    StepLeavesOpen(d, step, v);
  }

  /** The record in one step, restores aside: it stays with its window unless that is closed and a
      toggle opens another; it becomes Open when a pane of the window is focused or, with hiding on,
      at the first focus event after opening; and Hidden by a toggle or by losing focus. */
  lemma RecordAfter(d: Desktop, step: DesktopStep)
    requires !step.Restores?
    ensures d.quake.None? && step != Toggles ==> Step(d, step).quake.None?
    ensures d.quake.Some? ==>
            var q, d' := d.quake.value, Step(d, step);
            var focus := step.FocusChanges? && d.hideWhenUnfocused;
            var loses := focus && q.state.Open? && step.active != Some(q.window);
            && d'.quake.Some?
            && (step == Toggles && q.window !in d.visible ==> d'.quake == Some(Quake(PendingOpen, |d.log|)))
            && (step != Toggles || q.window in d.visible ==>
                  && d'.quake.value.window == q.window
                  && (d'.quake.value.state.Open? <==>
                        || step == FocusesPane(q.window) || (focus && q.state.PendingOpen?)
                        || (q.state.Open? && step != Toggles && !loses))
                  && (d'.quake.value.state.Hidden? <==>
                        || (step == Toggles && !q.state.Hidden?) || loses
                        || (q.state.Hidden? && step != Toggles && step != FocusesPane(q.window))))
  {
  }

  // The snapshot at i is the last one of a hotkey window.
  predicate IsLastQuake(snapshots: seq<Snapshot>, k: nat, i: nat) {
    i < k <= |snapshots| && snapshots[i].quakeMode && forall j :: i < j < k ==> !snapshots[j].quakeMode
  }

  lemma {:induction false} LoopRecordsLast(d: Desktop, snapshots: seq<Snapshot>, activeIndex: Option<nat>,
          k: nat, i: nat)
    requires IsLastQuake(snapshots, k, i)
    ensures var r := RestoreLoop(d, snapshots, activeIndex, false, k);
            && r.quake.Some? && r.quake.value.state.Hidden?
            && r.quake.value.window < |r.log| && r.log[r.quake.value.window] == Restored(i, true)
            && r.quake.value.window in r.visible && !r.visible[r.quake.value.window]
  {
    if i < k - 1 { LoopRecordsLast(d, snapshots, activeIndex, k - 1, i); }
  }

  /** Restoring a session that has hotkey windows (and not on Windows) records the last of them, off
      screen and as hidden; any other restore leaves the record alone. */
  lemma RestoreRecordsLastHotkey(d: Desktop, snapshots: seq<Snapshot>, activeIndex: Option<nat>, isWindows: bool,
          enabled: bool, i: nat)
    requires IdsLogged(d) && Agrees(d)
    ensures var r := Restore(d, snapshots, activeIndex, isWindows, enabled);
            && (BringsNoHotkey(snapshots, isWindows, enabled) ==> r.quake == d.quake)
            && (enabled && !isWindows && IsLastQuake(snapshots, |snapshots|, i) ==>
                  && r.quake.Some? && r.quake.value.state.Hidden?
                  && r.quake.value.window < |r.log| && r.log[r.quake.value.window] == Restored(i, true)
                  && r.quake.value.window in r.visible && !r.visible[r.quake.value.window])
  {
    if enabled {
      RestoreLoopFacts(d, snapshots, activeIndex, isWindows, |snapshots|);
      if !isWindows && IsLastQuake(snapshots, |snapshots|, i) {
        LoopRecordsLast(d, snapshots, activeIndex, |snapshots|, i);
      }
    }
  }

  // ----- runs -----

  // The steps under which the agreement is kept: windows acted on are open, no unrecorded action
  // shows a hidden hotkey window or hides a shown one, and a restored session brings no second one.
  ghost predicate Orderly(d: Desktop, step: DesktopStep) {
    match step
    case FocusesPane(w) => w in d.visible
    case ShownByOtherAction(w) => w in d.visible && d.quake != Some(Quake(Hidden, w))
    case HiddenByOtherAction(w) =>
      w in d.visible && !(d.quake.Some? && d.quake.value.window == w && !d.quake.value.state.Hidden?)
    case Restores(snapshots, _, isWindows, enabled) =>
      || BringsNoHotkey(snapshots, isWindows, enabled)
      || (QuakeCount(snapshots, |snapshots|) == 1 && !HotkeyIsOpen(d))
    case _ => true
  }

  ghost predicate IsRun(states: seq<Desktop>, steps: seq<DesktopStep>) {
    && |states| == |steps| + 1
    && states[0].log == [] && states[0].visible == map[] && states[0].quake == None
    && forall i :: 0 <= i < |steps| ==> Orderly(states[i], steps[i]) && states[i + 1] == Step(states[i], steps[i])
  }

  lemma StepKeepsInvariants(d: Desktop, step: DesktopStep)
    requires IdsLogged(d) && OneHotkey(d) && Agrees(d) && Orderly(d, step)
    ensures var d' := Step(d, step); IdsLogged(d') && OneHotkey(d') && Agrees(d')
  {
    match step {
      case Restores(snapshots, activeIndex, isWindows, enabled) =>
        RestoreKeepsOneHotkeyIff(d, snapshots, activeIndex, isWindows, enabled);
      case Toggles => ToggleKeepsOneHotkey(d);
      case _ =>
        var d' := Step(d, step);
        forall w ensures IsOpenHotkey(d', w) ==> IsOpenHotkey(d, w) {
        }
    }
  }

  lemma ToggleKeepsOneHotkey(d: Desktop)
    requires IdsLogged(d) && OneHotkey(d)
    ensures IdsLogged(Toggle(d)) && OneHotkey(Toggle(d)) && Agrees(Toggle(d))
  {
    var d' := Toggle(d);
    forall w ensures IsOpenHotkey(d', w) ==> IsOpenHotkey(d, w) || w == |d.log| {
    }
  }

  /** In every state that orderly steps reach, at most one hotkey window is open, namely the
      recorded one, and while it is open it is on screen exactly in the states Open and PendingOpen. */
  lemma {:induction false} HotkeyWindowAgrees(states: seq<Desktop>, steps: seq<DesktopStep>, i: nat)
    requires IsRun(states, steps) && i < |states|
    ensures IdsLogged(states[i]) && OneHotkey(states[i]) && Agrees(states[i])
    decreases i
  {
    if i > 0 {
      HotkeyWindowAgrees(states, steps, i - 1);
      StepKeepsInvariants(states[i - 1], steps[i - 1]);
    }
  }

  function RunFrom(d: Desktop, steps: seq<DesktopStep>): Desktop {
    if steps == [] then d else Step(RunFrom(d, steps[..|steps| - 1]), steps[|steps| - 1])
  }

  /** Two runs on which record and screen part: after two focus events have hidden the hotkey
      window, showing it without a record, and, just after it opened, hiding it without one.  In
      both a toggle then leaves the window as it is on screen. */
  lemma UnrecordedActionsBreakAgreement()
    ensures var start := Toggle(Desktop([], map[], None, true));
            var shown := RunFrom(start, [FocusChanges(None), FocusChanges(None), ShownByOtherAction(0)]);
            var hidden := RunFrom(start, [HiddenByOtherAction(0)]);
            && shown.quake == Some(Quake(Hidden, 0)) && shown.visible == map[0 := true]
            && hidden.quake == Some(Quake(PendingOpen, 0)) && hidden.visible == map[0 := false]
            && Toggle(shown).visible == shown.visible && Toggle(hidden).visible == hidden.visible
  {
    var start := Toggle(Desktop([], map[], None, true));
    var steps := [FocusChanges(None), FocusChanges(None), ShownByOtherAction(0)];
    assert steps[..2] == [FocusChanges(None), FocusChanges(None)] && steps[..2][..1] == [FocusChanges(None)];
    assert steps[..1][..0] == [] && [HiddenByOtherAction(0)][..0] == [];
    assert RunFrom(start, steps[..1]) == FocusChanged(start, None);
    assert RunFrom(start, steps[..2]) == FocusChanged(FocusChanged(start, None), None);
  }

  lemma StepKeepsIds(d: Desktop, step: DesktopStep)
    requires IdsLogged(d) && Agrees(d)
    ensures IdsLogged(Step(d, step)) && |d.log| <= |Step(d, step).log|
  {
    match step {
      case Restores(snapshots, activeIndex, isWindows, enabled) =>
        if enabled { RestoreLoopFacts(d, snapshots, activeIndex, isWindows, |snapshots|); }
      case _ =>
    }
  }

  // Window ids are not reused: a closed window does not come back.
  lemma StepOpensNoOld(d: Desktop, step: DesktopStep, v: WindowId)
    requires IdsLogged(d) && v < |d.log| && v !in d.visible
    ensures v !in Step(d, step).visible
  {
    match step {
      case Restores(snapshots, activeIndex, isWindows, enabled) =>
        if enabled { RestoreLoopLeaves(d, snapshots, activeIndex, isWindows, |snapshots|, v); }
      case _ =>
    }
  }

  // Steps that neither toggle nor close, hide or directly focus window w, nor restore a hotkey window.
  predicate Bystander(step: DesktopStep, w: WindowId) {
    match step
    case Toggles => false
    case FocusesPane(v) => v != w
    case HiddenByOtherAction(v) => v != w
    case Closes(v) => v != w
    case Restores(snapshots, _, isWindows, enabled) => BringsNoHotkey(snapshots, isWindows, enabled)
    case _ => true
  }

  // The recorded window w is on screen.
  predicate Showing(d: Desktop, w: WindowId) {
    && w < |d.log| && w in d.visible && d.visible[w]
    && d.quake.Some? && d.quake.value.window == w && !d.quake.value.state.Hidden?
  }

  lemma {:induction false} LoopWithoutHotkey(d: Desktop, snapshots: seq<Snapshot>, activeIndex: Option<nat>,
          isWindows: bool, k: nat, w: WindowId)
    requires k <= |snapshots| && Showing(d, w) && (isWindows || QuakeCount(snapshots, k) == 0)
    ensures var r := RestoreLoop(d, snapshots, activeIndex, isWindows, k); Showing(r, w) && r.quake == d.quake
  {
    if k > 0 { LoopWithoutHotkey(d, snapshots, activeIndex, isWindows, k - 1, w); }
  }

  // A bystander step that is no focus event, or focusing one of the window's panes.
  lemma QuietStep(d: Desktop, step: DesktopStep, w: WindowId)
    requires Showing(d, w) && !step.FocusChanges? && (Bystander(step, w) || step == FocusesPane(w))
    ensures var d' := Step(d, step);
            && Showing(d', w)
            && (d'.quake.value.state.Open? <==> d.quake.value.state.Open? || step == FocusesPane(w))
  {
    match step {
      case Restores(snapshots, activeIndex, isWindows, enabled) =>
        if enabled { LoopWithoutHotkey(d, snapshots, activeIndex, isWindows, |snapshots|, w); }
      case _ =>
    }
  }

  /** A toggle that opens the hotkey window puts off hiding it until after the first focus event;
      focusing one of its panes gives that up.  So, with any bystander steps before it, the first
      focus event hides the window exactly when hiding is on, another window (or none) became
      active, and one of the window's panes was focused since the toggle. */
  lemma {:induction false} FirstFocusEventHidesIff(d: Desktop, steps: seq<DesktopStep>, active: Option<WindowId>)
    requires IdsLogged(d) && !Toggle(d).quake.value.state.Hidden?
    requires var w := Toggle(d).quake.value.window;
             forall s :: s in steps ==> !s.FocusChanges? && (Bystander(s, w) || s == FocusesPane(w))
    ensures var w, r := Toggle(d).quake.value.window, RunFrom(Toggle(d), steps);
            && Showing(r, w)
            && (r.quake.value.state.Open? <==> FocusesPane(w) in steps)
            && w in FocusChanged(r, active).visible
            && (!FocusChanged(r, active).visible[w] <==>
                  r.hideWhenUnfocused && active != Some(w) && FocusesPane(w) in steps)
  {
    if steps != [] {
      var init, last := steps[..|steps| - 1], steps[|steps| - 1];
      assert steps == init + [last];
      FirstFocusEventHidesIff(d, init, active);
      QuietStep(RunFrom(Toggle(d), init), last, Toggle(d).quake.value.window);
    }
    FocusHidesIff(RunFrom(Toggle(d), steps), active);
  }

  // Steps that neither toggle, nor show w or focus a pane of it, nor restore a hotkey window.
  predicate LeavesHidden(step: DesktopStep, w: WindowId) {
    match step
    case Toggles => false
    case FocusesPane(v) => v != w
    case ShownByOtherAction(v) => v != w
    case Restores(snapshots, _, isWindows, enabled) => BringsNoHotkey(snapshots, isWindows, enabled)
    case _ => true
  }

  // Window w is recorded as hidden, and off screen if it is open.
  ghost predicate PutAway(d: Desktop, w: WindowId) {
    && IdsLogged(d) && w < |d.log| && d.quake == Some(Quake(Hidden, w))
    && (w in d.visible ==> !d.visible[w])
  }

  lemma StaysPutAway(d: Desktop, step: DesktopStep, w: WindowId)
    requires PutAway(d, w) && LeavesHidden(step, w)
    ensures PutAway(Step(d, step), w)
    ensures w in Step(d, step).visible <==> w in d.visible && step != Closes(w)
  {
    StepKeepsIds(d, step);
    if step.Restores? {
      RestoreRecordsLastHotkey(d, step.snapshots, step.activeIndex, step.isWindows, step.enabled, 0);
    } else {
      assert Step(d, step).quake == d.quake;
    }
    if w in d.visible {
      StepLeavesOpen(d, step, w);
      if step != Closes(w) { ComesOnScreenIff(d, step, w); }
    } else {
      StepOpensNoOld(d, step, w);
    }
  }

  /** A toggle that hides the hotkey window puts it away for good: through any steps, focus events
      among them, that neither toggle, show it, focus one of its panes nor restore a hotkey window,
      it stays recorded as hidden and off screen; and if it is still open, the next toggle shows it. */
  lemma {:induction false} HiddenStaysHidden(d: Desktop, steps: seq<DesktopStep>)
    requires IdsLogged(d) && Toggle(d).quake.value.state.Hidden?
    requires forall s :: s in steps ==> LeavesHidden(s, Toggle(d).quake.value.window)
    ensures var w, r := Toggle(d).quake.value.window, RunFrom(Toggle(d), steps);
            && PutAway(r, w)
            && (w in r.visible <==> Closes(w) !in steps)
            && (w in r.visible ==> w in Toggle(r).visible && Toggle(r).visible[w])
  {
    if steps != [] {
      var init, last := steps[..|steps| - 1], steps[|steps| - 1];
      assert steps == init + [last];
      HiddenStaysHidden(d, init);
      StaysPutAway(RunFrom(Toggle(d), init), last, Toggle(d).quake.value.window);
    }
  }

  /** A run on which it does: toggle, focus a pane of the hotkey window, focus elsewhere. */
  lemma FocusingAPaneEndsTheProtection()
    ensures var start := Desktop([], map[], None, true);
            var r := RunFrom(Toggle(start), [FocusesPane(0), FocusChanges(None)]);
            Toggle(start).visible[0] && 0 in r.visible && !r.visible[0]
  {
    var start := Desktop([], map[], None, true);
    FirstFocusEventHidesIff(start, [FocusesPane(0)], None);
    assert [FocusesPane(0), FocusChanges(None)][..1] == [FocusesPane(0)] && [FocusesPane(0)][..0] == [];
    assert RunFrom(Toggle(start), [FocusesPane(0)]).hideWhenUnfocused;
  }
}
