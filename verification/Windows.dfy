/** The app's windows and the global hotkey-window record, updated in place; see `Desktops`. */
module Windows {
  import opened Wrappers
  import opened Desktops
  import opened Sessions

  class App {
    // Every window ever opened; a window's id is its position here.
    var log: seq<Opening>
    var visible: map<WindowId, bool>
    var quakeState: Option<Quake>
    var hideWhenUnfocused: bool

    function Value(): Desktop
      reads this
    {
      Desktop(log, visible, quakeState, hideWhenUnfocused)
    }

    constructor (hideWhenUnfocused: bool)
      ensures Value() == Desktop([], map[], None, hideWhenUnfocused)
    {
      log, visible, quakeState := [], map[], None;
      this.hideWhenUnfocused := hideWhenUnfocused;
    }

    // ----- the windowing system -----

    method AddWindow(opening: Opening) returns (id: WindowId)
      modifies this`log, this`visible
      ensures id == |old(log)|
      ensures Value() == Add(old(Value()), opening, true)
    {
      id := |log|;
      log := log + [opening];
      visible := visible[id := true];
    }

    method ShowWindow(w: WindowId)
      modifies this`visible
      ensures Value() == SetShown(old(Value()), w, true)
    {
      if w in visible { visible := visible[w := true]; }
    }

    method HideWindow(w: WindowId)
      modifies this`visible
      ensures Value() == SetShown(old(Value()), w, false)
    {
      if w in visible { visible := visible[w := false]; }
    }

    // ----- the hotkey window -----

    // get_quake_mode_state: the record, while its window is open.
    function GetQuakeModeState(): (state: Option<Quake>)
      reads this
      ensures state.Some? <==> quakeState.Some? && quakeState.value.window in visible
      ensures state.Some? ==> state == quakeState
    {
      if quakeState.Some? && quakeState.value.window in visible then quakeState else None
    }

    method ToggleQuakeModeWindow()
      modifies this
      ensures Value() == Toggle(old(Value()))
    {
      match GetQuakeModeState() {
        case None =>
          var id := AddWindow(HotkeyWindow);
          quakeState := Some(Quake(PendingOpen, id));
        case Some(state) =>
          if state.state.Hidden? {
            ShowWindow(state.window);
            quakeState := Some(quakeState.value.(state := PendingOpen));
          } else {
            HideWindow(state.window);
            quakeState := Some(quakeState.value.(state := Hidden));
          }
      }
    }

    method UpdateQuakeModeState(activeWindow: Option<WindowId>)
      modifies this
      ensures Value() == FocusChanged(old(Value()), activeWindow)
    {
      if !hideWhenUnfocused {
        return;
      }
      if quakeState.Some? {
        var state := quakeState.value;
        var windowState := state.state;
        match state.state {
          case PendingOpen => windowState := Open;
          case Open =>
            if !(activeWindow.Some? && activeWindow.value == state.window) {
              HideWindow(state.window);
              windowState := Hidden;
            }
          case Hidden =>
        }
        quakeState := Some(state.(state := windowState));
      }
    }

    method FocusPaneIn(w: WindowId)
      modifies this
      ensures Value() == FocusPane(old(Value()), w)
    {
      if quakeState.Some? && quakeState.value.window == w {
        quakeState := Some(quakeState.value.(state := Open));
      }
      ShowWindow(w);
    }

    // ----- opening several windows -----

    method OpenFromRestored(snapshots: seq<Snapshot>, activeWindowIndex: Option<nat>, isWindows: bool,
            restoreSession: bool)
      modifies this
      ensures Value() == Restore(old(Value()), snapshots, activeWindowIndex, isWindows, restoreSession)
    {
      if !restoreSession {
        return;
      }
      var activeIndex: Option<nat> := None;
      var normalWindowCount := 0;
      for idx := 0 to |snapshots|
        invariant Value() == RestoreLoop(old(Value()), snapshots, activeWindowIndex, isWindows, idx)
        invariant normalWindowCount >= 0
        invariant normalWindowCount == 0 <==> forall i :: 0 <= i < idx ==> snapshots[i].quakeMode
        invariant activeIndex == if activeWindowIndex.Some? && activeWindowIndex.value < idx
                                    && !snapshots[activeWindowIndex.value].quakeMode then activeWindowIndex else None
      {
        if snapshots[idx].quakeMode {
          if isWindows {
            continue;
          }
          var id := AddWindow(Restored(idx, true));
          HideWindow(id);
          quakeState := Some(Quake(Hidden, id));
        } else {
          normalWindowCount := normalWindowCount + 1;
          if activeWindowIndex.Some? && activeWindowIndex.value == idx {
            activeIndex := Some(idx);
          } else {
            var _ := AddWindow(Restored(idx, false));
          }
        }
      }
      if normalWindowCount == 0 {
        var _ := AddWindow(EmptyWindow);
      }
      if activeIndex.Some? {
        var _ := AddWindow(Restored(activeIndex.value, false));
      }
    }

    method OpenLaunchConfig(count: nat, activeWindowIndex: Option<nat>, openInActiveWindow: bool,
            hasActiveWorkspace: bool)
      returns (inPlace: bool)
      modifies this
      ensures inPlace <==> openInActiveWindow && count == 1 && hasActiveWorkspace
      ensures Value() == if inPlace then old(Value()) else AddAll(old(Value()), LaunchOpens(count, activeWindowIndex))
    {
      inPlace := false;
      ghost var before := Value();
      if count == 0 {
        var _ := AddWindow(EmptyWindow);
        AddOneMore(before, [], EmptyWindow);
        assert [] + [EmptyWindow] == [EmptyWindow];
      } else if openInActiveWindow && count == 1 && hasActiveWorkspace {
        inPlace := true;
      } else {
        var activeIndex: Option<nat> := None;
        for idx := 0 to count
          invariant Value() == AddAll(before, TemplatesBut(activeWindowIndex, idx))
          invariant activeIndex ==
                    if activeWindowIndex.Some? && activeWindowIndex.value < idx then activeWindowIndex else None
        {
          AddOneMore(before, TemplatesBut(activeWindowIndex, idx), FromTemplate(idx));
          if activeWindowIndex.Some? && activeWindowIndex.value == idx {
            activeIndex := Some(idx);
            assert TemplatesBut(activeWindowIndex, idx + 1) == TemplatesBut(activeWindowIndex, idx);
          } else {
            var _ := AddWindow(FromTemplate(idx));
          }
        }
        ghost var templates := TemplatesBut(activeWindowIndex, count);
        assert templates + [] == templates;
        if activeIndex.Some? {
          AddOneMore(before, templates, FromTemplate(activeIndex.value));
          var _ := AddWindow(FromTemplate(activeIndex.value));
        }
      }
    }
  }
}
