/**
 Saving the open windows of a session and opening them again.

 `GetAppState` decides what is saved and which position is recorded as active; the theorems
 relate that position to the saved list, say which windows a restore opens and in what order,
 and compose the two.
 */
module Sessions {
  import opened Wrappers
  import opened Desktops

  datatype Workspace = Workspace(isTabDragPreview: bool, tabs: nat)

  datatype WindowInfo = WindowInfo(id: WindowId, workspace: Option<Workspace>)

  datatype AppState = AppState(windows: seq<Snapshot>, activeWindowIndex: Option<nat>)

  // ----- saving -----

  // The window is saved: it has a workspace that is no drag preview and has a tab.
  predicate Kept(info: WindowInfo) {
    info.workspace.Some? && !info.workspace.value.isTabDragPreview && info.workspace.value.tabs > 0
  }

  function SnapshotOf(info: WindowInfo, quakeId: Option<WindowId>): Snapshot {
    Snapshot(info.id, quakeId == Some(info.id))
  }

  function KeptWindows(infos: seq<WindowInfo>, quakeId: Option<WindowId>): seq<Snapshot> {
    if infos == [] then []
    else
      var last := infos[|infos| - 1];
      KeptWindows(infos[..|infos| - 1], quakeId) + if Kept(last) then [SnapshotOf(last, quakeId)] else []
  }

  function ActiveIndex(infos: seq<WindowInfo>, active: Option<WindowId>): Option<nat> {
    if infos == [] then None
    else if active == Some(infos[|infos| - 1].id) then Some(|infos| - 1)
    else ActiveIndex(infos[..|infos| - 1], active)
  }

  method GetAppState(infos: seq<WindowInfo>, active: Option<WindowId>,
          quakeId: Option<WindowId>) returns (state: AppState)
    ensures state == AppState(KeptWindows(infos, quakeId), ActiveIndex(infos, active))
    ensures exists at :: SavedAt(infos, quakeId, state.windows, at)
    ensures forall w: WindowId, marked: bool :: Snapshot(w, marked) in state.windows <==>
              (marked <==> quakeId == Some(w)) && exists info :: info in infos && info.id == w && HasSavableTabs(info)
    ensures ActiveAt(infos, active, state.activeWindowIndex)
  {
    var activeWindowIndex: Option<nat> := None;
    var windows: seq<Snapshot> := [];
    for index := 0 to |infos|
      invariant windows == KeptWindows(infos[..index], quakeId)
      invariant activeWindowIndex == ActiveIndex(infos[..index], active)
    {
      assert infos[..index + 1][..index] == infos[..index];
      var info := infos[index];
      if active.Some? {
        if active.value == info.id {
          activeWindowIndex := Some(index);
        }
      }
      if info.workspace.Some? {
        if info.workspace.value.isTabDragPreview {
          continue;
        }
        var quakeMode := if quakeId.Some? then quakeId.value == info.id else false;
        if info.workspace.value.tabs != 0 {
          windows := windows + [Snapshot(info.id, quakeMode)];
        }
      }
    }
    assert infos[..|infos|] == infos;
    state := AppState(windows, activeWindowIndex);
    var at := SavedWindowsAre(infos, quakeId);
    ActiveIndexFinds(infos, active);
    forall w: WindowId, marked: bool
      ensures Snapshot(w, marked) in state.windows <==>
        (marked <==> quakeId == Some(w)) && exists info :: info in infos && info.id == w && HasSavableTabs(info)
    {
      SavedIff(infos, quakeId, w, marked);
    }
  }

  // `at` lists, in enumeration order, the windows that have a workspace which is no drag preview
  // and has a tab; the saved ones are those, marked where the id is the hotkey window's.
  ghost predicate SavedAt(infos: seq<WindowInfo>, quakeId: Option<WindowId>, windows: seq<Snapshot>, at: seq<nat>) {
    && |at| == |windows|
    && (forall p :: 0 <= p < |at| ==> SavesAt(infos, quakeId, windows[p], at[p]))
    && (forall p, q :: 0 <= p < q < |at| ==> at[p] < at[q])
    && ListsSavable(infos, at)
  }

  predicate SavesAt(infos: seq<WindowInfo>, quakeId: Option<WindowId>, snapshot: Snapshot, i: nat) {
    i < |infos| && snapshot.window == infos[i].id && (snapshot.quakeMode <==> quakeId == Some(infos[i].id))
  }

  ghost predicate ListsSavable(infos: seq<WindowInfo>, at: seq<nat>) {
    forall i: nat :: i < |infos| ==> (i in at <==> HasSavableTabs(infos[i]))
  }

  predicate HasSavableTabs(info: WindowInfo) {
    match info.workspace
    case None => false
    case Some(Workspace(isTabDragPreview, tabs)) => !isTabDragPreview && tabs >= 1
  }

  // The recorded position is the last one of the active window, if it is enumerated at all.
  ghost predicate ActiveAt(infos: seq<WindowInfo>, active: Option<WindowId>, index: Option<nat>) {
    match index
    case None => forall i :: 0 <= i < |infos| ==> active != Some(infos[i].id)
    case Some(k) =>
      && k < |infos| && active == Some(infos[k].id)
      && forall i :: k < i < |infos| ==> active != Some(infos[i].id)
  }

  lemma {:induction false} ActiveIndexFinds(infos: seq<WindowInfo>, active: Option<WindowId>)
    ensures ActiveAt(infos, active, ActiveIndex(infos, active))
  {
    if infos != [] { ActiveIndexFinds(infos[..|infos| - 1], active); }
  }

  // One more window at the end.
  lemma SavedAtGrows(infos: seq<WindowInfo>, quakeId: Option<WindowId>, windows: seq<Snapshot>, at: seq<nat>)
    returns (at': seq<nat>)
    requires infos != [] && SavedAt(infos[..|infos| - 1], quakeId, windows, at)
    ensures var info := infos[|infos| - 1];
            var added := if HasSavableTabs(info) then [Snapshot(info.id, quakeId == Some(info.id))] else [];
            SavedAt(infos, quakeId, windows + added, at')
  {
    var last := |infos| - 1;
    var info, init := infos[last], infos[..last];
    at' := if HasSavableTabs(info) then at + [last] else at;
    assert last !in at by {
      assert forall p :: 0 <= p < |at| ==> SavesAt(init, quakeId, windows[p], at[p]);
    }
    ListsSavableGrows(infos, at, at');
    forall p | 0 <= p < |at| ensures SavesAt(infos, quakeId, windows[p], at[p]) {
      assert SavesAt(init, quakeId, windows[p], at[p]);
    }
    assert windows + [] == windows;
  }

  lemma ListsSavableGrows(infos: seq<WindowInfo>, at: seq<nat>, at': seq<nat>)
    requires infos != [] && ListsSavable(infos[..|infos| - 1], at) && |infos| - 1 !in at
    requires at' == if HasSavableTabs(infos[|infos| - 1]) then at + [|infos| - 1] else at
    ensures ListsSavable(infos, at')
  {
    var last := |infos| - 1;
    forall i: nat | i < |infos| ensures i in at' <==> HasSavableTabs(infos[i]) {
      if i < last { assert infos[..last][i] == infos[i]; }
    }
  }

  /** What saving keeps, told without the code's own test: see `SavedAt`. */
  lemma {:induction false} SavedWindowsAre(infos: seq<WindowInfo>, quakeId: Option<WindowId>) returns (at: seq<nat>)
    ensures SavedAt(infos, quakeId, KeptWindows(infos, quakeId), at)
  {
    at := [];
    if infos != [] {
      var init, info := infos[..|infos| - 1], infos[|infos| - 1];
      at := SavedWindowsAre(init, quakeId);
      at := SavedAtGrows(infos, quakeId, KeptWindows(init, quakeId), at);
      assert Kept(info) <==> HasSavableTabs(info);
      assert SnapshotOf(info, quakeId) == Snapshot(info.id, quakeId == Some(info.id));
    }
  }

  /** A snapshot is saved exactly when some window with its id has a workspace that is no drag
      preview and has a tab, and it is marked exactly when that id is recorded as the hotkey
      window's. */
  lemma SavedIff(infos: seq<WindowInfo>, quakeId: Option<WindowId>, w: WindowId, marked: bool)
    ensures Snapshot(w, marked) in KeptWindows(infos, quakeId) <==>
            && (marked <==> quakeId == Some(w))
            && exists info :: info in infos && info.id == w && HasSavableTabs(info)
  {
    var at := SavedWindowsAre(infos, quakeId);
    var windows := KeptWindows(infos, quakeId);
    if Snapshot(w, marked) in windows {
      var p :| 0 <= p < |windows| && windows[p] == Snapshot(w, marked);
      assert at[p] in at && infos[at[p]] in infos;
    }
    if info :| info in infos && info.id == w && HasSavableTabs(info) {
      var i :| 0 <= i < |infos| && infos[i] == info;
      assert i in at;
      var p :| 0 <= p < |at| && at[p] == i;
      assert windows[p] in windows && windows[p] == Snapshot(w, quakeId == Some(w));
    }
  }

  // Window ids are not repeated.
  ghost predicate Distinct(infos: seq<WindowInfo>) {
    forall i, j :: 0 <= i < j < |infos| ==> infos[i].id != infos[j].id
  }

  function SkippedBefore(infos: seq<WindowInfo>, k: nat): nat
    requires k <= |infos|
  {
    if k == 0 then 0 else SkippedBefore(infos, k - 1) + if Kept(infos[k - 1]) then 0 else 1
  }

  // The position that the k-th window takes in the saved list.
  function Position(infos: seq<WindowInfo>, k: nat): nat
    requires k <= |infos|
  {
    if k == 0 then 0 else Position(infos, k - 1) + if Kept(infos[k - 1]) then 1 else 0
  }

  lemma {:induction false} PositionFacts(infos: seq<WindowInfo>, quakeId: Option<WindowId>, k: nat)
    requires k <= |infos|
    ensures Position(infos, k) == |KeptWindows(infos[..k], quakeId)|
    ensures k == Position(infos, k) + SkippedBefore(infos, k)
  {
    if k > 0 {
      assert infos[..k][..k - 1] == infos[..k - 1];
      PositionFacts(infos, quakeId, k - 1);
    }
  }

  lemma {:induction false} SnapshotAtPosition(infos: seq<WindowInfo>, quakeId: Option<WindowId>, k: nat)
    requires k < |infos| && Kept(infos[k])
    ensures Position(infos, k) < |KeptWindows(infos, quakeId)|
    ensures KeptWindows(infos, quakeId)[Position(infos, k)] == SnapshotOf(infos[k], quakeId)
    decreases |infos|
  {
    var init := infos[..|infos| - 1];
    if k == |infos| - 1 {
      PositionFacts(infos, quakeId, k);
    } else {
      SnapshotAtPosition(init, quakeId, k);
      PositionOfInit(infos, k);
    }
  }

  lemma {:induction false} PositionOfInit(infos: seq<WindowInfo>, k: nat)
    requires k < |infos|
    ensures Position(infos[..|infos| - 1], k) == Position(infos, k)
  {
    if k > 0 { PositionOfInit(infos, k - 1); }
  }

  // Every saved snapshot comes from a kept window.
  lemma {:induction false} KeptWindowAt(infos: seq<WindowInfo>, quakeId: Option<WindowId>, p: nat) returns (k: nat)
    requires p < |KeptWindows(infos, quakeId)|
    ensures k < |infos| && Kept(infos[k]) && Position(infos, k) == p
    decreases |infos|
  {
    var init := infos[..|infos| - 1];
    if p < |KeptWindows(init, quakeId)| {
      k := KeptWindowAt(init, quakeId, p);
      PositionOfInit(infos, k);
    } else {
      k := |infos| - 1;
      PositionFacts(infos, quakeId, k);
    }
  }

  lemma {:induction false} ActiveIndexIs(infos: seq<WindowInfo>, active: Option<WindowId>, k: nat)
    requires Distinct(infos) && k < |infos| && active == Some(infos[k].id)
    ensures ActiveIndex(infos, active) == Some(k)
    decreases |infos|
  {
    if k < |infos| - 1 { ActiveIndexIs(infos[..|infos| - 1], active, k); }
  }

  /** The saved list is the kept windows in enumeration order.  For a kept active window the
      recorded index exceeds its position there by exactly the number of windows skipped before
      it; so it points at that window exactly when none was skipped before it. */
  lemma RecordedIndexIsRightIff(infos: seq<WindowInfo>, quakeId: Option<WindowId>, k: nat)
    requires Distinct(infos) && k < |infos| && Kept(infos[k])
    ensures var windows, at := KeptWindows(infos, quakeId), Position(infos, k);
            var recorded := ActiveIndex(infos, Some(infos[k].id));
            && at < |windows| && windows[at] == SnapshotOf(infos[k], quakeId)
            && recorded == Some(at + SkippedBefore(infos, k))
            && (recorded.value < |windows| && windows[recorded.value].window == infos[k].id
                <==> SkippedBefore(infos, k) == 0)
  {
    PositionFacts(infos, quakeId, k);
    SnapshotAtPosition(infos, quakeId, k);
    ActiveIndexIs(infos, Some(infos[k].id), k);
    if SkippedBefore(infos, k) > 0 && k < |KeptWindows(infos, quakeId)| {
      var j := KeptWindowAt(infos, quakeId, k);
      SnapshotAtPosition(infos, quakeId, j);
      if j == k { assert false; }
    }
  }

  /** At most one saved window is marked as the hotkey window, whatever id is recorded for it. */
  lemma AtMostOneHotkeySaved(infos: seq<WindowInfo>, quakeId: Option<WindowId>)
    requires Distinct(infos)
    ensures var windows := KeptWindows(infos, quakeId); QuakeCount(windows, |windows|) <= 1
  {
    var windows := KeptWindows(infos, quakeId);
    forall p, q | 0 <= p < q < |windows| ensures !(windows[p].quakeMode && windows[q].quakeMode) {
      var j := KeptWindowAt(infos, quakeId, p);
      var k := KeptWindowAt(infos, quakeId, q);
      SnapshotAtPosition(infos, quakeId, j);
      SnapshotAtPosition(infos, quakeId, k);
      assert j != k;
      assert infos[j].id != infos[k].id by {
        if j < k {} else { assert k < j; }
      }
    }
    CountAtMostOne(windows, |windows|);
  }

  lemma {:induction false} CountAtMostOne(windows: seq<Snapshot>, k: nat)
    requires k <= |windows|
    requires forall p, q :: 0 <= p < q < k ==> !(windows[p].quakeMode && windows[q].quakeMode)
    ensures QuakeCount(windows, k) <= 1
    ensures (exists p :: 0 <= p < k && windows[p].quakeMode) <==> QuakeCount(windows, k) == 1
  {
    if k > 0 {
      CountAtMostOne(windows, k - 1);
      if windows[k - 1].quakeMode {
        assert forall p :: 0 <= p < k - 1 ==> !windows[p].quakeMode;
      }
    }
  }

  // ----- restoring -----

  // Which of the first k snapshots the restore loop opens, in order.
  function LoopOpens(snapshots: seq<Snapshot>, activeIndex: Option<nat>, isWindows: bool, k: nat): seq<Opening>
    requires k <= |snapshots|
  {
    if k == 0 then []
    else
      var i := k - 1;
      LoopOpens(snapshots, activeIndex, isWindows, i)
      + if Skips(snapshots[i], activeIndex, isWindows, i) then [] else [Restored(i, snapshots[i].quakeMode)]
  }

  function RestoreOpens(snapshots: seq<Snapshot>, activeIndex: Option<nat>, isWindows: bool): seq<Opening> {
    LoopOpens(snapshots, activeIndex, isWindows, |snapshots|)
    + (if HasNormal(snapshots) then [] else [EmptyWindow])
    + (if activeIndex.Some? && OpensLast(snapshots, activeIndex, activeIndex.value)
       then [Restored(activeIndex.value, false)] else [])
  }

  // New windows are on screen unless they are the hotkey window.
  ghost predicate ShownUnlessHotkey(d: Desktop, from: nat) {
    forall w :: from <= w < |d.log| ==> w in d.visible && (d.visible[w] <==> !IsHotkey(d.log[w]))
  }

  lemma {:induction false} RestoreLoopLogs(d: Desktop, snapshots: seq<Snapshot>, activeIndex: Option<nat>,
          isWindows: bool, k: nat)
    requires k <= |snapshots|
    ensures var r := RestoreLoop(d, snapshots, activeIndex, isWindows, k);
            r.log == d.log + LoopOpens(snapshots, activeIndex, isWindows, k) && ShownUnlessHotkey(r, |d.log|)
  {
    if k > 0 { RestoreLoopLogs(d, snapshots, activeIndex, isWindows, k - 1); }
  }

  // Indices go up along the loop's openings.
  ghost predicate InOrder(opens: seq<Opening>) {
    forall p, q :: 0 <= p < q < |opens| && opens[p].Restored? && opens[q].Restored? ==> opens[p].index < opens[q].index
  }

  // Saved order, except that the recorded active snapshot, if it is a normal one, is last.
  ghost predicate InOrderButActiveLast(snapshots: seq<Snapshot>, activeIndex: Option<nat>, opens: seq<Opening>) {
    if activeIndex.Some? && OpensLast(snapshots, activeIndex, activeIndex.value) then
      && opens != [] && opens[|opens| - 1] == Restored(activeIndex.value, false)
      && InOrder(opens[..|opens| - 1])
    else InOrder(opens)
  }

  lemma {:induction false} LoopOpensInOrder(snapshots: seq<Snapshot>, activeIndex: Option<nat>, isWindows: bool, k: nat)
    requires k <= |snapshots|
    ensures var opens := LoopOpens(snapshots, activeIndex, isWindows, k);
            InOrder(opens) && forall p :: 0 <= p < |opens| ==> opens[p].Restored? && opens[p].index < k
  {
    if k > 0 { LoopOpensInOrder(snapshots, activeIndex, isWindows, k - 1); }
  }

  // How often something was opened.
  function Times(opens: seq<Opening>, o: Opening): nat {
    if opens == [] then 0 else Times(opens[..|opens| - 1], o) + if opens[|opens| - 1] == o then 1 else 0
  }

  lemma TimesAppend(opens: seq<Opening>, last: Opening, o: Opening)
    ensures Times(opens + [last], o) == Times(opens, o) + if last == o then 1 else 0
  {
    assert (opens + [last])[..|opens|] == opens;
  }

  // The loop skips this snapshot.
  predicate Skips(snapshot: Snapshot, activeIndex: Option<nat>, isWindows: bool, i: nat) {
    if snapshot.quakeMode then isWindows else activeIndex == Some(i)
  }

  lemma {:induction false} LoopTimes(snapshots: seq<Snapshot>, activeIndex: Option<nat>, isWindows: bool,
          k: nat, o: Opening)
    requires k <= |snapshots|
    ensures Times(LoopOpens(snapshots, activeIndex, isWindows, k), o) ==
            if o.Restored? && o.index < k && snapshots[o.index].quakeMode == o.quakeMode
               && !Skips(snapshots[o.index], activeIndex, isWindows, o.index)
            then 1 else 0
  {
    if k > 0 {
      LoopTimes(snapshots, activeIndex, isWindows, k - 1, o);
      var before, entry := LoopOpens(snapshots, activeIndex, isWindows, k - 1), snapshots[k - 1];
      TimesAppend(before, Restored(k - 1, entry.quakeMode), o);
      if Skips(entry, activeIndex, isWindows, k - 1) {
        assert LoopOpens(snapshots, activeIndex, isWindows, k) == before;
      }
    }
  }

  // How often a restore should open o: each snapshot once, hidden hotkey windows not on Windows,
  // and an empty window only for want of a normal one.
  predicate Expected(snapshots: seq<Snapshot>, isWindows: bool, o: Opening) {
    match o
    case Restored(i, quakeMode) => i < |snapshots| && snapshots[i].quakeMode == quakeMode && !(quakeMode && isWindows)
    case EmptyWindow => !HasNormal(snapshots)
    case _ => false
  }

  // What a restore opens besides the loop: one window in front, or none.
  lemma RestoreAppends(snapshots: seq<Snapshot>, activeIndex: Option<nat>, isWindows: bool)
    ensures var loop := LoopOpens(snapshots, activeIndex, isWindows, |snapshots|);
            RestoreOpens(snapshots, activeIndex, isWindows) ==
            if activeIndex.Some? && OpensLast(snapshots, activeIndex, activeIndex.value) then
              loop + [Restored(activeIndex.value, false)]
            else if HasNormal(snapshots) then loop
            else loop + [EmptyWindow]
  {
    if activeIndex.Some? && OpensLast(snapshots, activeIndex, activeIndex.value) {
      assert HasNormal(snapshots);
    }
  }

  // The snapshot that opens last is the one expected opening that the loop leaves out.
  lemma LoopTimesExpected(snapshots: seq<Snapshot>, activeIndex: Option<nat>, isWindows: bool, o: Opening)
    ensures var held := activeIndex.Some? && OpensLast(snapshots, activeIndex, activeIndex.value);
            Times(LoopOpens(snapshots, activeIndex, isWindows, |snapshots|), o)
            == if o.Restored? && Expected(snapshots, isWindows, o)
                  && !(held && o == Restored(activeIndex.value, false)) then 1 else 0
  {
    LoopTimes(snapshots, activeIndex, isWindows, |snapshots|, o);
  }

  lemma RestoreTimes(snapshots: seq<Snapshot>, activeIndex: Option<nat>, isWindows: bool, o: Opening)
    ensures Times(RestoreOpens(snapshots, activeIndex, isWindows), o) ==
            if Expected(snapshots, isWindows, o) then 1 else 0
  {
    var loop := LoopOpens(snapshots, activeIndex, isWindows, |snapshots|);
    LoopTimesExpected(snapshots, activeIndex, isWindows, o);
    RestoreAppends(snapshots, activeIndex, isWindows);
    if activeIndex.Some? && OpensLast(snapshots, activeIndex, activeIndex.value) {
      assert HasNormal(snapshots);
      TimesAppend(loop, Restored(activeIndex.value, false), o);
    } else if !HasNormal(snapshots) {
      TimesAppend(loop, EmptyWindow, o);
    }
  }

  lemma RestoreInOrder(snapshots: seq<Snapshot>, activeIndex: Option<nat>, isWindows: bool)
    ensures var opens := RestoreOpens(snapshots, activeIndex, isWindows);
            InOrderButActiveLast(snapshots, activeIndex, opens)
  {
    var loop := LoopOpens(snapshots, activeIndex, isWindows, |snapshots|);
    LoopOpensInOrder(snapshots, activeIndex, isWindows, |snapshots|);
    var opens := RestoreOpens(snapshots, activeIndex, isWindows);
    if activeIndex.Some? && OpensLast(snapshots, activeIndex, activeIndex.value) {
      assert HasNormal(snapshots);
      assert opens[..|opens| - 1] == loop;
    }
  }

  /** Restoring opens every non-hotkey snapshot exactly once and visible, each hotkey snapshot
      exactly once and hidden (none on Windows), and one empty window exactly when there was no
      other; nothing else.  They open in their saved order, except that the recorded active one
      comes last. */
  lemma RestoreOpensEachOnce(d: Desktop, snapshots: seq<Snapshot>, activeIndex: Option<nat>, isWindows: bool,
          o: Opening)
    ensures Restore(d, snapshots, activeIndex, isWindows, false) == d
    ensures var r := Restore(d, snapshots, activeIndex, isWindows, true);
            var opens := RestoreOpens(snapshots, activeIndex, isWindows);
            && r.log == d.log + opens && ShownUnlessHotkey(r, |d.log|)
            && Times(opens, o) == (if Expected(snapshots, isWindows, o) then 1 else 0)
            && InOrderButActiveLast(snapshots, activeIndex, opens)
  {
    RestoreLogs(d, snapshots, activeIndex, isWindows);
    RestoreTimes(snapshots, activeIndex, isWindows, o);
    RestoreInOrder(snapshots, activeIndex, isWindows);
  }

  lemma RestoreLogs(d: Desktop, snapshots: seq<Snapshot>, activeIndex: Option<nat>, isWindows: bool)
    ensures var r := Restore(d, snapshots, activeIndex, isWindows, true);
            r.log == d.log + RestoreOpens(snapshots, activeIndex, isWindows) && ShownUnlessHotkey(r, |d.log|)
  {
    RestoreLoopLogs(d, snapshots, activeIndex, isWindows, |snapshots|);
  }

  // ----- saving, then restoring -----

  // The window that ends up in front: the last one opened that is not a hotkey window.
  function InFront(opens: seq<Opening>): Option<Opening> {
    if opens == [] then None
    else if IsHotkey(opens[|opens| - 1]) then InFront(opens[..|opens| - 1])
    else Some(opens[|opens| - 1])
  }

  predicate IsLastNormal(snapshots: seq<Snapshot>, p: nat) {
    && p < |snapshots| && !snapshots[p].quakeMode
    && forall q :: p < q < |snapshots| ==> snapshots[q].quakeMode
  }

  // Without an active window to hold back, the last non-hotkey snapshot ends up in front.
  lemma {:induction false} LoopInFront(snapshots: seq<Snapshot>, activeIndex: Option<nat>, isWindows: bool,
          k: nat, p: nat)
    requires p < k <= |snapshots| && !snapshots[p].quakeMode
    requires forall q :: p < q < k ==> snapshots[q].quakeMode
    requires forall q :: 0 <= q < k && !snapshots[q].quakeMode ==> activeIndex != Some(q)
    ensures InFront(LoopOpens(snapshots, activeIndex, isWindows, k)) == Some(Restored(p, false))
  {
    var loop := LoopOpens(snapshots, activeIndex, isWindows, k);
    var before := LoopOpens(snapshots, activeIndex, isWindows, k - 1);
    if k - 1 > p {
      LoopInFront(snapshots, activeIndex, isWindows, k - 1, p);
      if loop != before { assert loop[..|loop| - 1] == before; }
    }
  }

  lemma LastNormalExists(snapshots: seq<Snapshot>, p: nat) returns (q: nat)
    requires p < |snapshots| && !snapshots[p].quakeMode
    ensures p <= q && IsLastNormal(snapshots, q)
    ensures p == q <==> IsLastNormal(snapshots, p)
  {
    q := |snapshots| - 1;
    while snapshots[q].quakeMode
      invariant p <= q < |snapshots|
      invariant forall r :: q < r < |snapshots| ==> snapshots[r].quakeMode
      decreases q
    {
      q := q - 1;
    }
  }

  /** Saving a session and restoring it brings the window that was active back to the front exactly
      when no window before it was skipped in saving, or it was the last normal window saved. */
  lemma RestoredFocusIsRightIff(infos: seq<WindowInfo>, quakeId: Option<WindowId>, k: nat, isWindows: bool)
    requires Distinct(infos) && k < |infos| && Kept(infos[k]) && quakeId != Some(infos[k].id)
    ensures var windows, at := KeptWindows(infos, quakeId), Position(infos, k);
            var opens := RestoreOpens(windows, ActiveIndex(infos, Some(infos[k].id)), isWindows);
            InFront(opens) == Some(Restored(at, false)) <==> SkippedBefore(infos, k) == 0 || IsLastNormal(windows, at)
  {
    RecordedIndexIsRightIff(infos, quakeId, k);
    var windows, at := KeptWindows(infos, quakeId), Position(infos, k);
    var recorded := ActiveIndex(infos, Some(infos[k].id));
    var opens := RestoreOpens(windows, recorded, isWindows);
    assert HasNormal(windows) by { assert !windows[at].quakeMode; }
    if OpensLast(windows, recorded, recorded.value) {
      assert opens[|opens| - 1] == Restored(recorded.value, false);
      assert InFront(opens) == Some(Restored(recorded.value, false));
    } else {
      assert opens == LoopOpens(windows, recorded, isWindows, |windows|);
      var last := LastNormalExists(windows, at);
      LoopInFront(windows, recorded, isWindows, |windows|, last);
    }
  }

  /** Of three windows the first, still without a workspace, is not saved and the second is active:
      restoring brings the third to the front. */
  lemma RestoreCanFocusAnotherWindow(isWindows: bool)
    ensures var saved := Some(Workspace(false, 1));
            var infos := [WindowInfo(0, None), WindowInfo(1, saved), WindowInfo(2, saved)];
            var windows := KeptWindows(infos, None);
            && windows == [Snapshot(1, false), Snapshot(2, false)]
            && InFront(RestoreOpens(windows, ActiveIndex(infos, Some(1)), isWindows)) == Some(Restored(1, false))
  {
    var saved := Some(Workspace(false, 1));
    var infos := [WindowInfo(0, None), WindowInfo(1, saved), WindowInfo(2, saved)];
    assert infos[..2][..1] == infos[..1] && infos[..1][..0] == [];
    assert KeptWindows(infos[..1], None) == [];
    assert KeptWindows(infos[..2], None) == [Snapshot(1, false)];
    var windows := KeptWindows(infos, None);
    ActiveIndexIs(infos, Some(1), 1);
    assert OpensLast(windows, Some(1), 1);
    var opens := RestoreOpens(windows, Some(1), isWindows);
    assert opens[|opens| - 1] == Restored(1, false);
  }

  /** A saved session never brings back two hotkey windows: restored while no hotkey window is open,
      it leaves at most one, the recorded one, on screen exactly as recorded. */
  lemma SavedSessionKeepsOneHotkey(d: Desktop, infos: seq<WindowInfo>, active: Option<WindowId>,
          quakeId: Option<WindowId>, isWindows: bool)
    requires Distinct(infos)
    requires IdsLogged(d) && Agrees(d) && OneHotkey(d) && !HotkeyIsOpen(d)
    ensures var r := Restore(d, KeptWindows(infos, quakeId), ActiveIndex(infos, active), isWindows, true);
            OneHotkey(r) && Agrees(r)
  {
    AtMostOneHotkeySaved(infos, quakeId);
    RestoreKeepsOneHotkeyIff(d, KeptWindows(infos, quakeId), ActiveIndex(infos, active), isWindows, true);
  }

  // ----- launch configurations -----

  // The first k templates but the active one.
  function TemplatesBut(active: Option<nat>, k: nat): seq<Opening> {
    if k == 0 then []
    else TemplatesBut(active, k - 1) + if active == Some(k - 1) then [] else [FromTemplate(k - 1)]
  }

  // What a launch configuration of n windows opens, unless it goes into the active window.
  function LaunchOpens(n: nat, active: Option<nat>): seq<Opening> {
    if n == 0 then [EmptyWindow]
    else TemplatesBut(active, n) + if active.Some? && active.value < n then [FromTemplate(active.value)] else []
  }

  lemma {:induction false} TemplatesButFacts(active: Option<nat>, k: nat)
    ensures var opens := TemplatesBut(active, k);
            && |opens| == (if active.Some? && active.value < k then k - 1 else k)
            && (forall p :: 0 <= p < |opens| ==>
                  opens[p] == FromTemplate(if active.Some? && active.value <= p then p + 1 else p))
  {
    if k > 0 { TemplatesButFacts(active, k - 1); }
  }

  // Where template i comes in that order.
  function LaunchPosition(n: nat, active: Option<nat>, i: nat): nat
    requires i < n
  {
    if active.None? || active.value >= n || i < active.value then i
    else if i == active.value then n - 1
    else i - 1
  }

  /** A launch configuration opens a permutation of its templates: each exactly once, in order
      except that the active one comes last; and a single empty window if it has none. */
  lemma LaunchOpensEachOnce(n: nat, active: Option<nat>, i: nat, j: nat)
    ensures n == 0 ==> LaunchOpens(n, active) == [EmptyWindow]
    ensures n > 0 ==> |LaunchOpens(n, active)| == n
    ensures i < n ==>
              && LaunchPosition(n, active, i) < n
              && LaunchOpens(n, active)[LaunchPosition(n, active, i)] == FromTemplate(i)
    ensures i < n && active == Some(i) ==> LaunchPosition(n, active, i) == n - 1
    ensures i < j < n ==> LaunchPosition(n, active, i) != LaunchPosition(n, active, j)
    ensures i < j < n && active != Some(i) ==> LaunchPosition(n, active, i) < LaunchPosition(n, active, j)
  {
    TemplatesButFacts(active, n);
  }
}
