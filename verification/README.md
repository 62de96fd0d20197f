# Verified models of Uncaged's stateful core

A Dafny 4.11 project that models the parts of the app whose behaviour is a state machine, a tree
walk, a geometric test or a string algorithm, and proves what holds over all inputs and over whole
runs. `dafny verify dfyconfig.toml` checks everything.

What the source updates in place is a class here (menus, the safe triangle, crash recovery, the
root view, the app's windows, the network status); each method is proved against a function on
values, and the theorems are about those functions.

- **Nested menus** (`MenuRing`, `MenuTree`, `MenuEnter`, `MenuHover`, `Menus`). `MenuRing` is the
  (row, field) ring of Next and Previous, compared with the plain list of all selectable fields.
  `MenuTree` is the tree of menus with its path of open submenus; a menu is named by its path.
  `MenuEnter` says what the keyboard can reach and run. `MenuHover` puts the hover filter in front.
  `Menus` holds the mutable tree: ownership is a footprint, and framing lemmas show that a write
  through `active_menu_mut` changes one menu.
- **Safe triangle** (`SafeTriangles`). Coordinates are reals. The cross-product test equals the
  convex hull, and the filter's triangle equals a cone.
- **Crash recovery** (`CrashFrames`, `CrashChain`, `CrashRecovery`). Counters against render
  histories, the exact condition for the child to be alive, and chains of crashing processes.
- **Root view** (`AuthFlow`, `RootViews`). Which workspace survives authentication and onboarding.
- **Windows** (`Desktops`, `Sessions`, `Windows`). The hotkey window against the windowing system,
  saving and restoring sessions, launch configurations.
- **Text** (`Text`, `Whitespace`, `Prefix`, `HistorySearch`, `Keyboard`, `KeyWords`). UTF-8
  boundaries (section 3 of RFC 3629), longest common prefix, history search highlights, keybinding
  printing and parsing, and the words that they use.
- **Network** (`Network`). Waiters and the conditions that release them.

## Where the code does less than one might expect

Each of these is a theorem that says exactly when it happens, and a lemma with an input or a run on
which it does.

- A straight vertical cursor move is held back when the cursor sits level with the panel's near
  edge but outside the panel: the triangle has no area there and the sign test accepts the whole
  line (`VerticalMoveSuppressedIff`; `VerticalMoveCanBeSuppressed`, a cursor above the panel).
- Suppression is carried over when the target moves, so the first held-back hover for the new
  target need not lie in its triangle (`FirstSuppressedIsInsideIff`; `RetargetCarriesSuppression`,
  a target moved from the right of the cursor to its left).
- Next then Previous does not come back when Next lands on a submenu that was left open, nor
  Previous then Next when Previous does (`NextThenPreviousIff`, `PreviousThenNextIff`). Closing
  submenus leaves them so (`ReselectingReopens`; `SteppingBackCanFail`, six actions from a fresh
  menu for each order).
- With nothing selected, Next and Previous choose row 0 unseen, and Enter does not ask whether a row
  is disabled; so Enter runs a row that cannot be selected exactly when that is row 0 of the menu
  itself (`EnterRunsUnselectableIff`; `DisabledRowRuns`, a menu of one disabled row).
- `Menu::set_items` leaves every nested depth one too small, so hovers in the first nested level
  act on the root menu (`HoversTheRootActsOn`; `HoverReachesTheRoot`, where the root of one row
  gets its row 1 hovered).
- The state PendingOpen (app/src/root_view.rs:133-136) keeps the first focus event after an opening
  toggle from hiding the hotkey window, but focusing one of its panes records it as Open at once,
  and then that event does hide it (`FirstFocusEventHidesIff`; `FocusingAPaneEndsTheProtection`).
- Actions that show or hide a window without recording it part record and screen, and a toggle then
  leaves the window as it is (`UnrecordedShowKeepsAgreementIff`, `UnrecordedHideKeepsAgreementIff`,
  `ToggleAgrees`; `UnrecordedActionsBreakAgreement`, a run for each).
- The recorded active-window index counts windows that are not saved, so a restore may bring
  another window to the front (`RestoredFocusIsRightIff`; `RestoreCanFocusAnotherWindow`, three
  windows of which the first has no workspace).
- A word that means nothing, followed by a dash at the end, or between dashes, is dropped from a
  keystroke's text without an error: the dash key is read alone (`OtherWordBeforeDash`;
  `DroppedWords`, the texts `x-` and `x--y-`).
- An X11 recovery is announced to the user only if a further recovery is prepared
  (`UserIsToldIff`; `SwitchToX11CanGoUntold`, a machine with a GPU preference stored).
- The comment at app/src/root_view.rs:2988 says that a missing SSO link blocks access in any state;
  the code leaves importing, onboarding and the login slide alone (`SsoBlocksIff`;
  `OnboardingOutlastsSso`, which ends in a workspace).

## Model

| member | source | states |
|---|---|---|
| MenuRing.SearchFindsNearest | app/src/menu.rs:1879-1924 | the cyclic skip/take/find chains, both directions, find a row exactly when a selectable one exists, and skip none on the way |
| MenuRing.CellsAreTheSelectableFields | app/src/menu.rs:1496-1531 | the reference list holds every field of every selectable row exactly once; its length is the sum of max(1, items_len) |
| MenuRing.NextIsSuccessor | app/src/menu.rs:1898-1925 | Next moves to the following field in reading order, wrapping at the end |
| MenuRing.PreviousIsPredecessor | app/src/menu.rs:1867-1897 | Previous moves to the preceding field, wrapping at the start |
| MenuRing.NextAndPreviousAreInverse | app/src/menu.rs:1863-1932 | from any field of a selectable row, Next and Previous undo each other in both orders |
| MenuRing.NextVisitsEveryCellOnce | app/src/menu.rs:1863-1932 | repeated Next reaches every field, repeats none, and returns after exactly the number of fields |
| MenuRing.StepsLandOnSelectable | app/src/menu.rs:1867-1926 | with nothing selected both actions pick row 0, selectable or not; otherwise both leave a row for a selectable one, or stay if there is none |
| MenuTree.FirstSelectable | app/src/menu.rs:1996-2007 | the first selectable row, or none when no row is selectable |
| MenuTree.OnlyOneMenuChanges | app/src/menu.rs:1978-1994 | writing the menu at one path changes no other menu's selection, depth or rows |
| MenuTree.SelectKeepsRowsExistingIff | app/src/menu.rs:1863-1932 | while selected rows exist nothing panics, and Select keeps them existing exactly when it names an existing row |
| MenuTree.HandlePreserves | app/src/menu.rs:2600-2659 | no action that names existing rows breaks the invariants: selected rows exist, and an unselected menu below the root has no selected descendant |
| MenuTree.RunsStaySettled | app/src/menu.rs:2600-2659 | those invariants in every state of every run from a tree without selections, and no further action can panic |
| MenuTree.SelectChangesOnlyTheActiveMenu | app/src/menu.rs:2629-2629 | Select gives the menu at the end of the active path the ring's choice and changes no other selection |
| MenuTree.PointerActsOnTheRoot | app/src/menu.rs:2607-2643 | entering a submenu's row, leaving it, hovering a leaf and closing: the root's whole selection, the events and the active path after each, at the root's depth only, with every nested menu untouched |
| MenuTree.OpeningLengthensByOne | app/src/menu.rs:2009-2034 | OpenSubmenu and Enter change nothing, or lengthen the active path by exactly the selected row, select its first selectable child and change no other menu's selection; and exactly when |
| MenuTree.ReselectingReopens | app/src/menu.rs:1812-1817 | clearing the root's selection keeps deeper ones: choosing the row again re-enters the same path |
| MenuTree.NextThenPreviousIff | app/src/menu.rs:1978-1994 | in the tree, Next then Previous restores the field exactly when Next does not land on a submenu left open |
| MenuTree.PreviousThenNextIff | app/src/menu.rs:1978-1994 | and Previous then Next exactly when Previous does not |
| MenuTree.SteppingBackCanFail | app/src/menu.rs:1863-1932 | for each of the two orders, a run of six actions from a fresh menu that ends with the two steps on another row |
| MenuTree.DepthIsNestingLevel | app/src/menu.rs:1779-1800 | building bottom-up with SubMenu::new gives each menu its nesting level as depth; set_items gives one less |
| MenuTree.HoversTheRootActsOn | app/src/menu.rs:2607-2627 | which menus' hover actions the root acts on, for both ways of building |
| MenuTree.HoverReachesTheRoot | app/src/menu.rs:2391-2399 | a nested menu's hover that marks a row the root does not have |
| MenuTree.NewMenuDeepensNested | app/src/menu.rs:1779-1800 | a new menu keeps each nested menu's rows and selection and deepens it by one |
| MenuTree.SetItemsStartsOver | app/src/menu.rs:2391-2399 | setting items takes them as they are and forgets the selection but not the hovered row |
| MenuEnter.SelectionsAreAllowed | app/src/menu.rs:1514-1531 | over any run of actions that choose no row by index, every menu's selected row is an enabled item, a row with such an item, a submenu with rows or a clickable header, the root's row 0 aside, and its field is one of the row's |
| MenuEnter.RootFieldIsReachedIff | app/src/menu.rs:1496-1531 | exactly which fields of the root such runs reach, told from what the rows are |
| MenuEnter.EnterRunsTheSelectedLeaf | app/src/menu.rs:2016-2040 | Enter runs the action of the leaf selected in the active menu and closes, and otherwise opens |
| MenuEnter.EnterRunsUnselectableIff | app/src/menu.rs:2016-2040 | over all runs of actions that choose no row by index, from a fresh menu: Enter can run a row that cannot be selected exactly when row 0 of the root is one and has an action |
| MenuEnter.DisabledRowRuns | app/src/menu.rs:2645-2656 | a disabled row that Next and Enter run |
| MenuHover.SuppressingMeansTracking | app/src/menu.rs:2673-2685 | suppressing implies a target and a last position; after an accepted hover nothing is suppressed |
| MenuHover.FilterOnlyDropsHovers | app/src/menu.rs:2673-2685 | over any run the filter is what leaf hovers and targets alone make of it, and tree and events are those of an unfiltered menu that takes the steps not held back |
| MenuHover.HeldBackHoversFreezeTheMenu | app/src/menu.rs:2673-2685 | over consecutive held-back hovers tree, hovered row, target and apex stay; every position is near the apex or in its triangle, and the first is in the triangle after an accepted hover |
| MenuHover.FilteredRunsStaySettled | app/src/menu.rs:2391-2399 | the tree invariants in every state of runs mixing actions, targets and new items |
| Menus.SubMenu.constructor | app/src/menu.rs:1779-1791 | the new menu's tree is the items, each nested menu one deeper, nothing selected |
| Menus.SubMenu.IncrementDepth | app/src/menu.rs:1793-1800 | every nested menu's depth grows by one and nothing else changes |
| Menus.SubMenu.Rows | app/src/menu.rs:1496-1531 | items_len and selectable of each row, read off the objects, are those of the tree |
| Menus.SubMenu.SelectInternal | app/src/menu.rs:1863-1932 | row and field become the ring's choice, and the row is hovered |
| Menus.SubMenu.SelectWithSource | app/src/menu.rs:1934-1955 | as above, with the source recorded and one selection event |
| Menus.SubMenu.ActiveMenuMut | app/src/menu.rs:1978-1994 | returns the object that the active path leads to |
| Menus.SubMenu.WroteAt | app/src/menu.rs:1978-1994 | after a write to the object at a path, the tree is the old one with that selection replaced |
| Menus.SubMenu.SelectFirstSelectable | app/src/menu.rs:1996-2007 | selects the first selectable row if there is one, and says whether |
| Menus.SubMenu.SelectActive | app/src/menu.rs:2629-2629 | Select on the whole tree, through the active menu |
| Menus.SubMenu.OpenSelectedSubmenu | app/src/menu.rs:2009-2014 | the tree after opening, the event sent, and whether anything opened |
| Menus.SubMenu.SelectedActionForEnter | app/src/menu.rs:2016-2040 | the action to run, and the tree when Enter opens a submenu instead |
| Menus.SubMenu.HandleAction | app/src/menu.rs:2600-2659 | tree and events after any action |
| Menus.Menu.HandleAction | app/src/menu.rs:2673-2685 | leaf hovers pass the safe triangle first; tree, filter and events after any action |
| Menus.Menu.SetItems | app/src/menu.rs:2391-2399 | replaces the rows and clears the selection without touching nested depths |
| Menus.Menu.SetSafeZoneTarget | app/src/menu.rs:2321-2325 | sets or clears the filter's target and leaves the tree alone; without a filter nothing changes |
| SafeTriangles.PointInTriangleIsHull | app/src/safe_triangle.rs:100-114 | the sign test holds exactly for convex combinations of the corners of a non-degenerate triangle, in either orientation |
| SafeTriangles.SafeTriangleIsCone | app/src/safe_triangle.rs:75-91 | the filter's triangle is the cone of 80 points at the near edge; without area it is the vertical line |
| SafeTriangles.HeldBackIff | app/src/safe_triangle.rs:51-92 | the filter's answer and next state from the panel's edges and the move alone: inside, under 2 points, and from the left, the right, above or below |
| SafeTriangles.ClearedTargetHoldsNothing | app/src/safe_triangle.rs:37-43 | clearing the target lets every hover through, and the first one after a new target; a new target alone moves no starting point |
| SafeTriangles.VerticalMoveSuppressedIff | app/src/safe_triangle.rs:51-92 | exactly when a vertical move of at least 2 points is held back |
| SafeTriangles.VerticalMoveCanBeSuppressed | app/src/safe_triangle.rs:80-91 | such a move, straight up from above the panel |
| SafeTriangles.SuppressedIsNearOrInside | app/src/safe_triangle.rs:67-91 | a held-back hover is within 2 points of the apex or in the triangle |
| SafeTriangles.FirstSuppressedIsInsideIff | app/src/safe_triangle.rs:67-73 | all hovers held back next lie in the triangle exactly when no suppression is carried over |
| SafeTriangles.RetargetCarriesSuppression | app/src/safe_triangle.rs:37-43 | a concrete hover held back after retargeting, outside the new triangle |
| SafeTriangles.SafeTriangle.ShouldSuppressHover | app/src/safe_triangle.rs:51-92 | answer and new state, exits in the source's order |
| SafeTriangles.SafeTriangle.SetTargetRect | app/src/safe_triangle.rs:37-43 | sets the target; clearing it clears everything |
| CrashFrames.CountersAgreeWithHistory | app/src/crash_recovery.rs:85-158 | while the child lives, each window's counters are the trailing errors and the successes of the frames it saw |
| CrashFrames.NextFrame | app/src/crash_recovery.rs:85-158 | what the next frame decides, told from the history: exit at 3 errors in a row, dismissal at 10 successes |
| CrashFrames.AliveIff | app/src/crash_recovery.rs:85-158 | the child is alive and the process running exactly when there was no teardown and no window had 3 errors in a row or 10 successes |
| CrashFrames.AtMostTwentyNineFrames | app/src/crash_recovery.rs:85-158 | such a history has at most 29 frames, and 29 are possible |
| CrashFrames.ThirtiethFrameDecides | app/src/crash_recovery.rs:85-158 | by a window's 30th frame the child is gone or the process has exited |
| CrashFrames.TornDownOnce | app/src/crash_recovery.rs:242-278 | the running flag says whether the slot is filled; the torn-down event comes at most once and nothing follows an empty slot |
| CrashFrames.HowItEnds | app/src/crash_recovery.rs:85-278 | the torn-down event is sent exactly by a window's tenth good frame and the process exits exactly at a third bad one in a row; tearing down by hand does neither |
| CrashFrames.InterleavingDoesNotMatter | app/src/crash_recovery.rs:85-158 | runs without teardown that show each window the same frames agree on whether the child is alive and on every counter, however the windows are interleaved |
| CrashChain.RecoveryLowersMeasure | app/src/crash_recovery.rs:291-335 | recovery is offered exactly while the measure is positive, and uses up one unit of it |
| CrashChain.ChainLength | app/src/crash_recovery.rs:337-373 | a chain of crashes is exactly as long as the measure: at most 2 on Linux, 3 on Windows, 1 elsewhere |
| CrashChain.ChainIs | app/src/crash_recovery.rs:291-335 | the whole chain of mechanisms, spelled out from preferences and environment |
| CrashChain.ChainLeaves | app/src/crash_recovery.rs:362-373 | the backends and preferences that every process of a chain finds: X11 forced, the GPU preference written as false, Vulkan and Dx12 and then Vulkan alone |
| CrashChain.StartupsFollowTheChain | app/src/crash_recovery.rs:171-215 | each process that takes over starts in the state the chain says and prepares the next mechanism |
| CrashChain.UserIsToldIff | app/src/crash_recovery.rs:171-215 | exactly when a starting process tells its user about a crash, from its environment and preferences |
| CrashChain.SwitchToX11CanGoUntold | app/src/crash_recovery.rs:435-452 | a crash after which X11 is forced for good and nothing is said |
| CrashRecovery.HandleParentCrash | app/src/crash_recovery.rs:435-486 | the preferences written and whether to notify |
| CrashRecovery.CrashRecoveryProcess.Kill | app/src/crash_recovery.rs:72-83 | a living child dies and the running flag falls; otherwise nothing |
| CrashRecovery.CrashRecoveryProcess.HandleDrawFrameError | app/src/crash_recovery.rs:85-117 | counters after an error, and exit at the third in a row |
| CrashRecovery.CrashRecoveryProcess.HandleFrameDrawn | app/src/crash_recovery.rs:126-158 | counters after a success, and the kill at the tenth |
| CrashRecovery.CrashRecovery.constructor | app/src/crash_recovery.rs:171-215 | notice, preferences and slot after start-up, with the slot filled only by a living process |
| CrashRecovery.CrashRecovery.OnDrawFrameError | app/src/crash_recovery.rs:242-246 | one error step of the state machine |
| CrashRecovery.CrashRecovery.OnFrameDrawn | app/src/crash_recovery.rs:248-271 | one success step: a killed child leaves the slot and is announced once |
| CrashRecovery.CrashRecovery.TeardownChild | app/src/crash_recovery.rs:273-278 | the child is killed silently and the slot is empty |
| AuthFlow.OneStepOnWorkspaces | app/src/root_view.rs:3490-3672 | any event keeps a held workspace, or creates one from the pending source; only a log-out from Terminal drops one |
| AuthFlow.WorkspacesAreConserved | app/src/root_view.rs:3490-3672 | over any run the workspaces created are the held one plus one per departing log-out; the first has the given source and later ones an empty one |
| AuthFlow.HandleSurvives | app/src/root_view.rs:2974-3100 | while no log-out leaves a held workspace, its handle never changes and nothing is created |
| AuthFlow.SsoBlocksIff | app/src/root_view.rs:2988-3027 | from exactly which states a missing SSO link blocks the view, and from which it ends up in Terminal |
| AuthFlow.OnboardingOutlastsSso | app/src/root_view.rs:2988-3006 | a view that learns of the missing link during onboarding and still enters its workspace |
| AuthFlow.StaysBlockedIff | app/src/root_view.rs:3007-3012 | over a run, a blocked view stays blocked exactly when no event reports the link as made, logs out without a workspace, or re-imports |
| AuthFlow.ScreenChangesIff | app/src/root_view.rs:2103-3179 | for each screen, exactly the events and screens that lead to it; all else stays |
| AuthFlow.CreatesIff | app/src/root_view.rs:3490-3524 | exactly which events make a new workspace |
| AuthFlow.FirstScreen | app/src/root_view.rs:1663-1696 | which screen a view opens on |
| AuthFlow.LoginSlideIsADetour | app/src/root_view.rs:2103-2145 | over any run between onboarding and the login slide the last move decides the screen, the target stays, and the way in is the same |
| RootViews.RootView.constructor | app/src/root_view.rs:1663-1696 | the initial state for each login and platform case |
| RootViews.RootView.CompleteAuthAndCreateWorkspace | app/src/root_view.rs:3491-3524 | onboarding first where due, else the workspace |
| RootViews.RootView.TryOpenOnboardingSlides | app/src/root_view.rs:3526-3548 | onboarding opens only from the auth screens and Terminal, keeping their workspace or arguments |
| RootViews.RootView.ShowNeedsSsoLinkView | app/src/root_view.rs:3586-3611 | the SSO screen replaces the auth screens and Terminal only |
| RootViews.RootView.ShowWebHandoffView | app/src/root_view.rs:3558-3576 | the import screen keeps the workspace or arguments of what it replaces |
| RootViews.RootView.DoLogOut | app/src/root_view.rs:3613-3662 | which states log out, and to what |
| RootViews.RootView.HandleAuthComplete | app/src/root_view.rs:2978-3031 | the state after authentication completes, all branches in order |
| RootViews.RootView.HandleEvent | app/src/root_view.rs:2103-2450 | the state after any event of the login slide, onboarding, auth and web import |
| RootViews.RootView.ToWorkspace | app/src/root_view.rs:3666-3671 | an existing workspace is reused; only a missing one is created |
| Desktops.ToggleAgrees | app/src/root_view.rs:1332-1424 | toggling makes record and screen agree from any state; it flips an open hotkey window's visibility exactly when they agreed before |
| Desktops.FirstFocusEventHidesIff | app/src/root_view.rs:1287-1313 | after an opening toggle and any bystander steps, the first focus event hides the window exactly when hiding is on, it lost focus, and one of its panes was focused since the toggle |
| Desktops.FocusingAPaneEndsTheProtection | app/src/root_view.rs:2480-2488 | a run on which the first focus event hides the window, as the theorem says |
| Desktops.UnrecordedShowKeepsAgreementIff | app/src/root_view.rs:2499-2511 | exactly when showing a window without recording it keeps record and screen in agreement |
| Desktops.UnrecordedHideKeepsAgreementIff | app/src/workspace/cross_window_tab_drag.rs:1553-1553 | the same for hiding one, as dragging a tab between windows does |
| Desktops.UnrecordedActionsBreakAgreement | app/src/root_view.rs:1298-1313 | runs from no windows at all after which record and screen disagree, and a toggle changes nothing on screen |
| Desktops.ComesOnScreenIff | app/src/root_view.rs:1287-1424 | exactly which steps put an open window on screen: no focus event or restore ever does |
| Desktops.GoesOffScreenIff | app/src/root_view.rs:1287-1424 | exactly which steps take one off |
| Desktops.RecordAfter | app/src/root_view.rs:1287-1424 | when the record becomes Open, Hidden or another window's, in both directions |
| Desktops.HiddenStaysHidden | app/src/root_view.rs:1298-1309 | after a hiding toggle the hotkey window stays recorded as hidden and off screen over any run without a toggle, a show, a pane focus or a restored hotkey window |
| Desktops.RestoreKeepsOneHotkeyIff | app/src/root_view.rs:678-732 | exactly when a restore leaves at most one hotkey window |
| Desktops.RestoreRecordsLastHotkey | app/src/root_view.rs:715-732 | a restore with hotkey windows records the last of them, hidden; any other leaves the record alone |
| Desktops.HotkeyWindowAgrees | app/src/root_view.rs:1323-1424 | in every state of orderly runs at most one hotkey window is open, and it is visible exactly in the states Open and PendingOpen |
| Windows.App.GetQuakeModeState | app/src/root_view.rs:1323-1330 | the record counts only while its window is open |
| Windows.App.ToggleQuakeModeWindow | app/src/root_view.rs:1332-1424 | windows and record after a toggle |
| Windows.App.UpdateQuakeModeState | app/src/root_view.rs:1287-1313 | windows and record after a focus event |
| Windows.App.FocusPaneIn | app/src/root_view.rs:2472-2497 | windows and record after focusing a pane |
| Windows.App.OpenFromRestored | app/src/root_view.rs:660-820 | all windows and the record after a restore |
| Windows.App.OpenLaunchConfig | app/src/root_view.rs:508-555 | all windows after opening a launch configuration |
| Sessions.GetAppState | app/src/app_state.rs:359-402 | the saved windows are, in enumeration order, those with a workspace that is no drag preview and has a tab, marked where the id is the hotkey window's; and where the active window was found |
| Sessions.SavedIff | app/src/app_state.rs:375-394 | exactly which snapshots are saved and which are marked |
| Sessions.RecordedIndexIsRightIff | app/src/app_state.rs:367-394 | the recorded index exceeds the saved position by the windows skipped before, so it is right exactly when there are none |
| Sessions.AtMostOneHotkeySaved | app/src/app_state.rs:385-391 | at most one saved window is marked as the hotkey window |
| Sessions.RestoreOpensEachOnce | app/src/root_view.rs:678-817 | a restore opens every normal snapshot once and visible, hotkey ones hidden (not on Windows), an empty window only for want of a normal one, in order with the active one last |
| Sessions.RestoredFocusIsRightIff | app/src/root_view.rs:786-817 | saving and restoring brings the active window back to the front exactly when none before it was skipped or it was the last normal one |
| Sessions.RestoreCanFocusAnotherWindow | app/src/app_state.rs:367-383 | three windows for which saving and restoring focuses the wrong one |
| Sessions.SavedSessionKeepsOneHotkey | app/src/root_view.rs:681-732 | a saved session restored while no hotkey window is open leaves at most one, shown as recorded |
| Sessions.LaunchOpensEachOnce | app/src/root_view.rs:522-555 | a launch configuration opens a permutation of its templates, in order with the active one last |
| Text.BoundariesAreWholeCharacters | app/src/prefix.rs:22-26 | a byte offset is a character boundary exactly when it is the length of whole leading characters |
| Text.EncodedCharDecodes | app/src/prefix.rs:17-17 | the bytes counted for a character are its UTF-8 encoding: they read back as that character and are as few as can be |
| Text.EncodeIsInjective | app/src/prefix.rs:17-17 | different texts have different bytes, so equal bytes are equal text |
| Text.TrimIsTrimmed | app/src/input_suggestions.rs:455-455 | trimming removes whitespace, and only that, from both ends |
| Whitespace.PaddingIsTrimmed | app/src/input_suggestions.rs:455-455 | padding with any of the 25 characters of Unicode White_Space is trimmed off, and nothing else is |
| Prefix.LongestCommonPrefix | app/src/prefix.rs:5-27 | the result is the longest common prefix, and none exactly when the list or that prefix is empty |
| Prefix.MatchedBytesOnBoundary | app/src/prefix.rs:11-20 | each byte count that limits the prefix is a character boundary of the first string |
| Prefix.AnswerIgnoresOrder | app/src/prefix.rs:3-5 | the text does not depend on the order of the strings |
| HistorySearch.SearchFindsTheMatchingOptions | app/src/input_suggestions.rs:451-477 | one item per option that starts with the trimmed query, in order, with the option's trimmed text |
| HistorySearch.HighlightSpellsTheQuery | app/src/input_suggestions.rs:459-463 | the highlighted bytes are in bounds, end on a character boundary, and cut out the trimmed query |
| Keyboard.NormalizedParsesBack | crates/warpui_core/src/keymap.rs:897-993 | a keystroke with a printable key parses back from its normalized text, which is one word |
| Keyboard.CmdOrCtrlFollowsThePlatform | crates/warpui_core/src/keymap.rs:914-920 | `cmdorctrl` sets the command flag on a Mac and the control flag elsewhere |
| KeyWords.ModifierWords | crates/warpui_core/src/keymap.rs:907-921 | what each modifier word in front of any text adds to the keystroke |
| KeyWords.PrintedModifiers | crates/warpui_core/src/keymap.rs:970-993 | which words are printed, and in which order |
| KeyWords.PlainWordParsesIff | crates/warpui_core/src/keymap.rs:922-936 | exactly which single words are keys, named one by one |
| KeyWords.OtherWordBeforeDash | crates/warpui_core/src/keymap.rs:923-929 | exactly when any other word before a dash is an error |
| KeyWords.DroppedWords | crates/warpui_core/src/keymap.rs:923-927 | two texts whose words are dropped |
| Keyboard.TryFrom | app/src/keyboard.rs:190-213 | the binding that a trigger's text parses to, or an error |
| KeyWords.BindingText | app/src/keyboard.rs:176-190 | keystrokes are written with one space between them, and a removed binding as `none` |
| KeyWords.WhitespaceSeparates | app/src/keyboard.rs:198-204 | texts with any whitespace character between them read as the keystrokes of both in order |
| Keyboard.PrintThenParseIff | app/src/keyboard.rs:176-213 | printing then parsing gives the binding back exactly when every key is printable |
| Keyboard.RoundTripIff | app/src/keyboard.rs:176-213 | the same for any table of special key names that cannot be mistaken for modifiers, `space` or `none` |
| Keyboard.ParsedTextIsAFixedPoint | app/src/keyboard.rs:176-213 | printing after a successful parse is a fixed point; whitespace alone never parses |
| Network.NetworkStatus.ReachabilityChanged | app/src/network.rs:49-75 | status, conditions and announcements after a report; going online releases every waiter |
| Network.NetworkStatus.WaitUntilOnline | app/src/network.rs:79-87 | a waiter gets the pending condition exactly when offline |
| Network.NetworkStatus.WaiterIsBlockedIff | app/src/network.rs:49-87 | a waiter is blocked exactly when the network has been offline ever since it began |

## Left out

- Rendering, styling, accessibility text, telemetry, logging and crash reporting.
- Scrolling a selected row into view, and view notifications that redraw without changing state.
- Panics on indexing a row that does not exist: exactly those calls are excluded, by `MenuRing.NoPanic`. Run theorems further ask that actions name rows that exist; `MenuTree.SelectKeepsRowsExistingIff` says what happens otherwise.
- Windowing: hiding or showing a window that is not open has no effect, and ids are never reused.
- `f32` rounding in the safe triangle: coordinates are reals. The rectangle's containment test is not part of this repository; its edges are taken to belong to it.
- Machine widths: indices, counters and lengths are unbounded, none of which the source can exhaust.
- Process handles, waiting for the parent, and Sentry in crash recovery: a spawn succeeds or not, and exiting is a flag after which no method may be called.
- CrashChain.ChainLength: assumes that preference writes succeed and that nobody edits preferences or the environment during the chain.
- The integration-test channel is a parameter of the crash-recovery choice; FreeBSD is treated like the other non-Linux systems.
- Display ids and window bounds of the hotkey window, app-wide hiding and activation, and the pin-screen move: they change no window's visibility record.
- Sessions.RestoredFocusIsRightIff: stated for an active window that is kept and is not the hotkey window; another active window has no position among the normal snapshots to return to.
- Pending tutorials and pending settings of the root view, the paste-token dialog, and the login-required branch at app/src/root_view.rs:2194-2256, whose guard is constantly false.
- AuthFlow.SsoBlocksIff: the effect of a forced log-out after a failed authentication arrives as a log-out event of its own.
- `Keystroke::parse` is modelled as a recursive function over the components, not as a loop, because lemmas use it; its debug-only panics on letter case are not modelled. Bindings are modelled without YAML reading and writing.
- Error texts: every parse failure is one error value.
- `InputSuggestions::select` and `set_items`: the index of the highlighted suggestion moves by one, wrapping or stopping at the ends, and new suggestions reset the scroll and mouse state. Fuzzy and tab-completion search depend on a matcher that is not part of this model.
- Asynchronous wake-up of waiters: a waiter is the condition it was handed, blocked while its flag is unset.
- `Condition::reset`, which nothing here calls.
- The changelog is fetched and cached, referral themes become available once fetched, projects are a map from path to record, and feature flags, fallback fonts and builds are fixed tables.
