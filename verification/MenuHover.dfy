/**
 A whole menu as a value: the tree of `MenuTree` behind the filter of `SafeTriangles`.

 Leaf hovers pass the filter first.  One that is held back must leave no trace in the tree;
 the theorems here are about unbroken runs of such hovers.
 */
module MenuHover {
  import opened Wrappers
  import T = MenuTree
  import S = SafeTriangles

  datatype MenuState = MenuState(filter: Option<S.State>, tree: T.Tree, dispatchItemActions: bool)

  datatype MenuStep = Act(action: T.MenuAction) | Retarget(rect: Option<S.Rect>) | Refill(items: seq<T.Item>)

  // Actions name rows that exist; new items come with no selection in them.
  ghost predicate Enabled(ms: MenuState, step: MenuStep) {
    && (step.Act? ==> T.Enabled(ms.tree, step.action) && T.NamesRows(ms.tree, step.action))
    && (step.Refill? ==> T.NoSelections(T.Tree(0, step.items, T.Unselected)))
  }

  function Step(ms: MenuState, step: MenuStep): (MenuState, seq<T.Event>)
    requires step.Act? ==> T.Enabled(ms.tree, step.action)
  {
    match step
    case Refill(items) => (ms.(tree := T.SetItems(ms.tree, items)), [])
    case Retarget(rect) =>
      (if ms.filter.None? then ms else ms.(filter := Some(S.SetTarget(ms.filter.value, rect))), [])
    case Act(action) =>
      if action.HoverSubmenuLeafNode? && ms.filter.Some? then
        var (filter, suppressed) := S.Hover(ms.filter.value, action.position);
        if suppressed then (ms.(filter := Some(filter)), [])
        else
          var (tree, events) := T.Handle(ms.tree, action, ms.dispatchItemActions);
          (ms.(filter := Some(filter), tree := tree), events)
      else
        var (tree, events) := T.Handle(ms.tree, action, ms.dispatchItemActions);
        (ms.(tree := tree), events)
  }

  ghost predicate IsRun(states: seq<MenuState>, steps: seq<MenuStep>) {
    && |states| == |steps| + 1
    && states[0].filter in {None, Some(S.State(None, None, false))}
    && T.NoSelections(states[0].tree)
    && forall i :: 0 <= i < |steps| ==> Enabled(states[i], steps[i]) && states[i + 1] == Step(states[i], steps[i]).0
  }

  ghost predicate IsLeafHover(step: MenuStep) {
    step.Act? && step.action.HoverSubmenuLeafNode?
  }

  // Step i is a leaf hover that the filter holds back.
  ghost predicate HeldBack(states: seq<MenuState>, steps: seq<MenuStep>, i: nat)
    requires |states| == |steps| + 1
  {
    && i < |steps| && IsLeafHover(steps[i]) && states[i].filter.Some?
    && S.ShouldSuppress(states[i].filter.value, steps[i].action.position).1
  }

  /** In every reachable state, suppressing implies that a target and a last position are set;
      after every accepted leaf hover nothing is being suppressed and its position is the apex. */
  lemma {:induction false} SuppressingMeansTracking(states: seq<MenuState>, steps: seq<MenuStep>, i: nat)
    requires IsRun(states, steps) && i < |states|
    ensures states[i].filter.Some? && states[i].filter.value.suppressing ==>
              states[i].filter.value.target.Some? && states[i].filter.value.last.Some?
    ensures i > 0 && states[i].filter.Some? && IsLeafHover(steps[i - 1]) && !HeldBack(states, steps, i - 1) ==>
              && !states[i].filter.value.suppressing
              && states[i].filter.value.last == Some(steps[i - 1].action.position)
    decreases i
  {
    if i > 0 {
      SuppressingMeansTracking(states, steps, i - 1);
      assert states[i] == Step(states[i - 1], steps[i - 1]).0;
    }
  }

  /** Over consecutive held-back leaf hovers nothing in the menu moves: the whole tree (with the
      hovered row), the target and the apex stay those of the first one.  Every position lies in
      the one triangle at that apex or within 2 points of it; and if the hovers follow an
      accepted one, or start the whole run, the first position lies in the triangle. */
  lemma {:induction false} HeldBackHoversFreezeTheMenu(states: seq<MenuState>, steps: seq<MenuStep>, i: nat, j: nat)
    requires IsRun(states, steps) && i <= j < |steps|
    requires forall k :: i <= k <= j ==> HeldBack(states, steps, k)
    ensures states[i].filter.Some? && S.Armed(states[i].filter.value)
    ensures IsLeafHover(steps[i]) && IsLeafHover(steps[j])
    ensures states[j].filter.Some? && states[j + 1].tree == states[i].tree
    ensures states[j + 1].filter == Some(states[i].filter.value.(suppressing := true))
    ensures var st, p := states[i].filter.value, steps[j].action.position;
            S.InTriangleOf(st, p) || S.DistanceSquared(p, st.last.value) < S.MIN_MOVEMENT_SQUARED
    ensures i == 0 || (IsLeafHover(steps[i - 1]) && !HeldBack(states, steps, i - 1)) ==>
              S.InTriangleOf(states[i].filter.value, steps[i].action.position)
    decreases j
  {
    assert HeldBack(states, steps, i) && HeldBack(states, steps, j);
    assert states[j + 1] == Step(states[j], steps[j]).0;
    SuppressingMeansTracking(states, steps, i);
    S.SuppressedIsNearOrInside(states[i].filter.value, steps[i].action.position);
    if i > 0 && IsLeafHover(steps[i - 1]) && !HeldBack(states, steps, i - 1) {
      assert states[i] == Step(states[i - 1], steps[i - 1]).0;
    }
    if i < j {
      HeldBackHoversFreezeTheMenu(states, steps, i, j - 1);
      S.SuppressedIsNearOrInside(states[j].filter.value, steps[j].action.position);
    }
  }

  /** In every reachable state of the menu with its filter, whatever mix of actions, new targets and
      new items led there, every selected row exists, and a menu below the root without a selection
      has no selected descendant. */
  lemma {:induction false} FilteredRunsStaySettled(states: seq<MenuState>, steps: seq<MenuStep>, i: nat)
    requires IsRun(states, steps) && i < |states|
    ensures T.WellSelected(states[i].tree) && T.Settled(states[i].tree)
    decreases i
  {
    if i == 0 {
      T.FreshTreesQualify(states[0].tree);
    } else {
      FilteredRunsStaySettled(states, steps, i - 1);
      var was, step := states[i - 1], steps[i - 1];
      if step.Act? { T.HandlePreserves(was.tree, step.action, was.dispatchItemActions); }
      if step.Refill? {
        T.SetItemsStartsOver(was.tree, step.items);
        T.FreshTreesQualify(states[i].tree);
      }
    }
  }

  // ----- the filter and the tree, apart -----

  // The filter's own run: leaf hovers and targets move it, and nothing else does.
  function FilterAfter(filter: Option<S.State>, steps: seq<MenuStep>): Option<S.State> {
    if steps == [] || filter.None? then filter
    else
      var before := FilterAfter(filter, steps[..|steps| - 1]);
      if before.None? then before
      else
        match steps[|steps| - 1]
        case Act(HoverSubmenuLeafNode(_, _, position)) => Some(S.Hover(before.value, position).0)
        case Retarget(rect) => Some(S.SetTarget(before.value, rect))
        case _ => before
  }

  // The steps that get past a filter which starts like this.
  function Passed(filter: Option<S.State>, steps: seq<MenuStep>): seq<MenuStep> {
    if steps == [] then []
    else
      var init, last := steps[..|steps| - 1], steps[|steps| - 1];
      var before := FilterAfter(filter, init);
      Passed(filter, init)
      + if last.Retarget?
           || (before.Some? && last.Act? && last.action.HoverSubmenuLeafNode?
               && S.Hover(before.value, last.action.position).1)
        then [] else [last]
  }

  // A tree without a filter takes this step, and sends these events.
  predicate BareMove(t: T.Tree, step: MenuStep, dispatch: bool, t': T.Tree, sent: seq<T.Event>) {
    match step
    case Act(action) => T.Enabled(t, action) && (t', sent) == T.Handle(t, action, dispatch)
    case Refill(items) => (t', sent) == (T.SetItems(t, items), [])
    case Retarget(_) => false
  }

  ghost predicate BareRun(trees: seq<T.Tree>, steps: seq<MenuStep>, dispatch: bool, sent: seq<seq<T.Event>>) {
    && |trees| == |steps| + 1 && |sent| == |steps|
    && forall k :: 0 <= k < |steps| ==> BareMove(trees[k], steps[k], dispatch, trees[k + 1], sent[k])
  }

  function Flat(sent: seq<seq<T.Event>>): seq<T.Event> {
    if sent == [] then [] else Flat(sent[..|sent| - 1]) + sent[|sent| - 1]
  }

  lemma BareRunGrows(trees: seq<T.Tree>, steps: seq<MenuStep>, dispatch: bool, sent: seq<seq<T.Event>>,
          step: MenuStep, t: T.Tree, events: seq<T.Event>)
    requires BareRun(trees, steps, dispatch, sent) && BareMove(trees[|trees| - 1], step, dispatch, t, events)
    ensures BareRun(trees + [t], steps + [step], dispatch, sent + [events])
    ensures Flat(sent + [events]) == Flat(sent) + events
  {
    assert (sent + [events])[..|sent|] == sent;
  }

  // All that a run sends.
  function Sent(states: seq<MenuState>, steps: seq<MenuStep>, n: nat): seq<T.Event>
    requires n <= |steps| && |states| == |steps| + 1
    requires forall i :: 0 <= i < n && steps[i].Act? ==> T.Enabled(states[i].tree, steps[i].action)
  {
    if n == 0 then [] else Sent(states, steps, n - 1) + Step(states[n - 1], steps[n - 1]).1
  }

  /** A menu with a filter is the filter beside the bare tree: over any run the filter is what leaf
      hovers and targets alone make of it, and the tree and the events sent are those of a tree
      without a filter that takes exactly the steps which are not held back. */
  lemma {:induction false} FilterOnlyDropsHovers(states: seq<MenuState>, steps: seq<MenuStep>, n: nat)
    returns (trees: seq<T.Tree>, sent: seq<seq<T.Event>>)
    requires IsRun(states, steps) && n <= |steps|
    ensures states[n].filter == FilterAfter(states[0].filter, steps[..n])
    ensures states[n].dispatchItemActions == states[0].dispatchItemActions
    ensures BareRun(trees, Passed(states[0].filter, steps[..n]), states[0].dispatchItemActions, sent)
    ensures trees[0] == states[0].tree && trees[|trees| - 1] == states[n].tree
    ensures Flat(sent) == Sent(states, steps, n)
  {
    if n == 0 {
      trees, sent := [states[0].tree], [];
    } else {
      trees, sent := FilterOnlyDropsHovers(states, steps, n - 1);
      var was, step, taken := states[n - 1], steps[n - 1], Passed(states[0].filter, steps[..n - 1]);
      assert states[n] == Step(was, step).0 && Enabled(was, step);
      assert steps[..n][..n - 1] == steps[..n - 1];
      FilterAfterNone(states[0].filter, steps[..n - 1]);
      if Passed(states[0].filter, steps[..n]) != taken {
        var events := Step(was, step).1;
        BareRunGrows(trees, taken, states[0].dispatchItemActions, sent, step, states[n].tree, events);
        trees, sent := trees + [states[n].tree], sent + [events];
      }
    }
  }

  lemma {:induction false} FilterAfterNone(filter: Option<S.State>, steps: seq<MenuStep>)
    ensures FilterAfter(filter, steps).None? <==> filter.None?
  {
    if steps != [] { FilterAfterNone(filter, steps[..|steps| - 1]); }
  }
}
