/**
 Which rows and fields the keyboard can reach, and what Enter runs there.

 The theorems tell the rows by what they are, not by the row summaries that the walk looks at.
 Enter looks only at the action of the selected field, not at whether its row can be selected;
 the last theorem says for which menus a row that cannot be selected is run all the same.
 */
module MenuEnter {
  import opened Wrappers
  import opened MenuRing
  import opened MenuTree

  // Field f of the row is this leaf.
  predicate IsLeaf(item: Item, f: nat, fields: Fields) {
    || item == Plain(fields) || item == Header(fields, true)
    || (item.ItemsRow? && f < |item.items| && item.items[f] == fields)
  }

  // The leaf selected in the active menu; without a selected field it is the first.
  ghost predicate Selects(t: Tree, fields: Fields) {
    var menu := Active(t);
    && menu.sel.row.Some? && menu.sel.row.value < |menu.items|
    && IsLeaf(menu.items[menu.sel.row.value], if menu.sel.item.Some? then menu.sel.item.value else 0, fields)
  }

  /** Enter runs the action of the leaf selected in the active menu, dispatched or announced, and then
      closes the menu; with no such leaf, or none with an action, it does what OpenSubmenu does. */
  lemma EnterRunsTheSelectedLeaf(t: Tree, fields: Fields, dispatch: bool)
    ensures Selects(t, fields) && fields.onSelectAction.Some? ==>
              Handle(t, Enter, dispatch) ==
              (t, [if dispatch then Dispatched(fields.onSelectAction.value) else ItemSelected, Closed(true)])
    ensures (forall leaf :: Selects(t, leaf) ==> leaf.onSelectAction.None?) ==>
              && Handle(t, Enter, dispatch) == Handle(t, OpenSubmenu, dispatch)
              && Closed(true) !in Handle(t, Enter, dispatch).1
  {
    var menu := Active(t);
    if Selects(t, fields) {
      LeafOpensNothing(t);
      assert EnterAction(menu) == fields.onSelectAction && Opened(t) == (t, []);
      if fields.onSelectAction.Some? {
        var first := if dispatch then Dispatched(fields.onSelectAction.value) else ItemSelected;
        assert [] + [first] + [Closed(true)] == [first, Closed(true)];
      }
    }
    if EnterAction(menu).Some? {
      var item, f := menu.items[menu.sel.row.value], OrElse(menu.sel.item, 0);
      var leaf := if item.ItemsRow? then item.items[f] else item.fields;
      assert Selects(t, leaf) && leaf.onSelectAction == EnterAction(menu);
    }
  }

  // As a property of the code's own choice of action.
  lemma EnterFires(t: Tree, dispatch: bool)
    ensures Closed(true) in Handle(t, Enter, dispatch).1 <==> EnterAction(Active(t)).Some?
  {
  }

  // Actions that choose no row by its index.
  predicate Keyed(action: MenuAction) {
    match action
    case Select(selection) => !selection.Index?
    case HoverSubmenuWithChildren(_, _) => false
    case _ => true
  }

  ghost predicate KeyedRun(trees: seq<Tree>, actions: seq<MenuAction>, dispatch: bool) {
    IsRun(trees, actions, dispatch) && forall i :: 0 <= i < |actions| ==> Keyed(actions[i])
  }

  // A row that the user may choose.
  predicate Choosable(item: Item) {
    match item
    case Plain(fields) => !fields.disabled && !fields.noInteractionOnHover
    case Separator => false
    case ItemsRow(items) => exists i :: 0 <= i < |items| && !items[i].disabled && !items[i].noInteractionOnHover
    case Branch(_, menu) => menu.items != []
    case Header(_, clickable) => clickable
  }

  // Field f of the row: an entry of a row of items, or the label or a child of a submenu; any
  // other row is its own one field, and so is a row of no items.
  predicate HasField(item: Item, f: nat) {
    match item
    case ItemsRow(items) => f < |items| || f == 0
    case Branch(_, menu) => f <= |menu.items|
    case _ => f == 0
  }

  lemma ItemsRowIsAsListed(item: Item)
    requires item.ItemsRow?
    ensures RowOf(item).selectable <==> Choosable(item)
    ensures Choosable(item) ==> item.items != []
  {
    var items := item.items;
    if Choosable(item) {
      var i :| 0 <= i < |items| && !items[i].disabled && !items[i].noInteractionOnHover;
      assert items[i] in items && Interactive(items[i]);
    }
    if fields :| fields in items && Interactive(fields) {
      var i :| 0 <= i < |items| && items[i] == fields;
      assert !items[i].disabled && !items[i].noInteractionOnHover;
    }
  }

  lemma RowsAreAsListed(item: Item, f: nat)
    ensures RowOf(item).selectable <==> Choosable(item)
    ensures f <= LastField(RowOf(item)) <==> HasField(item, f)
    ensures f < Span(RowOf(item)) <==> Choosable(item) && HasField(item, f)
  {
    match item {
      case ItemsRow(_) => ItemsRowIsAsListed(item);
      case _ =>
    }
  }

  // The selected row can be chosen, or it is the root's row 0; and its selected field exists.
  predicate AllowedIn(menu: Tree, p: Path) {
    menu.sel.row.Some? ==>
      && menu.sel.row.value < |menu.items| && menu.sel.item.Some?
      && (Choosable(menu.items[menu.sel.row.value]) || (p == [] && menu.sel.row.value == 0))
      && HasField(menu.items[menu.sel.row.value], menu.sel.item.value)
  }

  // The same of a selection over row summaries.
  predicate AllowedRow(rows: seq<Row>, sel: Selection, p: Path) {
    sel.row.Some? ==>
      && sel.row.value < |rows| && (rows[sel.row.value].selectable || (p == [] && sel.row.value == 0))
      && sel.item.Some? && sel.item.value <= LastField(rows[sel.row.value])
  }

  ghost predicate RowsAllowed(t: Tree) {
    forall p :: ValidPath(t, p) ==> AllowedRow(RowsOf(At(t, p).items), At(t, p).sel, p)
  }

  // One leaf in two trees, or two submenus.
  predicate SameLeaf(a: Item, b: Item) {
    a == b || (a.Branch? && b.Branch?)
  }

  predicate SameFirst(t: Tree, t': Tree) {
    RowsOf(t'.items) == RowsOf(t.items) && (t.items != [] ==> SameLeaf(t.items[0], t'.items[0]))
  }

  // Some field of the row has an action that Enter would run.
  predicate HasAction(item: Item) {
    match item
    case Plain(fields) => fields.onSelectAction.Some?
    case ItemsRow(items) => exists i :: 0 <= i < |items| && items[i].onSelectAction.Some?
    case Header(fields, clickable) => clickable && fields.onSelectAction.Some?
    case _ => false
  }

  // Enter runs an action from a row that cannot be selected.
  predicate RunsUnselectable(t: Tree, dispatch: bool) {
    var menu := Active(t);
    && menu.sel.row.Some? && menu.sel.row.value < |menu.items|
    && !Choosable(menu.items[menu.sel.row.value])
    && Closed(true) in Handle(t, Enter, dispatch).1
  }

  // Where a keyed action writes, and that the row it writes is allowed there.
  lemma KeyedWrites(t: Tree, action: MenuAction, dispatch: bool) returns (p: Option<Path>, sel: Selection)
    requires Enabled(t, action) && NamesRows(t, action) && Keyed(action) && RowsAllowed(t)
    ensures p.None? ==> Handle(t, action, dispatch).0 == t
    ensures p.Some? ==> ValidPath(t, p.value) && Handle(t, action, dispatch).0 == WithSel(t, p.value, sel)
    ensures p.Some? ==> AllowedRow(RowsOf(At(t, p.value).items), sel, p.value)
  {
    assert ValidPath(t, []) && At(t, []) == t;
    p, sel := None, Unselected;
    match action {
      case Select(selection) =>
        var a, menu := ActivePath(t), Active(t);
        p, sel := Some(a), Chosen(menu, selection, KeyboardOrProgrammatic);
        StepsLandOnSelectable(RowsOf(menu.items), menu.sel.row, menu.sel.item);
        assert a + [] == a;
        ActivePrefixesSelected(t, a, []);
      case HoverSubmenuLeafNode(depth, row, _) =>
        if depth == t.depth { p, sel := Some([]), t.sel.(hovered := Some(row)); }
      case UnhoverSubmenuParent(depth) =>
        if depth == t.depth { p, sel := Some([]), Cleared(t.sel); }
      case CloseSubmenu(depth) =>
        if depth == t.depth { p, sel := Some([]), Cleared(t.sel); }
      case OpenSubmenu => p, sel := OpenedWrites(t);
      case Enter => p, sel := OpenedWrites(t);
      case Close(_) =>
    }
  }

  lemma KeyedStepKeeps(t: Tree, action: MenuAction, dispatch: bool)
    requires Enabled(t, action) && NamesRows(t, action) && Keyed(action) && RowsAllowed(t)
    ensures RowsAllowed(Handle(t, action, dispatch).0) && SameFirst(t, Handle(t, action, dispatch).0)
  {
    var p, sel := KeyedWrites(t, action, dispatch);
    if p.Some? {
      var t' := WithSel(t, p.value, sel);
      OnlyOneMenuChanges(t, p.value, sel, []);
      forall q | ValidPath(t', q) ensures AllowedRow(RowsOf(At(t', q).items), At(t', q).sel, q) {
        OnlyOneMenuChanges(t, p.value, sel, q);
      }
    }
  }

  lemma {:induction false} KeyedRunKeeps(trees: seq<Tree>, actions: seq<MenuAction>, dispatch: bool, i: nat)
    requires KeyedRun(trees, actions, dispatch) && NoSelections(trees[0]) && i < |trees|
    ensures RowsAllowed(trees[i]) && SameFirst(trees[0], trees[i])
    decreases i
  {
    if i > 0 {
      KeyedRunKeeps(trees, actions, dispatch, i - 1);
      assert Moves(trees[i - 1], actions[i - 1], dispatch, trees[i]);
      KeyedStepKeeps(trees[i - 1], actions[i - 1], dispatch);
    }
  }

  /** Whatever actions that choose no row by index are taken from a menu without selections, every
      menu's selected row is one that may be chosen, the root's own row 0 aside, and its selected
      field is one of that row's. */
  lemma SelectionsAreAllowed(trees: seq<Tree>, actions: seq<MenuAction>, dispatch: bool, i: nat, p: Path)
    requires KeyedRun(trees, actions, dispatch) && NoSelections(trees[0]) && i < |trees| && ValidPath(trees[i], p)
    ensures AllowedIn(At(trees[i], p), p)
  {
    KeyedRunKeeps(trees, actions, dispatch, i);
    var menu := At(trees[i], p);
    assert AllowedRow(RowsOf(menu.items), menu.sel, p);
    if menu.sel.row.Some? { RowsAreAsListed(menu.items[menu.sel.row.value], menu.sel.item.value); }
  }

  function OnCell(cell: Cell): Selection {
    OnRow(cell.0).(item := Some(cell.1))
  }

  // Next on the root of a menu in which nothing else is selected.
  lemma NextMoves(t: Tree, cell: Cell, dispatch: bool)
    requires NoSelections(t) && cell.0 < |t.items|
    ensures Moves(t, Select(Next), dispatch, t.(sel := OnCell((0, 0))))
    ensures Moves(t.(sel := OnCell(cell)), Select(Next), dispatch, t.(sel := OnCell(NextCell(RowsOf(t.items), cell))))
  {
    var t' := t.(sel := OnCell(cell));
    assert ValidPath(t, []) && At(t, []) == t;
    assert ValidPath(t', []) && At(t', []) == t';
    assert ActivePath(t) == [];
    if t.items[cell.0].Branch? {
      ExtendPath(t, [], cell.0);
      assert [] + [cell.0] == [cell.0];
      assert t.items[cell.0].menu.sel.row.None?;
    }
    assert ActivePath(t') == [];
  }

  lemma RunGrows(trees: seq<Tree>, actions: seq<MenuAction>, dispatch: bool, t: Tree)
    requires KeyedRun(trees, actions, dispatch) && Moves(trees[|trees| - 1], Select(Next), dispatch, t)
    ensures KeyedRun(trees + [t], actions + [Select(Next)], dispatch)
  {
  }

  // From a fresh menu, Next walks through the fields of row 0.
  lemma {:induction false} WalkRowZero(t: Tree, field: nat, dispatch: bool)
    returns (trees: seq<Tree>, actions: seq<MenuAction>)
    requires NoSelections(t) && t.items != [] && field <= LastField(RowOf(t.items[0]))
    ensures KeyedRun(trees, actions, dispatch) && trees[0] == t
    ensures trees[|trees| - 1] == t.(sel := OnCell((0, field)))
    decreases field
  {
    if field == 0 {
      trees, actions := [t], [];
      NextMoves(t, (0, 0), dispatch);
    } else {
      trees, actions := WalkRowZero(t, field - 1, dispatch);
      NextMoves(t, (0, field - 1), dispatch);
    }
    var next := t.(sel := OnCell((0, field)));
    RunGrows(trees, actions, dispatch, next);
    trees, actions := trees + [next], actions + [Select(Next)];
  }

  // And from a field of a selectable row, Next walks along the ring.
  lemma {:induction false} WalkRing(t: Tree, trees0: seq<Tree>, actions0: seq<MenuAction>, cell: Cell, k: nat,
          dispatch: bool)
    returns (trees: seq<Tree>, actions: seq<MenuAction>)
    requires NoSelections(t) && IsCell(RowsOf(t.items), cell)
    requires KeyedRun(trees0, actions0, dispatch) && trees0[0] == t
    requires trees0[|trees0| - 1] == t.(sel := OnCell(cell))
    ensures KeyedRun(trees, actions, dispatch) && trees[0] == t
    ensures trees[|trees| - 1] == t.(sel := OnCell(NextTimes(RowsOf(t.items), cell, k)))
    decreases k
  {
    trees, actions := trees0, actions0;
    if k > 0 {
      NextAndPreviousAreInverse(RowsOf(t.items), cell);
      NextMoves(t, cell, dispatch);
      var next := NextCell(RowsOf(t.items), cell);
      RunGrows(trees, actions, dispatch, t.(sel := OnCell(next)));
      trees, actions := WalkRing(t, trees + [t.(sel := OnCell(next))], actions + [Select(Next)], next, k - 1, dispatch);
    }
  }

  // Stepping off the last field of row 0 reaches some selectable row, if there is one.
  lemma WalkToTheRing(t: Tree, dispatch: bool) returns (trees: seq<Tree>, actions: seq<MenuAction>, cell: Cell)
    requires NoSelections(t) && SomeSelectable(RowsOf(t.items))
    ensures KeyedRun(trees, actions, dispatch) && trees[0] == t
    ensures IsCell(RowsOf(t.items), cell) && trees[|trees| - 1] == t.(sel := OnCell(cell))
  {
    var rows, f := RowsOf(t.items), LastField(RowOf(t.items[0]));
    trees, actions := WalkRowZero(t, f, dispatch);
    cell := NextCell(rows, (0, f));
    StepsLandOnSelectable(rows, Some(0), Some(f));
    NextMoves(t, (0, f), dispatch);
    RunGrows(trees, actions, dispatch, t.(sel := OnCell(cell)));
    trees, actions := trees + [t.(sel := OnCell(cell))], actions + [Select(Next)];
  }

  /** Which fields of the root the keyboard reaches: from a menu without selections, some run of
      actions that choose no row by index selects field f of row r in the root exactly when the row
      has that field, and may be chosen or is row 0. */
  lemma RootFieldIsReachedIff(t: Tree, r: nat, f: nat, dispatch: bool)
    requires NoSelections(t)
    ensures (exists trees, actions :: KeyedRun(trees, actions, dispatch) && trees[0] == t
                                      && IsAt(trees[|trees| - 1], r, f)) <==>
            r < |t.items| && HasField(t.items[r], f) && (Choosable(t.items[r]) || r == 0)
  {
    if trees, actions :| KeyedRun(trees, actions, dispatch) && trees[0] == t && IsAt(trees[|trees| - 1], r, f) {
      var last := trees[|trees| - 1];
      KeyedRunKeeps(trees, actions, dispatch, |trees| - 1);
      assert ValidPath(last, []) && AllowedRow(RowsOf(At(last, []).items), At(last, []).sel, []);
      RowsAreAsListed(t.items[r], f);
      assert RowsOf(last.items)[r] == RowOf(t.items[r]);
    }
    if r < |t.items| && HasField(t.items[r], f) && (Choosable(t.items[r]) || r == 0) {
      RowsAreAsListed(t.items[r], f);
      if r == 0 {
        var trees, actions := WalkRowZero(t, f, dispatch);
        assert IsAt(trees[|trees| - 1], r, f);
      } else {
        var rows := RowsOf(t.items);
        assert rows[r] in rows && rows[r].selectable;
        var trees0, actions0, cell := WalkToTheRing(t, dispatch);
        NextVisitsEveryCellOnce(rows, cell, (r, f));
        var k: nat :| k < SpanSum(rows) && NextTimes(rows, cell, k) == (r, f);
        var trees, actions := WalkRing(t, trees0, actions0, cell, k, dispatch);
        assert IsAt(trees[|trees| - 1], r, f);
      }
    }
  }

  predicate IsAt(t: Tree, r: nat, f: nat) {
    t.sel.row == Some(r) && t.sel.item == Some(f)
  }

  lemma ActionHasField(item: Item, field: nat)
    ensures FieldAction(item, field).Some? ==> HasAction(item)
  {
  }

  lemma FieldWithAction(item: Item) returns (field: nat)
    requires HasAction(item)
    ensures field <= LastField(RowOf(item)) && FieldAction(item, field).Some?
  {
    field := 0;
    if item.ItemsRow? {
      var i :| 0 <= i < |item.items| && item.items[i].onSelectAction.Some?;
      field := i;
    }
  }

  /** From a menu without selections, some run of actions that choose no row by its index ends where
      Enter runs an action from a row that cannot be selected, exactly when the menu's own row 0
      cannot be selected and has an action: that row is chosen blindly by the first step, and no
      other row that cannot be selected is ever reached, in the menu or in its submenus. */
  lemma EnterRunsUnselectableIff(t: Tree, dispatch: bool)
    requires NoSelections(t)
    ensures (exists trees, actions :: KeyedRun(trees, actions, dispatch) && trees[0] == t
                                      && RunsUnselectable(trees[|trees| - 1], dispatch)) <==>
            t.items != [] && !Choosable(t.items[0]) && HasAction(t.items[0])
  {
    if trees, actions :| KeyedRun(trees, actions, dispatch) && trees[0] == t
                         && RunsUnselectable(trees[|trees| - 1], dispatch) {
      var last := trees[|trees| - 1];
      KeyedRunKeeps(trees, actions, dispatch, |trees| - 1);
      RowsAreAsListed(Active(last).items[Active(last).sel.row.value], 0);
      EnterFires(last, dispatch);
      assert AllowedRow(RowsOf(Active(last).items), Active(last).sel, ActivePath(last));
      assert Active(last) == last;
      ActionHasField(last.items[0], OrElse(last.sel.item, 0));
    }
    if t.items != [] && !Choosable(t.items[0]) && HasAction(t.items[0]) {
      var field := FieldWithAction(t.items[0]);
      var trees, actions := WalkRowZero(t, field, dispatch);
      EnterFires(trees[|trees| - 1], dispatch);
      assert RunsUnselectable(trees[|trees| - 1], dispatch);
    }
  }

  /** A menu whose one row is disabled: Next, then Enter, runs its action and closes the menu. */
  lemma DisabledRowRuns(dispatch: bool)
    ensures var t := Tree(0, [Plain(Fields(true, false, Some(7)))], Unselected);
            && !Choosable(t.items[0]) && Enabled(t, Select(Next))
            && Handle(Handle(t, Select(Next), dispatch).0, Enter, dispatch).1 ==
               [if dispatch then Dispatched(7) else ItemSelected, Closed(true)]
  {
    var t := Tree(0, [Plain(Fields(true, false, Some(7)))], Unselected);
    assert ActivePath(t) == [] && Active(t) == t;
    var chosen := Handle(t, Select(Next), dispatch).0;
    assert chosen == t.(sel := OnRow(0)) && ActivePath(chosen) == [];
    EnterFires(chosen, dispatch);
  }
}
