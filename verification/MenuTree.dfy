/**
 Nested menus as values: the tree a menu holds, the path of open submenus, and what each
 menu action does to the tree.

 A menu in the tree is named by the path of row indices that leads to it from the root.
 `Handle` is `SubMenu::handle_action` on the root; it is the specification of the methods
 of `Menus.SubMenu`.
 */
module MenuTree {
  import opened Wrappers
  import opened MenuRing
  import S = SafeTriangles

  datatype Fields = Fields(disabled: bool, noInteractionOnHover: bool, onSelectAction: Option<nat>)

  datatype Item =
    | Plain(fields: Fields)
    | Separator
    | ItemsRow(items: seq<Fields>)
    | Branch(fields: Fields, menu: Tree)
    | Header(fields: Fields, clickable: bool)

  datatype Source = KeyboardOrProgrammatic | Pointer

  datatype Selection = Selection(row: Option<nat>, item: Option<nat>, hovered: Option<nat>, source: Option<Source>)

  datatype Tree = Tree(depth: nat, items: seq<Item>, sel: Selection)

  datatype MenuAction =
    | Select(selection: SelectAction)
    | OpenSubmenu
    | UnhoverSubmenuParent(depth: nat)
    | HoverSubmenuWithChildren(depth: nat, selection: SelectAction)
    | HoverSubmenuLeafNode(depth: nat, row: nat, position: S.Point)
    | CloseSubmenu(depth: nat)
    | Close(viaSelectItem: bool)
    | Enter

  // What the handler sends to its context, in order.
  datatype Event = ItemSelected | ItemHovered | Closed(viaSelectItem: bool) | Dispatched(action: nat)

  const Unselected := Selection(None, None, None, None)

  type Path = seq<nat>

  // ----- rows -----

  predicate Interactive(fields: Fields) {
    !fields.disabled && !fields.noInteractionOnHover
  }

  // A submenu's row counts its children as well as its label.
  function RowOf(item: Item): Row {
    match item
    case Plain(fields) => Row(Interactive(fields), Some(1))
    case Separator => Row(false, None)
    case ItemsRow(items) => Row(exists fields :: fields in items && Interactive(fields), Some(|items|))
    case Branch(_, menu) => Row(menu.items != [], Some(|menu.items| + 1))
    case Header(_, clickable) => Row(clickable, Some(if clickable then 1 else 0))
  }

  function RowsOf(items: seq<Item>): (rows: seq<Row>)
    ensures |rows| == |items|
    ensures forall i :: 0 <= i < |items| ==> rows[i] == RowOf(items[i])
  {
    seq(|items|, i requires 0 <= i < |items| => RowOf(items[i]))
  }

  function FirstSelectable(rows: seq<Row>): (found: Option<nat>)
    ensures found.Some? ==> found.value < |rows| && rows[found.value].selectable
    ensures found.Some? ==> forall i :: 0 <= i < found.value ==> !rows[i].selectable
    ensures found.None? ==> forall i :: 0 <= i < |rows| ==> !rows[i].selectable
  {
    if rows == [] then None
    else if rows[0].selectable then Some(0)
    else
      var rest := FirstSelectable(rows[1..]);
      assert forall i :: 1 <= i < |rows| ==> rows[i] == rows[1..][i - 1];
      if rest.Some? then Some(rest.value + 1) else None
  }

  // ----- paths -----

  predicate ValidPath(t: Tree, p: Path)
    decreases |p|
  {
    p == [] || (p[0] < |t.items| && t.items[p[0]].Branch? && ValidPath(t.items[p[0]].menu, p[1..]))
  }

  function At(t: Tree, p: Path): Tree
    requires ValidPath(t, p)
    decreases |p|
  {
    if p == [] then t else At(t.items[p[0]].menu, p[1..])
  }

  // The tree with the selection of the menu at p replaced.
  function WithSel(t: Tree, p: Path, sel: Selection): Tree
    requires ValidPath(t, p)
    decreases |p|
  {
    if p == [] then t.(sel := sel)
    else
      var item := t.items[p[0]];
      t.(items := t.items[p[0] := item.(menu := WithSel(item.menu, p[1..], sel))])
  }

  // From the root, keep entering the selected row's submenu while that submenu has a selection.
  function ActivePath(t: Tree): (p: Path)
    ensures ValidPath(t, p)
  {
    match t.sel.row
    case Some(r) =>
      if r < |t.items| && t.items[r].Branch? && t.items[r].menu.sel.row.Some?
      then [r] + ActivePath(t.items[r].menu)
      else []
    case None => []
  }

  function Active(t: Tree): Tree {
    At(t, ActivePath(t))
  }

  // ----- actions -----

  function Chosen(menu: Tree, selection: SelectAction, source: Source): Selection
    requires NoPanic(RowsOf(menu.items), selection, menu.sel.row, menu.sel.item)
  {
    var (row, item) := Choose(RowsOf(menu.items), selection, menu.sel.row, menu.sel.item);
    Selection(Some(row), Some(item), Some(row), Some(source))
  }

  function Cleared(sel: Selection): Selection {
    sel.(row := None, item := None, source := None)
  }

  // Row chosen at its first field.
  function OnRow(row: nat): Selection {
    Selection(Some(row), Some(0), Some(row), Some(KeyboardOrProgrammatic))
  }

  // The path of the submenu that OpenSubmenu would give a selection, if there is one.
  function OpenTarget(t: Tree): (p: Option<Path>)
    ensures p.Some? ==> ValidPath(t, p.value)
  {
    var a := ActivePath(t);
    match At(t, a).sel.row
    case Some(r) =>
      if r < |At(t, a).items| && At(t, a).items[r].Branch?
      then ExtendPath(t, a, r); Some(a + [r])
      else None
    case None => None
  }

  // With no submenu under the active menu's selected row there is nothing to open.
  lemma LeafOpensNothing(t: Tree)
    requires var menu := Active(t);
             menu.sel.row.None? || menu.sel.row.value >= |menu.items| || !menu.items[menu.sel.row.value].Branch?
    ensures Opened(t) == (t, [])
  {
  }

  function Opened(t: Tree): (Tree, seq<Event>) {
    match OpenTarget(t)
    case None => (t, [])
    case Some(p) =>
      match FirstSelectable(RowsOf(At(t, p).items))
      case None => (t, [])
      case Some(row) =>
        (WithSel(t, p, Chosen(At(t, p), Index(row, 0), KeyboardOrProgrammatic)), [ItemSelected])
  }

  // The action that Enter takes from the selected leaf row, if any.
  function EnterAction(menu: Tree): Option<nat> {
    match menu.sel.row
    case None => None
    case Some(r) => if r < |menu.items| then FieldAction(menu.items[r], OrElse(menu.sel.item, 0)) else None
  }

  function FieldAction(item: Item, field: nat): Option<nat> {
    match item
    case Plain(fields) => fields.onSelectAction
    case Separator => None
    case ItemsRow(items) => if field < |items| then items[field].onSelectAction else None
    case Branch(_, _) => None
    case Header(fields, clickable) => if clickable then fields.onSelectAction else None
  }

  // The source handles the action without panicking.
  predicate Enabled(t: Tree, action: MenuAction) {
    match action
    case Select(selection) => CanSelect(Active(t), selection)
    case HoverSubmenuWithChildren(depth, selection) => depth == t.depth ==> CanSelect(t, selection)
    case _ => true
  }

  predicate CanSelect(menu: Tree, selection: SelectAction) {
    NoPanic(RowsOf(menu.items), selection, menu.sel.row, menu.sel.item)
  }

  // The action names rows that exist: an index in range, or a neighbour in a menu that has rows.
  predicate NamesRows(t: Tree, action: MenuAction) {
    match action
    case Select(selection) => HasRow(Active(t), selection)
    case HoverSubmenuWithChildren(depth, selection) => depth == t.depth ==> HasRow(t, selection)
    case _ => true
  }

  predicate HasRow(menu: Tree, selection: SelectAction) {
    if selection.Index? then selection.row < |menu.items| else menu.items != []
  }

  function Handle(t: Tree, action: MenuAction, dispatchItemActions: bool): (Tree, seq<Event>)
    requires Enabled(t, action)
  {
    match action
    case HoverSubmenuWithChildren(depth, selection) =>
      if depth != t.depth then (t, [])
      else (t.(sel := Chosen(t, selection, Pointer)), [ItemSelected])
    case UnhoverSubmenuParent(depth) =>
      if depth != t.depth then (t, []) else (t.(sel := Cleared(t.sel)), [])
    case HoverSubmenuLeafNode(depth, row, _) =>
      if depth != t.depth then (t, []) else (t.(sel := t.sel.(hovered := Some(row))), [ItemHovered])
    case Select(selection) =>
      (WithSel(t, ActivePath(t), Chosen(Active(t), selection, KeyboardOrProgrammatic)), [ItemSelected])
    case OpenSubmenu => Opened(t)
    case CloseSubmenu(depth) =>
      if depth != t.depth then (t, []) else (t.(sel := Cleared(t.sel)), [])
    case Close(viaSelectItem) => (t, [Closed(viaSelectItem)])
    case Enter =>
      var (tree, events) := Opened(t);
      match EnterAction(Active(t))
      case None => (tree, events)
      case Some(a) =>
        (tree, events + [if dispatchItemActions then Dispatched(a) else ItemSelected] + [Closed(true)])
  }

  // ----- paths: basic facts -----

  lemma {:induction false} ExtendPath(t: Tree, p: Path, r: nat)
    requires ValidPath(t, p) && r < |At(t, p).items| && At(t, p).items[r].Branch?
    ensures ValidPath(t, p + [r]) && At(t, p + [r]) == At(t, p).items[r].menu
    decreases |p|
  {
    if p == [] {
      assert [r][1..] == [];
    } else {
      ExtendPath(t.items[p[0]].menu, p[1..], r);
      assert (p + [r])[1..] == p[1..] + [r];
    }
  }

  lemma {:induction false} PrefixValid(t: Tree, p: Path, q: Path)
    requires ValidPath(t, p + q)
    ensures ValidPath(t, p)
    ensures ValidPath(At(t, p), q) && At(At(t, p), q) == At(t, p + q)
    decreases |p|
  {
    if p == [] {
      assert p + q == q;
    } else {
      assert (p + q)[1..] == p[1..] + q;
      PrefixValid(t.items[p[0]].menu, p[1..], q);
    }
  }

  /** Replacing the selection at one path changes that menu's selection and nothing else: no
      other menu's selection, no depth, and no path. */
  lemma {:induction false} OnlyOneMenuChanges(t: Tree, p: Path, sel: Selection, q: Path)
    requires ValidPath(t, p)
    ensures ValidPath(WithSel(t, p, sel), q) <==> ValidPath(t, q)
    ensures ValidPath(t, q) ==>
              var was, now := At(t, q), At(WithSel(t, p, sel), q);
              && now.sel == (if q == p then sel else was.sel)
              && now.depth == was.depth
              && RowsOf(now.items) == RowsOf(was.items)
    decreases |p|
  {
    var t' := WithSel(t, p, sel);
    assert RowsOf(t'.items) == RowsOf(t.items);
    if p != [] && q != [] && q[0] == p[0] {
      OnlyOneMenuChanges(t.items[p[0]].menu, p[1..], sel, q[1..]);
      assert q == p <==> q[1..] == p[1..];
    }
  }

  // Every menu on the active path below the root has a selection, and it is the step taken.
  lemma {:induction false} ActivePrefixesSelected(t: Tree, p: Path, q: Path)
    requires ActivePath(t) == p + q
    ensures ValidPath(t, p)
    ensures p != [] ==> At(t, p).sel.row.Some?
    ensures ActivePath(At(t, p)) == q
    decreases |p|
  {
    if p == [] {
      assert p + q == q;
    } else {
      assert (p + q)[1..] == p[1..] + q;
      ActivePrefixesSelected(t.items[p[0]].menu, p[1..], q);
    }
  }

  // ----- selections in range -----

  // Every menu's selected row exists, and it has a field index exactly when it has a row.
  ghost predicate WellSelected(t: Tree) {
    forall p :: ValidPath(t, p) ==>
                  && InRange(RowsOf(At(t, p).items), At(t, p).sel.row)
                  && (At(t, p).sel.row.Some? <==> At(t, p).sel.item.Some?)
  }

  // A menu below the root that has no selection has no selected menu below it.
  ghost predicate Settled(t: Tree) {
    forall p, q :: ValidPath(t, p + q) && p != [] && Unselects(t, p) ==> Unselects(t, p + q)
  }

  ghost predicate Unselects(t: Tree, p: Path) {
    ValidPath(t, p) ==> At(t, p).sel.row.None?
  }

  ghost predicate NoSelections(t: Tree) {
    forall p :: ValidPath(t, p) ==> At(t, p).sel.row.None? && At(t, p).sel.item.None?
  }

  lemma FreshTreesQualify(t: Tree)
    requires NoSelections(t)
    ensures WellSelected(t) && Settled(t)
  {
    forall p, q | ValidPath(t, p + q) && p != [] ensures Unselects(t, p + q) {
      PrefixValid(t, p, q);
    }
  }

  // Setting a selection keeps `Settled` when all proper ancestors below the root have one.
  lemma SettledAfter(t: Tree, p: Path, sel: Selection)
    requires ValidPath(t, p) && Settled(t)
    requires p == [] || sel.row.Some?
    requires forall q, r :: p == q + r && q != [] && r != [] ==> !Unselects(t, q)
    ensures Settled(WithSel(t, p, sel))
  {
    var t' := WithSel(t, p, sel);
    forall q, r | ValidPath(t', q + r) && q != [] && Unselects(t', q) ensures Unselects(t', q + r) {
      OnlyOneMenuChanges(t, p, sel, q);
      OnlyOneMenuChanges(t, p, sel, q + r);
      PrefixValid(t, q, r);
      assert r == [] ==> q + r == q;
    }
  }

  lemma WellSelectedAfter(t: Tree, p: Path, sel: Selection)
    requires ValidPath(t, p) && WellSelected(t)
    requires InRange(RowsOf(At(t, p).items), sel.row) && (sel.row.Some? <==> sel.item.Some?)
    ensures WellSelected(WithSel(t, p, sel))
  {
    var t' := WithSel(t, p, sel);
    forall q | ValidPath(t', q)
      ensures InRange(RowsOf(At(t', q).items), At(t', q).sel.row)
      ensures At(t', q).sel.row.Some? <==> At(t', q).sel.item.Some?
    {
      OnlyOneMenuChanges(t, p, sel, q);
    }
  }

  // In a menu whose own selection is in range, nothing panics, and the choice is in range exactly
  // when the selection names a row.
  lemma ChosenInRangeIff(menu: Tree, selection: SelectAction, source: Source)
    requires InRange(RowsOf(menu.items), menu.sel.row)
    ensures CanSelect(menu, selection)
    ensures InRange(RowsOf(menu.items), Chosen(menu, selection, source).row) <==> HasRow(menu, selection)
  {
  }

  // Where an action writes, and what: either nowhere, or one selection at one path.
  lemma HandleWritesOneMenu(t: Tree, action: MenuAction, dispatch: bool) returns (p: Option<Path>, sel: Selection)
    requires Enabled(t, action) && NamesRows(t, action) && WellSelected(t)
    ensures p.None? ==> Handle(t, action, dispatch).0 == t
    ensures p.Some? ==> ValidPath(t, p.value) && Handle(t, action, dispatch).0 == WithSel(t, p.value, sel)
    ensures p.Some? ==> InRange(RowsOf(At(t, p.value).items), sel.row) && (sel.row.Some? <==> sel.item.Some?)
    ensures p.Some? && p.value != [] ==> sel.row.Some?
    ensures p.Some? ==> p.value in {[], ActivePath(t)} || Some(p.value) == OpenTarget(t)
  {
    var a := ActivePath(t);
    p, sel := None, Unselected;
    match action {
      case HoverSubmenuWithChildren(depth, selection) =>
        if depth == t.depth { p, sel := Some([]), Chosen(t, selection, Pointer); }
      case HoverSubmenuLeafNode(depth, row, _) =>
        if depth == t.depth {
          assert ValidPath(t, []) && At(t, []) == t;
          p, sel := Some([]), t.sel.(hovered := Some(row));
        }
      case UnhoverSubmenuParent(depth) =>
        if depth == t.depth { p, sel := Some([]), Cleared(t.sel); }
      case CloseSubmenu(depth) =>
        if depth == t.depth { p, sel := Some([]), Cleared(t.sel); }
      case Select(selection) =>
        p, sel := Some(a), Chosen(Active(t), selection, KeyboardOrProgrammatic);
      case OpenSubmenu => p, sel := OpenedWrites(t);
      case Close(_) =>
      case Enter => p, sel := OpenedWrites(t);
    }
  }

  lemma OpenedWrites(t: Tree) returns (p: Option<Path>, sel: Selection)
    ensures p.None? ==> Opened(t).0 == t
    ensures p.Some? ==> p == OpenTarget(t) && Opened(t).0 == WithSel(t, p.value, sel)
    ensures p.Some? ==> sel.row.Some? && sel.item == Some(0) && InRange(RowsOf(At(t, p.value).items), sel.row)
    ensures p.Some? ==> sel.row == FirstSelectable(RowsOf(At(t, p.value).items)) && sel == OnRow(sel.row.value)
    ensures Opened(t).1 == if p.Some? then [ItemSelected] else []
    ensures p.Some? <==> OpenTarget(t).Some? && FirstSelectable(RowsOf(At(t, OpenTarget(t).value).items)).Some?
  {
    p, sel := OpenTarget(t), Unselected;
    if p.Some? {
      var first := FirstSelectable(RowsOf(At(t, p.value).items));
      if first.Some? {
        sel := Chosen(At(t, p.value), Index(first.value, 0), KeyboardOrProgrammatic);
      } else {
        p := None;
      }
    }
  }

  lemma ActiveAncestorsSelected(t: Tree, p: Path)
    requires p == ActivePath(t) || Some(p) == OpenTarget(t)
    ensures forall q, r :: p == q + r && q != [] && r != [] ==> !Unselects(t, q)
  {
    var a := ActivePath(t);
    forall q, r | p == q + r && q != [] && r != [] ensures !Unselects(t, q) {
      if p != a { assert p[..|a|] == a; }
      assert q == a[..|q|] && a == q + a[|q|..];
      ActivePrefixesSelected(t, q, a[|q|..]);
    }
  }

  /** While every selected row exists, no action makes the source panic; and Select keeps it so
      exactly when it names a row that exists. */
  lemma SelectKeepsRowsExistingIff(t: Tree, action: MenuAction, dispatch: bool)
    requires WellSelected(t)
    ensures Enabled(t, action)
    ensures action.Select? ==> (WellSelected(Handle(t, action, dispatch).0) <==> NamesRows(t, action))
  {
    var a := ActivePath(t);
    assert ValidPath(t, a) && ValidPath(t, []);
    match action {
      case Select(selection) =>
        ChosenInRangeIff(Active(t), selection, KeyboardOrProgrammatic);
        var sel := Chosen(Active(t), selection, KeyboardOrProgrammatic);
        OnlyOneMenuChanges(t, a, sel, a);
        if NamesRows(t, action) { WellSelectedAfter(t, a, sel); }
      case HoverSubmenuWithChildren(depth, selection) => ChosenInRangeIff(t, selection, Pointer);
      case _ =>
    }
  }

  /** No action that names existing rows breaks either invariant of the tree. */
  lemma HandlePreserves(t: Tree, action: MenuAction, dispatch: bool)
    requires Enabled(t, action) && NamesRows(t, action) && WellSelected(t) && Settled(t)
    ensures WellSelected(Handle(t, action, dispatch).0)
    ensures Settled(Handle(t, action, dispatch).0)
  {
    var p, sel := HandleWritesOneMenu(t, action, dispatch);
    if p.Some? {
      if p.value != [] { ActiveAncestorsSelected(t, p.value); }
      SettledAfter(t, p.value, sel);
      WellSelectedAfter(t, p.value, sel);
    }
  }

  // ----- runs -----

  predicate Moves(t: Tree, action: MenuAction, dispatch: bool, t': Tree) {
    Enabled(t, action) && NamesRows(t, action) && t' == Handle(t, action, dispatch).0
  }

  ghost predicate IsRun(trees: seq<Tree>, actions: seq<MenuAction>, dispatch: bool) {
    && |trees| == |actions| + 1
    && forall i :: 0 <= i < |actions| ==> Moves(trees[i], actions[i], dispatch, trees[i + 1])
  }

  /** In a tree built with no selections, under any run of actions with in-range rows, a menu
      below the root without a selection never has a selected descendant, every selected row
      exists, and so no further action at all can panic. */
  lemma {:induction false} RunsStaySettled(trees: seq<Tree>, actions: seq<MenuAction>, dispatch: bool, i: nat,
          next: MenuAction)
    requires IsRun(trees, actions, dispatch) && NoSelections(trees[0]) && i < |trees|
    ensures WellSelected(trees[i]) && Settled(trees[i]) && Enabled(trees[i], next)
    decreases i
  {
    if i == 0 {
      FreshTreesQualify(trees[0]);
    } else {
      RunsStaySettled(trees, actions, dispatch, i - 1, next);
      assert Moves(trees[i - 1], actions[i - 1], dispatch, trees[i]);
      HandlePreserves(trees[i - 1], actions[i - 1], dispatch);
    }
    SelectKeepsRowsExistingIff(trees[i], next, dispatch);
  }

  // ----- what one action may change -----

  /** Select changes the selection of the menu at the end of the active path, to the ring's
      choice for that menu, and no other menu in the tree. */
  lemma SelectChangesOnlyTheActiveMenu(t: Tree, selection: SelectAction, dispatch: bool, q: Path)
    requires Enabled(t, Select(selection)) && ValidPath(t, q)
    ensures var t' := Handle(t, Select(selection), dispatch).0;
            && ValidPath(t', q)
            && (q != ActivePath(t) ==> At(t', q).sel == At(t, q).sel)
            && (q == ActivePath(t) ==>
                  var (row, item) := Choose(RowsOf(At(t, q).items), selection, At(t, q).sel.row, At(t, q).sel.item);
                  At(t', q).sel == Selection(Some(row), Some(item), Some(row), Some(KeyboardOrProgrammatic)))
            && Handle(t, Select(selection), dispatch).1 == [ItemSelected]
  {
    var a := ActivePath(t);
    OnlyOneMenuChanges(t, a, Chosen(At(t, a), selection, KeyboardOrProgrammatic), q);
  }

  // Moving the active menu's selection continues the active path into whatever was left open
  // under the row it lands on.
  lemma {:induction false} ActivePathAfterMove(t: Tree, sel: Selection)
    requires sel.row.Some?
    ensures var t' := WithSel(t, ActivePath(t), sel);
            && t'.sel.row.Some? && ActivePath(t) <= ActivePath(t')
            && |ActivePath(t')| == |ActivePath(t)| + |ActivePath(Active(t).(sel := sel))|
    decreases t
  {
    if ActivePath(t) != [] {
      ActiveUnfolds(t, sel);
      var child := t.items[t.sel.row.value].menu;
      ActivePathAfterMove(child, sel);
      ActivePathStep(t, t.sel.row.value, WithSel(child, ActivePath(child), sel));
    }
  }

  // The first step of a non-empty active path.
  lemma ActiveUnfolds(t: Tree, sel: Selection)
    requires ActivePath(t) != []
    ensures t.sel.row.Some? && t.sel.row.value < |t.items| && t.items[t.sel.row.value].Branch?
    ensures var r, child := t.sel.row.value, t.items[t.sel.row.value].menu;
            && ActivePath(t) == [r] + ActivePath(child) && Active(t) == Active(child)
            && WithSel(t, ActivePath(t), sel) ==
               t.(items := t.items[r := t.items[r].(menu := WithSel(child, ActivePath(child), sel))])
  {
    var r, child := t.sel.row.value, t.items[t.sel.row.value].menu;
    assert ([r] + ActivePath(child))[1..] == ActivePath(child);
  }

  lemma ActivePathStep(t: Tree, r: nat, child: Tree)
    requires t.sel.row == Some(r) && r < |t.items| && t.items[r].Branch? && child.sel.row.Some?
    ensures ActivePath(t.(items := t.items[r := t.items[r].(menu := child)])) == [r] + ActivePath(child)
  {
  }

  // The row is a submenu that already has a selection of its own.
  predicate LeftOpen(menu: Tree, row: nat) {
    row < |menu.items| && menu.items[row].Branch? && menu.items[row].menu.sel.row.Some?
  }

  /** Closing the submenus (the pointer leaving their parent row, say) clears only the root's
      selection: choosing the same row again re-enters every submenu below it where it was left. */
  lemma {:induction false} ReselectingReopens(t: Tree, item: nat, dispatch: bool)
    requires ActivePath(t) != []
    ensures var closed := Handle(t, CloseSubmenu(t.depth), dispatch).0;
            var again := Index(ActivePath(t)[0], item);
            && ActivePath(closed) == []
            && Enabled(closed, Select(again))
            && ActivePath(Handle(closed, Select(again), dispatch).0) == ActivePath(t)
            && LeftOpen(closed, ActivePath(t)[0])
  {
    var r := ActivePath(t)[0];
    var closed := t.(sel := Cleared(t.sel));
    assert Handle(t, CloseSubmenu(t.depth), dispatch).0 == closed;
    assert ActivePath(closed) == [] && Active(closed) == closed;
    var sel := Chosen(closed, Index(r, item), KeyboardOrProgrammatic);
    assert Handle(closed, Select(Index(r, item)), dispatch).0 == closed.(sel := sel);
    assert ActivePath(closed.(sel := sel)) == [r] + ActivePath(t.items[r].menu);
  }

  // Moving the active menu's selection: what changes there, and whether the active path grows.
  lemma MoveActive(t: Tree, sel: Selection)
    requires WellSelected(t) && sel.row.Some? && sel.item.Some? && InRange(RowsOf(Active(t).items), sel.row)
    ensures var a, t' := ActivePath(t), WithSel(t, ActivePath(t), sel);
            && WellSelected(t')
            && ValidPath(t', a) && At(t', a).sel == sel && RowsOf(At(t', a).items) == RowsOf(Active(t).items)
            && (ActivePath(t') == a <==> !LeftOpen(Active(t), sel.row.value))
            && Active(t').sel.row.Some? && Active(t').items != []
  {
    var a := ActivePath(t);
    var t' := WithSel(t, a, sel);
    ActivePathAfterMove(t, sel);
    OnlyOneMenuChanges(t, a, sel, a);
    WellSelectedAfter(t, a, sel);
    var a' := ActivePath(t');
    assert a' + [] == a';
    ActivePrefixesSelected(t', a', []);
    assert InRange(RowsOf(At(t', a').items), At(t', a').sel.row);
    assert ActivePath(Active(t).(sel := sel)) == [] <==> !LeftOpen(Active(t), sel.row.value);
  }

  /** In the tree, Next followed by Previous brings a selectable field back exactly when the row
      that Next lands on is not a submenu left open: otherwise Previous moves inside that submenu. */
  lemma {:induction false} NextThenPreviousIff(t: Tree, dispatch: bool)
    requires WellSelected(t) && Active(t).sel.row.Some?
    requires IsCell(RowsOf(Active(t).items), (Active(t).sel.row.value, Active(t).sel.item.value))
    ensures var a, menu := ActivePath(t), Active(t);
            var t' := Handle(t, Select(Next), dispatch).0;
            var landed := NextCell(RowsOf(menu.items), (menu.sel.row.value, menu.sel.item.value)).0;
            && Enabled(t', Select(Previous))
            && ValidPath(Handle(t', Select(Previous), dispatch).0, a)
            && var back := At(Handle(t', Select(Previous), dispatch).0, a).sel;
               ((back.row, back.item) == (menu.sel.row, menu.sel.item) <==> !LeftOpen(menu, landed))
  {
    var a, menu := ActivePath(t), Active(t);
    var cell := (menu.sel.row.value, menu.sel.item.value);
    var sel := Chosen(menu, Next, KeyboardOrProgrammatic);
    NextAndPreviousAreInverse(RowsOf(menu.items), cell);
    MoveActive(t, sel);
    var t' := WithSel(t, a, sel);
    OnlyOneMenuChanges(t', ActivePath(t'), Chosen(Active(t'), Previous, KeyboardOrProgrammatic), a);
    assert !LeftOpen(menu, cell.0) by {
      assert a + [] == a;
      ActivePrefixesSelected(t, a, []);
    }
  }

  /** And Previous followed by Next, exactly when the row that Previous lands on is not one. */
  lemma {:induction false} PreviousThenNextIff(t: Tree, dispatch: bool)
    requires WellSelected(t) && Active(t).sel.row.Some?
    requires IsCell(RowsOf(Active(t).items), (Active(t).sel.row.value, Active(t).sel.item.value))
    ensures var a, menu := ActivePath(t), Active(t);
            var t' := Handle(t, Select(Previous), dispatch).0;
            var landed := PreviousCell(RowsOf(menu.items), (menu.sel.row.value, menu.sel.item.value)).0;
            && Enabled(t', Select(Next))
            && ValidPath(Handle(t', Select(Next), dispatch).0, a)
            && var back := At(Handle(t', Select(Next), dispatch).0, a).sel;
               ((back.row, back.item) == (menu.sel.row, menu.sel.item) <==> !LeftOpen(menu, landed))
  {
    var a, menu := ActivePath(t), Active(t);
    var cell := (menu.sel.row.value, menu.sel.item.value);
    var sel := Chosen(menu, Previous, KeyboardOrProgrammatic);
    NextAndPreviousAreInverse(RowsOf(menu.items), cell);
    MoveActive(t, sel);
    var t' := WithSel(t, a, sel);
    SelectKeepsRowsExistingIff(t', Select(Next), dispatch);
    OnlyOneMenuChanges(t', ActivePath(t'), Chosen(Active(t'), Next, KeyboardOrProgrammatic), a);
    assert !LeftOpen(menu, cell.0) by {
      assert a + [] == a;
      ActivePrefixesSelected(t, a, []);
    }
  }

  // A menu of two rows, the second a submenu of one row, with these two selections.
  function TwoRows(root: Selection, inner: Selection): Tree {
    var row := Plain(Fields(false, false, None));
    Tree(0, [row, Branch(row.fields, Tree(1, [row], inner))], root)
  }

  // With the root off its submenu, Select moves the root.
  lemma TwoRowsSelect(root: Selection, inner: Selection, action: SelectAction, dispatch: bool)
    requires root.row in {None, Some(0)} && (root.row.Some? ==> root.item == Some(0))
    requires action in {Next, Index(1, 0)} || (action == Previous && root.row.Some?)
    ensures var t := TwoRows(root, inner);
            && RowsOf(t.items) == [Row(true, Some(1)), Row(true, Some(2))] && ActivePath(t) == []
            && Moves(t, Select(action), dispatch,
                     TwoRows(if action == Next && root.row.None? then OnRow(0) else Stepped(action), inner))
  {
    var t := TwoRows(root, inner);
    assert ValidPath(t, []) && At(t, []) == t;
    assert RowsOf(t.items) == [Row(true, Some(1)), Row(true, Some(2))];
    assert FindForward(RowsOf(t.items), 1, 2) == Some(1);
    assert FindBackward(RowsOf(t.items), 2, 2) == Some(1);
  }

  // Where a step from row 0 lands: on the submenu's label, or for Previous on its last field.
  function Stepped(action: SelectAction): Selection {
    OnRow(1).(item := Some(if action == Previous then 1 else 0))
  }

  // With the root on it, the submenu opens at its row.
  lemma TwoRowsOpen(dispatch: bool)
    ensures Moves(TwoRows(OnRow(1), Unselected), OpenSubmenu, dispatch, TwoRows(OnRow(1), OnRow(0)))
  {
    var t := TwoRows(OnRow(1), Unselected);
    assert ActivePath(t) == [] && ValidPath(t, []) && At(t, []) == t;
    assert [1][1..] == [] && [] + [1] == [1] && ValidPath(t.items[1].menu, []);
    assert ValidPath(t, [1]) && At(t, [1]) == t.items[1].menu;
    assert RowsOf(At(t, [1]).items) == [Row(true, Some(1))];
  }

  // Stepping back then stays inside, and closing clears the root alone.
  lemma TwoRowsInside(forth: SelectAction, dispatch: bool)
    requires !forth.Index?
    ensures var t := TwoRows(Stepped(forth), OnRow(0));
            && Moves(t, Select(Back(forth)), dispatch, t)
            && Moves(t, CloseSubmenu(0), dispatch, TwoRows(Cleared(OnRow(1)), OnRow(0)))
  {
    var t := TwoRows(Stepped(forth), OnRow(0));
    assert [1][1..] == [] && ValidPath(t.items[1].menu, []);
    assert ActivePath(t.items[1].menu) == [] && ActivePath(t) == [1];
    assert ValidPath(t, [1]) && At(t, [1]) == t.items[1].menu;
    assert RowsOf(At(t, [1]).items) == [Row(true, Some(1))];
    assert FindBackward(RowsOf(At(t, [1]).items), 1, 1) == Some(0);
    assert FindForward(RowsOf(At(t, [1]).items), 1, 1) == Some(0);
  }

  function Back(forth: SelectAction): SelectAction {
    if forth == Next then Previous else Next
  }

  lemma TwoRowsFresh()
    ensures NoSelections(TwoRows(Unselected, Unselected))
  {
    var t := TwoRows(Unselected, Unselected);
    forall p | ValidPath(t, p) ensures At(t, p).sel == Unselected {
      assert p != [] ==> p[0] == 1 && ValidPath(t.items[1].menu, p[1..]) && p[1..] == [];
    }
  }

  // A fresh menu; its submenu in row 1 chosen; opened; closed again; row 0 chosen; and then a step
  // forth and back.
  function Reopenable(i: nat, forth: SelectAction): Tree {
    match i
    case 0 => TwoRows(Unselected, Unselected)
    case 1 => TwoRows(OnRow(1), Unselected)
    case 2 => TwoRows(OnRow(1), OnRow(0))
    case 3 => TwoRows(Cleared(OnRow(1)), OnRow(0))
    case 4 => TwoRows(OnRow(0), OnRow(0))
    case _ => TwoRows(Stepped(forth), OnRow(0))
  }

  function ReopenAndStep(forth: SelectAction): seq<MenuAction> {
    [Select(Index(1, 0)), OpenSubmenu, CloseSubmenu(0), Select(Next), Select(forth), Select(Back(forth))]
  }

  lemma ReopenableMoves(i: nat, action: MenuAction, forth: SelectAction, dispatch: bool)
    requires i < 6 && !forth.Index? && action == ReopenAndStep(forth)[i]
    ensures Moves(Reopenable(i, forth), action, dispatch, Reopenable(i + 1, forth))
  {
    if i == 0 { TwoRowsSelect(Unselected, Unselected, Index(1, 0), dispatch); }
    if i == 1 { TwoRowsOpen(dispatch); }
    if i == 2 { TwoRowsInside(Next, dispatch); }
    if i == 3 { TwoRowsSelect(Cleared(OnRow(1)), OnRow(0), Next, dispatch); }
    if i == 4 { TwoRowsSelect(OnRow(0), OnRow(0), forth, dispatch); }
    if i == 5 { TwoRowsInside(forth, dispatch); }
  }

  /** Runs from a fresh menu after which Next and then Previous, or Previous and then Next, fail to
      come back: the submenu in row 1 is opened and closed again, row 0 selected, and the two steps
      end on row 1. */
  lemma SteppingBackCanFail(forth: SelectAction, dispatch: bool) returns (trees: seq<Tree>)
    requires !forth.Index?
    ensures IsRun(trees, ReopenAndStep(forth), dispatch)
    ensures NoSelections(trees[0]) && ActivePath(trees[4]) == []
    ensures trees[4].sel == OnRow(0) && IsCell(RowsOf(trees[4].items), (0, 0)) && trees[6].sel == Stepped(forth)
  {
    trees := seq(7, i requires 0 <= i < 7 => Reopenable(i, forth));
    forall i | 0 <= i < 6 ensures Moves(trees[i], ReopenAndStep(forth)[i], dispatch, trees[i + 1]) {
      ReopenableMoves(i, ReopenAndStep(forth)[i], forth, dispatch);
    }
    TwoRowsFresh();
    TwoRowsSelect(OnRow(0), OnRow(0), Next, dispatch);
  }

  // Giving the submenu of the active menu's selected row a selection makes it the active menu.
  lemma {:induction false} ActivePathExtends(t: Tree, a: Path, r: nat, sel: Selection)
    requires ActivePath(t) == a && At(t, a).sel.row == Some(r)
    requires ValidPath(t, a + [r]) && sel.row.Some?
    requires forall j :: ValidPath(t, a + [r] + [j]) ==> At(t, a + [r] + [j]).sel.row.None?
    ensures ActivePath(WithSel(t, a + [r], sel)) == a + [r]
    decreases |a|
  {
    var t' := WithSel(t, a + [r], sel);
    if a == [] {
      var child := t.items[r].menu;
      assert a + [r] == [r] && [r][1..] == [];
      ExtendPath(t, [], r);
      assert [] + [r] == [r];
      assert t' == WithSel(t, [r], sel) && WithSel(child, [], sel) == child.(sel := sel);
      forall j | 0 <= j < |child.items| && child.items[j].Branch? ensures child.items[j].menu.sel.row.None? {
        ExtendPath(t, [r], j);
        assert a + [r] + [j] == [r] + [j];
        assert ValidPath(t, a + [r] + [j]);
      }
      assert ActivePath(child.(sel := sel)) == [];
    } else {
      var child := t.items[a[0]].menu;
      assert (a + [r])[1..] == a[1..] + [r];
      forall j | ValidPath(child, a[1..] + [r] + [j])
        ensures At(child, a[1..] + [r] + [j]).sel.row.None?
      {
        assert (a + [r] + [j])[1..] == a[1..] + [r] + [j];
        assert ValidPath(t, a + [r] + [j]);
      }
      ActivePathExtends(child, a[1..], r, sel);
      OnlyOneMenuChanges(child, a[1..] + [r], sel, []);
      assert [a[0]] + (a[1..] + [r]) == a + [r];
    }
  }

  /** OpenSubmenu, and Enter, either leave the whole tree as it was or lengthen the active path
      by exactly one step, into the selected row's submenu, at its first selectable row, and change
      no other menu's selection.  It lengthens exactly when the active menu's selected row is a
      submenu with a selectable row; only then is anything announced. */
  lemma OpeningLengthensByOne(t: Tree, action: MenuAction, dispatch: bool, q: Path)
    requires WellSelected(t) && Settled(t) && action in {OpenSubmenu, Enter} && ValidPath(t, q)
    ensures var t', a := Handle(t, action, dispatch).0, ActivePath(t);
            var opens := OpenTarget(t).Some? && FirstSelectable(RowsOf(At(t, OpenTarget(t).value).items)).Some?;
            && (!opens ==> t' == t)
            && (action == OpenSubmenu ==> Handle(t, action, dispatch).1 == if opens then [ItemSelected] else [])
            && (opens ==>
                  && At(t, a).sel.row.Some?
                  && ActivePath(t') == a + [At(t, a).sel.row.value]
                  && FirstSelectable(RowsOf(Active(t').items)).Some?
                  && Active(t').sel == OnRow(FirstSelectable(RowsOf(Active(t').items)).value)
                  && ValidPath(t', q) && (q != ActivePath(t') ==> At(t', q).sel == At(t, q).sel))
  {
    var a := ActivePath(t);
    var p, sel := OpenedWrites(t);
    if p.Some? {
      var r := At(t, a).sel.row.value;
      assert Unselects(t, a + [r]) by {
        assert a + [] == a;
        ActivePrefixesSelected(t, a, []);
        ExtendPath(t, a, r);
      }
      forall j | ValidPath(t, a + [r] + [j]) ensures At(t, a + [r] + [j]).sel.row.None? {
        assert Unselects(t, a + [r] + [j]);
      }
      ActivePathExtends(t, a, r, sel);
      OnlyOneMenuChanges(t, a + [r], sel, a + [r]);
      OnlyOneMenuChanges(t, a + [r], sel, q);
    }
  }

  /** The pointer entering a submenu's row at the root's depth selects it there, as chosen by the
      pointer, and the active path runs on into whatever was left open below.  Leaving it takes the
      root's selection back, keeping only the hovered row, so that no submenu is open.  A leaf hover
      moves only the hovered row, and closing the menu nothing.  None of them touches the selection
      of a nested menu, and the three hovers do nothing at another depth. */
  lemma PointerActsOnTheRoot(t: Tree, depth: nat, row: nat, item: nat, at: S.Point, via: bool, dispatch: bool, q: Path)
    requires ValidPath(t, q) && q != []
    ensures var entered := Handle(t, HoverSubmenuWithChildren(depth, Index(row, item)), dispatch);
            && (depth == t.depth ==>
                  && entered.0.sel == Selection(Some(row), Some(item), Some(row), Some(Pointer))
                  && entered.1 == [ItemSelected]
                  && ActivePath(entered.0) == if LeftOpen(t, row) then [row] + ActivePath(t.items[row].menu) else [])
            && (depth != t.depth ==> entered == (t, []))
            && ValidPath(entered.0, q) && At(entered.0, q) == At(t, q)
    ensures forall leave :: leave in {UnhoverSubmenuParent(depth), CloseSubmenu(depth)} ==>
              var left := Handle(t, leave, dispatch);
              && left.1 == []
              && (depth == t.depth ==>
                    && left.0.sel == Selection(None, None, t.sel.hovered, None)
                    && ActivePath(left.0) == [])
              && (depth != t.depth ==> left.0 == t)
              && ValidPath(left.0, q) && At(left.0, q) == At(t, q)
    ensures var over := Handle(t, HoverSubmenuLeafNode(depth, row, at), dispatch);
            && (depth == t.depth ==>
                  && over.0.sel == Selection(t.sel.row, t.sel.item, Some(row), t.sel.source)
                  && over.1 == [ItemHovered] && ActivePath(over.0) == ActivePath(t))
            && (depth != t.depth ==> over == (t, []))
            && ValidPath(over.0, q) && At(over.0, q) == At(t, q)
    ensures Handle(t, Close(via), dispatch) == (t, [Closed(via)])
  {
  }

  // ----- depths -----

  // SubMenu::increment_depth: one level deeper for every menu nested in the items.
  function Deepened(items: seq<Item>): (deeper: seq<Item>)
    ensures |deeper| == |items|
  {
    seq(|items|, i requires 0 <= i < |items| => DeepenedItem(items[i]))
  }

  function DeepenedItem(item: Item): Item {
    match item
    case Branch(fields, menu) => Branch(fields, menu.(depth := menu.depth + 1, items := Deepened(menu.items)))
    case _ => item
  }

  function NewMenu(items: seq<Item>): Tree {
    Tree(0, Deepened(items), Unselected)
  }

  // Replacing a menu's items, as Menu::set_items does, deepens nothing.
  function SetItems(t: Tree, items: seq<Item>): Tree {
    t.(items := items, sel := Cleared(t.sel))
  }

  /** Setting a menu's items takes them as they are, and forgets what was selected, but not what was
      hovered: no submenu is open, and if nothing is selected in the items, nothing is. */
  lemma SetItemsStartsOver(t: Tree, items: seq<Item>)
    ensures var t' := SetItems(t, items);
            && t' == Tree(t.depth, items, Selection(None, None, t.sel.hovered, None)) && ActivePath(t') == []
            && (NoSelections(Tree(0, items, Unselected)) ==> NoSelections(t'))
  {
    var plain := Tree(0, items, Unselected);
    if NoSelections(plain) {
      forall p | ValidPath(SetItems(t, items), p)
        ensures At(SetItems(t, items), p).sel.row.None? && At(SetItems(t, items), p).sel.item.None?
      {
        assert ValidPath(plain, p);
      }
    }
  }

  // A description of nested menus, and the tree that building it bottom-up gives.
  datatype Plan = Plan(items: seq<PlanItem>)

  datatype PlanItem = Leaf(item: Item) | Sub(fields: Fields, plan: Plan)

  function BuildItems(plan: Plan): (items: seq<Item>)
    ensures |items| == |plan.items|
  {
    seq(|plan.items|, i requires 0 <= i < |plan.items| =>
      match plan.items[i]
      case Leaf(item) => if item.Branch? then Separator else item
      case Sub(fields, inner) => Branch(fields, NewMenu(BuildItems(inner))))
  }

  lemma {:induction false} DeepenedAt(items: seq<Item>, base: Tree, p: Path)
    requires p != []
    ensures ValidPath(base.(items := Deepened(items)), p) <==> ValidPath(base.(items := items), p)
    ensures ValidPath(base.(items := items), p) ==>
              var was, now := At(base.(items := items), p), At(base.(items := Deepened(items)), p);
              now.depth == was.depth + 1 && now.sel == was.sel && SameLeaves(was.items, now.items)
    decreases |p|
  {
    var r := p[0];
    if r < |items| && items[r].Branch? && p[1..] == [] { DeepenedKeepsLeaves(items[r].menu.items); }
    if r < |items| && items[r].Branch? && p[1..] != [] {
      DeepenedAt(items[r].menu.items, items[r].menu.(depth := items[r].menu.depth + 1), p[1..]);
      DeepenedDepthFree(items[r].menu, p[1..]);
    }
  }

  // The same leaves, and submenus with the same labels, in the same rows.
  predicate SameLeaves(items: seq<Item>, items': seq<Item>) {
    && |items'| == |items|
    && forall i :: 0 <= i < |items| ==>
         if items[i].Branch? then items'[i].Branch? && items'[i].fields == items[i].fields else items'[i] == items[i]
  }

  lemma DeepenedKeepsLeaves(items: seq<Item>)
    ensures SameLeaves(items, Deepened(items))
  {
    forall i | 0 <= i < |items|
      ensures
        if items[i].Branch? then Deepened(items)[i].Branch? && Deepened(items)[i].fields == items[i].fields
        else Deepened(items)[i] == items[i]
    {
      assert Deepened(items)[i] == DeepenedItem(items[i]);
    }
  }

  /** Putting a list of rows into a new menu keeps every nested menu's rows and selection and makes it
      one level deeper; the new menu itself is at depth 0 with nothing selected. */
  lemma NewMenuDeepensNested(items: seq<Item>, root: Tree, p: Path)
    requires root.items == items
    ensures NewMenu(items).depth == 0 && NewMenu(items).sel == Unselected && SameLeaves(items, NewMenu(items).items)
    ensures p != [] ==> (ValidPath(NewMenu(items), p) <==> ValidPath(root, p))
    ensures p != [] && ValidPath(root, p) ==>
              var was, now := At(root, p), At(NewMenu(items), p);
              now.depth == was.depth + 1 && now.sel == was.sel && SameLeaves(was.items, now.items)
  {
    DeepenedKeepsLeaves(items);
    if p != [] { DeepenedAt(items, root, p); }
  }

  // Only the items decide what lies below a menu.
  lemma DeepenedDepthFree(menu: Tree, p: Path)
    requires p != []
    ensures ValidPath(menu.(depth := menu.depth + 1), p) <==> ValidPath(menu, p)
    ensures ValidPath(menu, p) ==> At(menu.(depth := menu.depth + 1), p) == At(menu, p)
  {
  }

  lemma {:induction false} BuiltDepths(plan: Plan, p: Path)
    requires ValidPath(NewMenu(BuildItems(plan)), p)
    ensures At(NewMenu(BuildItems(plan)), p).depth == |p|
    decreases |p|
  {
    if p != [] {
      var base := Tree(0, BuildItems(plan), Unselected);
      DeepenedAt(base.items, base, p);
      assert base.(items := base.items) == base;
      match plan.items[p[0]] {
        case Sub(_, inner) => BuiltDepths(inner, p[1..]);
        case Leaf(_) =>
      }
    }
  }

  /** Building a tree bottom-up with `SubMenu::new` gives every menu a depth equal to its nesting
      level; setting the same items on a menu instead leaves every nested depth one too small. */
  lemma {:induction false} DepthIsNestingLevel(plan: Plan, root: Tree, p: Path)
    requires root.depth == 0
    ensures ValidPath(NewMenu(BuildItems(plan)), p) ==> At(NewMenu(BuildItems(plan)), p).depth == |p|
    ensures ValidPath(SetItems(root, BuildItems(plan)), p) ==>
              At(SetItems(root, BuildItems(plan)), p).depth == if p == [] then 0 else |p| - 1
  {
    var built := BuildItems(plan);
    if ValidPath(NewMenu(built), p) { BuiltDepths(plan, p); }
    if p != [] && ValidPath(SetItems(root, built), p) {
      match plan.items[p[0]] {
        case Sub(_, inner) => BuiltDepths(inner, p[1..]);
        case Leaf(_) =>
      }
    }
  }

  /** A hover action carries the depth of the menu whose row sent it.  In a tree from
      `SubMenu::new` the root acts on exactly its own rows' hovers; after `set_items` it also
      acts on those of the first nested level, which reuse the root's depth. */
  lemma {:induction false} HoversTheRootActsOn(plan: Plan, root: Tree, p: Path, row: nat, at: S.Point, dispatch: bool)
    requires root.depth == 0
    ensures var t := NewMenu(BuildItems(plan));
            ValidPath(t, p) ==>
              (Handle(t, HoverSubmenuLeafNode(At(t, p).depth, row, at), dispatch).1 == [ItemHovered] <==> p == [])
    ensures var t := SetItems(root, BuildItems(plan));
            ValidPath(t, p) ==>
              (Handle(t, HoverSubmenuLeafNode(At(t, p).depth, row, at), dispatch).1 == [ItemHovered] <==> |p| <= 1)
  {
    DepthIsNestingLevel(plan, root, p);
  }

  /** Hovering row 1 of the only submenu, after the items were set, marks row 1 of the root as
      hovered, although the root has one row. */
  lemma HoverReachesTheRoot(at: S.Point, dispatch: bool)
    ensures var fields := Fields(false, false, None);
            var plan := Plan([Sub(fields, Plan([Leaf(Plain(fields)), Leaf(Plain(fields))]))]);
            var t := SetItems(NewMenu([]), BuildItems(plan));
            && ValidPath(t, [0]) && |At(t, [0]).items| == 2 && |t.items| == 1
            && Handle(t, HoverSubmenuLeafNode(At(t, [0]).depth, 1, at), dispatch).0.sel.hovered == Some(1)
  {
    var fields := Fields(false, false, None);
    var plan := Plan([Sub(fields, Plan([Leaf(Plain(fields)), Leaf(Plain(fields))]))]);
    var t := SetItems(NewMenu([]), BuildItems(plan));
    assert ValidPath(t.items[0].menu, []) && [0][1..] == [];
    DepthIsNestingLevel(plan, NewMenu([]), [0]);
  }
}
