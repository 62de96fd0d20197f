/**
 The menu objects themselves: nested menus owned by their parent's rows and updated in place.

 `Valid` is the ownership that the source gets from holding submenus by value: the menus
 nested under different rows share nothing.  `View` is the tree of values a menu stands for,
 and every method is proved against the function of `MenuTree` that says what it does to it.
 */
module Menus {
  import opened Wrappers
  import R = MenuRing
  import T = MenuTree
  import S = SafeTriangles
  import H = MenuHover

  datatype MenuItem =
    | Item(fields: T.Fields)
    | Separator
    | ItemsRow(items: seq<T.Fields>)
    | Submenu(fields: T.Fields, menu: SubMenu)
    | Header(fields: T.Fields, clickable: bool)

  // Where events go.
  class Context {
    var log: seq<T.Event>

    constructor ()
      ensures log == []
    {
      log := [];
    }

    method Emit(event: T.Event)
      modifies this
      ensures log == old(log) + [event]
    {
      log := log + [event];
    }
  }

  // The submenus under these rows own disjoint parts of `owned`.
  ghost predicate Forest(items: seq<MenuItem>, owned: set<SubMenu>)
    reads owned
    decreases owned, 1
  {
    && (forall i :: 0 <= i < |items| && items[i].Submenu? ==>
                      items[i].menu in owned && items[i].menu.Repr <= owned && items[i].menu.Valid())
    && (forall i, j :: 0 <= i < j < |items| && items[i].Submenu? && items[j].Submenu? ==>
                         items[i].menu.Repr !! items[j].menu.Repr)
  }

  ghost function ViewItems(items: seq<MenuItem>, owned: set<SubMenu>): (view: seq<T.Item>)
    requires Forest(items, owned)
    reads owned
    ensures |view| == |items|
    ensures forall i :: 0 <= i < |items| ==> view[i] == ViewItem(items[i], owned)
    decreases owned, 2
  {
    seq(|items|, i requires 0 <= i < |items| && Forest(items, owned) reads owned => ViewItem(items[i], owned))
  }

  ghost function ViewItem(item: MenuItem, owned: set<SubMenu>): (view: T.Item)
    requires item.Submenu? ==> item.menu in owned && item.menu.Repr <= owned && item.menu.Valid()
    reads owned
    ensures item.Submenu? ==> view == T.Branch(item.fields, item.menu.View())
    decreases owned, 1
  {
    match item
    case Item(fields) => T.Plain(fields)
    case Separator => T.Separator
    case ItemsRow(items) => T.ItemsRow(items)
    case Submenu(fields, menu) => T.Branch(fields, menu.View())
    case Header(fields, clickable) => T.Header(fields, clickable)
  }

  class SubMenu {
    var depth: nat
    var items: seq<MenuItem>
    var selectedRow: Option<nat>
    var selectedItem: Option<nat>
    var hoveredRow: Option<nat>
    var lastSource: Option<T.Source>
    ghost var Repr: set<SubMenu>

    ghost predicate Valid()
      reads this, Repr
      ensures Valid() ==> this in Repr
      decreases Repr, 0
    {
      this in Repr && Forest(items, Repr - {this})
    }

    ghost function View(): (view: T.Tree)
      requires Valid()
      reads this, Repr
      ensures view.depth == depth && view.sel == Sel()
      ensures view.items == ViewItems(items, Repr - {this})
      decreases Repr, 0
    {
      T.Tree(depth, ViewItems(items, Repr - {this}), Sel())
    }

    ghost function Sel(): T.Selection
      reads this
    {
      T.Selection(selectedRow, selectedItem, hoveredRow, lastSource)
    }

    constructor (items: seq<MenuItem>, ghost owned: set<SubMenu>)
      requires Forest(items, owned)
      modifies owned`depth
      ensures Valid() && Repr == owned + {this}
      ensures View() == T.NewMenu(old(ViewItems(items, owned)))
    {
      this.depth, this.items := 0, items;
      selectedRow, selectedItem, hoveredRow, lastSource := None, None, None, None;
      Repr := owned + {this};
      new;
      assert Repr - {this} == owned;
      IncrementDepth(items, owned);
      assert Repr - {this} == owned;
    }

    static method IncrementDepth(items: seq<MenuItem>, ghost owned: set<SubMenu>)
      requires Forest(items, owned)
      modifies owned`depth
      ensures Forest(items, owned)
      ensures ViewItems(items, owned) == T.Deepened(old(ViewItems(items, owned)))
      decreases owned, 1
    {
      for i := 0 to |items|
        invariant Forest(items, owned)
        invariant forall j :: 0 <= j < i ==> ViewItem(items[j], owned) == T.DeepenedItem(old(ViewItem(items[j], owned)))
        invariant forall j :: i <= j < |items| ==> ViewItem(items[j], owned) == old(ViewItem(items[j], owned))
      {
        if items[i].Submenu? {
          IncrementOne(items, i, owned);
        }
      }
      assert ViewItems(items, owned) == T.Deepened(old(ViewItems(items, owned)));
    }

    // The loop body for a submenu row.
    static method IncrementOne(items: seq<MenuItem>, i: nat, ghost owned: set<SubMenu>)
      requires Forest(items, owned) && i < |items| && items[i].Submenu?
      modifies owned`depth
      ensures Forest(items, owned)
      ensures ViewItem(items[i], owned) == T.DeepenedItem(old(ViewItem(items[i], owned)))
      ensures forall j :: 0 <= j < |items| && j != i ==> ViewItem(items[j], owned) == old(ViewItem(items[j], owned))
      decreases owned, 0
    {
      var menu := items[i].menu;
      ghost var nested := menu.Repr - {menu};
      menu.depth := menu.depth + 1;
      IncrementDepth(menu.items, nested);
    }

    // ----- queries -----

    function ItemsLen(): nat
      reads this
    {
      |items|
    }

    function Rows(): (rows: seq<R.Row>)
      requires Valid()
      reads this, Repr
      ensures rows == T.RowsOf(View().items)
    {
      seq(|items|, i requires 0 <= i < |items| && Valid() reads this, Repr => RowOf(i))
    }

    function RowOf(i: nat): (row: R.Row)
      requires Valid() && i < |items|
      reads this, Repr
      ensures row == T.RowOf(View().items[i])
    {
      assert Forest(items, Repr - {this});
      match items[i]
      case Item(fields) => R.Row(T.Interactive(fields), Some(1))
      case Separator => R.Row(false, None)
      case ItemsRow(items) => R.Row(exists fields :: fields in items && T.Interactive(fields), Some(|items|))
      case Submenu(_, menu) => R.Row(menu.items != [], Some(menu.ItemsLen() + 1))
      case Header(_, clickable) => R.Row(clickable, Some(if clickable then 1 else 0))
    }

    // ----- selecting -----

    method ResetSelection()
      modifies this`selectedRow, this`selectedItem, this`lastSource
      ensures Sel() == T.Cleared(old(Sel()))
    {
      selectedRow, selectedItem, lastSource := None, None, None;
    }

    method SelectInternal(action: R.SelectAction)
      requires Valid() && R.NoPanic(Rows(), action, selectedRow, selectedItem)
      modifies this`selectedRow, this`selectedItem, this`hoveredRow
      ensures selectedRow.Some? && selectedItem.Some? && hoveredRow == selectedRow
      ensures (selectedRow.value, selectedItem.value)
           == old(R.Choose(Rows(), action, selectedRow, selectedItem))
    {
      var rows := Rows();
      var row, item := 0, 0;
      match (action, selectedRow) {
        case (Index(r, f), _) =>
          row, item := r, f;
        case (Previous, Some(r)) =>
          if selectedItem.Some? && selectedItem.value > 0 {
            row, item := r, selectedItem.value - 1;
          } else {
            var found := R.FindBackward(rows, R.SkipBack(rows, r), |rows|);
            row := if found.Some? then found.value else r;
            item := R.LastField(rows[row]);
          }
        case (Next, Some(r)) =>
          if selectedItem.Some? && selectedItem.value < R.LastField(rows[r]) {
            row, item := r, selectedItem.value + 1;
          } else {
            var found := R.FindForward(rows, r + 1, |rows|);
            row := if found.Some? then found.value else r;
          }
        case (_, None) =>
      }
      selectedRow, selectedItem, hoveredRow := Some(row), Some(item), Some(row);
    }

    method SelectWithSource(action: R.SelectAction, source: T.Source, ctx: Context)
      requires Valid() && R.NoPanic(Rows(), action, selectedRow, selectedItem)
      modifies this`selectedRow, this`selectedItem, this`hoveredRow, this`lastSource, ctx
      ensures Sel() == old(T.Chosen(View(), action, source))
      ensures ctx.log == old(ctx.log) + [T.ItemSelected]
    {
      SelectInternal(action);
      lastSource := Some(source);
      ctx.Emit(T.ItemSelected);
    }

    method SelectFirstSelectable(ctx: Context) returns (found: bool)
      requires Valid()
      modifies this`selectedRow, this`selectedItem, this`hoveredRow, this`lastSource, ctx
      ensures var first := old(T.FirstSelectable(T.RowsOf(View().items)));
              && found == first.Some?
              && (found ==> Sel() == old(T.Chosen(View(), R.Index(T.FirstSelectable(T.RowsOf(View().items)).value, 0),
                                                  T.KeyboardOrProgrammatic)))
              && (!found ==> Sel() == old(Sel()))
              && ctx.log == old(ctx.log) + (if found then [T.ItemSelected] else [])
    {
      var first := T.FirstSelectable(Rows());
      found := first.Some?;
      if found {
        SelectWithSource(R.Index(first.value, 0), T.KeyboardOrProgrammatic, ctx);
      }
    }

    // ----- reaching into the tree -----

    // The menu that the path names is m.
    ghost predicate Leads(p: T.Path, m: SubMenu)
      requires Valid()
      reads this, Repr
      decreases |p|
    {
      assert Forest(items, Repr - {this});
      if p == [] then m == this
      else p[0] < |items| && items[p[0]].Submenu? && items[p[0]].menu.Leads(p[1..], m)
    }

    lemma LeadsAt(p: T.Path, m: SubMenu)
      requires Valid() && Leads(p, m)
      ensures m in Repr && m.Repr <= Repr && m.Valid()
      ensures T.ValidPath(View(), p) && T.At(View(), p) == m.View()
      decreases |p|
    {
      if p != [] { items[p[0]].menu.LeadsAt(p[1..], m); }
    }

    lemma LeadsFurther(p: T.Path, m: SubMenu, r: nat)
      requires Valid() && Leads(p, m) && m.Valid() && r < |m.items| && m.items[r].Submenu?
      ensures Leads(p + [r], m.items[r].menu)
      decreases |p|
    {
      if p == [] {
        assert [r][1..] == [];
      } else {
        items[p[0]].menu.LeadsFurther(p[1..], m, r);
        assert (p + [r])[1..] == p[1..] + [r];
      }
    }

    method ActiveMenuMut() returns (m: SubMenu, ghost p: T.Path)
      requires Valid()
      ensures p == T.ActivePath(View()) && Leads(p, m)
      decreases Repr
    {
      match selectedRow {
        case Some(r) =>
          if r < |items| && items[r].Submenu? && items[r].menu.selectedRow.Some? {
            m, p := items[r].menu.ActiveMenuMut();
            assert ([r] + p)[1..] == p;
            p := [r] + p;
          } else {
            m, p := this, [];
          }
        case None =>
          m, p := this, [];
      }
    }

    function SelectedSubmenuMut(): (m: SubMenu?)
      reads this
      ensures m != null <==> selectedRow.Some? && selectedRow.value < |items| && items[selectedRow.value].Submenu?
      ensures m != null ==> m == items[selectedRow.value].menu
    {
      if selectedRow.Some? && selectedRow.value < |items| && items[selectedRow.value].Submenu?
      then items[selectedRow.value].menu
      else null
    }

    // Ownership does not depend on depths or selections.
    twostate lemma ValidKept()
      requires old(Valid())
      requires forall m :: m in old(Repr) ==> m.items == old(m.items) && m.Repr == old(m.Repr)
      ensures Valid()
      decreases old(Repr)
    {
      assert old(Forest(items, Repr - {this}));
      forall i | 0 <= i < |items| && items[i].Submenu? ensures items[i].menu.Valid() {
        items[i].menu.ValidKept();
      }
    }

    twostate lemma LeadsAtOld(new p: T.Path, target: SubMenu)
      requires old(Valid()) && old(Leads(p, target))
      ensures target in old(Repr)
      decreases |p|
    {
      assert old(Forest(items, Repr - {this}));
      if p != [] { old(items[p[0]].menu).LeadsAtOld(p[1..], target); }
    }

    // If only the selection of the menu at p was written, the tree is the old one with that
    // selection replaced.
    twostate lemma WroteAt(new p: T.Path, target: SubMenu)
      requires old(Valid()) && old(Leads(p, target))
      requires forall m :: m in old(Repr) ==>
                             m.items == old(m.items) && m.Repr == old(m.Repr) && m.depth == old(m.depth)
      requires forall m :: m in old(Repr) && m != target ==> unchanged(m)
      ensures Valid()
      ensures T.ValidPath(old(View()), p)
      ensures View() == T.WithSel(old(View()), p, target.Sel())
      decreases |p|
    {
      ValidKept();
      assert old(Forest(items, Repr - {this}));
      if p != [] { old(items[p[0]].menu).LeadsAtOld(p[1..], target); }
      forall i | 0 <= i < |items| && items[i].Submenu? && (p == [] || i != p[0])
        ensures items[i].menu.View() == old(items[i].menu.View())
      {
      }
      if p != [] {
        items[p[0]].menu.WroteAt(p[1..], target);
      }
    }

    // ----- actions on the whole tree -----

    method SelectActive(action: R.SelectAction, ctx: Context)
      requires Valid() && T.Enabled(View(), T.Select(action))
      modifies Repr`selectedRow, Repr`selectedItem, Repr`hoveredRow, Repr`lastSource, ctx
      ensures Valid()
      ensures View() == old(T.Handle(View(), T.Select(action), true).0)
      ensures ctx.log == old(ctx.log) + [T.ItemSelected]
    {
      var m, p := ActiveMenuMut();
      LeadsAt(p, m);
      m.SelectWithSource(action, T.KeyboardOrProgrammatic, ctx);
      WroteAt(p, m);
    }

    method OpenSelectedSubmenu(ctx: Context) returns (opens: bool)
      requires Valid()
      modifies Repr`selectedRow, Repr`selectedItem, Repr`hoveredRow, Repr`lastSource, ctx
      ensures Valid()
      ensures View() == old(T.Opened(View()).0)
      ensures ctx.log == old(ctx.log) + old(T.Opened(View()).1)
      ensures opens <==> old(T.Opened(View()).1) != []
    {
      var active, p := ActiveMenuMut();
      LeadsAt(p, active);
      var submenu := active.SelectedSubmenuMut();
      if submenu == null {
        T.LeafOpensNothing(View());
        opens := false;
      } else {
        opens := OpenAt(active, p, ctx);
      }
    }

    // Selecting the first selectable row of the submenu under the active menu's selected row.
    method OpenAt(active: SubMenu, ghost p: T.Path, ctx: Context) returns (opens: bool)
      requires Valid() && Leads(p, active) && p == T.ActivePath(View())
      requires active.SelectedSubmenuMut() != null
      modifies Repr`selectedRow, Repr`selectedItem, Repr`hoveredRow, Repr`lastSource, ctx
      ensures Valid()
      ensures View() == old(T.Opened(View()).0)
      ensures ctx.log == old(ctx.log) + old(T.Opened(View()).1)
      ensures opens <==> old(T.Opened(View()).1) != []
    {
      LeadsAt(p, active);
      var submenu := active.SelectedSubmenuMut();
      ghost var target := p + [active.selectedRow.value];
      LeadsFurther(p, active, active.selectedRow.value);
      LeadsAt(target, submenu);
      assert T.OpenTarget(View()) == Some(target);
      opens := submenu.SelectFirstSelectable(ctx);
      WroteAt(target, submenu);
      if !opens { SelfWrite(old(View()), target); }
    }

    method SelectedActionForEnter(ctx: Context) returns (action: Option<nat>)
      requires Valid()
      modifies Repr`selectedRow, Repr`selectedItem, Repr`hoveredRow, Repr`lastSource, ctx
      ensures Valid()
      ensures View() == old(T.Opened(View()).0)
      ensures ctx.log == old(ctx.log) + old(T.Opened(View()).1)
      ensures action == old(T.EnterAction(T.Active(View())))
    {
      var active, p := ActiveMenuMut();
      LeadsAt(p, active);
      action := active.SelectedLeafAction();
      if active.SelectedSubmenuMut() == null {
        T.LeafOpensNothing(View());
      } else {
        var _ := OpenAt(active, p, ctx);
      }
    }

    // The action of the selected row, if it is a leaf that has one.
    function SelectedLeafAction(): (action: Option<nat>)
      requires Valid()
      reads this, Repr
      ensures action == T.EnterAction(View())
    {
      if selectedRow.None? || selectedRow.value >= |items| then None
      else
        match items[selectedRow.value]
        case Item(fields) => fields.onSelectAction
        case Separator => None
        case ItemsRow(row) =>
          var i := if selectedItem.Some? then selectedItem.value else 0;
          if i < |row| then row[i].onSelectAction else None
        case Submenu(_, _) => None
        case Header(fields, clickable) => if clickable then fields.onSelectAction else None
    }

    method HandleAction(action: T.MenuAction, dispatchItemActions: bool, ctx: Context)
      requires Valid() && T.Enabled(View(), action)
      modifies Repr`selectedRow, Repr`selectedItem, Repr`hoveredRow, Repr`lastSource, ctx
      ensures Valid()
      ensures View() == old(T.Handle(View(), action, dispatchItemActions).0)
      ensures ctx.log == old(ctx.log) + old(T.Handle(View(), action, dispatchItemActions).1)
      decreases action.UnhoverSubmenuParent?
    {
      match action {
        case HoverSubmenuWithChildren(d, selection) =>
          if d == depth {
            SelectWithSource(selection, T.Pointer, ctx);
            WroteAt([], this);
          }
        case UnhoverSubmenuParent(d) =>
          if d == depth {
            HandleAction(T.CloseSubmenu(depth), dispatchItemActions, ctx);
          }
        case HoverSubmenuLeafNode(d, row, _) =>
          if d == depth {
            hoveredRow := Some(row);
            ctx.Emit(T.ItemHovered);
            WroteAt([], this);
          }
        case Select(selection) =>
          SelectActive(selection, ctx);
        case OpenSubmenu =>
          var _ := OpenSelectedSubmenu(ctx);
        case CloseSubmenu(d) =>
          if d == depth {
            ResetSelection();
            WroteAt([], this);
          }
        case Close(viaSelectItem) =>
          ctx.Emit(T.Closed(viaSelectItem));
        case Enter =>
          var fired := SelectedActionForEnter(ctx);
          if fired.Some? {
            ctx.Emit(if dispatchItemActions then T.Dispatched(fired.value) else T.ItemSelected);
            ctx.Emit(T.Closed(true));
          }
      }
    }
  }

  // ----- framing -----

  lemma SelfWrite(t: T.Tree, p: T.Path)
    requires T.ValidPath(t, p)
    ensures T.WithSel(t, p, T.At(t, p).sel) == t
    decreases |p|
  {
    if p != [] { SelfWrite(t.items[p[0]].menu, p[1..]); }
  }

  // A menu view: the tree, and the hover filter when the menu has one.
  class Menu {
    var menu: SubMenu
    var safeTriangle: S.SafeTriangle?
    var dispatchItemActions: bool

    ghost predicate Valid()
      reads this, menu, menu.Repr
    {
      menu.Valid()
    }

    ghost function Value(): H.MenuState
      requires Valid()
      reads this, menu, menu.Repr, safeTriangle
    {
      H.MenuState(if safeTriangle == null then None else Some(safeTriangle.Value()), menu.View(), dispatchItemActions)
    }

    // Menu::new with the builders with_safe_triangle and without_item_action_dispatch.
    constructor (withSafeTriangle: bool, dispatchItemActions: bool)
      ensures Valid() && fresh(menu) && fresh(menu.Repr)
      ensures Value() == H.MenuState(if withSafeTriangle then Some(S.State(None, None, false)) else None,
                                     T.NewMenu([]), dispatchItemActions)
    {
      menu := new SubMenu([], {});
      if withSafeTriangle {
        safeTriangle := new S.SafeTriangle();
      } else {
        safeTriangle := null;
      }
      this.dispatchItemActions := dispatchItemActions;
      new;
      assert T.Deepened([]) == [];
    }

    method SetItems(items: seq<MenuItem>, ghost owned: set<SubMenu>)
      requires Valid() && Forest(items, owned) && menu !in owned
      modifies menu
      ensures Valid() && menu.Repr == owned + {menu}
      ensures Value() == old(H.Step(Value(), H.Refill(ViewItems(items, owned))).0)
    {
      menu.items := items;
      menu.Repr := owned + {menu};
      assert menu.Repr - {menu} == owned;
      menu.ResetSelection();
      assert menu.Repr - {menu} == owned;
    }

    method SetSafeZoneTarget(rect: Option<S.Rect>)
      requires Valid()
      modifies safeTriangle
      ensures Valid() && Value() == H.Step(old(Value()), H.Retarget(rect)).0
    {
      if safeTriangle != null {
        safeTriangle.SetTargetRect(rect);
      }
    }

    method HandleAction(action: T.MenuAction, ctx: Context)
      requires Valid() && T.Enabled(menu.View(), action)
      modifies menu.Repr`selectedRow, menu.Repr`selectedItem, menu.Repr`hoveredRow, menu.Repr`lastSource
      modifies safeTriangle, ctx
      ensures Valid()
      ensures Value() == old(H.Step(Value(), H.Act(action)).0)
      ensures ctx.log == old(ctx.log) + old(H.Step(Value(), H.Act(action)).1)
    {
      if action.HoverSubmenuLeafNode? && safeTriangle != null {
        var suppress := safeTriangle.ShouldSuppressHover(action.position);
        if suppress {
          return;
        }
        safeTriangle.UpdatePosition(action.position);
      }
      menu.HandleAction(action, dispatchItemActions, ctx);
    }
  }
}
