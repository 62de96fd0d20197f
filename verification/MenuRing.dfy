/**
 The (row, field) ring that a menu's Next and Previous actions walk.

 A row is reduced to what the walk looks at: whether it can be selected, and how many
 fields it reports.  `Choose` is the selection arithmetic of `SubMenu::select_internal`,
 with its cycle/skip/take/find iterator chains written as bounded cyclic searches.
 The reference definition is `Cells`: the plain list of every field of every selectable
 row, in reading order.
 */
module MenuRing {
  import opened Wrappers

  datatype Row = Row(selectable: bool, len: Option<nat>)

  datatype SelectAction = Previous | Next | Index(row: nat, item: nat)

  type Cell = (nat, nat)

  // ----- the arithmetic of the source -----

  // The last field of a row: its length less one, saturating at zero; zero when it reports no length.
  function LastField(row: Row): nat {
    match row.len
    case None => 0
    case Some(n) => if n == 0 then 0 else n - 1
  }

  // enumerate().cycle().skip(pos).take(left).find(selectable)
  function FindForward(rows: seq<Row>, pos: nat, left: nat): (found: Option<nat>)
    ensures found.Some? ==> found.value < |rows| && rows[found.value].selectable
    decreases left
  {
    if left == 0 || rows == [] then None
    else if rows[pos % |rows|].selectable then Some(pos % |rows|)
    else FindForward(rows, pos + 1, left - 1)
  }

  // enumerate().rev().cycle().skip(pos).take(left).find(selectable)
  function FindBackward(rows: seq<Row>, pos: nat, left: nat): (found: Option<nat>)
    ensures found.Some? ==> found.value < |rows| && rows[found.value].selectable
    decreases left
  {
    if left == 0 || rows == [] then None
    else
      var index := |rows| - 1 - pos % |rows|;
      if rows[index].selectable then Some(index) else FindBackward(rows, pos + 1, left - 1)
  }

  function OrElse(found: Option<nat>, default: nat): nat {
    if found.Some? then found.value else default
  }

  predicate InRange(rows: seq<Row>, row: Option<nat>) {
    row.Some? ==> row.value < |rows|
  }

  predicate SomeSelectable(rows: seq<Row>) {
    exists r :: r in rows && r.selectable
  }

  // len.saturating_sub(row), the items to skip when walking back from a row.
  function SkipBack(rows: seq<Row>, r: nat): nat {
    if r < |rows| then |rows| - r else 0
  }

  // The list is indexed by the selected row, or the row found, only where it exists.
  predicate NoPanic(rows: seq<Row>, action: SelectAction, row: Option<nat>, item: Option<nat>) {
    match (action, row)
    case (Next, Some(r)) => item.Some? ==> r < |rows|
    case (Previous, Some(r)) =>
      || (item.Some? && item.value > 0) || r < |rows|
      || FindBackward(rows, SkipBack(rows, r), |rows|).Some?
    case (_, _) => true
  }

  function Choose(rows: seq<Row>, action: SelectAction, row: Option<nat>, item: Option<nat>): Cell
    requires NoPanic(rows, action, row, item)
  {
    match (action, row, item)
    case (Index(r, f), _, _) => (r, f)
    case (Previous, Some(r), _) =>
      if item.Some? && item.value > 0 then (r, item.value - 1)
      else
        var target := OrElse(FindBackward(rows, SkipBack(rows, r), |rows|), r);
        (target, LastField(rows[target]))
    case (Next, Some(r), _) =>
      if item.Some? && item.value < LastField(rows[r]) then (r, item.value + 1)
      else (OrElse(FindForward(rows, r + 1, |rows|), r), 0)
    case (_, None, _) => (0, 0)
  }

  function NextCell(rows: seq<Row>, cell: Cell): Cell
    requires cell.0 < |rows|
  {
    Choose(rows, Next, Some(cell.0), Some(cell.1))
  }

  function PreviousCell(rows: seq<Row>, cell: Cell): Cell
    requires cell.0 < |rows|
  {
    Choose(rows, Previous, Some(cell.0), Some(cell.1))
  }

  // ----- the reference: all cells in reading order -----

  // How many fields of a row the walk visits: max(1, len) when it is selectable.
  function Span(row: Row): nat {
    if !row.selectable then 0
    else if row.len == None || row.len == Some(0) then 1
    else row.len.value
  }

  function RowCells(r: nat, count: nat): (cells: seq<Cell>)
    ensures |cells| == count
    ensures forall f :: 0 <= f < count ==> cells[f] == (r, f)
  {
    seq(count, f requires 0 <= f => (r, f))
  }

  // The cells of the first k rows.
  function CellsUpTo(rows: seq<Row>, k: nat): seq<Cell>
    requires k <= |rows|
  {
    if k == 0 then [] else CellsUpTo(rows, k - 1) + RowCells(k - 1, Span(rows[k - 1]))
  }

  function Cells(rows: seq<Row>): seq<Cell> {
    CellsUpTo(rows, |rows|)
  }

  predicate IsCell(rows: seq<Row>, cell: Cell) {
    cell.0 < |rows| && cell.1 < Span(rows[cell.0])
  }

  function SpanSum(rows: seq<Row>): nat {
    if rows == [] then 0 else SpanSum(rows[..|rows| - 1]) + Span(rows[|rows| - 1])
  }

  // ----- cyclic search -----

  lemma ModOnce(p: nat, n: nat)
    requires 0 < n && p < 2 * n
    ensures p % n == if p < n then p else p - n
  {
    if p >= n { assert p == (p - n) + n * 1; }
  }

  // Nothing selectable strictly between r and q, going up and wrapping once.
  ghost predicate NoneBetween(rows: seq<Row>, r: nat, q: nat) {
    if r < q then forall i :: r < i < q && i < |rows| ==> !rows[i].selectable
    else forall i :: 0 <= i < |rows| && (r < i || i < q) ==> !rows[i].selectable
  }

  lemma {:induction false} ForwardFinds(rows: seq<Row>, r: nat, pos: nat, left: nat)
    requires r < |rows| && r < pos <= r + |rows| && left == r + 1 + |rows| - pos
    requires forall i :: r < i < pos && i < |rows| ==> !rows[i].selectable
    requires forall i :: 0 <= i < pos - |rows| ==> !rows[i].selectable
    ensures var found := FindForward(rows, pos, left);
            if found.Some? then NoneBetween(rows, r, found.value)
            else forall i :: 0 <= i < |rows| ==> !rows[i].selectable
    decreases left
  {
    ModOnce(pos, |rows|);
    if !rows[pos % |rows|].selectable && left > 1 {
      ForwardFinds(rows, r, pos + 1, left - 1);
    } else {
      assert left == 1 ==> FindForward(rows, pos + 1, left - 1) == None;
    }
  }

  lemma {:induction false} BackwardFinds(rows: seq<Row>, r: nat, pos: nat, left: nat)
    requires r < |rows| && |rows| - r <= pos < 2 * |rows| - r && left == 2 * |rows| - r - pos
    requires forall i :: |rows| - 1 - pos < i < r && 0 <= i ==> !rows[i].selectable
    requires forall i :: 0 <= i < |rows| && 2 * |rows| - 1 - pos < i ==> !rows[i].selectable
    ensures var found := FindBackward(rows, pos, left);
            if found.Some? then NoneBetween(rows, found.value, r)
            else forall i :: 0 <= i < |rows| ==> !rows[i].selectable
    decreases left
  {
    ModOnce(pos, |rows|);
    var index := |rows| - 1 - pos % |rows|;
    if !rows[index].selectable && left > 1 {
      BackwardFinds(rows, r, pos + 1, left - 1);
    } else {
      assert left == 1 ==> FindBackward(rows, pos + 1, left - 1) == None;
    }
  }

  /** From any existing row, Next and Previous past the row's last (first) field land on a
      selectable row exactly when the menu has one, and skip none on the way. */
  lemma {:induction false} SearchFindsNearest(rows: seq<Row>, r: nat)
    requires r < |rows|
    ensures var next := FindForward(rows, r + 1, |rows|);
            var previous := FindBackward(rows, |rows| - r, |rows|);
            && (next.Some? <==> SomeSelectable(rows))
            && (previous.Some? <==> SomeSelectable(rows))
            && (next.Some? ==> NoneBetween(rows, r, next.value))
            && (previous.Some? ==> NoneBetween(rows, previous.value, r))
  {
    ForwardFinds(rows, r, r + 1, |rows|);
    BackwardFinds(rows, r, |rows| - r, |rows|);
  }

  // ----- offsets of rows in the list of cells -----

  lemma {:induction false} CellAt(rows: seq<Row>, k: nat, r: nat, f: nat)
    requires r < k <= |rows| && f < Span(rows[r])
    ensures |CellsUpTo(rows, r)| + f < |CellsUpTo(rows, k)|
    ensures CellsUpTo(rows, k)[|CellsUpTo(rows, r)| + f] == (r, f)
  {
    if k > r + 1 { CellAt(rows, k - 1, r, f); }
  }

  lemma {:induction false} CellOfIndex(rows: seq<Row>, k: nat, i: nat)
    requires k <= |rows| && i < |CellsUpTo(rows, k)|
    ensures var (r, f) := CellsUpTo(rows, k)[i];
            r < k && f < Span(rows[r]) && i == |CellsUpTo(rows, r)| + f
  {
    if i < |CellsUpTo(rows, k - 1)| { CellOfIndex(rows, k - 1, i); }
  }

  // Rows from a to b that cannot be selected contribute no cells.
  lemma {:induction false} SameOffset(rows: seq<Row>, a: nat, b: nat)
    requires a <= b <= |rows|
    requires forall i :: a <= i < b ==> !rows[i].selectable
    ensures CellsUpTo(rows, b) == CellsUpTo(rows, a)
  {
    if a < b { SameOffset(rows, a, b - 1); }
  }

  /** `Cells` is exactly the fields of the selectable rows, each once, and there are as many as
      the sum over the selectable rows of max(1, items_len). */
  lemma CellsAreTheSelectableFields(rows: seq<Row>, cell: Cell)
    ensures cell in Cells(rows) <==> IsCell(rows, cell)
    ensures forall i, j :: 0 <= i < j < |Cells(rows)| ==> Cells(rows)[i] != Cells(rows)[j]
    ensures |Cells(rows)| == SpanSum(rows)
  {
    if IsCell(rows, cell) { CellAt(rows, |rows|, cell.0, cell.1); }
    forall i | 0 <= i < |Cells(rows)|
      ensures var (r, f) := Cells(rows)[i]; IsCell(rows, (r, f)) && i == |CellsUpTo(rows, r)| + f
    {
      CellOfIndex(rows, |rows|, i);
    }
    CountIsSum(rows, |rows|);
    assert rows[..|rows|] == rows;
  }

  lemma {:induction false} CountIsSum(rows: seq<Row>, k: nat)
    requires k <= |rows|
    ensures |CellsUpTo(rows, k)| == SpanSum(rows[..k])
  {
    if k > 0 {
      CountIsSum(rows, k - 1);
      assert rows[..k][..k - 1] == rows[..k - 1];
    }
  }

  // ----- the walk -----

  function CyclicSucc(i: nat, n: nat): nat
    requires i < n
  {
    if i + 1 == n then 0 else i + 1
  }

  function CyclicPred(i: nat, n: nat): nat
    requires i < n
  {
    if i == 0 then n - 1 else i - 1
  }

  // With no selectable row from a to q, the first cell from a on is the first one of q.
  lemma FirstCellFrom(rows: seq<Row>, a: nat, q: nat)
    requires a <= q < |rows| && rows[q].selectable && forall i :: a <= i < q ==> !rows[i].selectable
    ensures var i := |CellsUpTo(rows, a)|; i < |Cells(rows)| && Cells(rows)[i] == (q, 0)
  {
    CellAt(rows, |rows|, q, 0);
    SameOffset(rows, a, q);
  }

  // Leaving row r forwards ends on the cell just after the row's own last one.
  lemma NextRow(rows: seq<Row>, r: nat)
    requires r < |rows| && rows[r].selectable
    ensures var target := OrElse(FindForward(rows, r + 1, |rows|), r);
            var i, n := |CellsUpTo(rows, r)| + LastField(rows[r]), |Cells(rows)|;
            && target < |rows| && i < n
            && Cells(rows)[CyclicSucc(i, n)] == (target, 0)
  {
    SearchFindsNearest(rows, r);
    CellAt(rows, |rows|, r, LastField(rows[r]));
    assert rows[r] in rows;
    var q := FindForward(rows, r + 1, |rows|).value;
    assert |CellsUpTo(rows, r + 1)| == |CellsUpTo(rows, r)| + Span(rows[r]);
    if r < q {
      FirstCellFrom(rows, r + 1, q);
    } else {
      SameOffset(rows, r + 1, |rows|);
      FirstCellFrom(rows, 0, q);
    }
  }

  /** Next steps to the following cell of the list, wrapping from the last to the first. */
  lemma NextIsSuccessor(rows: seq<Row>, i: nat)
    requires i < |Cells(rows)|
    ensures Cells(rows)[i].0 < |rows|
    ensures NextCell(rows, Cells(rows)[i]) == Cells(rows)[CyclicSucc(i, |Cells(rows)|)]
  {
    CellOfIndex(rows, |rows|, i);
    var (r, f) := Cells(rows)[i];
    if f < LastField(rows[r]) {
      CellAt(rows, |rows|, r, f + 1);
    } else {
      NextRow(rows, r);
    }
  }

  // With no selectable row between q and b, the last cell before b is the last one of q.
  lemma LastCellBefore(rows: seq<Row>, q: nat, b: nat)
    requires q < b <= |rows| && rows[q].selectable && forall i :: q < i < b ==> !rows[i].selectable
    ensures var i := |CellsUpTo(rows, b)| - 1;
            0 <= i < |Cells(rows)| && Cells(rows)[i] == (q, LastField(rows[q]))
  {
    CellAt(rows, |rows|, q, LastField(rows[q]));
    assert |CellsUpTo(rows, q + 1)| == |CellsUpTo(rows, q)| + Span(rows[q]);
    SameOffset(rows, q + 1, b);
  }

  // Leaving row r backwards ends on the cell just before the row's own first one.
  lemma PreviousRow(rows: seq<Row>, r: nat)
    requires r < |rows| && rows[r].selectable
    ensures var target := OrElse(FindBackward(rows, |rows| - r, |rows|), r);
            var i, n := |CellsUpTo(rows, r)|, |Cells(rows)|;
            && target < |rows| && i < n
            && Cells(rows)[CyclicPred(i, n)] == (target, LastField(rows[target]))
  {
    SearchFindsNearest(rows, r);
    CellAt(rows, |rows|, r, 0);
    assert rows[r] in rows;
    var q := FindBackward(rows, |rows| - r, |rows|).value;
    if q < r {
      LastCellBefore(rows, q, r);
    } else {
      LastCellBefore(rows, q, |rows|);
      SameOffset(rows, 0, r);
    }
  }

  /** Previous steps to the preceding cell of the list, wrapping from the first to the last. */
  lemma PreviousIsPredecessor(rows: seq<Row>, i: nat)
    requires i < |Cells(rows)|
    ensures Cells(rows)[i].0 < |rows|
    ensures PreviousCell(rows, Cells(rows)[i]) == Cells(rows)[CyclicPred(i, |Cells(rows)|)]
  {
    var cells := Cells(rows);
    CellOfIndex(rows, |rows|, i);
    var (r, f) := cells[i];
    if f > 0 {
      CellAt(rows, |rows|, r, f - 1);
    } else {
      PreviousRow(rows, r);
    }
  }

  /** Next and Previous undo each other, in both orders, from any field of any selectable row. */
  lemma {:induction false} NextAndPreviousAreInverse(rows: seq<Row>, cell: Cell)
    requires IsCell(rows, cell)
    ensures IsCell(rows, NextCell(rows, cell)) && IsCell(rows, PreviousCell(rows, cell))
    ensures PreviousCell(rows, NextCell(rows, cell)) == cell
    ensures NextCell(rows, PreviousCell(rows, cell)) == cell
  {
    var cells, n := Cells(rows), |Cells(rows)|;
    CellAt(rows, |rows|, cell.0, cell.1);
    var i := |CellsUpTo(rows, cell.0)| + cell.1;
    assert cells[i] == cell;
    var up, down := CyclicSucc(i, n), CyclicPred(i, n);
    NextIsSuccessor(rows, i);
    PreviousIsPredecessor(rows, i);
    NextIsSuccessor(rows, down);
    PreviousIsPredecessor(rows, up);
    CellOfIndex(rows, |rows|, up);
    CellOfIndex(rows, |rows|, down);
  }

  ghost function NextTimes(rows: seq<Row>, cell: Cell, k: nat): Cell
    requires IsCell(rows, cell)
    decreases k
  {
    if k == 0 then cell
    else
      NextAndPreviousAreInverse(rows, cell);
      NextTimes(rows, NextCell(rows, cell), k - 1)
  }

  lemma {:induction false} WalkIndex(rows: seq<Row>, i: nat, k: nat)
    requires i < |Cells(rows)| && k <= |Cells(rows)| && IsCell(rows, Cells(rows)[i])
    ensures var n := |Cells(rows)|;
            NextTimes(rows, Cells(rows)[i], k) == Cells(rows)[if i + k < n then i + k else i + k - n]
    decreases k
  {
    if k > 0 {
      var up := CyclicSucc(i, |Cells(rows)|);
      NextIsSuccessor(rows, i);
      CellsAreTheSelectableFields(rows, Cells(rows)[up]);
      WalkIndex(rows, up, k - 1);
    }
  }

  /** Repeated Next visits every field of every selectable row exactly once before it first
      returns, and the cycle is as long as the sum over those rows of max(1, items_len). */
  lemma NextVisitsEveryCellOnce(rows: seq<Row>, start: Cell, cell: Cell)
    requires IsCell(rows, start) && IsCell(rows, cell)
    ensures exists k: nat :: k < SpanSum(rows) && NextTimes(rows, start, k) == cell
    ensures forall j: nat, k: nat | j < k < SpanSum(rows) ::
              NextTimes(rows, start, j) != NextTimes(rows, start, k)
    ensures NextTimes(rows, start, SpanSum(rows)) == start
  {
    var cells, n := Cells(rows), |Cells(rows)|;
    CellsAreTheSelectableFields(rows, start);
    CellsAreTheSelectableFields(rows, cell);
    var i :| 0 <= i < n && cells[i] == start;
    var j :| 0 <= j < n && cells[j] == cell;
    forall k: nat | k <= n
      ensures NextTimes(rows, start, k) == cells[if i + k < n then i + k else i + k - n]
    {
      WalkIndex(rows, i, k);
    }
    var k: nat := if i <= j then j - i else j + n - i;
    assert NextTimes(rows, start, k) == cell;
  }

  /** With nothing selected, Next and Previous both pick row 0 whether or not it is selectable;
      from a selected row, either moves within the row or lands on a selectable row, unless the
      menu has no selectable row at all: then it stays. */
  lemma StepsLandOnSelectable(rows: seq<Row>, row: Option<nat>, item: Option<nat>)
    requires rows != [] && InRange(rows, row)
    ensures row.None? ==> Choose(rows, Next, row, item) == (0, 0) == Choose(rows, Previous, row, item)
    ensures row.Some? ==>
              var target := Choose(rows, Next, row, item).0;
              && target < |rows|
              && (if item.Some? && item.value < LastField(rows[row.value]) then target == row.value
                  else rows[target].selectable <==> SomeSelectable(rows))
              && (!SomeSelectable(rows) ==> target == row.value)
    ensures row.Some? ==>
              var target := Choose(rows, Previous, row, item).0;
              && target < |rows|
              && (if item.Some? && item.value > 0 then target == row.value
                  else rows[target].selectable <==> SomeSelectable(rows))
              && (!SomeSelectable(rows) ==> target == row.value)
  {
    if row.Some? { SearchFindsNearest(rows, row.value); }
  }
}
