/**
 * The contact list view: the cursor, the first visible row, the record
 * table it walks and one selection flag per record, updated in place by
 * the navigation, selection, reorder and duplication commands.
 */
module ContactList {
  import Window
  import Selection

  /** A record of the table: its field values, indexed by field id. */
  datatype Record = Record(fields: seq<string>)

  /** The two directions `move_curitem` accepts. */
  datatype Direction = Up | Down

  /**
   * One `print_list_line` call: its window line, record index and highlight
   * argument, and whether the line gets the `*` selection marker.
   */
  datatype Row = Row(line: nat, index: nat, highlight: bool, marked: bool)

  /** The table with the records at i and j exchanged. */
  function Swap(s: seq<Record>, i: nat, j: nat): (r: seq<Record>)
    requires i < |s| && j < |s|
    ensures |r| == |s| && r[i] == s[j] && r[j] == s[i]
    ensures forall k :: 0 <= k < |s| && k != i && k != j ==> r[k] == s[k]
    ensures multiset(r) == multiset(s)
  {
    s[i := s[j]][j := s[i]]
  }

  /** Exchanging the same two records again restores the table. */
  lemma SwapBack(s: seq<Record>, i: nat, j: nat)
    requires i < |s| && j < |s|
    ensures Swap(Swap(s, i, j), i, j) == s
  {
  }

  class ListView {
    /** `curitem`: the record under the cursor, -1 for none. */
    var curitem: int
    /** `first_list_item`: the record on the top line of the window, -1 before the first render. */
    var firstListItem: int
    /** `LIST_LINES`: the height of the list window. */
    const listLines: Window.PosInt
    /** The record table; `items` is its length. */
    var records: seq<Record>
    /** `selected`: one flag per record. */
    var selected: array<bool>

    function CurrentView(): (v: Window.View)
      reads this
    {
      Window.View(curitem, firstListItem)
    }

    /** The window invariants hold for the current table. */
    predicate Consistent()
      reads this
    {
      Window.Consistent(CurrentView(), |records|, listLines)
    }

    /** A list view before its first render: no cursor, no window. */
    constructor (lines: Window.PosInt, table: seq<Record>, flags: array<bool>)
      ensures curitem == -1 && firstListItem == -1
      ensures listLines == lines && records == table && selected == flags
    {
      curitem, firstListItem := -1, -1;
      listLines := lines;
      records, selected := table, flags;
    }

    /** `list_current_item`: on a consistent view, a record index or -1 exactly for an empty list. */
    function CurrentItem(): (i: int)
      reads this
      ensures Consistent() ==> (i == -1 <==> |records| == 0) && i < |records|
      ensures Consistent() && |records| > 0 ==> 0 <= i <= Window.LastItem(|records|)
    {
      curitem
    }

    /** `list_is_empty`. */
    function IsEmpty(): (b: bool)
      reads this
      ensures b <==> records == []
    {
      |records| < 1
    }

    /** The `*` marker test of `print_list_line` for record i. */
    function Marked(i: int): (star: bool)
      reads this, selected
    {
      0 <= i < selected.Length && selected[i]
    }

    /**
     * `refresh_list`, its viewport part: on a non-empty table the cursor and
     * the window are clamped and re-derived, then the visible rows are drawn.
     */
    method Refresh()
      modifies this`curitem, this`firstListItem
      ensures CurrentView() == Window.Recompute(old(CurrentView()), |records|, listLines)
    {
      if IsEmpty() {
        return;
      }
      if curitem < 0 {
        curitem := 0;
      }
      if firstListItem < 0 {
        firstListItem := 0;
      }
      if curitem < firstListItem {
        firstListItem := curitem;
      } else if curitem > Window.LastListItem(CurrentView(), listLines) {
        firstListItem := Window.Max(curitem - listLines + 1, 0);
      }
      var _ := RenderRows();
    }

    /**
     * The drawing loop of `refresh_list`: records from the first visible one
     * up to the last visible one or the last record, whichever comes first,
     * each on the next window line, highlighted exactly when it is the cursor
     * and marked exactly when its selection flag is set.  A record beyond the
     * end of the selection buffer is drawn unmarked.
     */
    method RenderRows() returns (rows: seq<Row>)
      requires firstListItem >= 0
      ensures |rows| == Window.Max(Window.Min(listLines, |records| - firstListItem), 0)
      ensures |rows| <= listLines
      ensures forall k :: 0 <= k < |rows| ==>
                rows[k] == Row(k, firstListItem + k, firstListItem + k == curitem, Marked(firstListItem + k)) &&
                rows[k].index < |records|
      // with one flag per record, a line is marked exactly when its record is selected
      ensures selected.Length == |records| ==>
                forall k :: 0 <= k < |rows| ==> (rows[k].marked <==> selected[rows[k].index])
      // the cursor is highlighted on exactly one line
      ensures Window.InWindow(CurrentView(), listLines) && curitem < |records| ==>
                0 <= curitem - firstListItem < |rows| && rows[curitem - firstListItem].highlight
      ensures forall k :: 0 <= k < |rows| && rows[k].highlight ==> k == curitem - firstListItem
    {
      rows := [];
      var line, i := 0, firstListItem;
      while i <= Window.LastListItem(CurrentView(), listLines) && i < |records|
        invariant firstListItem <= i <= Window.Max(Window.Min(firstListItem + listLines, |records|), firstListItem)
        invariant line == i - firstListItem && |rows| == line
        invariant forall k :: 0 <= k < line ==>
                    rows[k] == Row(k, firstListItem + k, firstListItem + k == curitem, Marked(firstListItem + k)) &&
                    rows[k].index < |records|
      {
        rows := rows + [Row(line, i, i == curitem, Marked(i))];
        line, i := line + 1, i + 1;
      }
    }

    /** `scroll_up`. */
    method ScrollUp()
      modifies this`curitem, this`firstListItem
      ensures CurrentView() == Window.ScrollUp(old(CurrentView()), |records|, listLines)
      ensures old(Consistent()) ==> Consistent()
    {
      if curitem < 1 {
        return;
      }
      curitem := curitem - 1;
      Refresh();
    }

    /** `scroll_down`. */
    method ScrollDown()
      modifies this`curitem, this`firstListItem
      ensures CurrentView() == Window.ScrollDown(old(CurrentView()), |records|, listLines)
      ensures old(Consistent()) ==> Consistent()
    {
      if curitem > |records| - 2 {
        return;
      }
      curitem := curitem + 1;
      Refresh();
    }

    /** `page_up`. */
    method PageUp()
      modifies this`curitem, this`firstListItem
      ensures CurrentView() == Window.PageUp(old(CurrentView()), |records|, listLines)
      ensures old(Consistent()) ==> Consistent()
    {
      if curitem < 1 {
        return;
      }
      curitem := if curitem == firstListItem then Window.Max(curitem - listLines, 0) else firstListItem;
      Refresh();
    }

    /** `page_down`. */
    method PageDown()
      modifies this`curitem, this`firstListItem
      ensures CurrentView() == Window.PageDown(old(CurrentView()), |records|, listLines)
      ensures old(Consistent()) ==> Consistent()
    {
      if curitem > |records| - 2 {
        return;
      }
      var last := Window.LastListItem(CurrentView(), listLines);
      curitem := if curitem == last then Window.Min(curitem + listLines, Window.LastItem(|records|))
                 else Window.Min(last, Window.LastItem(|records|));
      Refresh();
    }

    /** `goto_home`. */
    method GotoHome()
      modifies this`curitem, this`firstListItem
      ensures CurrentView() == Window.GotoHome(old(CurrentView()), |records|, listLines)
      ensures old(Consistent()) ==> Consistent()
    {
      if |records| > 0 {
        curitem := 0;
      }
      Refresh();
    }

    /** `goto_end`. */
    method GotoEnd()
      modifies this`curitem, this`firstListItem
      ensures CurrentView() == Window.GotoEnd(old(CurrentView()), |records|, listLines)
      ensures old(Consistent()) ==> Consistent()
    {
      if |records| > 0 {
        curitem := Window.LastItem(|records|);
      }
      Refresh();
    }

    /** `select_none`: every flag cleared. */
    method SelectNone()
      requires selected.Length == |records|
      modifies selected
      ensures forall i :: 0 <= i < selected.Length ==> !selected[i]
      ensures Selection.CountTrue(selected[..]) == 0
    {
      forall i | 0 <= i < selected.Length {
        selected[i] := false;
      }
      Selection.CountNoneSet(selected[..]);
    }

    /** `select_all`: every flag set. */
    method SelectAll()
      requires selected.Length == |records|
      modifies selected
      ensures forall i :: 0 <= i < selected.Length ==> selected[i]
      ensures Selection.CountTrue(selected[..]) == |records|
    {
      forall i | 0 <= i < selected.Length {
        selected[i] := true;
      }
      Selection.CountAllSet(selected[..]);
    }

    /** `invert_selection`: every flag flipped, so k selected records become items - k. */
    method InvertSelection()
      requires selected.Length == |records|
      modifies selected
      ensures selected[..] == Selection.Inverted(old(selected[..]))
      ensures Selection.CountTrue(selected[..]) == |records| - Selection.CountTrue(old(selected[..]))
    {
      Selection.CountInverted(selected[..]);
      if |records| < 1 {
        return;
      }
      var i := 0;
      while i < |records|
        invariant 0 <= i <= |records|
        invariant forall k :: 0 <= k < i ==> selected[k] == !old(selected[k])
        invariant forall k :: i <= k < |records| ==> selected[k] == old(selected[k])
      {
        selected[i] := !selected[i];
        i := i + 1;
      }
      assert selected[..] == Selection.Inverted(old(selected[..]));
    }

    /** `selected_items`: the number of selected records. */
    method SelectedItems() returns (n: int)
      requires selected.Length == |records|
      ensures n == Selection.CountTrue(selected[..])
      ensures 0 <= n <= |records|
    {
      n := 0;
      var i := 0;
      while i < |records|
        invariant 0 <= i <= |records|
        invariant n == Selection.CountTrue(selected[..i])
      {
        assert selected[..i + 1][..i] == selected[..i];
        if selected[i] {
          n := n + 1;
        }
        i := i + 1;
      }
      assert selected[..i] == selected[..];
    }

    /**
     * `move_curitem`: the record under the cursor changes places with its
     * neighbour in the given direction and the cursor follows it; at the
     * ends of the table, or with no record under the cursor, nothing changes.
     * The selection flags stay where they are.
     */
    method MoveCurItem(direction: Direction)
      modifies this`curitem, this`firstListItem, this`records
      ensures var c, n := old(curitem), |old(records)|;
              if c < 0 || c > n - 1 || (direction == Up && c < 1) || (direction == Down && c >= n - 1) then
                records == old(records) && CurrentView() == old(CurrentView())
              else if direction == Up then
                records == Swap(old(records), c, c - 1) &&
                CurrentView() == Window.ScrollUp(old(CurrentView()), n, listLines)
              else
                records == Swap(old(records), c, c + 1) &&
                CurrentView() == Window.ScrollDown(old(CurrentView()), n, listLines)
      ensures |records| == |old(records)|
      ensures 0 <= old(curitem) < |records| ==> records[curitem] == old(records)[old(curitem)]
      ensures old(Consistent()) ==> Consistent()
    {
      if curitem < 0 || curitem > Window.LastItem(|records|) {
        return;
      }
      var tmp := records[curitem];
      match direction
      case Up =>
        if curitem < 1 {
          return;
        }
        records := records[curitem := records[curitem - 1]];
        records := records[curitem - 1 := tmp];
        ScrollUp();
      case Down =>
        if curitem >= Window.LastItem(|records|) {
          return;
        }
        records := records[curitem := records[curitem + 1]];
        records := records[curitem + 1 := tmp];
        ScrollDown();
    }

    /**
     * `duplicate_item`: a copy of the record under the cursor is appended
     * and the cursor goes to it.  Returns 1, changing nothing, when there is
     * no record under the cursor or the append fails (`appendFails`, the
     * outcome of the table's append); otherwise 0.
     */
    method DuplicateItem(appendFails: bool) returns (status: int)
      requires curitem < |records|
      modifies this`curitem, this`firstListItem, this`records
      ensures status == 0 || status == 1
      ensures status == 1 <==> old(curitem) < 0 || appendFails
      ensures status == 1 ==> records == old(records) && CurrentView() == old(CurrentView())
      ensures status == 0 ==>
                records == old(records) + [old(records)[old(curitem)]] &&
                CurrentView() == Window.Recompute(Window.View(|records| - 1, old(firstListItem)),
                                                  |records|, listLines) &&
                curitem == Window.LastItem(|records|) && Consistent()
    {
      if curitem < 0 {
        return 1;
      }
      var item := records[curitem];
      if appendFails {
        return 1;
      }
      records := records + [item];
      curitem := Window.LastItem(|records|);
      Refresh();
      return 0;
    }
  }
}
