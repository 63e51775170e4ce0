/**
 * The viewport of the contact list: the cursor (`curitem`), the first visible
 * row (`first_list_item`) and the fixed number of rows of the list window
 * (`LIST_LINES`).  The window recompute of `refresh_list` and the cursor
 * moves are pure functions here; the class in ContactList applies them to
 * its fields.
 *
 * With `items` records, `LAST_ITEM` is `items - 1` and `LAST_LIST_ITEM` is
 * `first_list_item + LIST_LINES - 1`.
 */
module Window {

  /** The height of the list window, `LIST_LINES`; always at least one row. */
  type PosInt = n: int | n > 0 witness 1

  /** The cursor and the first visible row. */
  datatype View = View(cur: int, first: int)

  function Max(a: int, b: int): (m: int) { if a < b then b else a }

  function Min(a: int, b: int): (m: int) { if a < b then a else b }

  /** `LAST_ITEM`: the index of the last record. */
  function LastItem(items: nat): (last: int) { items - 1 }

  /** `LAST_LIST_ITEM`: the index of the last row the window can show. */
  function LastListItem(v: View, lines: PosInt): (last: int) { v.first + lines - 1 }

  /** The window starts at a real row and the cursor is inside it. */
  predicate InWindow(v: View, lines: PosInt)
  {
    0 <= v.first <= v.cur <= LastListItem(v, lines)
  }

  /**
   * The state every operation keeps: no cursor on an empty list; otherwise
   * the cursor is on a record and inside the window.
   */
  predicate Consistent(v: View, items: nat, lines: PosInt)
  {
    if items == 0 then v.cur == -1 else InWindow(v, lines) && v.cur < items
  }

  /**
   * The viewport part of `refresh_list`: an empty list leaves both values
   * alone; otherwise negative values are raised to 0 and the window is moved
   * just far enough to hold the cursor.
   */
  function Recompute(v: View, items: nat, lines: PosInt): (r: View)
    ensures items == 0 ==> r == v
    ensures items > 0 ==> r.cur == Max(v.cur, 0) && InWindow(r, lines)
    // the window moves only when the cursor is outside it
    ensures items > 0 && InWindow(View(Max(v.cur, 0), Max(v.first, 0)), lines) ==>
              r.first == Max(v.first, 0)
    // the cursor is never moved when it is already on a record
    ensures 0 <= v.cur ==> r.cur == v.cur
  {
    if items < 1 then v
    else
      var cur := Max(v.cur, 0);
      var first := Max(v.first, 0);
      if cur < first then View(cur, cur)
      else if cur > first + lines - 1 then View(cur, Max(cur - lines + 1, 0))
      else View(cur, first)
  }

  function Dist(a: int, b: int): (d: nat) { if a < b then b - a else a - b }

  /**
   * The window is never scrolled further than necessary: no other window
   * holding the cursor starts closer to the old first row.
   */
  lemma RecomputeScrollsLeast(v: View, items: nat, lines: PosInt, g: int)
    requires items > 0
    requires InWindow(View(Max(v.cur, 0), g), lines)
    ensures Dist(Recompute(v, items, lines).first, Max(v.first, 0)) <= Dist(g, Max(v.first, 0))
  {
  }

  /** Rendering twice in a row changes nothing the second time. */
  lemma RecomputeIdempotent(v: View, items: nat, lines: PosInt)
    ensures Recompute(Recompute(v, items, lines), items, lines) == Recompute(v, items, lines)
  {
  }

  /** `scroll_up`: one row up unless the cursor is already at the top. */
  function ScrollUp(v: View, items: nat, lines: PosInt): (r: View)
    ensures v.cur < 1 ==> r == v
    ensures v.cur >= 1 ==> r.cur == v.cur - 1
    ensures v.cur >= 1 && items > 0 ==> InWindow(r, lines)
    ensures Consistent(v, items, lines) ==> Consistent(r, items, lines)
  {
    if v.cur < 1 then v
    else Recompute(View(v.cur - 1, v.first), items, lines)
  }

  /** `scroll_down`: one row down unless the cursor is already on the last record. */
  function ScrollDown(v: View, items: nat, lines: PosInt): (r: View)
    ensures v.cur > items - 2 ==> r == v
    ensures -1 <= v.cur <= items - 2 ==> r.cur == v.cur + 1 && InWindow(r, lines)
    ensures Consistent(v, items, lines) ==> Consistent(r, items, lines)
  {
    if v.cur > items - 2 then v
    else Recompute(View(v.cur + 1, v.first), items, lines)
  }

  /**
   * `page_up`: a cursor on the first visible row goes up one window height
   * (stopping at 0); any other cursor goes to the first visible row.
   */
  function PageUp(v: View, items: nat, lines: PosInt): (r: View)
    ensures v.cur < 1 ==> r == v
    ensures v.cur >= 1 && v.first >= 0 && items > 0 ==>
              r.cur == (if v.cur == v.first then Max(v.cur - lines, 0) else v.first)
    ensures v.cur >= 1 && InWindow(v, lines) && items > 0 ==> 0 <= r.cur < v.cur && InWindow(r, lines)
    ensures Consistent(v, items, lines) ==> Consistent(r, items, lines)
  {
    if v.cur < 1 then v
    else
      var cur := if v.cur == v.first then Max(v.cur - lines, 0) else v.first;
      Recompute(View(cur, v.first), items, lines)
  }

  /**
   * `page_down`: a cursor on the last visible row goes down one window
   * height (stopping at the last record); any other cursor goes to the last
   * visible row, or to the last record if that comes first.
   */
  function PageDown(v: View, items: nat, lines: PosInt): (r: View)
    ensures v.cur > items - 2 ==> r == v
    ensures v.cur <= items - 2 && v.cur >= 0 && v.first >= 0 ==>
              r.cur == (if v.cur == LastListItem(v, lines) then Min(v.cur + lines, LastItem(items))
                        else Min(LastListItem(v, lines), LastItem(items)))
    ensures v.cur <= items - 2 && InWindow(v, lines) ==> v.cur < r.cur <= LastItem(items) && InWindow(r, lines)
    ensures Consistent(v, items, lines) ==> Consistent(r, items, lines)
  {
    if v.cur > items - 2 then v
    else
      var last := LastListItem(v, lines);
      var cur := if v.cur == last then Min(v.cur + lines, LastItem(items)) else Min(last, LastItem(items));
      Recompute(View(cur, v.first), items, lines)
  }

  /** `goto_home`: the cursor and the window go to the first record. */
  function GotoHome(v: View, items: nat, lines: PosInt): (r: View)
    ensures items == 0 ==> r == v
    ensures items > 0 ==> r == View(0, 0)
    ensures Consistent(v, items, lines) ==> Consistent(r, items, lines)
  {
    Recompute(if items > 0 then View(0, v.first) else v, items, lines)
  }

  /** `goto_end`: the cursor goes to the last record and the window follows it. */
  function GotoEnd(v: View, items: nat, lines: PosInt): (r: View)
    ensures items == 0 ==> r == v
    ensures items > 0 ==> r.cur == LastItem(items) && InWindow(r, lines)
    ensures Consistent(v, items, lines) ==> Consistent(r, items, lines)
  {
    Recompute(if items > 0 then View(LastItem(items), v.first) else v, items, lines)
  }

  /** The cursor moves reachable from the keyboard. */
  datatype Move = LineUp | LineDown | PgUp | PgDown | Home | End

  function Apply(m: Move, v: View, items: nat, lines: PosInt): (r: View)
  {
    match m
    case LineUp => ScrollUp(v, items, lines)
    case LineDown => ScrollDown(v, items, lines)
    case PgUp => PageUp(v, items, lines)
    case PgDown => PageDown(v, items, lines)
    case Home => GotoHome(v, items, lines)
    case End => GotoEnd(v, items, lines)
  }

  /** The moves applied one after the other, first move first. */
  function Run(ms: seq<Move>, v: View, items: nat, lines: PosInt): (r: View)
    decreases |ms|
  {
    if ms == [] then v else Run(ms[1..], Apply(ms[0], v, items, lines), items, lines)
  }

  /** No sequence of moves breaks the window invariants. */
  lemma {:induction false} RunKeepsConsistent(ms: seq<Move>, v: View, items: nat, lines: PosInt)
    requires Consistent(v, items, lines)
    ensures Consistent(Run(ms, v, items, lines), items, lines)
    decreases |ms|
  {
    if ms != [] {
      var w := Apply(ms[0], v, items, lines);
      RunKeepsConsistent(ms[1..], w, items, lines);
    }
  }

  /** Outside the boundary rows, `scroll_up` undoes `scroll_down`. */
  lemma ScrollDownThenUp(v: View, items: nat, lines: PosInt)
    requires Consistent(v, items, lines) && v.cur <= items - 2
    ensures ScrollUp(ScrollDown(v, items, lines), items, lines).cur == v.cur
  {
  }

  /**
   * A page down followed by a page up lands at most one row below where it
   * started.
   */
  lemma PageDownThenUp(v: View, items: nat, lines: PosInt)
    requires Consistent(v, items, lines)
    ensures PageUp(PageDown(v, items, lines), items, lines).cur <= v.cur + 1
  {
  }

  /** The one row below is reached: 20 records, 5 lines, cursor on the last visible row. */
  lemma PageDownThenUpOvershoots()
    ensures Consistent(View(4, 0), 20, 5)
    ensures PageDown(View(4, 0), 20, 5) == View(9, 5)
    ensures PageUp(View(9, 5), 20, 5) == View(5, 5)
  {
  }

  /**
   * 10 records, 5 lines: seven `scroll_down`s from the top show rows 3..7
   * with the cursor on 7, and a `page_up` then goes to row 3.
   */
  lemma ScrollScenario()
    ensures Run([LineDown, LineDown, LineDown, LineDown, LineDown, LineDown, LineDown],
                View(0, 0), 10, 5) == View(7, 3)
    ensures PageUp(View(7, 3), 10, 5) == View(3, 3)
  {
  }

  /** On an empty list no move changes anything. */
  lemma EmptyListMovesAreNoOps(m: Move, v: View, lines: PosInt)
    requires Consistent(v, 0, lines)
    ensures Apply(m, v, 0, lines) == v
  {
  }
}
