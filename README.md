# abook contact list: cursor, window and selection

This project models the list view of abook, a terminal address book. The view
shows the contact records in a window that is `LIST_LINES` rows high. It keeps:

- a cursor (`curitem`, -1 when there is no record under it);
- the first visible row (`first_list_item`);
- one selection flag per record (`selected`).

Keyboard commands move the cursor by a line or a page, jump to the first or
last record, select or deselect records, move the record under the cursor
up or down, and duplicate it. After each command the window is re-derived so
that the cursor stays visible, and the visible rows are drawn.

Layout:

- `window.dfy`, module `Window`. The viewport as a value `View(cur, first)`.
  It holds the window recompute of `refresh_list` and one pure step function
  per cursor command. It also holds the invariant `Consistent` and the lemmas
  on sequences of moves. `LAST_ITEM` is `items - 1` and `LAST_LIST_ITEM` is
  `first_list_item + LIST_LINES - 1`; the header that defines these two macros
  is not part of this model.
- `selection.dfy`, module `Selection`. The selection flags as a sequence, the
  count of set flags and the inverted sequence, with their lemmas.
- `extra_field.dfy`, module `ExtraField`. How the extra column option is
  resolved to a field id.
- `contact_list.dfy`, module `ContactList`. The class `ListView`. Its mutable
  fields are `curitem`, `firstListItem`, `records` (the record table) and
  `selected` (an `array<bool>`). `listLines` is a constant. Each command is a
  method that updates these fields in place. Each navigation method's
  postcondition equates the new `View` with the matching `Window` function of
  the old one.

The selection commands require `selected.Length == |records|`, and `RenderRows` ties the `*` marker to the flags under the same condition.
The C code indexes `selected` up to `items`, and the owner of the table
reallocates the buffer whenever the count changes; that resize happens outside
`list.c`.

Two properties of the code are worth knowing:

- A page down followed by a page up can end one row below the starting row.
  Take 20 records, 5 lines, and the cursor on row 4 with the window at 0.
  Page down goes to 9 and the window to 5. Page up then goes to 5.
  `Window.PageDownThenUpOvershoots` shows this case, and `Window.PageDownThenUp`
  proves that one row is the most it can overshoot.
- The re-derived first row is not the smallest window start that holds the
  cursor. It is the one nearest the old first row (`Window.RecomputeScrollsLeast`).

## Model

| member | source | states |
|---|---|---|
| `Window.Recompute` | list.c:85-100 | An empty list leaves cursor and window alone. Otherwise the cursor is raised to at least 0 and then lies in the window `0 <= first <= cur <= first + LIST_LINES - 1`. The window moves only when the clamped cursor was outside it, and a cursor already on a record never moves. |
| `Window.RecomputeScrollsLeast` | list.c:97-100 | No other window that holds the cursor starts closer to the old first row: the window never scrolls further than needed. |
| `Window.RecomputeIdempotent` | list.c:91-100 | Re-deriving the window twice gives the same result as once. |
| `Window.ScrollUp` | list.c:177-186 | A cursor below 1 changes nothing. Otherwise the cursor goes up exactly one row and the window holds it. The invariant is kept. |
| `Window.ScrollDown` | list.c:188-197 | A cursor above `items - 2` changes nothing. Otherwise the cursor goes down exactly one row and the window holds it. The invariant is kept. |
| `Window.PageUp` | list.c:200-210 | A cursor below 1 changes nothing. A cursor on the first visible row goes to `max(cur - LIST_LINES, 0)`, any other cursor to the first visible row. From a valid window the new cursor is in `[0, old cur)` and the window holds it. |
| `Window.PageDown` | list.c:212-223 | A cursor above `items - 2` changes nothing. A cursor on `LAST_LIST_ITEM` goes to `min(cur + LIST_LINES, items - 1)`, any other cursor to `min(LAST_LIST_ITEM, items - 1)`. From a valid window the new cursor is in `(old cur, items - 1]` and the window holds it. |
| `Window.GotoHome` | list.c:272-279 | On a non-empty list, cursor and window both go to 0. On an empty list nothing changes. |
| `Window.GotoEnd` | list.c:281-288 | On a non-empty list the cursor goes to `items - 1` and the window holds it. On an empty list nothing changes. |
| `Window.RunKeepsConsistent` | list.c:177-288 | Any sequence of line, page, home and end moves keeps the invariant: no cursor on an empty list, otherwise a cursor on a record inside the window. |
| `Window.ScrollDownThenUp` | list.c:177-197 | Away from the last record, a scroll down followed by a scroll up returns the cursor to where it was. |
| `Window.PageDownThenUp` | list.c:200-223 | A page down followed by a page up ends at most one row below the starting cursor. |
| `Window.PageDownThenUpOvershoots` | list.c:200-223 | With 20 records, 5 lines and cursor 4 in window 0, page down gives cursor 9 in window 5, and page up then gives 5, past the start. |
| `Window.ScrollScenario` | list.c:188-210 | With 10 records and 5 lines, seven scroll downs from the top give cursor 7 in window 3. A page up there moves the cursor to 3. |
| `Window.EmptyListMovesAreNoOps` | list.c:177-288 | On an empty list every cursor move leaves cursor and window unchanged. |
| `Selection.CountTrue` | list.c:317-327 | The number of selected records never exceeds the number of records. |
| `Selection.CountAllSet` | list.c:231-235 | The count equals the number of records exactly when every flag is set. |
| `Selection.CountNoneSet` | list.c:225-229 | The count is zero exactly when no flag is set. |
| `Selection.CountInverted` | list.c:329-339 | Inverting the flags turns a count of `k` into `items - k`. |
| `Selection.InvertedInvolutive` | list.c:329-339 | Inverting twice restores every flag. |
| `Selection.SelectionScenario` | list.c:317-339 | With three records all selected the count is 3, and after inverting it is 0. |
| `ExtraField.InitExtraField` | list.c:37-53 | The result is -1 exactly when the option is unset or empty, names `"name"` or `"email"`, or names no known field. Otherwise it is the id of the named field. |
| `ContactList.Swap` | list.c:245-263 | The two records trade places and every other record stays put. The table keeps its length and its multiset of records. |
| `ContactList.SwapBack` | list.c:248-265 | Swapping the same pair again restores the table, so a move up undone by a move down leaves the records as they were. |
| `ContactList.ListView.constructor` | list.c:24-26 | A new view starts with cursor -1 and first row -1 over the given table and selection buffer. |
| `ContactList.ListView.CurrentItem` | list.c:341-345 | On a consistent view, the result is -1 exactly when the list is empty, and otherwise a valid record index. |
| `ContactList.ListView.IsEmpty` | list.c:347-351 | True exactly when the table has no records. |
| `ContactList.ListView.Refresh` | list.c:76-106 | The new cursor and window are `Window.Recompute` of the old ones for the current record count. Records and selection are untouched. |
| `ContactList.ListView.RenderRows` | list.c:102-129 | Line `k` draws record `first + k`, for at most `LIST_LINES` lines and never past the last record. A line is highlighted only when it shows the cursor. When the cursor is in the window and on a record, exactly that one line is highlighted. With one flag per record, a line gets the `*` marker exactly when its record is selected. |
| `ContactList.ListView.ScrollUp` | list.c:177-186 | The new view is `Window.ScrollUp` of the old one. The invariant is kept. |
| `ContactList.ListView.ScrollDown` | list.c:188-197 | The new view is `Window.ScrollDown` of the old one. The invariant is kept. |
| `ContactList.ListView.PageUp` | list.c:200-210 | The new view is `Window.PageUp` of the old one. The invariant is kept. |
| `ContactList.ListView.PageDown` | list.c:212-223 | The new view is `Window.PageDown` of the old one. The invariant is kept. |
| `ContactList.ListView.GotoHome` | list.c:272-279 | The new view is `Window.GotoHome` of the old one. The invariant is kept. |
| `ContactList.ListView.GotoEnd` | list.c:281-288 | The new view is `Window.GotoEnd` of the old one. The invariant is kept. |
| `ContactList.ListView.SelectNone` | list.c:225-229 | Every flag is cleared, and the selected count is 0. |
| `ContactList.ListView.SelectAll` | list.c:231-235 | Every flag is set, and the selected count equals the number of records. |
| `ContactList.ListView.InvertSelection` | list.c:329-339 | Every flag is flipped, and a count of `k` becomes `items - k`. An empty list is left alone. |
| `ContactList.ListView.SelectedItems` | list.c:317-327 | Returns the number of set flags, which lies between 0 and the number of records. |
| `ContactList.ListView.MoveCurItem` | list.c:237-270 | With no record under the cursor, or at the first record going up, or at the last going down, nothing changes. Otherwise the record trades places with its neighbour and nothing else in the table changes. The view becomes `Window.ScrollUp` or `Window.ScrollDown` of the old one, so the cursor is on the moved record. The record count, the selection flags and the invariant are kept. |
| `ContactList.ListView.DuplicateItem` | list.c:353-373 | Returns 1 exactly when there is no record under the cursor or the append fails, and then nothing changes. Otherwise it returns 0. The table gains one record at the end, a copy of the one under the cursor, and every earlier record stays put. The cursor is on the new last record, the window is re-derived, and the invariant holds. |

## Left out

- Terminal drawing is left out: the ncurses calls, `init_list`, `close_list`, `highlight_line`, `list_headerline`, the cursor positioning at the end of `refresh_list` (list.c:108-113) and `ui_print_number_of_items`. They are screen side effects with no state of the view in them.
- The content of a row in `print_list_line` is left out: name, e-mail and extra-field lookup, and truncation to display width. These are calls into the database and into multibyte-width code that is not part of this model. Only the `*` marker is kept, as the `marked` part of each row drawn by `RenderRows`.
- `item_create`, `item_copy`, `item_duplicate` and `item_free` are left out. Records are immutable values, so the temporary copy in `move_curitem` is just a local value.
- `add_item2database` is not part of this model. Its outcome is the input `appendFails`, and on success it appends one record. Growing the selection buffer to the new count is left to the table's owner, as for every other change of the count.
- `find_field_number` is not part of this model. It is the map `fieldIds` from field key to id, and a key not in the map gives -1. `opt_get_str` is not modelled either: the option's value is the parameter `option`.
- `init_list` is left out: storing the two resolved ids in `extra_column` and `extra_alternative` only feeds the row content above.
- C `int` arithmetic is not modelled: integers are unbounded, so `curitem + LIST_LINES` cannot wrap around. Record counts and window heights in abook stay far below the 32-bit limit.
- `move_curitem` takes a C `int` direction. A value other than `MOVE_ITEM_UP` and `MOVE_ITEM_DOWN` does nothing in the source and cannot be written in the model, whose `Direction` has only the two cases.
- Window.ScrollDown: the exact new cursor is stated only for a cursor from -1 up. Below -1, only what `Window.Recompute` gives is stated.
- ContactList.ListView.RenderRows: a record past the end of the selection buffer is drawn unmarked. The C code would read past the buffer there. That happens only between an append and the owner's resize of the buffer.
