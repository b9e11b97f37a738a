# Column browser navigation, modelled in Dafny

This project models the core of a Miller-columns terminal file browser. Each directory
the user opens becomes a new column to the right. The state is a stack of levels, one
per open column. A level holds the directory path, the listing captured when the
column was opened, the selected row and the scroll offset.

Modules:

- `Entries` (`entries.dfy`): directory entries (`name`, `path`, `isDir`).
  It also holds the `Option` and `Exec` (value or panic) result types and the step
  that drops unreadable entries from a listing.
- `Navigator` (`navigator.dfy`): the level stack and its four transitions.
  Descending opens the selected directory. Going back closes the top column but
  never the root. Moving down and up changes the cursor and nudges the scroll
  offset by at most one row.
- `Layout` (`layout.dfy`): the per-frame policies. The width is split into equal
  integer percentages, one per column. Each column shows a window of `h - 2` rows
  (terminal height minus the border) starting at its scroll offset, with a `>`
  marker on the selected row.
- `Input` (`input.dfy`): the key dispatch table, one loop step, and a run over a
  sequence of key presses.

The directory listing service is a parameter `readDir: Path -> seq<Entry>`. It
stands for `Entries.KeepOk` applied to the raw listing of the path, whose individual
entries may fail to read. `KeepOk` is also stated on its own. The
terminal height `h` is a parameter too. The invariant `Valid(s, v)` says the stack
is non-empty and, in every column, `offset <= selected < offset + v` and
`selected < |entries|` (or `selected == 0` when the column is empty). It is proved
to be preserved by every transition and by any sequence of key presses, for a fixed
viewport `v = h - 2 >= 1`.

## Model

| member | source | states |
|---|---|---|
| `Entries.KeepOk` | src/main.rs:34-36 | Only successfully read entries are kept. An entry is in the result exactly when it was read successfully. When every entry read succeeds, the listing is kept whole and in order. A one-element listing gives its entry or nothing. |
| `Entries.KeepOkAppend` | src/main.rs:35 | Filtering a concatenation is the concatenation of the filtered parts. With the one-element cases, this fixes the result as the successful reads in listing order, duplicates included. |
| `Navigator.New` | src/main.rs:25-32 | The navigator starts with exactly one column, the home directory with its listing, cursor on row 0 and no scroll. This start state satisfies the invariant for every viewport of at least one row. |
| `Navigator.NavigateInto` | src/main.rs:38-48 | The stack grows by one exactly when the selected index is in range and names a directory. The pushed level is that entry's path, its listing, cursor 0 and offset 0, and the levels below are unchanged. Otherwise the stack is unchanged. The invariant is preserved. |
| `Navigator.NavigateBack` | src/main.rs:50-54 | The stack never becomes empty. At depth 1 nothing changes. Deeper, exactly the last level is removed and every lower level is unchanged. The invariant is preserved. |
| `Navigator.IntoThenBack` | src/main.rs:38-54 | Descending and then going back restores the stack exactly, including the parent's cursor and offset. When no push happened, the pair acts as a single step back. |
| `Navigator.BackTimesKeepsRoot` | src/main.rs:50-54 | Any number `k` of back presses leaves `max(1, depth - k)` levels. Those levels are the untouched bottom of the original stack. |
| `Navigator.ScrollDown` | src/main.rs:56-66 | Below the last entry, the cursor moves down by exactly one. On the last entry, or in an empty column, nothing changes. The offset grows by at most one, and it grows exactly when the new cursor reaches `offset + h - 2`. The cursor stays in range. Only the top column's cursor fields change. With `h >= 3`, the window invariant for `h - 2` rows is preserved. |
| `Navigator.ScrollDownChecked` | src/main.rs:56-66 | The code as written, with checked `usize` subtraction. It panics exactly when the listing is empty, or when the cursor moves while `offset + h < 2`. Whenever it does not panic, it agrees with `ScrollDown`. |
| `Navigator.EmptyListingScrollDown` | src/main.rs:58 | Pressing down in an empty directory panics in the code as written. The corrected `ScrollDown` leaves the stack as it is. |
| `Navigator.ScrollDownKeepsCursorBelow` | src/main.rs:56-66 | After the terminal shrinks, a cursor below the window of `v` rows stays below it on every move down. When the cursor moves, the gap between cursor and offset is unchanged. |
| `Navigator.ScrollUp` | src/main.rs:68-77 | At row 0 nothing changes. Otherwise the cursor moves up by exactly one. The offset drops by one exactly when the new cursor lies above the old offset. Nothing underflows. Only the top column's cursor fields change. The window invariant is preserved for every viewport. |
| `Layout.AsU16` | src/main.rs:97 | The `as u16` cast wraps modulo 2^16. The result is below 2^16 and differs from the argument by a multiple of 2^16, so it is unchanged below 2^16. |
| `Layout.ColumnPercent` | src/main.rs:97 | For 1 to 100 columns, each column gets at least 1 percent and together they take at most 100. From 101 to 65535 columns, each gets 0 percent. |
| `Layout.ColumnPercentages` | src/main.rs:94-98 | One constraint per open column, all with the same percentage. |
| `Layout.ColumnsFit` | src/main.rs:94-98 | The column percentages sum to `100 - 100 % n`, which is at most 100. Less than one percent per column is left unclaimed. |
| `Layout.VisibleRows` | src/main.rs:107-114 | The rendered rows are the slice `entries[offset .. min(len, offset + h - 2)]`, or none when the offset is past the end. Relative row `j` shows entry `offset + j` and carries `>` exactly when `j + offset == selected`, otherwise a blank. |
| `Layout.OneMarker` | src/main.rs:114 | A column shows at most one marker. It shows exactly one when `offset <= selected < min(len, offset + v)`. |
| `Layout.ValidShowsCursor` | src/main.rs:107-114 | Under the navigator invariant, every non-empty column shows exactly one marker. |
| `Input.Dispatch` | src/main.rs:145-153 | `q` quits. Right or `l` descends. Left or `h` goes back. Down or `j` moves down. Up or `k` moves up. Every other key is ignored. Each case holds in both directions. |
| `Input.Step` | src/main.rs:145-153 | A key press ends the loop exactly on quit. Right or `l` runs `NavigateInto`, Left or `h` runs `NavigateBack`, Down or `j` runs `ScrollDown` with the current height, and Up or `k` runs `ScrollUp`. Ignored keys leave the stack unchanged. Cursor moves change only the top column. The stack stays non-empty, and the invariant is preserved for `h >= 3`. |
| `Input.StepChecked` | src/main.rs:145-153 | One key press with the scroll arithmetic as written. It panics exactly when Down or `j` reaches a panicking `ScrollDownChecked`. For heights of at least 2, that means Down or `j` over an empty top column. Otherwise it agrees with `Step`. |
| `Input.Run` | src/main.rs:89-157 | No keys leave the stack as it is, and one key is one `Step`. Over any sequence of key presses, the loop ends exactly when some key is `q`. Otherwise the stack stays non-empty and the window invariant holds throughout. |
| `Input.RunAppend` | src/main.rs:89-157 | Running two key sequences one after the other runs the first and then, unless it quit, the second from the stack the first left. With the empty and one-key cases of `Run`, this fixes the loop as `Step` applied to each key in order. |
| `Input.ExampleSession` | src/main.rs:38-77 | The home listing is `Documents`, `Photo.png`, `src`, with `h = 4`. Two moves down give `selected = 2, offset = 1`. Descending into `src` pushes a fresh level. Going back restores the home column. Moving up at row 0 and going back at the root change nothing. |

## Findings

| source | as written | input that shows it | evidently intended | confidence | as-written member | corrected member |
|---|---|---|---|---|---|---|
| src/main.rs:58 | `*selected < entries.len() - 1` subtracts from a `usize` length | A column whose directory is empty, then the Down or `j` key | Moving down in an empty column does nothing | high; not executed | `Navigator.ScrollDownChecked`, `Navigator.EmptyListingScrollDown` | `Navigator.ScrollDown` |

A debug build panics at this subtraction. A release build wraps it to `usize::MAX`, which moves the cursor to row 1 of a column with no rows. The corrected guard is `selected + 1 < |entries|`. It equals the written one for every non-empty listing. Below a height of 2, the corrected function also departs from the release build at line 60; see the `Navigator.ScrollDown` line under "## Left out". `Input.Step` and `Input.Run` use it. `Input.StepChecked` keeps the panic of the loop as written.

## Left out

- Terminal setup and teardown (raw mode, alternate screen, cursor restore): terminal I/O with no logic.
- Actual drawing (the layout constraint solver, paragraphs, borders, colours, the column title from `file_name()`): a foreign rendering library. Only the percentage list and the visible rows are modelled.
- Event polling with its 200 ms timeout: I/O and timing. Keys are an abstract datatype given to `Input.Step`.
- Home directory lookup (`dirs::home_dir`) and its failure: `Navigator.New` receives the home path as a parameter.
- Filesystem calls (`fs::read_dir`, `DirEntry::path`, `is_dir`, `to_string_lossy`): replaced by the `readDir` parameter and the `isDir` field of an entry.
- Read failure: the code unwraps the listing result, so a directory that cannot be listed panics. The model does not invent an empty listing for that case, and `readDir` is a total function.
- `usize` overflow of `selected + 1` and `offset + 1`: the model uses unbounded naturals. Both values stay below the listing length, so the overflow cannot occur.
- Terminal resize between frames: the invariant is proved for a fixed height. After the terminal shrinks, the cursor can stay below the window for many moves. Moving down never brings it back, because cursor and offset then grow together (`Navigator.ScrollDownKeepsCursorBelow`). Moving up keeps the offset until the cursor passes above it.
- Heights below 2: the draw step computes `h - 2` as `usize`. A debug build panics there. A release build wraps it to a huge count, so `take` shows every entry from the offset on. `Layout.VisibleRows` requires `h >= 2` and models neither.
- Navigator.ScrollDown: computes `offset + h - 2` as an unbounded integer. When the cursor moves while `offset + h < 2` (a terminal under 2 rows high), that value is negative, so the model grows the offset. At this point in the code as written, a debug build panics (`Navigator.ScrollDownChecked`). A release build wraps the sum to nearly `usize::MAX` and keeps the offset. The model follows neither build there. For heights of at least 2, `ScrollDown` differs from the code only on an empty listing.
- Input.Step: Down or `j` uses the corrected `ScrollDown`, so an empty top column is a no-op where the code as written panics in a debug build. `Input.StepChecked` models that panic. On terminals under 2 rows high, it also inherits the offset behaviour of the `Navigator.ScrollDown` line above.
- Input.Run: it runs the corrected loop. The loop as written also stops, with a debug panic, at the first Down or `j` over an empty top column. Run's claim that the loop ends exactly on `q` holds only for the corrected loop. On terminals under 2 rows high, it also inherits the offset behaviour of the `Navigator.ScrollDown` line above.
- Layout.ColumnPercent: requires the `u16` cast of the column count to be non-zero. When the level count is a multiple of 65536, the code divides by zero and panics, and the model does not represent that panic. The stack cannot get that deep in practice.
- Layout.ColumnsFit: proved only for fewer than 65536 columns. Beyond that, `len as u16` truncates, and the stack can never get that deep in practice.
