/** The navigation state of the column browser: a stack of open directories, one
    column each, with a selection cursor and a scroll offset per column. */
module Navigator {
  import opened Entries

  /** One open directory column: its path, the listing captured when the column
      was opened, the highlighted row and the first visible row. */
  datatype Level = Level(path: Path, entries: seq<Entry>, selected: nat, offset: nat)

  /** Index 0 is the home directory; the last level is the deepest open column. */
  type Stack = seq<Level>

  /** The directory listing service, left abstract. */
  type Lister = Path -> seq<Entry>

  function Top(s: Stack): Level
    requires |s| > 0
  {
    s[|s| - 1]
  }

  /** `s` with its top level replaced by `l`. */
  function WithTop(s: Stack, l: Level): (r: Stack)
    requires |s| > 0
    ensures |r| == |s| && Top(r) == l && r[..|s| - 1] == s[..|s| - 1]
  {
    s[..|s| - 1] + [l]
  }

  /** A freshly opened column: the listing of `p`, cursor on the first row, no scroll. */
  function Opened(p: Path, readDir: Lister): Level
  {
    Level(p, readDir(p), 0, 0)
  }

  /** The cursor of `l` points at an entry (or at 0 when there is none) and lies
      inside the window of `v` rows that starts at the scroll offset. */
  predicate CursorOk(l: Level, v: nat)
  {
    && l.offset <= l.selected < l.offset + v
    && (l.selected < |l.entries| || l.selected == 0)
  }

  /** The navigator invariant for a viewport of `v` rows: at least the root level is
      open and every column's cursor is in range and visible. */
  predicate Valid(s: Stack, v: nat)
  {
    |s| > 0 && forall i :: 0 <= i < |s| ==> CursorOk(s[i], v)
  }

  /** Startup: exactly one column, the home directory, cursor on its first row. */
  function New(home: Path, readDir: Lister): (r: Stack)
    ensures |r| == 1
    ensures Top(r).path == home && Top(r).entries == readDir(home)
    ensures Top(r).selected == 0 && Top(r).offset == 0
    ensures forall v :: v >= 1 ==> Valid(r, v)
  {
    [Opened(home, readDir)]
  }

  /** Descending is possible when the cursor of the top column is on an entry that
      is a directory. */
  predicate CanDescend(s: Stack)
    requires |s| > 0
  {
    Top(s).selected < |Top(s).entries| && Top(s).entries[Top(s).selected].isDir
  }

  /** Open the selected directory as a new column to the right. */
  function NavigateInto(s: Stack, readDir: Lister): (r: Stack)
    requires |s| > 0
    ensures |r| == |s| + 1 <==> CanDescend(s)
    ensures !CanDescend(s) ==> r == s
    ensures CanDescend(s) ==>
              && r[..|s|] == s
              && var e := Top(s).entries[Top(s).selected];
                 Top(r) == Opened(e.path, readDir)
    ensures forall v :: v >= 1 && Valid(s, v) ==> Valid(r, v)
  {
    var l := Top(s);
    if l.selected < |l.entries| then
      var e := l.entries[l.selected];
      if e.isDir then s + [Opened(e.path, readDir)] else s
    else s
  }

  /** Close the deepest column, unless it is the root. */
  function NavigateBack(s: Stack): (r: Stack)
    requires |s| > 0
    ensures |r| >= 1
    ensures |s| == 1 ==> r == s
    ensures |s| > 1 ==> |r| == |s| - 1 && forall i :: 0 <= i < |r| ==> r[i] == s[i]
    ensures forall v :: Valid(s, v) ==> Valid(r, v)
  {
    if |s| > 1 then s[..|s| - 1] else s
  }

  /** Move the cursor of the top column one row down, scrolling by one row when
      the cursor would leave a window of `h - 2` rows (the terminal height minus
      the two border rows).  The guard is the intended "not on the last entry",
      which makes an empty listing a no-op; see `ScrollDownChecked` for the
      unsigned arithmetic as written. */
  function ScrollDown(s: Stack, h: nat): (r: Stack)
    requires |s| > 0
    ensures |r| == |s| && r[..|s| - 1] == s[..|s| - 1]
    ensures Top(r).path == Top(s).path && Top(r).entries == Top(s).entries
    ensures Top(s).selected + 1 < |Top(s).entries| ==>
              Top(r).selected == Top(s).selected + 1
    ensures Top(s).selected + 1 >= |Top(s).entries| ==> r == s
    ensures Top(s).offset <= Top(r).offset <= Top(s).offset + 1
    ensures Top(s).selected + 1 < |Top(s).entries| ==>
              (Top(r).offset == Top(s).offset + 1 <==> Top(r).selected >= Top(s).offset + h - 2)
    ensures Top(s).selected < |Top(s).entries| ==> Top(r).selected < |Top(r).entries|
    ensures h >= 3 && CursorOk(Top(s), h - 2) ==> CursorOk(Top(r), h - 2)
    ensures h >= 3 && Valid(s, h - 2) ==> Valid(r, h - 2)
  {
    var l := Top(s);
    if l.selected + 1 < |l.entries| then
      var sel := l.selected + 1;
      var off := if sel >= l.offset + h - 2 then l.offset + 1 else l.offset;
      WithTop(s, l.(selected := sel, offset := off))
    else s
  }

  /** `scroll_down` as written, with its `usize` subtractions checked: the bound
      `entries.len() - 1` panics on an empty listing, and `offset + h - 2`
      panics when the cursor moves and `offset + h < 2`. */
  function ScrollDownChecked(s: Stack, h: nat): (r: Exec<Stack>)
    requires |s| > 0
    ensures r.Panic? <==>
              || |Top(s).entries| == 0
              || (Top(s).selected + 1 < |Top(s).entries| && Top(s).offset + h < 2)
    ensures r.Ok? ==> r.value == ScrollDown(s, h)
  {
    var l := Top(s);
    if |l.entries| == 0 then Panic
    else if l.selected < |l.entries| - 1 then
      var sel := l.selected + 1;
      if l.offset + h < 2 then Panic
      else
        var off := if sel >= l.offset + h - 2 then l.offset + 1 else l.offset;
        Ok(WithTop(s, l.(selected := sel, offset := off)))
    else Ok(s)
  }

  /** Pressing "down" in an empty directory: the code as written panics at the
      bound `entries.len() - 1`, where the intended behaviour leaves the stack
      as it is. */
  lemma EmptyListingScrollDown(p: Path, h: nat)
    ensures ScrollDownChecked([Level(p, [], 0, 0)], h) == Panic
    ensures ScrollDown([Level(p, [], 0, 0)], h) == [Level(p, [], 0, 0)]
  {
  }

  /** Move the cursor of the top column one row up, scrolling back by one row when
      the cursor would leave the window above. */
  function ScrollUp(s: Stack): (r: Stack)
    requires |s| > 0
    ensures |r| == |s| && r[..|s| - 1] == s[..|s| - 1]
    ensures Top(r).path == Top(s).path && Top(r).entries == Top(s).entries
    ensures Top(s).selected == 0 ==> r == s
    ensures Top(s).selected > 0 ==>
              && Top(r).selected == Top(s).selected - 1
              && (Top(r).offset == Top(s).offset - 1 <==> Top(r).selected < Top(s).offset)
              && (Top(r).offset == Top(s).offset <==> Top(r).selected >= Top(s).offset)
    ensures forall v :: CursorOk(Top(s), v) ==> CursorOk(Top(r), v)
    ensures forall v :: Valid(s, v) ==> Valid(r, v)
  {
    var l := Top(s);
    if l.selected > 0 then
      var sel := l.selected - 1;
      var off := if sel < l.offset then l.offset - 1 else l.offset;
      WithTop(s, l.(selected := sel, offset := off))
    else s
  }

  /** After the terminal shrinks, a cursor left below the window of `v` rows stays
      below it however often it moves down: selection and offset then grow
      together, so the gap between them never closes. */
  lemma ScrollDownKeepsCursorBelow(s: Stack, v: nat)
    requires |s| > 0 && v >= 1
    requires Top(s).selected >= Top(s).offset + v
    ensures Top(ScrollDown(s, v + 2)).selected >= Top(ScrollDown(s, v + 2)).offset + v
    ensures Top(s).selected + 1 < |Top(s).entries| ==>
              Top(ScrollDown(s, v + 2)).selected - Top(ScrollDown(s, v + 2)).offset
              == Top(s).selected - Top(s).offset
  {
  }

  /** Descending and then going back restores the stack exactly, including the
      parent's cursor and scroll offset; when nothing was pushed, the round trip
      is just a step back. */
  lemma IntoThenBack(s: Stack, readDir: Lister)
    requires |s| > 0
    ensures CanDescend(s) ==> NavigateBack(NavigateInto(s, readDir)) == s
    ensures !CanDescend(s) ==> NavigateBack(NavigateInto(s, readDir)) == NavigateBack(s)
  {
  }

  /** `k` presses of "back". */
  function BackTimes(s: Stack, k: nat): (r: Stack)
    requires |s| > 0
    ensures |r| >= 1
    decreases k
  {
    if k == 0 then s else BackTimes(NavigateBack(s), k - 1)
  }

  /** Going back any number of times never closes the root: it closes the top
      `k` columns, or all but the root when there are fewer, and leaves the
      columns below them untouched. */
  lemma {:induction false} BackTimesKeepsRoot(s: Stack, k: nat)
    requires |s| > 0
    ensures |BackTimes(s, k)| == if k < |s| then |s| - k else 1
    ensures BackTimes(s, k) == s[..|BackTimes(s, k)|]
    decreases k
  {
    if k > 0 {
      var b := NavigateBack(s);
      BackTimesKeepsRoot(b, k - 1);
      assert b == s[..|b|];
    }
  }
}
