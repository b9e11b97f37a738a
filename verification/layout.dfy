/** What each frame shows: the split of the terminal width between the open
    columns, and the rows of each column that fit its height. */
module Layout {
  import opened Navigator

  /** `x as u16` keeps the value modulo 2^16. */
  const U16_MODULUS: nat := 0x1_0000

  function AsU16(x: nat): (r: nat)
    ensures r < U16_MODULUS
    ensures x < U16_MODULUS ==> r == x
    ensures exists q: nat :: x == q * U16_MODULUS + r
  {
    var r := x % U16_MODULUS;
    assert x == (x / U16_MODULUS) * U16_MODULUS + r;
    r
  }

  /** The width share, in percent, that each of `n` columns receives: 100 divided
      by the column count cast to `u16`, rounding down.  The cast must not
      truncate to zero, or the division panics. */
  function ColumnPercent(n: nat): (p: nat)
    requires AsU16(n) != 0
    ensures 1 <= n <= 100 ==> 1 <= p && n * p <= 100
    ensures 100 < n < U16_MODULUS ==> p == 0
  {
    100 / AsU16(n)
  }

  /** One percentage constraint per open column, all equal. */
  function ColumnPercentages(n: nat): (r: seq<nat>)
    requires AsU16(n) != 0
    ensures |r| == n
    ensures forall i :: 0 <= i < n ==> r[i] == ColumnPercent(n)
  {
    seq(n, _ => ColumnPercent(n))
  }

  function Sum(xs: seq<nat>): nat
  {
    if |xs| == 0 then 0 else xs[0] + Sum(xs[1..])
  }

  lemma {:induction false} SumConstant(xs: seq<nat>, p: nat)
    requires forall i :: 0 <= i < |xs| ==> xs[i] == p
    ensures Sum(xs) == |xs| * p
  {
    if |xs| > 0 {
      SumConstant(xs[1..], p);
    }
  }

  /** The columns never ask for more than the full width, and the width they
      leave unclaimed is the remainder of the division, less than one percent
      per column. */
  lemma ColumnsFit(n: nat)
    requires 1 <= n < U16_MODULUS
    ensures Sum(ColumnPercentages(n)) <= 100
    ensures Sum(ColumnPercentages(n)) == 100 - 100 % n
    ensures 100 - Sum(ColumnPercentages(n)) < n
  {
    SumConstant(ColumnPercentages(n), ColumnPercent(n));
    assert ColumnPercent(n) == 100 / n;
    assert n * (100 / n) + 100 % n == 100;
  }

  /** One rendered row: the cursor indicator ('>' on the selected entry, ' '
      elsewhere) followed by the entry's file name. */
  datatype Row = Row(indicator: char, name: string)

  predicate Marked(row: Row)
  {
    row.indicator == '>'
  }

  /** The rows a column displays below its title: skip `offset` entries, take at
      most `h - 2` of them, and mark the one whose index is `selected`. */
  method VisibleRows(l: Level, h: nat) returns (rows: seq<Row>)
    requires h >= 2
    ensures |rows| == if l.offset < |l.entries| then Min(|l.entries|, l.offset + h - 2) - l.offset else 0
    ensures forall j :: 0 <= j < |rows| ==> rows[j].name == l.entries[l.offset + j].name
    ensures forall j :: 0 <= j < |rows| ==> (Marked(rows[j]) <==> j + l.offset == l.selected)
    ensures forall j :: 0 <= j < |rows| ==> rows[j].indicator in {'>', ' '}
    ensures rows == Window(l, h - 2)
  {
    rows := [];
    var j := 0;
    var it := if l.offset < |l.entries| then l.entries[l.offset..] else [];
    while j < |it| && j < h - 2
      invariant 0 <= j <= |it|
      invariant j <= h - 2
      invariant |rows| == j
      invariant forall k :: 0 <= k < j ==> rows[k] == RowAt(l, k)
    {
      var indicator := if j + l.offset == l.selected then '>' else ' ';
      rows := rows + [Row(indicator, it[j].name)];
      j := j + 1;
    }
  }

  function Min(a: nat, b: nat): nat
  {
    if a <= b then a else b
  }

  /** Number of rows of a window of `v` rows starting at the scroll offset. */
  function WindowLength(l: Level, v: nat): nat
  {
    if l.offset < |l.entries| then Min(|l.entries|, l.offset + v) - l.offset else 0
  }

  function RowAt(l: Level, j: nat): Row
    requires l.offset + j < |l.entries|
  {
    Row(if j + l.offset == l.selected then '>' else ' ', l.entries[l.offset + j].name)
  }

  /** Reference definition of a column's visible rows for a window of `v` rows:
      the slice `entries[offset .. min(|entries|, offset + v)]`, one row per entry. */
  function Window(l: Level, v: nat): seq<Row>
  {
    seq(WindowLength(l, v), j requires 0 <= j < WindowLength(l, v) => RowAt(l, j))
  }

  function CountMarked(rows: seq<Row>): nat
  {
    if |rows| == 0 then 0 else (if Marked(rows[0]) then 1 else 0) + CountMarked(rows[1..])
  }

  /** Rows marked exactly at position `k` (if at all) hold one marker when `k` is a
      row and none otherwise. */
  lemma {:induction false} CountMarkedAt(rows: seq<Row>, k: int)
    requires forall j :: 0 <= j < |rows| ==> (Marked(rows[j]) <==> j == k)
    ensures CountMarked(rows) == if 0 <= k < |rows| then 1 else 0
  {
    if |rows| > 0 {
      forall j | 0 <= j < |rows| - 1
        ensures Marked(rows[1..][j]) <==> j == k - 1
      {
        assert rows[1..][j] == rows[j + 1];
      }
      CountMarkedAt(rows[1..], k - 1);
    }
  }

  /** A column shows at most one cursor marker, and exactly one when the
      selected entry lies inside the visible window. */
  lemma OneMarker(l: Level, v: nat)
    ensures CountMarked(Window(l, v)) <= 1
    ensures CountMarked(Window(l, v)) == 1 <==>
              l.offset <= l.selected < Min(|l.entries|, l.offset + v)
  {
    CountMarkedAt(Window(l, v), l.selected - l.offset);
  }

  /** Under the navigator invariant every column shows its cursor. */
  lemma ValidShowsCursor(s: Stack, v: nat, i: nat)
    requires Valid(s, v) && i < |s| && |s[i].entries| > 0
    ensures CountMarked(Window(s[i], v)) == 1
  {
    OneMarker(s[i], v);
  }
}
