/** Directory entries and the small result types the browser model needs. */
module Entries {

  /** A filesystem path, kept abstract as its textual form. */
  type Path = string

  /** One row of a directory listing: the file name shown in a column, the full
      path used when descending into it, and whether that path is a directory. */
  datatype Entry = Entry(name: string, path: Path, isDir: bool)

  /** An entry that was read, or one whose read failed. */
  datatype Option<+T> = None | Some(value: T)

  /** The outcome of an operation whose unsigned arithmetic is checked, as in a
      debug build: either it finishes with a value or it panics. */
  datatype Exec<+T> = Ok(value: T) | Panic

  /** Reading a directory keeps only the entries that were read successfully, in
      listing order, and silently drops the ones that failed. */
  function KeepOk(raw: seq<Option<Entry>>): (r: seq<Entry>)
    ensures |r| <= |raw|
    ensures forall e :: e in r <==> Some(e) in raw
    ensures (forall i :: 0 <= i < |raw| ==> raw[i].Some?) ==>
              |r| == |raw| && forall i :: 0 <= i < |r| ==> r[i] == raw[i].value
    ensures |raw| == 1 ==> r == (if raw[0].Some? then [raw[0].value] else [])
  {
    if |raw| == 0 then []
    else if raw[0].Some? then [raw[0].value] + KeepOk(raw[1..])
    else KeepOk(raw[1..])
  }

  /** Filtering distributes over concatenation.  With the one-element cases of
      `KeepOk` this fixes the result completely: the successful reads, in listing
      order, duplicates included. */
  lemma {:induction false} KeepOkAppend(a: seq<Option<Entry>>, b: seq<Option<Entry>>)
    ensures KeepOk(a + b) == KeepOk(a) + KeepOk(b)
  {
    if |a| > 0 {
      assert (a + b)[1..] == a[1..] + b;
      KeepOkAppend(a[1..], b);
    } else {
      assert a + b == b;
    }
  }
}
