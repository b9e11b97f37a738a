/** The event loop's key handling: a fixed dispatch table from keys to navigator
    operations, one key per loop iteration. */
module Input {
  import opened Entries
  import opened Navigator

  /** The key codes the table distinguishes; every other key code is `OtherKey`. */
  datatype Key = Char(c: char) | Right | Left | Down | Up | OtherKey

  datatype Action = Quit | Descend | Ascend | MoveDown | MoveUp | Ignore

  /** The dispatch table: 'q' quits, Right/'l' descends, Left/'h' goes back,
      Down/'j' and Up/'k' move the cursor, anything else is ignored. */
  function Dispatch(k: Key): (a: Action)
    ensures a == Quit <==> k == Char('q')
    ensures a == Descend <==> k == Right || k == Char('l')
    ensures a == Ascend <==> k == Left || k == Char('h')
    ensures a == MoveDown <==> k == Down || k == Char('j')
    ensures a == MoveUp <==> k == Up || k == Char('k')
  {
    match k
    case Char('q') => Quit
    case Right | Char('l') => Descend
    case Left | Char('h') => Ascend
    case Down | Char('j') => MoveDown
    case Up | Char('k') => MoveUp
    case _ => Ignore
  }

  /** What one key press leaves behind: the loop ends, or it goes on with a stack. */
  datatype Outcome = Exit | Continue(stack: Stack)

  /** Handle one key press with terminal height `h`. */
  function Step(s: Stack, k: Key, h: nat, readDir: Lister): (r: Outcome)
    requires |s| > 0
    ensures r.Exit? <==> Dispatch(k) == Quit
    ensures r.Continue? ==> |r.stack| > 0
    ensures Dispatch(k) == Ignore ==> r == Continue(s)
    ensures Dispatch(k) == MoveDown || Dispatch(k) == MoveUp ==>
              r.Continue? && |r.stack| == |s| && r.stack[..|s| - 1] == s[..|s| - 1]
    ensures Dispatch(k) == Descend ==> r == Continue(NavigateInto(s, readDir))
    ensures Dispatch(k) == Ascend ==> r == Continue(NavigateBack(s))
    ensures Dispatch(k) == MoveDown ==> r == Continue(ScrollDown(s, h))
    ensures Dispatch(k) == MoveUp ==> r == Continue(ScrollUp(s))
    ensures h >= 3 && Valid(s, h - 2) && r.Continue? ==> Valid(r.stack, h - 2)
  {
    match Dispatch(k)
    case Quit => Exit
    case Descend => Continue(NavigateInto(s, readDir))
    case Ascend => Continue(NavigateBack(s))
    case MoveDown => Continue(ScrollDown(s, h))
    case MoveUp => Continue(ScrollUp(s))
    case Ignore => Continue(s)
  }

  /** One key press as written, with the unsigned arithmetic of `scroll_down`
      checked: it panics exactly where that operation does, which for a terminal
      at least two rows high means Down or 'j' over an empty top column, and
      otherwise agrees with `Step`. */
  function StepChecked(s: Stack, k: Key, h: nat, readDir: Lister): (r: Exec<Outcome>)
    requires |s| > 0
    ensures r.Panic? <==> Dispatch(k) == MoveDown && ScrollDownChecked(s, h).Panic?
    ensures h >= 2 ==> (r.Panic? <==> Dispatch(k) == MoveDown && |Top(s).entries| == 0)
    ensures r.Ok? ==> r.value == Step(s, k, h, readDir)
  {
    if Dispatch(k) == MoveDown then
      match ScrollDownChecked(s, h)
      case Panic => Panic
      case Ok(s') => Ok(Continue(s'))
    else Ok(Step(s, k, h, readDir))
  }

  /** Feed a sequence of key presses to the loop, stopping at the first quit. */
  function Run(s: Stack, keys: seq<Key>, h: nat, readDir: Lister): (r: Outcome)
    requires |s| > 0
    ensures r.Exit? <==> exists i :: 0 <= i < |keys| && Dispatch(keys[i]) == Quit
    ensures r.Continue? ==> |r.stack| > 0
    ensures |keys| == 0 ==> r == Continue(s)
    ensures |keys| == 1 ==> r == Step(s, keys[0], h, readDir)
    ensures h >= 3 && Valid(s, h - 2) && r.Continue? ==> Valid(r.stack, h - 2)
    decreases |keys|
  {
    if |keys| == 0 then Continue(s)
    else
      match Step(s, keys[0], h, readDir)
      case Exit => Exit
      case Continue(s') =>
        var r := Run(s', keys[1..], h, readDir);
        assert forall i :: 1 <= i < |keys| ==> keys[i] == keys[1..][i - 1];
        r
  }

  /** Running `a + b` runs `a` and then, unless `a` quit, runs `b` from where `a`
      left the stack.  With the empty and one-key cases of `Run` this fixes the
      loop as `Step` applied to each key in order. */
  lemma {:induction false} RunAppend(s: Stack, a: seq<Key>, b: seq<Key>, h: nat, readDir: Lister)
    requires |s| > 0
    ensures Run(s, a + b, h, readDir) ==
              match Run(s, a, h, readDir)
              case Exit => Exit
              case Continue(t) => Run(t, b, h, readDir)
    decreases |a|
  {
    if |a| == 0 {
      assert a + b == b;
    } else {
      assert (a + b)[1..] == a[1..] + b;
      match Step(s, a[0], h, readDir)
      case Exit =>
      case Continue(t) =>
        RunAppend(t, a[1..], b, h, readDir);
    }
  }

  /** An example session: a home directory listing `Documents`, `Photo.png` and
      `src` on a terminal four rows high.  Two presses of "down" select `src` and
      scroll by one row; descending into `src` opens it with its cursor on the
      first row; going back restores the home column exactly. */
  lemma ExampleSession(readDir: Lister)
    ensures
      var home := [Entry("Documents", "/home/u/Documents", true),
                   Entry("Photo.png", "/home/u/Photo.png", false),
                   Entry("src", "/home/u/src", true)];
      var s0 := [Level("/home/u", home, 0, 0)];
      var s2 := ScrollDown(ScrollDown(s0, 4), 4);
      && s2 == [Level("/home/u", home, 2, 1)]
      && NavigateInto(s2, readDir) == s2 + [Level("/home/u/src", readDir("/home/u/src"), 0, 0)]
      && NavigateBack(NavigateInto(s2, readDir)) == s2
      && ScrollUp(s0) == s0
      && NavigateBack(s0) == s0
  {
  }
}
