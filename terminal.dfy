/** Standard output as an ordered trace of writes. Each escape sequence or
    piece of text the editor sends to the terminal is one `Op`; the bytes
    themselves and their effect on the screen are not interpreted. */
module Terminal {

  datatype Op =
    | Text(s: string)                    // plain characters printed at the cursor
    | BackDelete                         // ESC [ D then ESC [ P: step back one cell and delete it
    | ClearLine                          // ESC [ K: erase from the cursor to the end of the line
    | SaveCursor                         // ESC [ s
    | RestoreCursor                      // ESC [ u
    | HideCursor                         // ESC [ ? 25 l
    | ShowCursor                         // ESC [ ? 25 h
    | Styled(shade: string, s: string)   // completion text in a colour
    | MoveBack(n: int)                   // ESC [ n D
    | QueryCursor                        // ESC [ 6 n, the device status report request

  /** Python's `" " * n`: `n` spaces, none when `n` is not positive. */
  function Spaces(n: int): (r: string)
    ensures |r| == if n > 0 then n else 0
    ensures forall i | 0 <= i < |r| :: r[i] == ' '
    decreases n
  {
    if n <= 0 then [] else Spaces(n - 1) + [' ']
  }

  /** Whether the cursor is visible after `ops`, given that it was `visible`
      before them: the last hide or show decides. */
  function VisibleAfter(visible: bool, ops: seq<Op>): bool
  {
    if ops == [] then visible
    else match ops[|ops| - 1]
      case HideCursor => false
      case ShowCursor => true
      case _ => VisibleAfter(visible, ops[..|ops| - 1])
  }

  /** The cursor is visible at the end of a trace that started with it visible. */
  predicate CursorShown(ops: seq<Op>)
  {
    VisibleAfter(true, ops)
  }

  /** Visibility after two traces is visibility after the second, starting
      from visibility after the first. */
  lemma {:induction false} VisibleAfterConcat(visible: bool, a: seq<Op>, b: seq<Op>)
    ensures VisibleAfter(visible, a + b) == VisibleAfter(VisibleAfter(visible, a), b)
    decreases |b|
  {
    if b != [] {
      var ab := a + b;
      assert ab[..|ab| - 1] == a + b[..|b| - 1];
      assert ab[|ab| - 1] == b[|b| - 1];
      VisibleAfterConcat(visible, a, b[..|b| - 1]);
    } else {
      assert a + b == a;
    }
  }

  /** A trace that neither hides nor shows leaves visibility as it was. */
  lemma {:induction false} VisibleAfterNeutral(visible: bool, ops: seq<Op>)
    requires forall i | 0 <= i < |ops| :: ops[i] != HideCursor && ops[i] != ShowCursor
    ensures VisibleAfter(visible, ops) == visible
    decreases |ops|
  {
    if ops != [] {
      VisibleAfterNeutral(visible, ops[..|ops| - 1]);
    }
  }

  /** A trace whose last hide-or-show is a show ends with the cursor visible,
      whatever came before it. */
  lemma {:induction false} EndsShown(visible: bool, ops: seq<Op>, k: nat)
    requires k < |ops| && ops[k] == ShowCursor
    requires forall i | k < i < |ops| :: ops[i] != HideCursor && ops[i] != ShowCursor
    ensures VisibleAfter(visible, ops)
  {
    assert ops == ops[..k + 1] + ops[k + 1..];
    VisibleAfterConcat(visible, ops[..k + 1], ops[k + 1..]);
    VisibleAfterNeutral(VisibleAfter(visible, ops[..k + 1]), ops[k + 1..]);
  }

  /** Appending writes that neither hide nor show keeps visibility. */
  lemma AppendNeutral(visible: bool, ops: seq<Op>, extra: seq<Op>)
    requires forall i | 0 <= i < |extra| :: extra[i] != HideCursor && extra[i] != ShowCursor
    ensures VisibleAfter(visible, ops + extra) == VisibleAfter(visible, ops)
  {
    VisibleAfterConcat(visible, ops, extra);
    VisibleAfterNeutral(VisibleAfter(visible, ops), extra);
  }
}
