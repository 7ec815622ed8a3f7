/** Showing a fetched completion after the cursor (src/utils/completer.py). */
module Completer {
  import opened Packets
  import opened Terminal

  /** The six writes of one completion display, in order: save the cursor,
      clear the rest of the line, hide the cursor, print the coloured text,
      restore the cursor, show it again. */
  function RenderSequence(p: CompletionPacket): seq<Op>
  {
    [SaveCursor, ClearLine, HideCursor, Styled(p.shade, p.content), RestoreCursor, ShowCursor]
  }

  /** Rendering a completion ends with the cursor visible, whatever it was. */
  lemma RenderShowsCursor(visible: bool, before: seq<Op>, p: CompletionPacket)
    ensures VisibleAfter(visible, before + RenderSequence(p))
  {
    EndsShown(visible, before + RenderSequence(p), |before| + 5);
  }

  /** `complete(s, buffer)`: writes nothing when the buffer has grown past
      the length stamped on the packet, and the full display otherwise. */
  method Complete(s: CompletionPacket, buffer: seq<char>) returns (written: seq<Op>)
    ensures written == [] <==> |buffer| > s.bufferLength
    ensures written != [] ==> written == RenderSequence(s)
    ensures forall i | 0 <= i < |written| && written[i] == HideCursor ::
              exists j | i < j < |written| :: written[j] == ShowCursor
  {
    if |buffer| > s.bufferLength {
      return [];
    }
    written := [SaveCursor];
    written := written + [ClearLine];
    written := written + [HideCursor];
    written := written + [Styled(s.shade, s.content)];
    written := written + [RestoreCursor];
    written := written + [ShowCursor];
    assert written[5] == ShowCursor;
  }
}
