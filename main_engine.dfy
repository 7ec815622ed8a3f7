/** The first line editor, `DynamicInput` in src/main.py: the completion is
    a plain string with the buffer length and completion length of its
    fetch kept beside it, the keys are dispatched inline in the input loop,
    and Tab only prints the completion.

    The completion thread is an atomic call made where the source starts it,
    the keyboard is a sequence of polls and standard output is the `out`
    trace. The inline dispatch of one key is the method `HandleKey`. */
module MainEngine {
  import opened PyText
  import opened Terminal
  import opened Session

  /** The four writes of one completion display: save the cursor, clear the
      rest of the line, print the coloured text, restore the cursor. */
  function RenderPlain(s: string, shade: string): seq<Op>
  {
    [SaveCursor, ClearLine, Styled(shade, s), RestoreCursor]
  }

  /** The display neither hides nor shows the cursor. */
  lemma RenderPlainKeepsCursor(visible: bool, before: seq<Op>, s: string, shade: string)
    ensures VisibleAfter(visible, before + RenderPlain(s, shade)) == VisibleAfter(visible, before)
  {
    VisibleAfterConcat(visible, before, RenderPlain(s, shade));
    VisibleAfterNeutral(VisibleAfter(visible, before), RenderPlain(s, shade));
  }

  /** The typed text has run past the completion that was fetched for it:
      more characters were typed since the fetch than the completion has. */
  predicate Overtyped(bufferLength: int, bufferLen: int, completionLen: int)
  {
    bufferLength - bufferLen > completionLen
  }

  class DynamicInput {
    /** The last fetched completion. */
    var completion: string
    /** The length of the buffer the last fetch was made for. */
    var bufferLen: int
    /** The length of the last fetched completion. */
    var completionLen: int
    /** Set once Enter is accepted; `input` never clears it again. */
    var exit: bool
    /** Set while a fetch is running. */
    var fetchInProgress: bool
    /** Everything written to standard output, in order. */
    var out: seq<Op>

    /** The cursor is visible between operations, and the cached lengths
        are those of a real fetch. */
    ghost predicate Valid()
      reads this
    {
      CursorShown(out) && bufferLen >= 0 && completionLen >= 0
    }

    constructor ()
      ensures Valid()
      ensures completion == [] && bufferLen == 0 && completionLen == 0
      ensures !exit && !fetchInProgress && out == []
    {
      completion := [];
      bufferLen := 0;
      completionLen := 0;
      exit := false;
      fetchInProgress := false;
      out := [];
    }

    /** `complete`: shows `s` after the cursor in `shade`. */
    method Complete(s: string, shade: string)
      requires Valid()
      modifies this`out
      ensures Valid()
      ensures out == old(out) + RenderPlain(s, shade)
    {
      RenderPlainKeepsCursor(true, out, s, shade);
      out := out + RenderPlain(s, shade);
    }

    /** `_process_completion`: unless a fetch is already running, records
        the buffer length, asks the callback for a completion and records
        its length, and shows it unless the session is exiting. */
    method ProcessCompletion(buffer: seq<char>, shade: string, callTo: string -> string)
      requires Valid()
      modifies this`fetchInProgress, this`bufferLen, this`completion, this`completionLen, this`out
      ensures Valid()
      ensures old(fetchInProgress) ==>
                && fetchInProgress && out == old(out) && completion == old(completion)
                && bufferLen == old(bufferLen) && completionLen == old(completionLen)
      ensures !old(fetchInProgress) ==>
                && !fetchInProgress
                && bufferLen == |buffer| && completion == callTo(buffer) && completionLen == |completion|
                && out == old(out) + (if exit then [] else RenderPlain(completion, shade))
    {
      if fetchInProgress {
        return;
      }
      fetchInProgress := true;
      bufferLen := |buffer|;
      completion := callTo(buffer);
      completionLen := |completion|;
      if !exit {
        Complete(completion, shade);
      }
      fetchInProgress := false;
    }

    /** The body of the input loop for one key, which the source writes
        inline: Backspace drops the last character if there is one; Enter
        either is refused (an empty line where empty input is not allowed:
        `called` is reset and the rest of the pass skipped) or ends the
        session; Tab prints the completion, leaving the buffer alone, or
        `indent` spaces; any other key is appended and echoed, and clears
        the completion once the text has run past it. Every key first sets
        `called`. The key's clock reading `now` becomes the time of the last
        accepted key unless the pass was skipped or ended the loop. */
    method HandleKey(key: char, now: int, ts: int, buffer: seq<char>, allowEmptyInput: bool,
                     end: string, indent: int)
      returns (buffer': seq<char>, called: bool, ts': int, step: Step)
      requires Valid()
      modifies this`exit, this`completion, this`out
      ensures Valid()
      ensures step == Finish <==> key == EnterKey && (allowEmptyInput || buffer != [])
      ensures step == Skip <==> key == EnterKey && !allowEmptyInput && buffer == []
      ensures ts' == if step == Next then now else ts
      ensures exit == (old(exit) || step == Finish)
      ensures called == !(step == Skip || (key == TabKey && old(completion) != []))
      ensures key == BackspaceKey ==>
                && completion == old(completion)
                && (buffer != [] ==> buffer' + [buffer[|buffer| - 1]] == buffer && out == old(out) + [BackDelete])
                && (buffer == [] ==> buffer' == [] && out == old(out))
      ensures key == EnterKey ==>
                buffer' == buffer && completion == old(completion)
                && out == old(out) + (if step == Finish then [ClearLine, Text(end)] else [])
      ensures key == TabKey ==>
                buffer' == buffer && completion == old(completion)
                && out == old(out) + [Text(if completion != [] then completion else Spaces(indent))]
      ensures key != BackspaceKey && key != EnterKey && key != TabKey ==>
                && buffer' == buffer + [key]
                && out == old(out) + [Text([key])]
                && completion == (if Overtyped(|buffer'|, bufferLen, completionLen) then [] else old(completion))
    {
      called := true;
      buffer' := buffer;
      ts' := ts;
      step := Next;
      if key == BackspaceKey {
        if buffer != [] {
          buffer' := buffer[..|buffer| - 1];
          AppendNeutral(true, out, [BackDelete]);
          out := out + [BackDelete];
        }
      } else if key == EnterKey {
        if !allowEmptyInput && buffer == [] {
          called := false;
          return buffer', called, ts', Skip;
        }
        exit := true;
        AppendNeutral(true, out, [ClearLine, Text(end)]);
        out := out + [ClearLine, Text(end)];
        return buffer', called, ts', Finish;
      } else if key == TabKey {
        if completion != [] {
          AppendNeutral(true, out, [Text(completion)]);
          out := out + [Text(completion)];
          called := false;
        } else {
          AppendNeutral(true, out, [Text(Spaces(indent))]);
          out := out + [Text(Spaces(indent))];
        }
      } else {
        buffer' := buffer + [key];
        AppendNeutral(true, out, [Text([key])]);
        out := out + [Text([key])];
        if Overtyped(|buffer'|, bufferLen, completionLen) {
          completion := [];
        }
      }
      ts' := now;
    }

    /** The fetch test at the top of each pass of the input loop: when more
        than `timeBuffer` has passed since the last accepted key and a key
        has arrived since the last fetch, a fetch for `buffer` runs and
        `called` is reset; otherwise nothing happens. */
    method Tick(now: int, ts: int, called: bool, timeBuffer: int, buffer: seq<char>, shade: string,
                callTo: string -> string) returns (called': bool)
      requires Valid()
      modifies this`fetchInProgress, this`bufferLen, this`completion, this`completionLen, this`out
      ensures Valid()
      ensures fetchInProgress == old(fetchInProgress)
      ensures called' == (called && !DebounceDue(now - ts, timeBuffer, called))
      ensures !DebounceDue(now - ts, timeBuffer, called) || old(fetchInProgress) ==>
                && bufferLen == old(bufferLen) && completion == old(completion)
                && completionLen == old(completionLen) && out == old(out)
      ensures DebounceDue(now - ts, timeBuffer, called) && !old(fetchInProgress) ==>
                && bufferLen == |buffer| && completion == callTo(buffer) && completionLen == |completion|
                && out == old(out) + (if exit then [] else RenderPlain(completion, shade))
    {
      called' := called;
      if now - ts > timeBuffer && called {
        ProcessCompletion(buffer, shade, callTo);
        called' := false;
      }
    }

    /** `input`: refuses a missing callback, prints the prompt and runs the
        key loop over `polls`, starting the clock at `start`. A fetch starts
        on a pass whose clock is more than `timeBuffer` past the last
        accepted key, when a key has arrived since the last fetch. The
        result is what was typed: a completion accepted with Tab is shown
        but is not part of it. */
    method Input(prompt: Option<string>, callTo: Option<string -> string>, end: string,
                 allowEmptyInput: bool, shade: string, timeBuffer: int, indent: int,
                 start: int, polls: seq<Poll>) returns (r: InputResult)
      requires Valid()
      modifies this
      ensures Valid()
      ensures fetchInProgress == old(fetchInProgress)
      ensures r.Raised? <==> callTo.None?
      ensures r.Raised? ==> r.error == NoCallback && out == old(out)
      ensures r.Returned? ==> exit && (allowEmptyInput || r.text != [])
      ensures !r.Returned? ==> exit == old(exit)
    {
      var ts := start;
      var called := false;
      var buffer: seq<char> := [];

      if callTo.None? {
        return Raised(NoCallback);
      }

      if prompt.Some? {
        AppendNeutral(true, out, [Text(prompt.value)]);
        out := out + [Text(prompt.value)];
      }

      var i := 0;
      while i < |polls|
        invariant 0 <= i <= |polls|
        invariant Valid() && exit == old(exit) && fetchInProgress == old(fetchInProgress)
      {
        var cts := polls[i].now;
        var key := polls[i].key;
        i := i + 1;

        called := Tick(cts, ts, called, timeBuffer, buffer, shade, callTo.value);

        if key.Some? {
          var step;
          buffer, called, ts, step := HandleKey(key.value, cts, ts, buffer, allowEmptyInput, end, indent);
          if step == Finish {
            return Returned(buffer);
          }
        }
      }
      return Waiting;
    }
  }

  /** Tab after a fetch shows the completion but leaves the text that
      `input` returns as it was typed. */
  method TabLeavesBuffer(typed: seq<char>, content: string, shade: string)
    returns (shown: seq<Op>, text: seq<char>)
    requires content != []
    ensures shown == [Text(content)]
    ensures text == typed
  {
    var session := new DynamicInput();
    session.ProcessCompletion(typed, shade, (s: string) => content);
    var before := session.out;
    var called, ts, step;
    text, called, ts, step := session.HandleKey(TabKey, 0, 0, typed, true, "\n", 4);
    shown := session.out[|before|..];
  }
}
