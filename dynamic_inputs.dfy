/** The earlier line editor, `DynamicInput` in src/dynamic-inputs.py: the
    same handler table as the current one, a fixed debounce interval, and a
    Tab that accepts the cached completion without consuming it.

    As in `DynamicIO`, the completion thread is an atomic call made where the
    source starts it, the keyboard is a sequence of polls and standard
    output is the `out` trace. */
module DynamicInputs {
  import opened PyText
  import opened Packets
  import opened Terminal
  import opened Session
  import Completer

  class DynamicInput {
    /** The last fetched completion. */
    var completion: CompletionPacket
    /** Set once Enter is accepted; `input` never clears it again. */
    var exit: bool
    /** Set while a fetch is running. */
    var fetchInProgress: bool
    /** The characters typed so far. */
    var buffer: seq<char>
    /** Everything written to standard output, in order. */
    var out: seq<Op>

    /** The cursor is visible between operations. */
    ghost predicate Valid()
      reads this
    {
      CursorShown(out)
    }

    constructor ()
      ensures Valid()
      ensures completion == EmptyPacket && !exit && !fetchInProgress
      ensures buffer == [] && out == []
    {
      completion := EmptyPacket;
      exit := false;
      fetchInProgress := false;
      buffer := [];
      out := [];
    }

    /** `complete`: shows the packet after the cursor unless the buffer has
        grown past the length stamped on it. */
    method Complete(s: CompletionPacket)
      requires Valid()
      modifies this`out
      ensures Valid()
      ensures out == old(out) + (if |buffer| > s.bufferLength then [] else Completer.RenderSequence(s))
    {
      if |buffer| > s.bufferLength {
        return;
      }
      Completer.RenderShowsCursor(true, out, s);
      out := out + Completer.RenderSequence(s);
    }

    /** `_process_completion`: unless a fetch is already running, asks the
        callback for a completion of `snapshot`, stamps it with the
        snapshot's length, shows it unless the session is exiting, and
        clears the flag. */
    method ProcessCompletion(snapshot: seq<char>, shade: string, callTo: string -> string)
      requires Valid()
      modifies this`fetchInProgress, this`completion, this`out
      ensures Valid()
      ensures old(fetchInProgress) ==>
                fetchInProgress && completion == old(completion) && out == old(out)
      ensures !old(fetchInProgress) ==>
                && !fetchInProgress
                && completion == CompletionPacket(callTo(snapshot), shade, |snapshot|)
                && out == old(out) + (if exit || |buffer| > |snapshot| then []
                                      else Completer.RenderSequence(completion))
    {
      if fetchInProgress {
        return;
      }
      fetchInProgress := true;
      completion := CompletionPacket(callTo(snapshot), shade, |snapshot|);
      if !exit {
        Complete(completion);
      }
      fetchInProgress := false;
    }

    /** `_handle_enter`: refuses an empty line when empty input is not
        allowed; otherwise marks the session as exiting, clears the shown
        completion and prints `end`. */
    method HandleEnter(allowEmptyInput: bool, end: string) returns (r: Response)
      requires Valid()
      modifies this`exit, this`out
      ensures Valid()
      ensures !allowEmptyInput && buffer == [] ==> r == Continue && exit == old(exit) && out == old(out)
      ensures allowEmptyInput || buffer != [] ==> r == Exit && exit && out == old(out) + [ClearLine, Text(end)]
    {
      if !allowEmptyInput && buffer == [] {
        return Continue;
      }
      exit := true;
      AppendNeutral(true, out, [ClearLine, Text(end)]);
      out := out + [ClearLine, Text(end)];
      return Exit;
    }

    /** `_handle_backspace`: drops the last character and then steps back
        over it on screen, reporting True; on an empty buffer it does
        nothing and returns None. */
    method HandleBackspace() returns (r: Response)
      requires Valid()
      modifies this`buffer, this`out
      ensures Valid()
      ensures old(buffer) != [] ==>
                r == Bool(true) && buffer + [old(buffer)[|old(buffer)| - 1]] == old(buffer)
                && out == old(out) + [BackDelete]
      ensures old(buffer) == [] ==> r == NoneValue && buffer == [] && out == old(out)
    {
      if buffer != [] {
        buffer := buffer[..|buffer| - 1];
        AppendNeutral(true, out, [BackDelete]);
        out := out + [BackDelete];
        return Bool(true);
      }
      return NoneValue;
    }

    /** `_handle_tab`: prints and appends the cached completion, which stays
        cached, so a second Tab appends it again; with nothing cached it
        prints `indent` spaces. Always reports False. */
    method HandleTab(indent: int) returns (r: Response)
      requires Valid()
      modifies this`buffer, this`out
      ensures Valid()
      ensures r == Bool(false)
      ensures completion.content != [] ==>
                buffer == old(buffer) + completion.content && out == old(out) + [Text(completion.content)]
      ensures completion.content == [] ==>
                buffer == old(buffer) && out == old(out) + [Text(Spaces(indent))]
    {
      if completion.content != [] {
        AppendNeutral(true, out, [Text(completion.content)]);
        out := out + [Text(completion.content)];
        buffer := buffer + completion.content;
      } else {
        AppendNeutral(true, out, [Text(Spaces(indent))]);
        out := out + [Text(Spaces(indent))];
      }
      return Bool(false);
    }

    /** `_handle_regular`: appends and echoes the key, reporting True. */
    method HandleRegular(key: char) returns (r: Response)
      requires Valid()
      modifies this`buffer, this`out
      ensures Valid()
      ensures r == Bool(true) && buffer == old(buffer) + [key] && out == old(out) + [Text([key])]
    {
      buffer := buffer + [key];
      AppendNeutral(true, out, [Text([key])]);
      out := out + [Text([key])];
      return Bool(true);
    }

    /** The fetch test at the top of each pass of the input loop: when more
        than `timeBuffer` has passed since the last accepted key and a key
        has reported a change since the last fetch, a fetch for the buffer
        runs and `called` is reset; otherwise nothing happens. */
    method Tick(now: int, ts: int, called: bool, timeBuffer: int, shade: string,
                callTo: string -> string) returns (called': bool)
      requires Valid()
      modifies this`fetchInProgress, this`completion, this`out
      ensures Valid()
      ensures fetchInProgress == old(fetchInProgress)
      ensures called' == (called && !DebounceDue(now - ts, timeBuffer, called))
      ensures !DebounceDue(now - ts, timeBuffer, called) || old(fetchInProgress) ==>
                completion == old(completion) && out == old(out)
      ensures DebounceDue(now - ts, timeBuffer, called) && !old(fetchInProgress) ==>
                && completion == CompletionPacket(callTo(buffer), shade, |buffer|)
                && out == old(out) + (if exit then [] else Completer.RenderSequence(completion))
    {
      called' := called;
      if now - ts > timeBuffer && called {
        ProcessCompletion(buffer, shade, callTo);
        called' := false;
      }
    }

    /** The key part of one pass of the input loop: the handler for Tab,
        Enter or Backspace, or the regular-key handler. `called` becomes
        the handler's truthiness, and the key's clock reading `now` the
        time of the last accepted key, unless the handler answered CONTINUE
        or EXIT. */
    method KeyPass(k: char, now: int, ts: int, called: bool, allowEmptyInput: bool, end: string,
                   indent: int) returns (ts': int, called': bool, step: Step)
      requires Valid()
      modifies this`exit, this`buffer, this`out
      ensures Valid()
      ensures step == Finish <==> k == EnterKey && (allowEmptyInput || old(buffer) != [])
      ensures step == Skip <==> k == EnterKey && !allowEmptyInput && old(buffer) == []
      ensures ts' == if step == Next then now else ts
      ensures called' == if step != Next then called
                         else if k == TabKey then false
                         else if k == BackspaceKey then old(buffer) != []
                         else true
      ensures exit == (old(exit) || step == Finish)
      ensures k == EnterKey ==>
                buffer == old(buffer) && out == old(out) + (if step == Finish then [ClearLine, Text(end)] else [])
      ensures k == BackspaceKey && old(buffer) != [] ==>
                buffer + [old(buffer)[|old(buffer)| - 1]] == old(buffer) && out == old(out) + [BackDelete]
      ensures k == BackspaceKey && old(buffer) == [] ==> buffer == [] && out == old(out)
      ensures k == TabKey ==>
                if completion.content != [] then
                  buffer == old(buffer) + completion.content && out == old(out) + [Text(completion.content)]
                else
                  buffer == old(buffer) && out == old(out) + [Text(Spaces(indent))]
      ensures k != TabKey && k != EnterKey && k != BackspaceKey ==>
                buffer == old(buffer) + [k] && out == old(out) + [Text([k])]
    {
      ts', called', step := ts, called, Next;
      if k == TabKey || k == EnterKey || k == BackspaceKey {
        var response;
        if k == TabKey {
          response := HandleTab(indent);
        } else if k == EnterKey {
          response := HandleEnter(allowEmptyInput, end);
        } else {
          response := HandleBackspace();
        }
        if response == Exit {
          return ts', called', Finish;
        } else if response == Continue {
          return ts', called', Skip;
        }
        called' := response.Truthy();
      } else {
        var response := HandleRegular(k);
        called' := response.Truthy();
      }
      ts' := now;
    }

    /** `input`: empties the buffer, refuses a missing callback, prints the
        prompt and runs the key loop over `polls`, starting the clock at
        `start`. A fetch starts on a pass whose clock is more than
        `timeBuffer` past the last accepted key, when a key has reported a
        change since the last fetch. */
    method Input(prompt: Option<string>, callTo: Option<string -> string>, end: string,
                 allowEmptyInput: bool, shade: string, timeBuffer: int, indent: int,
                 start: int, polls: seq<Poll>) returns (r: InputResult)
      requires Valid()
      modifies this
      ensures Valid()
      ensures fetchInProgress == old(fetchInProgress)
      ensures r.Raised? <==> callTo.None?
      ensures r.Raised? ==> r.error == NoCallback && out == old(out) && buffer == []
      ensures r.Returned? ==> exit && r.text == buffer && (allowEmptyInput || r.text != [])
      ensures !r.Returned? ==> exit == old(exit)
    {
      var ts := start;
      var called := false;
      buffer := [];

      if callTo.None? {
        return Raised(NoCallback);
      }

      if prompt.Some? {
        AppendNeutral(true, out, [Text(prompt.value)]);
        out := out + [Text(prompt.value)];
      }

      var i := 0;
      while i < |polls|
        invariant 0 <= i <= |polls|
        invariant Valid() && exit == old(exit) && fetchInProgress == old(fetchInProgress)
      {
        var cts := polls[i].now;
        var key := polls[i].key;
        i := i + 1;

        called := Tick(cts, ts, called, timeBuffer, shade, callTo.value);

        if key.Some? {
          var step;
          ts, called, step := KeyPass(key.value, cts, ts, called, allowEmptyInput, end, indent);
          if step == Finish {
            return Returned(buffer);
          }
        }
      }
      return Waiting;
    }
  }

  /** Once a session has ended with Enter, `exit` stays set, so a second
      `input` on the same object never shows a fetched completion: its
      fetches write nothing. */
  method CompletionAfterExit(snapshot: seq<char>, callTo: string -> string, shade: string)
    returns (written: seq<Op>, fetched: CompletionPacket)
    ensures written == []
    ensures fetched == CompletionPacket(callTo(snapshot), shade, |snapshot|)
  {
    var session := new DynamicInput();
    var response := session.HandleEnter(true, "\n");
    var before := session.out;
    session.ProcessCompletion(snapshot, shade, callTo);
    written := session.out[|before|..];
    fetched := session.completion;
  }

  /** After a fetch, later passes with no key start no fetch, however long
      the pause: only a key can set `called` again. */
  method IdleAfterFetch(session: DynamicInput, ts: int, first: int, later: int, timeBuffer: int,
                        callTo: string -> string, shade: string)
    returns (called: bool, written: seq<Op>)
    requires session.Valid() && !session.fetchInProgress
    requires first - ts > timeBuffer
    modifies session
    ensures session.Valid()
    ensures !called
    ensures session.completion == CompletionPacket(callTo(old(session.buffer)), shade, |old(session.buffer)|)
    ensures written == []
  {
    called := session.Tick(first, ts, true, timeBuffer, shade, callTo);
    var out := session.out;
    called := session.Tick(later, ts, called, timeBuffer, shade, callTo);
    written := session.out[|out|..];
  }

  /** Two Tabs after one fetch append the completion twice. */
  method TabTwice(typed: seq<char>, content: string, shade: string)
    returns (text: seq<char>)
    requires content != []
    ensures text == typed + content + content
  {
    var session := new DynamicInput();
    session.buffer := typed;
    session.ProcessCompletion(typed, shade, (s: string) => content);
    var _ := session.HandleTab(4);
    var _ := session.HandleTab(4);
    text := session.buffer;
  }
}
