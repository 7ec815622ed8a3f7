/** The current line editor, `DynamicInput` in src/dynamicio.py.

    Background threads are modelled as atomic calls made at the point where
    the source starts them; the keyboard is a sequence of polls; standard
    output is the `out` trace of `Terminal.Op`s. */
module DynamicIO {
  import opened PyText
  import opened Packets
  import opened Terminal
  import opened Session
  import Completer

  // ---------------------------------------------------------------------------
  // The debounce test

  type Positive = n: int | n > 0 witness 1

  /** The adaptive interval `time_buffer`, kept exactly as the quotient
      `total / count`: it starts at 0 and becomes the mean key delay. */
  datatype Interval = Interval(total: int, count: Positive)

  function Sum(xs: seq<int>): int
  {
    if xs == [] then 0 else Sum(xs[..|xs| - 1]) + xs[|xs| - 1]
  }

  /** `sum(delay_buffer) / len(delay_buffer)`. */
  function Mean(delays: seq<int>): Interval
    requires delays != []
  {
    Interval(Sum(delays), |delays|)
  }

  /** `difference > time_buffer`, without dividing. */
  predicate Exceeds(elapsed: int, interval: Interval)
  {
    elapsed * interval.count > interval.total
  }

  /** The integer test is exactly "the elapsed time is above the quotient". */
  lemma ExceedsIsAboveQuotient(elapsed: int, interval: Interval)
    ensures Exceeds(elapsed, interval) <==> elapsed as real > interval.total as real / interval.count as real
  {
    var c := interval.count as real;
    var q := interval.total as real / c;
    assert q * c == interval.total as real;
    assert (elapsed * interval.count) as real == elapsed as real * c;
    if elapsed as real > q {
      assert elapsed as real * c > q * c;
    }
    if elapsed as real <= q {
      assert elapsed as real * c <= q * c;
    }
  }

  /** The inactivity test at the top of each pass of the input loop: more
      than five key delays recorded, a key has reported a change since the
      last fetch, a callback is set, inactivity triggering is on, and the
      time since the last accepted key exceeds the interval. */
  predicate InactivityFetchDue(recorded: nat, called: bool, hasCallback: bool,
                               inactivityTrigger: bool, elapsed: int, interval: Interval)
  {
    recorded > 5 && called && hasCallback && inactivityTrigger && Exceeds(elapsed, interval)
  }

  /** The loop state of `input` that decides when a fetch starts: the time
      `ts` of the last accepted key, the `called` flag, the recorded key
      delays and the current interval. */
  datatype Debounce = Debounce(ts: int, called: bool, delays: seq<int>, interval: Interval)

  /** The inactivity test of `input` on the pass whose clock reads `now`. */
  predicate FetchDue(now: int, d: Debounce, hasCallback: bool, inactivityTrigger: bool)
  {
    InactivityFetchDue(|d.delays|, d.called, hasCallback, inactivityTrigger, now - d.ts, d.interval)
  }

  /** The bind key takes its own branch when it is the key read and either
      autocompletion is on with a callback, or it is off with none. */
  predicate BindBranch(k: char, configBind: Option<string>, autocomplete: bool, hasCallback: bool)
  {
    configBind == Some([k]) && ((autocomplete && hasCallback) || (!autocomplete && !hasCallback))
  }

  // ---------------------------------------------------------------------------
  // The cursor position report

  /** What `get_cursor_position` yields: the parsed row and column, the
      `ValueError` that `int` or the two-name unpacking raises, or no reply
      (the source keeps reading forever). */
  datatype CursorPosition = Position(row: int, col: int) | Malformed | NoReply

  const ReportIntro: set<char> := {'\U{1b}', '['}

  /** `response.lstrip("\033[")`, then `map(int, response[:-1].split(";"))`
      unpacked into exactly two values. */
  function ParseCursorReport(response: string): CursorPosition
  {
    var pieces := Split(DropLast(LStrip(response, ReportIntro)), ';');
    if |pieces| != 2 then Malformed
    else match (ParseInt(pieces[0]), ParseInt(pieces[1]))
      case (Some(row), Some(col)) => Position(row, col)
      case _ => Malformed
  }

  /** The terminal's reply to a device status report: ESC [ row ; col R
      (Cursor Position Report, section 8.3.14 of ECMA-48). */
  function CursorReport(row: nat, col: nat): string
  {
    ['\U{1b}', '['] + Decimal(row) + [';'] + Decimal(col) + ['R']
  }

  /** Leading characters from the strip set vanish up to the first other one. */
  lemma {:induction false} LStripPrefix(p: string, q: string, chars: set<char>)
    requires forall i | 0 <= i < |p| :: p[i] in chars
    requires q != [] && q[0] !in chars
    ensures LStrip(p + q, chars) == q
  {
    if p != [] {
      assert (p + q)[1..] == p[1..] + q;
      LStripPrefix(p[1..], q, chars);
    } else {
      assert p + q == q;
    }
  }

  /** Any run of ESC and '[' before the text is stripped, up to the first
      other character. */
  lemma LStripIntroducer(junk: string, tail: string)
    requires forall i | 0 <= i < |junk| :: junk[i] in ReportIntro
    requires tail != [] && tail[0] !in ReportIntro
    ensures LStrip(junk + ['\U{1b}', '['] + tail, ReportIntro) == tail
  {
    var intro := junk + ['\U{1b}', '['];
    forall i | 0 <= i < |intro| ensures intro[i] in ReportIntro {
      if i < |junk| {
        assert intro[i] == junk[i];
      }
    }
    LStripPrefix(intro, tail, ReportIntro);
  }

  /** A report with any run of ESC and '[' before it parses to the values
      of its two digit runs. */
  lemma ParseDigitReport(junk: string, a: string, b: string)
    requires forall i | 0 <= i < |junk| :: junk[i] in ReportIntro
    requires a != [] && AllDigits(a) && b != [] && AllDigits(b)
    ensures ParseCursorReport(junk + ['\U{1b}', '['] + (Join([a, b], ';') + ['R']))
            == Position(DigitsValue(a), DigitsValue(b))
  {
    var pieces := [a, b];
    var body := Join(pieces, ';');
    JoinPair(a, b, ';');
    var tail := body + ['R'];
    assert tail[0] == a[0] && IsDigit(a[0]);
    LStripIntroducer(junk, tail);
    assert DropLast(tail) == body;
    AllDigitsExclude(a, ';');
    AllDigitsExclude(b, ';');
    SplitJoin(pieces, ';');
    ParseIntDigits(a);
    ParseIntDigits(b);
  }

  /** A report parses to its row and column, whatever run of ESC and '['
      characters precedes it: `lstrip` removes characters, not a prefix. */
  lemma ParseCursorReportRoundTrip(junk: string, row: nat, col: nat)
    requires forall i | 0 <= i < |junk| :: junk[i] in ReportIntro
    ensures ParseCursorReport(junk + CursorReport(row, col)) == Position(row, col)
  {
    var a, b := Decimal(row), Decimal(col);
    JoinPair(a, b, ';');
    assert junk + CursorReport(row, col) == junk + ['\U{1b}', '['] + (Join([a, b], ';') + ['R']);
    ParseDigitReport(junk, a, b);
    DecimalValue(row);
    DecimalValue(col);
  }

  /** The prefix of `s` up to and including the first `c`, or all of `s`
      when it has no `c`. */
  function ThroughFirst(s: string, c: char): string
  {
    if s == [] then []
    else if s[0] == c then [c]
    else [s[0]] + ThroughFirst(s[1..], c)
  }

  /** `ThroughFirst` is the only prefix that ends at a first `c`. */
  lemma {:induction false} ThroughFirstUnique(s: string, c: char, r: string)
    requires r <= s && r != [] && r[|r| - 1] == c && c !in DropLast(r)
    ensures r == ThroughFirst(s, c)
  {
    if |r| == 1 {
      assert s[0] == c;
    } else {
      assert r[0] in DropLast(r);
      assert r[1..] <= s[1..];
      assert DropLast(r[1..]) == DropLast(r)[1..];
      ThroughFirstUnique(s[1..], c, r[1..]);
    }
  }

  /** The read loop of `get_cursor_position`: characters are appended to the
      response until one of them is 'R'. `complete` is false when the stream
      ends first, where the source would go on reading. */
  method ReadReport(stream: string) returns (response: string, complete: bool)
    ensures complete <==> 'R' in stream
    ensures response <= stream
    ensures complete ==> response != [] && response[|response| - 1] == 'R' && 'R' !in DropLast(response)
    ensures !complete ==> response == stream
  {
    response := [];
    var i := 0;
    while i < |stream|
      invariant 0 <= i <= |stream|
      invariant response == stream[..i]
      invariant 'R' !in response
    {
      var ch := stream[i];
      response := response + [ch];
      i := i + 1;
      if ch == 'R' {
        assert DropLast(response) == stream[..i - 1];
        return response, true;
      }
    }
    assert response == stream;
    complete := false;
  }

  // ---------------------------------------------------------------------------
  // The session

  class DynamicInput {
    /** The last fetched completion. */
    var completion: CompletionPacket
    /** Set once Enter is accepted. */
    var exit: bool
    /** Set while a fetch is running. */
    var fetchInProgress: bool
    /** The characters typed so far. */
    var buffer: seq<char>
    /** Everything written to standard output, in order. */
    var out: seq<Op>
    /** The texts the callback received when started for its side effects only. */
    var rawCalls: seq<string>

    /** The cursor is visible between operations. */
    ghost predicate Valid()
      reads this
    {
      CursorShown(out)
    }

    constructor ()
      ensures Valid()
      ensures completion == EmptyPacket && !exit && !fetchInProgress
      ensures buffer == [] && out == [] && rawCalls == []
    {
      completion := EmptyPacket;
      exit := false;
      fetchInProgress := false;
      buffer := [];
      out := [];
      rawCalls := [];
    }

    /** `_process_completion`: unless a fetch is already running, asks the
        callback for a completion of `snapshot`, stamps it with the snapshot's
        length, shows it unless the session is exiting, and clears the flag. */
    method ProcessCompletion(snapshot: seq<char>, shade: string, callTo: string -> string)
      requires Valid()
      modifies this`fetchInProgress, this`completion, this`out
      ensures Valid()
      ensures old(fetchInProgress) ==>
                fetchInProgress && completion == old(completion) && out == old(out)
      ensures !old(fetchInProgress) ==>
                && !fetchInProgress
                && completion == CompletionPacket(callTo(snapshot), shade, |snapshot|)
                && out == old(out) + (if exit || |buffer| > |snapshot| then []
                                      else Completer.RenderSequence(completion))
    {
      if fetchInProgress {
        return;
      }
      fetchInProgress := true;
      completion := CompletionPacket(callTo(snapshot), shade, |snapshot|);
      if !exit {
        var written := Completer.Complete(completion, buffer);
        if written != [] {
          Completer.RenderShowsCursor(true, out, completion);
        } else {
          assert out + written == out;
        }
        out := out + written;
      }
      fetchInProgress := false;
    }

    /** `_handle_enter`: refuses an empty line when empty input is not
        allowed; otherwise marks the session as exiting, clears the shown
        completion and prints `end`. */
    method HandleEnter(allowEmptyInput: bool, end: string) returns (r: Response)
      requires Valid()
      modifies this`exit, this`out
      ensures Valid()
      ensures !allowEmptyInput && buffer == [] ==> r == Continue && exit == old(exit) && out == old(out)
      ensures allowEmptyInput || buffer != [] ==> r == Exit && exit && out == old(out) + [ClearLine, Text(end)]
    {
      if !allowEmptyInput && buffer == [] {
        return Continue;
      }
      exit := true;
      AppendNeutral(true, out, [ClearLine, Text(end)]);
      out := out + [ClearLine, Text(end)];
      return Exit;
    }

    /** `_handle_backspace`: deletes the last character if there is one and
        reports True; on an empty buffer it does nothing and returns None. */
    method HandleBackspace() returns (r: Response)
      requires Valid()
      modifies this`buffer, this`out
      ensures Valid()
      ensures old(buffer) != [] ==>
                r == Bool(true) && buffer + [old(buffer)[|old(buffer)| - 1]] == old(buffer)
                && out == old(out) + [BackDelete]
      ensures old(buffer) == [] ==> r == NoneValue && buffer == [] && out == old(out)
    {
      if buffer != [] {
        AppendNeutral(true, out, [BackDelete]);
        out := out + [BackDelete];
        buffer := buffer[..|buffer| - 1];
        return Bool(true);
      }
      return NoneValue;
    }

    /** `_handle_tab`: accepts the cached completion, whatever its length
        stamp, and then empties it; with nothing cached it prints `indent`
        spaces and leaves the buffer alone. Always reports False. */
    method HandleTab(indent: int) returns (r: Response)
      requires Valid()
      modifies this`buffer, this`completion, this`out
      ensures Valid()
      ensures r == Bool(false)
      ensures old(completion).content != [] ==>
                && buffer == old(buffer) + old(completion).content
                && completion == old(completion).(content := [])
                && out == old(out) + [Text(old(completion).content)]
      ensures old(completion).content == [] ==>
                buffer == old(buffer) && completion == old(completion)
                && out == old(out) + [Text(Spaces(indent))]
    {
      if completion.content != [] {
        AppendNeutral(true, out, [Text(completion.content)]);
        out := out + [Text(completion.content)];
        buffer := buffer + completion.content;
        completion := completion.(content := []);
      } else {
        AppendNeutral(true, out, [Text(Spaces(indent))]);
        out := out + [Text(Spaces(indent))];
      }
      return Bool(false);
    }

    /** `_handle_regular`: appends and echoes the key, reporting True. */
    method HandleRegular(key: char) returns (r: Response)
      requires Valid()
      modifies this`buffer, this`out
      ensures Valid()
      ensures r == Bool(true) && buffer == old(buffer) + [key] && out == old(out) + [Text([key])]
    {
      buffer := buffer + [key];
      AppendNeutral(true, out, [Text([key])]);
      out := out + [Text([key])];
      return Bool(true);
    }

    /** The bind-key branch of `input` when autocompletion is on: echoes
        and appends the key if `outputBind`, then fetches a completion for
        the buffer at once, bypassing the debounce. */
    method HandleBind(key: char, outputBind: bool, shade: string, callTo: string -> string)
      requires Valid()
      modifies this`buffer, this`fetchInProgress, this`completion, this`out
      ensures Valid()
      ensures buffer == old(buffer) + (if outputBind then [key] else [])
      ensures fetchInProgress == old(fetchInProgress)
      ensures old(fetchInProgress) ==>
                completion == old(completion) && out == old(out) + (if outputBind then [Text([key])] else [])
      ensures !old(fetchInProgress) ==>
                && completion == CompletionPacket(callTo(buffer), shade, |buffer|)
                && out == old(out) + (if outputBind then [Text([key])] else [])
                                   + (if exit then [] else Completer.RenderSequence(completion))
    {
      if outputBind {
        buffer := buffer + [key];
        AppendNeutral(true, out, [Text([key])]);
        out := out + [Text([key])];
      }
      ProcessCompletion(buffer, shade, callTo);
    }

    /** The inactivity test at the top of each pass of `input`. When it
        holds, the interval becomes the mean key delay, a fetch starts (a
        completion fetch with autocompletion on, otherwise a plain call of
        the callback on the text) and `called` is reset; otherwise nothing
        happens. */
    method InactivityCheck(now: int, d: Debounce, callTo: Option<string -> string>,
                           inactivityTrigger: bool, autocomplete: bool, shade: string)
      returns (d': Debounce)
      requires Valid()
      modifies this`fetchInProgress, this`completion, this`out, this`rawCalls
      ensures Valid()
      ensures fetchInProgress == old(fetchInProgress)
      ensures d'.ts == d.ts && d'.delays == d.delays
      ensures !FetchDue(now, d, callTo.Some?, inactivityTrigger) ==>
                && d' == d
                && completion == old(completion) && out == old(out) && rawCalls == old(rawCalls)
      ensures FetchDue(now, d, callTo.Some?, inactivityTrigger) ==>
                !d'.called && d'.interval == Mean(d.delays)
      ensures FetchDue(now, d, callTo.Some?, inactivityTrigger) && !autocomplete ==>
                && rawCalls == old(rawCalls) + [buffer]
                && completion == old(completion) && out == old(out)
      ensures FetchDue(now, d, callTo.Some?, inactivityTrigger) && autocomplete ==>
                && rawCalls == old(rawCalls)
                && (old(fetchInProgress) ==> completion == old(completion) && out == old(out))
                && (!old(fetchInProgress) ==>
                      && completion == CompletionPacket(callTo.value(buffer), shade, |buffer|)
                      && out == old(out) + (if exit then [] else Completer.RenderSequence(completion)))
    {
      d' := d;
      if InactivityFetchDue(|d.delays|, d.called, callTo.Some?, inactivityTrigger, now - d.ts, d.interval) {
        d' := d'.(interval := Mean(d.delays));
        if autocomplete {
          ProcessCompletion(buffer, shade, callTo.value);
        } else {
          rawCalls := rawCalls + [buffer];
        }
        d' := d'.(called := false);
      }
    }

    /** The key part of one pass of `input`. The delay since the last
        accepted key is recorded first. The bind key is appended and echoed
        when `outputBind` is set and, with autocompletion on, fetches at
        once; it leaves `called` alone. Any other key goes to its handler,
        and `called` becomes the handler's truthiness. The key's clock
        reading becomes the time of the last accepted key unless the
        handler answered CONTINUE or EXIT. */
    method KeyPass(k: char, now: int, d: Debounce, configBind: Option<string>, autocomplete: bool,
                   callTo: Option<string -> string>, outputBind: bool, allowEmptyInput: bool,
                   end: string, indent: int, shade: string) returns (d': Debounce, step: Step)
      requires Valid()
      modifies this`exit, this`buffer, this`completion, this`fetchInProgress, this`out
      ensures Valid()
      ensures fetchInProgress == old(fetchInProgress)
      ensures d'.delays == d.delays + [now - d.ts] && d'.interval == d.interval
      ensures d'.ts == if step == Next then now else d.ts
      ensures var bind := BindBranch(k, configBind, autocomplete, callTo.Some?);
              && (step == Finish <==> !bind && k == EnterKey && (allowEmptyInput || old(buffer) != []))
              && (step == Skip <==> !bind && k == EnterKey && !allowEmptyInput && old(buffer) == [])
              && d'.called == if bind || step != Next then d.called
                              else if k == TabKey then false
                              else if k == BackspaceKey then old(buffer) != []
                              else true
      ensures exit == (old(exit) || step == Finish)
      ensures BindBranch(k, configBind, autocomplete, callTo.Some?) ==>
                && buffer == old(buffer) + (if outputBind then [k] else [])
                && var echo := if outputBind then [Text([k])] else [];
                   if autocomplete && !old(fetchInProgress) then
                     && completion == CompletionPacket(callTo.value(buffer), shade, |buffer|)
                     && out == old(out) + echo + (if exit then [] else Completer.RenderSequence(completion))
                   else
                     completion == old(completion) && out == old(out) + echo
      ensures !BindBranch(k, configBind, autocomplete, callTo.Some?) && k == EnterKey ==>
                && buffer == old(buffer) && completion == old(completion)
                && out == old(out) + (if step == Finish then [ClearLine, Text(end)] else [])
      ensures !BindBranch(k, configBind, autocomplete, callTo.Some?) && k == BackspaceKey ==>
                && completion == old(completion)
                && (old(buffer) != [] ==>
                      buffer + [old(buffer)[|old(buffer)| - 1]] == old(buffer) && out == old(out) + [BackDelete])
                && (old(buffer) == [] ==> buffer == [] && out == old(out))
      ensures !BindBranch(k, configBind, autocomplete, callTo.Some?) && k == TabKey ==>
                if old(completion).content != [] then
                  && buffer == old(buffer) + old(completion).content
                  && completion == old(completion).(content := [])
                  && out == old(out) + [Text(old(completion).content)]
                else
                  && buffer == old(buffer) && completion == old(completion)
                  && out == old(out) + [Text(Spaces(indent))]
      ensures !BindBranch(k, configBind, autocomplete, callTo.Some?)
              && k != TabKey && k != EnterKey && k != BackspaceKey ==>
                buffer == old(buffer) + [k] && completion == old(completion) && out == old(out) + [Text([k])]
    {
      d' := d.(delays := d.delays + [now - d.ts]);
      step := Next;

      if configBind == Some([k]) && autocomplete && callTo.Some? {
        HandleBind(k, outputBind, shade, callTo.value);
        d' := d'.(ts := now);
        return;
      } else if configBind == Some([k]) && !autocomplete && callTo.None? {
        // The thread started here has no target, so it does nothing.
        if outputBind {
          buffer := buffer + [k];
          AppendNeutral(true, out, [Text([k])]);
          out := out + [Text([k])];
        }
        d' := d'.(ts := now);
        return;
      }

      if k == TabKey || k == EnterKey || k == BackspaceKey {
        var response;
        if k == TabKey {
          response := HandleTab(indent);
        } else if k == EnterKey {
          response := HandleEnter(allowEmptyInput, end);
        } else {
          response := HandleBackspace();
        }
        if response == Exit {
          return d', Finish;
        } else if response == Continue {
          return d', Skip;
        }
        d' := d'.(called := response.Truthy());
      } else {
        var response := HandleRegular(k);
        d' := d'.(called := response.Truthy());
      }
      d' := d'.(ts := now);
    }

    /** `input`: validates the bind key, prints the prompt and runs the key
        loop over `polls`, starting the clock at `start`. */
    method Input(prompt: Option<string>, callTo: Option<string -> string>, end: string,
                 allowEmptyInput: bool, shade: string, indent: int, configBind: Option<string>,
                 autocomplete: bool, outputBind: bool, inactivityTrigger: bool,
                 start: int, polls: seq<Poll>) returns (r: InputResult)
      requires Valid()
      modifies this
      ensures Valid()
      ensures fetchInProgress == old(fetchInProgress)
      ensures r.Raised? <==> configBind.Some? && |configBind.value| > 1
      ensures r.Raised? ==> r.error == BindTooLong && out == old(out) && buffer == [] && !exit
      ensures r.Returned? ==> exit && r.text == buffer && (allowEmptyInput || r.text != [])
      ensures r.Waiting? ==> !exit
    {
      var d := Debounce(start, false, [], Interval(0, 1));
      exit := false;
      buffer := [];

      if configBind.Some? && |configBind.value| > 1 {
        return Raised(BindTooLong);
      }

      if prompt.Some? {
        AppendNeutral(true, out, [Text(prompt.value)]);
        out := out + [Text(prompt.value)];
      }

      var i := 0;
      while i < |polls|
        invariant 0 <= i <= |polls|
        invariant Valid() && !exit && fetchInProgress == old(fetchInProgress)
      {
        var cts := polls[i].now;
        var key := polls[i].key;
        i := i + 1;

        d := InactivityCheck(cts, d, callTo, inactivityTrigger, autocomplete, shade);

        if key.Some? {
          var step;
          d, step := KeyPass(key.value, cts, d, configBind, autocomplete, callTo, outputBind,
                             allowEmptyInput, end, indent, shade);
          if step == Finish {
            return Returned(buffer);
          }
        }
      }
      return Waiting;
    }

    /** `get_cursor_position`: sends the device status report request, reads
        the reply from `stream` and parses it. */
    method GetCursorPosition(stream: string) returns (pos: CursorPosition)
      requires Valid()
      modifies this`out
      ensures Valid()
      ensures out == old(out) + [QueryCursor]
      ensures pos == if 'R' in stream then ParseCursorReport(ThroughFirst(stream, 'R')) else NoReply
    {
      AppendNeutral(true, out, [QueryCursor]);
      out := out + [QueryCursor];
      var response, complete := ReadReport(stream);
      if !complete {
        return NoReply;
      }
      ThroughFirstUnique(stream, 'R', response);
      pos := ParseCursorReport(response);
    }

    /** `_edit`: steps back `returnRange` cells and clears the rest of the
        line on screen, but keeps `buffer[returnRange:]` (the characters
        after the first `returnRange`), then appends and prints `text`. */
    method ApplyEdit(returnRange: int, text: string)
      requires Valid()
      modifies this`buffer, this`out
      ensures Valid()
      ensures buffer == SliceFrom(old(buffer), returnRange) + text
      ensures out == old(out) + EditWrites(returnRange, text)
    {
      var written := [HideCursor];
      written := written + [MoveBack(returnRange), ClearLine];
      buffer := SliceFrom(buffer, returnRange);
      written := written + [Text(text)];
      buffer := buffer + text;
      written := written + [ShowCursor];
      EditShowsCursor(out, returnRange, text);
      out := out + written;
    }

    /** `edit`: an empty replacement raises `ValueError` and changes
        nothing; otherwise the edit is applied. */
    method Edit(returnRange: int, newText: string) returns (error: Option<Error>)
      requires Valid()
      modifies this`buffer, this`out
      ensures Valid()
      ensures error == if newText == [] then Some(EmptyEdit) else None
      ensures newText == [] ==> buffer == old(buffer) && out == old(out)
      ensures newText != [] ==>
                && buffer == SliceFrom(old(buffer), returnRange) + newText
                && out == old(out) + EditWrites(returnRange, newText)
    {
      if newText == [] {
        return Some(EmptyEdit);
      }
      ApplyEdit(returnRange, newText);
      return None;
    }
  }

  // ---------------------------------------------------------------------------
  // Key sequences

  /** A regular key followed by Backspace leaves the buffer as it was. */
  method TypeThenErase(session: DynamicInput, key: char)
    requires session.Valid()
    modifies session
    ensures session.Valid()
    ensures session.buffer == old(session.buffer)
    ensures session.out == old(session.out) + [Text([key]), BackDelete]
  {
    var typed := session.HandleRegular(key);
    var erased := session.HandleBackspace();
    assert session.buffer == (session.buffer + [key])[..|session.buffer|];
  }

  /** After an inactivity fetch, later passes with no key start no fetch,
      however long the pause: only a key can set `called` again. */
  method IdleAfterFetch(session: DynamicInput, d: Debounce, first: int, later: int,
                        callTo: Option<string -> string>, autocomplete: bool, shade: string)
    returns (d': Debounce, written: seq<Op>, started: seq<string>)
    requires session.Valid()
    requires FetchDue(first, d, callTo.Some?, true)
    modifies session
    ensures session.Valid()
    ensures !d'.called && d'.ts == d.ts && d'.interval == Mean(d.delays)
    ensures written == [] && started == []
  {
    var fetched := session.InactivityCheck(first, d, callTo, true, autocomplete, shade);
    var out, calls := session.out, session.rawCalls;
    d' := session.InactivityCheck(later, fetched, callTo, true, autocomplete, shade);
    written := session.out[|out|..];
    started := session.rawCalls[|calls|..];
  }

  /** Tab consumes the completion it accepts: after a fetch, the first Tab
      appends the completion and a second one only prints `indent` spaces. */
  method TabTwice(typed: seq<char>, content: string, shade: string, indent: int)
    returns (text: seq<char>, written: seq<Op>)
    requires content != []
    ensures text == typed + content
    ensures written == [Text(content), Text(Spaces(indent))]
  {
    var session := new DynamicInput();
    session.buffer := typed;
    session.ProcessCompletion(typed, shade, (s: string) => content);
    var before := session.out;
    var first := session.HandleTab(indent);
    var second := session.HandleTab(indent);
    text := session.buffer;
    written := session.out[|before|..];
  }

  // ---------------------------------------------------------------------------
  // The edit channel

  /** What `_edit` writes: hide the cursor, step back `returnRange` cells,
      clear the rest of the line, print the text, show the cursor. */
  function EditWrites(returnRange: int, text: string): seq<Op>
  {
    [HideCursor, MoveBack(returnRange), ClearLine, Text(text), ShowCursor]
  }

  /** An edit leaves the cursor visible. */
  lemma EditShowsCursor(before: seq<Op>, returnRange: int, text: string)
    ensures CursorShown(before + EditWrites(returnRange, text))
  {
    EndsShown(true, before + EditWrites(returnRange, text), |before| + 4);
  }

  /** `buffer[returnRange:] + text` replaces the whole buffer when the range
      covers it, and agrees with replacing the last `returnRange` characters
      exactly when dropping them from the front or the back leaves the same
      characters. */
  lemma EditSplice(buffer: seq<char>, returnRange: nat, text: string)
    requires returnRange <= |buffer|
    ensures returnRange == |buffer| ==> SliceFrom(buffer, returnRange) + text == text
    ensures SliceFrom(buffer, returnRange) + text == buffer[..|buffer| - returnRange] + text
            <==> buffer[returnRange..] == buffer[..|buffer| - returnRange]
  {
    var kept := SliceFrom(buffer, returnRange);
    assert kept == buffer[returnRange..];
    if kept + text == buffer[..|buffer| - returnRange] + text {
      assert kept == (kept + text)[..|kept|];
    }
    if returnRange == |buffer| {
      assert kept == [];
    }
  }
}
