/** The values the three editor versions share: what a key handler reports
    to the input loop, the errors a session can raise, the polls the loop
    consumes and what a session yields. */
module Session {
  import opened PyText

  /** What a handler returns: the strings 'EXIT' and 'CONTINUE', a bool, or
      Python's `None` (a handler that falls off its end). */
  datatype Response = Exit | Continue | Bool(b: bool) | NoneValue
  {
    /** Python truthiness, which is what `called = response` feeds into the
        debounce test. */
    predicate Truthy()
    {
      match this
      case Exit => true
      case Continue => true
      case Bool(b) => b
      case NoneValue => false
    }
  }

  /** The exceptions a session raises, with the source's messages. */
  datatype Error = KeyError(message: string) | ValueError(message: string)

  const BindTooLong := KeyError("config_bind must be a single character.")
  const NoCallback := ValueError("Please provide a call_to function.")
  const EmptyEdit := ValueError("Cannot edit with an empty string.")

  /** One pass of the polling loop: the clock reading taken at its top and
      the key `kbhit`/`getch` delivered on that pass, if any. */
  datatype Poll = Poll(now: int, key: Option<char>)

  /** How a call to `input` ends: the joined buffer once Enter is accepted,
      an exception raised before any key is read, or still waiting for keys
      when the modelled key stream runs out (the source loops forever). */
  datatype InputResult = Returned(text: string) | Raised(error: Error) | Waiting

  /** How the input loop goes on after one key: on to `ts = cts`, back to
      the top of the loop without it (CONTINUE), or out of the loop. */
  datatype Step = Next | Skip | Finish

  /** The fetch test of the two earlier editors: more than `time_buffer`
      since the last accepted key, and a key has reported a change since
      the last fetch. */
  predicate DebounceDue(elapsed: int, timeBuffer: int, called: bool)
  {
    elapsed > timeBuffer && called
  }

  const EnterKey := '\r'
  const TabKey := '\t'
  const BackspaceKey := '\U{8}'
}
