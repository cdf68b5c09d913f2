/** The byte-framing state machine of the serial thread, one byte at a time:
    three `^` open a frame, three `$` close it, and the closed frame is
    either a credit request that flushes the output buffer or a frame
    forwarded to the socket side. */
module Framing {
  import opened Wire

  datatype State = WaitHeader | ReceivingCommand

  /** What handling one byte did, besides updating the fields. `Flush` is the
      one `serial.write` of the whole output buffer; `Forward` is the one call
      of `otherThreadHandler.send`; `IndexError` is the exception raised by
      reading byte 0 or byte 1 of a frame too short to have it, which escapes
      the read loop. */
  datatype Action =
    | NoAction
    | Flush(written: Bytes)
    | Forward(frame: Bytes)
    | IndexError(frame: Bytes)

  /** The fields of the serial thread that handling a byte reads and writes. */
  datatype Machine = Machine(state: State, numDelimiter: nat, serialInput: Bytes, serialOutput: Bytes)

  /** The fields as the constructor sets them. */
  const Initial: Machine := Machine(WaitHeader, 0, [], [])

  /** Dispatch of a closed frame: the new output buffer and the action.
      Credit gating: a frame `R` followed by the byte 200 writes the whole
      output buffer once and empties it (an empty buffer is written as the
      empty string); an `R` frame whose byte 1 is anything else changes
      nothing and sends nothing; a frame not starting with `R` is forwarded
      unchanged and leaves the buffer as it was. An empty frame, or an `R`
      frame of one byte, has no byte to dispatch on and raises. */
  function Dispatch(frame: Bytes, serialOutput: Bytes): (r: (Bytes, Action))
    ensures r.1.Flush? <==> |frame| >= 2 && frame[0] == CreditTag && frame[1] == CreditThreshold
    ensures r.1.Flush? ==> r.1.written == serialOutput && r.0 == []
    ensures r.1.Forward? <==> |frame| >= 1 && frame[0] != CreditTag
    ensures r.1.Forward? ==> r.1.frame == frame
    ensures r.1.IndexError? <==> |frame| == 0 || (frame[0] == CreditTag && |frame| == 1)
    ensures r.1.NoAction? <==> |frame| >= 2 && frame[0] == CreditTag && frame[1] != CreditThreshold
    ensures !r.1.Flush? ==> r.0 == serialOutput
  {
    if |frame| == 0 then (serialOutput, IndexError(frame))
    else if frame[0] == CreditTag then
      if |frame| < 2 then (serialOutput, IndexError(frame))
      else if frame[1] == CreditThreshold then ([], Flush(serialOutput))
      else (serialOutput, NoAction)
    else (serialOutput, Forward(frame))
  }

  /** Handling of one byte `b` read from the serial port. */
  function Next(m: Machine, b: Byte): (r: (Machine, Action))
  {
    match m.state
    case WaitHeader =>
      var n := if b == HeaderMarker then m.numDelimiter + 1 else 0;
      if n == RunLength then (m.(state := ReceivingCommand, serialInput := [], numDelimiter := 0), NoAction)
      else (m.(numDelimiter := n), NoAction)
    case ReceivingCommand =>
      var input := m.serialInput + [b];
      var n := if b == TrailerMarker then m.numDelimiter + 1 else 0;
      if n == RunLength then
        var frame := RStrip(input, TrailerMarker);
        var (output, action) := Dispatch(frame, m.serialOutput);
        (Machine(WaitHeader, 0, frame, output), action)
      else (m.(serialInput := input, numDelimiter := n), NoAction)
  }

  /** The invariant between bytes: the delimiter count is below three, and
      while a frame is being received it is the number of trailing `$` of the
      bytes received so far, which never hold three `$` in a row. */
  predicate Valid(m: Machine) {
    m.numDelimiter < RunLength &&
    (m.state == ReceivingCommand ==>
       m.numDelimiter == TrailingRun(m.serialInput, TrailerMarker) &&
       !HasTripleRun(m.serialInput, TrailerMarker))
  }

  /** Handling a byte keeps the invariant; in particular the delimiter count
      is always 0, 1 or 2 between bytes. */
  lemma NextValid(m: Machine, b: Byte)
    requires Valid(m)
    ensures Valid(Next(m, b).0)
  {
    if m.state == ReceivingCommand {
      var input := m.serialInput + [b];
      var n := if b == TrailerMarker then m.numDelimiter + 1 else 0;
      if n == RunLength {
        assert Next(m, b).0.state == WaitHeader && Next(m, b).0.numDelimiter == 0;
      } else {
        assert Next(m, b).0 == m.(serialInput := input, numDelimiter := n);
        assert input[..|input| - 1] == m.serialInput;
        assert TrailingRun(input, TrailerMarker) == n;
        TripleRunSnoc(m.serialInput, b, TrailerMarker);
      }
    }
  }

  /** Header detection: in `WAIT_HEADER` a `^` adds one to the count and any
      other byte resets it; the machine moves to `RECEIVING_COMMAND` exactly
      when the count reaches three, with an empty frame and the count reset.
      Nothing else changes and nothing is sent or written. */
  lemma HeaderStep(m: Machine, b: Byte)
    requires Valid(m) && m.state == WaitHeader
    ensures var (m', a) := Next(m, b);
      a == NoAction && m'.serialOutput == m.serialOutput &&
      (m'.state == ReceivingCommand <==> b == HeaderMarker && m.numDelimiter == 2) &&
      (m'.state == ReceivingCommand ==> m'.serialInput == [] && m'.numDelimiter == 0) &&
      (m'.state == WaitHeader ==> m'.serialInput == m.serialInput &&
                                  m'.numDelimiter == (if b == HeaderMarker then m.numDelimiter + 1 else 0))
  {
  }

  /** The third `$` in a row closes the frame: the frame dispatched is what
      was received before the two `$` already counted. */
  lemma CloseStep(m: Machine)
    requires Valid(m) && m.state == ReceivingCommand && m.numDelimiter == 2
    ensures var frame := m.serialInput[..|m.serialInput| - 2];
      var (output, a) := Dispatch(frame, m.serialOutput);
      Next(m, TrailerMarker) == (Machine(WaitHeader, 0, frame, output), a)
  {
    var input := m.serialInput + [TrailerMarker];
    assert TrailingRun(input, TrailerMarker) == 3 by {
      assert input[..|input| - 1] == m.serialInput;
    }
    assert RStrip(input, TrailerMarker) == m.serialInput[..|m.serialInput| - 2];
  }

  /** Accumulation and frame close: in `RECEIVING_COMMAND` every byte,
      `$` included, is appended; on the third `$` in a row the machine goes
      back to `WAIT_HEADER`, and `rstrip('$')` removes exactly the three `$`
      that closed the frame, so the frame dispatched never ends in `$` and
      never holds `$$$`. */
  lemma BodyStep(m: Machine, b: Byte)
    requires Valid(m) && m.state == ReceivingCommand
    ensures var (m', a) := Next(m, b);
      (m'.state == WaitHeader <==> b == TrailerMarker && m.numDelimiter == 2) &&
      (m'.state == ReceivingCommand ==>
         m'.serialInput == m.serialInput + [b] && a == NoAction && m'.serialOutput == m.serialOutput) &&
      (m'.state == WaitHeader ==>
         m'.numDelimiter == 0 &&
         m.serialInput + [b] == m'.serialInput + [TrailerMarker, TrailerMarker, TrailerMarker] &&
         (m'.serialInput == [] || m'.serialInput[|m'.serialInput| - 1] != TrailerMarker) &&
         !HasTripleRun(m'.serialInput, TrailerMarker) &&
         (m'.serialOutput, a) == Dispatch(m'.serialInput, m.serialOutput))
  {
    var input := m.serialInput + [b];
    if b == TrailerMarker && m.numDelimiter == 2 {
      CloseStep(m);
      var frame := m.serialInput[..|m.serialInput| - 2];
      assert input == frame + [TrailerMarker, TrailerMarker, TrailerMarker];
      TripleRunPrefix(m.serialInput, |m.serialInput| - 2, TrailerMarker);
    }
  }
}
