/** The serial side of the mote probe: the thread object that owns the
    framing fields and the output buffer, and updates them in place. */
module MoteProbe {
  import opened Wire
  import opened OutputBuffer
  import opened Framing
  import opened Streams

  class SerialThread {
    /** The name of the serial device, stored by the constructor. */
    const serialPort: string

    var state: State
    var numDelimiter: nat
    var serialInput: Bytes
    var serialOutput: Bytes

    /** Whether `run` is still reading: an `IndexError` escapes it and ends
        the thread for good, while `send`, called from the socket side, goes
        on appending. */
    var running: bool

    /** The fields as a value of the byte-handling specification. */
    function Fields(): (m: Machine)
      reads this
    {
      Machine(state, numDelimiter, serialInput, serialOutput)
    }

    predicate Valid()
      reads this
    {
      Framing.Valid(Fields())
    }

    /** Starts waiting for a header, with nothing received and nothing to send. */
    constructor (serialPort: string)
      ensures this.serialPort == serialPort
      ensures Fields() == Initial && Valid() && running
    {
      this.serialPort := serialPort;
      serialInput := [];
      serialOutput := [];
      state := WaitHeader;
      numDelimiter := 0;
      running := true;
    }

    /** Handles one byte read from the serial port: the body of the read loop.
        Once the loop has ended, no byte is read and nothing changes. */
    method Step(b: Byte) returns (a: Action)
      modifies this
      ensures old(running) ==> (Fields(), a) == Next(old(Fields()), b)
      ensures !old(running) ==> Fields() == old(Fields()) && a == NoAction
      ensures running == (old(running) && !a.IndexError?)
      ensures old(Valid()) ==> Valid()
    {
      ghost var before := Fields();
      a := NoAction;
      if !running {
        return;
      }
      if state == WaitHeader {
        if b == HeaderMarker {
          numDelimiter := numDelimiter + 1;
        } else {
          numDelimiter := 0;
        }
        if numDelimiter == RunLength {
          state := ReceivingCommand;
          serialInput := [];
          numDelimiter := 0;
        }
      } else {
        serialInput := serialInput + [b];
        if b == TrailerMarker {
          numDelimiter := numDelimiter + 1;
        } else {
          numDelimiter := 0;
        }
        if numDelimiter == RunLength {
          state := WaitHeader;
          numDelimiter := 0;
          serialInput := RStrip(serialInput, TrailerMarker);
          if |serialInput| == 0 {
            a := IndexError(serialInput);
            running := false;
          } else if serialInput[0] == CreditTag {
            if |serialInput| < 2 {
              a := IndexError(serialInput);
              running := false;
            } else if serialInput[1] == CreditThreshold {
              a := Flush(serialOutput);
              serialOutput := [];
            }
          } else {
            a := Forward(serialInput);
          }
        }
      }
      if Framing.Valid(before) {
        NextValid(before, b);
      }
    }

    /** The read loop over the bytes of `input`, until they run out or a
        malformed frame raises and ends the loop for good. */
    method Feed(input: Bytes) returns (actions: seq<Action>)
      modifies this
      ensures old(running) ==> (Fields(), actions) == Run(old(Fields()), input)
      ensures !old(running) ==> Fields() == old(Fields()) && actions == []
      ensures running == (old(running) && !Crashed(actions))
      ensures old(Valid()) ==> Valid()
    {
      ghost var start := Fields();
      actions := [];
      if !running {
        return;
      }
      var i := 0;
      while i < |input|
        invariant 0 <= i <= |input|
        invariant (Fields(), actions) == Run(start, input[..i])
        invariant !Crashed(actions) && running
      {
        var a := Step(input[i]);
        RunPrefix(start, input, i);
        actions := actions + [a];
        i := i + 1;
        if a.IndexError? {
          RunCrashedPrefix(start, input, i);
          break;
        }
      }
      if i == |input| {
        assert input[..i] == input;
      }
      if Framing.Valid(start) {
        RunValid(start, input);
      }
    }

    /** `send`: appends the record of `payload` to the output buffer, or
        raises without touching it when the buffer is too long for its size
        to fit the length byte. */
    method Send(payload: Bytes) returns (outcome: SendOutcome)
      modifies this`serialOutput
      ensures (serialOutput, outcome) == SendResult(old(serialOutput), payload)
    {
      if |serialOutput| > 255 {
        return ChrOutOfRange;
      }
      serialOutput := serialOutput + [DataTag, |serialOutput|] + payload;
      outcome := Appended(|serialOutput| > OverflowWatermark);
    }
  }
}
