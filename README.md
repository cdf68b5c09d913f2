# Serial side of the OpenWSN mote probe

The mote probe bridges a mote on a serial port and a TCP socket. This
project models its serial thread, `moteProbeSerialThread`:

- the per-byte framing state machine of its read loop;
- the output buffer that `send` fills and a credit frame flushes;
- the fields its constructor sets.

The mote frames what it sends as `^^^`, then the frame, then `$$$`. The
thread counts runs of `^` in `WAIT_HEADER` and runs of `$` in
`RECEIVING_COMMAND`. When a frame closes, the thread strips the trailing
`$` and dispatches the frame:

- a frame `R` followed by the byte 200 is a credit from the mote. The
  whole output buffer is written to the serial port in one write and
  emptied;
- any other `R` frame is dropped;
- every other frame is forwarded unchanged to the socket side.

`send(p)` appends the record `D`, then one length byte, then `p` to the
output buffer.

Modules:

- `Wire` (`wire.dfy`): bytes, the wire constants, `rstrip('$')`, and runs
  of a repeated byte.
- `OutputBuffer` (`output_buffer.dfy`): what one `send` does to the
  buffer (`SendResult`). It also covers the layout that a series of
  sends leaves (`Pack`, `PackLayout`).
- `Framing` (`framing.dfy`): the fields as a value (`Machine`), one byte
  of the read loop (`Next`), dispatch of a closed frame (`Dispatch`), and
  the invariant between bytes (`Valid`).
- `Streams` (`streams.dfy`): the read loop over a finite byte stream
  (`Run`), and what it does to a whole stream. `Frames` is a reference
  extractor that reads the frames off a stream without the machine.
  `FramesDispatched` proves that the loop writes, forwards and raises
  exactly what dispatching those frames in order does.
- `MoteProbe` (`serial_thread.dfy`): the thread as a class with the
  fields `state`, `numDelimiter`, `serialInput` and `serialOutput`, updated
  in place, and a flag `running` that tells whether the read loop is still
  going. `Step` is the body of the read loop, `Feed` the loop over a
  sequence of bytes, and `Send` is `send`. Each is proved against
  `Next`, `Run` or `SendResult`.
- `Scenarios` (`scenarios.dfy`): whole exchanges on the link.

### What the model does where the code is surprising

- **Length byte.** The byte after `D` is `chr(len(self.serialOutput))`,
  taken before the append. That is the size of the buffer so far, not the
  length of the payload. For example, `send("abc")` then `send("de")`
  leaves `D\x00abcD\x05de` (`SendTwiceLayout`). Two different series of
  sends can leave the same buffer (`PackIsAmbiguous`).
- **Full buffer.** When the buffer holds more than 255 bytes, `chr` raises
  `ValueError` before the buffer is touched. The model returns
  `ChrOutOfRange` and leaves the buffer as it was. In the code, though, the
  raise happens after the lock is taken and nothing releases it. Every later
  `send`, and the next credit frame, then blocks forever. The model stops at
  the raise and describes nothing after it (see "Left out"). Passing 200
  bytes only prints a warning. The model reports that warning as the flag
  `overflowWarning`.
- **Malformed frames.** An empty frame (`^^^$$$`) or an `R` frame of one
  byte is indexed past its end. This raises `IndexError`, and nothing
  in the read loop catches it. The model returns the action
  `IndexError(frame)`, and `Run` and `Feed` read no byte after it. The
  fields stay as they were just before the raise: back in `WAIT_HEADER`
  with a zero count, holding the stripped frame. The exception ends `run`,
  and with it the thread, for good. The class records this in its field
  `running`. Once `running` is cleared, a later `Step` or `Feed` reads
  nothing and changes nothing. `Send` still appends, because the socket
  side calls it from its own thread.
- **Device write and forwarding.** The action `Flush(written)` stands for
  the one `serial.write`, and `Forward(frame)` for the one call of
  `otherThreadHandler.send`.

## Model

| member | source | states |
|---|---|---|
| `MoteProbe.SerialThread.constructor` | software/openvisualizer/moteProbe/moteProbe.py:40-50 | stores the port name; starts in `WAIT_HEADER` with a zero count, an empty frame and an empty output buffer, which satisfies the invariant; the read loop is running |
| `MoteProbe.SerialThread.Step` | software/openvisualizer/moteProbe/moteProbe.py:70-98 | while the read loop runs, updating the fields in place for one byte gives exactly the fields and action of `Next`; an `IndexError` ends the loop for good, and after that a byte changes nothing and does nothing; keeps the invariant |
| `MoteProbe.SerialThread.Feed` | software/openvisualizer/moteProbe/moteProbe.py:61-98 | while the read loop runs, reading a sequence of bytes ends with the fields and actions of `Run`, stopping at the first `IndexError`; the loop is still running afterwards exactly when nothing raised; once it has ended, nothing is read or changed; keeps the invariant |
| `MoteProbe.SerialThread.Send` | software/openvisualizer/moteProbe/moteProbe.py:107-112 | changes only the output buffer, to the buffer and outcome of `SendResult` |
| `OutputBuffer.Append` | software/openvisualizer/moteProbe/moteProbe.py:109 | the old buffer is an unchanged prefix; then `D`, then the OLD buffer length, then the payload unchanged; the buffer grows by the payload length plus 2 |
| `OutputBuffer.SendResult` | software/openvisualizer/moteProbe/moteProbe.py:107-112 | raises exactly when the old buffer is longer than 255 bytes, and then leaves it unchanged; otherwise appends the record, and warns exactly when the new length passes 200, without refusing or truncating |
| `OutputBuffer.PackDefined` | software/openvisualizer/moteProbe/moteProbe.py:109 | a series of sends to an empty buffer succeeds exactly when the last send sees at most 255 bytes; the resulting length is the sum of the record sizes |
| `OutputBuffer.PackLayout` | software/openvisualizer/moteProbe/moteProbe.py:107-112 | after a successful series of sends, record `k` sits at its offset: `D`, the offset itself, then payload `k` unchanged; the records fill the buffer |
| `OutputBuffer.SendTwiceLayout` | software/openvisualizer/moteProbe/moteProbe.py:109 | `send("abc")` then `send("de")` leaves `D\x00abcD\x05de` |
| `OutputBuffer.PackIsAmbiguous` | software/openvisualizer/moteProbe/moteProbe.py:109 | `send("a"); send("b")` and `send("aD\x03b")` leave the same buffer |
| `Wire.RStrip` | software/openvisualizer/moteProbe/moteProbe.py:88 | `rstrip('$')` removes exactly the trailing run of `$`, keeps a prefix, and never ends in `$` |
| `Framing.Dispatch` | software/openvisualizer/moteProbe/moteProbe.py:89-98 | `R` with byte 1 equal to 200 flushes the whole buffer once and empties it; another `R` frame does nothing; a frame not starting with `R` is forwarded unchanged; an empty frame or a lone `R` raises; only a flush changes the buffer |
| `Framing.NextValid` | software/openvisualizer/moteProbe/moteProbe.py:70-88 | one byte keeps the invariant: the count is 0, 1 or 2 between bytes, and while receiving it equals the number of trailing `$`, with no `$$$` received |
| `Framing.HeaderStep` | software/openvisualizer/moteProbe/moteProbe.py:70-78 | in `WAIT_HEADER`, `^` increments the count and any other byte resets it; the state becomes `RECEIVING_COMMAND` exactly on the third `^`, with the frame cleared and the count reset; nothing is sent |
| `Framing.BodyStep` | software/openvisualizer/moteProbe/moteProbe.py:79-88 | while receiving, every byte is appended and nothing is sent; the state returns to `WAIT_HEADER` exactly on the third `$`; the stripped frame is the input minus exactly `$$$`, does not end in `$`, holds no `$$$`, and is dispatched |
| `Framing.CloseStep` | software/openvisualizer/moteProbe/moteProbe.py:85-88 | the closing `$` dispatches what was received before the two `$` already counted, and resets the machine to `WAIT_HEADER` with a zero count |
| `Streams.RunStopsAtCrash` | software/openvisualizer/moteProbe/moteProbe.py:61-69 | after an `IndexError` escapes the loop, no later byte changes anything |
| `Streams.RunConcat` | software/openvisualizer/moteProbe/moteProbe.py:61-98 | reading `s` then `t` is reading `t` from where `s` left the fields, unless `s` crashed |
| `Streams.RunValid` | software/openvisualizer/moteProbe/moteProbe.py:70-98 | the invariant holds after any stream |
| `Streams.ForwardedFramesWellFormed` | software/openvisualizer/moteProbe/moteProbe.py:85-98 | every forwarded frame, over any stream, is non-empty, does not start with `R`, does not end in `$` and holds no `$$$` |
| `Streams.HeaderWait` | software/openvisualizer/moteProbe/moteProbe.py:70-78 | bytes holding no `^^^` leave the machine waiting, with the count equal to the trailing `^` run, so a partial run does not carry over; nothing is sent |
| `Streams.HeaderEnter` | software/openvisualizer/moteProbe/moteProbe.py:70-78 | the `^` that completes the first `^^^` opens a frame, with an empty frame and a zero count |
| `Streams.BodyAccumulate` | software/openvisualizer/moteProbe/moteProbe.py:79-84 | in an open frame, bytes holding no `$$$` are appended unchanged, with the count equal to the trailing `$` run; nothing is sent |
| `Streams.FrameClosed` | software/openvisualizer/moteProbe/moteProbe.py:79-98 | in an open frame, a body without `$$$` that does not end in `$`, followed by `$$$`, dispatches exactly that body on the last byte |
| `Streams.FrameDelivered` | software/openvisualizer/moteProbe/moteProbe.py:70-98 | `^^^`, then such a body, then `$$$` dispatches exactly the body and leaves the machine waiting with a zero count |
| `Streams.FramesDispatched` | software/openvisualizer/moteProbe/moteProbe.py:70-98 | for any stream, the loop's writes, forwards and raise are those of dispatching the stream's frames (`Frames`) in order, and the final output buffer agrees |
| `Streams.BodyDispatched` | software/openvisualizer/moteProbe/moteProbe.py:79-98 | the same, for a stream read after a header |
| `Scenarios.CreditFlushes` | software/openvisualizer/moteProbe/moteProbe.py:90-95 | `^^^R\xC8$$$` writes the whole queued buffer once and leaves it empty; with nothing queued, it writes the empty string |
| `Scenarios.SendThenCredit` | software/openvisualizer/moteProbe/moteProbe.py:107-109 | `send("abc")` then a credit frame writes `D\x00abc` |
| `Scenarios.CreditBelowThreshold` | software/openvisualizer/moteProbe/moteProbe.py:90-91 | an `R` frame whose byte 1 is neither 200 nor `$` writes nothing, forwards nothing and leaves the buffer alone |
| `Scenarios.CreditDollarCrashes` | software/openvisualizer/moteProbe/moteProbe.py:88-91 | in `^^^R$$$$`, `rstrip('$')` also removes the `$` meant as byte 1, so the lone `R` raises, and nothing after it is read |
| `Scenarios.TrailingDollarLost` | software/openvisualizer/moteProbe/moteProbe.py:85-98 | a well-formed frame `f` sent with one more `$` (`^^^`, `f`, `$$$$`) forwards `f` alone; the fourth `$` is read while waiting for a header and does nothing |
| `Scenarios.WellFormedFrameForwarded` | software/openvisualizer/moteProbe/moteProbe.py:96-98 | every well-formed frame is forwarded once and unchanged, and the buffer is untouched (the converse of `ForwardedFramesWellFormed`) |
| `Scenarios.HelloForwarded` | software/openvisualizer/moteProbe/moteProbe.py:96-98 | `^^^Xhello$$$` forwards `Xhello` |
| `Scenarios.EmptyFrameCrashes` | software/openvisualizer/moteProbe/moteProbe.py:88-90 | `^^^$$$` raises on byte 0 of the empty frame, and nothing after it is read |
| `Scenarios.ShortCreditCrashes` | software/openvisualizer/moteProbe/moteProbe.py:90-91 | `^^^R$$$` raises on byte 1 of the frame, and nothing after it is read |
| `Scenarios.PartialHeaderIgnored` | software/openvisualizer/moteProbe/moteProbe.py:70-78 | in `^^ab^^^`, the first two `^` do not count; the header is recognised on the last `^` only |

## Left out

- `findSerialPortsNames` (`moteProbe.py:14-36`): it reads the Windows registry or globs device files. This is operating-system I/O.
- The outer loop of `run` (`moteProbe.py:59-68`) is not modelled: opening the port at 115200 baud, the blocking `read(1)`, logging a read error, `sleep(1)` and reopening. This is device I/O. `Feed` takes the bytes read as a parameter.
- The lock around the flush and around `send`: each locked section is one method of the class, and concurrency is not modelled.
- `MoteProbe.SerialThread.Send`: a `send` that raises (`ChrOutOfRange`, `moteProbe.py:109`) leaves the lock from `moteProbe.py:108` held, because nothing releases it on the exception path. From then on every `send` blocks at `moteProbe.py:108`, and the next credit frame blocks at `moteProbe.py:92`, so nothing more is written and the read loop stops. The model's object stays usable after `ChrOutOfRange`, so no call after a raising `send` is described by the model. The same holds after a `serial.write` at `moteProbe.py:93` that raises, which the model does not represent at all.
- `moteProbeSocket`, the `moteProbe` wiring and `__main__` (`moteProbe.py:116-201`): socket plumbing and thread start-up.
- `setOtherThreadHandler` (`moteProbe.py:104-105`): the socket-side handler is outside the model. The action `Forward(frame)` stands for the call to it, and a missing handler is not modelled.
- The `else` branch at `moteProbe.py:99-100` cannot be reached. The state is always one of the two values, and `State` has only those two.
- The text of the printed warning and of the error log: only whether the warning is printed is modelled.
- The thread name set at `moteProbe.py:56`, and `threading.Thread` itself.
- `software/openEndPoint/engine/ProcessingEngine.py` is not part of this model. It is a queue-and-callback thread wrapper around code that is not available.
- `Run` and `Feed` model a finite stream of bytes. The thread reads forever, and its frame buffer grows without bound while a frame stays open.
