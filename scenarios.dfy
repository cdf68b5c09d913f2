/** Whole exchanges on the serial link, from the fields as the constructor
    leaves them (or with some data already queued for the mote). */
module Scenarios {
  import opened Wire
  import opened OutputBuffer
  import opened Framing
  import opened Streams

  /** The fields after the constructor and some calls of `send`. */
  function Queued(buffer: Bytes): (m: Machine)
    ensures m.state == WaitHeader && m.numDelimiter == 0 && m.serialInput == []
    ensures m.serialOutput == buffer && Valid(m)
  {
    Initial.(serialOutput := buffer)
  }

  /** `^^^R\xC8$$$`: the credit frame writes everything queued, once, and
      empties the buffer. */
  lemma CreditFlushes(buffer: Bytes)
    ensures var credit: Bytes := [CreditTag, CreditThreshold];
      Run(Queued(buffer), Framed(credit)) ==
      (Machine(WaitHeader, 0, credit, []), Quiet(7) + [Flush(buffer)])
  {
    var credit: Bytes := [CreditTag, CreditThreshold];
    assert !HasTripleRun(credit, TrailerMarker);
    FrameDelivered(Queued(buffer), credit);
  }

  /** `send("abc")`, then the credit frame: the mote receives `D\x00abc`. */
  lemma SendThenCredit()
    ensures var abc: Bytes := ['a' as int, 'b' as int, 'c' as int];
      Pack([abc]).Some? &&
      Run(Queued(Pack([abc]).value), Framed([CreditTag, CreditThreshold])).1 ==
      Quiet(7) + [Flush([DataTag, 0, 'a' as int, 'b' as int, 'c' as int])]
  {
    var abc: Bytes := ['a' as int, 'b' as int, 'c' as int];
    var none: seq<Bytes> := [];
    assert [abc][..0] == none;
    assert Append([], abc) == [DataTag, 0, 'a' as int, 'b' as int, 'c' as int];
    assert Pack([abc]) == Some([DataTag, 0, 'a' as int, 'b' as int, 'c' as int]);
    CreditFlushes(Pack([abc]).value);
  }

  /** An `R` frame whose byte 1 is neither 200 nor `$` changes nothing: no
      write, the buffer stays as it was. (With `$` as byte 1 the frame raises
      instead: `CreditDollarCrashes`.) */
  lemma CreditBelowThreshold(buffer: Bytes, c: Byte)
    requires c != CreditThreshold && c != TrailerMarker
    ensures Run(Queued(buffer), Framed([CreditTag, c])) ==
            (Machine(WaitHeader, 0, [CreditTag, c], buffer), Quiet(8))
  {
    var f: Bytes := [CreditTag, c];
    assert !HasTripleRun(f, TrailerMarker);
    FrameDelivered(Queued(buffer), f);
    assert Quiet(7) + [NoAction] == Quiet(8);
  }

  /** The converse of `ForwardedFramesWellFormed`: every well-formed frame
      the mote wraps in `^^^`/`$$$` reaches the socket side unchanged, and
      the output buffer is left alone. */
  lemma WellFormedFrameForwarded(buffer: Bytes, f: Bytes)
    requires ForwardableFrame(f)
    ensures Run(Queued(buffer), Framed(f)) ==
            (Machine(WaitHeader, 0, f, buffer), Quiet(|f| + 5) + [Forward(f)])
  {
    FrameDelivered(Queued(buffer), f);
  }

  /** `^^^Xhello$$$` forwards `Xhello`. */
  lemma HelloForwarded()
    ensures var hello: Bytes := ['X' as int, 'h' as int, 'e' as int, 'l' as int, 'l' as int, 'o' as int];
      Run(Initial, Framed(hello)).1 == Quiet(11) + [Forward(hello)]
  {
    var hello: Bytes := ['X' as int, 'h' as int, 'e' as int, 'l' as int, 'l' as int, 'o' as int];
    assert !HasTripleRun(hello, TrailerMarker);
    WellFormedFrameForwarded([], hello);
  }

  /** `^^^$$$`: the empty frame raises on reading its byte 0, which ends the
      read loop; nothing that follows on the link is read. */
  lemma EmptyFrameCrashes(buffer: Bytes, rest: Bytes)
    ensures Run(Queued(buffer), Framed([]) + rest) ==
            (Machine(WaitHeader, 0, [], buffer), Quiet(5) + [IndexError([])])
  {
    FrameDelivered(Queued(buffer), []);
    RunStopsAtCrash(Queued(buffer), Framed([]), rest);
  }

  /** `^^^R$$$`: an `R` frame with no byte 1 raises too. */
  lemma ShortCreditCrashes(buffer: Bytes, rest: Bytes)
    ensures Run(Queued(buffer), Framed([CreditTag]) + rest) ==
            (Machine(WaitHeader, 0, [CreditTag], buffer), Quiet(6) + [IndexError([CreditTag])])
  {
    var f: Bytes := [CreditTag];
    assert !HasTripleRun(f, TrailerMarker);
    FrameDelivered(Queued(buffer), f);
    RunStopsAtCrash(Queued(buffer), Framed(f), rest);
  }

  /** `^^^R$$$$`: `rstrip('$')` also removes the `$` meant as byte 1, so the
      frame is a lone `R`, which raises; nothing after it is read. */
  lemma CreditDollarCrashes(buffer: Bytes, rest: Bytes)
    ensures Run(Queued(buffer), Framed([CreditTag, TrailerMarker]) + rest) ==
            (Machine(WaitHeader, 0, [CreditTag], buffer), Quiet(6) + [IndexError([CreditTag])])
  {
    ShortCreditCrashes(buffer, [TrailerMarker] + rest);
    assert Framed([CreditTag, TrailerMarker]) + rest == Framed([CreditTag]) + ([TrailerMarker] + rest);
  }

  /** A frame that ends in `$` loses that `$`: `^^^`, then `f`, then `$$$$`
      forwards `f` alone, and the fourth `$` is read in `WAIT_HEADER`, where
      it does nothing. */
  lemma TrailingDollarLost(buffer: Bytes, f: Bytes)
    requires ForwardableFrame(f)
    ensures Run(Queued(buffer), Framed(f + [TrailerMarker])) ==
            (Machine(WaitHeader, 0, f, buffer), Quiet(|f| + 5) + [Forward(f), NoAction])
  {
    var m := Queued(buffer);
    var closed := Machine(WaitHeader, 0, f, buffer);
    var actions := Quiet(|f| + 5) + [Forward(f)];
    assert Framed(f + [TrailerMarker]) == Framed(f) + [TrailerMarker];
    assert actions + [NoAction] == Quiet(|f| + 5) + [Forward(f), NoAction];
    assert Run(m, Framed(f)) == (closed, actions) by {
      WellFormedFrameForwarded(buffer, f);
    }
    assert !Crashed(actions);
    assert Next(closed, TrailerMarker) == (closed, NoAction);
    RunSnoc(m, Framed(f), TrailerMarker);
  }

  /** `^^ab^^^`: the two `^` before `ab` do not count towards the header,
      which is recognised on the last `^` only. */
  lemma PartialHeaderIgnored()
    ensures var a, b: Byte := 'a' as int, 'b' as int;
      var h := HeaderMarker;
      Run(Initial, [h, h, a, b, h, h]) == (Initial.(numDelimiter := 2), Quiet(6)) &&
      Run(Initial, [h, h, a, b, h, h, h]) ==
        (Initial.(state := ReceivingCommand), Quiet(7))
  {
    var a, b: Byte := 'a' as int, 'b' as int;
    var h := HeaderMarker;
    var s: Bytes := [h, h, a, b, h, h];
    assert s[2] != h && s[3] != h;
    assert !HasTripleRun(s, h);
    assert s[..5][..4] == [h, h, a, b];
    assert TrailingRun(s, h) == 2;
    HeaderWait(Initial, s);
    HeaderEnter(Initial, s);
    assert s + [h] == [h, h, a, b, h, h, h];
  }
}
