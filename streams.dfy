/** The read loop of the serial thread over a finite stream of bytes, and
    what it does to a whole stream: which frames it recovers and dispatches. */
module Streams {
  import opened Wire
  import opened Framing

  /** The last action is the exception that ended the read loop. */
  predicate Crashed(actions: seq<Action>) {
    |actions| > 0 && actions[|actions| - 1].IndexError?
  }

  /** `n` bytes that did nothing visible. */
  function Quiet(n: nat): (r: seq<Action>) {
    seq(n, _ => NoAction)
  }

  /** The fields after the read loop has handled the bytes of `input` one at
      a time, starting from `m`, and the action of each byte handled. An
      `IndexError` escapes the loop, so no byte after it is read. */
  function Run(m: Machine, input: Bytes): (r: (Machine, seq<Action>))
    ensures |r.1| <= |input|
    ensures !Crashed(r.1) ==> |r.1| == |input|
    decreases |input|
  {
    if input == [] then (m, [])
    else
      var (m1, actions) := Run(m, input[..|input| - 1]);
      if Crashed(actions) then (m1, actions)
      else
        var (m2, a) := Next(m1, input[|input| - 1]);
        (m2, actions + [a])
  }

  /** One more byte: ignored after a crash, handled by `Next` otherwise. */
  lemma RunSnoc(m: Machine, s: Bytes, b: Byte)
    ensures var (m1, actions) := Run(m, s);
      Run(m, s + [b]) == if Crashed(actions) then (m1, actions)
                         else (Next(m1, b).0, actions + [Next(m1, b).1])
  {
    assert (s + [b])[..|s|] == s;
  }

  /** Once the loop has crashed, further bytes change nothing. */
  lemma {:induction false} RunStopsAtCrash(m: Machine, s: Bytes, t: Bytes)
    requires Crashed(Run(m, s).1)
    ensures Run(m, s + t) == Run(m, s)
    decreases |t|
  {
    if t == [] {
      assert s + t == s;
    } else {
      var t' := t[..|t| - 1];
      assert s + t == (s + t') + [t[|t| - 1]];
      RunStopsAtCrash(m, s, t');
      RunSnoc(m, s + t', t[|t| - 1]);
    }
  }

  /** The loop after `i` bytes of `input`, then one more. */
  lemma RunPrefix(m: Machine, input: Bytes, i: nat)
    requires i < |input|
    ensures var (m1, actions) := Run(m, input[..i]);
      Run(m, input[..i + 1]) == if Crashed(actions) then (m1, actions)
                                else (Next(m1, input[i]).0, actions + [Next(m1, input[i]).1])
  {
    assert input[..i + 1] == input[..i] + [input[i]];
    RunSnoc(m, input[..i], input[i]);
  }

  /** A loop that crashed within the first `i` bytes of `input` ends there. */
  lemma RunCrashedPrefix(m: Machine, input: Bytes, i: nat)
    requires i <= |input| && Crashed(Run(m, input[..i]).1)
    ensures Run(m, input) == Run(m, input[..i])
  {
    RunStopsAtCrash(m, input[..i], input[i..]);
    assert input[..i] + input[i..] == input;
  }

  /** Reading `s` then `t` is reading `s`, then reading `t` from where `s` left
      the fields, as long as `s` did not crash the loop. */
  lemma {:induction false} RunConcat(m: Machine, s: Bytes, t: Bytes)
    requires !Crashed(Run(m, s).1)
    ensures var (m1, a1) := Run(m, s);
      Run(m, s + t) == (Run(m1, t).0, a1 + Run(m1, t).1)
    decreases |t|
  {
    if t == [] {
      assert s + t == s;
      assert Run(m, s).1 + [] == Run(m, s).1;
    } else {
      var t', b := t[..|t| - 1], t[|t| - 1];
      assert t' + [b] == t;
      assert (s + t') + [b] == s + t;
      RunConcat(m, s, t');
      RunConcatSnoc(m, s, t', b);
    }
  }

  /** The inductive step of `RunConcat`: one more byte after `s + t`. */
  lemma RunConcatSnoc(m: Machine, s: Bytes, t: Bytes, b: Byte)
    requires !Crashed(Run(m, s).1)
    requires var (m1, a1) := Run(m, s);
      Run(m, s + t) == (Run(m1, t).0, a1 + Run(m1, t).1)
    ensures var (m1, a1) := Run(m, s);
      Run(m, (s + t) + [b]) == (Run(m1, t + [b]).0, a1 + Run(m1, t + [b]).1)
  {
    var m1, a1 := Run(m, s).0, Run(m, s).1;
    var m2, a2 := Run(m1, t).0, Run(m1, t).1;
    var n := Next(m2, b);
    assert Crashed(a1 + a2) == Crashed(a2);
    assert Run(m, (s + t) + [b]) == if Crashed(a2) then (m2, a1 + a2) else (n.0, (a1 + a2) + [n.1]) by {
      RunSnoc(m, s + t, b);
    }
    assert Run(m1, t + [b]) == if Crashed(a2) then (m2, a2) else (n.0, a2 + [n.1]) by {
      RunSnoc(m1, t, b);
    }
    if !Crashed(a2) {
      assert (a1 + a2) + [n.1] == a1 + (a2 + [n.1]);
    }
  }

  /** The loop keeps the invariant of the machine over any stream. */
  lemma {:induction false} RunValid(m: Machine, s: Bytes)
    requires Valid(m)
    ensures Valid(Run(m, s).0)
    decreases |s|
  {
    if s != [] {
      RunValid(m, s[..|s| - 1]);
      NextValid(Run(m, s[..|s| - 1]).0, s[|s| - 1]);
    }
  }

  /** A frame sent to the socket side is never empty, never starts with `R`,
      never ends in `$` and never holds `$$$`. */
  predicate ForwardableFrame(f: Bytes) {
    |f| > 0 && f[0] != CreditTag && f[|f| - 1] != TrailerMarker && !HasTripleRun(f, TrailerMarker)
  }

  /** Every frame the loop forwards, over any stream, is well formed. */
  lemma {:induction false} ForwardedFramesWellFormed(m: Machine, s: Bytes)
    requires Valid(m)
    ensures forall k :: 0 <= k < |Run(m, s).1| && Run(m, s).1[k].Forward? ==> ForwardableFrame(Run(m, s).1[k].frame)
    decreases |s|
  {
    if s != [] {
      var s' := s[..|s| - 1];
      ForwardedFramesWellFormed(m, s');
      var (m1, actions) := Run(m, s');
      if !Crashed(actions) {
        RunValid(m, s');
        var (m2, a) := Next(m1, s[|s| - 1]);
        if m1.state == WaitHeader {
          HeaderStep(m1, s[|s| - 1]);
        } else {
          BodyStep(m1, s[|s| - 1]);
        }
        assert a.Forward? ==> ForwardableFrame(a.frame);
        assert Run(m, s).1 == actions + [a];
      }
    }
  }

  /** Header detection over a stream: from `WAIT_HEADER` with a zero count,
      bytes that hold no `^^^` leave the machine waiting, with the count equal
      to the number of trailing `^` (so a partial run of one or two `^`
      followed by another byte does not carry over), and do nothing else. */
  lemma {:induction false} HeaderWait(m: Machine, s: Bytes)
    requires m.state == WaitHeader && m.numDelimiter == 0
    requires !HasTripleRun(s, HeaderMarker)
    ensures Run(m, s) == (m.(numDelimiter := TrailingRun(s, HeaderMarker)), Quiet(|s|))
    decreases |s|
  {
    if s != [] {
      var s' := s[..|s| - 1];
      var b := s[|s| - 1];
      assert s == s' + [b];
      TripleRunSnoc(s', b, HeaderMarker);
      HeaderWait(m, s');
      RunSnoc(m, s', b);
      var m1 := m.(numDelimiter := TrailingRun(s', HeaderMarker));
      assert !Crashed(Quiet(|s'|));
      assert TrailingRun(s, HeaderMarker) == if b == HeaderMarker then TrailingRun(s', HeaderMarker) + 1 else 0;
      assert Next(m1, b) == (m.(numDelimiter := TrailingRun(s, HeaderMarker)), NoAction);
      assert Quiet(|s'|) + [NoAction] == Quiet(|s|);
    } else {
      assert Quiet(0) == [];
    }
  }

  /** ... and the machine enters `RECEIVING_COMMAND`, with an empty frame and a
      zero count, on the byte that completes the first `^^^`. */
  lemma HeaderEnter(m: Machine, s: Bytes)
    requires m.state == WaitHeader && m.numDelimiter == 0
    requires !HasTripleRun(s, HeaderMarker) && TrailingRun(s, HeaderMarker) == 2
    ensures Run(m, s + [HeaderMarker]) ==
            (m.(state := ReceivingCommand, serialInput := [], numDelimiter := 0), Quiet(|s| + 1))
  {
    HeaderWait(m, s);
    assert (s + [HeaderMarker])[..|s|] == s;
    assert Quiet(|s|) + [NoAction] == Quiet(|s| + 1);
  }

  /** Accumulation over a stream: once a frame is open, bytes that hold no
      `$$$` are appended to the frame unchanged, with the count equal to the
      number of trailing `$`, and do nothing else. */
  lemma {:induction false} BodyAccumulate(m: Machine, t: Bytes)
    requires m.state == ReceivingCommand && m.numDelimiter == 0 && m.serialInput == []
    requires !HasTripleRun(t, TrailerMarker)
    ensures Run(m, t) == (m.(serialInput := t, numDelimiter := TrailingRun(t, TrailerMarker)), Quiet(|t|))
    decreases |t|
  {
    if t != [] {
      var t' := t[..|t| - 1];
      var b := t[|t| - 1];
      assert t == t' + [b];
      TripleRunSnoc(t', b, TrailerMarker);
      BodyAccumulate(m, t');
      RunSnoc(m, t', b);
      var m1 := m.(serialInput := t', numDelimiter := TrailingRun(t', TrailerMarker));
      assert !Crashed(Quiet(|t'|));
      assert TrailingRun(t, TrailerMarker) == if b == TrailerMarker then TrailingRun(t', TrailerMarker) + 1 else 0;
      assert Next(m1, b) == (m.(serialInput := t, numDelimiter := TrailingRun(t, TrailerMarker)), NoAction);
      assert Quiet(|t'|) + [NoAction] == Quiet(|t|);
    } else {
      assert Quiet(0) == [];
    }
  }

  /** The body of a frame and its closing `$$$`: once a frame is open, a
      body `f` that holds no `$$$` and does not end in `$`, then `$$$`,
      delivers exactly `f` to dispatch on the last byte. */
  lemma FrameClosed(m: Machine, f: Bytes)
    requires m.state == ReceivingCommand && m.numDelimiter == 0 && m.serialInput == []
    requires !HasTripleRun(f, TrailerMarker) && (f == [] || f[|f| - 1] != TrailerMarker)
    ensures var (output, a) := Dispatch(f, m.serialOutput);
      Run(m, f + [TrailerMarker, TrailerMarker, TrailerMarker]) ==
      (Machine(WaitHeader, 0, f, output), Quiet(|f| + 2) + [a])
  {
    var t := f + [TrailerMarker, TrailerMarker];
    var m1 := m.(serialInput := t, numDelimiter := 2);
    var d := Dispatch(f, m.serialOutput);
    var closed := Machine(WaitHeader, 0, f, d.0);
    assert Run(m, t) == (m1, Quiet(|t|)) && Valid(m1) by {
      TwoMoreOfRun(f, TrailerMarker);
      BodyAccumulate(m, t);
    }
    assert Next(m1, TrailerMarker) == (closed, d.1) by {
      assert t[..|t| - 2] == f;
      CloseStep(m1);
    }
    assert Run(m, t + [TrailerMarker]) == (closed, Quiet(|t|) + [d.1]) by {
      RunSnoc(m, t, TrailerMarker);
    }
    assert t + [TrailerMarker] == f + [TrailerMarker, TrailerMarker, TrailerMarker];
  }

  /** Three `^` from `WAIT_HEADER` with a zero count open a frame. */
  lemma HeaderOpened(m: Machine)
    requires m.state == WaitHeader && m.numDelimiter == 0
    ensures Run(m, [HeaderMarker, HeaderMarker, HeaderMarker]) ==
            (m.(state := ReceivingCommand, serialInput := [], numDelimiter := 0), Quiet(3))
  {
    var h: Bytes := [HeaderMarker, HeaderMarker];
    assert !HasTripleRun(h, HeaderMarker);
    assert h[..1] == [HeaderMarker] && h[..1][..0] == [];
    HeaderEnter(m, h);
    assert h + [HeaderMarker] == [HeaderMarker, HeaderMarker, HeaderMarker];
  }

  /** A frame as the mote writes it on the serial link: `^^^`, the frame, `$$$`. */
  function Framed(f: Bytes): (r: Bytes) {
    [HeaderMarker, HeaderMarker, HeaderMarker] + f + [TrailerMarker, TrailerMarker, TrailerMarker]
  }

  /** A whole frame: from `WAIT_HEADER` with a zero count, `^^^`, then a body
      `f` that holds no `$$$` and does not end in `$`, then `$$$`, delivers
      exactly `f` to dispatch, on the last byte, and leaves the machine
      waiting for the next header with a zero count. */
  lemma FrameDelivered(m: Machine, f: Bytes)
    requires m.state == WaitHeader && m.numDelimiter == 0
    requires !HasTripleRun(f, TrailerMarker) && (f == [] || f[|f| - 1] != TrailerMarker)
    ensures var (output, a) := Dispatch(f, m.serialOutput);
      Run(m, Framed(f)) == (Machine(WaitHeader, 0, f, output), Quiet(|f| + 5) + [a])
  {
    var header: Bytes := [HeaderMarker, HeaderMarker, HeaderMarker];
    var body := f + [TrailerMarker, TrailerMarker, TrailerMarker];
    var open := m.(state := ReceivingCommand, serialInput := [], numDelimiter := 0);
    var d := Dispatch(f, m.serialOutput);
    var closed := Machine(WaitHeader, 0, f, d.0);
    assert header + body == Framed(f);
    assert Quiet(3) + (Quiet(|f| + 2) + [d.1]) == Quiet(|f| + 5) + [d.1];
    assert Run(m, header) == (open, Quiet(3)) by {
      HeaderOpened(m);
    }
    assert Run(open, body) == (closed, Quiet(|f| + 2) + [d.1]) by {
      FrameClosed(open, f);
    }
    assert Run(m, header + body) == (closed, Quiet(3) + (Quiet(|f| + 2) + [d.1])) by {
      assert !Crashed(Quiet(3));
      RunConcat(m, header, body);
    }
  }

  /** The frames a byte stream holds, read off the stream without the
      machine: skip past the first `^^^`, then take the bytes before the
      first `$$$` after it as a frame, and start again after that `$$$`. A
      header without its trailer holds no frame. */
  function Frames(s: Bytes): (r: seq<Bytes>)
    decreases |s|, 1
  {
    if !HasTripleRun(s, HeaderMarker) then []
    else BodyFrames(s[ShortestTriplePrefix(s, HeaderMarker)..])
  }

  /** The frames of a stream read after a header. */
  function BodyFrames(body: Bytes): (r: seq<Bytes>)
    decreases |body|, 0
  {
    if !HasTripleRun(body, TrailerMarker) then []
    else
      var j := ShortestTriplePrefix(body, TrailerMarker);
      [body[..j - RunLength]] + Frames(body[j..])
  }

  /** Dispatch of frames in order, the output buffer threaded through: the
      final buffer and the visible actions; an `IndexError` ends it. */
  function DispatchAll(frames: seq<Bytes>, serialOutput: Bytes): (r: (Bytes, seq<Action>))
    decreases |frames|
  {
    if frames == [] then (serialOutput, [])
    else
      var (output, a) := Dispatch(frames[0], serialOutput);
      if a.IndexError? then (output, [a])
      else
        var (final, rest) := DispatchAll(frames[1..], output);
        (final, (if a.NoAction? then [] else [a]) + rest)
  }

  /** The actions other than `NoAction`, in order. */
  function Visible(actions: seq<Action>): (r: seq<Action>)
    decreases |actions|
  {
    if actions == [] then []
    else (if actions[0].NoAction? then [] else [actions[0]]) + Visible(actions[1..])
  }

  lemma {:induction false} VisibleConcat(a: seq<Action>, b: seq<Action>)
    ensures Visible(a + b) == Visible(a) + Visible(b)
    decreases |a|
  {
    if a == [] {
      assert a + b == b;
    } else {
      assert (a + b)[1..] == a[1..] + b;
      VisibleConcat(a[1..], b);
    }
  }

  lemma {:induction false} VisibleQuiet(n: nat)
    ensures Visible(Quiet(n)) == []
  {
    if n > 0 {
      assert Quiet(n)[1..] == Quiet(n - 1);
      VisibleQuiet(n - 1);
    }
  }

  /** From `WAIT_HEADER` with a zero count, the machine opens a frame right
      after the first `^^^` of the stream, and not before. */
  lemma HeaderFirst(m: Machine, s: Bytes)
    requires m.state == WaitHeader && m.numDelimiter == 0 && HasTripleRun(s, HeaderMarker)
    ensures Run(m, s[..ShortestTriplePrefix(s, HeaderMarker)]) ==
            (m.(state := ReceivingCommand, serialInput := [], numDelimiter := 0), Quiet(ShortestTriplePrefix(s, HeaderMarker)))
  {
    var i := ShortestTriplePrefix(s, HeaderMarker);
    FirstTripleSplit(s, HeaderMarker);
    HeaderEnter(m, s[..i - 1]);
  }

  /** Once a frame is open, it closes right at the first `$$$`, delivering
      the bytes before it. */
  lemma BodyFirst(m: Machine, body: Bytes)
    requires m.state == ReceivingCommand && m.numDelimiter == 0 && m.serialInput == []
    requires HasTripleRun(body, TrailerMarker)
    ensures var j := ShortestTriplePrefix(body, TrailerMarker);
      var f := body[..j - RunLength];
      var (output, a) := Dispatch(f, m.serialOutput);
      Run(m, body[..j]) == (Machine(WaitHeader, 0, f, output), Quiet(j - 1) + [a])
  {
    var j := ShortestTriplePrefix(body, TrailerMarker);
    FirstTripleSplit(body, TrailerMarker);
    FrameClosed(m, body[..j - RunLength]);
  }

  /** The frames the read loop dispatches are exactly the frames of the
      stream, in order: reading a stream from `WAIT_HEADER` with a zero count
      writes, forwards and raises exactly what dispatching `Frames(s)` one
      after the other does, and leaves the same output buffer. */
  lemma {:induction false} FramesDispatched(m: Machine, s: Bytes)
    requires m.state == WaitHeader && m.numDelimiter == 0
    ensures Run(m, s).0.serialOutput == DispatchAll(Frames(s), m.serialOutput).0
    ensures Visible(Run(m, s).1) == DispatchAll(Frames(s), m.serialOutput).1
    decreases |s|, 2
  {
    if !HasTripleRun(s, HeaderMarker) {
      HeaderWait(m, s);
      VisibleQuiet(|s|);
    } else {
      var i := ShortestTriplePrefix(s, HeaderMarker);
      var open := m.(state := ReceivingCommand, serialInput := [], numDelimiter := 0);
      HeaderFirst(m, s);
      var body := s[i..];
      assert s == s[..i] + body;
      RunConcat(m, s[..i], body);
      BodyDispatched(open, body);
      VisibleConcat(Quiet(i), Run(open, body).1);
      VisibleQuiet(i);
    }
  }

  /** The same, for the rest of a stream read after a header. */
  lemma {:induction false} BodyDispatched(m: Machine, body: Bytes)
    requires m.state == ReceivingCommand && m.numDelimiter == 0 && m.serialInput == []
    ensures Run(m, body).0.serialOutput == DispatchAll(BodyFrames(body), m.serialOutput).0
    ensures Visible(Run(m, body).1) == DispatchAll(BodyFrames(body), m.serialOutput).1
    decreases |body|, 1
  {
    if !HasTripleRun(body, TrailerMarker) {
      BodyAccumulate(m, body);
      VisibleQuiet(|body|);
    } else {
      BodyClosedDispatched(m, body);
    }
  }

  /** ... in the case where the body holds its trailer. */
  lemma {:induction false} BodyClosedDispatched(m: Machine, body: Bytes)
    requires m.state == ReceivingCommand && m.numDelimiter == 0 && m.serialInput == []
    requires HasTripleRun(body, TrailerMarker)
    ensures Run(m, body).0.serialOutput == DispatchAll(BodyFrames(body), m.serialOutput).0
    ensures Visible(Run(m, body).1) == DispatchAll(BodyFrames(body), m.serialOutput).1
    decreases |body|, 0
  {
    var j := ShortestTriplePrefix(body, TrailerMarker);
    var f := body[..j - RunLength];
    var rest := body[j..];
    var output, a := Dispatch(f, m.serialOutput).0, Dispatch(f, m.serialOutput).1;
    var closed := Machine(WaitHeader, 0, f, output);
    BodyFramesFirst(body);
    assert Run(m, body[..j]) == (closed, Quiet(j - 1) + [a]) by {
      BodyFirst(m, body);
    }
    assert body[..j] + rest == body;
    assert DispatchAll(BodyFrames(body), m.serialOutput) ==
      if a.IndexError? then (output, [a])
      else (DispatchAll(Frames(rest), output).0, (if a.NoAction? then [] else [a]) + DispatchAll(Frames(rest), output).1)
    by {
      DispatchAllCons(f, Frames(rest), m.serialOutput);
    }
    assert Visible(Quiet(j - 1) + [a]) == if a.NoAction? then [] else [a] by {
      VisibleClose(j - 1, a);
    }
    if a.IndexError? {
      RunStopsAtCrash(m, body[..j], rest);
    } else {
      assert Run(m, body) == (Run(closed, rest).0, (Quiet(j - 1) + [a]) + Run(closed, rest).1) by {
        RunConcat(m, body[..j], rest);
      }
      FramesDispatched(closed, rest);
      VisibleConcat(Quiet(j - 1) + [a], Run(closed, rest).1);
    }
  }

  /** A body that holds its trailer starts with the frame before it. */
  lemma BodyFramesFirst(body: Bytes)
    requires HasTripleRun(body, TrailerMarker)
    ensures var j := ShortestTriplePrefix(body, TrailerMarker);
      BodyFrames(body) == [body[..j - RunLength]] + Frames(body[j..])
  {
  }

  /** Dispatching a first frame, then the others from the buffer it left. */
  lemma DispatchAllCons(f: Bytes, frames: seq<Bytes>, serialOutput: Bytes)
    ensures var (output, a) := Dispatch(f, serialOutput);
      DispatchAll([f] + frames, serialOutput) ==
        if a.IndexError? then (output, [a])
        else (DispatchAll(frames, output).0, (if a.NoAction? then [] else [a]) + DispatchAll(frames, output).1)
  {
    assert ([f] + frames)[1..] == frames;
  }

  /** The bytes of a frame up to its closing byte show only what that byte did. */
  lemma VisibleClose(n: nat, a: Action)
    ensures Visible(Quiet(n) + [a]) == if a.NoAction? then [] else [a]
  {
    VisibleConcat(Quiet(n), [a]);
    VisibleQuiet(n);
    assert [a][1..] == [];
  }
}
