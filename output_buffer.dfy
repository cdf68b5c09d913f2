/** The output buffer `serialOutput` of the serial thread: what `send` appends
    to it, and the layout that a series of sends leaves in it. */
module OutputBuffer {
  import opened Wire

  /** What one call of `send` does. `chr` raising `ValueError` for an
      argument above 255 is `ChrOutOfRange`; the warning printed when the
      buffer passes the watermark is `overflowWarning`. */
  datatype SendOutcome = ChrOutOfRange | Appended(overflowWarning: bool)

  /** `buffer + 'D' + chr(len(buffer)) + payload`. The length byte holds the
      size of the buffer BEFORE the append, not the size of the payload. */
  function Append(buffer: Bytes, payload: Bytes): (r: Bytes)
    requires |buffer| <= 255
    ensures |r| == |buffer| + 2 + |payload|
    ensures r[..|buffer|] == buffer
    ensures r[|buffer|] == DataTag && r[|buffer| + 1] == |buffer|
    ensures r[|buffer| + 2..] == payload
  {
    buffer + [DataTag, |buffer|] + payload
  }

  /** The new buffer and the outcome of `send(payload)` on `buffer`. The
      `chr` call fails before the buffer is touched; a buffer that grows past
      the watermark is only reported, never refused or truncated. */
  function SendResult(buffer: Bytes, payload: Bytes): (r: (Bytes, SendOutcome))
    ensures r.1.ChrOutOfRange? <==> |buffer| > 255
    ensures r.1.ChrOutOfRange? ==> r.0 == buffer
    ensures r.1.Appended? ==> r.0 == Append(buffer, payload)
    ensures r.1.Appended? ==> (r.1.overflowWarning <==> |buffer| + 2 + |payload| > OverflowWatermark)
  {
    if |buffer| > 255 then (buffer, ChrOutOfRange)
    else
      var next := Append(buffer, payload);
      (next, Appended(|next| > OverflowWatermark))
  }

  /** Where the record of the `k`-th payload starts in a buffer filled by
      sending `payloads` in order, starting empty. */
  function Offset(payloads: seq<Bytes>, k: nat): (o: nat)
    requires k <= |payloads|
  {
    if k == 0 then 0 else Offset(payloads, k - 1) + 2 + |payloads[k - 1]|
  }

  /** The buffer after sending `payloads` in order to an empty buffer, or
      `None` if one of the sends raised. Every send after one that raised is
      counted as failed too: in the program it blocks on the lock the raising
      send left held. */
  function Pack(payloads: seq<Bytes>): (r: Option<Bytes>)
  {
    if payloads == [] then Some([])
    else
      match Pack(payloads[..|payloads| - 1])
      case None => None
      case Some(buffer) =>
        var (next, outcome) := SendResult(buffer, payloads[|payloads| - 1]);
        if outcome.ChrOutOfRange? then None else Some(next)
  }

  /** The record of `payload` sits at offset `o` of `buffer`. */
  predicate RecordAt(buffer: Bytes, o: nat, payload: Bytes) {
    o + 2 + |payload| <= |buffer| &&
    buffer[o] == DataTag && buffer[o + 1] == o &&
    buffer[o + 2..o + 2 + |payload|] == payload
  }

  lemma {:induction false} OffsetPrefix(payloads: seq<Bytes>, n: nat, k: nat)
    requires k <= n <= |payloads|
    ensures Offset(payloads[..n], k) == Offset(payloads, k)
  {
    if k > 0 {
      OffsetPrefix(payloads, n, k - 1);
      assert payloads[..n][k - 1] == payloads[k - 1];
    }
  }

  lemma {:induction false} OffsetMonotone(payloads: seq<Bytes>, j: nat, k: nat)
    requires j <= k <= |payloads|
    ensures Offset(payloads, j) <= Offset(payloads, k)
  {
    if j < k {
      OffsetMonotone(payloads, j, k - 1);
    }
  }

  /** Sending a series of payloads to an empty buffer succeeds exactly when
      every record but possibly the last starts below offset 256, i.e. when the
      last send sees a buffer of at most 255 bytes. */
  lemma {:induction false} PackDefined(payloads: seq<Bytes>)
    ensures Pack(payloads).Some? <==> (|payloads| == 0 || Offset(payloads, |payloads| - 1) <= 255)
    ensures Pack(payloads).Some? ==> |Pack(payloads).value| == Offset(payloads, |payloads|)
  {
    if payloads != [] {
      var n := |payloads| - 1;
      var init := payloads[..n];
      PackDefined(init);
      OffsetPrefix(payloads, n, n);
      if n > 0 {
        OffsetPrefix(payloads, n, n - 1);
        OffsetMonotone(payloads, n - 1, n);
      }
    }
  }

  /** The last of a successful series of sends appended to the buffer the
      earlier ones left. */
  lemma PackSnoc(payloads: seq<Bytes>)
    requires payloads != [] && Pack(payloads).Some?
    ensures var init := Pack(payloads[..|payloads| - 1]);
      init.Some? && |init.value| <= 255 &&
      Pack(payloads).value == Append(init.value, payloads[|payloads| - 1])
  {
  }

  /** A record stays where it is when the buffer grows at its end. */
  lemma RecordAtExtend(buffer: Bytes, r: Bytes, o: nat, payload: Bytes)
    requires |buffer| <= |r| && r[..|buffer|] == buffer
    requires RecordAt(buffer, o, payload)
    ensures RecordAt(r, o, payload)
  {
    assert r[o + 2..o + 2 + |payload|] == r[..|buffer|][o + 2..o + 2 + |payload|];
  }

  /** One record of a successful series of sends, given the layout of the
      buffer before the last send. */
  lemma PackLayoutAt(payloads: seq<Bytes>, k: nat)
    requires payloads != [] && Pack(payloads).Some? && k < |payloads|
    requires var init := payloads[..|payloads| - 1];
      Pack(init).Some? && |Pack(init).value| == Offset(init, |init|) &&
      forall j :: 0 <= j < |init| ==> RecordAt(Pack(init).value, Offset(init, j), init[j])
    ensures RecordAt(Pack(payloads).value, Offset(payloads, k), payloads[k])
  {
    var n := |payloads| - 1;
    var init := payloads[..n];
    PackSnoc(payloads);
    var buffer := Pack(init).value;
    var r := Pack(payloads).value;
    OffsetPrefix(payloads, n, k);
    if k < n {
      assert RecordAt(buffer, Offset(init, k), init[k]);
      RecordAtExtend(buffer, r, Offset(payloads, k), payloads[k]);
    } else {
      OffsetPrefix(payloads, n, n);
      assert r[|buffer| + 2..|buffer| + 2 + |payloads[k]|] == r[|buffer| + 2..];
    }
  }

  /** The layout a series of sends leaves: record `k` starts at `Offset(k)`
      with a `D`, then the byte `Offset(k)` (the buffer size when it was
      sent), then the `k`-th payload unchanged; the records fill the buffer. */
  lemma {:induction false} PackLayout(payloads: seq<Bytes>)
    requires Pack(payloads).Some?
    ensures |Pack(payloads).value| == Offset(payloads, |payloads|)
    ensures forall k :: 0 <= k < |payloads| ==> RecordAt(Pack(payloads).value, Offset(payloads, k), payloads[k])
  {
    PackDefined(payloads);
    if payloads != [] {
      var init := payloads[..|payloads| - 1];
      PackSnoc(payloads);
      PackLayout(init);
      forall k | 0 <= k < |payloads|
        ensures RecordAt(Pack(payloads).value, Offset(payloads, k), payloads[k])
      {
        PackLayoutAt(payloads, k);
      }
    }
  }

  /** `send("abc")` then `send("de")` leaves `D\x00abcD\x05de`: the second
      length byte is 5, the size of the buffer, not 2, the size of `"de"`. */
  lemma SendTwiceLayout()
    ensures Pack([['a' as int, 'b' as int, 'c' as int], ['d' as int, 'e' as int]])
         == Some([DataTag, 0, 'a' as int, 'b' as int, 'c' as int, DataTag, 5, 'd' as int, 'e' as int])
  {
    var abc: Bytes := ['a' as int, 'b' as int, 'c' as int];
    var de: Bytes := ['d' as int, 'e' as int];
    var none: seq<Bytes> := [];
    assert [abc][..0] == none;
    assert Append([], abc) == [DataTag, 0] + abc;
    assert Pack([abc]) == Some([DataTag, 0] + abc);
    assert [abc, de][..1] == [abc];
    assert Append([DataTag, 0] + abc, de) == [DataTag, 0] + abc + [DataTag, 5] + de;
    assert [DataTag, 0] + abc + [DataTag, 5] + de == [DataTag, 0, 'a' as int, 'b' as int, 'c' as int, DataTag, 5, 'd' as int, 'e' as int];
  }

  /** Two different series of sends can leave the same buffer, so the mote
      cannot tell where one payload ends: `send("a"); send("b")` and
      `send("aD\x03b")` both leave `D\x00aD\x03b`. */
  lemma PackIsAmbiguous()
    ensures var a, b: Byte := 'a' as int, 'b' as int;
      Pack([[a], [b]]) == Pack([[a, DataTag, 3, b]]) && [[a], [b]] != [[a, DataTag, 3, b]]
  {
    var a, b: Byte := 'a' as int, 'b' as int;
    var none: seq<Bytes> := [];
    assert [[a]][..0] == none;
    assert [[a, DataTag, 3, b]][..0] == none;
    assert Append([], [a]) == [DataTag, 0, a];
    assert Pack([[a]]) == Some([DataTag, 0, a]);
    assert [[a], [b]][..1] == [[a]];
    assert Append([DataTag, 0, a], [b]) == [DataTag, 0, a, DataTag, 3, b];
    assert Append([], [a, DataTag, 3, b]) == [DataTag, 0, a, DataTag, 3, b];
  }
}
