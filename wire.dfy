/** Bytes on the serial link between the bridge and the mote, and the
    constants of the wire format. A Python 2 `str` read from or written to
    the serial port is a sequence of such bytes. */
module Wire {

  /** One byte: the value `ord(c)` of a one-character Python 2 string. */
  type Byte = b: int | 0 <= b < 256

  type Bytes = seq<Byte>

  datatype Option<T> = None | Some(value: T)

  /** `'^'`: three in a row open a frame. */
  const HeaderMarker: Byte := '^' as int

  /** `'$'`: three in a row close a frame. */
  const TrailerMarker: Byte := '$' as int

  /** `'R'`: byte 0 of a frame in which the mote asks for data. */
  const CreditTag: Byte := 'R' as int

  /** The value of byte 1 of an `R` frame that allows the output buffer to be flushed. */
  const CreditThreshold: Byte := 200

  /** `'D'`: first byte of every record appended to the output buffer. */
  const DataTag: Byte := 'D' as int

  /** Length of a delimiter run that opens or closes a frame. */
  const RunLength: nat := 3

  /** Output-buffer size above which `send` prints a warning. */
  const OverflowWatermark: nat := 200

  /** The number of bytes at the end of `s` that are all equal to `x`. */
  function TrailingRun(s: Bytes, x: Byte): (n: nat)
    ensures n <= |s|
    ensures forall i :: |s| - n <= i < |s| ==> s[i] == x
    ensures n < |s| ==> s[|s| - n - 1] != x
  {
    if s == [] || s[|s| - 1] != x then 0 else TrailingRun(s[..|s| - 1], x) + 1
  }

  /** Python's `s.rstrip(x)` for a one-character `x`: drop every trailing `x`. */
  function RStrip(s: Bytes, x: Byte): (r: Bytes)
    ensures |r| + TrailingRun(s, x) == |s|
    ensures r == s[..|r|]
    ensures r == [] || r[|r| - 1] != x
  {
    if s != [] && s[|s| - 1] == x then RStrip(s[..|s| - 1], x) else s
  }

  /** `x * 3 in s`: three consecutive bytes of `s` equal `x`. */
  predicate HasTripleRun(s: Bytes, x: Byte) {
    exists i :: 0 <= i && i + 2 < |s| && s[i] == x && s[i + 1] == x && s[i + 2] == x
  }

  /** Appending one byte creates a run of three exactly when the trailing run reaches three. */
  lemma TripleRunSnoc(s: Bytes, b: Byte, x: Byte)
    ensures HasTripleRun(s + [b], x) <==> HasTripleRun(s, x) || TrailingRun(s + [b], x) >= RunLength
  {
    var t := s + [b];
    if HasTripleRun(t, x) && !HasTripleRun(s, x) {
      var i :| 0 <= i && i + 2 < |t| && t[i] == x && t[i + 1] == x && t[i + 2] == x;
      assert i == |t| - 3;
      assert t[..|t| - 1][..|t| - 2] == t[..|t| - 2];
      assert t[..|t| - 2][..|t| - 3] == t[..|t| - 3];
      assert TrailingRun(t[..|t| - 2], x) >= 1;
      assert TrailingRun(t[..|t| - 1], x) >= 2;
      assert TrailingRun(t, x) >= 3;
    }
    if TrailingRun(t, x) >= RunLength {
      var i := |t| - 3;
      assert t[i] == x && t[i + 1] == x && t[i + 2] == x;
    }
  }

  /** A prefix of a sequence without a run of three has none either. */
  lemma TripleRunPrefix(s: Bytes, n: nat, x: Byte)
    requires n <= |s|
    ensures HasTripleRun(s[..n], x) ==> HasTripleRun(s, x)
  {
    if HasTripleRun(s[..n], x) {
      var i :| 0 <= i && i + 2 < n && s[..n][i] == x && s[..n][i + 1] == x && s[..n][i + 2] == x;
      assert s[i] == x && s[i + 1] == x && s[i + 2] == x;
    }
  }

  /** The length of the shortest prefix of `s` that holds three `x` in a row,
      i.e. the index just past the first such run. */
  function ShortestTriplePrefix(s: Bytes, x: Byte): (i: nat)
    requires HasTripleRun(s, x)
    ensures RunLength <= i <= |s|
    ensures HasTripleRun(s[..i], x) && !HasTripleRun(s[..i - 1], x)
  {
    SearchTriple(s, x, 0)
  }

  function SearchTriple(s: Bytes, x: Byte, i: nat): (j: nat)
    requires HasTripleRun(s, x) && i <= |s| && !HasTripleRun(s[..i], x)
    ensures i < j <= |s| && RunLength <= j
    ensures HasTripleRun(s[..j], x) && !HasTripleRun(s[..j - 1], x)
    decreases |s| - i
  {
    assert s[..|s|] == s;
    if HasTripleRun(s[..i + 1], x) then
      assert s[..i + 1][..i] == s[..i];
      i + 1
    else SearchTriple(s, x, i + 1)
  }

  /** The shortest prefix holding a run of three `x` ends in exactly that
      run: what comes before it holds no such run and does not end in `x`. */
  lemma FirstTripleSplit(s: Bytes, x: Byte)
    requires HasTripleRun(s, x)
    ensures var i := ShortestTriplePrefix(s, x);
      var p := s[..i - 1];
      var f := s[..i - 3];
      s[..i] == p + [x] && !HasTripleRun(p, x) && TrailingRun(p, x) == 2 &&
      s[..i] == f + [x, x, x] && !HasTripleRun(f, x) && (f == [] || f[|f| - 1] != x)
  {
    var i := ShortestTriplePrefix(s, x);
    var t, p, f := s[..i], s[..i - 1], s[..i - 3];
    TripleCompleted(s, i, x);
    assert t == p + [s[i - 1]];
    assert p[..|p| - 2] == f;
    RunOfTwo(p, x);
  }

  /** When `s[..i]` holds a run of three `x` and `s[..i - 1]` does not, byte
      `i - 1` is an `x` that follows exactly two. */
  lemma TripleCompleted(s: Bytes, i: nat, x: Byte)
    requires 1 <= i <= |s| && HasTripleRun(s[..i], x) && !HasTripleRun(s[..i - 1], x)
    ensures s[i - 1] == x && TrailingRun(s[..i - 1], x) == 2
  {
    var p, b := s[..i - 1], s[i - 1];
    assert s[..i] == p + [b];
    TripleRunSnoc(p, b, x);
    LongRunIsTriple(p, x);
    assert (p + [b])[..|p|] == p;
  }

  /** A trailing run of three or more `x` is a run of three `x`. */
  lemma LongRunIsTriple(p: Bytes, x: Byte)
    ensures TrailingRun(p, x) >= RunLength ==> HasTripleRun(p, x)
  {
    if TrailingRun(p, x) >= RunLength {
      var k := |p| - 3;
      assert p[k] == x && p[k + 1] == x && p[k + 2] == x;
    }
  }

  /** A sequence without `x x x` whose trailing run of `x` is two is a
      sequence that does not end in `x`, then `x x`. */
  lemma RunOfTwo(p: Bytes, x: Byte)
    requires !HasTripleRun(p, x) && TrailingRun(p, x) == 2
    ensures var f := p[..|p| - 2];
      p == f + [x, x] && p + [x] == f + [x, x, x] &&
      !HasTripleRun(f, x) && (f == [] || f[|f| - 1] != x)
  {
    var f := p[..|p| - 2];
    assert p == f + [p[|p| - 2], p[|p| - 1]];
    assert p + [x] == f + [x, x, x];
    TripleRunPrefix(p, |f|, x);
  }

  /** Two more `x` after a sequence that holds no run of three `x` and does
      not end in `x` still make no run of three, and a trailing run of two. */
  lemma TwoMoreOfRun(f: Bytes, x: Byte)
    requires !HasTripleRun(f, x) && (f == [] || f[|f| - 1] != x)
    ensures var t := f + [x, x];
      !HasTripleRun(t, x) && TrailingRun(t, x) == 2
  {
    var u := f + [x];
    assert u[..|u| - 1] == f;
    assert TrailingRun(f, x) == 0;
    assert TrailingRun(u, x) == 1;
    TripleRunSnoc(f, x, x);
    var t := u + [x];
    assert t == f + [x, x];
    assert t[..|t| - 1] == u;
    assert TrailingRun(t, x) == 2;
    TripleRunSnoc(u, x, x);
  }
}
