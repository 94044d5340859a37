/**
 * Length-prefixed framing of the card-duel server (server.py).
 *
 * Every message travels as a 10-byte header holding the payload length in
 * ASCII decimal, left-justified and padded with spaces, followed by the
 * payload bytes. The payload itself (a pickled dictionary) is opaque here.
 *
 * The receiving side keeps a byte buffer, a "waiting for a header" flag and
 * the pending body length across reads; `FrameDecoder` is that state, and
 * `Deframe` is the pure specification of what it must emit.
 */
module Framing {
  import opened Options

  /** A byte on the wire. */
  type byte = b: int | 0 <= b < 0x100

  /** `HEADER_LENGTH` */
  const HeaderLength := 10

  /** Payloads shorter than this have a decimal length that fits the header. */
  const MaxPayload := 10_000_000_000

  const SpaceByte: byte := 32
  const MinusByte: byte := 45
  const PlusByte: byte := 43
  const UnderscoreByte: byte := 95

  /** Ten to the power k. */
  function Pow10(k: nat): (r: nat)
    ensures r >= 1
  {
    if k == 0 then 1 else 10 * Pow10(k - 1)
  }

  // ---------------------------------------------------------------------
  // Encoding: f"{len(payload):<10}".encode() + payload
  // ---------------------------------------------------------------------

  predicate IsDigitByte(b: byte) {
    48 <= b <= 57
  }

  function DigitValue(b: byte): nat
    requires IsDigitByte(b)
  {
    b - 48
  }

  function DigitByte(d: nat): byte
    requires d < 10
  {
    d + 48
  }

  /** `str(n)`: the decimal digits of n, most significant first, no leading zeros. */
  function Decimal(n: nat): (r: seq<byte>)
    ensures |r| >= 1
    ensures forall i :: 0 <= i < |r| ==> IsDigitByte(r[i])
  {
    if n < 10 then [DigitByte(n)] else Decimal(n / 10) + [DigitByte(n % 10)]
  }

  function Spaces(k: nat): (r: seq<byte>)
    ensures |r| == k && forall i :: 0 <= i < k ==> r[i] == SpaceByte
  {
    seq(k, _ => SpaceByte)
  }

  /**
   * The header for a payload of n bytes. Python's left-justified format pads
   * a short number with spaces and never truncates a long one, so a length
   * of ten or more digits gives a header longer than HEADER_LENGTH.
   */
  function EncodeHeader(n: nat): (r: seq<byte>)
    ensures n < MaxPayload ==> |r| == HeaderLength && FrameLength(r) == Some(n)
    ensures n >= MaxPayload ==> |r| > HeaderLength
  {
    var d := Decimal(n);
    if n < MaxPayload then
      DecimalFits(n, HeaderLength);
      HeaderParses(n);
      d + Spaces(HeaderLength - |d|)
    else
      DecimalOverflows(n, HeaderLength);
      d
  }

  /** One framed message: header followed by the payload, as `send_pickled` writes it. */
  function EncodeFrame(payload: seq<byte>): seq<byte> {
    EncodeHeader(|payload|) + payload
  }

  /** Several messages written back to back on one connection. */
  function EncodeAll(payloads: seq<seq<byte>>): seq<byte> {
    if |payloads| == 0 then [] else EncodeFrame(payloads[0]) + EncodeAll(payloads[1..])
  }

  // ---------------------------------------------------------------------
  // Header parsing: Python's int() applied to the 10 header bytes
  // ---------------------------------------------------------------------

  /** ASCII whitespace as int() skips it around a number: space, \t, \n, \v, \f, \r. */
  predicate IsSpaceByte(b: byte) {
    b == SpaceByte || 9 <= b <= 13
  }

  /**
   * The states of a left-to-right scan of the text int() accepts in base
   * 10: optional whitespace, an optional sign, digits in which a single
   * underscore may separate two digits, optional whitespace.
   */
  datatype Scan =
    | Leading                                           // only whitespace so far
    | Signed(negative: bool)                            // just read the sign
    | InDigits(negative: bool, value: nat, underscore: bool)  // reading digits; `underscore`: the last byte was '_'
    | Trailing(negative: bool, value: nat)              // whitespace after the digits
    | Rejected

  function ScanByte(st: Scan, b: byte): Scan {
    match st
    case Leading =>
      if IsSpaceByte(b) then Leading
      else if b == PlusByte then Signed(false)
      else if b == MinusByte then Signed(true)
      else if IsDigitByte(b) then InDigits(false, DigitValue(b), false)
      else Rejected
    case Signed(neg) =>
      if IsDigitByte(b) then InDigits(neg, DigitValue(b), false) else Rejected
    case InDigits(neg, v, underscore) =>
      if IsDigitByte(b) then InDigits(neg, v * 10 + DigitValue(b), false)
      else if underscore then Rejected
      else if b == UnderscoreByte then InDigits(neg, v, true)
      else if IsSpaceByte(b) then Trailing(neg, v)
      else Rejected
    case Trailing(neg, v) =>
      if IsSpaceByte(b) then Trailing(neg, v) else Rejected
    case Rejected => Rejected
  }

  function ScanAll(st: Scan, s: seq<byte>): Scan
    decreases |s|
  {
    if |s| == 0 then st else ScanAll(ScanByte(st, s[0]), s[1..])
  }

  /** The bytes int() can accept at all: whitespace, a sign, digits, underscores. */
  predicate IsNumeralByte(b: byte) {
    IsSpaceByte(b) || IsDigitByte(b) || b == PlusByte || b == MinusByte || b == UnderscoreByte
  }

  /** The scan has read at least one digit. */
  predicate HasValue(st: Scan) {
    st.InDigits? || st.Trailing?
  }

  /** `int(b)` for a bytes object in base 10: None where Python raises ValueError. */
  function ParseInt(s: seq<byte>): (r: Option<int>)
    ensures (exists i :: 0 <= i < |s| && !IsNumeralByte(s[i])) ==> r.None?
    ensures r.Some? ==> exists i :: 0 <= i < |s| && IsDigitByte(s[i])
  {
    ScanFacts(s);
    match ScanAll(Leading, s)
    case InDigits(neg, v, false) => Some(if neg then 0 - v else v)
    case Trailing(neg, v) => Some(if neg then 0 - v else v)
    case _ => None
  }

  /**
   * The body length a header announces; a header int() rejects, or a
   * negative number, is a protocol error.
   */
  function FrameLength(header: seq<byte>): Option<nat> {
    match ParseInt(header)
    case Some(n) => if n >= 0 then Some(n) else None
    case None => None
  }

  lemma ScanFacts(s: seq<byte>)
    ensures (exists i :: 0 <= i < |s| && !IsNumeralByte(s[i])) ==> ScanAll(Leading, s) == Rejected
    ensures HasValue(ScanAll(Leading, s)) ==> exists i :: 0 <= i < |s| && IsDigitByte(s[i])
  {
    if i :| 0 <= i < |s| && !IsNumeralByte(s[i]) {
      ScanRejectsAt(Leading, s, i);
    }
    if forall i :: 0 <= i < |s| ==> !IsDigitByte(s[i]) {
      NoDigitNoValue(Leading, s);
    }
  }

  /** A byte int() never accepts rejects the whole text, wherever it is. */
  lemma {:induction false} ScanRejectsAt(st: Scan, s: seq<byte>, i: nat)
    requires i < |s| && !IsNumeralByte(s[i])
    ensures ScanAll(st, s) == Rejected
    decreases i
  {
    if i == 0 {
      RejectedStays(s[1..]);
    } else {
      ScanRejectsAt(ScanByte(st, s[0]), s[1..], i - 1);
    }
  }

  lemma {:induction false} RejectedStays(s: seq<byte>)
    ensures ScanAll(Rejected, s) == Rejected
    decreases |s|
  {
    if |s| > 0 {
      RejectedStays(s[1..]);
    }
  }

  /** Without a digit, int() reads no number. */
  lemma {:induction false} NoDigitNoValue(st: Scan, s: seq<byte>)
    requires !HasValue(st)
    requires forall i :: 0 <= i < |s| ==> !IsDigitByte(s[i])
    ensures !HasValue(ScanAll(st, s))
    decreases |s|
  {
    if |s| > 0 {
      assert !IsDigitByte(s[0]);
      NoDigitNoValue(ScanByte(st, s[0]), s[1..]);
    }
  }

  /** Python's int() accepts surrounding whitespace, a sign and single underscores between digits. */
  lemma ParseIntAccepts()
    ensures ParseInt([32, 49, 50, 32]) == Some(12)        // b" 12 "
    ensures ParseInt([45, 55]) == Some(-7)                // b"-7"
    ensures ParseInt([43, 53]) == Some(5)                 // b"+5"
    ensures ParseInt([49, 95, 48]) == Some(10)            // b"1_0"
  {
  }

  /** Python's int() rejects doubled, leading or trailing underscores, inner spaces and blank text. */
  lemma ParseIntRejects()
    ensures ParseInt([49, 95, 95, 48]) == None            // b"1__0"
    ensures ParseInt([95, 49]) == None                    // b"_1"
    ensures ParseInt([49, 95]) == None                    // b"1_"
    ensures ParseInt([49, 32, 50]) == None                // b"1 2"
    ensures ParseInt([32, 32]) == None                    // b"  "
  {
  }

  // ---------------------------------------------------------------------
  // Decoding specification
  // ---------------------------------------------------------------------

  /** What a buffer decodes to: the complete frames in order, the bytes left over, and whether a bad header stopped decoding. */
  datatype Split = Split(frames: seq<seq<byte>>, rest: seq<byte>, failed: bool)

  /** How the decoder reads the body length out of a header. */
  type HeaderReader = seq<byte> -> Option<nat>

  /** The buffer starts with no complete frame yet: too short for a header, or a good header with too short a body. */
  predicate Incomplete(read: HeaderReader, b: seq<byte>) {
    |b| < HeaderLength ||
    (read(b[..HeaderLength]).Some? && |b| - HeaderLength < read(b[..HeaderLength]).value)
  }

  /** The buffer starts with a header that cannot be decoded. */
  predicate BadHeader(read: HeaderReader, b: seq<byte>) {
    |b| >= HeaderLength && read(b[..HeaderLength]).None?
  }

  /**
   * Decode as many frames as the buffer holds, from a header boundary,
   * reading each header with `read`. The decoding laws below hold for any
   * way of reading headers; the server reads them with FrameLength.
   */
  function DeframeWith(read: HeaderReader, buf: seq<byte>): Split
    decreases |buf|
  {
    if |buf| < HeaderLength then Split([], buf, false)
    else match read(buf[..HeaderLength])
      case None => Split([], buf, true)
      case Some(n) =>
        if |buf| - HeaderLength < n then Split([], buf, false)
        else
          var d := DeframeWith(read, buf[HeaderLength + n..]);
          Split([buf[HeaderLength..HeaderLength + n]] + d.frames, d.rest, d.failed)
  }


  /**
   * What the server's decoder emits for a buffer: every byte lies in a
   * header, in a frame or in the undecoded end, which starts with a bad
   * header when decoding failed and holds no complete frame otherwise.
   */
  function Deframe(buf: seq<byte>): (r: Split)
    ensures forall i :: 0 <= i < |r.frames| ==> FrameAt(FrameLength, buf, FramedSize(r.frames[..i]), r.frames[i])
    ensures |buf| == FramedSize(r.frames) + |r.rest|
    ensures r.rest == buf[|buf| - |r.rest|..]
    ensures r.failed ==> BadHeader(FrameLength, r.rest)
    ensures !r.failed ==> Incomplete(FrameLength, r.rest)
  {
    DeframeFrames(FrameLength, buf);
    DeframeRest(FrameLength, buf);
    DeframeStops(FrameLength, buf);
    DeframeSize(FrameLength, buf);
    DeframeWith(FrameLength, buf)
  }

  /** The bytes a sequence of frames occupies on the wire, headers included. */
  function FramedSize(frames: seq<seq<byte>>): nat {
    if frames == [] then 0 else HeaderLength + |frames[0]| + FramedSize(frames[1..])
  }

  // ---------------------------------------------------------------------
  // Lemmas: header round trip
  // ---------------------------------------------------------------------

  lemma {:induction false} DecimalFits(n: nat, k: nat)
    requires k >= 1 && n < Pow10(k)
    ensures |Decimal(n)| <= k
    decreases n
  {
    if n >= 10 {
      assert k >= 2;
      assert n / 10 < Pow10(k - 1);
      DecimalFits(n / 10, k - 1);
    }
  }

  lemma {:induction false} DecimalOverflows(n: nat, k: nat)
    requires n >= Pow10(k)
    ensures |Decimal(n)| > k
    decreases n
  {
    if k > 0 {
      assert n >= 10;
      assert n / 10 >= Pow10(k - 1);
      DecimalOverflows(n / 10, k - 1);
    }
  }

  lemma {:induction false} ScanAppend(st: Scan, s: seq<byte>, b: byte)
    ensures ScanAll(st, s + [b]) == ScanByte(ScanAll(st, s), b)
    decreases |s|
  {
    if |s| > 0 {
      assert (s + [b])[1..] == s[1..] + [b];
      ScanAppend(ScanByte(st, s[0]), s[1..], b);
    }
  }

  /** Scanning `str(n)` from the start reads the number n. */
  lemma {:induction false} ScanDecimal(n: nat)
    ensures ScanAll(Leading, Decimal(n)) == InDigits(false, n, false)
    decreases n
  {
    if n >= 10 {
      ScanDecimal(n / 10);
      ScanAppend(Leading, Decimal(n / 10), DigitByte(n % 10));
    }
  }

  lemma {:induction false} ScanSpaces(neg: bool, v: nat, k: nat)
    ensures ScanAll(Trailing(neg, v), Spaces(k)) == Trailing(neg, v)
    decreases k
  {
    if k > 0 {
      assert Spaces(k)[1..] == Spaces(k - 1);
      ScanSpaces(neg, v, k - 1);
    }
  }

  lemma {:induction false} ScanConcat(st: Scan, s: seq<byte>, t: seq<byte>)
    ensures ScanAll(st, s + t) == ScanAll(ScanAll(st, s), t)
    decreases |s|
  {
    if |s| > 0 {
      assert (s + t)[1..] == s[1..] + t;
      ScanConcat(ScanByte(st, s[0]), s[1..], t);
    } else {
      assert s + t == t;
    }
  }

  lemma HeaderParses(n: nat)
    requires |Decimal(n)| <= HeaderLength
    ensures FrameLength(Decimal(n) + Spaces(HeaderLength - |Decimal(n)|)) == Some(n)
  {
    HeaderScan(n, HeaderLength - |Decimal(n)|);
  }

  /** Scanning `str(n)` followed by k spaces ends having read n. */
  lemma HeaderScan(n: nat, k: nat)
    ensures ScanAll(Leading, Decimal(n) + Spaces(k)) == if k == 0 then InDigits(false, n, false) else Trailing(false, n)
  {
    var d := Decimal(n);
    ScanConcat(Leading, d, Spaces(k));
    ScanDecimal(n);
    if k > 0 {
      assert Spaces(k)[0] == SpaceByte;
      assert Spaces(k)[1..] == Spaces(k - 1);
      ScanSpaces(false, n, k - 1);
    } else {
      assert Spaces(0) == [];
    }
  }

  // ---------------------------------------------------------------------
  // Lemmas: decoding
  // ---------------------------------------------------------------------

  /** What decoding leaves is the end of the buffer. */
  lemma {:induction false} DeframeRest(read: HeaderReader, buf: seq<byte>)
    ensures var d := DeframeWith(read, buf);
      |d.rest| <= |buf| && d.rest == buf[|buf| - |d.rest|..]
    decreases |buf|
  {
    if Incomplete(read, buf) || BadHeader(read, buf) {
      NothingDecoded(read, buf);
    } else {
      var n := read(buf[..HeaderLength]).value;
      var tail := buf[HeaderLength + n..];
      FrameFirst(read, buf, n);
      DeframeRest(read, tail);
      SuffixOfSuffix(buf, HeaderLength + n, DeframeWith(read, tail).rest);
    }
  }

  /**
   * Decoding stops only where the rest starts with a bad header (and then
   * reports failure) or holds no complete frame.
   */
  lemma {:induction false} DeframeStops(read: HeaderReader, buf: seq<byte>)
    ensures var d := DeframeWith(read, buf);
      && (d.failed ==> BadHeader(read, d.rest))
      && (!d.failed ==> Incomplete(read, d.rest))
    decreases |buf|
  {
    if Incomplete(read, buf) || BadHeader(read, buf) {
      NothingDecoded(read, buf);
    } else {
      var n := read(buf[..HeaderLength]).value;
      FrameFirst(read, buf, n);
      DeframeStops(read, buf[HeaderLength + n..]);
    }
  }

  /** At offset `o` of `buf` is a header announcing |frame| bytes, followed by exactly `frame`. */
  predicate FrameAt(read: HeaderReader, buf: seq<byte>, o: nat, frame: seq<byte>) {
    && o + HeaderLength + |frame| <= |buf|
    && read(buf[o..o + HeaderLength]) == Some(|frame|)
    && frame == buf[o + HeaderLength..o + HeaderLength + |frame|]
  }

  /**
   * Every decoded frame is the body after a header announcing its length,
   * right after the frames before it.
   */
  lemma {:induction false} DeframeFrames(read: HeaderReader, buf: seq<byte>)
    ensures var d := DeframeWith(read, buf);
      forall i :: 0 <= i < |d.frames| ==> FrameAt(read, buf, FramedSize(d.frames[..i]), d.frames[i])
    decreases |buf|
  {
    if Incomplete(read, buf) || BadHeader(read, buf) {
      NothingDecoded(read, buf);
    } else {
      var n := read(buf[..HeaderLength]).value;
      var k := HeaderLength + n;
      var tail := buf[k..];
      var frame := buf[HeaderLength..k];
      FrameFirst(read, buf, n);
      DeframeFrames(read, tail);
      var dt := DeframeWith(read, tail);
      assert buf[0..HeaderLength] == buf[..HeaderLength];
      FramesCons(read, buf, frame, dt.frames);
    }
  }

  /** A frame at the front, then frames laid out in the rest of the buffer. */
  lemma FramesCons(read: HeaderReader, buf: seq<byte>, frame: seq<byte>, rest: seq<seq<byte>>)
    requires FrameAt(read, buf, 0, frame)
    requires forall i :: 0 <= i < |rest| ==>
      FrameAt(read, buf[HeaderLength + |frame|..], FramedSize(rest[..i]), rest[i])
    ensures var frames := [frame] + rest;
      forall i :: 0 <= i < |frames| ==> FrameAt(read, buf, FramedSize(frames[..i]), frames[i])
  {
    var k := HeaderLength + |frame|;
    var frames := [frame] + rest;
    forall i | 0 <= i < |frames|
      ensures FrameAt(read, buf, FramedSize(frames[..i]), frames[i])
    {
      if i == 0 {
        assert frames[..0] == [];
      } else {
        assert frames[..i] == [frame] + rest[..i - 1];
        FramedSizeCons(frame, rest[..i - 1]);
        FrameAtShift(read, buf, k, FramedSize(rest[..i - 1]), rest[i - 1]);
      }
    }
  }

  lemma FramedSizeCons(frame: seq<byte>, frames: seq<seq<byte>>)
    ensures FramedSize([frame] + frames) == HeaderLength + |frame| + FramedSize(frames)
  {
    assert ([frame] + frames)[1..] == frames;
  }

  /** A frame found in the end of a buffer is in the buffer, further along. */
  lemma FrameAtShift(read: HeaderReader, buf: seq<byte>, k: nat, o: nat, frame: seq<byte>)
    requires k <= |buf| && FrameAt(read, buf[k..], o, frame)
    ensures FrameAt(read, buf, k + o, frame)
  {
    assert buf[k..][o..o + HeaderLength] == buf[k + o..k + o + HeaderLength];
    assert buf[k..][o + HeaderLength..o + HeaderLength + |frame|] == buf[k + o + HeaderLength..k + o + HeaderLength + |frame|];
  }

  /** Decoding loses no byte and invents none. */
  lemma {:induction false} DeframeSize(read: HeaderReader, buf: seq<byte>)
    ensures var d := DeframeWith(read, buf); |buf| == FramedSize(d.frames) + |d.rest|
    decreases |buf|
  {
    if Incomplete(read, buf) || BadHeader(read, buf) {
      NothingDecoded(read, buf);
    } else {
      var n := read(buf[..HeaderLength]).value;
      var tail := buf[HeaderLength + n..];
      FrameFirst(read, buf, n);
      DeframeSize(read, tail);
      var d := DeframeWith(read, tail);
      assert ([buf[HeaderLength..HeaderLength + n]] + d.frames)[1..] == d.frames;
    }
  }

  lemma SuffixOfSuffix<T>(s: seq<T>, k: nat, r: seq<T>)
    requires k <= |s| && |r| <= |s| - k && r == s[k..][|s| - k - |r|..]
    ensures r == s[|s| - |r|..]
  {
  }

  /** Decoding `b` after a prefix that decoded to `da`. */
  function Continue(read: HeaderReader, da: Split, b: seq<byte>): Split {
    if da.failed then Split(da.frames, da.rest + b, true)
    else
      var dr := DeframeWith(read, da.rest + b);
      Split(da.frames + dr.frames, dr.rest, dr.failed)
  }

  /**
   * Decoding a longer stream continues where decoding its prefix stopped:
   * after a failure nothing more is emitted, otherwise the leftover bytes
   * are decoded together with what follows.
   */
  lemma {:induction false} DeframeAppend(read: HeaderReader, a: seq<byte>, b: seq<byte>)
    ensures DeframeWith(read, a + b) == Continue(read, DeframeWith(read, a), b)
    decreases |a|
  {
    if |a| < HeaderLength || read(a[..HeaderLength]).None? || |a| - HeaderLength < read(a[..HeaderLength]).value {
      AppendToUndecoded(read, a, b);
    } else {
      var n := read(a[..HeaderLength]).value;
      DeframeAppend(read, a[HeaderLength + n..], b);
      AppendAfterFrame(read, a, b, n);
    }
  }

  /** A prefix that yields no frame leaves decoding of the whole to start at the same place. */
  lemma AppendToUndecoded(read: HeaderReader, a: seq<byte>, b: seq<byte>)
    requires |a| < HeaderLength || read(a[..HeaderLength]).None? || |a| - HeaderLength < read(a[..HeaderLength]).value
    ensures DeframeWith(read, a + b) == Continue(read, DeframeWith(read, a), b)
  {
    if |a| >= HeaderLength {
      assert (a + b)[..HeaderLength] == a[..HeaderLength];
    }
    assert [] + DeframeWith(read, a + b).frames == DeframeWith(read, a + b).frames;
  }

  /** A prefix that starts with a complete frame: that frame comes first, and the rest continues as for the remainder. */
  lemma AppendAfterFrame(read: HeaderReader, a: seq<byte>, b: seq<byte>, n: nat)
    requires |a| >= HeaderLength && read(a[..HeaderLength]) == Some(n) && |a| - HeaderLength >= n
    requires DeframeWith(read, a[HeaderLength + n..] + b) == Continue(read, DeframeWith(read, a[HeaderLength + n..]), b)
    ensures DeframeWith(read, a + b) == Continue(read, DeframeWith(read, a), b)
  {
    var frame := a[HeaderLength..HeaderLength + n];
    var more := a[HeaderLength + n..];
    assert (a + b)[..HeaderLength] == a[..HeaderLength];
    assert (a + b)[HeaderLength..HeaderLength + n] == frame;
    assert (a + b)[HeaderLength + n..] == more + b;
    FrameFirst(read, a, n);
    FrameFirst(read, a + b, n);
    ContinuePrepend(read, frame, DeframeWith(read, more), b);
  }

  /** One complete frame at the start of the buffer is emitted first. */
  lemma FrameFirst(read: HeaderReader, buf: seq<byte>, n: nat)
    requires |buf| >= HeaderLength && read(buf[..HeaderLength]) == Some(n) && |buf| - HeaderLength >= n
    ensures DeframeWith(read, buf) == Prepend(buf[HeaderLength..HeaderLength + n], DeframeWith(read, buf[HeaderLength + n..]))
  {
  }

  function Prepend(frame: seq<byte>, d: Split): Split {
    Split([frame] + d.frames, d.rest, d.failed)
  }

  lemma ContinuePrepend(read: HeaderReader, frame: seq<byte>, d: Split, b: seq<byte>)
    ensures Continue(read, Prepend(frame, d), b) == Prepend(frame, Continue(read, d, b))
  {
    if !d.failed {
      var dr := DeframeWith(read, d.rest + b);
      assert [frame] + (d.frames + dr.frames) == ([frame] + d.frames) + dr.frames;
    }
  }

  /**
   * Round trip: a stream of encoded messages, followed by bytes that do not
   * yet form a complete frame, decodes to exactly those messages in order
   * and keeps the trailing bytes.
   */
  lemma {:induction false} DeframeEncoded(payloads: seq<seq<byte>>, tail: seq<byte>)
    requires forall i :: 0 <= i < |payloads| ==> |payloads[i]| < MaxPayload
    requires Incomplete(FrameLength, tail)
    ensures Deframe(EncodeAll(payloads) + tail) == Split(payloads, tail, false)
    decreases |payloads|
  {
    if |payloads| > 0 {
      var p := payloads[0];
      var more := EncodeAll(payloads[1..]) + tail;
      assert EncodeAll(payloads) + tail == EncodeFrame(p) + more;
      DeframeOneFrame(p, more);
      DeframeEncoded(payloads[1..], tail);
      assert [p] + payloads[1..] == payloads;
    } else {
      assert EncodeAll(payloads) + tail == tail;
      NothingDecoded(FrameLength, tail);
    }
  }

  /** An encoded message at the front of a buffer is decoded first. */
  lemma DeframeOneFrame(p: seq<byte>, more: seq<byte>)
    requires |p| < MaxPayload
    ensures Deframe(EncodeFrame(p) + more) == Prepend(p, Deframe(more))
  {
    var h := EncodeHeader(|p|);
    var buf := h + (p + more);
    assert EncodeFrame(p) + more == buf;
    FrameAtFront(h, p, more);
    FrameFirst(FrameLength, buf, |p|);
  }

  /** The parts of a buffer made of a header, a payload and more bytes. */
  lemma FrameAtFront(h: seq<byte>, p: seq<byte>, more: seq<byte>)
    requires |h| == HeaderLength
    ensures var buf := h + (p + more);
      && buf[..HeaderLength] == h
      && buf[HeaderLength..HeaderLength + |p|] == p
      && buf[HeaderLength + |p|..] == more
  {
  }

  /** A message cut short, in its header or in its body, emits nothing and is kept whole. */
  lemma PrefixOfFrameIsIncomplete(payload: seq<byte>, k: nat)
    requires |payload| < MaxPayload && k < |EncodeFrame(payload)|
    ensures Incomplete(FrameLength, EncodeFrame(payload)[..k])
  {
    var e := EncodeFrame(payload);
    if k >= HeaderLength {
      assert e[..k][..HeaderLength] == EncodeHeader(|payload|);
    }
  }

  /** Frames already emitted, followed by what decoding the buffer gives. */
  function Emitted(frames: seq<seq<byte>>, d: Split): Split {
    Split(frames + d.frames, d.rest, d.failed)
  }

  lemma EmittedPrepend(frames: seq<seq<byte>>, frame: seq<byte>, d: Split)
    ensures Emitted(frames, Prepend(frame, d)) == Emitted(frames + [frame], d)
  {
    assert frames + ([frame] + d.frames) == (frames + [frame]) + d.frames;
  }

  lemma EmittedAll(frames: seq<seq<byte>>, d: Split)
    requires d.frames == []
    ensures Emitted(frames, d) == Split(frames, d.rest, d.failed)
  {
    assert frames + [] == frames;
  }

  /** A buffer that starts with an incomplete frame or a bad header yields no frame and keeps every byte. */
  lemma NothingDecoded(read: HeaderReader, buf: seq<byte>)
    requires Incomplete(read, buf) || BadHeader(read, buf)
    ensures DeframeWith(read, buf) == Split([], buf, BadHeader(read, buf))
  {
  }

  // ---------------------------------------------------------------------
  // The receive loop of handle_client
  // ---------------------------------------------------------------------

  /** The bytes read from a connection: the chunks up to the first empty read, which means the peer closed. */
  function Received(chunks: seq<seq<byte>>): seq<byte> {
    if |chunks| == 0 || |chunks[0]| == 0 then [] else chunks[0] + Received(chunks[1..])
  }

  /**
   * The decoder state between reads: waiting for a header with fewer than
   * HeaderLength bytes, or holding a header that announced `len` bytes and
   * fewer body bytes than that.
   */
  predicate Between(read: HeaderReader, buf: seq<byte>, waiting: bool, len: nat) {
    if waiting then |buf| < HeaderLength
    else
      && |buf| >= HeaderLength
      && read(buf[..HeaderLength]) == Some(len)
      && |buf| - HeaderLength < len
  }

  /**
   * The per-connection decoder state: `full_msg`, `new_msg` and `msg_len`,
   * with the header reader it was created with (the server reads headers
   * with FrameLength, Python's `int()`). Between reads the buffer holds no
   * complete frame; when a header has been read, `msgLen` is the length it
   * announced.
   */
  class FrameDecoder {
    const read: HeaderReader
    var buffer: seq<byte>
    var newMsg: bool
    var msgLen: nat

    ghost predicate Valid()
      reads this
    {
      Between(read, buffer, newMsg, msgLen)
    }

    constructor (read: HeaderReader)
      ensures Valid() && this.read == read && buffer == [] && newMsg
    {
      this.read := read;
      buffer, newMsg, msgLen := [], true, 0;
    }

    /**
     * One pass of the inner loop after a read: append the chunk, then emit
     * every complete frame. A bad header stops the connection; the frames
     * before it have already been emitted.
     */
    method Feed(chunk: seq<byte>) returns (frames: seq<seq<byte>>, failed: bool)
      requires Valid()
      modifies this
      ensures var d := DeframeWith(read, old(buffer) + chunk);
        frames == d.frames && failed == d.failed && (!failed ==> Valid() && buffer == d.rest)
    {
      ghost var target := DeframeWith(read, old(buffer) + chunk);
      if !newMsg {
        assert (buffer + chunk)[..HeaderLength] == buffer[..HeaderLength];
      }
      var buf, waiting, len := buffer + chunk, newMsg, msgLen;
      frames, failed := [], false;
      EmittedNone(DeframeWith(read, buf));
      var done := false;
      while !done
        invariant !waiting ==> |buf| >= HeaderLength && read(buf[..HeaderLength]) == Some(len)
        invariant !done ==> Emitted(frames, DeframeWith(read, buf)) == target && !failed
        invariant done ==> target == Split(frames, buf, failed) && (!failed ==> Between(read, buf, waiting, len))
        decreases if done then 0 else 1, |buf|, if waiting then 1 else 0
      {
        if waiting && |buf| < HeaderLength {
          Finish(read, frames, buf, target);
          done := true;
        } else if waiting && read(buf[..HeaderLength]).None? {
          Finish(read, frames, buf, target);
          failed, done := true, true;
        } else {
          if waiting {
            len := read(buf[..HeaderLength]).value;
            waiting := false;
          }
          if |buf| - HeaderLength < len {
            Finish(read, frames, buf, target);
            done := true;
          } else {
            var frame := buf[HeaderLength..HeaderLength + len];
            EmitStep(read, frames, buf, len, target);
            frames := frames + [frame];
            buf := buf[HeaderLength + len..];
            waiting := true;
            if |buf| == 0 {
              Finish(read, frames, buf, target);
              done := true;
            }
          }
        }
      }
      buffer, newMsg, msgLen := buf, waiting, len;
    }

    /**
     * The outer read loop: feed each chunk until the peer closes (an empty
     * read) or a header fails to decode. The result is what decoding all
     * the bytes received gives.
     */
    method Receive(chunks: seq<seq<byte>>) returns (frames: seq<seq<byte>>, failed: bool)
      requires Valid()
      modifies this
      ensures var d := DeframeWith(read, old(buffer) + Received(chunks));
        frames == d.frames && failed == d.failed && (!failed ==> Valid() && buffer == d.rest)
    {
      ghost var target := DeframeWith(read, buffer + Received(chunks));
      frames, failed := [], false;
      var pending := chunks;
      assert Emitted([], target) == target;
      while |pending| > 0 && |pending[0]| > 0
        invariant Valid()
        invariant Emitted(frames, DeframeWith(read, buffer + Received(pending))) == target
        decreases |pending|
      {
        var chunk := pending[0];
        ghost var start := buffer;
        ghost var later := Received(pending[1..]);
        assert start + Received(pending) == (start + chunk) + later;
        DeframeAppend(read, start + chunk, later);
        var fs, bad := Feed(chunk);
        EmittedContinue(read, frames, DeframeWith(read, start + chunk), later);
        frames := frames + fs;
        if bad {
          failed := true;
          return;
        }
        pending := pending[1..];
      }
      assert buffer + Received(pending) == buffer;
      NothingDecoded(read, buffer);
      EmittedAll(frames, DeframeWith(read, buffer));
    }
  }

  lemma EmittedNone(d: Split)
    ensures Emitted([], d) == d
  {
    assert [] + d.frames == d.frames;
  }

  /** Emitting the complete frame at the front of the buffer keeps what is emitted in total. */
  lemma EmitStep(read: HeaderReader, frames: seq<seq<byte>>, buf: seq<byte>, n: nat, target: Split)
    requires |buf| >= HeaderLength && read(buf[..HeaderLength]) == Some(n) && |buf| - HeaderLength >= n
    requires Emitted(frames, DeframeWith(read, buf)) == target
    ensures Emitted(frames + [buf[HeaderLength..HeaderLength + n]], DeframeWith(read, buf[HeaderLength + n..])) == target
  {
    FrameFirst(read, buf, n);
    EmittedPrepend(frames, buf[HeaderLength..HeaderLength + n], DeframeWith(read, buf[HeaderLength + n..]));
  }

  /** Decoding stops at a buffer without a complete frame: the frames emitted so far are all of them. */
  lemma Finish(read: HeaderReader, frames: seq<seq<byte>>, buf: seq<byte>, target: Split)
    requires Incomplete(read, buf) || BadHeader(read, buf)
    requires Emitted(frames, DeframeWith(read, buf)) == target
    ensures target == Split(frames, buf, BadHeader(read, buf))
  {
    NothingDecoded(read, buf);
    EmittedAll(frames, DeframeWith(read, buf));
  }

  /** Frames emitted before a prefix's decoding, continued with the bytes after it. */
  lemma EmittedContinue(read: HeaderReader, frames: seq<seq<byte>>, da: Split, b: seq<byte>)
    ensures var c := Emitted(frames, Continue(read, da, b));
      if da.failed then c == Split(frames + da.frames, da.rest + b, true)
      else c == Emitted(frames + da.frames, DeframeWith(read, da.rest + b))
  {
    if !da.failed {
      var dr := DeframeWith(read, da.rest + b);
      assert frames + (da.frames + dr.frames) == (frames + da.frames) + dr.frames;
    }
  }

  /**
   * A fresh connection that receives the encodings of some messages, cut
   * into reads in any way and possibly ending inside a message, delivers
   * exactly those messages in order and keeps the unfinished bytes.
   */
  method DecodeConnection(chunks: seq<seq<byte>>, payloads: seq<seq<byte>>, tail: seq<byte>)
    returns (frames: seq<seq<byte>>, failed: bool, leftover: seq<byte>)
    requires forall i :: 0 <= i < |payloads| ==> |payloads[i]| < MaxPayload
    requires Incomplete(FrameLength, tail)
    requires Received(chunks) == EncodeAll(payloads) + tail
    ensures frames == payloads && !failed && leftover == tail
  {
    var decoder := new FrameDecoder(FrameLength);
    frames, failed := decoder.Receive(chunks);
    DeframeEncoded(payloads, tail);
    assert [] + Received(chunks) == Received(chunks);
    leftover := decoder.buffer;
  }
}
