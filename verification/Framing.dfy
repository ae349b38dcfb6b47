/** Length-prefixed frames: the codecs of the Rust framework and of the C++ server, and reassembly from chunks. */
module Framing {
  import opened Bytes

  const HEADER: nat := 15
  const BODY_HEADER: nat := 11
  const MAX_PACKET: nat := 0x10_0000
  const TWO_31: int := 0x8000_0000
  const TWO_32: int := 0x1_0000_0000

  datatype Frame = Frame(cmd: nat, msgId: nat, serial: int, sessionId: nat, payload: Text)

  /** The field types: one byte, two bytes, a signed and an unsigned word. */
  predicate InTypes(f: Frame) {
    f.cmd < 0x100 && f.msgId < 0x1_0000 && -TWO_31 <= f.serial < TWO_31 && f.sessionId < TWO_32
  }

  /** A frame whose encoding stays within the packet limit. */
  predicate Sendable(f: Frame) { InTypes(f) && HEADER + |f.payload| <= MAX_PACKET }

  // ----- big-endian integers -----

  function U16(n: nat): (w: Text)
    ensures |w| == 2
  {
    [n / 0x100 % 0x100, n % 0x100]
  }

  function U32(n: nat): (w: Text)
    ensures |w| == 4
  {
    [n / 0x100_0000 % 0x100, n / 0x1_0000 % 0x100, n / 0x100 % 0x100, n % 0x100]
  }

  /** `static_cast<std::uint32_t>` of a signed word, and back. */
  function Unsigned(n: int): (r: nat) { n % TWO_32 }
  function Signed(n: nat): (r: int) { if n % TWO_32 >= TWO_31 then n % TWO_32 - TWO_32 else n % TWO_32 }

  function ReadU16(data: Text, i: nat): (n: nat)
    requires i + 2 <= |data|
    ensures n < 0x1_0000
  {
    var high: int, low: int := data[i], data[i + 1];
    high * 0x100 + low
  }

  function ReadU32(data: Text, i: nat): (n: nat)
    requires i + 4 <= |data|
    ensures n < TWO_32
  {
    var a: int, b: int, c: int, d: int := data[i], data[i + 1], data[i + 2], data[i + 3];
    a * 0x100_0000 + b * 0x1_0000 + c * 0x100 + d
  }

  lemma ReadsU16(data: Text, i: nat, n: nat)
    requires n < 0x1_0000 && At(data, i, U16(n))
    ensures ReadU16(data, i) == n
  {
    AtByte(data, i, U16(n), 0);
    AtByte(data, i, U16(n), 1);
  }

  lemma ReadsU32(data: Text, i: nat, n: nat)
    requires n < TWO_32 && At(data, i, U32(n))
    ensures ReadU32(data, i) == n
  {
    var w := U32(n);
    AtByte(data, i, w, 0);
    AtByte(data, i, w, 1);
    AtByte(data, i, w, 2);
    AtByte(data, i, w, 3);
    assert n / 0x100 == n / 0x1_0000 * 0x100 + n / 0x100 % 0x100;
    assert n / 0x1_0000 == n / 0x100_0000 * 0x100 + n / 0x1_0000 % 0x100;
  }

  /** Every serial, negative ones included, survives the cast to an unsigned word and back. */
  lemma SerialRoundTrip(n: int)
    requires -TWO_31 <= n < TWO_31
    ensures Unsigned(n) < TWO_32 && Signed(Unsigned(n)) == n
  {
  }

  /** A quotient is the one number whose multiple leaves a remainder. */
  lemma QuotientIs(n: nat, d: nat, q: nat, r: nat)
    requires 0 < d && n == q * d + r && r < d
    ensures n / d == q
  {
    var p := n / d;
    assert n == p * d + n % d;
    if p < q {
      ScaledGrows(p + 1, q, d);
    } else if q < p {
      ScaledGrows(q + 1, p, d);
    }
  }

  lemma ScaledGrows(a: nat, b: nat, d: nat)
    requires a <= b
    ensures a * d <= b * d
  {
    assert (b - a) * d >= 0;
  }

  lemma DivShift(m: nat, d: nat, k: nat)
    requires 0 < d
    ensures (m + k * d) / d == m / d + k
  {
    var q := m / d;
    assert m == q * d + m % d && (q + k) * d == q * d + k * d;
    QuotientIs(m + k * d, d, q + k, m % d);
  }

  lemma ByteShift(m: nat, k: nat)
    ensures (m + 0x100 * k) % 0x100 == m % 0x100
  {
    DivShift(m, 0x100, k);
  }

  /** The length field holds the lower 32 bits. */
  lemma LengthWraps(n: nat)
    ensures U32(n % TWO_32) == U32(n)
  {
    var m, k := n % TWO_32, n / TWO_32;
    assert n == m + k * TWO_32;
    DivShift(m, 0x100_0000, 0x100 * k);
    DivShift(m, 0x1_0000, 0x1_0000 * k);
    DivShift(m, 0x100, 0x100_0000 * k);
    ByteShift(m / 0x100_0000, k);
    ByteShift(m / 0x1_0000, 0x100 * k);
    ByteShift(m / 0x100, 0x1_0000 * k);
    ByteShift(m, 0x100_0000 * k);
  }

  // ----- one frame -----

  /** The bytes of a frame: its length, the fields and the payload. */
  function Encode(f: Frame): (w: Text)
    ensures |w| == HEADER + |f.payload|
  {
    U32(HEADER + |f.payload|) + ([f.cmd % 0x100] + (U16(f.msgId) + (U32(Unsigned(f.serial)) + (U32(f.sessionId) + f.payload))))
  }

  datatype Extraction = NeedMore | Invalid | Extracted(frame: Frame, rest: Text)

  /** The fields behind the length. */
  function BodyOf(data: Text): (f: Frame)
    requires |data| >= BODY_HEADER
  {
    Frame(data[0], ReadU16(data, 1), Signed(ReadU32(data, 3)), ReadU32(data, 7), data[BODY_HEADER..])
  }

  /** `try_extract_frame`. */
  function Extract(buf: Text): (r: Extraction)
    ensures r.Extracted? ==> |r.rest| + HEADER <= |buf|
  {
    if |buf| < HEADER then NeedMore
    else
      var len := ReadU32(buf, 0);
      if len < HEADER || len > MAX_PACKET then Invalid
      else if |buf| < len then NeedMore
      else Extracted(BodyOf(buf[4..len]), buf[len..])
  }

  lemma BodyReads(f: Frame, data: Text)
    requires InTypes(f)
    requires data == [f.cmd % 0x100] + (U16(f.msgId) + (U32(Unsigned(f.serial)) + (U32(f.sessionId) + f.payload)))
    ensures |data| == BODY_HEADER + |f.payload| && BodyOf(data) == f
  {
    hide At, U16, U32, Signed, Unsigned, ReadU16, ReadU32;
    var d := U32(f.sessionId) + f.payload;
    var c := U32(Unsigned(f.serial)) + d;
    var b := U16(f.msgId) + c;
    SerialRoundTrip(f.serial);
    AtWhole(data);
    AtSplit(data, 0, [f.cmd % 0x100], b);
    AtSplit(data, 1, U16(f.msgId), c);
    AtSplit(data, 3, U32(Unsigned(f.serial)), d);
    AtSplit(data, 7, U32(f.sessionId), f.payload);
    ReadsU16(data, 1, f.msgId);
    ReadsU32(data, 3, Unsigned(f.serial));
    ReadsU32(data, 7, f.sessionId);
    assert data[0] == f.cmd;
    assert data[BODY_HEADER..] == f.payload by { PayloadAt(data, f.payload); }
  }

  lemma PayloadAt(data: Text, payload: Text)
    requires |data| == BODY_HEADER + |payload| && At(data, BODY_HEADER, payload)
    ensures data[BODY_HEADER..] == payload
  {
  }

  /** Extracting right after encoding gives the frame back and leaves what follows. */
  lemma SendableExtracts(f: Frame, rest: Text)
    requires Sendable(f)
    ensures Extract(Encode(f) + rest) == Extracted(f, rest)
  {
    hide At, BodyOf, ReadU32, U32;
    var len := HEADER + |f.payload|;
    var body := [f.cmd % 0x100] + (U16(f.msgId) + (U32(Unsigned(f.serial)) + (U32(f.sessionId) + f.payload)));
    var buf := Encode(f) + rest;
    assert buf == U32(len) + (body + rest);
    AtWhole(buf);
    AtSplit(buf, 0, U32(len), body + rest);
    ReadsU32(buf, 0, len);
    BodyReads(f, body);
    assert buf[4..len] == body && buf[len..] == rest;
  }

  /** A frame past the limit: its length field, wrapped or not, makes the receiver refuse it or take another frame. */
  lemma OversizeIsNotExtracted(f: Frame, rest: Text)
    requires HEADER + |f.payload| > MAX_PACKET
    ensures Extract(Encode(f) + rest) != Extracted(f, rest)
  {
    hide At, BodyOf, ReadU32, U32;
    var n := HEADER + |f.payload|;
    var buf := Encode(f) + rest;
    assert buf == U32(n) + buf[4..];
    AtWhole(buf);
    AtSplit(buf, 0, U32(n), buf[4..]);
    LengthWraps(n);
    ReadsU32(buf, 0, n % TWO_32);
    var len := n % TWO_32;
    if HEADER <= len <= MAX_PACKET && len <= |buf| {
      PayloadLength(buf[4..len]);
    }
  }

  lemma PayloadLength(data: Text)
    requires |data| >= BODY_HEADER
    ensures |BodyOf(data).payload| == |data| - BODY_HEADER
  {
  }

  /** Neither encoder checks the limit: a frame comes back from its encoding exactly when it keeps it. */
  lemma ExtractsEncoded(f: Frame, rest: Text)
    requires InTypes(f)
    ensures Extract(Encode(f) + rest) == Extracted(f, rest) <==> Sendable(f)
  {
    hide Encode, Extract;
    if Sendable(f) {
      SendableExtracts(f, rest);
    } else {
      OversizeIsNotExtracted(f, rest);
    }
  }

  // ----- the bytes on the wire -----

  /** Four bytes, the most significant first. */
  function Word(w: Text, i: nat): (n: int)
    requires i + 4 <= |w|
  {
    var a: int, b: int, c: int, d: int := w[i], w[i + 1], w[i + 2], w[i + 3];
    ((a * 0x100 + b) * 0x100 + c) * 0x100 + d
  }

  /** The frame that `w` spells: length, command, message id, serial in two's complement, session id, payload. */
  ghost predicate Spells(w: Text, f: Frame) {
    && |w| == 15 + |f.payload| && Word(w, 0) == |w| && w[4] == f.cmd
    && (var high: int := w[5]; high * 0x100 + w[6] == f.msgId)
    && Word(w, 7) == (if f.serial < 0 then f.serial + 0x1_0000_0000 else f.serial)
    && Word(w, 11) == f.sessionId && w[15..] == f.payload
  }

  lemma U32Spells(n: nat, w: Text, i: nat)
    requires n < TWO_32 && At(w, i, U32(n))
    ensures i + 4 <= |w| && Word(w, i) == n
  {
    ReadsU32(w, i, n);
  }

  /** Every frame is written in these bytes. */
  lemma EncodeSpells(f: Frame)
    requires InTypes(f) && HEADER + |f.payload| < TWO_32
    ensures Spells(Encode(f), f)
  {
    hide At, U16, U32, Word;
    var w := Encode(f);
    var d := U32(f.sessionId) + f.payload;
    var c := U32(Unsigned(f.serial)) + d;
    var b := U16(f.msgId) + c;
    var a := [f.cmd % 0x100] + b;
    AtWhole(w);
    AtSplit(w, 0, U32(|w|), a);
    AtSplit(w, 4, [f.cmd % 0x100], b);
    AtByte(w, 4, [f.cmd % 0x100], 0);
    AtSplit(w, 5, U16(f.msgId), c);
    AtSplit(w, 7, U32(Unsigned(f.serial)), d);
    AtSplit(w, 11, U32(f.sessionId), f.payload);
    U32Spells(|w|, w, 0);
    SerialRoundTrip(f.serial);
    U32Spells(Unsigned(f.serial), w, 7);
    U32Spells(f.sessionId, w, 11);
    ReadsU16(w, 5, f.msgId);
    Payload(w, f.payload);
  }

  lemma Payload(w: Text, payload: Text)
    requires |w| == HEADER + |payload| && At(w, HEADER, payload)
    ensures w[15..] == payload
  {
  }

  /** A buffer begins with a frame exactly when its first bytes spell one of at most a megabyte; it is refused exactly when
      the length is less than a header or more than that, and otherwise more bytes are awaited. */
  lemma ExtractsSpelled(buf: Text)
    ensures Extract(buf).Invalid? <==> |buf| >= 15 && !(15 <= Word(buf, 0) <= 0x10_0000)
    ensures Extract(buf).NeedMore? <==> |buf| < 15 || (15 <= Word(buf, 0) <= 0x10_0000 && |buf| < Word(buf, 0))
    ensures Extract(buf).Extracted? ==>
      var n := Word(buf, 0); 15 <= n <= |buf| && Spells(buf[..n], Extract(buf).frame) && Extract(buf).rest == buf[n..]
  {
    if Extract(buf).Extracted? {
      var n := ReadU32(buf, 0);
      assert buf[4..n][11..] == buf[..n][15..];
    }
  }

  // ----- reassembly -----

  /** What repeated extraction takes out of a buffer: the frames, what is left, and whether all went well. */
  datatype Drained = Drained(frames: seq<Frame>, rest: Text, ok: bool)

  function Drain(buf: Text): (r: Drained)
    ensures |r.rest| <= |buf|
    decreases |buf|
  {
    match Extract(buf)
    case NeedMore => Drained([], buf, true)
    case Invalid => Drained([], buf, false)
    case Extracted(frame, rest) =>
      var more := Drain(rest);
      Drained([frame] + more.frames, more.rest, more.ok)
  }

  /** A frame or an error seen in the front of a stream is there whatever follows. */
  lemma ExtractIsStable(a: Text, b: Text)
    ensures Extract(a).Invalid? ==> Extract(a + b).Invalid?
    ensures Extract(a).Extracted? ==> Extract(a + b) == Extracted(Extract(a).frame, Extract(a).rest + b)
  {
    hide BodyOf;
    if |a| >= HEADER {
      assert ReadU32(a + b, 0) == ReadU32(a, 0);
      var len := ReadU32(a, 0);
      if HEADER <= len <= |a| {
        assert (a + b)[4..len] == a[4..len] && (a + b)[len..] == a[len..] + b;
      }
    }
  }

  /** Draining a stream in two parts, the second behind what the first left. */
  lemma {:induction false} DrainInParts(a: Text, b: Text)
    ensures Drain(a).ok ==>
      Drain(a + b) == Drained(Drain(a).frames + Drain(Drain(a).rest + b).frames,
                              Drain(Drain(a).rest + b).rest, Drain(Drain(a).rest + b).ok)
    ensures !Drain(a).ok ==> Drain(a + b).frames == Drain(a).frames && !Drain(a + b).ok
    decreases |a|
  {
    hide Extract, InTypes;
    ExtractIsStable(a, b);
    var e := Extract(a);
    if e.Extracted? {
      DrainInParts(e.rest, b);
      var d := Drain(e.rest);
      if d.ok {
        var more := Drain(d.rest + b);
        assert [e.frame] + (d.frames + more.frames) == [e.frame] + d.frames + more.frames;
      }
    } else if e.NeedMore? {
      assert [] + Drain(a + b).frames == Drain(a + b).frames;
    }
  }

  function Concat(chunks: seq<Text>): (w: Text) {
    if chunks == [] then [] else chunks[0] + Concat(chunks[1..])
  }

  /** The receiving loop: each chunk is appended to the buffer, which is drained; an error ends the connection. */
  function Feed(state: Drained, chunks: seq<Text>): (r: Drained)
    decreases |chunks|
  {
    if chunks == [] || !state.ok then state
    else
      var d := Drain(state.rest + chunks[0]);
      Feed(Drained(state.frames + d.frames, d.rest, d.ok), chunks[1..])
  }

  lemma DrainOfPartial(buf: Text)
    requires Extract(buf).NeedMore?
    ensures Drain(buf) == Drained([], buf, true)
  {
  }

  lemma {:induction false} FeedIsDrain(frames: seq<Frame>, buf: Text, chunks: seq<Text>)
    requires Extract(buf).NeedMore?
    ensures var fed, all := Feed(Drained(frames, buf, true), chunks), Drain(buf + Concat(chunks));
      fed.frames == frames + all.frames && fed.ok == all.ok && (all.ok ==> fed.rest == all.rest)
    decreases |chunks|
  {
    hide Extract;
    DrainOfPartial(buf);
    if chunks == [] {
      assert buf + Concat(chunks) == buf && frames + [] == frames;
    } else {
      hide Drain;
      var d := Drain(buf + chunks[0]);
      assert buf + Concat(chunks) == (buf + chunks[0]) + Concat(chunks[1..]);
      DrainInParts(buf + chunks[0], Concat(chunks[1..]));
      if d.ok {
        DrainLeavesPartial(buf + chunks[0]);
        FeedIsDrain(frames + d.frames, d.rest, chunks[1..]);
        var all := Drain(d.rest + Concat(chunks[1..]));
        assert frames + d.frames + all.frames == frames + (d.frames + all.frames);
      }
    }
  }

  lemma {:induction false} DrainLeavesPartial(buf: Text)
    ensures Drain(buf).ok ==> Extract(Drain(buf).rest).NeedMore?
    decreases |buf|
  {
    hide Extract;
    if Extract(buf).Extracted? {
      DrainLeavesPartial(Extract(buf).rest);
    }
  }

  /** Reassembly does not depend on how any byte stream, good or bad, was cut into chunks. */
  lemma ChunkingDoesNotMatter(chunks: seq<Text>, others: seq<Text>)
    requires Concat(chunks) == Concat(others)
    ensures var a, b := Feed(Drained([], [], true), chunks), Feed(Drained([], [], true), others);
      a.frames == b.frames && a.ok == b.ok && (a.ok ==> a.rest == b.rest)
  {
    FeedIsDrain([], [], chunks);
    FeedIsDrain([], [], others);
  }

  function EncodeAll(frames: seq<Frame>): (w: Text) {
    if frames == [] then [] else Encode(frames[0]) + EncodeAll(frames[1..])
  }

  lemma {:induction false} DrainsEncoded(frames: seq<Frame>, tail: Text)
    requires forall f :: f in frames ==> Sendable(f)
    requires Extract(tail).NeedMore?
    ensures Drain(EncodeAll(frames) + tail) == Drained(frames, tail, true)
    decreases |frames|
  {
    hide Extract, Encode;
    if frames == [] {
      assert EncodeAll(frames) + tail == tail;
    } else {
      SendableExtracts(frames[0], EncodeAll(frames[1..]) + tail);
      assert EncodeAll(frames) + tail == Encode(frames[0]) + (EncodeAll(frames[1..]) + tail);
      DrainsEncoded(frames[1..], tail);
      assert frames == [frames[0]] + frames[1..];
    }
  }

  /** A proper prefix of a frame's encoding waits for more. */
  lemma PrefixWaits(f: Frame, tail: Text)
    requires Sendable(f) && tail < Encode(f)
    ensures Extract(tail).NeedMore?
  {
    if |tail| >= HEADER {
      var w := Encode(f);
      assert forall k :: 0 <= k < 4 ==> tail[k] == w[k];
      AtWhole(w);
      AtSplit(w, 0, U32(HEADER + |f.payload|), w[4..]);
      assert w == U32(HEADER + |f.payload|) + w[4..];
      ReadsU32(w, 0, HEADER + |f.payload|);
    }
  }

  /** However the encodings of some frames and the beginning of one more are cut into chunks, exactly those frames come
      out, in order, and the beginning stays in the buffer. */
  lemma FramesSurviveChunking(frames: seq<Frame>, next: Frame, tail: Text, chunks: seq<Text>)
    requires forall f :: f in frames ==> Sendable(f)
    requires Sendable(next) && tail < Encode(next)
    requires Concat(chunks) == EncodeAll(frames) + tail
    ensures Feed(Drained([], [], true), chunks) == Drained(frames, tail, true)
  {
    hide Extract, Encode;
    PrefixWaits(next, tail);
    DrainsEncoded(frames, tail);
    EmptyWaits();
    FeedIsDrain([], [], chunks);
    assert [] + Concat(chunks) == Concat(chunks) && [] + frames == frames;
  }

  lemma EmptyWaits()
    ensures Extract([]).NeedMore?
  {
  }

  // ----- the two codecs -----

  /** `writeU16BE` and `writeU32BE` into a buffer. */
  method WriteU16(data: array<Byte>, offset: nat, value: nat)
    requires offset + 2 <= data.Length
    modifies data
    ensures data[..offset + 2] == old(data[..offset]) + U16(value) && data[offset + 2..] == old(data[offset + 2..])
  {
    data[offset] := value / 0x100 % 0x100;
    data[offset + 1] := value % 0x100;
  }

  method WriteU32(data: array<Byte>, offset: nat, value: nat)
    requires offset + 4 <= data.Length
    modifies data
    ensures data[..offset + 4] == old(data[..offset]) + U32(value) && data[offset + 4..] == old(data[offset + 4..])
  {
    data[offset] := value / 0x100_0000 % 0x100;
    data[offset + 1] := value / 0x1_0000 % 0x100;
    data[offset + 2] := value / 0x100 % 0x100;
    data[offset + 3] := value % 0x100;
  }

  method CopyTo(data: array<Byte>, offset: nat, payload: Text)
    requires offset + |payload| == data.Length
    modifies data
    ensures data[..] == old(data[..offset]) + payload
  {
    for k := 0 to |payload|
      invariant data[..offset + k] == old(data[..offset]) + payload[..k]
    {
      data[offset + k] := payload[k];
    }
  }

  /** `encodeBackendFrame`: a zeroed string of the frame's length, filled in place. */
  method EncodeBackendFrame(f: Frame) returns (frame: array<Byte>)
    requires InTypes(f) && HEADER + |f.payload| < TWO_32
    ensures fresh(frame) && frame[..] == Encode(f)
  {
    hide U16, U32, Unsigned;
    var frameLen := (HEADER + |f.payload|) % TWO_32;
    frame := new Byte[frameLen](_ => 0);
    WriteU32(frame, 0, frameLen);
    assert frame[..0] == [];
    frame[4] := f.cmd % 0x100;
    assert frame[..5] == U32(frameLen) + [f.cmd % 0x100];
    WriteU16(frame, 5, f.msgId);
    assert frame[..7] == U32(frameLen) + [f.cmd % 0x100] + U16(f.msgId);
    WriteU32(frame, 7, Unsigned(f.serial));
    assert frame[..11] == U32(frameLen) + [f.cmd % 0x100] + U16(f.msgId) + U32(Unsigned(f.serial));
    WriteU32(frame, 11, f.sessionId);
    var header := U32(frameLen) + [f.cmd % 0x100] + U16(f.msgId) + U32(Unsigned(f.serial)) + U32(f.sessionId);
    assert frame[..HEADER] == header;
    CopyTo(frame, HEADER, f.payload);
    assert frame[..] == header + f.payload == Encode(f);
  }

  /** `encode_frame`: the fields appended to a buffer. */
  method EncodeFrame(f: Frame) returns (buf: Text)
    requires InTypes(f)
    ensures buf == Encode(f)
  {
    hide U16, U32, Unsigned;
    LengthWraps(HEADER + |f.payload|);
    var totalLen := HEADER + |f.payload|;
    buf := [];
    buf := buf + U32(totalLen % TWO_32);
    buf := buf + [f.cmd % 0x100];
    buf := buf + U16(f.msgId);
    buf := buf + U32(Unsigned(f.serial));
    buf := buf + U32(f.sessionId);
    buf := buf + f.payload;
    assert buf == U32(totalLen) + [f.cmd % 0x100] + U16(f.msgId) + U32(Unsigned(f.serial)) + U32(f.sessionId) + f.payload;
  }

  /** The receiving buffer of a connection. */
  class BytesMut {
    var data: Text

    constructor ()
      ensures data == []
    {
      data := [];
    }

    /** `try_extract_frame`: a frame taken off the front, nothing while it is incomplete, or an error. */
    method TryExtractFrame() returns (frame: Option<Frame>, ok: bool)
      modifies this
      ensures ok <==> !Extract(old(data)).Invalid?
      ensures frame.Some? <==> Extract(old(data)).Extracted?
      ensures frame.Some? ==> Extract(old(data)) == Extracted(frame.value, data)
      ensures frame.None? ==> data == old(data)
    {
      if |data| < HEADER {
        return None, true;
      }
      var len := ReadU32(data, 0);
      if len < HEADER {
        return None, false;
      }
      if len > MAX_PACKET {
        return None, false;
      }
      if |data| < len {
        return None, true;
      }
      var frameData := data[..len];
      data := data[len..];
      assert frameData[4..] == old(data)[4..len];
      return Some(BodyOf(frameData[4..])), true;
    }

    /** One turn of the read loop: what arrived is appended, and frames are taken while there are any. */
    method Receive(chunk: Text) returns (frames: seq<Frame>, ok: bool)
      modifies this
      ensures Drained(frames, data, ok) == Drain(old(data) + chunk)
    {
      hide Extract, BodyOf;
      frames := [];
      ok := true;
      data := data + chunk;
      ghost var all := data;
      while true
        invariant ok && Drain(all) == Drained(frames + Drain(data).frames, Drain(data).rest, Drain(data).ok)
        decreases |data|
      {
        ghost var before := data;
        var frame;
        frame, ok := TryExtractFrame();
        if frame.None? {
          assert frames + [] == frames;
          return;
        }
        assert frames + ([frame.value] + Drain(data).frames) == frames + [frame.value] + Drain(data).frames;
        frames := frames + [frame.value];
      }
    }
  }

  datatype DecodeResult = Decoded(frame: Frame) | TooShort | InvalidLength | TooLarge | Incomplete

  /** `decodeBackendFrame`. */
  function DecodeBackendFrame(data: Text): (r: DecodeResult) {
    if |data| < HEADER then TooShort
    else
      var frameLen := ReadU32(data, 0);
      if frameLen < HEADER then InvalidLength
      else if frameLen > MAX_PACKET then TooLarge
      else if frameLen > |data| then Incomplete
      else Decoded(BodyOf(data[4..frameLen]))
  }

  /** The two decoders take the same frame from the same bytes, and each decodes what either encoder made. */
  lemma DecodersAgree(data: Text, f: Frame, rest: Text)
    ensures Extract(data).Extracted? <==> DecodeBackendFrame(data).Decoded?
    ensures Extract(data).Extracted? ==> DecodeBackendFrame(data) == Decoded(Extract(data).frame)
    ensures Extract(data).Invalid? <==> DecodeBackendFrame(data).InvalidLength? || DecodeBackendFrame(data).TooLarge?
    ensures Sendable(f) ==> DecodeBackendFrame(Encode(f) + rest) == Decoded(f)
  {
    hide BodyOf, ReadU32, Encode;
    if Sendable(f) {
      ExtractsEncoded(f, rest);
    }
  }
}
