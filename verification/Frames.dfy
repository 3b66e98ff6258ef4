/** The frame codec of the spool log (spool/segment.go): magic, lengths, CRC-32, JSON
    header, payload. json.Unmarshal is a parameter of the decoder; what is proved assumes
    only that it reads back the headers the encoder wrote. */
module Frames {
  import opened Bytes
  import opened Crc32
  import opened JsonHeader

  const FRAME_PREFIX_BYTES := 14
  const MAX_FRAME_PAYLOAD := 8 * 1024 * 1024
  const MAX_HEADER_BYTES := 0xFFFF
  const MAX_FRAME_BYTES := FRAME_PREFIX_BYTES + MAX_HEADER_BYTES + MAX_FRAME_PAYLOAD

  /** One spool entry. */
  datatype Frame = Frame(signal: Text, encoding: Text, id: Text, payload: Text)

  datatype EncodeError = Unnamed | PayloadTooLarge | HeaderTooLarge

  datatype DecodeError = BoundaryLost(at: nat) | ChecksumMismatch(at: nat) | BadHeader(at: nat)

  /** What a reader gets: the frames before the first error, and that error if any. */
  datatype Decoded = Decoded(frames: seq<Frame>, error: Option<DecodeError>)

  type Unmarshal = Text -> Option<Header>

  function HeaderOf(f: Frame): Header {
    Header(f.signal, f.encoding, f.id)
  }

  function HeaderBytes(f: Frame): Text {
    MarshalHeader(HeaderOf(f))
  }

  /** The frames EncodeFrame accepts. */
  predicate Encodable(f: Frame) {
    f.signal != [] && f.encoding != [] && |f.payload| <= MAX_FRAME_PAYLOAD &&
    |HeaderBytes(f)| <= MAX_HEADER_BYTES
  }

  /** Why EncodeFrame turns down a frame that is not encodable. */
  function Refusal(f: Frame): EncodeError {
    if f.signal == [] || f.encoding == [] then Unnamed
    else if |f.payload| > MAX_FRAME_PAYLOAD then PayloadTooLarge
    else HeaderTooLarge
  }

  /** `unmarshal` reads back this frame's header. */
  predicate Readable(unmarshal: Unmarshal, f: Frame) {
    unmarshal(HeaderBytes(f)) == Some(HeaderOf(f))
  }

  predicate AllWritable(unmarshal: Unmarshal, fs: seq<Frame>) {
    forall f :: f in fs ==> Encodable(f) && Readable(unmarshal, f)
  }

  predicate AllEncodable(fs: seq<Frame>) {
    forall f :: f in fs ==> Encodable(f)
  }

  // ----- Little-endian fields ---------------------------------------------------------

  function PutUint16(n: nat): Text {
    [n % 256, n / 256 % 256]
  }

  function PutUint32(n: nat): Text {
    [n % 256, n / 256 % 256, n / 65536 % 256, n / 0x100_0000 % 256]
  }

  function Uint16(b: Text): (n: nat)
    requires |b| == 2
  {
    var b0: nat, b1: nat := b[0], b[1];
    b0 + 256 * b1
  }

  function Uint32(b: Text): (n: nat)
    requires |b| == 4
  {
    var b0: nat, b1: nat, b2: nat, b3: nat := b[0], b[1], b[2], b[3];
    b0 + 256 * b1 + 65536 * b2 + 0x100_0000 * b3
  }

  lemma Uint16RoundTrip(n: nat)
    requires n < 0x1_0000
    ensures Uint16(PutUint16(n)) == n
  {
  }

  lemma Uint32RoundTrip(n: nat)
    requires n < 0x1_0000_0000
    ensures Uint32(PutUint32(n)) == n
  {
    var q1, q2, q3 := n / 256, n / 65536, n / 0x100_0000;
    assert q2 == q1 / 256 && q3 == q2 / 256;
  }

  // ----- Encoding ---------------------------------------------------------------------

  function Magic(): Text {
    Ascii("CHRN")
  }

  function FramePrefix(header: Text, payload: Text): (p: Text)
    ensures |p| == FRAME_PREFIX_BYTES
  {
    Magic() + PutUint16(|header|) + PutUint32(|payload|) + PutUint32(ChecksumIEEE(header + payload))
  }

  /** The bytes of one frame. */
  function FrameBytes(f: Frame): (b: Text)
    requires Encodable(f)
    ensures FRAME_PREFIX_BYTES < |b| <= MAX_FRAME_BYTES
  {
    FramePrefix(HeaderBytes(f), f.payload) + (HeaderBytes(f) + f.payload)
  }

  method EncodeFrame(signal: Text, encoding: Text, id: Text, payload: Text)
    returns (r: Result<Text, EncodeError>)
    ensures var f := Frame(signal, encoding, id, payload);
      && (r.Ok? <==> Encodable(f))
      && (r.Ok? ==> r.value == FrameBytes(f))
      && (r.Err? ==> r.error == Refusal(f))
  {
    if signal == [] || encoding == [] {
      return Err(Unnamed);
    }
    if |payload| > MAX_FRAME_PAYLOAD {
      return Err(PayloadTooLarge);
    }
    var header := MarshalHeader(Header(signal, encoding, id));
    if |header| > MAX_HEADER_BYTES {
      return Err(HeaderTooLarge);
    }
    var body := header;
    body := body + payload;
    var frame := Magic();
    frame := frame + PutUint16(|header|);
    frame := frame + PutUint32(|payload|);
    frame := frame + PutUint32(ChecksumIEEE(body));
    frame := frame + body;
    return Ok(frame);
  }

  /** The bytes of a segment that holds exactly these frames. */
  function Log(fs: seq<Frame>): Text
    requires AllEncodable(fs)
  {
    if fs == [] then [] else FrameBytes(fs[0]) + Log(fs[1..])
  }

  lemma {:induction false} LogAppend(a: seq<Frame>, b: seq<Frame>)
    requires AllEncodable(a) && AllEncodable(b)
    ensures AllEncodable(a + b)
    ensures Log(a + b) == Log(a) + Log(b)
  {
    hide Encodable, FrameBytes;
    if a == [] {
      assert a + b == b;
    } else {
      LogAppend(a[1..], b);
      assert (a + b)[1..] == a[1..] + b;
    }
  }

  lemma LogSnoc(a: seq<Frame>, f: Frame)
    requires AllEncodable(a) && Encodable(f)
    ensures AllEncodable(a + [f])
    ensures Log(a + [f]) == Log(a) + FrameBytes(f)
  {
    hide Encodable, FrameBytes;
    LogAppend(a, [f]);
    assert Log([f]) == FrameBytes(f) + Log([]);
  }

  // ----- Decoding ---------------------------------------------------------------------

  /** Decoding from one frame boundary, `base` bytes into the segment. */
  function Decode(data: Text, base: nat, unmarshal: Unmarshal): Decoded
    decreases |data|
  {
    if |data| < FRAME_PREFIX_BYTES then Decoded([], None)
    else if data[..4] != Magic() then Decoded([], Some(BoundaryLost(base)))
    else
      var headerLen := Uint16(data[4..6]);
      var end := FRAME_PREFIX_BYTES + headerLen + Uint32(data[6..10]);
      if end > |data| then Decoded([], None)
      else
        var body := data[FRAME_PREFIX_BYTES..end];
        if ChecksumIEEE(body) != Uint32(data[10..14]) then Decoded([], Some(ChecksumMismatch(base)))
        else
          match unmarshal(body[..headerLen])
          case None => Decoded([], Some(BadHeader(base)))
          case Some(h) =>
            var rest := Decode(data[end..], base + end, unmarshal);
            Decoded([Frame(h.signal, h.encoding, h.id, body[headerLen..])] + rest.frames, rest.error)
  }

  method DecodeFrames(data: Text, unmarshal: Unmarshal) returns (d: Decoded)
    ensures d == Decode(data, 0, unmarshal)
  {
    hide ChecksumIEEE, Uint16, Uint32, Magic, Decode;
    var frames: seq<Frame> := [];
    var offset := 0;
    assert data[0..] == data;
    while offset + FRAME_PREFIX_BYTES <= |data|
      invariant 0 <= offset <= |data|
      invariant var rest := Decode(data[offset..], offset, unmarshal);
        Decode(data, 0, unmarshal) == Decoded(frames + rest.frames, rest.error)
    {
      DecodeAt(data, offset, unmarshal);
      if data[offset..offset + 4] != Magic() {
        return Decoded(frames, Some(BoundaryLost(offset)));
      }
      var headerLen := Uint16(data[offset + 4..offset + 6]);
      var payloadLen := Uint32(data[offset + 6..offset + 10]);
      var checksum := Uint32(data[offset + 10..offset + 14]);
      var start := offset + FRAME_PREFIX_BYTES;
      var end := start + headerLen + payloadLen;
      if end > |data| {
        return Decoded(frames, None);
      }
      var body := data[start..end];
      if ChecksumIEEE(body) != checksum {
        return Decoded(frames, Some(ChecksumMismatch(offset)));
      }
      match unmarshal(body[..headerLen]) {
        case None =>
          return Decoded(frames, Some(BadHeader(offset)));
        case Some(header) =>
          frames := frames + [Frame(header.signal, header.encoding, header.id, body[headerLen..])];
      }
      offset := end;
    }
    DecodeShort(data[offset..], offset, unmarshal);
    return Decoded(frames, None);
  }

  lemma DecodeShort(tail: Text, base: nat, unmarshal: Unmarshal)
    requires |tail| < FRAME_PREFIX_BYTES
    ensures Decode(tail, base, unmarshal) == Decoded([], None)
  {
  }

  /** Decode in terms of the whole segment. */
  lemma DecodeAt(data: Text, offset: nat, unmarshal: Unmarshal)
    requires offset + FRAME_PREFIX_BYTES <= |data|
    ensures var start := offset + FRAME_PREFIX_BYTES;
      var headerLen := Uint16(data[offset + 4..offset + 6]);
      var end := start + headerLen + Uint32(data[offset + 6..offset + 10]);
      Decode(data[offset..], offset, unmarshal) ==
        if data[offset..offset + 4] != Magic() then Decoded([], Some(BoundaryLost(offset)))
        else if end > |data| then Decoded([], None)
        else if ChecksumIEEE(data[start..end]) != Uint32(data[offset + 10..offset + 14]) then
          Decoded([], Some(ChecksumMismatch(offset)))
        else
          match unmarshal(data[start..end][..headerLen])
          case None => Decoded([], Some(BadHeader(offset)))
          case Some(h) =>
            var rest := Decode(data[end..], end, unmarshal);
            Decoded([Frame(h.signal, h.encoding, h.id, data[start..end][headerLen..])] + rest.frames, rest.error)
  {
    hide ChecksumIEEE, Uint16, Uint32, Magic;
    var tail := data[offset..];
    PrefixOfTail(data, offset);
    var end := FRAME_PREFIX_BYTES + Uint16(tail[4..6]) + Uint32(tail[6..10]);
    if end <= |tail| {
      assert data[offset + FRAME_PREFIX_BYTES..offset + end] == tail[FRAME_PREFIX_BYTES..end];
      assert data[offset + end..] == tail[end..];
    }
  }

  lemma PrefixOfTail(data: Text, offset: nat)
    requires offset + FRAME_PREFIX_BYTES <= |data|
    ensures var tail := data[offset..];
      data[offset..offset + 4] == tail[..4] && data[offset + 4..offset + 6] == tail[4..6] &&
      data[offset + 6..offset + 10] == tail[6..10] && data[offset + 10..offset + 14] == tail[10..14]
  {
  }

  /** The fields a reader finds at the head of anything that starts with a frame's prefix. */
  lemma PrefixFields(f: Frame, data: Text)
    requires Encodable(f)
    requires |data| >= FRAME_PREFIX_BYTES && data[..FRAME_PREFIX_BYTES] == FramePrefix(HeaderBytes(f), f.payload)
    ensures data[..4] == Magic()
    ensures Uint16(data[4..6]) == |HeaderBytes(f)|
    ensures Uint32(data[6..10]) == |f.payload|
    ensures Uint32(data[10..14]) == ChecksumIEEE(HeaderBytes(f) + f.payload)
  {
    var h, p := HeaderBytes(f), f.payload;
    var crc := ChecksumIEEE(h + p);
    var prefix := FramePrefix(h, p);
    assert data[..4] == prefix[..4] == Magic();
    assert data[4..6] == prefix[4..6] == PutUint16(|h|);
    assert data[6..10] == prefix[6..10] == PutUint32(|p|);
    assert data[10..14] == prefix[10..14] == PutUint32(crc);
    Uint16RoundTrip(|h|);
    Uint32RoundTrip(|p|);
    Uint32RoundTrip(crc);
  }

  /** A whole frame at the head is read back as far as its header is, and decoding goes on
      behind it. */
  lemma DecodeHeadAs(f: Frame, h: Header, rest: Text, base: nat, unmarshal: Unmarshal)
    requires Encodable(f) && unmarshal(HeaderBytes(f)) == Some(h)
    ensures var d := Decode(rest, base + |FrameBytes(f)|, unmarshal);
      Decode(FrameBytes(f) + rest, base, unmarshal) ==
        Decoded([Frame(h.signal, h.encoding, h.id, f.payload)] + d.frames, d.error)
  {
    hide MarshalHeader, ChecksumIEEE, Uint16, Uint32, Magic, FramePrefix;
    var header, data := HeaderBytes(f), FrameBytes(f) + rest;
    var end := |FrameBytes(f)|;
    assert data[..FRAME_PREFIX_BYTES] == FramePrefix(header, f.payload);
    PrefixFields(f, data);
    assert data[FRAME_PREFIX_BYTES..end] == header + f.payload;
    assert (header + f.payload)[..|header|] == header && (header + f.payload)[|header|..] == f.payload;
    assert data[end..] == rest;
  }

  lemma DecodeHead(f: Frame, rest: Text, base: nat, unmarshal: Unmarshal)
    requires Encodable(f) && Readable(unmarshal, f)
    ensures var d := Decode(rest, base + |FrameBytes(f)|, unmarshal);
      Decode(FrameBytes(f) + rest, base, unmarshal) == Decoded([f] + d.frames, d.error)
  {
    hide Decode, FrameBytes, HeaderBytes;
    DecodeHeadAs(f, HeaderOf(f), rest, base, unmarshal);
  }

  lemma DecodeNothing(base: nat, unmarshal: Unmarshal)
    ensures Decode([], base, unmarshal) == Decoded([], None)
  {
  }

  /** Decoding past any run of whole frames. */
  lemma {:induction false} DecodeLog(fs: seq<Frame>, tail: Text, base: nat, unmarshal: Unmarshal)
    requires AllWritable(unmarshal, fs)
    ensures var d := Decode(tail, base + |Log(fs)|, unmarshal);
      Decode(Log(fs) + tail, base, unmarshal) == Decoded(fs + d.frames, d.error)
    decreases |fs|
  {
    hide Encodable, Readable, FrameBytes, Decode;
    if fs == [] {
      assert Log(fs) + tail == tail;
    } else {
      var first := FrameBytes(fs[0]);
      DecodeLog(fs[1..], tail, base + |first|, unmarshal);
      DecodeHead(fs[0], Log(fs[1..]) + tail, base, unmarshal);
      assert Log(fs) + tail == first + (Log(fs[1..]) + tail);
      assert fs == [fs[0]] + fs[1..];
    }
  }

  /** DecodeFrames undoes EncodeFrame on any list of frames. */
  lemma RoundTrip(fs: seq<Frame>, unmarshal: Unmarshal)
    requires AllWritable(unmarshal, fs)
    ensures Decode(Log(fs), 0, unmarshal) == Decoded(fs, None)
  {
    hide Encodable, Readable, FrameBytes, Decode;
    DecodeLog(fs, [], 0, unmarshal);
    DecodeNothing(|Log(fs)|, unmarshal);
    assert Log(fs) + [] == Log(fs) && fs + [] == fs;
  }

  /** A frame as the JSON reader of JsonHeader gives it back: its strings made UTF-8. */
  function AsRead(f: Frame): Frame {
    Frame(Sanitized(f.signal), Sanitized(f.encoding), Sanitized(f.id), f.payload)
  }

  function AllAsRead(fs: seq<Frame>): seq<Frame> {
    seq(|fs|, i requires 0 <= i < |fs| => AsRead(fs[i]))
  }

  lemma {:induction false} DecodeAsRead(fs: seq<Frame>, base: nat)
    requires AllEncodable(fs)
    ensures Decode(Log(fs), base, ReadHeader) == Decoded(AllAsRead(fs), None)
    decreases |fs|
  {
    hide Encodable, FrameBytes, Decode, ReadHeader, MarshalHeader, Sanitized, Utf8Header;
    if fs == [] {
      DecodeNothing(base, ReadHeader);
    } else {
      var first := FrameBytes(fs[0]);
      DecodeAsRead(fs[1..], base + |first|);
      ReadMarshalledHeader(HeaderOf(fs[0]));
      DecodeHeadAs(fs[0], SanitizedHeader(HeaderOf(fs[0])), Log(fs[1..]), base, ReadHeader);
      assert AllAsRead(fs) == [AsRead(fs[0])] + AllAsRead(fs[1..]);
    }
  }

  /** With the JSON reader of JsonHeader nothing is assumed: every list of frames the encoder
      accepts is read back with its strings made UTF-8, so it is read back exactly if and only
      if they were. */
  lemma RoundTripWithJsonReader(fs: seq<Frame>)
    requires AllEncodable(fs)
    ensures Decode(Log(fs), 0, ReadHeader) == Decoded(AllAsRead(fs), None)
    ensures AllAsRead(fs) == fs <==> forall f :: f in fs ==> Utf8Header(HeaderOf(f))
  {
    hide Encodable, FrameBytes, Decode, ReadHeader, Sanitized, ValidUtf8;
    DecodeAsRead(fs, 0);
    assert forall i :: 0 <= i < |fs| ==> fs[i] in fs;
    forall f | f in fs ensures AsRead(f) == f <==> Utf8Header(HeaderOf(f)) {
      SanitizedIffValid(f.signal);
      SanitizedIffValid(f.encoding);
      SanitizedIffValid(f.id);
    }
    if AllAsRead(fs) == fs {
      assert forall i :: 0 <= i < |fs| ==> AllAsRead(fs)[i] == AsRead(fs[i]);
    }
  }

  /** Each frame decoded took at least the fourteen bytes of its prefix. */
  lemma {:induction false} FramesTakeTheirPrefix(data: Text, base: nat, unmarshal: Unmarshal)
    ensures |Decode(data, base, unmarshal).frames| * FRAME_PREFIX_BYTES <= |data|
    decreases |data|
  {
    hide ChecksumIEEE, Uint16, Uint32, Magic;
    if |data| >= FRAME_PREFIX_BYTES {
      var end := FRAME_PREFIX_BYTES + Uint16(data[4..6]) + Uint32(data[6..10]);
      if end <= |data| {
        FramesTakeTheirPrefix(data[end..], base + end, unmarshal);
      }
    }
  }

  /** Two logs with the same bytes hold the same frames. */
  lemma LogInjective(a: seq<Frame>, b: seq<Frame>, unmarshal: Unmarshal)
    requires AllWritable(unmarshal, a) && AllWritable(unmarshal, b) && Log(a) == Log(b)
    ensures a == b
  {
    RoundTrip(a, unmarshal);
    RoundTrip(b, unmarshal);
  }

  /** A frame cut short anywhere decodes to nothing, without an error. */
  lemma DecodeTruncated(f: Frame, n: nat, base: nat, unmarshal: Unmarshal)
    requires Encodable(f) && n < |FrameBytes(f)|
    ensures Decode(FrameBytes(f)[..n], base, unmarshal) == Decoded([], None)
  {
    var data := FrameBytes(f)[..n];
    if n >= FRAME_PREFIX_BYTES {
      assert data[..FRAME_PREFIX_BYTES] == FramePrefix(HeaderBytes(f), f.payload);
      PrefixFields(f, data);
    }
  }

  /** How many of the frames lie wholly inside the first n bytes of their log. */
  function WholeFrames(fs: seq<Frame>, n: nat): (k: nat)
    requires AllEncodable(fs)
    ensures k <= |fs|
  {
    if fs == [] || |FrameBytes(fs[0])| > n then 0
    else 1 + WholeFrames(fs[1..], n - |FrameBytes(fs[0])|)
  }

  /** WholeFrames is the greatest k whose k frames fit in n bytes. */
  lemma {:induction false} WholeFramesIsGreatest(fs: seq<Frame>, n: nat, k: nat)
    requires AllEncodable(fs) && k <= |fs|
    ensures |Log(fs[..k])| <= n <==> k <= WholeFrames(fs, n)
    decreases |fs|
  {
    hide Encodable, FrameBytes;
    if k > 0 {
      assert fs[..k][1..] == fs[1..][..k - 1];
      assert Log(fs[..k]) == FrameBytes(fs[0]) + Log(fs[1..][..k - 1]);
      if |FrameBytes(fs[0])| <= n {
        WholeFramesIsGreatest(fs[1..], n - |FrameBytes(fs[0])|, k - 1);
      }
    }
  }

  /** A log cut at any byte decodes, without an error, to exactly the frames wholly inside. */
  lemma {:induction false} DecodePrefix(fs: seq<Frame>, n: nat, base: nat, unmarshal: Unmarshal)
    requires AllWritable(unmarshal, fs) && n <= |Log(fs)|
    ensures Decode(Log(fs)[..n], base, unmarshal) == Decoded(fs[..WholeFrames(fs, n)], None)
    decreases |fs|
  {
    hide Encodable, Readable, FrameBytes, Decode;
    if fs == [] {
      DecodeNothing(base, unmarshal);
    } else {
      var first, rest := FrameBytes(fs[0]), Log(fs[1..]);
      if |first| > n {
        assert Log(fs)[..n] == first[..n];
        DecodeTruncated(fs[0], n, base, unmarshal);
      } else {
        var m := n - |first|;
        DecodePrefix(fs[1..], m, base + |first|, unmarshal);
        DecodeHead(fs[0], rest[..m], base, unmarshal);
        assert Log(fs)[..n] == first + rest[..m];
        assert fs[..1 + WholeFrames(fs[1..], m)] == [fs[0]] + fs[1..][..WholeFrames(fs[1..], m)];
      }
    }
  }

  /** A frame whose bytes from i on are overwritten by `window`. */
  function Overwritten(frame: Text, i: nat, window: Text): Text
    requires i + |window| <= |frame|
  {
    frame[..i] + window + frame[i + |window|..]
  }

  /** A short change in the body leaves the prefix as it was and spoils the checksum. */
  lemma DamagedBody(f: Frame, i: nat, window: Text)
    requires Encodable(f)
    requires |window| <= 4 && FRAME_PREFIX_BYTES <= i && i + |window| <= |FrameBytes(f)|
    requires window != FrameBytes(f)[i..i + |window|]
    ensures var damaged := Overwritten(FrameBytes(f), i, window);
      && |damaged| == |FrameBytes(f)|
      && damaged[..FRAME_PREFIX_BYTES] == FramePrefix(HeaderBytes(f), f.payload)
      && ChecksumIEEE(damaged[FRAME_PREFIX_BYTES..]) != ChecksumIEEE(HeaderBytes(f) + f.payload)
  {
    hide Encodable, ChecksumIEEE, MarshalHeader, FramePrefix;
    var frame, body := FrameBytes(f), HeaderBytes(f) + f.payload;
    var damaged, j, k := Overwritten(frame, i, window), i - FRAME_PREFIX_BYTES, i + |window| - FRAME_PREFIX_BYTES;
    assert damaged[..FRAME_PREFIX_BYTES] == frame[..FRAME_PREFIX_BYTES];
    assert frame[FRAME_PREFIX_BYTES..] == body;
    assert body[j..k] == frame[i..i + |window|];
    assert body == body[..j] + body[j..k] + body[k..];
    assert damaged[FRAME_PREFIX_BYTES..] == body[..j] + window + body[k..];
    BurstDetected(body[..j], window, body[j..k], body[k..]);
  }

  lemma DecodeDamaged(f: Frame, damaged: Text, after: Text, base: nat, unmarshal: Unmarshal)
    requires Encodable(f) && |damaged| == |FrameBytes(f)|
    requires damaged[..FRAME_PREFIX_BYTES] == FramePrefix(HeaderBytes(f), f.payload)
    requires ChecksumIEEE(damaged[FRAME_PREFIX_BYTES..]) != ChecksumIEEE(HeaderBytes(f) + f.payload)
    ensures Decode(damaged + after, base, unmarshal) == Decoded([], Some(ChecksumMismatch(base)))
  {
    hide ChecksumIEEE, MarshalHeader, FramePrefix, Uint16, Uint32, Magic;
    var data := damaged + after;
    assert data[..FRAME_PREFIX_BYTES] == damaged[..FRAME_PREFIX_BYTES];
    PrefixFields(f, data);
    assert data[FRAME_PREFIX_BYTES..|damaged|] == damaged[FRAME_PREFIX_BYTES..];
  }

  /** If one frame's body is changed only inside a window of at most four bytes, decoding
      returns every earlier frame and stops with a checksum error at that frame. */
  lemma CorruptionDetected(before: seq<Frame>, f: Frame, i: nat, window: Text, after: Text, unmarshal: Unmarshal)
    requires AllWritable(unmarshal, before) && Encodable(f)
    requires |window| <= 4 && FRAME_PREFIX_BYTES <= i && i + |window| <= |FrameBytes(f)|
    requires window != FrameBytes(f)[i..i + |window|]
    ensures Decode(Log(before) + (Overwritten(FrameBytes(f), i, window) + after), 0, unmarshal)
         == Decoded(before, Some(ChecksumMismatch(|Log(before)|)))
  {
    hide Encodable, Readable, ChecksumIEEE, FramePrefix, FrameBytes, Decode, Overwritten, HeaderBytes;
    var damaged := Overwritten(FrameBytes(f), i, window);
    DamagedBody(f, i, window);
    DecodeDamaged(f, damaged, after, |Log(before)|, unmarshal);
    DecodeLog(before, damaged + after, 0, unmarshal);
    assert before + [] == before;
  }

  // ----- The other ways to stop ---------------------------------------------------------------------

  /** Fourteen bytes or more that do not start with CHRN, behind whole frames: the frames are
      returned, and the error that the boundary is lost there. */
  lemma BoundaryIsLost(before: seq<Frame>, junk: Text, unmarshal: Unmarshal)
    requires AllWritable(unmarshal, before)
    requires |junk| >= 14 && junk[..4] != ['C' as int, 'H' as int, 'R' as int, 'N' as int]
    ensures Decode(Log(before) + junk, 0, unmarshal) == Decoded(before, Some(BoundaryLost(|Log(before)|)))
  {
    hide Encodable, Readable, FrameBytes, Decode;
    DecodeLog(before, junk, 0, unmarshal);
    LostAt(junk, |Log(before)|, unmarshal);
    assert before + [] == before;
  }

  lemma LostAt(junk: Text, base: nat, unmarshal: Unmarshal)
    requires |junk| >= 14 && junk[..4] != ['C' as int, 'H' as int, 'R' as int, 'N' as int]
    ensures Decode(junk, base, unmarshal) == Decoded([], Some(BoundaryLost(base)))
  {
    assert Magic() == ['C' as int, 'H' as int, 'R' as int, 'N' as int];
  }

  /** A whole frame whose header the reader cannot read, behind whole frames: the frames are
      returned, and the error names that frame; nothing behind it is. */
  lemma HeaderIsBad(before: seq<Frame>, f: Frame, after: Text, unmarshal: Unmarshal)
    requires AllWritable(unmarshal, before) && Encodable(f) && unmarshal(HeaderBytes(f)) == None
    ensures Decode(Log(before) + (FrameBytes(f) + after), 0, unmarshal) == Decoded(before, Some(BadHeader(|Log(before)|)))
  {
    hide Encodable, Readable, FrameBytes, Decode, HeaderBytes;
    DecodeLog(before, FrameBytes(f) + after, 0, unmarshal);
    BadAt(f, after, |Log(before)|, unmarshal);
    assert before + [] == before;
  }

  lemma BadAt(f: Frame, after: Text, base: nat, unmarshal: Unmarshal)
    requires Encodable(f) && unmarshal(HeaderBytes(f)) == None
    ensures Decode(FrameBytes(f) + after, base, unmarshal) == Decoded([], Some(BadHeader(base)))
  {
    hide MarshalHeader, ChecksumIEEE, Uint16, Uint32, Magic, FramePrefix;
    var header, data := HeaderBytes(f), FrameBytes(f) + after;
    var end := |FrameBytes(f)|;
    assert data[..FRAME_PREFIX_BYTES] == FramePrefix(header, f.payload);
    PrefixFields(f, data);
    assert data[FRAME_PREFIX_BYTES..end] == header + f.payload;
    assert (header + f.payload)[..|header|] == header;
  }

  /** What EncodeFrame turns down, and why: a frame that names no signal or encoding; if it names
      both, a payload of more than 8388608 bytes; and if that fits, a header of more than 65535. */
  lemma RefusalSaysWhy(f: Frame)
    ensures var unnamed, large := f.signal == [] || f.encoding == [], |f.payload| > 8388608;
      (!Encodable(f) <==> unnamed || large || |HeaderBytes(f)| > 65535) &&
      (!Encodable(f) ==>
        Refusal(f) == if unnamed then Unnamed else if large then PayloadTooLarge else HeaderTooLarge)
  {
    hide HeaderBytes;
  }
}
