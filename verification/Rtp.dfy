/** RTP packets and the fragmentation of video frames (src/webrtc_media.rs; section 5.1 of RFC 3550). */
module RtpMedia {
  import opened Basics
  import opened BigEndian
  import opened Bits

  datatype RtpPacket = RtpPacket(
    version: byte, padding: bool, extension: bool, csrcCount: byte, marker: bool, payloadType: byte,
    sequenceNumber: u16, timestamp: u32, ssrc: u32, payload: Bytes)

  /** `Panics`: the CSRC count promises more bytes than there are, and slicing them off fails. */
  datatype Parsed = Packet(packet: RtpPacket) | Rejected | Panics

  /** `(version << 6) | (padding << 5) | (extension << 4) | csrc_count` on eight bits. */
  function FirstByte(version: byte, padding: bool, extension: bool, csrcCount: byte): byte {
    Powers();
    Or(Or(Or(version * 64 % 256, if padding then 32 else 0, 8), if extension then 16 else 0, 8), csrcCount, 8)
  }

  function SecondByte(marker: bool, payloadType: byte): byte {
    Powers();
    Or(if marker then 128 else 0, payloadType, 8)
  }

  function Serialize(p: RtpPacket): Bytes {
    [FirstByte(p.version, p.padding, p.extension, p.csrcCount), SecondByte(p.marker, p.payloadType)]
    + ToBytes(p.sequenceNumber, 2) + ToBytes(p.timestamp, 4) + ToBytes(p.ssrc, 4) + p.payload
  }

  /** `first & 0x20 != 0` is `first / 32 % 2 == 1`, and so on for the other single bits. */
  function Deserialize(data: Bytes): Parsed {
    if |data| < 12 then Rejected
    else
      Powers();
      var first, second := data[0], data[1];
      var version := first / 64;
      if version != 2 then Rejected
      else
        var csrcCount := LowBits(first, 4);
        var headerSize := 12 + csrcCount * 4;
        if headerSize > |data| then Panics
        else
          Packet(RtpPacket(version, first / 32 % 2 == 1, first / 16 % 2 == 1, csrcCount, second >= 128,
                           LowBits(second, 7), ReadU16(data[2..4]), ReadU32(data[4..8]), ReadU32(data[8..12]),
                           data[headerSize..]))
  }

  // ---------- bits ----------

  lemma {:induction false} Positive(n: nat)
    ensures Pow2(n) > 0
  {
    if n > 0 {
      Positive(n - 1);
    }
  }

  /** A multiple of 2 to the n has no low bits, and adding a number below that is or-ing it. */
  lemma OrOnMultiple(q: nat, b: nat, n: nat)
    requires b < Pow2(n) && n <= 8 && Pow2(n) * q < 256
    ensures Or(Pow2(n) * q, b, 8) == Pow2(n) * q + b
  {
    Powers();
    Positive(n);
    JoinedLow(q, 0, n);
    OrAdds(Pow2(n) * q, b, 8, n);
  }

  /** The fields of the first byte lie side by side. */
  lemma FirstByteAdds(version: byte, padding: bool, extension: bool, csrcCount: byte)
    requires version < 4 && csrcCount < 16
    ensures
      FirstByte(version, padding, extension, csrcCount) ==
        64 * version + (if padding then 32 else 0) + (if extension then 16 else 0) + csrcCount
  {
    Powers();
    hide Pow2, Or;
    var p, e := if padding then 1 else 0, if extension then 1 else 0;
    OrOnMultiple(version, 32 * p, 6);
    OrOnMultiple(2 * version + p, 16 * e, 5);
    OrOnMultiple(4 * version + 2 * p + e, csrcCount, 4);
  }

  lemma SecondByteAdds(marker: bool, payloadType: byte)
    requires payloadType < 128
    ensures SecondByte(marker, payloadType) == (if marker then 128 else 0) + payloadType
  {
    Powers();
    hide Pow2, Or;
    OrOnMultiple(if marker then 1 else 0, payloadType, 7);
  }

  lemma SumFields(version: byte, padding: nat, extension: nat, csrcCount: byte)
    requires version < 4 && padding < 2 && extension < 2 && csrcCount < 16
    ensures
      var b := 64 * version + 32 * padding + 16 * extension + csrcCount;
      b / 64 == version && b / 32 % 2 == padding && b / 16 % 2 == extension && b % 16 == csrcCount
  {
    var b := 64 * version + 32 * padding + 16 * extension + csrcCount;
    assert b / 32 == 2 * version + padding;
    assert b / 16 == 4 * version + 2 * padding + extension;
  }

  lemma FieldsSum(b: byte)
    ensures b == 64 * (b / 64) + 32 * (b / 32 % 2) + 16 * (b / 16 % 2) + b % 16
  {
    assert b / 64 == b / 32 / 2 && b / 32 == b / 16 / 2;
  }

  /** The fields of the first byte are read back. */
  lemma FirstByteFields(version: byte, padding: bool, extension: bool, csrcCount: byte)
    requires version < 4 && csrcCount < 16
    ensures
      var b := FirstByte(version, padding, extension, csrcCount);
      && b / 64 == version && (b / 32 % 2 == 1 <==> padding) && (b / 16 % 2 == 1 <==> extension)
      && LowBits(b, 4) == csrcCount
  {
    hide LowBits, FirstByte;
    FirstByteAdds(version, padding, extension, csrcCount);
    var p, e := if padding then 1 else 0, if extension then 1 else 0;
    SumFields(version, p, e, csrcCount);
    LowFour(4 * version + 2 * p + e, csrcCount);
  }

  lemma LowFour(q: nat, r: byte)
    requires r < 16
    ensures LowBits(16 * q + r, 4) == r
  {
    Powers();
    hide LowBits, Pow2;
    JoinedLow(q, r, 4);
  }

  lemma FirstByteRebuilds(b: byte)
    ensures LowBits(b, 4) < 16 && FirstByte(b / 64, b / 32 % 2 == 1, b / 16 % 2 == 1, LowBits(b, 4)) == b
  {
    Powers();
    Split(b, 4);
    hide Pow2, LowBits, Shifted, FirstByte;
    FieldsSum(b);
    assert LowBits(b, 4) == b % 16;
    FirstByteAdds(b / 64, b / 32 % 2 == 1, b / 16 % 2 == 1, LowBits(b, 4));
  }

  lemma SecondByteFields(marker: bool, payloadType: byte)
    requires payloadType < 128
    ensures
      var b := SecondByte(marker, payloadType);
      (b >= 128 <==> marker) && LowBits(b, 7) == payloadType
  {
    SecondByteAdds(marker, payloadType);
    Powers();
    hide Pow2, LowBits, SecondByte;
    JoinedLow(if marker then 1 else 0, payloadType, 7);
  }

  lemma SecondByteRebuilds(b: byte)
    ensures LowBits(b, 7) < 128 && SecondByte(b >= 128, LowBits(b, 7)) == b
  {
    LowSeven(b);
    hide LowBits, SecondByte;
    SecondByteAdds(b >= 128, b % 128);
  }

  lemma LowSeven(b: byte)
    ensures LowBits(b, 7) == b % 128
  {
    Powers();
    hide LowBits, Pow2;
    assert b == 128 * (b / 128) + b % 128;
    JoinedLow(b / 128, b % 128, 7);
  }

  // ---------- packets ----------

  /** The parts of a serialized packet. */
  lemma Layout(p: RtpPacket)
    ensures
      var d := Serialize(p);
      && |d| == 12 + |p.payload|
      && d[0] == FirstByte(p.version, p.padding, p.extension, p.csrcCount)
      && d[1] == SecondByte(p.marker, p.payloadType)
      && ReadU16(d[2..4]) == p.sequenceNumber && ReadU32(d[4..8]) == p.timestamp && ReadU32(d[8..12]) == p.ssrc
      && d[12..] == p.payload
  {
    hide FirstByte, SecondByte;
    var d := Serialize(p);
    Widths();
    FromTo(p.sequenceNumber, 2);
    FromTo(p.timestamp, 4);
    FromTo(p.ssrc, 4);
    hide ToBytes, FromBytes, Range;
    assert d[2..4] == ToBytes(p.sequenceNumber, 2);
    assert d[4..8] == ToBytes(p.timestamp, 4);
    assert d[8..12] == ToBytes(p.ssrc, 4);
  }

  /** A packet that survives: version 2, no contributing sources, a payload type of seven bits. */
  predicate Survives(p: RtpPacket) {
    p.version == 2 && p.csrcCount == 0 && p.payloadType < 128
  }

  /** Parsing a serialized packet gives the packet back exactly when it is one of these. */
  lemma PacketRoundTripsExactly(p: RtpPacket)
    ensures Deserialize(Serialize(p)) == Packet(p) <==> Survives(p)
  {
    Layout(p);
    var d := Serialize(p);
    hide Serialize, ReadU16, ReadU32, LowBits, Pow2;
    if Survives(p) {
      FirstByteFields(p.version, p.padding, p.extension, p.csrcCount);
      SecondByteFields(p.marker, p.payloadType);
      hide FirstByte, SecondByte;
      assert d[12..] == p.payload;
    }
    if Deserialize(d) == Packet(p) {
      Powers();
    }
  }

  /** Serializing a parsed packet gives the bytes back exactly when there are no contributing sources. */
  lemma BytesRoundTripExactly(d: Bytes, p: RtpPacket)
    requires Deserialize(d) == Packet(p)
    ensures Serialize(p) == d <==> p.csrcCount == 0
  {
    FirstByteRebuilds(d[0]);
    SecondByteRebuilds(d[1]);
    hide FirstByte, SecondByte, LowBits, Pow2;
    if p.csrcCount == 0 {
      ToFrom(d[2..4]);
      ToFrom(d[4..8]);
      ToFrom(d[8..12]);
      hide ToBytes, FromBytes, Range;
      assert d == [d[0], d[1]] + d[2..4] + d[4..8] + d[8..12] + d[12..];
    } else {
      hide ToBytes, ReadU16, ReadU32;
      assert |Serialize(p)| == 12 + |p.payload|;
    }
  }

  /** When reading a packet panics: when it has the right version and promises more sources than it has bytes for. */
  lemma DeserializePanicsExactly(d: Bytes)
    ensures Deserialize(d) == Panics <==> |d| >= 12 && d[0] / 64 == 2 && 12 + 4 * (d[0] % 16) > |d|
  {
    if |d| >= 12 {
      Powers();
      Split(d[0], 4);
      hide Pow2, LowBits, Shifted, ReadU16, ReadU32;
      assert LowBits(d[0], 4) == d[0] % 16;
    }
  }

  // ---------- fragmentation ----------

  /** The payloads a frame is cut into, as far as it can be cut. */
  function Chunks(frame: Bytes, max: nat): seq<Bytes> {
    if frame == [] || max == 0 then []
    else if |frame| <= max then [frame]
    else [frame[..max]] + Chunks(frame[max..], max)
  }

  function Concat(chunks: seq<Bytes>): Bytes {
    if chunks == [] then [] else chunks[0] + Concat(chunks[1..])
  }

  /** n chunks of at most max bytes are as few as possible. */
  predicate IsCeiling(n: nat, length: nat, max: nat) {
    (n == 0 <==> length == 0) && length <= n * max && (n > 0 ==> (n - 1) * max < length)
  }

  lemma {:induction false} ChunksAreExact(frame: Bytes, max: nat)
    requires max > 0 || frame == []
    ensures
      var chunks := Chunks(frame, max);
      && Concat(chunks) == frame && IsCeiling(|chunks|, |frame|, max)
      && (forall i :: 0 <= i < |chunks| ==> 0 < |chunks[i]| <= max)
    decreases |frame|
  {
    hide IsCeiling;
    if |frame| > max {
      var first, rest := frame[..max], Chunks(frame[max..], max);
      ChunksAreExact(frame[max..], max);
      OneChunkMore(|rest|, |frame| - max, max);
      ConcatCons(first, rest);
      assert Chunks(frame, max) == [first] + rest && frame == first + frame[max..];
      hide Chunks, Concat;
    } else if frame != [] {
      ConcatCons(frame, []);
      OneChunk(|frame|, max);
    } else {
      OneChunk(0, max);
    }
  }

  lemma ConcatCons(first: Bytes, rest: seq<Bytes>)
    ensures Concat([first] + rest) == first + Concat(rest)
  {
    assert ([first] + rest)[1..] == rest;
  }

  lemma OneChunk(length: nat, max: nat)
    requires length <= max
    ensures IsCeiling(if length == 0 then 0 else 1, length, max)
  {
  }

  lemma OneChunkMore(n: nat, length: nat, max: nat)
    requires max > 0 && length > 0 && IsCeiling(n, length, max)
    ensures IsCeiling(n + 1, length + max, max)
  {
    assert (n + 1) * max == n * max + max;
    assert n * max == (n - 1) * max + max;
  }

  const U16: int := 0x1_0000

  /** As many packets as a u16 counts hold the frame. */
  predicate Fits(length: nat, max: nat) {
    length <= (U16 - 1) * max
  }

  lemma PacketsFit(frame: Bytes, max: nat)
    ensures Fits(|frame|, max) <==> (max > 0 || frame == []) && |Chunks(frame, max)| < U16
  {
    if max > 0 || frame == [] {
      ChunksAreExact(frame, max);
      CeilingFits(|Chunks(frame, max)|, |frame|, max);
    }
  }

  lemma CeilingFits(n: nat, length: nat, max: nat)
    requires IsCeiling(n, length, max)
    ensures Fits(length, max) <==> n < U16
  {
    if n < U16 {
      ProductGrows(n, U16 - 1, max);
    } else {
      ProductGrows(U16 - 1, n - 1, max);
    }
  }

  lemma ProductGrows(a: nat, b: nat, max: nat)
    requires a <= b
    ensures a * max <= b * max
  {
  }

  /** How far the packetizing loop has come after n rounds. */
  function OffsetAfter(length: nat, max: nat, n: nat): (offset: nat)
    ensures offset <= length
  {
    if n == 0 then 0
    else
      var offset := OffsetAfter(length, max, n - 1);
      offset + if length - offset < max then length - offset else max
  }

  lemma {:induction false} OffsetIs(length: nat, max: nat, n: nat)
    ensures OffsetAfter(length, max, n) == if length < n * max then length else n * max
    decreases n
  {
    if n > 0 {
      OffsetIs(length, max, n - 1);
      assert n * max == (n - 1) * max + max;
    }
  }

  /**
   * The packetizing loop comes to the end of a frame if and only if it takes a step at all or has none to take: with
   * payloads of size zero it stays at the start of a non-empty frame, however many rounds it makes.
   */
  lemma LoopEndsExactly(length: nat, max: nat)
    ensures (exists n: nat :: OffsetAfter(length, max, n) == length) <==> max > 0 || length == 0
    ensures forall n: nat :: max == 0 ==> OffsetAfter(length, max, n) == 0
  {
    forall n: nat ensures max == 0 ==> OffsetAfter(length, max, n) == 0 {
      OffsetIs(length, max, n);
      assert max == 0 ==> n * max == 0;
    }
    if max > 0 || length == 0 {
      OffsetIs(length, max, length);
      assert length * max >= length;
      assert OffsetAfter(length, max, length) == length;
    } else {
      assert OffsetAfter(length, max, 0) == 0;
    }
  }

  /** A fresh packet of a frame: its position, its payload, and whether it is the last. */
  function FramePacket(payloadType: byte, position: u16, timestamp: u32, keyframe: bool, chunk: Bytes,
                       last: bool): RtpPacket
  {
    RtpPacket(2, false, false, 0, last || keyframe, payloadType, position, timestamp, 0, chunk)
  }

  function Packets(payloadType: byte, timestamp: u32, keyframe: bool, chunks: seq<Bytes>): (packets: seq<RtpPacket>)
    requires |chunks| <= U16
    ensures |packets| == |chunks|
  {
    seq(|chunks|, i requires 0 <= i < |chunks| =>
      FramePacket(payloadType, i, timestamp, keyframe, chunks[i], i == |chunks| - 1))
  }

  class VideoPacketizer {
    const maxPayloadSize: nat
    const payloadType: byte

    constructor (payloadType: byte)
      ensures this.payloadType == payloadType && maxPayloadSize == 1200
    {
      this.payloadType := payloadType;
      this.maxPayloadSize := 1200;
    }

    /** None: the u16 packet counter overflows, which panics. */
    method Packetize(frame: Bytes, timestamp: u32, keyframe: bool) returns (result: Option<seq<RtpPacket>>)
      ensures result == PacketsOf(frame, maxPayloadSize, payloadType, timestamp, keyframe)
    {
      hide FramePacket, CutSoFar, PacketsOf;
      var packets: seq<RtpPacket> := [];
      var offset := 0;
      var position := 0;
      NothingCut(frame, maxPayloadSize, payloadType, timestamp, keyframe);
      while offset < |frame|
        invariant 0 <= offset <= |frame| && position == |packets| < U16
        invariant CutSoFar(frame, maxPayloadSize, payloadType, timestamp, keyframe, offset, packets)
        decreases U16 - position
      {
        var remaining := |frame| - offset;
        var payloadSize := if remaining < maxPayloadSize then remaining else maxPayloadSize;
        var isLast := remaining <= maxPayloadSize;
        var payload := frame[offset..offset + payloadSize];
        CutOneMore(frame, maxPayloadSize, payloadType, timestamp, keyframe, offset, packets);
        packets := packets + [FramePacket(payloadType, position, timestamp, keyframe, payload, isLast)];
        offset := offset + payloadSize;
        if position + 1 == U16 {
          CutTooMany(frame, maxPayloadSize, payloadType, timestamp, keyframe, offset, packets);
          return None;
        }
        position := position + 1;
      }
      CutAll(frame, maxPayloadSize, payloadType, timestamp, keyframe, packets);
      result := Some(packets);
    }
  }

  /** The packets of a frame, when a u16 counts them. */
  function PacketsOf(frame: Bytes, max: nat, payloadType: byte, timestamp: u32, keyframe: bool)
    : Option<seq<RtpPacket>>
  {
    if Fits(|frame|, max) then
      PacketsFit(frame, max);
      Some(Packets(payloadType, timestamp, keyframe, Chunks(frame, max)))
    else None
  }

  /** The packets made so far are those of the first chunks, and the others are the chunks of the rest of the frame. */
  ghost predicate CutSoFar(frame: Bytes, max: nat, payloadType: byte, timestamp: u32, keyframe: bool, offset: nat,
                           packets: seq<RtpPacket>)
  {
    var chunks := Chunks(frame, max);
    && offset <= |frame| && |packets| <= U16
    && if max == 0 then offset == 0 && (frame == [] ==> packets == [])
       else
         && |packets| <= |chunks| && Chunks(frame[offset..], max) == chunks[|packets|..]
         && (forall i :: 0 <= i < |packets| ==>
               packets[i] == FramePacket(payloadType, i, timestamp, keyframe, chunks[i], i == |chunks| - 1))
  }

  lemma NothingCut(frame: Bytes, max: nat, payloadType: byte, timestamp: u32, keyframe: bool)
    ensures CutSoFar(frame, max, payloadType, timestamp, keyframe, 0, [])
  {
    assert frame[0..] == frame;
  }

  lemma CutOneMore(frame: Bytes, max: nat, payloadType: byte, timestamp: u32, keyframe: bool, offset: nat,
                   packets: seq<RtpPacket>)
    requires CutSoFar(frame, max, payloadType, timestamp, keyframe, offset, packets)
    requires offset < |frame| && |packets| < U16
    ensures
      var remaining := |frame| - offset;
      var size := if remaining < max then remaining else max;
      var payload := frame[offset..offset + size];
      CutSoFar(frame, max, payloadType, timestamp, keyframe, offset + size,
               packets + [FramePacket(payloadType, |packets|, timestamp, keyframe, payload, remaining <= max)])
  {
    hide FramePacket, Chunks;
    if max > 0 {
      NextChunk(frame, max, offset, Chunks(frame, max), |packets|);
    }
  }

  lemma CutTooMany(frame: Bytes, max: nat, payloadType: byte, timestamp: u32, keyframe: bool, offset: nat,
                   packets: seq<RtpPacket>)
    requires CutSoFar(frame, max, payloadType, timestamp, keyframe, offset, packets) && |packets| == U16 && frame != []
    ensures PacketsOf(frame, max, payloadType, timestamp, keyframe) == None
  {
    PacketsFit(frame, max);
    hide Fits, FramePacket, Chunks;
  }

  lemma CutAll(frame: Bytes, max: nat, payloadType: byte, timestamp: u32, keyframe: bool, packets: seq<RtpPacket>)
    requires CutSoFar(frame, max, payloadType, timestamp, keyframe, |frame|, packets) && |packets| < U16
    ensures PacketsOf(frame, max, payloadType, timestamp, keyframe) == Some(packets)
  {
    hide Fits, FramePacket;
    PacketsFit(frame, max);
    assert frame[|frame|..] == [] && Chunks([], max) == [];
    assert packets == Packets(payloadType, timestamp, keyframe, Chunks(frame, max));
  }

  lemma NextChunk(frame: Bytes, max: nat, offset: nat, chunks: seq<Bytes>, position: nat)
    requires max > 0 && offset < |frame| && position <= |chunks| && Chunks(frame[offset..], max) == chunks[position..]
    ensures
      var size := if |frame| - offset < max then |frame| - offset else max;
      && position < |chunks| && chunks[position] == frame[offset..offset + size]
      && Chunks(frame[offset + size..], max) == chunks[position + 1..]
      && (position == |chunks| - 1 <==> |frame| - offset <= max)
  {
    var rest := frame[offset..];
    var size := if |frame| - offset < max then |frame| - offset else max;
    assert chunks[position..][1..] == chunks[position + 1..];
    assert rest[size..] == frame[offset + size..] && rest[..size] == frame[offset..offset + size];
    assert chunks[position..][0] == chunks[position];
    if |rest| > max {
      assert Chunks(rest[max..], max) != [];
    }
  }

  /** The packets of a frame one by one; the packetizer leaves the SSRC to the session. */
  lemma PacketsSayWhatTheyAre(frame: Bytes, max: nat, payloadType: byte, timestamp: u32, keyframe: bool, i: nat)
    requires Fits(|frame|, max) && i < |Chunks(frame, max)|
    ensures
      var packets := PacketsOf(frame, max, payloadType, timestamp, keyframe);
      packets.Some? && |packets.value| == |Chunks(frame, max)| &&
      var p := packets.value[i];
      && p.version == 2 && !p.padding && !p.extension && p.csrcCount == 0 && p.ssrc == 0
      && p.payloadType == payloadType && p.timestamp == timestamp && p.sequenceNumber == i
      && p.payload == Chunks(frame, max)[i]
      && (p.marker <==> i == |packets.value| - 1 || keyframe)
  {
    hide Fits, Chunks;
  }

  // ---------- sending ----------

  datatype RtpError = NotConnected

  datatype SendResult = Sent | Failed(error: RtpError) | Panicked

  /** The packet with which a session sends a payload. */
  function SessionPacket(payloadType: byte, sequenceNumber: u16, timestamp: u32, ssrc: u32, payload: Bytes,
                         marker: bool): RtpPacket
  {
    RtpPacket(2, false, false, 0, marker, payloadType, sequenceNumber, timestamp, ssrc, payload)
  }

  function WrappingAdd(a: u32, b: u32): u32 {
    (a + b) % 0x1_0000_0000
  }

  /** Adding on a clock of 32 bits: past the end it starts over. */
  lemma WrappingAddIsExact(a: u32, b: u32)
    ensures a + b < 0x1_0000_0000 ==> WrappingAdd(a, b) == a + b
    ensures a + b >= 0x1_0000_0000 ==> WrappingAdd(a, b) == a + b - 0x1_0000_0000
  {
  }

  /** The sequence number i packets after `first`. */
  function Numbered(first: u16, i: nat): u16 {
    (first + i) % U16
  }

  /** The datagrams of a frame, numbered from `first` on, modulo 2 to the 16th. */
  function Datagrams(payloadType: byte, first: u16, timestamp: u32, ssrc: u32, keyframe: bool,
                     chunks: seq<Bytes>): (datagrams: seq<Bytes>)
    ensures |datagrams| == |chunks|
  {
    seq(|chunks|, i requires 0 <= i < |chunks| =>
      Serialize(SessionPacket(payloadType, Numbered(first, i), timestamp, ssrc, chunks[i],
                              i == |chunks| - 1 || keyframe)))
  }

  /** `wire` stands for the socket: the datagrams handed to it so far. */
  class RtpSession {
    const localSsrc: u32
    const payloadType: byte
    const timestampBase: u32
    var sequenceNumber: u16
    var connected: bool
    var packetsSent: nat
    var bytesSent: nat
    var wire: seq<Bytes>

    constructor (payloadType: byte, localSsrc: u32, timestampBase: u32)
      ensures this.payloadType == payloadType && this.localSsrc == localSsrc && this.timestampBase == timestampBase
      ensures sequenceNumber == 0 && !connected && wire == [] && packetsSent == 0 && bytesSent == 0
    {
      this.payloadType := payloadType;
      this.localSsrc := localSsrc;
      this.timestampBase := timestampBase;
      sequenceNumber := 0;
      connected := false;
      packetsSent := 0;
      bytesSent := 0;
      wire := [];
    }

    method SetRemote()
      modifies this`connected
      ensures connected
    {
      connected := true;
    }

    method SendPacket(payload: Bytes, timestamp: u32, marker: bool) returns (result: SendResult)
      modifies this`sequenceNumber, this`packetsSent, this`bytesSent, this`wire
      ensures
        !connected ==>
          && result == Failed(NotConnected) && sequenceNumber == old(sequenceNumber) && wire == old(wire)
          && packetsSent == old(packetsSent) && bytesSent == old(bytesSent)
      ensures
        connected ==>
          var datagram := Serialize(SessionPacket(payloadType, old(sequenceNumber),
                                                  WrappingAdd(timestampBase, timestamp),
                                                  localSsrc, payload, marker));
          && result == Sent && sequenceNumber == Numbered(old(sequenceNumber), 1) && wire == old(wire) + [datagram]
          && packetsSent == old(packetsSent) + 1 && bytesSent == old(bytesSent) + |datagram|
    {
      if !connected {
        return Failed(NotConnected);
      }
      var packet := RtpPacket(2, false, false, 0, marker, payloadType, sequenceNumber,
                              WrappingAdd(timestampBase, timestamp), localSsrc, payload);
      var data := Serialize(packet);
      wire := wire + [data];
      sequenceNumber := (sequenceNumber + 1) % U16;
      packetsSent := packetsSent + 1;
      bytesSent := bytesSent + |data|;
      result := Sent;
    }
  }

  /** Microseconds to the RTP clock, as the source computes it. */
  function RtpTimestamp(timestampUs: nat): u32 {
    timestampUs * 90 / 1_000_000 % 0x1_0000_0000
  }

  /** Microseconds to a clock of 90 kHz. */
  function Ticks(timestampUs: nat): nat {
    timestampUs * 90_000 / 1_000_000
  }

  /**
   * The RTP clock of the source counts every thousandth tick of a 90 kHz clock. Before that clock wraps around, the two
   * agree exactly in its first tick, that is, in the first 11 microseconds.
   */
  lemma ClockIsSlow(timestampUs: nat)
    ensures RtpTimestamp(timestampUs) == Ticks(timestampUs) / 1000 % 0x1_0000_0000
    ensures
      Ticks(timestampUs) < 0x1_0000_0000 ==> (RtpTimestamp(timestampUs) == Ticks(timestampUs) <==> timestampUs <= 11)
  {
  }

  lemma NumberedFrom(first: u16, i: nat)
    ensures Numbered(first, 0) == first && Numbered(Numbered(first, i), 1) == Numbered(first, i + 1)
  {
  }

  /** What the sender uses of the packets. */
  lemma PacketsAre(frame: Bytes, max: nat, payloadType: byte, timestamp: u32, keyframe: bool)
    ensures
      var packets, chunks := PacketsOf(frame, max, payloadType, timestamp, keyframe), Chunks(frame, max);
      && (packets.Some? <==> Fits(|frame|, max))
      && (packets.Some? ==>
            && |packets.value| == |chunks|
            && forall i :: 0 <= i < |chunks| ==>
                 packets.value[i].payload == chunks[i] && packets.value[i].timestamp == timestamp)
  {
    hide Fits, Chunks;
  }

  lemma DatagramAt(payloadType: byte, first: u16, timestamp: u32, ssrc: u32, keyframe: bool, chunks: seq<Bytes>, i: nat)
    requires i < |chunks|
    ensures
      Datagrams(payloadType, first, timestamp, ssrc, keyframe, chunks)[i] ==
        Serialize(SessionPacket(payloadType, Numbered(first, i), timestamp, ssrc, chunks[i],
                                i == |chunks| - 1 || keyframe))
  {
    hide Serialize;
  }

  class WebRtcMediaSender {
    const videoSession: RtpSession
    const packetizer: VideoPacketizer

    constructor (localSsrc: u32, timestampBase: u32)
      ensures fresh(videoSession) && videoSession.payloadType == 96 && packetizer.maxPayloadSize == 1200
    {
      videoSession := new RtpSession(96, localSsrc, timestampBase);
      packetizer := new VideoPacketizer(96);
    }

    method SendVideoFrame(frame: Bytes, timestampUs: nat, keyframe: bool) returns (result: SendResult)
      modifies videoSession
      ensures videoSession.connected == old(videoSession.connected)
      ensures
        var chunks := Chunks(frame, packetizer.maxPayloadSize);
        if !Fits(|frame|, packetizer.maxPayloadSize) then
          result == Panicked && videoSession.wire == old(videoSession.wire)
        else if chunks != [] && !videoSession.connected then
          result == Failed(NotConnected) && videoSession.wire == old(videoSession.wire)
        else
          && result == Sent
          && videoSession.sequenceNumber == Numbered(old(videoSession.sequenceNumber), |chunks|)
          && videoSession.wire == old(videoSession.wire)
               + Datagrams(videoSession.payloadType, old(videoSession.sequenceNumber),
                           WrappingAdd(videoSession.timestampBase, RtpTimestamp(timestampUs)),
                           videoSession.localSsrc, keyframe, chunks)
    {
      hide Serialize, Chunks, Datagrams, Numbered, SessionPacket, RtpTimestamp, WrappingAdd, Fits, PacketsOf;
      var timestamp := RtpTimestamp(timestampUs);
      var packetized := packetizer.Packetize(frame, timestamp, keyframe);
      PacketsAre(frame, packetizer.maxPayloadSize, packetizer.payloadType, timestamp, keyframe);
      if packetized == None {
        return Panicked;
      }
      var packets := packetized.value;
      ghost var chunks := Chunks(frame, packetizer.maxPayloadSize);
      ghost var first := videoSession.sequenceNumber;
      ghost var base := WrappingAdd(videoSession.timestampBase, timestamp);
      ghost var all := Datagrams(videoSession.payloadType, first, base, videoSession.localSsrc, keyframe, chunks);
      NumberedFrom(first, 0);
      for i := 0 to |packets|
        invariant videoSession.connected == old(videoSession.connected)
        invariant i > 0 ==> videoSession.connected
        invariant videoSession.sequenceNumber == Numbered(first, i)
        invariant videoSession.wire == old(videoSession.wire) + all[..i]
      {
        var isLast := i == |packets| - 1;
        DatagramAt(videoSession.payloadType, first, base, videoSession.localSsrc, keyframe, chunks, i);
        NumberedFrom(first, i);
        var sent := videoSession.SendPacket(packets[i].payload, packets[i].timestamp, isLast || keyframe);
        if sent.Failed? {
          return sent;
        }
        assert all[..i + 1] == all[..i] + [all[i]];
      }
      assert all[..|packets|] == all;
      result := Sent;
    }
  }

  // ---------- end to end ----------

  /** The datagrams of a frame parse to its chunks, in order and consecutively numbered; the last one is marked. */
  lemma DatagramsParse(payloadType: byte, first: u16, timestamp: u32, ssrc: u32, keyframe: bool, chunks: seq<Bytes>,
                       i: nat)
    requires payloadType < 128 && i < |chunks|
    ensures
      var parsed := Deserialize(Datagrams(payloadType, first, timestamp, ssrc, keyframe, chunks)[i]);
      && parsed.Packet? && parsed.packet.version == 2 && !parsed.packet.padding && !parsed.packet.extension
      && parsed.packet.payloadType == payloadType && parsed.packet.sequenceNumber == Numbered(first, i)
      && parsed.packet.timestamp == timestamp && parsed.packet.ssrc == ssrc && parsed.packet.payload == chunks[i]
      && (parsed.packet.marker <==> i == |chunks| - 1 || keyframe)
  {
    var p := SessionPacket(payloadType, Numbered(first, i), timestamp, ssrc, chunks[i], i == |chunks| - 1 || keyframe);
    PacketRoundTripsExactly(p);
    hide Serialize, Deserialize, Numbered;
  }

  /** How many numbers `number` is after `first`, modulo 2 to the 16th. */
  function Distance(first: u16, number: u16): nat {
    (number - first) % U16
  }

  /** The position of a packet in its frame, from its sequence number. */
  function PositionOf(p: RtpPacket, first: u16): nat {
    Distance(first, p.sequenceNumber)
  }

  function PayloadAt(received: seq<Bytes>, first: u16, position: nat): Option<Bytes> {
    if received == [] then None
    else
      match Deserialize(received[0])
      case Packet(p) =>
        if PositionOf(p, first) == position then Some(p.payload) else PayloadAt(received[1..], first, position)
      case _ => PayloadAt(received[1..], first, position)
  }

  /** Putting n payloads back together by sequence number; a missing one counts as empty. */
  function Reassemble(received: seq<Bytes>, first: u16, n: nat): seq<Bytes> {
    seq(n, i requires 0 <= i < n =>
      match PayloadAt(received, first, i) case Some(payload) => payload case None => [])
  }

  /** Each datagram parses to its chunk and knows its position. */
  ghost predicate Carries(wire: seq<Bytes>, first: u16, chunks: seq<Bytes>) {
    |wire| == |chunks| && forall j :: 0 <= j < |wire| ==>
      Deserialize(wire[j]).Packet? && PositionOf(Deserialize(wire[j]).packet, first) == j
      && Deserialize(wire[j]).packet.payload == chunks[j]
  }

  /** However the datagrams arrive, each position gives its chunk. */
  lemma {:induction false} PayloadIsFound(received: seq<Bytes>, wire: seq<Bytes>, first: u16, chunks: seq<Bytes>,
                                          i: nat)
    requires Carries(wire, first, chunks) && i < |chunks|
    requires forall d :: d in received ==> d in wire
    requires wire[i] in received
    ensures PayloadAt(received, first, i) == Some(chunks[i])
    decreases |received|
  {
    hide Deserialize, PositionOf;
    assert received[0] in wire;
    var j :| 0 <= j < |wire| && wire[j] == received[0];
    if j != i {
      assert received == [received[0]] + received[1..];
      PayloadIsFound(received[1..], wire, first, chunks, i);
    }
  }

  lemma ReassemblesTo(received: seq<Bytes>, wire: seq<Bytes>, first: u16, chunks: seq<Bytes>)
    requires Carries(wire, first, chunks)
    requires forall d :: d in received <==> d in wire
    ensures Reassemble(received, first, |wire|) == chunks
  {
    hide Deserialize, PositionOf, PayloadAt;
    forall i | 0 <= i < |chunks| ensures Reassemble(received, first, |wire|)[i] == chunks[i] {
      assert wire[i] in wire;
      PayloadIsFound(received, wire, first, chunks, i);
    }
  }

  lemma PositionIsRecovered(first: u16, i: nat)
    requires i < U16
    ensures Distance(first, Numbered(first, i)) == i
  {
  }

  /**
   * A frame survives the trip. Cut into packets, numbered modulo 2 to the 16th from any starting number, serialized,
   * received in any order (with duplicates or not), parsed and put back together by sequence number, the payloads
   * concatenate to the frame. There are as few packets as possible, none is empty, none exceeds the maximum, and the
   * last one carries the marker.
   */
  lemma FrameSurvivesTheTrip(frame: Bytes, max: nat, payloadType: byte, first: u16, timestamp: u32, ssrc: u32,
                             keyframe: bool, received: seq<Bytes>)
    requires Fits(|frame|, max) && payloadType < 128
    requires
      var wire := Datagrams(payloadType, first, timestamp, ssrc, keyframe, Chunks(frame, max));
      forall d :: d in received <==> d in wire
    ensures
      var chunks := Chunks(frame, max);
      var wire := Datagrams(payloadType, first, timestamp, ssrc, keyframe, chunks);
      && Concat(Reassemble(received, first, |wire|)) == frame
      && IsCeiling(|wire|, |frame|, max)
      && (forall i :: 0 <= i < |wire| ==>
            var parsed := Deserialize(wire[i]);
            && parsed.Packet? && 0 < |parsed.packet.payload| <= max
            && (parsed.packet.marker <==> i == |wire| - 1 || keyframe))
  {
    PacketsFit(frame, max);
    hide Deserialize, Serialize, Chunks, Datagrams, Reassemble, IsCeiling, Carries, PositionOf, Numbered, Fits;
    var chunks := Chunks(frame, max);
    var wire := Datagrams(payloadType, first, timestamp, ssrc, keyframe, chunks);
    ChunksAreExact(frame, max);
    DatagramsCarry(payloadType, first, timestamp, ssrc, keyframe, chunks);
    ReassemblesTo(received, wire, first, chunks);
    forall i | 0 <= i < |wire|
      ensures
        var parsed := Deserialize(wire[i]);
        && parsed.Packet? && parsed.packet.payload == chunks[i]
        && (parsed.packet.marker <==> i == |wire| - 1 || keyframe)
    {
      DatagramsParse(payloadType, first, timestamp, ssrc, keyframe, chunks, i);
    }
  }

  lemma DatagramsCarry(payloadType: byte, first: u16, timestamp: u32, ssrc: u32, keyframe: bool, chunks: seq<Bytes>)
    requires payloadType < 128 && |chunks| <= U16
    ensures Carries(Datagrams(payloadType, first, timestamp, ssrc, keyframe, chunks), first, chunks)
  {
    hide Deserialize, Datagrams, Distance, Numbered;
    forall i | 0 <= i < |chunks|
      ensures
        var parsed := Deserialize(Datagrams(payloadType, first, timestamp, ssrc, keyframe, chunks)[i]);
        parsed.Packet? && PositionOf(parsed.packet, first) == i && parsed.packet.payload == chunks[i]
    {
      DatagramsParse(payloadType, first, timestamp, ssrc, keyframe, chunks, i);
      PositionIsRecovered(first, i);
    }
  }
}
