/** The framing of the QUIC state streaming protocol (src/quic_transport.rs). */
module Qssp {
  import opened Basics
  import opened BigEndian
  import opened Model
  import opened Memories

  const MAGIC: u32 := 0x5153_5350
  const VERSION: byte := 1
  const HEADER_SIZE: nat := 10

  datatype MessageType =
    | HandshakeRequest | HandshakeResponse | CpuState | MemoryPageData | MemoryManifest | EventLog
    | PageRequest | PageNotFound | TransferComplete | TransferError | KeepAlive

  datatype QSSPError =
    | InvalidMagic(magic: u32)
    | UnsupportedVersion(version: byte)
    | InvalidMessageType(value: byte)
    | IncompleteHeader
    | IncompletePayload
    | StreamFailed

  datatype Outcome<T> = Fine(value: T) | Failed(error: QSSPError)

  function Code(t: MessageType): byte {
    match t
    case HandshakeRequest => 0
    case HandshakeResponse => 1
    case CpuState => 2
    case MemoryPageData => 3
    case MemoryManifest => 4
    case EventLog => 5
    case PageRequest => 6
    case PageNotFound => 7
    case TransferComplete => 8
    case TransferError => 9
    case KeepAlive => 10
  }

  function FromCode(value: byte): Outcome<MessageType> {
    match value
    case 0 => Fine(HandshakeRequest)
    case 1 => Fine(HandshakeResponse)
    case 2 => Fine(CpuState)
    case 3 => Fine(MemoryPageData)
    case 4 => Fine(MemoryManifest)
    case 5 => Fine(EventLog)
    case 6 => Fine(PageRequest)
    case 7 => Fine(PageNotFound)
    case 8 => Fine(TransferComplete)
    case 9 => Fine(TransferError)
    case 10 => Fine(KeepAlive)
    case _ => Failed(InvalidMessageType(value))
  }

  lemma CodesAreExact(value: byte, t: MessageType)
    ensures FromCode(value) == Fine(t) <==> value == Code(t)
  {
    match t
    case HandshakeRequest =>
    case HandshakeResponse =>
    case CpuState =>
    case MemoryPageData =>
    case MemoryManifest =>
    case EventLog =>
    case PageRequest =>
    case PageNotFound =>
    case TransferComplete =>
    case TransferError =>
    case KeepAlive =>
  }

  /** The types in the order of their declaration; a type's code is its place in it. */
  const TYPES: seq<MessageType> := [
    HandshakeRequest, HandshakeResponse, CpuState, MemoryPageData, MemoryManifest, EventLog, PageRequest, PageNotFound,
    TransferComplete, TransferError, KeepAlive]

  lemma CodesAreInOrder(t: MessageType)
    ensures Code(t) < |TYPES| && TYPES[Code(t)] == t
  {
  }

  // ---------- headers ----------

  datatype MessageHeader = MessageHeader(magic: u32, version: byte, messageType: MessageType, length: u32)

  function SerializeHeader(h: MessageHeader): (bytes: Bytes)
    ensures |bytes| == HEADER_SIZE
  {
    ToBytes(h.magic, 4) + [h.version, Code(h.messageType)] + ToBytes(h.length, 4)
  }

  /** What reading a header gives and how many bytes it takes: all ten, or those up to the field that is refused. */
  datatype HeaderRead = HeaderRead(result: Outcome<Option<MessageHeader>>, consumed: nat)

  function ReadHeader(data: Bytes): (r: HeaderRead)
    ensures r.consumed <= |data|
  {
    if |data| < HEADER_SIZE then HeaderRead(Fine(None), 0)
    else
      var magic := ReadU32(data[..4]);
      if magic != MAGIC then HeaderRead(Failed(InvalidMagic(magic)), 4)
      else if data[4] != VERSION then HeaderRead(Failed(UnsupportedVersion(data[4])), 5)
      else
        match FromCode(data[5])
        case Failed(e) => HeaderRead(Failed(e), 6)
        case Fine(t) => HeaderRead(Fine(Some(MessageHeader(magic, data[4], t, ReadU32(data[6..10])))), 10)
  }

  /** A `BytesMut` that is read from the front. */
  class ByteBuffer {
    var data: Bytes

    constructor (data: Bytes)
      ensures this.data == data
    {
      this.data := data;
    }

    method GetU8() returns (b: byte)
      requires |data| >= 1
      modifies this
      ensures b == old(data)[0] && data == old(data)[1..]
    {
      b := data[0];
      data := data[1..];
    }

    method GetU32() returns (n: u32)
      requires |data| >= 4
      modifies this
      ensures n == ReadU32(old(data)[..4]) && data == old(data)[4..]
    {
      n := ReadU32(data[..4]);
      data := data[4..];
    }
  }

  method DeserializeHeader(buf: ByteBuffer) returns (result: Outcome<Option<MessageHeader>>)
    modifies buf
    ensures result == ReadHeader(old(buf.data)).result
    ensures buf.data == old(buf.data)[ReadHeader(old(buf.data)).consumed..]
  {
    hide ReadU32;
    ghost var was := buf.data;
    if |buf.data| < HEADER_SIZE {
      return Fine(None);
    }
    var magic := buf.GetU32();
    if magic != MAGIC {
      return Failed(InvalidMagic(magic));
    }
    var version := buf.GetU8();
    assert buf.data == was[5..];
    if version != VERSION {
      return Failed(UnsupportedVersion(version));
    }
    var code := buf.GetU8();
    assert buf.data == was[6..];
    var messageType := FromCode(code);
    if messageType.Failed? {
      return Failed(messageType.error);
    }
    var length := buf.GetU32();
    assert buf.data == was[10..] && was[6..][..4] == was[6..10];
    result := Fine(Some(MessageHeader(magic, version, messageType.value, length)));
  }

  /** Ten bytes are taken on success and none when there are fewer. */
  lemma ConsumesTenOrNothing(data: Bytes)
    ensures
      var r := ReadHeader(data);
      && (r.result == Fine(None) <==> |data| < HEADER_SIZE) && (r.result == Fine(None) ==> r.consumed == 0)
      && (r.result.Fine? && r.result.value.Some? <==> r.consumed == HEADER_SIZE)
  {
    hide ReadU32;
  }

  lemma U32RoundTrips(n: u32)
    ensures ReadU32(ToBytes(n, 4)) == n
  {
    Widths();
    FromTo(n, 4);
  }

  lemma BytesRoundTrip(bytes: Bytes)
    requires |bytes| == 4
    ensures ToBytes(ReadU32(bytes), 4) == bytes
  {
    ToFrom(bytes);
  }

  /** A header is what ten bytes stand for: it reads from them exactly when it serializes to them and is a valid one. */
  lemma HeadersAreExact(data: Bytes, h: MessageHeader)
    ensures
      ReadHeader(data).result == Fine(Some(h)) <==>
        |data| >= HEADER_SIZE && SerializeHeader(h) == data[..HEADER_SIZE] && h.magic == MAGIC && h.version == VERSION
  {
    if |data| >= HEADER_SIZE {
      var bytes := SerializeHeader(h);
      assert bytes[..4] == ToBytes(h.magic, 4) && bytes[6..10] == ToBytes(h.length, 4);
      U32RoundTrips(h.magic);
      U32RoundTrips(h.length);
      BytesRoundTrip(data[..4]);
      BytesRoundTrip(data[6..10]);
      CodesAreExact(data[5], h.messageType);
      hide ReadU32, ToBytes, FromCode, Code;
      assert data[..HEADER_SIZE] == data[..4] + [data[4], data[5]] + data[6..10];
      if bytes == data[..HEADER_SIZE] {
        assert data[..4] == bytes[..4] && data[6..10] == bytes[6..10] && data[4] == bytes[4] && data[5] == bytes[5];
      }
    }
  }

  /** The ten bytes of a header: magic, version, type and length, in this order; "QSSP" in ASCII for a valid one. */
  lemma HeaderLayout(h: MessageHeader)
    ensures
      var bytes := SerializeHeader(h);
      && ReadU32(bytes[..4]) == h.magic && bytes[4] == h.version && bytes[5] == Code(h.messageType)
      && ReadU32(bytes[6..10]) == h.length
      && (h.magic == MAGIC <==> bytes[..4] == ['Q' as int, 'S' as int, 'S' as int, 'P' as int])
  {
    U32RoundTrips(h.magic);
    U32RoundTrips(h.length);
    hide ToBytes, Code;
    var bytes := SerializeHeader(h);
    assert bytes[..4] == ToBytes(h.magic, 4) && bytes[6..10] == ToBytes(h.length, 4);
    MostSignificantFirst('Q' as int, 'S' as int, 'S' as int, 'P' as int);
    if h.magic == MAGIC {
      BytesRoundTrip(['Q' as int, 'S' as int, 'S' as int, 'P' as int]);
    }
    hide ReadU32;
  }

  /**
   * Which bytes are refused, and how: the first of magic, version and type that is wrong is reported with its value,
   * and it is the last thing taken from the buffer.
   */
  lemma HeaderRefusals(data: Bytes)
    requires |data| >= HEADER_SIZE
    ensures
      var (r, magic) := (ReadHeader(data), ReadU32(data[..4]));
      && (magic != MAGIC ==> r == HeaderRead(Failed(InvalidMagic(magic)), 4))
      && (magic == MAGIC && data[4] != VERSION ==> r == HeaderRead(Failed(UnsupportedVersion(data[4])), 5))
      && (magic == MAGIC && data[4] == VERSION && data[5] > 10 ==>
            r == HeaderRead(Failed(InvalidMessageType(data[5])), 6))
      && (magic == MAGIC && data[4] == VERSION && data[5] <= 10 ==>
            r.consumed == HEADER_SIZE && r.result.Fine? && r.result.value.Some?
            && r.result.value.value.messageType == TYPES[data[5]]
            && r.result.value.value.length == ReadU32(data[6..10]))
  {
    hide ReadU32;
  }

  // ---------- messages ----------

  datatype Message = Message(header: MessageHeader, payload: Bytes)

  /** `payload.len() as u32` keeps the low 32 bits of the length. */
  function NewMessage(messageType: MessageType, payload: Bytes): Message {
    Message(MessageHeader(MAGIC, VERSION, messageType, |payload| % 0x1_0000_0000), payload)
  }

  function SerializeMessage(m: Message): Bytes {
    SerializeHeader(m.header) + m.payload
  }

  predicate WellFormed(m: Message) {
    m.header.magic == MAGIC && m.header.version == VERSION && m.header.length == |m.payload|
  }

  /** What reading a message gives and how many bytes of the stream it takes. */
  datatype MessageRead = MessageRead(result: Outcome<Message>, consumed: nat)

  /**
   * Reading a message of which the first read brings `first` bytes. Only one read is made for the header: when it
   * brings fewer than ten bytes the message is given up, even if the rest is on its way.
   */
  function ReadMessage(data: Bytes, first: nat): (r: MessageRead)
    requires first <= |data| && first <= HEADER_SIZE
    ensures r.consumed <= |data| && (r.result.Fine? ==> r.consumed >= HEADER_SIZE)
  {
    var header := ReadHeader(data[..first]).result;
    match header
    case Failed(e) => MessageRead(Failed(e), first)
    case Fine(None) => MessageRead(Failed(IncompleteHeader), first)
    case Fine(Some(h)) =>
      assert first == HEADER_SIZE by { ConsumesTenOrNothing(data[..first]); }
      if |data| - HEADER_SIZE < h.length then MessageRead(Failed(IncompletePayload), |data|)
      else MessageRead(Fine(Message(h, data[HEADER_SIZE..HEADER_SIZE + h.length])), HEADER_SIZE + h.length)
  }

  datatype Chunk = Data(bytes: Bytes) | End | Lost

  /** The receiving end of a stream; `incoming` is what the peer has sent or will send, before it finishes. */
  class RecvStream {
    var incoming: Bytes
    var lost: bool

    constructor (incoming: Bytes)
      ensures this.incoming == incoming && !lost
    {
      this.incoming := incoming;
      lost := false;
    }

    /** The network decides how much arrives, if anything does. */
    method Read(max: nat) returns (chunk: Chunk)
      requires max > 0 && !lost
      modifies this
      ensures chunk.Lost? <==> lost
      ensures chunk.End? ==> old(incoming) == [] && incoming == []
      ensures
        chunk.Data? ==>
          && 0 < |chunk.bytes| <= max && |chunk.bytes| <= |old(incoming)|
          && chunk.bytes == old(incoming)[..|chunk.bytes|] && incoming == old(incoming)[|chunk.bytes|..]
    {
      var failing: bool := *;
      if failing {
        lost := true;
        chunk := Lost;
      } else if incoming == [] {
        chunk := End;
      } else {
        var n :| 0 < n <= max && n <= |incoming|;
        chunk := Data(incoming[..n]);
        incoming := incoming[n..];
      }
    }
  }

  /**
   * However the stream is cut into reads, the result depends on nothing but its bytes, on how many of them the first
   * read brings, and on whether the connection is lost on the way.
   */
  method ReadFromStream(recv: RecvStream) returns (result: Outcome<Message>, ghost first: nat)
    requires !recv.lost
    modifies recv
    ensures recv.lost ==> result == Failed(StreamFailed)
    ensures
      !recv.lost ==>
        first <= HEADER_SIZE && first <= |old(recv.incoming)| && (first == 0 ==> old(recv.incoming) == [])
    ensures
      !recv.lost ==>
        var r := ReadMessage(old(recv.incoming), first);
        result == r.result && recv.incoming == old(recv.incoming)[r.consumed..]
  {
    hide ReadHeader, SerializeHeader;
    ghost var data := recv.incoming;
    first := 0;
    var chunk := recv.Read(HEADER_SIZE);
    if chunk.Lost? {
      return Failed(StreamFailed), 0;
    }
    var headerBytes: Bytes := if chunk.Data? then chunk.bytes else [];
    first := |headerBytes|;
    assert headerBytes == data[..first] && recv.incoming == data[first..];
    var buf := new ByteBuffer(headerBytes);
    var header := DeserializeHeader(buf);
    if header.Failed? {
      return Failed(header.error), first;
    }
    if header.value.None? {
      return Failed(IncompleteHeader), first;
    }
    ConsumesTenOrNothing(headerBytes);
    var h := header.value.value;
    var payload: Bytes := [];
    while |payload| < h.length
      invariant !recv.lost && |payload| <= h.length && HEADER_SIZE + |payload| <= |data|
      invariant payload == data[HEADER_SIZE..HEADER_SIZE + |payload|]
      invariant recv.incoming == data[HEADER_SIZE + |payload|..]
      decreases h.length - |payload|
    {
      var remaining := h.length - |payload|;
      var part := recv.Read(remaining);
      match part {
        case Lost => return Failed(StreamFailed), first;
        case End => return Failed(IncompletePayload), first;
        case Data(bytes) => payload := payload + bytes;
      }
    }
    result := Fine(Message(h, payload));
  }

  /**
   * One message of a stream: it is read exactly when the stream begins with its bytes, it is well formed, and the
   * first read brings its whole header. Nothing of what follows it is taken.
   */
  lemma MessagesAreExact(data: Bytes, first: nat, m: Message)
    requires first <= |data| && first <= HEADER_SIZE
    ensures
      ReadMessage(data, first).result == Fine(m) <==>
        first == HEADER_SIZE && WellFormed(m) && SerializeMessage(m) <= data
    ensures ReadMessage(data, first).result == Fine(m) ==> ReadMessage(data, first).consumed == |SerializeMessage(m)|
  {
    hide ReadHeader, SerializeHeader;
    ConsumesTenOrNothing(data[..first]);
    HeadersAreExact(data[..first], m.header);
    if first == HEADER_SIZE {
      var header, bytes := SerializeHeader(m.header), SerializeMessage(m);
      if header == data[..10] && |m.payload| <= |data| - 10 {
        assert data[..10 + |m.payload|] == data[..10] + data[10..10 + |m.payload|];
      }
      if bytes <= data {
        assert data[..10] == bytes[..10] == header;
        assert data[10..10 + |m.payload|] == bytes[10..] == m.payload;
      }
    }
  }

  /** A new message can be read back exactly when its length fits in 32 bits. */
  lemma NewMessagesAreReadExactly(messageType: MessageType, payload: Bytes, rest: Bytes)
    ensures
      var r := ReadMessage(SerializeMessage(NewMessage(messageType, payload)) + rest, HEADER_SIZE).result;
      (r.Fine? && r.value.header.messageType == messageType && r.value.payload == payload)
      <==> |payload| < 0x1_0000_0000
  {
    var m := NewMessage(messageType, payload);
    MessageIsNotEmpty(m);
    NewIsWellFormedExactly(messageType, payload);
    hide ReadMessage, SerializeHeader, SerializeMessage, WellFormed;
    var data := SerializeMessage(m) + rest;
    var r := ReadMessage(data, HEADER_SIZE).result;
    MessagesAreExact(data, HEADER_SIZE, m);
    if r.Fine? && r.value.payload == payload {
      MessagesAreExact(data, HEADER_SIZE, r.value);
      LengthIsBounded(r.value);
    }
  }

  lemma NewIsWellFormedExactly(messageType: MessageType, payload: Bytes)
    ensures WellFormed(NewMessage(messageType, payload)) <==> |payload| < 0x1_0000_0000
    ensures NewMessage(messageType, payload).header.messageType == messageType
    ensures NewMessage(messageType, payload).payload == payload
  {
  }

  lemma LengthIsBounded(m: Message)
    requires WellFormed(m)
    ensures |m.payload| < 0x1_0000_0000
  {
  }

  // ---------- lists of messages ----------

  function SerializeAll(ms: seq<Message>): Bytes {
    if ms == [] then [] else SerializeMessage(ms[0]) + SerializeAll(ms[1..])
  }

  function LeastOf(a: nat, b: nat): nat {
    if a < b then a else b
  }

  /**
   * Reading messages until the stream ends. `firsts` says how many bytes the network offers to the first read of each
   * message; a read takes no more than a header, and no more than there is. None: a message is refused, or the list of
   * reads is used up.
   */
  function ReadAll(data: Bytes, firsts: seq<nat>): Option<seq<Message>>
    decreases |data|
  {
    if data == [] then Some([])
    else if firsts == [] then None
    else
      var r := ReadMessage(data, LeastOf(LeastOf(firsts[0], HEADER_SIZE), |data|));
      if r.result.Failed? then None
      else
        match ReadAll(data[r.consumed..], firsts[1..])
        case None => None
        case Some(rest) => Some([r.result.value] + rest)
  }

  predicate AllWellFormed(ms: seq<Message>) {
    forall i :: 0 <= i < |ms| ==> WellFormed(ms[i])
  }

  /** Every first read brings a whole header. */
  predicate AllWhole(firsts: seq<nat>) {
    forall i :: 0 <= i < |firsts| ==> firsts[i] >= HEADER_SIZE
  }

  /**
   * A stream reads as a list of messages exactly when it is their concatenation, all of them are well formed, and the
   * first read of each brings its whole header: any such list comes back, no other stream gives it, and no other
   * timing of the network does.
   */
  lemma {:induction false} ListsAreExact(data: Bytes, firsts: seq<nat>, ms: seq<Message>)
    requires |firsts| == |ms|
    ensures ReadAll(data, firsts) == Some(ms) <==> AllWellFormed(ms) && SerializeAll(ms) == data && AllWhole(firsts)
    decreases |ms|
  {
    hide ReadMessage, SerializeMessage, WellFormed;
    if ms == [] {
      ReadsNothingExactly(data, firsts);
    } else {
      var size := |SerializeMessage(ms[0])|;
      var first := LeastOf(LeastOf(firsts[0], HEADER_SIZE), |data|);
      MessageIsNotEmpty(ms[0]);
      MessagesAreExact(data, first, ms[0]);
      assert ms == [ms[0]] + ms[1..] && firsts == [firsts[0]] + firsts[1..];
      if SerializeMessage(ms[0]) <= data {
        ListsAreExact(data[size..], firsts[1..], ms[1..]);
        assert data == SerializeMessage(ms[0]) + data[size..];
      }
      if SerializeAll(ms) == data {
        assert SerializeMessage(ms[0]) <= data && data[size..] == SerializeAll(ms[1..]);
      }
    }
  }

  lemma ReadsNothingExactly(data: Bytes, firsts: seq<nat>)
    ensures ReadAll(data, firsts) == Some([]) <==> data == []
  {
    hide ReadMessage;
  }

  lemma MessageIsNotEmpty(m: Message)
    ensures |SerializeMessage(m)| >= HEADER_SIZE
  {
    hide SerializeHeader;
  }

  // ---------- memory pages ----------

  datatype MemoryPageMessage = MemoryPageMessage(
    regionId: Text, pageOffset: u64, pageHash: Text, compression: byte, originalSize: u32, data: Bytes)

  function AlgorithmCode(a: Algorithm): byte {
    match a
    case Uncompressed => 0
    case LZ4 => 1
    case Zstd => 2
  }

  function FromPage(page: MemoryPage, regionId: Text, pageOffset: u64): MemoryPageMessage {
    MemoryPageMessage(regionId, pageOffset, page.pageHash, AlgorithmCode(page.compression),
                      page.originalSize % 0x1_0000_0000, page.data)
  }

  function ToPage(m: MemoryPageMessage): MemoryPage {
    var compression :=
      match m.compression
      case 0 => Uncompressed
      case 1 => LZ4
      case 2 => Zstd
      case _ => Uncompressed;
    MemoryPage(m.pageHash, m.data, compression, m.originalSize)
  }

  /** A page comes back exactly when its size fits in 32 bits, a message exactly when its compression is a known one. */
  lemma PagesAndMessagesAreExact(page: MemoryPage, m: MemoryPageMessage, regionId: Text, pageOffset: u64)
    ensures ToPage(FromPage(page, regionId, pageOffset)) == page <==> page.originalSize < 0x1_0000_0000
    ensures FromPage(ToPage(m), m.regionId, m.pageOffset) == m <==> m.compression <= 2
  {
  }
}
