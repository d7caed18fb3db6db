/** Packet flags, the receiver's replies as frames, and what each endpoint makes of a poll. */
module Messages {
  import opened Bytes
  import opened Options
  import opened Pdu
  import opened FaultInjector

  const RR_FLAG: byte := 5
  const SREJ_FLAG: byte := 6
  const EOF_FLAG: byte := 10
  const DATA_PACKET_FLAG: byte := 16
  const RESENT_SREJ_DATA_PACKET_FLAG: byte := 17
  const RESENT_TIMEOUT_DATA_PACKET_FLAG: byte := 18
  const EOF_ACK_FLAG: byte := 32

  /** RR and SREJ packets carry one 4-byte sequence number. */
  const RCOPY_RESPONSES_PACKET_LENGTH := 4

  /**
   What the receiver sends back. Every reply carries the receiver's own packet number; the
   one payload byte of an EOF ACK is never initialised.
   */
  datatype Reply =
    | Rr(packetNo: nat, number: nat)
    | Srej(packetNo: nat, number: nat)
    | EofAck(packetNo: nat, pad: byte)

  function ReplyFrame(r: Reply): Frame {
    match r
    case Rr(id, n) => Frame(ToUint32(id), RR_FLAG, BigEndian(ToUint32(n)))
    case Srej(id, n) => Frame(ToUint32(id), SREJ_FLAG, BigEndian(ToUint32(n)))
    case EofAck(id, pad) => Frame(ToUint32(id), EOF_ACK_FLAG, [pad])
  }

  /** The result of one pollCall and, when something is there, of the recvfrom after it. */
  datatype Poll = Timeout | Datagram(bytes: seq<byte>)

  /** Once a finite supply of poll results is used up every poll times out. */
  function NextPoll(inbox: seq<Poll>): Poll {
    if inbox == [] then Timeout else inbox[0]
  }

  function RestPolls(inbox: seq<Poll>): seq<Poll> {
    if inbox == [] then [] else inbox[1..]
  }

  /** recvfrom keeps no more of a datagram than fits the buffer. */
  function Truncate(b: seq<byte>, size: nat): (kept: seq<byte>)
    ensures kept <= b && |kept| <= size && (|b| <= size || |kept| == size)
  {
    if |b| <= size then b else b[..size]
  }

  /** What the sender makes of a poll. */
  datatype AckEvent =
    | Silence
    | Garbled
    | GotRr(number: int)
    | GotSrej(number: int)
    | GotEofAck
    | GotOther

  /** The 4 bytes at the payload pointer; the receive buffer starts out zeroed. */
  function NumberIn(payload: seq<byte>): int {
    var p := payload + [0, 0, 0, 0];
    ToInt32(FromBigEndian(p[..4]))
  }

  function Classify(f: Frame): AckEvent {
    if f.flag == RR_FLAG then GotRr(NumberIn(f.payload))
    else if f.flag == SREJ_FLAG then GotSrej(NumberIn(f.payload))
    else if f.flag == EOF_ACK_FLAG then GotEofAck
    else GotOther
  }

  const ACK_BUFFER := PDU_HEADER_LEN + RCOPY_RESPONSES_PACKET_LENGTH

  function AckOf(p: Poll): (ev: AckEvent)
    ensures ev.Silence? <==> p.Timeout?
  {
    match p
    case Timeout => Silence
    case Datagram(bytes) =>
      match Decode(Truncate(bytes, ACK_BUFFER))
      case Bad => Garbled
      case Good(f) => Classify(f)
  }

  /** What the receiver makes of a poll. */
  datatype DataEvent = Quiet | Corrupt | Arrived(frame: Frame)

  function DataOf(p: Poll, bufferSize: nat): (ev: DataEvent)
    ensures ev.Quiet? <==> p.Timeout?
  {
    match p
    case Timeout => Quiet
    case Datagram(bytes) =>
      match Decode(Truncate(bytes, PDU_HEADER_LEN + bufferSize))
      case Bad => Corrupt
      case Good(f) => Arrived(f)
  }

  /** The event an undamaged reply gives the sender. */
  function Meaning(r: Reply): AckEvent {
    match r
    case Rr(_, n) => GotRr(n)
    case Srej(_, n) => GotSrej(n)
    case EofAck(_, _) => GotEofAck
  }

  lemma NumberRoundTrip(n: uint32)
    ensures NumberIn(BigEndian(n)) == ToInt32(n)
  {
    BigEndianRoundTrip(n);
    assert (BigEndian(n) + [0, 0, 0, 0])[..4] == BigEndian(n);
  }

  lemma ClassifyReply(r: Reply)
    requires !r.EofAck? ==> r.number < 0x8000_0000
    ensures Classify(ReplyFrame(r)) == Meaning(r)
  {
    if !r.EofAck? {
      NumberRoundTrip(ToUint32(r.number));
    }
  }

  /** The bytes of a reply: number, checksum, flag, and the big-endian number that RR and SREJ carry. */
  lemma ReplyBytes(r: Reply)
    ensures var b := Encode(ReplyFrame(r));
            && b[..4] == BigEndian(ToUint32(r.packetNo))
            && match r
               case Rr(_, n) => b[6] == 5 && b[7..] == BigEndian(ToUint32(n))
               case Srej(_, n) => b[6] == 6 && b[7..] == BigEndian(ToUint32(n))
               case EofAck(_, pad) => b[6] == 32 && b[7..] == [pad]
  {
    Layout(ReplyFrame(r));
  }

  /** What a datagram means to the sender by its flag byte. */
  lemma AckByFlag(bytes: seq<byte>)
    requires Decode(bytes).Good? && |bytes| <= 11
    ensures var ev := AckOf(Datagram(bytes));
            && (ev.GotRr? <==> bytes[6] == 5)
            && (ev.GotSrej? <==> bytes[6] == 6)
            && (ev.GotEofAck? <==> bytes[6] == 32)
            && (ev.GotOther? <==> bytes[6] !in {5, 6, 32})
            && (bytes[6] in {5, 6} && |bytes| == 11 ==> ev.number == ToInt32(FromBigEndian(bytes[7..])))
  {
    assert Truncate(bytes, ACK_BUFFER) == bytes;
    if |bytes| == 11 {
      assert (bytes[7..] + [0, 0, 0, 0])[..4] == bytes[7..];
    }
  }

  /** recvfrom cuts a datagram that is longer than its buffer: 11 bytes for the sender, one frame for the receiver. */
  lemma LongDatagramsCut(bytes: seq<byte>, bufferSize: nat)
    ensures |bytes| > 11 ==> AckOf(Datagram(bytes)) == AckOf(Datagram(bytes[..11]))
    ensures |bytes| > 7 + bufferSize ==>
              DataOf(Datagram(bytes), bufferSize) == DataOf(Datagram(bytes[..7 + bufferSize]), bufferSize)
    ensures var ev := DataOf(Datagram(bytes), bufferSize);
            ev.Arrived? ==> |ev.frame.payload| <= bufferSize
  {
  }

  /** A reply survives the wire with its number intact, or is recognised as garbled. */
  lemma ReplyOnWire(r: Reply, wire: Option<seq<byte>>)
    requires !r.EofAck? ==> r.number < 0x8000_0000
    requires wire.Some? && AtMostOneFault(Encode(ReplyFrame(r)), wire)
    ensures AckOf(Datagram(wire.value)) == Meaning(r) || AckOf(Datagram(wire.value)) == Garbled
    ensures wire.value == Encode(ReplyFrame(r)) ==> AckOf(Datagram(wire.value)) == Meaning(r)
  {
    ClassifyReply(r);
    FaultIsLoss(ReplyFrame(r), wire);
    assert |wire.value| <= ACK_BUFFER;
  }

  /** A data or EOF frame survives the wire unchanged, or is recognised as corrupt. */
  lemma FrameOnWire(f: Frame, wire: Option<seq<byte>>, bufferSize: nat)
    requires |f.payload| <= bufferSize <= MAX_PAYLOAD
    requires wire.Some? && AtMostOneFault(Encode(f), wire)
    ensures var ev := DataOf(Datagram(wire.value), bufferSize);
            ev == Arrived(f) || ev == Corrupt
    ensures wire.value == Encode(f) ==> DataOf(Datagram(wire.value), bufferSize) == Arrived(f)
  {
    FaultIsLoss(f, wire);
  }
}
