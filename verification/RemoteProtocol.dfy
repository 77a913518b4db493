/** The packet format of remote_protocol: encoder, decoder, and what the two promise each
    other. Bytes are bv8 and words bv16; a message type is kept as its raw byte, as the
    decoder casts it before it checks it. */
module RemoteProtocol {
  import opened Crc

  const MAGIC_BYTE_0: bv8 := 0x52
  const MAGIC_BYTE_1: bv8 := 0x43
  const PROTOCOL_VERSION: bv8 := 1
  const MAX_PAYLOAD_SIZE: nat := 64
  const HEADER_SIZE: nat := 10
  const CRC_SIZE: nat := 2
  const MIN_PACKET_SIZE: nat := HEADER_SIZE + CRC_SIZE
  const MAX_PACKET_SIZE: nat := HEADER_SIZE + MAX_PAYLOAD_SIZE + CRC_SIZE

  const COMMAND: bv8 := 1
  const TELEMETRY: bv8 := 2
  const ACKNOWLEDGEMENT: bv8 := 3
  const CONFIGURATION: bv8 := 4
  const HEARTBEAT: bv8 := 5

  const FLAG_ACK_REQUESTED: bv8 := 0x01
  const FLAG_IS_RESPONSE: bv8 := 0x02

  type Payload = s: seq<bv8> | |s| == 64 witness seq(64, _ => 0)

  datatype Message = Message(
    mtype: bv8,
    flags: bv8,
    sequenceNumber: bv16,
    messageId: bv16,
    payloadLength: bv8,
    payload: Payload)

  datatype EncodeResult =
    | EncodeOk | EncodeNullPointer | EncodeInvalidMessageType | EncodeInvalidFlags
    | EncodePayloadTooLarge | OutputTooSmall

  datatype DecodeResult =
    | DecodeOk | NullPointer | PacketTooShort | InvalidMagic | UnsupportedVersion
    | InvalidMessageType | InvalidFlags | PayloadTooLarge | InvalidPacketLength | CrcMismatch

  datatype AcknowledgementStatus =
    | AckCanTransmitted | AckInvalidMessage | AckUnsupportedMessage | AckCanBusy | AckCanTransmitFailed
    | AckCanTimeout | AckUnknownCommand | AckInvalidPayloadLength | AckInvalidPayloadValue

  /** The status as the one payload byte of an acknowledgement. */
  function StatusByte(s: AcknowledgementStatus): bv8 {
    match s
    case AckCanTransmitted => 0
    case AckInvalidMessage => 1
    case AckUnsupportedMessage => 2
    case AckCanBusy => 3
    case AckCanTransmitFailed => 4
    case AckCanTimeout => 5
    case AckUnknownCommand => 6
    case AckInvalidPayloadLength => 7
    case AckInvalidPayloadValue => 8
  }

  predicate IsValidMessageType(t: bv8) {
    t == COMMAND || t == TELEMETRY || t == ACKNOWLEDGEMENT || t == CONFIGURATION || t == HEARTBEAT
  }

  predicate AreValidFlags(flags: bv8) {
    flags & 0xFC == 0
  }

  function EncodedSize(payloadLength: bv8): nat {
    if payloadLength as nat > MAX_PAYLOAD_SIZE then 0
    else HEADER_SIZE + payloadLength as nat + CRC_SIZE
  }

  // ----- little-endian words -----

  function Low(v: bv16): bv8 { (v & 0xFF) as bv8 }

  function High(v: bv16): bv8 { ((v >> 8) & 0xFF) as bv8 }

  function Join(low: bv8, high: bv8): bv16 { (low as bv16) | ((high as bv16) << 8) }

  lemma JoinSplit(v: bv16)
    ensures Join(Low(v), High(v)) == v
  {
  }

  lemma SplitJoin(low: bv8, high: bv8)
    ensures Low(Join(low, high)) == low && High(Join(low, high)) == high
  {
  }

  // ----- the packet of a message -----

  /** What the encoder accepts. */
  predicate Encodable(m: Message) {
    IsValidMessageType(m.mtype) && AreValidFlags(m.flags) && m.payloadLength as nat <= MAX_PAYLOAD_SIZE
  }

  function Header(m: Message): (h: seq<bv8>)
    ensures |h| == HEADER_SIZE
  {
    [MAGIC_BYTE_0, MAGIC_BYTE_1, PROTOCOL_VERSION, m.mtype, m.flags,
     Low(m.sequenceNumber), High(m.sequenceNumber), Low(m.messageId), High(m.messageId),
     m.payloadLength]
  }

  function Body(m: Message): seq<bv8>
    requires m.payloadLength as nat <= MAX_PAYLOAD_SIZE
  {
    Header(m) + m.payload[..m.payloadLength as nat]
  }

  function Packet(m: Message): (p: seq<bv8>)
    requires m.payloadLength as nat <= MAX_PAYLOAD_SIZE
    ensures |p| == HEADER_SIZE + m.payloadLength as nat + CRC_SIZE
  {
    Body(m) + [Low(Crc16(Body(m))), High(Crc16(Body(m)))]
  }

  function EncodeStatus(m: Message, hasOutput: bool, capacity: nat): EncodeResult {
    if !hasOutput then EncodeNullPointer
    else if !IsValidMessageType(m.mtype) then EncodeInvalidMessageType
    else if !AreValidFlags(m.flags) then EncodeInvalidFlags
    else if m.payloadLength as nat > MAX_PAYLOAD_SIZE then EncodePayloadTooLarge
    else if capacity < EncodedSize(m.payloadLength) then OutputTooSmall
    else EncodeOk
  }

  method Encode(message: Message, output: array?<bv8>, outputCapacity: nat)
    returns (result: EncodeResult, bytesWritten: nat)
    requires output != null ==> outputCapacity <= output.Length
    modifies output
    ensures result == EncodeStatus(message, output != null, outputCapacity)
    ensures result == EncodeOk ==>
              && Encodable(message) && bytesWritten == |Packet(message)| <= output.Length
              && output[..bytesWritten] == Packet(message)
              && output[bytesWritten..] == old(output[bytesWritten..])
    ensures result != EncodeOk ==>
              bytesWritten == 0 && (output != null ==> output[..] == old(output[..]))
  {
    hide Packet;
    bytesWritten := 0;
    if output == null {
      return EncodeNullPointer, 0;
    }
    if !IsValidMessageType(message.mtype) {
      return EncodeInvalidMessageType, 0;
    }
    if !AreValidFlags(message.flags) {
      return EncodeInvalidFlags, 0;
    }
    if message.payloadLength as nat > MAX_PAYLOAD_SIZE {
      return EncodePayloadTooLarge, 0;
    }
    var requiredSize := EncodedSize(message.payloadLength);
    if outputCapacity < requiredSize {
      return OutputTooSmall, 0;
    }
    WritePacket(message, output);
    bytesWritten := requiredSize;
    result := EncodeOk;
  }

  /** The part of Encode after its checks. */
  method WritePacket(message: Message, output: array<bv8>)
    requires message.payloadLength as nat <= MAX_PAYLOAD_SIZE
    requires EncodedSize(message.payloadLength) <= output.Length
    modifies output
    ensures output[..EncodedSize(message.payloadLength)] == Packet(message)
    ensures output[EncodedSize(message.payloadLength)..]
         == old(output[EncodedSize(message.payloadLength)..])
  {
    hide Low;
    hide High;
    hide Crc16;
    hide Body;
    var crcOffset := HEADER_SIZE + message.payloadLength as nat;
    WriteBody(message, output);
    var crc := CalculateCrc16(output, crcOffset);
    output[crcOffset], output[crcOffset + 1] := Low(crc), High(crc);
    assert output[..crcOffset + 2] == output[..crcOffset] + [Low(crc), High(crc)];
  }

  method WriteBody(message: Message, output: array<bv8>)
    requires message.payloadLength as nat <= MAX_PAYLOAD_SIZE
    requires HEADER_SIZE + message.payloadLength as nat <= output.Length
    modifies output
    ensures output[..HEADER_SIZE + message.payloadLength as nat] == Body(message)
    ensures forall i :: HEADER_SIZE + message.payloadLength as nat <= i < output.Length ==>
              output[i] == old(output[i])
  {
    hide Header;
    var n := message.payloadLength as nat;
    WriteHeader(message, output);
    forall i | 0 <= i < n {
      output[HEADER_SIZE + i] := message.payload[i];
    }
    HeadThenTail(output[..], Header(message), message.payload[..n]);
  }

  lemma HeadThenTail<T>(s: seq<T>, head: seq<T>, tail: seq<T>)
    requires |head| + |tail| <= |s|
    requires forall i :: 0 <= i < |head| ==> s[i] == head[i]
    requires forall i :: 0 <= i < |tail| ==> s[|head| + i] == tail[i]
    ensures s[..|head| + |tail|] == head + tail
  {
  }

  method WriteHeader(message: Message, output: array<bv8>)
    requires output.Length >= HEADER_SIZE
    modifies output
    ensures forall i :: 0 <= i < HEADER_SIZE ==> output[i] == Header(message)[i]
    ensures forall i :: HEADER_SIZE <= i < output.Length ==> output[i] == old(output[i])
  {
    hide Low;
    hide High;
    var fields := [MAGIC_BYTE_0, MAGIC_BYTE_1, PROTOCOL_VERSION, message.mtype, message.flags,
                   Low(message.sequenceNumber), High(message.sequenceNumber),
                   Low(message.messageId), High(message.messageId), message.payloadLength];
    forall offset | 0 <= offset < HEADER_SIZE {
      output[offset] := fields[offset];
    }
  }

  // ----- the message of a packet -----

  datatype Parsed = Accepted(message: Message) | Rejected(reason: DecodeResult)
  {
    function Code(): DecodeResult {
      if Accepted? then DecodeOk else reason
    }

    function MessageOr(default: Message): Message {
      if Accepted? then message else default
    }
  }

  function Padded(s: seq<bv8>): Payload
    requires |s| <= MAX_PAYLOAD_SIZE
  {
    s + seq(MAX_PAYLOAD_SIZE - |s|, _ => 0)
  }

  /** The first check a packet fails, in the decoder's order, or its message. */
  function Parse(p: seq<bv8>): Parsed {
    if |p| < MIN_PACKET_SIZE then Rejected(PacketTooShort)
    else if p[0] != MAGIC_BYTE_0 || p[1] != MAGIC_BYTE_1 then Rejected(InvalidMagic)
    else if p[2] != PROTOCOL_VERSION then Rejected(UnsupportedVersion)
    else if !IsValidMessageType(p[3]) then Rejected(InvalidMessageType)
    else if !AreValidFlags(p[4]) then Rejected(InvalidFlags)
    else if p[9] as nat > MAX_PAYLOAD_SIZE then Rejected(PayloadTooLarge)
    else if |p| != EncodedSize(p[9]) then Rejected(InvalidPacketLength)
    else
      var end := HEADER_SIZE + p[9] as nat;
      if Join(p[end], p[end + 1]) != Crc16(p[..end]) then Rejected(CrcMismatch)
      else Accepted(Message(p[3], p[4], Join(p[5], p[6]), Join(p[7], p[8]), p[9],
                            Padded(p[HEADER_SIZE..end])))
  }

  /** What is left to decide once a packet is framed correctly. */
  lemma ChecksPassed(p: seq<bv8>)
    requires |p| >= MIN_PACKET_SIZE && p[0] == MAGIC_BYTE_0 && p[1] == MAGIC_BYTE_1 && p[2] == PROTOCOL_VERSION
    requires IsValidMessageType(p[3]) && AreValidFlags(p[4])
    requires p[9] as nat <= MAX_PAYLOAD_SIZE && |p| == EncodedSize(p[9])
    ensures |p| == HEADER_SIZE + p[9] as nat + CRC_SIZE
    ensures var end := HEADER_SIZE + p[9] as nat;
            Parse(p) == if Join(p[end], p[end + 1]) != Crc16(p[..end]) then Rejected(CrcMismatch)
                        else Accepted(Message(p[3], p[4], Join(p[5], p[6]), Join(p[7], p[8]), p[9],
                                              Padded(p[HEADER_SIZE..end])))
  {
  }

  method Decode(packet: array?<bv8>, packetLength: nat, message: Message)
    returns (result: DecodeResult, decoded: Message)
    requires packet != null ==> packetLength <= packet.Length
    ensures packet == null ==> result == NullPointer && decoded == message
    ensures packet != null ==>
              && result == Parse(packet[..packetLength]).Code()
              && decoded == Parse(packet[..packetLength]).MessageOr(message)
  {
    hide Join;
    hide Crc16;
    hide Padded;
    hide IsValidMessageType;
    hide AreValidFlags;
    hide EncodedSize;
    if packet == null {
      return NullPointer, message;
    }
    ghost var p := packet[..packetLength];
    if packetLength < MIN_PACKET_SIZE {
      return PacketTooShort, message;
    }
    if packet[0] != MAGIC_BYTE_0 || packet[1] != MAGIC_BYTE_1 {
      return InvalidMagic, message;
    }
    if packet[2] != PROTOCOL_VERSION {
      return UnsupportedVersion, message;
    }
    var mtype := packet[3];
    if !IsValidMessageType(mtype) {
      return InvalidMessageType, message;
    }
    var flags := packet[4];
    if !AreValidFlags(flags) {
      return InvalidFlags, message;
    }
    var payloadLength := packet[9];
    if payloadLength as nat > MAX_PAYLOAD_SIZE {
      return PayloadTooLarge, message;
    }
    var expectedLength := EncodedSize(payloadLength);
    if packetLength != expectedLength {
      return InvalidPacketLength, message;
    }
    ChecksPassed(p);
    hide Parse;
    var crcOffset := HEADER_SIZE + payloadLength as nat;
    var receivedCrc := Join(packet[crcOffset], packet[crcOffset + 1]);
    var calculatedCrc := CalculateCrc16(packet, crcOffset);
    assert p[..crcOffset] == packet[..crcOffset];
    if receivedCrc != calculatedCrc {
      return CrcMismatch, message;
    }
    result := DecodeOk;
    assert p[HEADER_SIZE..crcOffset] == packet[HEADER_SIZE..crcOffset];
    decoded := Message(mtype, flags, Join(packet[5], packet[6]), Join(packet[7], packet[8]),
                       payloadLength, Padded(packet[HEADER_SIZE..crcOffset]));
  }

  // ----- round trips -----

  /** The message with the payload bytes past its length zeroed. */
  function Canonical(m: Message): Message
    requires m.payloadLength as nat <= MAX_PAYLOAD_SIZE
  {
    m.(payload := Padded(m.payload[..m.payloadLength as nat]))
  }

  lemma PacketParts(m: Message)
    requires m.payloadLength as nat <= MAX_PAYLOAD_SIZE
    ensures var p, n := Packet(m), m.payloadLength as nat;
            && |p| == HEADER_SIZE + n + CRC_SIZE && p[..HEADER_SIZE] == Header(m)
            && p[..HEADER_SIZE + n] == Body(m) && p[HEADER_SIZE..HEADER_SIZE + n] == m.payload[..n]
            && p[HEADER_SIZE + n] == Low(Crc16(Body(m))) && p[HEADER_SIZE + n + 1] == High(Crc16(Body(m)))
  {
    hide Low;
    hide High;
    hide Header;
    hide Crc16;
  }

  lemma PacketHeader(m: Message)
    requires m.payloadLength as nat <= MAX_PAYLOAD_SIZE
    ensures var p := Packet(m);
            && |p| == HEADER_SIZE + m.payloadLength as nat + CRC_SIZE
            && p[0] == MAGIC_BYTE_0 && p[1] == MAGIC_BYTE_1 && p[2] == PROTOCOL_VERSION
            && p[3] == m.mtype && p[4] == m.flags && p[9] == m.payloadLength
            && Join(p[5], p[6]) == m.sequenceNumber && Join(p[7], p[8]) == m.messageId
  {
    hide Packet;
    hide Low;
    hide High;
    hide Join;
    PacketParts(m);
    FirstTen(Packet(m));
    JoinSplit(m.sequenceNumber);
    JoinSplit(m.messageId);
  }

  lemma DecodeEncode(m: Message)
    requires Encodable(m)
    ensures Parse(Packet(m)) == Accepted(Canonical(m))
  {
    hide Parse;
    hide Packet;
    hide Body;
    hide Low;
    hide High;
    hide Join;
    hide Crc16;
    hide Padded;
    PacketParts(m);
    PacketHeader(m);
    JoinSplit(Crc16(Body(m)));
    ChecksPassed(Packet(m));
  }

  /** An accepted packet, field by field. */
  lemma AcceptedFields(p: seq<bv8>)
    requires Parse(p).Accepted?
    ensures |p| >= MIN_PACKET_SIZE && |p| == HEADER_SIZE + p[9] as nat + CRC_SIZE
    ensures p[0] == MAGIC_BYTE_0 && p[1] == MAGIC_BYTE_1 && p[2] == PROTOCOL_VERSION
    ensures var m, end := Parse(p).message, HEADER_SIZE + p[9] as nat;
            && Encodable(m) && m.mtype == p[3] && m.flags == p[4] && m.payloadLength == p[9]
            && m.sequenceNumber == Join(p[5], p[6]) && m.messageId == Join(p[7], p[8])
            && m.payload == Padded(p[HEADER_SIZE..end])
            && Join(p[end], p[end + 1]) == Crc16(p[..end])
  {
    hide Join;
    hide Crc16;
    hide Padded;
    hide IsValidMessageType;
    hide AreValidFlags;
  }

  lemma AcceptedHeader(p: seq<bv8>)
    requires Parse(p).Accepted?
    ensures |p| >= HEADER_SIZE && Header(Parse(p).message) == p[..HEADER_SIZE]
  {
    hide Parse;
    hide Encodable;
    hide Padded;
    hide Join;
    hide Low;
    hide High;
    AcceptedFields(p);
    SplitJoin(p[5], p[6]);
    SplitJoin(p[7], p[8]);
    FirstTen(p);
  }

  lemma FirstTen<T>(s: seq<T>)
    requires |s| >= 10
    ensures s[..10] == [s[0], s[1], s[2], s[3], s[4], s[5], s[6], s[7], s[8], s[9]]
  {
  }

  lemma EncodeDecode(p: seq<bv8>)
    requires Parse(p).Accepted?
    ensures Encodable(Parse(p).message)
    ensures Packet(Parse(p).message) == p
    ensures Canonical(Parse(p).message) == Parse(p).message
  {
    hide Parse;
    hide Header;
    hide Encodable;
    hide Crc16;
    hide Join;
    hide Low;
    hide High;
    AcceptedFields(p);
    AcceptedHeader(p);
    var m, end := Parse(p).message, HEADER_SIZE + p[9] as nat;
    SplitJoin(p[end], p[end + 1]);
    assert m.payload[..p[9] as nat] == p[HEADER_SIZE..end];
    assert Body(m) == p[..end];
    assert p == p[..end] + [p[end], p[end + 1]];
  }

  /** The decoder accepts exactly the packets the encoder produces. */
  lemma AcceptedIffEncoded(p: seq<bv8>)
    ensures Parse(p).Accepted? <==> exists m :: Encodable(m) && Packet(m) == p
  {
    if Parse(p).Accepted? {
      EncodeDecode(p);
    }
    if m :| Encodable(m) && Packet(m) == p {
      DecodeEncode(m);
    }
  }

  // ----- the bytes on the air, written out -----

  function CheckOf(p: seq<bv8>): bv16
    requires |p| >= 2
  {
    (p[|p| - 2] as bv16) | ((p[|p| - 1] as bv16) << 8)
  }

  /** A packet is framed correctly if magic, version, type, flags, length and size are right. */
  predicate Framed(p: seq<bv8>) {
    && |p| >= 12 && p[0] == 0x52 && p[1] == 0x43 && p[2] == 1
    && 1 <= p[3] <= 5 && p[4] & 0xFC == 0 && p[9] <= 64 && |p| == 12 + p[9] as nat
  }

  /** Framed correctly, and the last two bytes, low byte first, are the check word of all before
      them. */
  predicate Intact(p: seq<bv8>) {
    Framed(p) && CheckOf(p) == Crc16(p[..|p| - 2])
  }

  lemma SizeFits(n: bv8)
    ensures n <= 64 <==> n as nat <= 64
  {
  }

  lemma TypesAre(t: bv8)
    ensures IsValidMessageType(t) <==> 1 <= t <= 5
  {
  }

  lemma CheckIsJoined(p: seq<bv8>)
    requires |p| >= 2
    ensures CheckOf(p) == Join(p[|p| - 2], p[|p| - 1])
  {
  }

  /** The decoder accepts exactly the intact packets. */
  lemma AcceptedIff(p: seq<bv8>)
    ensures Parse(p).Accepted? <==> Intact(p)
  {
    hide Crc16;
    hide Padded;
    hide IsValidMessageType;
    hide Join;
    hide CheckOf;
    if |p| >= 12 {
      CheckIsJoined(p);
      SizeFits(p[9]);
      TypesAre(p[3]);
    }
  }

  lemma RejectedForHeader(p: seq<bv8>)
    ensures Parse(p) == Rejected(PacketTooShort) <==> |p| < 12
    ensures Parse(p) == Rejected(InvalidMagic) <==> |p| >= 12 && (p[0] != 0x52 || p[1] != 0x43)
    ensures Parse(p) == Rejected(UnsupportedVersion) <==>
              |p| >= 12 && p[0] == 0x52 && p[1] == 0x43 && p[2] != 1
    ensures Parse(p) == Rejected(InvalidMessageType) <==>
              |p| >= 12 && p[0] == 0x52 && p[1] == 0x43 && p[2] == 1 && !(1 <= p[3] <= 5)
    ensures Parse(p) == Rejected(InvalidFlags) <==>
              |p| >= 12 && p[0] == 0x52 && p[1] == 0x43 && p[2] == 1 && 1 <= p[3] <= 5 && p[4] & 0xFC != 0
  {
    hide Crc16;
    hide Padded;
    hide IsValidMessageType;
    hide Join;
    hide CheckOf;
    if |p| >= 12 {
      CheckIsJoined(p);
      SizeFits(p[9]);
      TypesAre(p[3]);
    }
  }

  lemma RejectedForSize(p: seq<bv8>)
    ensures Parse(p) == Rejected(PayloadTooLarge) <==>
              && |p| >= 12 && p[0] == 0x52 && p[1] == 0x43 && p[2] == 1
              && 1 <= p[3] <= 5 && p[4] & 0xFC == 0 && p[9] > 64
    ensures Parse(p) == Rejected(InvalidPacketLength) <==>
              && |p| >= 12 && p[0] == 0x52 && p[1] == 0x43 && p[2] == 1
              && 1 <= p[3] <= 5 && p[4] & 0xFC == 0 && p[9] <= 64 && |p| != 12 + p[9] as nat
    ensures Parse(p) == Rejected(CrcMismatch) <==> Framed(p) && !Intact(p)
  {
    hide Crc16;
    hide Padded;
    hide IsValidMessageType;
    hide Join;
    hide CheckOf;
    if |p| >= 12 {
      CheckIsJoined(p);
      SizeFits(p[9]);
      TypesAre(p[3]);
    }
  }

  /** Why a packet is refused, each reason exactly when nothing before it is wrong. */
  lemma RejectedIff(p: seq<bv8>)
    ensures Parse(p) == Rejected(PacketTooShort) <==> |p| < 12
    ensures Parse(p) == Rejected(InvalidMagic) <==> |p| >= 12 && (p[0] != 0x52 || p[1] != 0x43)
    ensures Parse(p) == Rejected(UnsupportedVersion) <==>
              |p| >= 12 && p[0] == 0x52 && p[1] == 0x43 && p[2] != 1
    ensures Parse(p) == Rejected(InvalidMessageType) <==>
              |p| >= 12 && p[0] == 0x52 && p[1] == 0x43 && p[2] == 1 && !(1 <= p[3] <= 5)
    ensures Parse(p) == Rejected(InvalidFlags) <==>
              |p| >= 12 && p[0] == 0x52 && p[1] == 0x43 && p[2] == 1 && 1 <= p[3] <= 5 && p[4] & 0xFC != 0
    ensures Parse(p) == Rejected(PayloadTooLarge) <==>
              && |p| >= 12 && p[0] == 0x52 && p[1] == 0x43 && p[2] == 1
              && 1 <= p[3] <= 5 && p[4] & 0xFC == 0 && p[9] > 64
    ensures Parse(p) == Rejected(InvalidPacketLength) <==>
              && |p| >= 12 && p[0] == 0x52 && p[1] == 0x43 && p[2] == 1
              && 1 <= p[3] <= 5 && p[4] & 0xFC == 0 && p[9] <= 64 && |p| != 12 + p[9] as nat
    ensures Parse(p) == Rejected(CrcMismatch) <==> Framed(p) && !Intact(p)
  {
    hide Parse;
    hide Framed;
    hide Intact;
    RejectedForHeader(p);
    RejectedForSize(p);
  }

  /** What an accepted packet says: every field where it lies, words low byte first. */
  lemma AcceptedSays(p: seq<bv8>)
    requires Parse(p).Accepted?
    ensures |p| >= 12 && |p| == 12 + p[9] as nat
    ensures var m := Parse(p).message;
            && m.mtype == p[3] && m.flags == p[4] && m.payloadLength == p[9]
            && m.sequenceNumber == (p[5] as bv16) | ((p[6] as bv16) << 8)
            && m.messageId == (p[7] as bv16) | ((p[8] as bv16) << 8)
            && m.payload == p[10..|p| - 2] + seq(64 - p[9] as nat, _ => 0)
  {
    hide Crc16;
    AcceptedFields(p);
    hide Parse;
  }

  /** The packet of a message, byte by byte. */
  lemma PacketIs(m: Message)
    requires m.payloadLength as nat <= 64
    ensures var p, n := Packet(m), m.payloadLength as nat;
            && |p| == 12 + n
            && p[0] == 0x52 && p[1] == 0x43 && p[2] == 1 && p[3] == m.mtype && p[4] == m.flags
            && p[5] == (m.sequenceNumber & 0xFF) as bv8 && p[6] == (m.sequenceNumber >> 8) as bv8
            && p[7] == (m.messageId & 0xFF) as bv8 && p[8] == (m.messageId >> 8) as bv8
            && p[9] == m.payloadLength && p[10..10 + n] == m.payload[..n]
            && CheckOf(p) == Crc16(p[..10 + n])
  {
    hide Crc16;
    hide Packet;
    hide Body;
    PacketParts(m);
    FirstTen(Packet(m));
    LowByte(m.sequenceNumber);
    LowByte(m.messageId);
    JoinSplit(Crc16(Body(m)));
  }

  lemma LowByte(v: bv16)
    ensures Low(v) == (v & 0xFF) as bv8 && High(v) == (v >> 8) as bv8
  {
  }

  /** Why a message is not encoded, each reason exactly when nothing before it is wrong. */
  lemma EncodeStatusIff(m: Message, hasOutput: bool, capacity: nat)
    ensures var r := EncodeStatus(m, hasOutput, capacity);
            && (r == EncodeNullPointer <==> !hasOutput)
            && (r == EncodeInvalidMessageType <==> hasOutput && !(1 <= m.mtype <= 5))
            && (r == EncodeInvalidFlags <==> hasOutput && 1 <= m.mtype <= 5 && m.flags & 0xFC != 0)
            && (r == EncodePayloadTooLarge <==>
                  hasOutput && 1 <= m.mtype <= 5 && m.flags & 0xFC == 0 && m.payloadLength > 64)
            && (r == OutputTooSmall <==>
                  && hasOutput && 1 <= m.mtype <= 5 && m.flags & 0xFC == 0 && m.payloadLength <= 64
                  && capacity < 12 + m.payloadLength as nat)
            && (r == EncodeOk <==>
                  && hasOutput && 1 <= m.mtype <= 5 && m.flags & 0xFC == 0 && m.payloadLength <= 64
                  && capacity >= 12 + m.payloadLength as nat)
  {
    SizeFits(m.payloadLength);
    TypesAre(m.mtype);
  }
}
