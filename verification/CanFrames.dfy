/** CAN frames and their image in the registers of the controller: the packing of the send
    path and the unpacking of the receive path. */
module CanFrames {
  const CAN_MAX_DLEN: bv8 := 8

  // Masks are written out: bit 31 of an identifier word is the extended flag and bit 30 the
  // remote flag; in the registers bit 3 of SIDL marks an extended identifier, bit 6 of DLC a
  // remote frame, and bit 3 of a receive control register a received remote frame.

  type FrameBytes = s: seq<bv8> | |s| == 8 witness [0, 0, 0, 0, 0, 0, 0, 0]

  /** A frame as the driver takes it: identifier and flags in one word. */
  datatype RawFrame = RawFrame(canId: bv32, dlc: bv8, data: FrameBytes)

  // ----- identifiers -----

  predicate IsExtended(canId: bv32) { canId & 0x80000000 != 0 }

  predicate IsRemote(canId: bv32) { canId & 0x40000000 != 0 }

  function Byte(x: bv32): bv8 { (x & 0xFF) as bv8 }

  /** The registers SIDH, SIDL, EID8 and EID0 of an identifier, as the chip lays them out:
      eleven standard bits, most significant first, then the flag, then the 18 extended bits. */
  function IdBytes(ext: bool, id: bv32): (r: seq<bv8>)
    ensures |r| == 4
  {
    if ext then
      [Byte(id >> 21), Sidl(Byte(id >> 18), Byte(id >> 16)), Byte(id >> 8), Byte(id)]
    else
      [Byte(id >> 3), Byte(id) << 5, 0, 0]
  }

  function Sidl(standard: bv8, extended: bv8): bv8 {
    (standard << 5) | 0x08 | (extended & 0x03)
  }

  method PrepareId(buffer: array<bv8>, ext: bool, id: bv32)
    requires buffer.Length >= 4
    modifies buffer
    ensures buffer[..4] == IdBytes(ext, id)
    ensures forall i :: 4 <= i < buffer.Length ==> buffer[i] == old(buffer[i])
  {
    var canid: bv16 := (id & 0xFFFF) as bv16;
    if ext {
      ghost var low := canid;
      buffer[3] := (canid & 0xFF) as bv8;
      buffer[2] := (canid >> 8) as bv8;
      canid := (id >> 16) as bv16;
      buffer[1] := (canid & 0x03) as bv8;
      buffer[1] := buffer[1] + (((canid & 0x1C) << 3) as bv8);
      buffer[1] := buffer[1] | 0x08;
      buffer[0] := ((canid >> 5) & 0xFF) as bv8;
      ExtendedLayout(id, low, canid);
    } else {
      buffer[0] := ((canid >> 3) & 0xFF) as bv8;
      buffer[1] := ((canid & 0x07) << 5) as bv8;
      buffer[3] := 0;
      buffer[2] := 0;
      StandardLayout(id, canid);
    }
  }

  lemma ExtendedLayout(id: bv32, low: bv16, high: bv16)
    requires low == (id & 0xFFFF) as bv16 && high == (id >> 16) as bv16
    ensures (low & 0xFF) as bv8 == Byte(id)
    ensures (low >> 8) as bv8 == Byte(id >> 8)
    ensures (((high & 0x03) as bv8) + (((high & 0x1C) << 3) as bv8)) | 0x08
         == Sidl(Byte(id >> 18), Byte(id >> 16))
    ensures ((high >> 5) & 0xFF) as bv8 == Byte(id >> 21)
  {
  }

  lemma StandardLayout(id: bv32, low: bv16)
    requires low == (id & 0xFFFF) as bv16
    ensures ((low >> 3) & 0xFF) as bv8 == Byte(id >> 3)
    ensures ((low & 0x07) << 5) as bv8 == Byte(id) << 5
  {
  }

  /** The identifier the receive path rebuilds from its first four registers. */
  function ReadId(b: seq<bv8>): bv32
    requires |b| >= 4
  {
    Rebuild(b[0], b[1], b[2], b[3])
  }

  function Rebuild(sidh: bv8, sidl: bv8, eid8: bv8, eid0: bv8): bv32 {
    var id := ((sidh as bv32) << 3) + ((sidl >> 5) as bv32);
    if sidl & 0x08 == 0x08 then
      var id2 := (id << 2) + ((sidl & 0x03) as bv32);
      var id3 := (id2 << 8) + (eid8 as bv32);
      ((id3 << 8) + (eid0 as bv32)) | 0x80000000
    else id
  }

  lemma SidlFields(id: bv32, sidl: bv8)
    requires sidl == Sidl(Byte(id >> 18), Byte(id >> 16))
    ensures sidl & 0x08 == 0x08
    ensures (sidl >> 5) as bv32 == (id >> 18) & 0x07
    ensures (sidl & 0x03) as bv32 == (id >> 16) & 0x03
  {
  }

  lemma Widened(x: bv32)
    ensures Byte(x) as bv32 == x & 0xFF
  {
  }

  lemma Rebuilt(id: bv32)
    requires id <= 0x1FFFFFFF
    ensures (((id >> 21) & 0xFF) << 3) + ((id >> 18) & 0x07) == id >> 18
    ensures ((id >> 18) << 2) + ((id >> 16) & 0x03) == id >> 16
    ensures ((id >> 16) << 8) + ((id >> 8) & 0xFF) == id >> 8
    ensures ((id >> 8) << 8) + (id & 0xFF) == id
  {
  }

  lemma StandardFields(id: bv32)
    requires id <= 0x7FF
    ensures (Byte(id) << 5) & 0x08 != 0x08
    ensures ((Byte(id >> 3) as bv32) << 3) + (((Byte(id) << 5) >> 5) as bv32) == id
  {
  }

  /** The receive path undoes the packing. */
  lemma ReadIdUndoes(ext: bool, id: bv32)
    requires if ext then id <= 0x1FFFFFFF else id <= 0x7FF
    ensures ReadId(IdBytes(ext, id)) == WithExtended(id, ext)
  {
    if ext {
      SidlFields(id, IdBytes(ext, id)[1]);
      Widened(id >> 21);
      Widened(id >> 8);
      Widened(id);
      hide Byte;
      Rebuilt(id);
    } else {
      StandardFields(id);
      hide Byte;
    }
  }

  /** The bits of an identifier that have a place in the registers. */
  function Significant(ext: bool, id: bv32): bv32 {
    if ext then id & 0x1FFFFFFF else id & 0x7FF
  }

  lemma ExtendedMasked(id: bv32, m: bv32)
    requires m == id & 0x1FFFFFFF
    ensures Byte(m >> 21) == Byte(id >> 21)
    ensures Sidl(Byte(m >> 18), Byte(m >> 16)) == Sidl(Byte(id >> 18), Byte(id >> 16))
    ensures Byte(m >> 8) == Byte(id >> 8) && Byte(m) == Byte(id)
    ensures m <= 0x1FFFFFFF
  {
  }

  lemma StandardMasked(id: bv32, m: bv32)
    requires m == id & 0x7FF
    ensures Byte(m >> 3) == Byte(id >> 3) && Byte(m) == Byte(id)
    ensures m <= 0x7FF
  {
  }

  lemma MaskingLosesNothing(ext: bool, id: bv32, m: bv32)
    requires m == Significant(ext, id)
    ensures IdBytes(ext, m) == IdBytes(ext, id)
    ensures if ext then m <= 0x1FFFFFFF else m <= 0x7FF
  {
    if ext {
      ExtendedMasked(id, m);
    } else {
      StandardMasked(id, m);
    }
    hide Byte;
    hide Sidl;
    hide Significant;
  }

  /** Two identifiers of one format are packed alike exactly when they agree in the bits that
      have a place. */
  lemma PackedAlikeIff(ext: bool, a: bv32, b: bv32)
    ensures IdBytes(ext, a) == IdBytes(ext, b) <==> Significant(ext, a) == Significant(ext, b)
  {
    var x, y := Significant(ext, a), Significant(ext, b);
    MaskingLosesNothing(ext, a, x);
    MaskingLosesNothing(ext, b, y);
    ReadIdUndoes(ext, x);
    ReadIdUndoes(ext, y);
    Unflagged(x, ext);
    Unflagged(y, ext);
    hide *;
  }

  lemma Unflagged(id: bv32, ext: bool)
    requires if ext then id <= 0x1FFFFFFF else id <= 0x7FF
    ensures WithExtended(id, ext) & 0x7FFFFFFF == id
  {
  }

  // ----- the register image -----

  /** The registers loaded for a frame: identifier, length with the remote flag, data. */
  function Image(f: RawFrame): (r: seq<bv8>)
    requires f.dlc <= CAN_MAX_DLEN && f.dlc as nat <= 8
    ensures |r| == 5 + f.dlc as nat
  {
    IdBytes(IsExtended(f.canId), FrameId(f.canId)) + [DlcByte(f)] + f.data[..f.dlc as nat]
  }

  /** The identifier without the flags. */
  function FrameId(canId: bv32): bv32 {
    Significant(IsExtended(canId), canId)
  }

  function DlcByte(f: RawFrame): bv8 {
    if IsRemote(f.canId) then f.dlc | 0x40 else f.dlc
  }

  lemma DlcFits(dlc: bv8)
    ensures dlc <= CAN_MAX_DLEN <==> dlc as nat <= 8
  {
  }

  lemma ImageParts(f: RawFrame, image: seq<bv8>, head: seq<bv8>)
    requires f.dlc <= CAN_MAX_DLEN && f.dlc as nat <= 8
    requires head == IdBytes(IsExtended(f.canId), FrameId(f.canId)) && |head| == 4
    requires |image| == 5 + f.dlc as nat && image[4] == DlcByte(f)
    requires forall i :: 0 <= i < 4 ==> image[i] == head[i]
    requires forall i :: 0 <= i < f.dlc as nat ==> image[5 + i] == f.data[i]
    ensures image == Image(f)
  {
  }

  /** Fills the register image in place, as the driver does. */
  method BuildImage(frame: RawFrame) returns (image: seq<bv8>)
    requires frame.dlc <= CAN_MAX_DLEN && frame.dlc as nat <= 8
    ensures image == Image(frame)
  {
    hide *;
    var data := new bv8[13];
    var ext := IsExtended(frame.canId);
    var id := FrameId(frame.canId);
    var n := frame.dlc as nat;
    PrepareId(data, ext, id);
    ghost var head := data[..4];
    data[4] := DlcByte(frame);
    forall i | 0 <= i < n {
      data[5 + i] := frame.data[i];
    }
    image := data[..5 + n];
    ImageParts(frame, image, head);
  }

  // ----- the receive path undoes the send path -----

  function ReceivedId(header: seq<bv8>, ctrl: bv8): bv32
    requires |header| >= 4
  {
    WithRemote(ReadId(header), ctrl & 0x08 != 0)
  }

  function ReceivedDlc(header: seq<bv8>): bv8
    requires |header| >= 5
  {
    header[4] & 0x0F
  }

  /** An identifier word with no bit set outside its identifier and the two flags. */
  predicate WellFormedId(canId: bv32) {
    if IsExtended(canId) then canId & 0x20000000 == 0 else canId & 0x3FFFF800 == 0
  }

  lemma FrameIdFits(c: bv32)
    ensures if IsExtended(c) then FrameId(c) <= 0x1FFFFFFF else FrameId(c) <= 0x7FF
  {
  }

  lemma RestoreExtendedRemote(c: bv32)
    requires IsExtended(c) && c & 0x20000000 == 0 && IsRemote(c)
    ensures WithRemote(WithExtended(FrameId(c), true), true) == c
  {
  }

  lemma RestoreExtended(c: bv32)
    requires IsExtended(c) && c & 0x20000000 == 0 && !IsRemote(c)
    ensures WithRemote(WithExtended(FrameId(c), true), false) == c
  {
  }

  lemma RestoreStandardRemote(c: bv32)
    requires !IsExtended(c) && c & 0x3FFFF800 == 0 && IsRemote(c)
    ensures WithRemote(WithExtended(FrameId(c), false), true) == c
  {
  }

  lemma RestoreStandard(c: bv32)
    requires !IsExtended(c) && c & 0x3FFFF800 == 0 && !IsRemote(c)
    ensures WithRemote(WithExtended(FrameId(c), false), false) == c
  {
  }

  /** Masking and then setting the flags again restores a well-formed word. */
  lemma FlagsRestored(c: bv32)
    requires WellFormedId(c)
    ensures c == WithRemote(WithExtended(FrameId(c), IsExtended(c)), IsRemote(c))
  {
    hide FrameId;
    hide WithExtended;
    hide WithRemote;
    hide IsExtended;
    hide IsRemote;
    if IsExtended(c) {
      if IsRemote(c) {
        RestoreExtendedRemote(c);
      } else {
        RestoreExtended(c);
      }
    } else {
      if IsRemote(c) {
        RestoreStandardRemote(c);
      } else {
        RestoreStandard(c);
      }
    }
  }

  function WithExtended(id: bv32, ext: bool): bv32 { if ext then id | 0x80000000 else id }

  function WithRemote(id: bv32, remote: bool): bv32 { if remote then id | 0x40000000 else id }

  lemma DlcRestored(f: RawFrame)
    requires f.dlc <= CAN_MAX_DLEN
    ensures DlcByte(f) & 0x0F == f.dlc
  {
  }

  lemma ReadsFirstFour(header: seq<bv8>)
    requires |header| >= 4
    ensures ReadId(header) == ReadId(header[..4])
  {
    hide Rebuild;
  }

  lemma FlagsAre(c: bv32)
    ensures IsExtended(c) <==> c & 0x80000000 != 0
    ensures IsRemote(c) <==> c & 0x40000000 != 0
    ensures WellFormedId(c) <==> if c & 0x80000000 != 0 then c & 0x20000000 == 0 else c & 0x3FFFF800 == 0
  {
  }

  lemma ImageReadsBack(f: RawFrame, ctrl: bv8)
    requires f.dlc <= CAN_MAX_DLEN && f.dlc as nat <= 8 && WellFormedId(f.canId)
    requires ctrl & 0x08 != 0 <==> IsRemote(f.canId)
    ensures ReceivedId(Image(f)[..5], ctrl) == f.canId
    ensures ReceivedDlc(Image(f)[..5]) == f.dlc
    ensures Image(f)[5..] == f.data[..f.dlc as nat]
  {
    hide FrameId;
    hide DlcByte;
    hide WellFormedId;
    hide IdBytes;
    hide ReadId;
    hide WithExtended;
    hide WithRemote;
    hide IsExtended;
    hide IsRemote;
    var ext, id := IsExtended(f.canId), FrameId(f.canId);
    FlagsRestored(f.canId);
    FrameIdFits(f.canId);
    ReadIdUndoes(ext, id);
    DlcRestored(f);
    var image := Image(f);
    assert image[..5][..4] == IdBytes(ext, id);
    assert image[..5][4] == DlcByte(f);
    ReadsFirstFour(image[..5]);
  }

  /** Every frame of at most eight bytes whose identifier word is well formed survives the
      registers: what the receive path reads is the frame that was loaded, the remote flag
      being reported by the receiving buffer's control register. */
  lemma RegisterRoundTrip(f: RawFrame, ctrl: bv8)
    requires f.dlc <= CAN_MAX_DLEN && f.dlc as nat <= 8
    requires if f.canId & 0x80000000 != 0 then f.canId & 0x20000000 == 0 else f.canId & 0x3FFFF800 == 0
    requires ctrl & 0x08 != 0 <==> f.canId & 0x40000000 != 0
    ensures ReceivedId(Image(f)[..5], ctrl) == f.canId
    ensures ReceivedDlc(Image(f)[..5]) == f.dlc
    ensures Image(f)[5..] == f.data[..f.dlc as nat]
  {
    hide Image;
    hide ReceivedId;
    hide ReceivedDlc;
    hide WellFormedId;
    hide IsRemote;
    FlagsAre(f.canId);
    ImageReadsBack(f, ctrl);
  }

  // ----- what the chip puts on the wire -----

  /** A frame as it appears on the wire; a remote frame carries no data. */
  datatype WireFrame = WireFrame(extended: bool, identifier: bv32, remote: bool, length: bv8, data: seq<bv8>)

  /** How the chip reads the registers of a transmit buffer, from SIDH to the last data byte:
      the upper eleven bits of the identifier in SIDH and the top of SIDL, bit 3 of SIDL for an
      extended identifier, whose lower 18 bits are the bottom of SIDL, EID8 and EID0, bit 6 of
      DLC for a remote frame and its lower half for the length. */
  function OnWire(load: seq<bv8>): WireFrame
    requires |load| == 13
  {
    var remote, length := load[4] & 0x40 != 0, load[4] & 0x0F;
    WireFrame(load[1] & 0x08 != 0, WireId(load[0], load[1], load[2], load[3]), remote, length,
              if remote then [] else load[5..5 + DataLength(length)])
  }

  function WireId(sidh: bv8, sidl: bv8, eid8: bv8, eid0: bv8): bv32 {
    var standard := ((sidh as bv32) << 3) | ((sidl as bv32) >> 5);
    if sidl & 0x08 != 0 then
      (standard << 18) | (((sidl & 0x03) as bv32) << 16) | ((eid8 as bv32) << 8) | (eid0 as bv32)
    else standard
  }

  function DataLength(length: bv8): (n: nat)
    ensures n <= 8
  {
    if length <= 8 then length as nat else 8
  }

  lemma WireIdExtended(id: bv32)
    requires id <= 0x1FFFFFFF
    ensures Sidl(Byte(id >> 18), Byte(id >> 16)) & 0x08 != 0
    ensures WireId(Byte(id >> 21), Sidl(Byte(id >> 18), Byte(id >> 16)), Byte(id >> 8), Byte(id)) == id
  {
  }

  lemma WireIdStandard(id: bv32)
    requires id <= 0x7FF
    ensures (Byte(id) << 5) & 0x08 == 0
    ensures WireId(Byte(id >> 3), Byte(id) << 5, 0, 0) == id
  {
  }

  lemma WireIdUndoes(ext: bool, id: bv32)
    requires if ext then id <= 0x1FFFFFFF else id <= 0x7FF
    ensures var b := IdBytes(ext, id); WireId(b[0], b[1], b[2], b[3]) == id && (b[1] & 0x08 != 0) == ext
  {
    if ext {
      WireIdExtended(id);
    } else {
      WireIdStandard(id);
    }
    hide Byte;
    hide Sidl;
    hide WireId;
  }

  /** The length register: the length, and bit 6 exactly for a remote frame. */
  lemma DlcBits(f: RawFrame)
    requires f.dlc <= CAN_MAX_DLEN
    ensures DlcByte(f) & 0x0F == f.dlc && DlcByte(f) & 0xB0 == 0
    ensures DlcByte(f) & 0x40 != 0 <==> f.canId & 0x40000000 != 0
  {
  }

  lemma LoadParts(f: RawFrame, load: seq<bv8>)
    requires f.dlc <= CAN_MAX_DLEN && f.dlc as nat <= 8 && |load| == 13 && Image(f) <= load
    ensures load[..4] == IdBytes(IsExtended(f.canId), FrameId(f.canId)) && load[4] == DlcByte(f)
    ensures load[5..5 + f.dlc as nat] == f.data[..f.dlc as nat]
  {
    hide IdBytes;
    hide FrameId;
    hide DlcByte;
    hide IsExtended;
    var image := Image(f);
    assert load[..4] == image[..4] && load[4] == image[4];
    assert load[5..5 + f.dlc as nat] == image[5..];
  }

  lemma FrameIdMasked(c: bv32)
    ensures FrameId(c) == if c & 0x80000000 != 0 then c & 0x1FFFFFFF else c & 0x7FF
    ensures IsExtended(c) <==> c & 0x80000000 != 0
  {
  }

  /** Bits without a meaning are loaded as zeros. */
  lemma UnusedBits(ext: bool, id: bv32)
    ensures var b := IdBytes(ext, id); b[1] & 0x14 == 0 && (!ext ==> b[1] & 0x1F == 0 && b[2] == 0 && b[3] == 0)
  {
  }

  lemma OnWireParts(load: seq<bv8>, head: seq<bv8>)
    requires |load| == 13 && |head| == 4 && load[..4] == head
    ensures var w := OnWire(load);
            && (w.extended <==> head[1] & 0x08 != 0) && w.identifier == WireId(head[0], head[1], head[2], head[3])
            && (w.remote <==> load[4] & 0x40 != 0) && w.length == load[4] & 0x0F
            && w.data == if w.remote then [] else load[5..5 + DataLength(w.length)]
  {
    hide WireId;
    forall i | 0 <= i < 4 ensures load[i] == head[i] {
      assert load[i] == load[..4][i];
    }
  }

  lemma LoadedHead(f: RawFrame, load: seq<bv8>)
    requires f.dlc <= CAN_MAX_DLEN && f.dlc as nat <= 8 && |load| == 13 && Image(f) <= load
    ensures OnWire(load).extended == IsExtended(f.canId) && OnWire(load).identifier == FrameId(f.canId)
    ensures OnWire(load).remote <==> load[4] & 0x40 != 0
    ensures OnWire(load).length == load[4] & 0x0F
    ensures OnWire(load).data == if OnWire(load).remote then [] else load[5..5 + DataLength(load[4] & 0x0F)]
    ensures load[1] & 0x14 == 0
    ensures IsExtended(f.canId) || (load[1] & 0x1F == 0 && load[2] == 0 && load[3] == 0)
  {
    hide *;
    FrameIdFits(f.canId);
    UnusedBits(IsExtended(f.canId), FrameId(f.canId));
    WireIdUndoes(IsExtended(f.canId), FrameId(f.canId));
    LoadParts(f, load);
    OnWireParts(load, IdBytes(IsExtended(f.canId), FrameId(f.canId)));
  }

  /** What is loaded for a frame is that frame on the wire: identifier and format, remote flag,
      length and data; bits without a meaning are zeros. */
  lemma LoadedIsSent(f: RawFrame, load: seq<bv8>)
    requires f.dlc <= CAN_MAX_DLEN && f.dlc as nat <= 8 && |load| == 13 && Image(f) <= load
    ensures load[1] & 0x14 == 0 && load[4] & 0xB0 == 0
    ensures f.canId & 0x80000000 != 0 || (load[1] & 0x1F == 0 && load[2] == 0 && load[3] == 0)
    ensures OnWire(load).extended <==> f.canId & 0x80000000 != 0
    ensures OnWire(load).identifier == if f.canId & 0x80000000 != 0 then f.canId & 0x1FFFFFFF else f.canId & 0x7FF
    ensures OnWire(load).remote <==> f.canId & 0x40000000 != 0
    ensures OnWire(load).length == f.dlc
    ensures OnWire(load).data == if f.canId & 0x40000000 != 0 then [] else f.data[..f.dlc as nat]
  {
    hide Image;
    hide OnWire;
    hide FrameId;
    hide IsExtended;
    hide DlcByte;
    FrameIdMasked(f.canId);
    DlcBits(f);
    LoadParts(f, load);
    LoadedHead(f, load);
  }
}
