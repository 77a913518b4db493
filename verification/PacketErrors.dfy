/** What the check word of an accepted packet detects, stated on the bytes on the air. */
module PacketErrors {
  import opened Gf2
  import opened Crc
  import opened RemoteProtocol
  import opened ErrorDetection

  /** Everything but the two check bytes. */
  function Data(p: seq<bv8>): seq<bv8>
    requires |p| >= 2
  {
    p[..|p| - 2]
  }

  function CheckWord(p: seq<bv8>): bv16
    requires |p| >= 2
  {
    Join(p[|p| - 2], p[|p| - 1])
  }

  /** The bits in which two packets differ, in the order they are sent. */
  function Flips(p: seq<bv8>, q: seq<bv8>): (r: Bits)
    requires |p| == |q|
    ensures |r| == 8 * |p|
  {
    Xor(BytesBits(p), BytesBits(q))
  }

  function CheckFlips(p: seq<bv8>, q: seq<bv8>): Register
    requires |p| == |q| >= 2
  {
    Xor(WordBits(CheckWord(p)), WordBits(CheckWord(q)))
  }

  lemma XorAppend(a: Bits, b: Bits, c: Bits, d: Bits)
    requires |a| == |c| && |b| == |d|
    ensures Xor(a + b, c + d) == Xor(a, c) + Xor(b, d)
  {
  }

  lemma XorAppendThree(a: Bits, b: Bits, c: Bits, x: Bits, y: Bits, z: Bits)
    requires |a| == |x| && |b| == |y| && |c| == |z|
    ensures Xor(a + (b + c), x + (y + z)) == Xor(a, x) + Xor(b, y) + Xor(c, z)
  {
  }

  lemma WeightSwap(a: Bits, b: Bits)
    ensures Weight(a + b) == Weight(b + a)
  {
    WeightAppend(a, b);
    WeightAppend(b, a);
  }

  lemma JoinBits(low: bv8, high: bv8)
    ensures WordBits(Join(low, high)) == ByteBits(high) + ByteBits(low)
  {
  }

  lemma TwoBytesBits(x: bv8, y: bv8)
    ensures BytesBits([x, y]) == ByteBits(x) + ByteBits(y)
  {
  }

  lemma SplitLastTwo<T>(s: seq<T>)
    requires |s| >= 2
    ensures s == s[..|s| - 2] + [s[|s| - 2], s[|s| - 1]]
  {
  }

  lemma PacketBits(p: seq<bv8>)
    requires |p| >= 2
    ensures BytesBits(p) == BytesBits(Data(p)) + (ByteBits(p[|p| - 2]) + ByteBits(p[|p| - 1]))
  {
    hide ByteBits;
    hide BytesBits;
    var n := |p| - 2;
    SplitLastTwo(p);
    BytesBitsAppend(Data(p), [p[n], p[n + 1]]);
    TwoBytesBits(p[n], p[n + 1]);
  }

  /** The check bytes are sent low byte first, which moves their bits but loses none. */
  lemma FlipsWeight(p: seq<bv8>, q: seq<bv8>)
    requires |p| == |q| >= 2
    ensures Weight(Flips(p, q)) == Weight(Flips(Data(p), Data(q))) + Weight(CheckFlips(p, q))
  {
    hide *;
    var n := |p| - 2;
    var lowP, highP, lowQ, highQ := ByteBits(p[n]), ByteBits(p[n + 1]), ByteBits(q[n]), ByteBits(q[n + 1]);
    PacketBits(p);
    PacketBits(q);
    assert |Data(p)| == n == |Data(q)| by { DataLength(p); DataLength(q); }
    FlipsDef(p, q);
    FlipsDef(Data(p), Data(q));
    XorAppend(BytesBits(Data(p)), lowP + highP, BytesBits(Data(q)), lowQ + highQ);
    XorAppend(lowP, highP, lowQ, highQ);
    WeightAppend(Xor(BytesBits(Data(p)), BytesBits(Data(q))), Xor(lowP, lowQ) + Xor(highP, highQ));
    CheckFlipsBits(p, q);
    WeightSwap(Xor(lowP, lowQ), Xor(highP, highQ));
  }

  lemma DataLength(p: seq<bv8>)
    requires |p| >= 2
    ensures |Data(p)| == |p| - 2
  {
  }

  lemma FlipsDef(p: seq<bv8>, q: seq<bv8>)
    requires |p| == |q|
    ensures Flips(p, q) == Xor(BytesBits(p), BytesBits(q))
  {
  }

  lemma CheckFlipsBits(p: seq<bv8>, q: seq<bv8>)
    requires |p| == |q| >= 2
    ensures CheckFlips(p, q) == Xor(ByteBits(p[|p| - 1]), ByteBits(q[|p| - 1]))
                              + Xor(ByteBits(p[|p| - 2]), ByteBits(q[|p| - 2]))
  {
    var n := |p| - 2;
    JoinBits(p[n], p[n + 1]);
    JoinBits(q[n], q[n + 1]);
    XorAppend(ByteBits(p[n + 1]), ByteBits(p[n]), ByteBits(q[n + 1]), ByteBits(q[n]));
  }

  /** Whether a packet passes every check but the last. */
  predicate WellFramed(p: seq<bv8>) {
    Parse(p).Accepted? || Parse(p) == Rejected(CrcMismatch)
  }

  lemma CheckDecides(p: seq<bv8>)
    requires WellFramed(p)
    ensures 12 <= |p| <= 76
    ensures Parse(p).Accepted? <==> CheckWord(p) == Crc16(Data(p))
  {
  }

  lemma CheckDecidesBits(p: seq<bv8>)
    requires WellFramed(p)
    ensures |p| >= 2
    ensures Parse(p).Accepted? <==> WordBits(CheckWord(p)) == Feed(ONES, BytesBits(Data(p)))
  {
    hide *;
    CheckDecides(p);
    CrcFeeds(Data(p));
    if WordBits(CheckWord(p)) == WordBits(Crc16(Data(p))) {
      WordBitsInjective(CheckWord(p), Crc16(Data(p)));
    }
  }

  /** Exactly which changes of an accepted packet go unseen: those that keep its framing
      and whose change of the check word is the register fed with the change of the data. */
  lemma UnseenChangeIff(p: seq<bv8>, q: seq<bv8>)
    requires Parse(p).Accepted? && |q| == |p| && WellFramed(q)
    ensures |p| >= 2
    ensures Parse(q).Accepted? <==> CheckFlips(p, q) == Feed(ZERO, Flips(Data(p), Data(q)))
  {
    CheckDecidesBits(p);
    CheckDecidesBits(q);
    FeedLinear(ONES, BytesBits(Data(p)), ONES, BytesBits(Data(q)));
    assert Xor(ONES, ONES) == ZERO;
    XorCancels(WordBits(CheckWord(p)), WordBits(CheckWord(q)), Feed(ONES, BytesBits(Data(q))));
  }

  lemma XorCancels(a: Register, b: Register, c: Register)
    ensures Xor(a, b) == Xor(a, c) <==> b == c
  {
  }

  lemma SameDataSameFlips(p: seq<bv8>, q: seq<bv8>)
    requires |p| == |q|
    ensures p == q <==> Flips(p, q) == Zeros(8 * |p|)
  {
    if Flips(p, q) == Zeros(8 * |p|) {
      forall k | 0 <= k < 8 * |p| ensures BytesBits(p)[k] == BytesBits(q)[k] {
        assert !Flips(p, q)[k];
      }
      BytesBitsInjective(p, q);
    }
  }

  /** Two accepted packets with the same data are the same packet. */
  lemma DataDecides(p: seq<bv8>, q: seq<bv8>)
    requires Parse(p).Accepted? && Parse(q).Accepted? && |p| == |q|
    ensures |p| >= 2
    ensures Data(p) == Data(q) ==> p == q
  {
    hide Parse;
    hide Crc16;
    assert WellFramed(p) && WellFramed(q);
    CheckDecides(p);
    CheckDecides(q);
    CheckBytes(p);
    CheckBytes(q);
  }

  lemma CheckBytes(p: seq<bv8>)
    requires |p| >= 2
    ensures p == Data(p) + [Low(CheckWord(p)), High(CheckWord(p))]
  {
  }

  /** Two different accepted packets of one length differ in at least four bits, and in an
      even number of bits: any one, two or three flipped bits, and any odd number of them,
      anywhere in a packet, are detected. */
  lemma MinimumDistance(p: seq<bv8>, q: seq<bv8>)
    requires Parse(p).Accepted? && Parse(q).Accepted? && |p| == |q|
    ensures Weight(Flips(p, q)) % 2 == 0
    ensures p != q ==> Weight(Flips(p, q)) >= 4
  {
    CheckDecides(p);
    UnseenChangeIff(p, q);
    FlipsWeight(p, q);
    Distance(Flips(Data(p), Data(q)), CheckFlips(p, q));
    SameDataSameFlips(Data(p), Data(q));
    if Data(p) == Data(q) {
      DataDecides(p, q);
    }
  }

  /** Every accepted packet has an even number of one bits. */
  lemma EvenWeight(p: seq<bv8>)
    requires Parse(p).Accepted?
    ensures Weight(BytesBits(p)) % 2 == 0
  {
    hide Parse;
    assert WellFramed(p);
    CheckDecidesBits(p);
    CheckWordBits(p);
    PacketBits(p);
    EvenCodeWord(BytesBits(Data(p)), ByteBits(p[|p| - 2]), ByteBits(p[|p| - 1]));
  }

  lemma EvenCodeWord(data: Bits, low: Bits, high: Bits)
    requires Feed(ONES, data) == high + low
    ensures Weight(data + (low + high)) % 2 == 0
  {
    OnesWeight();
    FeedParity(ONES, data);
    WeightAppend(data, low + high);
    WeightSwap(low, high);
  }

  lemma CheckWordBits(p: seq<bv8>)
    requires |p| >= 2
    ensures WordBits(CheckWord(p)) == ByteBits(p[|p| - 1]) + ByteBits(p[|p| - 2])
  {
    JoinBits(p[|p| - 2], p[|p| - 1]);
  }

  lemma OnesWeight()
    ensures Weight(ONES) % 2 == 0
  {
    var half: Bits := seq(8, _ => true);
    assert ONES == half + half;
    WeightAppend(half, half);
  }

  lemma FlipsByParts(p: seq<bv8>, q: seq<bv8>)
    requires |p| == |q| >= 2
    ensures Flips(p, q) == Flips(Data(p), Data(q))
                         + Xor(ByteBits(p[|p| - 2]), ByteBits(q[|p| - 2]))
                         + Xor(ByteBits(p[|p| - 1]), ByteBits(q[|p| - 1]))
  {
    var n := |p| - 2;
    PacketBits(p);
    PacketBits(q);
    XorAppendThree(BytesBits(Data(p)), ByteBits(p[n]), ByteBits(p[n + 1]),
                   BytesBits(Data(q)), ByteBits(q[n]), ByteBits(q[n + 1]));
  }

  /** A change that leaves the check bytes alone shows the same in the data. */
  lemma FlipsOfData(p: seq<bv8>, q: seq<bv8>)
    requires |q| == |p| >= 2
    requires forall k :: 8 * (|p| - 2) <= k < 8 * |p| ==> !Flips(p, q)[k]
    ensures CheckFlips(p, q) == ZERO
    ensures Flips(p, q) == Flips(Data(p), Data(q)) + Zeros(16)
  {
    var n := |p| - 2;
    FlipsByParts(p, q);
    CheckFlipsBits(p, q);
    NoTailFlips(Flips(Data(p), Data(q)), Xor(ByteBits(p[n]), ByteBits(q[n])),
                Xor(ByteBits(p[n + 1]), ByteBits(q[n + 1])));
  }

  lemma NoTailFlips(data: Bits, low: Bits, high: Bits)
    requires |low| == |high| == 8
    requires forall k :: |data| <= k < |data| + 16 ==> !(data + low + high)[k]
    ensures low == high == Zeros(8) && high + low == ZERO
    ensures data + low + high == data + Zeros(16)
  {
    forall k | 0 <= k < 8 ensures !low[k] && !high[k] {
      assert !(data + low + high)[|data| + k];
      assert !(data + low + high)[|data| + 8 + k];
    }
  }

  /** A change confined to at most 16 consecutive bits of the header and payload is detected. */
  lemma BurstDetected(p: seq<bv8>, q: seq<bv8>, start: nat)
    requires Parse(p).Accepted? && |q| == |p| && q != p
    requires forall k :: 0 <= k < 8 * |p| && Flips(p, q)[k] ==>
               start <= k < start + 16 && k < 8 * (|p| - CRC_SIZE)
    ensures !Parse(q).Accepted?
  {
    if Parse(q).Accepted? {
      UnseenChangeIff(p, q);
      FlipsOfData(p, q);
      var data, check := Flips(Data(p), Data(q)), CheckFlips(p, q);
      UnseenBurstIsEmpty(data, check, start);
      SameDataSameFlips(Data(p), Data(q));
      DataDecides(p, q);
    }
  }

  /** Changing any one byte of an accepted packet, check bytes included, is detected. */
  lemma ByteChangeDetected(p: seq<bv8>, i: nat, x: bv8)
    requires Parse(p).Accepted? && i < |p| && x != p[i]
    ensures !Parse(p[i := x]).Accepted?
  {
    var q := p[i := x];
    if Parse(q).Accepted? {
      if i >= |p| - 2 {
        DataDecides(p, q);
      } else {
        ByteFlips(p, q, i);
        BurstDetected(p, q, 8 * i);
      }
    }
  }

  lemma ByteFlips(p: seq<bv8>, q: seq<bv8>, i: nat)
    requires i < |p| == |q| && q == p[i := q[i]]
    ensures forall k :: 0 <= k < 8 * |p| && Flips(p, q)[k] ==> 8 * i <= k < 8 * i + 8
  {
    var tail := p[i + 1..];
    assert p == p[..i] + ([p[i]] + tail);
    assert q == p[..i] + ([q[i]] + tail);
    BytesBitsAppend(p[..i], [p[i]] + tail);
    BytesBitsAppend(p[..i], [q[i]] + tail);
    BytesBitsAppend([p[i]], tail);
    BytesBitsAppend([q[i]], tail);
  }

  /** The packet with the last bit before the check bytes flipped, and the check bytes
      changed by 0x21 and 0x10. */
  function Straddled(p: seq<bv8>): (q: seq<bv8>)
    requires |p| >= 3
    ensures |q| == |p|
  {
    p[..|p| - 3] + [p[|p| - 3] ^ 0x01, p[|p| - 2] ^ 0x21, p[|p| - 1] ^ 0x10]
  }

  lemma StraddledFraming(p: seq<bv8>)
    requires Parse(p).Accepted? && Parse(p).message.payloadLength != 0
    ensures |p| > 12 && WellFramed(Straddled(p))
  {
  }

  lemma UpperXor(x: bv8, y: bv8)
    ensures Upper(x) ^ Upper(x ^ y) == Upper(y)
  {
  }

  lemma ByteBitsXor(x: bv8, y: bv8)
    ensures Xor(ByteBits(x), ByteBits(x ^ y)) == ByteBits(y)
  {
    hide Upper;
    hide Bit;
    UpperXor(x, y);
    WordXor(Upper(x), Upper(x ^ y));
    var a, b := WordBits(Upper(x)), WordBits(Upper(x ^ y));
    assert Xor(a[..8], b[..8]) == Xor(a, b)[..8];
  }

  lemma StraddledBits()
    ensures ByteBits(0x01) == Zeros(7) + [true]
    ensures forall k :: 0 <= k < 8 && ByteBits(0x10)[k] ==> k == 3
    ensures ByteBits(0x10) + ByteBits(0x21) == FEEDBACK
  {
  }

  lemma StraddledFlips(p: seq<bv8>)
    requires |p| >= 3
    ensures Flips(Data(p), Data(Straddled(p))) == Zeros(8 * |p| - 17) + [true]
    ensures CheckFlips(p, Straddled(p)) == FEEDBACK
    ensures Flips(p, Straddled(p)) == Zeros(8 * |p| - 17) + [true] + ByteBits(0x21) + ByteBits(0x10)
  {
    StraddledBits();
    StraddledData(p);
    StraddledCheck(p);
    hide *;
    FlipsByParts(p, Straddled(p));
    CheckFlipsBits(p, Straddled(p));
  }

  lemma StraddledCheck(p: seq<bv8>)
    requires |p| >= 3
    ensures Xor(ByteBits(p[|p| - 2]), ByteBits(Straddled(p)[|p| - 2])) == ByteBits(0x21)
    ensures Xor(ByteBits(p[|p| - 1]), ByteBits(Straddled(p)[|p| - 1])) == ByteBits(0x10)
  {
    hide ByteBits;
    ByteBitsXor(p[|p| - 2], 0x21);
    ByteBitsXor(p[|p| - 1], 0x10);
  }

  lemma StraddledData(p: seq<bv8>)
    requires |p| >= 3
    ensures Flips(Data(p), Data(Straddled(p))) == Zeros(8 * |p| - 17) + [true]
  {
    var q, n := Straddled(p), |p| - 2;
    assert Data(p)[..n - 1] == Data(q)[..n - 1];
    LastByteBits(Data(p));
    LastByteBits(Data(q));
    LastByteChange(p[n - 1]);
    SamePrefix(BytesBits(Data(p)[..n - 1]), ByteBits(p[n - 1]), ByteBits(q[n - 1]));
  }

  lemma LastByteChange(x: bv8)
    ensures Xor(ByteBits(x), ByteBits(x ^ 0x01)) == Zeros(7) + [true]
  {
  }

  lemma SamePrefix(bits: Bits, a: Bits, b: Bits)
    requires |a| == |b| == 8 && Xor(a, b) == Zeros(7) + [true]
    ensures Xor(bits + a, bits + b) == Zeros(|bits| + 7) + [true]
  {
  }

  lemma LastByteBits(s: seq<bv8>)
    requires |s| >= 1
    ensures BytesBits(s) == BytesBits(s[..|s| - 1]) + ByteBits(s[|s| - 1])
  {
    hide ByteBits;
    assert s == s[..|s| - 1] + [s[|s| - 1]];
    BytesBitsAppend(s[..|s| - 1], [s[|s| - 1]]);
    BytesBitsOne(s[|s| - 1]);
  }

  /** A burst across the boundary between payload and check bytes can go unseen, because the
      check bytes are sent low byte first: these 13 consecutive bits do, in every accepted
      packet that has a payload. */
  lemma StraddlingBurstUnseen(p: seq<bv8>)
    requires Parse(p).Accepted? && Parse(p).message.payloadLength != 0
    ensures |p| > 12 && Parse(Straddled(p)).Accepted? && Straddled(p) != p
    ensures forall k :: 0 <= k < 8 * |p| && Flips(p, Straddled(p))[k] ==> 8 * |p| - 17 <= k < 8 * |p| - 4
  {
    hide Parse;
    hide ByteBits;
    StraddledFraming(p);
    var q := Straddled(p);
    StraddledFlips(p);
    StraddledBits();
    UnseenChangeIff(p, q);
    FeedZeros(8 * |p| - 17);
    FeedLast(ZERO, Zeros(8 * |p| - 17), true);
    assert Step(ZERO, true) == FEEDBACK;
    SameDataSameFlips(p, q);
    assert Flips(p, q)[8 * |p| - 17];
  }
}
