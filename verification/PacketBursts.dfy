/** Bursts anywhere in a packet. The check bytes are sent low byte first, so a burst across the
    boundary of payload and check bytes is not a burst of the code; here it is said exactly
    which of them go unseen. */
module PacketBursts {
  import opened Gf2
  import opened Crc
  import opened RemoteProtocol
  import opened PacketErrors

  /** What a change did to the last two bytes of a string. */
  function EndFlips(p: seq<bv8>, q: seq<bv8>): bv16
    requires |p| == |q| >= 2
  {
    Join(p[|p| - 1] ^ q[|p| - 1], p[|p| - 2] ^ q[|p| - 2])
  }

  /** What it did to the last two bytes before the check bytes. */
  function LastFlips(p: seq<bv8>, q: seq<bv8>): bv16
    requires |p| == |q| >= 4
  {
    EndFlips(Data(p), Data(q))
  }

  /** What it did to the check bytes, in the order they are sent. */
  function SentFlips(p: seq<bv8>, q: seq<bv8>): bv16
    requires |p| == |q| >= 4
  {
    EndFlips(p, q)
  }

  /** The twelve bursts of at most 16 bits that the check word accounts for: the last two bytes
      before the check bytes, and the check bytes as they are sent. */
  predicate UnseenBurst(d: bv16, a: bv16) {
    || (d == 0x0001 && a == 0x2110)
    || (d == 0x0002 && a == 0x4220)
    || (d == 0x0003 && a == 0x6330)
    || (d == 0x0004 && a == 0x8440)
    || (d == 0x0005 && a == 0xA550)
    || (d == 0x0006 && a == 0xC660)
    || (d == 0x0007 && a == 0xE770)
    || (d == 0x0089 && a == 0xA100)
    || (d == 0x0235 && a == 0x9400)
    || (d == 0x08C5 && a == 0x4000)
    || (d == 0x118A && a == 0x8000)
    || (d == 0x194F && a == 0xC000)
  }

  // ----- the bits as words -----

  /** The m most significant bits. */
  function TopMask(m: nat): bv16
    requires m <= 16
  {
    if m == 0 then 0x0000
    else if m == 1 then 0x8000
    else if m == 2 then 0xC000
    else if m == 3 then 0xE000
    else if m == 4 then 0xF000
    else if m == 5 then 0xF800
    else if m == 6 then 0xFC00
    else if m == 7 then 0xFE00
    else if m == 8 then 0xFF00
    else if m == 9 then 0xFF80
    else if m == 10 then 0xFFC0
    else if m == 11 then 0xFFE0
    else if m == 12 then 0xFFF0
    else if m == 13 then 0xFFF8
    else if m == 14 then 0xFFFC
    else if m == 15 then 0xFFFE
    else 0xFFFF
  }

  lemma TopClearNext(d: bv16, m: nat)
    requires m < 16 && d & TopMask(m) == 0 && !Bit(d, m)
    ensures d & TopMask(m + 1) == 0
  {
  }

  lemma {:induction false} TopClear(d: bv16, m: nat)
    requires m <= 16 && forall k :: 0 <= k < m ==> !Bit(d, k)
    ensures d & TopMask(m) == 0
  {
    if m != 0 {
      TopClear(d, m - 1);
      TopClearNext(d, m - 1);
    }
  }

  lemma BottomClearNext(a: bv16, m: nat)
    requires m < 16 && a & !TopMask(m + 1) == 0 && !Bit(a, m)
    ensures a & !TopMask(m) == 0
  {
  }

  lemma {:induction false} BottomClear(a: bv16, m: nat)
    requires m <= 16 && forall k :: m <= k < 16 ==> !Bit(a, k)
    ensures a & !TopMask(m) == 0
    decreases 16 - m
  {
    if m < 16 {
      BottomClear(a, m + 1);
      BottomClearNext(a, m);
    }
  }

  function Swap(a: bv16): bv16 { (a << 8) | (a >> 8) }

  lemma Unseen1To5(d: bv16, a: bv16, m: nat)
    requires 1 <= m < 5 && d & TopMask(m) == 0 && a & !TopMask(m) == 0
    ensures Swap(a) == Shift16(d) <==> UnseenBurst(d, a) || (d == 0 && a == 0)
  {
  }

  lemma Unseen5To9(d: bv16, a: bv16, m: nat)
    requires 5 <= m < 9 && d & TopMask(m) == 0 && a & !TopMask(m) == 0
    ensures Swap(a) == Shift16(d) <==> UnseenBurst(d, a) || (d == 0 && a == 0)
  {
  }

  /** What shifting leaves of a word that is one byte. */
  function Mixed(d: bv16): bv16 {
    var t := d ^ (d >> 4);
    (t << 12) ^ (t << 5) ^ t
  }

  lemma ShiftedByte(d: bv16)
    requires d & 0xFF00 == 0
    ensures Shift16(d) == Mixed(d)
  {
  }

  lemma Unseen9To16(d: bv16, a: bv16, m: nat)
    requires 9 <= m < 16 && d & TopMask(m) == 0 && a & !TopMask(m) == 0
    ensures Swap(a) == Mixed(d) <==> UnseenBurst(d, a) || (d == 0 && a == 0)
  {
  }

  lemma OneByte(d: bv16, m: nat)
    requires 9 <= m < 16 && d & TopMask(m) == 0
    ensures d & 0xFF00 == 0
  {
  }

  /** A burst that begins m bits into the last two bytes. */
  lemma UnseenIff(d: bv16, a: bv16, m: nat)
    requires 1 <= m < 16 && d & TopMask(m) == 0 && a & !TopMask(m) == 0
    ensures Swap(a) == Shift16(d) <==> UnseenBurst(d, a) || (d == 0 && a == 0)
  {
    hide Shift16;
    hide UnseenBurst;
    hide Swap;
    hide TopMask;
    hide Mixed;
    if m < 5 {
      Unseen1To5(d, a, m);
    } else if m < 9 {
      Unseen5To9(d, a, m);
    } else {
      OneByte(d, m);
      ShiftedByte(d);
      Unseen9To16(d, a, m);
    }
  }

  lemma UnseenIsSplit(d: bv16, a: bv16)
    requires UnseenBurst(d, a)
    ensures d != 0 && a != 0
  {
  }

  /** Feeding the empty register 16 bits is putting them in and feeding zeros. */
  lemma FeedAsContents(r: Register)
    ensures Feed(ZERO, r) == Feed(r, Zeros(16))
  {
    FeedOwn(r, 16);
    assert r[..16] == r && r[16..] + Zeros(16) == ZERO;
    FeedLinear(r, Zeros(16), r, r);
    SelfXor(r);
    SelfXor(Feed(r, Zeros(16)));
    hide Feed;
  }

  lemma SelfXor(r: Register)
    ensures Xor(r, r) == ZERO && Xor(Zeros(16), r) == r && Xor(r, ZERO) == r
  {
  }

  lemma FeedWord(d: bv16)
    ensures Feed(ZERO, WordBits(d)) == WordBits(Shift16(d))
  {
    hide Shift16;
    hide WordBits;
    FeedAsContents(WordBits(d));
    ShiftsFeedZeros(d, 16);
    Sixteen(d);
  }

  // ----- a change of a packet, its last bytes as words -----

  lemma XorBack(x: bv8, y: bv8)
    ensures x ^ (x ^ y) == y
  {
  }

  lemma ByteFlipBits(x: bv8, y: bv8)
    ensures Xor(ByteBits(x), ByteBits(y)) == ByteBits(x ^ y)
  {
    hide ByteBits;
    XorBack(x, y);
    ByteBitsXor(x, x ^ y);
  }

  lemma SwapJoin(p0: bv8, p1: bv8, q0: bv8, q1: bv8)
    ensures Join(p0, p1) ^ Join(q0, q1) == Swap(Join(p1 ^ q1, p0 ^ q0))
  {
  }

  lemma CheckFlipsWord(p: seq<bv8>, q: seq<bv8>)
    requires |p| == |q| >= 4
    ensures CheckFlips(p, q) == WordBits(Swap(SentFlips(p, q)))
  {
    hide WordBits;
    hide Join;
    hide Swap;
    WordXor(CheckWord(p), CheckWord(q));
    SwapJoin(p[|p| - 2], p[|p| - 1], q[|p| - 2], q[|p| - 1]);
  }

  lemma TwoByteFlips(x0: bv8, x1: bv8, y0: bv8, y1: bv8)
    ensures Xor(ByteBits(x0), ByteBits(y0)) + Xor(ByteBits(x1), ByteBits(y1)) == WordBits(Join(x1 ^ y1, x0 ^ y0))
  {
    hide ByteBits;
    hide Join;
    ByteFlipBits(x0, y0);
    ByteFlipBits(x1, y1);
    JoinBits(x1 ^ y1, x0 ^ y0);
  }

  lemma FlipsEndInWord(p: seq<bv8>, q: seq<bv8>)
    requires |p| == |q| >= 2
    ensures Flips(p, q) == Flips(Data(p), Data(q))
                         + WordBits(EndFlips(p, q))
  {
    hide ByteBits;
    hide WordBits;
    hide Join;
    hide Flips;
    FlipsByParts(p, q);
    TwoByteFlips(p[|p| - 2], p[|p| - 1], q[|p| - 2], q[|p| - 1]);
    Regroup(Flips(Data(p), Data(q)), Xor(ByteBits(p[|p| - 2]), ByteBits(q[|p| - 2])),
            Xor(ByteBits(p[|p| - 1]), ByteBits(q[|p| - 1])));
  }

  lemma Regroup(a: Bits, b: Bits, c: Bits)
    ensures a + b + c == a + (b + c)
  {
  }

  /** All flips: what lies before the last four bytes, then the two words. */
  lemma FlipsAsWords(p: seq<bv8>, q: seq<bv8>)
    requires |p| == |q| >= 4
    ensures |Data(p)| == |Data(q)| == |p| - 2 && |Data(Data(p))| == |Data(Data(q))| == |p| - 4
    ensures Flips(Data(p), Data(q)) == Flips(Data(Data(p)), Data(Data(q))) + WordBits(LastFlips(p, q))
    ensures Flips(p, q) == Flips(Data(p), Data(q)) + WordBits(SentFlips(p, q))
  {
    hide WordBits;
    hide EndFlips;
    hide Flips;
    FlipsEndInWord(p, q);
    FlipsEndInWord(Data(p), Data(q));
  }

  // ----- bursts -----

  lemma BurstAsWords(head: Bits, d: bv16, a: bv16, start: nat)
    requires |head| < start < |head| + 16
    requires forall k :: 0 <= k < |head| + 32 && (head + WordBits(d) + WordBits(a))[k] ==> start <= k < start + 16
    ensures head == Zeros(|head|)
    ensures var m := start - |head|; d & TopMask(m) == 0 && a & !TopMask(m) == 0
  {
    var all, m := head + WordBits(d) + WordBits(a), start - |head|;
    forall k | 0 <= k < |head| ensures !head[k] {
      assert !all[k];
    }
    forall k | 0 <= k < m ensures !Bit(d, k) {
      assert !all[|head| + k];
    }
    forall k | m <= k < 16 ensures !Bit(a, k) {
      assert !all[|head| + 16 + k];
    }
    TopClear(d, m);
    BottomClear(a, m);
  }

  lemma AcrossIff(p: seq<bv8>, q: seq<bv8>, start: nat)
    requires Parse(p).Accepted? && |q| == |p| && q != p && WellFramed(q)
    requires |p| >= 4 && 8 * |p| - 32 < start < 8 * |p| - 16
    requires forall k :: 0 <= k < 8 * |p| && Flips(p, q)[k] ==> start <= k < start + 16
    ensures Parse(q).Accepted? <==> UnseenBurst(LastFlips(p, q), SentFlips(p, q))
  {
    hide Parse;
    hide WellFramed;
    hide WordBits;
    hide LastFlips;
    hide SentFlips;
    hide Bit;
    hide Swap;
    hide Shift16;
    hide UnseenBurst;
    hide Flips;
    var d, a, head := LastFlips(p, q), SentFlips(p, q), Flips(Data(Data(p)), Data(Data(q)));
    FlipsAsWords(p, q);
    BurstAsWords(head, d, a, start);
    UnseenIff(d, a, start - |head|);
    UnseenChangeIff(p, q);
    FeedAppend(ZERO, head, WordBits(d));
    FeedZeros(|head|);
    FeedWord(d);
    CheckFlipsWord(p, q);
    if WordBits(Swap(a)) == WordBits(Shift16(d)) {
      WordBitsInjective(Swap(a), Shift16(d));
    }
    if d == 0 && a == 0 {
      NothingFlipped(head);
      SameDataSameFlips(p, q);
    }
  }

  lemma NothingFlipped(head: Bits)
    requires head == Zeros(|head|)
    ensures head + WordBits(0) + WordBits(0) == Zeros(|head| + 32)
  {
    forall k | 0 <= k < 16 ensures !Bit(0, k) {
    }
  }

  /** A change within 16 consecutive bits, wherever in the packet they lie, goes unseen if and
      only if it keeps the framing and is one of the twelve bursts across the boundary of the
      check bytes. In particular a change confined to the check bytes is always seen. */
  lemma BurstUnseenIff(p: seq<bv8>, q: seq<bv8>, start: nat)
    requires Parse(p).Accepted? && |q| == |p| && q != p
    requires forall k :: 0 <= k < 8 * |p| && Flips(p, q)[k] ==> start <= k < start + 16
    ensures |p| >= MIN_PACKET_SIZE
    ensures Parse(q).Accepted? <==> WellFramed(q) && UnseenBurst(LastFlips(p, q), SentFlips(p, q))
  {
    AcceptedSize(p);
    if WellFramed(q) {
      if start + 16 <= 8 * |p| - 16 {
        BurstDetected(p, q, start);
        NoneSent(p, q);
      } else if 8 * |p| - 16 <= start {
        CheckChangeDetected(p, q);
      } else {
        AcrossIff(p, q, start);
      }
    }
    hide Parse;
    hide UnseenBurst;
    hide LastFlips;
    hide SentFlips;
    hide Flips;
  }

  lemma AcceptedSize(p: seq<bv8>)
    requires Parse(p).Accepted?
    ensures |p| >= MIN_PACKET_SIZE
  {
  }

  lemma NoneSent(p: seq<bv8>, q: seq<bv8>)
    requires |p| == |q| >= 4
    requires forall k :: 8 * |p| - 16 <= k < 8 * |p| ==> !Flips(p, q)[k]
    ensures !UnseenBurst(LastFlips(p, q), SentFlips(p, q))
  {
    var d, a := LastFlips(p, q), SentFlips(p, q);
    FlipsAsWords(p, q);
    hide UnseenBurst;
    hide SentFlips;
    hide LastFlips;
    hide Flips;
    forall k | 0 <= k < 16 ensures !Bit(a, k) {
      assert !Flips(p, q)[8 * |p| - 16 + k];
    }
    NoBitsIsZero(a);
    if UnseenBurst(d, a) {
      UnseenIsSplit(d, a);
    }
  }

  /** A change confined to the two check bytes is always seen. */
  lemma CheckChangeDetected(p: seq<bv8>, q: seq<bv8>)
    requires Parse(p).Accepted? && |q| == |p| >= 4 && q != p
    requires forall k :: 0 <= k < 8 * |p| - 16 ==> !Flips(p, q)[k]
    ensures !Parse(q).Accepted? && !UnseenBurst(LastFlips(p, q), SentFlips(p, q))
  {
    var d, a := LastFlips(p, q), SentFlips(p, q);
    FlipsAsWords(p, q);
    hide Parse;
    hide UnseenBurst;
    hide SentFlips;
    hide LastFlips;
    hide Flips;
    var data := Flips(Data(p), Data(q));
    forall k | 0 <= k < |data| ensures !data[k] {
      assert !Flips(p, q)[k];
    }
    forall k | 0 <= k < 16 ensures !Bit(d, k) {
      assert !data[|data| - 16 + k];
    }
    NoBitsIsZero(d);
    if UnseenBurst(d, a) {
      UnseenIsSplit(d, a);
    }
    SameDataSameFlips(Data(p), Data(q));
    if Parse(q).Accepted? {
      DataDecides(p, q);
    }
  }
}
