/** The check code as the protocol computes it, on machine words. It is proved equal to
    the serial register of Gf2, which gives it its meaning and its error detection. */
module Crc {
  import opened Gf2

  const PRESET: bv16 := 0xFFFF

  /** Bit k of a word, counted from the most significant. */
  predicate Bit(c: bv16, k: nat)
    requires k < 16
  {
    if k == 0 then c & 0x8000 != 0
    else if k == 1 then c & 0x4000 != 0
    else if k == 2 then c & 0x2000 != 0
    else if k == 3 then c & 0x1000 != 0
    else if k == 4 then c & 0x0800 != 0
    else if k == 5 then c & 0x0400 != 0
    else if k == 6 then c & 0x0200 != 0
    else if k == 7 then c & 0x0100 != 0
    else if k == 8 then c & 0x0080 != 0
    else if k == 9 then c & 0x0040 != 0
    else if k == 10 then c & 0x0020 != 0
    else if k == 11 then c & 0x0010 != 0
    else if k == 12 then c & 0x0008 != 0
    else if k == 13 then c & 0x0004 != 0
    else if k == 14 then c & 0x0002 != 0
    else c & 0x0001 != 0
  }

  function WordBits(c: bv16): (r: Register)
    ensures forall k :: 0 <= k < 16 ==> r[k] == Bit(c, k)
  {
    seq(16, k requires 0 <= k < 16 => Bit(c, k))
  }

  function Upper(x: bv8): bv16 {
    (x as bv16) << 8
  }

  function ByteBits(x: bv8): (r: Bits)
    ensures |r| == 8
    ensures forall k :: 0 <= k < 8 ==> r[k] == Bit(Upper(x), k)
  {
    WordBits(Upper(x))[..8]
  }

  /** All bits of a byte string, each byte most significant bit first. */
  function BytesBits(s: seq<bv8>): (r: Bits)
    ensures |r| == 8 * |s|
  {
    if s == [] then [] else ByteBits(s[0]) + BytesBits(s[1..])
  }

  function Shift(c: bv16): bv16 {
    if c & 0x8000 != 0 then (c << 1) ^ 0x1021 else c << 1
  }

  function ShiftN(c: bv16, n: nat): bv16
    decreases n
  {
    if n == 0 then c else ShiftN(Shift(c), n - 1)
  }

  function AddByte(c: bv16, x: bv8): bv16 {
    ShiftN(c ^ Upper(x), 8)
  }

  function Crc16(data: seq<bv8>): bv16 {
    if data == [] then PRESET else AddByte(Crc16(data[..|data| - 1]), data[|data| - 1])
  }

  method CalculateCrc16(data: array?<bv8>, length: nat) returns (crc: bv16)
    requires data != null ==> length <= data.Length
    ensures data == null ==> crc == if length != 0 then 0 else PRESET
    ensures data != null ==> crc == Crc16(data[..length])
  {
    hide *;
    if data == null && length != 0 {
      return 0;
    }
    CrcEmpty();
    crc := PRESET;
    for index := 0 to length
      invariant data != null ==> crc == Crc16(data[..index])
      invariant data == null ==> crc == PRESET
    {
      CrcNext(data[..index], data[index]);
      crc := ShiftByte(crc ^ Upper(data[index]));
      assert data[..index + 1] == data[..index] + [data[index]];
    }
  }

  lemma CrcEmpty()
    ensures Crc16([]) == PRESET
  {
  }

  lemma CrcNext(s: seq<bv8>, x: bv8)
    ensures Crc16(s + [x]) == ShiftN(Crc16(s) ^ Upper(x), 8)
  {
    assert (s + [x])[..|s|] == s;
    hide ShiftN;
  }

  /** The inner loop of CalculateCrc16. */
  method ShiftByte(mixed: bv16) returns (crc: bv16)
    ensures crc == ShiftN(mixed, 8)
  {
    crc := mixed;
    for bit := 0 to 8
      invariant ShiftN(crc, 8 - bit) == ShiftN(mixed, 8)
    {
      if crc & 0x8000 != 0 {
        crc := (crc << 1) ^ 0x1021;
      } else {
        crc := crc << 1;
      }
    }
  }

  // ----- words and bits -----

  lemma MasksXor(c: bv16, d: bv16)
    ensures ((c ^ d) & 0x8000 != 0) == ((c & 0x8000 != 0) != (d & 0x8000 != 0))
    ensures ((c ^ d) & 0x4000 != 0) == ((c & 0x4000 != 0) != (d & 0x4000 != 0))
    ensures ((c ^ d) & 0x2000 != 0) == ((c & 0x2000 != 0) != (d & 0x2000 != 0))
    ensures ((c ^ d) & 0x1000 != 0) == ((c & 0x1000 != 0) != (d & 0x1000 != 0))
    ensures ((c ^ d) & 0x0800 != 0) == ((c & 0x0800 != 0) != (d & 0x0800 != 0))
    ensures ((c ^ d) & 0x0400 != 0) == ((c & 0x0400 != 0) != (d & 0x0400 != 0))
    ensures ((c ^ d) & 0x0200 != 0) == ((c & 0x0200 != 0) != (d & 0x0200 != 0))
    ensures ((c ^ d) & 0x0100 != 0) == ((c & 0x0100 != 0) != (d & 0x0100 != 0))
    ensures ((c ^ d) & 0x0080 != 0) == ((c & 0x0080 != 0) != (d & 0x0080 != 0))
    ensures ((c ^ d) & 0x0040 != 0) == ((c & 0x0040 != 0) != (d & 0x0040 != 0))
    ensures ((c ^ d) & 0x0020 != 0) == ((c & 0x0020 != 0) != (d & 0x0020 != 0))
    ensures ((c ^ d) & 0x0010 != 0) == ((c & 0x0010 != 0) != (d & 0x0010 != 0))
    ensures ((c ^ d) & 0x0008 != 0) == ((c & 0x0008 != 0) != (d & 0x0008 != 0))
    ensures ((c ^ d) & 0x0004 != 0) == ((c & 0x0004 != 0) != (d & 0x0004 != 0))
    ensures ((c ^ d) & 0x0002 != 0) == ((c & 0x0002 != 0) != (d & 0x0002 != 0))
    ensures ((c ^ d) & 0x0001 != 0) == ((c & 0x0001 != 0) != (d & 0x0001 != 0))
  {
  }

  /** The same mask by mask, for a word e of which only the masks are known. */
  lemma BitsFromMasks(c: bv16, d: bv16, e: bv16, k: nat)
    requires k < 16
    requires k == 0 ==> (e & 0x8000 != 0) == ((c & 0x8000 != 0) != (d & 0x8000 != 0))
    requires k == 1 ==> (e & 0x4000 != 0) == ((c & 0x4000 != 0) != (d & 0x4000 != 0))
    requires k == 2 ==> (e & 0x2000 != 0) == ((c & 0x2000 != 0) != (d & 0x2000 != 0))
    requires k == 3 ==> (e & 0x1000 != 0) == ((c & 0x1000 != 0) != (d & 0x1000 != 0))
    requires k == 4 ==> (e & 0x0800 != 0) == ((c & 0x0800 != 0) != (d & 0x0800 != 0))
    requires k == 5 ==> (e & 0x0400 != 0) == ((c & 0x0400 != 0) != (d & 0x0400 != 0))
    requires k == 6 ==> (e & 0x0200 != 0) == ((c & 0x0200 != 0) != (d & 0x0200 != 0))
    requires k == 7 ==> (e & 0x0100 != 0) == ((c & 0x0100 != 0) != (d & 0x0100 != 0))
    requires k == 8 ==> (e & 0x0080 != 0) == ((c & 0x0080 != 0) != (d & 0x0080 != 0))
    requires k == 9 ==> (e & 0x0040 != 0) == ((c & 0x0040 != 0) != (d & 0x0040 != 0))
    requires k == 10 ==> (e & 0x0020 != 0) == ((c & 0x0020 != 0) != (d & 0x0020 != 0))
    requires k == 11 ==> (e & 0x0010 != 0) == ((c & 0x0010 != 0) != (d & 0x0010 != 0))
    requires k == 12 ==> (e & 0x0008 != 0) == ((c & 0x0008 != 0) != (d & 0x0008 != 0))
    requires k == 13 ==> (e & 0x0004 != 0) == ((c & 0x0004 != 0) != (d & 0x0004 != 0))
    requires k == 14 ==> (e & 0x0002 != 0) == ((c & 0x0002 != 0) != (d & 0x0002 != 0))
    requires k == 15 ==> (e & 0x0001 != 0) == ((c & 0x0001 != 0) != (d & 0x0001 != 0))
    ensures Bit(e, k) == (Bit(c, k) != Bit(d, k))
  {
    if k == 0 {
    } else if k == 1 {
    } else if k == 2 {
    } else if k == 3 {
    } else if k == 4 {
    } else if k == 5 {
    } else if k == 6 {
    } else if k == 7 {
    } else if k == 8 {
    } else if k == 9 {
    } else if k == 10 {
    } else if k == 11 {
    } else if k == 12 {
    } else if k == 13 {
    } else if k == 14 {
    } else if k == 15 {
    }
  }

  lemma BitXor(c: bv16, d: bv16, k: nat)
    requires k < 16
    ensures Bit(c ^ d, k) == (Bit(c, k) != Bit(d, k))
  {
    hide *;
    MasksXor(c, d);
    BitsFromMasks(c, d, c ^ d, k);
  }

  lemma WordXor(c: bv16, d: bv16)
    ensures WordBits(c ^ d) == Xor(WordBits(c), WordBits(d))
  {
    var sum, bits := WordBits(c ^ d), Xor(WordBits(c), WordBits(d));
    forall k | 0 <= k < 16 ensures sum[k] == bits[k] {
      BitXor(c, d, k);
    }
  }

  lemma NoBitsIsZero(e: bv16)
    requires forall k :: 0 <= k < 16 ==> !Bit(e, k)
    ensures e == 0
  {
    assert !Bit(e, 0) && !Bit(e, 1) && !Bit(e, 2) && !Bit(e, 3);
    assert !Bit(e, 4) && !Bit(e, 5) && !Bit(e, 6) && !Bit(e, 7);
    assert !Bit(e, 8) && !Bit(e, 9) && !Bit(e, 10) && !Bit(e, 11);
    assert !Bit(e, 12) && !Bit(e, 13) && !Bit(e, 14) && !Bit(e, 15);
  }

  lemma WordBitsInjective(c: bv16, d: bv16)
    requires WordBits(c) == WordBits(d)
    ensures c == d
  {
    var e := c ^ d;
    forall k | 0 <= k < 16 ensures !Bit(e, k) {
      BitXor(c, d, k);
      assert WordBits(c)[k] == WordBits(d)[k];
    }
    NoBitsIsZero(e);
    SameIfXorIsZero(c, d);
  }

  lemma SameIfXorIsZero(c: bv16, d: bv16)
    requires c ^ d == 0
    ensures c == d
  {
  }

  /** The bits of a byte placed in the upper half of a word. */
  lemma UpperByteBits(x: bv8)
    ensures WordBits(Upper(x)) == ByteBits(x) + Zeros(8)
  {
  }

  lemma ByteBitsInjective(x: bv8, y: bv8)
    requires ByteBits(x) == ByteBits(y)
    ensures x == y
  {
    UpperByteBits(x);
    UpperByteBits(y);
    WordBitsInjective(Upper(x), Upper(y));
  }

  lemma {:induction false} BytesBitsInjective(s: seq<bv8>, t: seq<bv8>)
    requires |s| == |t| && BytesBits(s) == BytesBits(t)
    ensures s == t
  {
    if s != [] {
      var a, b := BytesBits(s), BytesBits(t);
      assert a[..8] == ByteBits(s[0]) && a[8..] == BytesBits(s[1..]);
      assert b[..8] == ByteBits(t[0]) && b[8..] == BytesBits(t[1..]);
      ByteBitsInjective(s[0], t[0]);
      BytesBitsInjective(s[1..], t[1..]);
      assert s == [s[0]] + s[1..] && t == [t[0]] + t[1..];
    }
  }

  lemma {:induction false} BytesBitsAppend(a: seq<bv8>, b: seq<bv8>)
    ensures BytesBits(a + b) == BytesBits(a) + BytesBits(b)
  {
    if a == [] {
      assert a + b == b;
    } else {
      assert (a + b)[1..] == a[1..] + b;
      BytesBitsAppend(a[1..], b);
    }
  }

  lemma BytesBitsOne(x: bv8)
    ensures BytesBits([x]) == ByteBits(x)
  {
  }

  // ----- the loop computes the serial register -----

  lemma ShiftBitFedBack(c: bv16, k: nat)
    requires k < 16
    ensures Bit((c << 1) ^ 0x1021, k) == ((k < 15 && Bit(c, k + 1)) != (k == 3 || k == 10 || k == 15))
  {
    if k == 0 {
      assert (((c << 1) ^ 0x1021) & 0x8000 != 0) == (c & 0x4000 != 0);
    } else if k == 1 {
      assert (((c << 1) ^ 0x1021) & 0x4000 != 0) == (c & 0x2000 != 0);
    } else if k == 2 {
      assert (((c << 1) ^ 0x1021) & 0x2000 != 0) == (c & 0x1000 != 0);
    } else if k == 3 {
      assert (((c << 1) ^ 0x1021) & 0x1000 != 0) == (c & 0x0800 == 0);
    } else if k == 4 {
      assert (((c << 1) ^ 0x1021) & 0x0800 != 0) == (c & 0x0400 != 0);
    } else if k == 5 {
      assert (((c << 1) ^ 0x1021) & 0x0400 != 0) == (c & 0x0200 != 0);
    } else if k == 6 {
      assert (((c << 1) ^ 0x1021) & 0x0200 != 0) == (c & 0x0100 != 0);
    } else if k == 7 {
      assert (((c << 1) ^ 0x1021) & 0x0100 != 0) == (c & 0x0080 != 0);
    } else if k == 8 {
      assert (((c << 1) ^ 0x1021) & 0x0080 != 0) == (c & 0x0040 != 0);
    } else if k == 9 {
      assert (((c << 1) ^ 0x1021) & 0x0040 != 0) == (c & 0x0020 != 0);
    } else if k == 10 {
      assert (((c << 1) ^ 0x1021) & 0x0020 != 0) == (c & 0x0010 == 0);
    } else if k == 11 {
      assert (((c << 1) ^ 0x1021) & 0x0010 != 0) == (c & 0x0008 != 0);
    } else if k == 12 {
      assert (((c << 1) ^ 0x1021) & 0x0008 != 0) == (c & 0x0004 != 0);
    } else if k == 13 {
      assert (((c << 1) ^ 0x1021) & 0x0004 != 0) == (c & 0x0002 != 0);
    } else if k == 14 {
      assert (((c << 1) ^ 0x1021) & 0x0002 != 0) == (c & 0x0001 != 0);
    } else if k == 15 {
      assert (((c << 1) ^ 0x1021) & 0x0001 != 0) == (true);
    }
  }

  lemma ShiftBitOnly(c: bv16, k: nat)
    requires k < 16
    ensures Bit(c << 1, k) == (k < 15 && Bit(c, k + 1))
  {
    if k == 0 {
      assert ((c << 1) & 0x8000 != 0) == (c & 0x4000 != 0);
    } else if k == 1 {
      assert ((c << 1) & 0x4000 != 0) == (c & 0x2000 != 0);
    } else if k == 2 {
      assert ((c << 1) & 0x2000 != 0) == (c & 0x1000 != 0);
    } else if k == 3 {
      assert ((c << 1) & 0x1000 != 0) == (c & 0x0800 != 0);
    } else if k == 4 {
      assert ((c << 1) & 0x0800 != 0) == (c & 0x0400 != 0);
    } else if k == 5 {
      assert ((c << 1) & 0x0400 != 0) == (c & 0x0200 != 0);
    } else if k == 6 {
      assert ((c << 1) & 0x0200 != 0) == (c & 0x0100 != 0);
    } else if k == 7 {
      assert ((c << 1) & 0x0100 != 0) == (c & 0x0080 != 0);
    } else if k == 8 {
      assert ((c << 1) & 0x0080 != 0) == (c & 0x0040 != 0);
    } else if k == 9 {
      assert ((c << 1) & 0x0040 != 0) == (c & 0x0020 != 0);
    } else if k == 10 {
      assert ((c << 1) & 0x0020 != 0) == (c & 0x0010 != 0);
    } else if k == 11 {
      assert ((c << 1) & 0x0010 != 0) == (c & 0x0008 != 0);
    } else if k == 12 {
      assert ((c << 1) & 0x0008 != 0) == (c & 0x0004 != 0);
    } else if k == 13 {
      assert ((c << 1) & 0x0004 != 0) == (c & 0x0002 != 0);
    } else if k == 14 {
      assert ((c << 1) & 0x0002 != 0) == (c & 0x0001 != 0);
    } else if k == 15 {
      assert ((c << 1) & 0x0001 != 0) == (false);
    }
  }

  lemma ShiftIsStep(c: bv16)
    ensures WordBits(Shift(c)) == Step(WordBits(c), false)
  {
    var r := WordBits(c);
    if c & 0x8000 != 0 {
      var shifted := (c << 1) ^ 0x1021;
      forall k | 0 <= k < 16 ensures Bit(shifted, k) == Stepped(r, false, k) {
        ShiftBitFedBack(c, k);
      }
    } else {
      var shifted := c << 1;
      forall k | 0 <= k < 16 ensures Bit(shifted, k) == Stepped(r, false, k) {
        ShiftBitOnly(c, k);
      }
    }
  }

  lemma {:induction false} ShiftsFeedZeros(c: bv16, n: nat)
    ensures WordBits(ShiftN(c, n)) == Feed(WordBits(c), Zeros(n))
    decreases n
  {
    if n != 0 {
      ShiftIsStep(c);
      ShiftsFeedZeros(Shift(c), n - 1);
      assert Zeros(n)[1..] == Zeros(n - 1);
    }
  }

  /** Mixing a byte in at the top and shifting eight times feeds its eight bits. */
  lemma AddByteFeeds(c: bv16, x: bv8)
    ensures WordBits(AddByte(c, x)) == Feed(WordBits(c), ByteBits(x))
  {
    UpperByteBits(x);
    WordXor(c, Upper(x));
    ShiftsFeedZeros(c ^ Upper(x), 8);
    FeedMixed(WordBits(c), ByteBits(x));
  }

  lemma {:induction false} CrcFeeds(data: seq<bv8>)
    ensures WordBits(Crc16(data)) == Feed(ONES, BytesBits(data))
    decreases |data|
  {
    if data == [] {
      assert WordBits(PRESET) == ONES;
    } else {
      var n := |data| - 1;
      assert data == data[..n] + [data[n]];
      CrcFeeds(data[..n]);
      AddByteFeeds(Crc16(data[..n]), data[n]);
      BytesBitsAppend(data[..n], [data[n]]);
      BytesBitsOne(data[n]);
      FeedAppend(ONES, BytesBits(data[..n]), ByteBits(data[n]));
    }
  }

  /** What the check word means: it is the only word that completes the message, its first
      16 bits complemented and times x^16, to a multiple of x^16 + x^12 + x^5 + 1. */
  lemma CrcIsRemainder(data: seq<bv8>, c: bv16)
    requires |data| >= 2
    ensures c == Crc16(data) <==>
            exists q :: |q| == 8 * |data| && Product(q) == Complemented(BytesBits(data)) + WordBits(c)
  {
    CrcFeeds(data);
    PresetRemainderIff(BytesBits(data), WordBits(c));
    if WordBits(c) == WordBits(Crc16(data)) {
      WordBitsInjective(c, Crc16(data));
    }
  }

  // ----- two single-bit errors never cancel -----

  function Shift4(c: bv16): bv16 { Shift(Shift(Shift(Shift(c)))) }

  function Shift16(c: bv16): bv16 { Shift4(Shift4(Shift4(Shift4(c)))) }

  lemma {:induction false} ShiftNAdd(c: bv16, n: nat, k: nat)
    ensures ShiftN(c, n + k) == ShiftN(ShiftN(c, n), k)
    decreases n
  {
    if n != 0 {
      ShiftNAdd(Shift(c), n - 1, k);
    }
  }

  lemma Sixteen(c: bv16)
    ensures ShiftN(c, 16) == Shift16(c)
  {
    Four(c);
    Four(Shift4(c));
    Four(Shift4(Shift4(c)));
    Four(Shift4(Shift4(Shift4(c))));
    ShiftNAdd(c, 4, 12);
    ShiftNAdd(Shift4(c), 4, 8);
    ShiftNAdd(Shift4(Shift4(c)), 4, 4);
  }

  lemma Four(c: bv16)
    ensures ShiftN(c, 4) == Shift4(c)
  {
  }

  /** The word whose only set bit is bit j. */
  function Single(j: nat): bv16
    requires j < 16
  {
    if j == 0 then 0x8000
    else if j == 1 then 0x4000
    else if j == 2 then 0x2000
    else if j == 3 then 0x1000
    else if j == 4 then 0x0800
    else if j == 5 then 0x0400
    else if j == 6 then 0x0200
    else if j == 7 then 0x0100
    else if j == 8 then 0x0080
    else if j == 9 then 0x0040
    else if j == 10 then 0x0020
    else if j == 11 then 0x0010
    else if j == 12 then 0x0008
    else if j == 13 then 0x0004
    else if j == 14 then 0x0002
    else 0x0001
  }

  lemma SingleBits(j: nat)
    requires j < 16
    ensures WordBits(Single(j)) == Unit(j) && Single(j) & (Single(j) - 1) == 0
  {
  }

  lemma ManyBits(c: bv16, j: nat)
    requires j < 16 && c & (c - 1) != 0
    ensures WordBits(c) != Unit(j)
  {
    if WordBits(c) == Unit(j) {
      SingleBits(j);
      WordBitsInjective(c, Single(j));
    }
  }

  /** Every sixteenth register reached from the feedback word by feeding zeros. */
  function Orbit(i: nat): bv16
    requires i <= 38
  {
    if i == 0 then 0x1021
    else if i == 1 then 0x3730
    else if i == 2 then 0xAA51
    else if i == 3 then 0xB861
    else if i == 4 then 0xEB23
    else if i == 5 then 0xD849
    else if i == 6 then 0x4563
    else if i == 7 then 0xAEFC
    else if i == 8 then 0x10E2
    else if i == 9 then 0xDE1F
    else if i == 10 then 0xD5F6
    else if i == 11 then 0x650B
    else if i == 12 then 0x45B4
    else if i == 13 then 0x1566
    else if i == 14 then 0xF0E6
    else if i == 15 then 0x8E29
    else if i == 16 then 0x8DDC
    else if i == 17 then 0x6735
    else if i == 18 then 0xF44B
    else if i == 19 then 0x26AA
    else if i == 20 then 0xB8E0
    else if i == 21 then 0x6A8A
    else if i == 22 then 0xD423
    else if i == 23 then 0xCDE2
    else if i == 24 then 0xBD64
    else if i == 25 then 0x4473
    else if i == 26 then 0x8FFC
    else if i == 27 then 0x2535
    else if i == 28 then 0x9FE5
    else if i == 29 then 0xA55E
    else if i == 30 then 0x59B0
    else if i == 31 then 0x13FC
    else if i == 32 then 0x78B3
    else if i == 33 then 0x1648
    else if i == 34 then 0x6019
    else if i == 35 then 0x8832
    else if i == 36 then 0x8420
    else if i == 37 then 0xF33E
    else 0x910F
  }

  lemma Orbit0To8(i: nat)
    requires 0 <= i < 8
    ensures Shift16(Orbit(i)) == Orbit(i + 1) && Orbit(i) & (Orbit(i) - 1) != 0
  {
  }

  lemma Orbit8To16(i: nat)
    requires 8 <= i < 16
    ensures Shift16(Orbit(i)) == Orbit(i + 1) && Orbit(i) & (Orbit(i) - 1) != 0
  {
    if i == 8 {
      assert Shift16(0x10E2) == 0xDE1F;
    } else if i == 9 {
      assert Shift16(0xDE1F) == 0xD5F6;
    } else if i == 10 {
      assert Shift16(0xD5F6) == 0x650B;
    } else if i == 11 {
      assert Shift16(0x650B) == 0x45B4;
    } else if i == 12 {
      assert Shift16(0x45B4) == 0x1566;
    } else if i == 13 {
      assert Shift16(0x1566) == 0xF0E6;
    } else if i == 14 {
      assert Shift16(0xF0E6) == 0x8E29;
    } else if i == 15 {
      assert Shift16(0x8E29) == 0x8DDC;
    }
  }

  lemma Orbit16To24(i: nat)
    requires 16 <= i < 24
    ensures Shift16(Orbit(i)) == Orbit(i + 1) && Orbit(i) & (Orbit(i) - 1) != 0
  {
  }

  lemma Orbit24To32(i: nat)
    requires 24 <= i < 32
    ensures Shift16(Orbit(i)) == Orbit(i + 1) && Orbit(i) & (Orbit(i) - 1) != 0
  {
    if i == 24 {
      assert Shift16(0xBD64) == 0x4473;
    } else if i == 25 {
      assert Shift16(0x4473) == 0x8FFC;
    } else if i == 26 {
      assert Shift16(0x8FFC) == 0x2535;
    } else if i == 27 {
      assert Shift16(0x2535) == 0x9FE5;
    } else if i == 28 {
      assert Shift16(0x9FE5) == 0xA55E;
    } else if i == 29 {
      assert Shift16(0xA55E) == 0x59B0;
    } else if i == 30 {
      assert Shift16(0x59B0) == 0x13FC;
    } else if i == 31 {
      assert Shift16(0x13FC) == 0x78B3;
    }
  }

  lemma Orbit32To38(i: nat)
    requires 32 <= i < 38
    ensures Shift16(Orbit(i)) == Orbit(i + 1) && Orbit(i) & (Orbit(i) - 1) != 0
  {
    if i == 32 {
      assert Shift16(0x78B3) == 0x1648;
    } else if i == 33 {
      assert Shift16(0x1648) == 0x6019;
    } else if i == 34 {
      assert Shift16(0x6019) == 0x8832;
    } else if i == 35 {
      assert Shift16(0x8832) == 0x8420;
    } else if i == 36 {
      assert Shift16(0x8420) == 0xF33E;
    } else if i == 37 {
      assert Shift16(0xF33E) == 0x910F;
    }
  }

  lemma OrbitStep(i: nat)
    requires i < 38
    ensures Shift16(Orbit(i)) == Orbit(i + 1) && Orbit(i) & (Orbit(i) - 1) != 0
  {
    if i < 8 {
      Orbit0To8(i);
    } else if i < 16 {
      Orbit8To16(i);
    } else if i < 24 {
      Orbit16To24(i);
    } else if i < 32 {
      Orbit24To32(i);
    } else {
      Orbit32To38(i);
    }
  }

  lemma {:induction false} OrbitIsReached(i: nat)
    requires i <= 38
    ensures WordBits(Orbit(i)) == Feed(FEEDBACK, Zeros(16 * i))
    decreases i
  {
    if i == 0 {
      FeedbackBits();
    } else {
      OrbitIsReached(i - 1);
      OrbitStep(i - 1);
      Sixteen(Orbit(i - 1));
      ShiftsFeedZeros(Orbit(i - 1), 16);
      FeedAppend(FEEDBACK, Zeros(16 * (i - 1)), Zeros(16));
      assert Zeros(16 * (i - 1)) + Zeros(16) == Zeros(16 * i);
    }
  }

  lemma FeedbackBits()
    ensures WordBits(Orbit(0)) == Feed(FEEDBACK, Zeros(0))
  {
  }

  /** The register does not come back to the top bit alone within 608 steps. */
  lemma NoEarlyReturn(k: nat)
    requires k < 608
    ensures Feed(FEEDBACK, Zeros(k)) != Unit(0)
  {
    var i, j := k / 16, k % 16;
    OrbitIsReached(i);
    OrbitStep(i);
    assert Zeros(16 * i) + Zeros(j) == Zeros(k);
    FeedAppend(FEEDBACK, Zeros(16 * i), Zeros(j));
    if Feed(FEEDBACK, Zeros(k)) == Unit(0) {
      ReturnsToUnit(WordBits(Orbit(i)), 0, j);
      ManyBits(Orbit(i), j);
    }
  }
}
