/** Which differences between two code words the check word cannot miss. A difference is
    split into the part in the data and the part in the check word. */
module ErrorDetection {
  import opened Gf2
  import Crc

  lemma {:induction false} SplitAtFirstOne(e: Bits) returns (a: nat, rest: Bits)
    requires Weight(e) > 0
    ensures e == Zeros(a) + [true] + rest && Weight(rest) == Weight(e) - 1
  {
    if e[0] {
      a, rest := 0, e[1..];
    } else {
      a, rest := SplitAtFirstOne(e[1..]);
      assert e == [false] + e[1..];
      assert Zeros(a + 1) == [false] + Zeros(a);
      a := a + 1;
    }
  }

  lemma StepOfOne(r: Register)
    ensures Step(ZERO, true) == FEEDBACK
    ensures Step(r, true) == ZERO ==> r == Unit(0)
  {
    assert Step(ZERO, true) == FEEDBACK;
    if Step(r, true) == ZERO {
      assert !Step(r, true)[15];
      forall k | 0 <= k < 16 ensures r[k] == Unit(0)[k] {
        if k > 0 {
          assert !Step(r, true)[k - 1];
        }
      }
    }
  }

  lemma NonzeroStays(r: Register, n: nat)
    requires Feed(r, Zeros(n)) == ZERO
    ensures r == ZERO
  {
    FeedZeros(n);
    FeedInjective(r, ZERO, Zeros(n));
  }

  /** Two flipped bits within 608 never leave the register empty. */
  lemma TwoFlipsSeen(e: Bits)
    requires Weight(e) == 2 && |e| <= 608
    ensures Feed(ZERO, e) != ZERO
  {
    var a, rest := SplitAtFirstOne(e);
    var b, tail := SplitAtFirstOne(rest);
    WeightZero(tail);
    FeedZeros(a);
    FeedAppend(ZERO, Zeros(a) + [true], rest);
    FeedLast(ZERO, Zeros(a), true);
    FeedAppend(FEEDBACK, Zeros(b) + [true], tail);
    FeedLast(FEEDBACK, Zeros(b), true);
    Crc.NoEarlyReturn(b);
    var r := Feed(FEEDBACK, Zeros(b));
    StepOfOne(r);
    if Feed(ZERO, e) == ZERO {
      NonzeroStays(Step(r, true), |tail|);
    }
  }

  /** A message followed by its own check word leaves the register empty. */
  lemma CodeWordClears(data: Bits)
    ensures Feed(ZERO, data + Feed(ZERO, data)) == ZERO
  {
    var check := Feed(ZERO, data);
    FeedAppend(ZERO, data, check);
    FeedOwn(check, 16);
    assert check[..16] == check && check[16..] + Zeros(16) == ZERO;
  }

  /** Two different code words of at most 608 bits differ in at least four places, and in
      an even number of places. */
  lemma Distance(data: Bits, check: Register)
    requires check == Feed(ZERO, data)
    requires |data| + 16 <= 608
    ensures (Weight(data) + Weight(check)) % 2 == 0
    ensures data != Zeros(|data|) ==> Weight(data) + Weight(check) >= 4
  {
    hide *;
    ParityOfCheck(data);
    WeightZero(data);
    CodeWordClears(data);
    WeightAppend(data, check);
    if Weight(data + check) == 2 {
      TwoFlipsSeen(data + check);
    }
  }

  lemma ParityOfCheck(data: Bits)
    ensures (Weight(data) + Weight(Feed(ZERO, data))) % 2 == 0
  {
    WeightZero(ZERO);
    FeedParity(ZERO, data);
  }

  /** A difference the check word accounts for and that lies within 16 consecutive bits,
      counted with the check word most significant bit first, is no difference. */
  lemma UnseenBurstIsEmpty(data: Bits, check: Register, start: nat)
    requires forall k :: 0 <= k < |data| + 16 && (data + check)[k] ==> start <= k < start + 16
    requires check == Feed(ZERO, data)
    ensures data == Zeros(|data|)
  {
    Division(data);
    var q := Quotient(data);
    ShortBurstIsNoMultiple(q, start);
    forall k | 0 <= k < |data| ensures !data[k] {
      assert (data + check)[k] == Coefficient(q, k);
    }
  }
}
