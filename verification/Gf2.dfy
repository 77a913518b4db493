/** Bit sequences as polynomials over GF(2), highest power first, and the serial
    register for the generator x^16 + x^12 + x^5 + 1. Feeding a register is shown to be
    polynomial division, from which its error-detection properties follow. */
module Gf2 {
  type Bits = seq<bool>
  type Register = r: Bits | |r| == 16 witness Zeros(16)

  function Zeros(n: nat): (r: Bits)
    ensures |r| == n
    ensures forall k :: 0 <= k < n ==> !r[k]
  {
    seq(n, _ => false)
  }

  const ZERO: Register := Zeros(16)
  const ONES: Register := seq(16, _ => true)

  // ----- addition and weight -----

  function Xor(a: Bits, b: Bits): (r: Bits)
    requires |a| == |b|
    ensures |r| == |a|
    ensures forall k :: 0 <= k < |a| ==> r[k] == (a[k] != b[k])
  {
    seq(|a|, k requires 0 <= k < |a| => a[k] != b[k])
  }

  function Weight(s: Bits): (w: nat)
    ensures w <= |s|
  {
    if s == [] then 0 else (if s[0] then 1 else 0) + Weight(s[1..])
  }

  lemma {:induction false} WeightAppend(a: Bits, b: Bits)
    ensures Weight(a + b) == Weight(a) + Weight(b)
  {
    if a == [] {
      assert a + b == b;
    } else {
      assert (a + b)[1..] == a[1..] + b;
      WeightAppend(a[1..], b);
    }
  }

  lemma WeightOne(b: bool)
    ensures Weight([b]) == if b then 1 else 0
  {
  }

  lemma {:induction false} WeightXor(a: Bits, b: Bits)
    requires |a| == |b|
    ensures Weight(Xor(a, b)) % 2 == (Weight(a) + Weight(b)) % 2
  {
    if a != [] {
      assert Xor(a, b)[1..] == Xor(a[1..], b[1..]);
      WeightXor(a[1..], b[1..]);
      ParityStep(Weight(Xor(a[1..], b[1..])), Weight(a[1..]), Weight(b[1..]), a[0], b[0]);
      hide Xor;
    }
  }

  lemma ParityStep(w: nat, x: nat, y: nat, a: bool, b: bool)
    requires w % 2 == (x + y) % 2
    ensures ((if a != b then 1 else 0) + w) % 2
         == ((if a then 1 else 0) + x + ((if b then 1 else 0) + y)) % 2
  {
  }

  lemma {:induction false} WeightZero(s: Bits)
    ensures Weight(s) == 0 <==> s == Zeros(|s|)
  {
    if s != [] {
      WeightZero(s[1..]);
      if s[1..] == Zeros(|s| - 1) && !s[0] {
        assert s == [s[0]] + s[1..] == Zeros(|s|);
      }
      if s == Zeros(|s|) {
        assert s[1..] == Zeros(|s| - 1);
      }
    }
  }

  // ----- the register -----

  /** One step on one message bit: the bit leaving the register, plus the message bit,
      is fed back at the powers 12, 5 and 0. */
  function Step(r: Register, b: bool): (s: Register)
    ensures forall k :: 0 <= k < 16 ==> s[k] == Stepped(r, b, k)
  {
    seq(16, k requires 0 <= k < 16 => Stepped(r, b, k))
  }

  predicate Stepped(r: Register, b: bool, k: nat)
    requires k < 16
  {
    (k < 15 && r[k + 1]) != (r[0] != b && (k == 3 || k == 10 || k == 15))
  }

  function Feed(r: Register, bits: Bits): Register
    decreases |bits|
  {
    if bits == [] then r else Feed(Step(r, bits[0]), bits[1..])
  }

  lemma {:induction false} FeedAppend(r: Register, a: Bits, b: Bits)
    ensures Feed(r, a + b) == Feed(Feed(r, a), b)
    decreases |a|
  {
    if a == [] {
      assert a + b == b;
    } else {
      assert (a + b)[1..] == a[1..] + b;
      FeedAppend(Step(r, a[0]), a[1..], b);
    }
  }

  lemma FeedOne(r: Register, b: bool)
    ensures Feed(r, [b]) == Step(r, b)
  {
  }

  lemma FeedLast(r: Register, a: Bits, b: bool)
    ensures Feed(r, a + [b]) == Step(Feed(r, a), b)
  {
    FeedAppend(r, a, [b]);
    FeedOne(Feed(r, a), b);
  }

  lemma StepLinear(r: Register, b: bool, s: Register, c: bool)
    ensures Xor(Step(r, b), Step(s, c)) == Step(Xor(r, s), b != c)
  {
  }

  /** The register is linear: two runs over different messages differ by the run over
      the difference. */
  lemma {:induction false} FeedLinear(r: Register, a: Bits, s: Register, b: Bits)
    requires |a| == |b|
    ensures Xor(Feed(r, a), Feed(s, b)) == Feed(Xor(r, s), Xor(a, b))
    decreases |a|
  {
    if a != [] {
      assert Xor(a, b)[1..] == Xor(a[1..], b[1..]);
      StepLinear(r, a[0], s, b[0]);
      FeedLinear(Step(r, a[0]), a[1..], Step(s, b[0]), b[1..]);
    }
  }

  /** A step can be undone. */
  lemma StepInjective(r: Register, s: Register, b: bool)
    requires Step(r, b) == Step(s, b)
    ensures r == s
  {
    assert Step(r, b)[15] == Step(s, b)[15];
    forall k | 0 <= k < 16 ensures r[k] == s[k] {
      if k > 0 {
        assert Step(r, b)[k - 1] == Step(s, b)[k - 1];
      }
    }
  }

  lemma {:induction false} FeedInjective(r: Register, s: Register, bits: Bits)
    requires Feed(r, bits) == Feed(s, bits)
    ensures r == s
    decreases |bits|
  {
    if bits != [] {
      FeedInjective(Step(r, bits[0]), Step(s, bits[0]), bits[1..]);
      StepInjective(r, s, bits[0]);
    }
  }

  lemma {:induction false} FeedZeros(n: nat)
    ensures Feed(ZERO, Zeros(n)) == ZERO
  {
    if n != 0 {
      assert Zeros(n)[1..] == Zeros(n - 1);
      assert Step(ZERO, false) == ZERO;
      FeedZeros(n - 1);
    }
  }

  /** Feeding a register its own contents empties it. */
  lemma {:induction false} FeedOwn(r: Register, n: nat)
    requires n <= 16
    ensures Feed(r, r[..n]) == r[n..] + Zeros(n)
  {
    if n == 0 {
      assert r[..0] == [];
    } else {
      FeedOwn(r, n - 1);
      assert r[..n] == r[..n - 1] + [r[n - 1]];
      FeedLast(r, r[..n - 1], r[n - 1]);
      var s: Register := r[n - 1..] + Zeros(n - 1);
      forall k | 0 <= k < 16 ensures Step(s, s[0])[k] == (r[n..] + Zeros(n))[k] {
      }
    }
  }

  /** Adding a message byte to the register's front and then feeding zeros is feeding
      the byte. */
  lemma FeedMixed(r: Register, bits: Bits)
    requires |bits| == 8
    ensures Feed(Xor(r, bits + Zeros(8)), Zeros(8)) == Feed(r, bits)
  {
    var top: Register := bits + Zeros(8);
    FeedOwn(top, 8);
    assert top[..8] == bits && top[8..] + Zeros(8) == ZERO;
    FeedLinear(r, bits, top, bits);
    assert Xor(bits, bits) == Zeros(8);
    assert Xor(Feed(r, bits), ZERO) == Feed(r, bits);
  }

  /** The register with only bit j set. */
  function Unit(j: nat): (r: Register)
    ensures forall k :: 0 <= k < 16 ==> r[k] == (k == j)
  {
    seq(16, k => k == j)
  }

  /** What feeding a one into the empty register leaves. */
  const FEEDBACK: Register := seq(16, k => k == 3 || k == 10 || k == 15)

  lemma StepToUnit(r: Register, j: nat)
    requires j < 15 && Step(r, false) == Unit(j)
    ensures r == Unit(j + 1)
  {
    assert !Step(r, false)[15];
    forall k | 0 <= k < 16 ensures r[k] == (k == j + 1) {
      if k > 0 {
        assert Step(r, false)[k - 1] == Unit(j)[k - 1];
      }
    }
  }

  lemma {:induction false} ReturnsToUnit(r: Register, i: nat, j: nat)
    requires i + j < 16 && Feed(r, Zeros(j)) == Unit(i)
    ensures r == Unit(i + j)
    decreases j
  {
    if j != 0 {
      assert Zeros(j) == Zeros(j - 1) + [false];
      FeedLast(r, Zeros(j - 1), false);
      StepToUnit(Feed(r, Zeros(j - 1)), i);
      ReturnsToUnit(r, i + 1, j - 1);
    }
  }

  // ----- parity -----

  lemma StepParity(r: Register, b: bool)
    ensures Weight(Step(r, b)) % 2 == (Weight(r) + if b then 1 else 0) % 2
  {
    var t := r[0] != b;
    var moved: Register := r[1..] + [false];
    var fed: Register := seq(16, k => t && (k == 3 || k == 10 || k == 15));
    assert Step(r, b) == Xor(moved, fed);
    WeightXor(moved, fed);
    WeightAppend(r[1..], [false]);
    WeightOne(false);
    FeedbackWeight(t, fed);
  }

  /** The feedback has three taps, an odd number. */
  lemma FeedbackWeight(t: bool, fed: Register)
    requires forall k :: 0 <= k < 16 ==> fed[k] == (t && (k == 3 || k == 10 || k == 15))
    ensures Weight(fed) == if t then 3 else 0
  {
    assert fed == Zeros(3) + ([t] + (Zeros(6) + ([t] + (Zeros(4) + [t]))));
    WeightAppend(Zeros(3), [t] + (Zeros(6) + ([t] + (Zeros(4) + [t]))));
    WeightAppend([t], Zeros(6) + ([t] + (Zeros(4) + [t])));
    WeightAppend(Zeros(6), [t] + (Zeros(4) + [t]));
    WeightAppend([t], Zeros(4) + [t]);
    WeightAppend(Zeros(4), [t]);
    WeightOne(t);
    WeightZero(Zeros(3));
    WeightZero(Zeros(6));
    WeightZero(Zeros(4));
  }

  lemma {:induction false} FeedParity(r: Register, bits: Bits)
    ensures Weight(Feed(r, bits)) % 2 == (Weight(r) + Weight(bits)) % 2
    decreases |bits|
  {
    if bits != [] {
      StepParity(r, bits[0]);
      FeedParity(Step(r, bits[0]), bits[1..]);
    }
  }

  // ----- polynomials -----

  predicate At(q: Bits, k: int) {
    0 <= k < |q| && q[k]
  }

  /** The k-th coefficient of q times x^16 + x^12 + x^5 + 1. */
  predicate Coefficient(q: Bits, k: int) {
    ((At(q, k) != At(q, k - 4)) != At(q, k - 11)) != At(q, k - 16)
  }

  function Product(q: Bits): (p: Bits)
    ensures |p| == |q| + 16
    ensures forall k :: 0 <= k < |p| ==> p[k] == Coefficient(q, k)
  {
    seq(|q| + 16, k => Coefficient(q, k))
  }

  lemma StepProduct(q: Bits, bits: Bits, r: Register, b: bool)
    requires |q| == |bits| && Product(q) == bits + r
    ensures Product(q + [r[0] != b]) == (bits + [b]) + Step(r, b)
  {
    var n, t := |q|, r[0] != b;
    var next := (bits + [b]) + Step(r, b);
    forall k | 0 <= k < n + 17 ensures Coefficient(q + [t], k) == next[k] {
      assert Coefficient(q + [t], k)
          == (Coefficient(q, k) != (t && (k == n || k == n + 4 || k == n + 11 || k == n + 16)));
      assert k < n + 16 ==> Coefficient(q, k) == (bits + r)[k];
    }
  }

  function Quotient(bits: Bits): (q: Bits)
    ensures |q| == |bits|
  {
    if bits == [] then []
    else
      var n := |bits| - 1;
      Quotient(bits[..n]) + [Feed(ZERO, bits[..n])[0] != bits[n]]
  }

  /** Long division: message times x^16, plus the register left after feeding it, is a
      multiple of the generator. */
  lemma {:induction false} Division(bits: Bits)
    ensures Product(Quotient(bits)) == bits + Feed(ZERO, bits)
    decreases |bits|
  {
    if bits == [] {
      assert Product([]) == ZERO;
    } else {
      var n := |bits| - 1;
      assert bits == bits[..n] + [bits[n]];
      Division(bits[..n]);
      FeedLast(ZERO, bits[..n], bits[n]);
      StepProduct(Quotient(bits[..n]), bits[..n], Feed(ZERO, bits[..n]), bits[n]);
    }
  }

  lemma {:induction false} ProductInjective(q: Bits, p: Bits, n: nat)
    requires |q| == |p| && n <= |q|
    requires forall k :: 0 <= k < n ==> Product(q)[k] == Product(p)[k]
    ensures q[..n] == p[..n]
  {
    if n != 0 {
      ProductInjective(q, p, n - 1);
      assert Product(q)[n - 1] == Product(p)[n - 1];
      assert forall k :: k < n - 1 ==> At(q, k) == At(p, k) by {
        forall k | k < n - 1 ensures At(q, k) == At(p, k) {
          if k >= 0 {
            assert q[..n - 1][k] == p[..n - 1][k];
          }
        }
      }
      assert At(q, n - 1) == At(p, n - 1);
    }
  }

  /** The register left after a message is its remainder: the only 16 bits that complete
      the message, times x^16, to a multiple of the generator. */
  lemma RemainderIff(bits: Bits, r: Register)
    ensures r == Feed(ZERO, bits) <==> exists q :: |q| == |bits| && Product(q) == bits + r
  {
    Division(bits);
    if exists q :: |q| == |bits| && Product(q) == bits + r {
      var q :| |q| == |bits| && Product(q) == bits + r;
      var p := Quotient(bits);
      forall k | 0 <= k < |bits| ensures Product(q)[k] == Product(p)[k] {
      }
      ProductInjective(q, p, |q|);
      assert q == q[..|q|] == p[..|q|] == p;
      assert (bits + r)[|bits|..] == r;
      assert (bits + Feed(ZERO, bits))[|bits|..] == Feed(ZERO, bits);
    }
  }

  /** The message with its first 16 bits complemented. */
  function Complemented(bits: Bits): (r: Bits)
    requires |bits| >= 16
    ensures |r| == |bits|
  {
    seq(|bits|, k requires 0 <= k < |bits| => bits[k] != (k < 16))
  }

  /** Starting from all ones is complementing the first 16 bits of the message. */
  lemma PresetFeed(bits: Bits)
    requires |bits| >= 16
    ensures Feed(ONES, bits) == Feed(ZERO, Complemented(bits))
  {
    var mask := ONES + Zeros(|bits| - 16);
    MaskClears(|bits| - 16);
    FeedLinear(ONES, bits, ONES, mask);
    MaskComplements(bits);
    XorZero(Feed(ONES, bits));
  }

  lemma MaskComplements(bits: Bits)
    requires |bits| >= 16
    ensures Xor(bits, ONES + Zeros(|bits| - 16)) == Complemented(bits)
    ensures Xor(ONES, ONES) == ZERO
  {
  }

  lemma XorZero(r: Register)
    ensures Xor(r, ZERO) == r
  {
  }

  lemma MaskClears(n: nat)
    ensures Feed(ONES, ONES + Zeros(n)) == ZERO
  {
    FeedOwn(ONES, 16);
    assert ONES[..16] == ONES;
    assert ONES[16..] + Zeros(16) == ZERO;
    FeedAppend(ONES, ONES, Zeros(n));
    FeedZeros(n);
  }

  lemma PresetRemainderIff(bits: Bits, r: Register)
    requires |bits| >= 16
    ensures r == Feed(ONES, bits) <==>
            exists q :: |q| == |bits| && Product(q) == Complemented(bits) + r
  {
    PresetFeed(bits);
    RemainderIff(Complemented(bits), r);
  }

  /** A nonzero multiple of the generator spans at least 17 bits, so no difference that
      fits in 16 consecutive bits is one. */
  lemma ShortBurstIsNoMultiple(q: Bits, start: nat)
    requires forall k :: 0 <= k < |q| + 16 && Product(q)[k] ==> start <= k < start + 16
    ensures q == Zeros(|q|)
  {
    if i :| 0 <= i < |q| && q[i] {
      var first := FirstOne(q, i);
      var last := LastOne(q, i);
      assert Product(q)[first];
      assert Product(q)[last + 16];
    }
  }

  lemma {:induction false} FirstOne(q: Bits, i: nat) returns (first: nat)
    requires i < |q| && q[i]
    ensures first <= i && q[first] && forall k :: 0 <= k < first ==> !q[k]
  {
    if j: nat :| j < i && q[j] {
      first := FirstOne(q, j);
    } else {
      first := i;
    }
  }

  lemma {:induction false} LastOne(q: Bits, i: nat) returns (last: nat)
    requires i < |q| && q[i]
    ensures i <= last < |q| && q[last] && forall k :: last < k < |q| ==> !q[k]
    decreases |q| - i
  {
    if j: nat :| i < j < |q| && q[j] {
      last := LastOne(q, j);
    } else {
      last := i;
    }
  }
}
