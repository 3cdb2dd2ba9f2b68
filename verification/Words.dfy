/** Machine words, little-endian decoding, bit masks and the rounding built on them. */
module Words {

  datatype Option<+T> = None | Some(value: T)

  datatype Result<+T, +E> = Ok(value: T) | Err(error: E)

  type byte = x: int | 0 <= x < 0x100
  type u16 = x: int | 0 <= x < 0x1_0000
  type u32 = x: int | 0 <= x < 0x1_0000_0000
  type i32 = x: int | -0x8000_0000 <= x < 0x8000_0000

  const U32_MOD := 0x1_0000_0000

  /** `u32` addition of a release build: it wraps. */
  function WrapAdd(a: u32, b: u32): u32 {
    if a + b < U32_MOD then a + b else a + b - U32_MOD
  }

  lemma WrapAddThenAdd(a: u32, b: u32, c: nat)
    ensures (WrapAdd(a, b) + c) % U32_MOD == (a + (b + c)) % U32_MOD
  {
    if a + b >= U32_MOD {
      var r := a + b - U32_MOD + c;
      assert (r + U32_MOD) % U32_MOD == r % U32_MOD;
    }
  }

  /** Its inverse, `a - b`. */
  function WrapSub(a: u32, b: u32): u32 {
    if b <= a then a - b else a - b + U32_MOD
  }

  /** Both are arithmetic modulo 2^32. */
  lemma WrapIsModulo(a: u32, b: u32)
    ensures WrapAdd(a, b) == (a + b) % 0x1_0000_0000
    ensures WrapSub(a, b) == (a - b) % 0x1_0000_0000
  {
  }

  function Min(a: nat, b: nat): nat {
    if a < b then a else b
  }

  lemma SliceExtends<T>(s: seq<T>, a: nat, b: nat, c: nat)
    requires a <= b <= c <= |s|
    ensures s[a..b] + s[b..c] == s[a..c]
  {
  }

  lemma SliceEqualsIff<T>(s: seq<T>, a: nat, t: seq<T>)
    requires a + |t| <= |s|
    ensures s[a..a + |t|] == t <==> forall i | 0 <= i < |t| :: s[a + i] == t[i]
  {
    var w := s[a..a + |t|];
    if w == t {
      forall i | 0 <= i < |t| ensures s[a + i] == t[i] {
        assert w[i] == s[a + i];
      }
    }
  }

  lemma SliceOfSlice<T>(s: seq<T>, a: nat, b: nat, c: nat, d: nat)
    requires a <= b <= |s| && c <= d <= b - a
    ensures s[a..b][c..d] == s[a + c..a + d]
  {
    var w := s[a..b];
    forall i | 0 <= i < d - c ensures w[c..d][i] == s[a + c..a + d][i] {
      assert w[c + i] == s[a + (c + i)];
    }
  }

  // ----- little-endian words -----

  function Le16(b: seq<byte>, at: nat): u16
    requires at + 2 <= |b|
  {
    var b0: int, b1: int := b[at], b[at + 1];
    b0 + 0x100 * b1
  }

  function Le32(b: seq<byte>, at: nat): u32
    requires at + 4 <= |b|
  {
    var b0: int, b1: int, b2: int, b3: int := b[at], b[at + 1], b[at + 2], b[at + 3];
    b0 + 0x100 * b1 + 0x1_0000 * b2 + 0x100_0000 * b3
  }

  function ToLe16(w: u16): (b: seq<byte>)
    ensures |b| == 2
  {
    [w % 0x100, w / 0x100]
  }

  function ToLe32(w: u32): (b: seq<byte>)
    ensures |b| == 4
  {
    [w % 0x100, w / 0x100 % 0x100, w / 0x1_0000 % 0x100, w / 0x100_0000]
  }

  /** Encoding and decoding a word are inverse to each other, in both directions, and the low byte is first. */
  lemma Le32Inverse(w: u32, b: seq<byte>)
    requires |b| == 4
    ensures Le32(ToLe32(w), 0) == w
    ensures ToLe32(Le32(b, 0)) == b
    ensures ToLe32(0x0403_0201) == [1, 2, 3, 4]
    ensures Le32(b, 0) == b[0] + b[1] as int * 0x100 + b[2] as int * 0x1_0000 + b[3] as int * 0x100_0000
  {
    assert w == w % 0x100 + 0x100 * (w / 0x100 % 0x100) + 0x1_0000 * (w / 0x1_0000 % 0x100)
                + 0x100_0000 * (w / 0x100_0000) by {
      assert w / 0x1_0000 == w / 0x100 / 0x100;
      assert w / 0x100_0000 == w / 0x1_0000 / 0x100;
    }
    BytesOfSum(b[0], b[1], b[2], b[3]);
  }

  lemma BytesOfSum(b0: int, b1: int, b2: int, b3: int)
    requires 0 <= b0 < 0x100 && 0 <= b1 < 0x100 && 0 <= b2 < 0x100 && 0 <= b3 < 0x100
    ensures var v := b0 + 0x100 * b1 + 0x1_0000 * b2 + 0x100_0000 * b3;
            v % 0x100 == b0 && v / 0x100 % 0x100 == b1 && v / 0x1_0000 % 0x100 == b2 && v / 0x100_0000 == b3
  {
    var v := b0 + 0x100 * b1 + 0x1_0000 * b2 + 0x100_0000 * b3;
    assert v / 0x100 == b1 + 0x100 * b2 + 0x1_0000 * b3;
    assert v / 0x1_0000 == b2 + 0x100 * b3;
  }

  lemma Le16Inverse(w: u16, b: seq<byte>)
    requires |b| == 2
    ensures Le16(ToLe16(w), 0) == w
    ensures ToLe16(Le16(b, 0)) == b
    ensures ToLe16(0x0201) == [1, 2]
    ensures Le16(b, 0) == b[0] + b[1] as int * 0x100
  {
  }

  // ----- bitwise and -----

  function BitAnd(a: nat, b: nat): (r: nat)
    ensures r <= a && r <= b
  {
    if a == 0 || b == 0 then 0
    else 2 * BitAnd(a / 2, b / 2) + (if a % 2 == 1 && b % 2 == 1 then 1 else 0)
  }

  /** Every bit set in `a` is set in `b`. */
  predicate BitsWithin(a: nat, b: nat) {
    a == 0 || (b != 0 && a % 2 <= b % 2 && BitsWithin(a / 2, b / 2))
  }

  lemma {:induction false} BitsWithinReflexive(a: nat)
    ensures BitsWithin(a, a)
  {
    if a == 0 {
    } else {
      BitsWithinReflexive(a / 2);
    }
  }

  lemma {:induction false} BitsWithinTransitive(a: nat, b: nat, c: nat)
    requires BitsWithin(a, b) && BitsWithin(b, c)
    ensures BitsWithin(a, c)
  {
    if a == 0 {
    } else {
      BitsWithinTransitive(a / 2, b / 2, c / 2);
    }
  }

  /** `BitAnd` is the greatest lower bound of the bit-inclusion order. */
  lemma {:induction false} BitAndIsMeet(a: nat, b: nat, c: nat)
    ensures BitsWithin(BitAnd(a, b), a) && BitsWithin(BitAnd(a, b), b)
    ensures BitsWithin(c, a) && BitsWithin(c, b) ==> BitsWithin(c, BitAnd(a, b))
  {
    if a == 0 || b == 0 {
    } else {
      BitAndIsMeet(a / 2, b / 2, c / 2);
    }
  }

  /** A conjunction gives back its second operand exactly when the first covers it. */
  lemma {:induction false} BitAndAbsorbs(a: nat, b: nat)
    ensures BitAnd(a, b) == b <==> BitsWithin(b, a)
  {
    if a == 0 || b == 0 {
    } else {
      BitAndAbsorbs(a / 2, b / 2);
    }
  }

  /** Bit `k` of `n`. */
  predicate BitSet(n: nat, k: nat) {
    if k == 0 then n % 2 == 1 else BitSet(n / 2, k - 1)
  }

  /** A conjunction has exactly the bits that both operands have. */
  lemma {:induction false} BitAndBits(a: nat, b: nat, k: nat)
    ensures BitSet(BitAnd(a, b), k) <==> BitSet(a, k) && BitSet(b, k)
    decreases k
  {
    if a == 0 || b == 0 {
      ZeroHasNoBits(k);
    } else {
      hide BitSet;
      var low := if a % 2 == 1 && b % 2 == 1 then 1 else 0;
      BitOfDouble(BitAnd(a / 2, b / 2), low, k);
      BitOfDouble(a / 2, a % 2, k);
      BitOfDouble(b / 2, b % 2, k);
      if k > 0 {
        BitAndBits(a / 2, b / 2, k - 1);
      }
    }
  }

  lemma BitOfDouble(half: nat, low: nat, k: nat)
    requires low < 2
    ensures BitSet(2 * half + low, k) <==> if k == 0 then low == 1 else BitSet(half, k - 1)
  {
    assert (2 * half + low) / 2 == half && (2 * half + low) % 2 == low;
  }

  lemma {:induction false} ZeroHasNoBits(k: nat)
    ensures !BitSet(0, k)
  {
    if k == 0 {
    } else {
      ZeroHasNoBits(k - 1);
    }
  }

  lemma {:induction false} SomeBit(n: nat) returns (k: nat)
    requires n > 0
    ensures BitSet(n, k)
  {
    if n % 2 == 1 {
      k := 0;
    } else {
      k := SomeBit(n / 2);
      k := k + 1;
    }
  }

  lemma BitOfHalf(n: nat, k: nat)
    ensures BitSet(n, k + 1) <==> BitSet(n / 2, k)
  {
  }

  lemma BitMissing(a: nat, b: nat, k: nat)
    requires BitSet(a, k) && !BitSet(b, k)
    ensures !forall i: nat :: BitSet(a, i) ==> BitSet(b, i)
  {
  }

  /** `a` lies within `b` if every bit of `a` is one of `b`, and only then. */
  lemma {:induction false} BitsWithinBits(a: nat, b: nat)
    ensures BitsWithin(a, b) <==> forall k: nat :: BitSet(a, k) ==> BitSet(b, k)
  {
    if a == 0 {
      forall k: nat ensures !BitSet(a, k) {
        ZeroHasNoBits(k);
      }
    } else if b == 0 {
      var k := SomeBit(a);
      ZeroHasNoBits(k);
    } else {
      BitsWithinBits(a / 2, b / 2);
      if BitsWithin(a, b) {
        forall k: nat | BitSet(a, k) ensures BitSet(b, k) {
          if k > 0 {
            assert BitSet(a / 2, k - 1);
          }
        }
      } else if a % 2 > b % 2 {
        BitMissing(a, b, 0);
      } else {
        var k: nat :| BitSet(a / 2, k) && !BitSet(b / 2, k);
        BitOfHalf(a, k);
        BitOfHalf(b, k);
        BitMissing(a, b, k + 1);
      }
    }
  }

  /** The number whose lowest `n` bits are set. */
  function Ones(n: nat): nat {
    if n == 0 then 0 else 2 * Ones(n - 1) + 1
  }

  lemma {:induction false} WithinOnes(a: nat, n: nat)
    requires a <= Ones(n)
    ensures BitsWithin(a, Ones(n))
  {
    if a == 0 {
    } else {
      var rest := Ones(n - 1);
      assert Ones(n) == 2 * rest + 1 && Ones(n) / 2 == rest;
      WithinOnes(a / 2, n - 1);
    }
  }

  lemma ErasedCoversByte(b: byte)
    ensures BitAnd(0xFF, b) == b
  {
    assert Ones(8) == 0xFF;
    OnesAreNeutral(b, 8);
    BitAndCommutes(b, 0xFF);
  }

  // ----- rounding to 16 bytes -----

  /** `!15` as a `u32`. */
  const MASK_16: u32 := 0xFFFF_FFF0

  lemma {:induction false} MaskOfShifted(a: nat, m: nat)
    ensures BitAnd(a, 16 * m) == 16 * BitAnd(a / 16, m)
  {
    MaskOfQuarter(a, 4 * m);
    MaskOfQuarter(a / 4, m);
    assert a / 4 / 4 == a / 16;
  }

  lemma {:induction false} MaskOfQuarter(a: nat, m: nat)
    ensures BitAnd(a, 4 * m) == 4 * BitAnd(a / 4, m)
  {
    BitAndHalves(a, 2 * m);
    BitAndHalves(a / 2, m);
    assert a / 2 / 2 == a / 4;
  }

  lemma {:induction false} BitAndHalves(a: nat, m: nat)
    ensures BitAnd(a, 2 * m) == 2 * BitAnd(a / 2, m)
  {
  }

  lemma OnesAreNeutral(a: nat, n: nat)
    requires a <= Ones(n)
    ensures BitAnd(a, Ones(n)) == a
  {
    WithinOnes(a, n);
    BitAndCommutes(a, Ones(n));
    BitAndAbsorbs(Ones(n), a);
  }

  /** Masking with `!15` drops the remainder modulo 16. */
  lemma MaskDropsRemainder(a: u32)
    ensures BitAnd(a, 0xFFFF_FFF0) == a - a % 16
  {
    assert Ones(8) == 0xFF && Ones(16) == 0xFFFF && Ones(24) == 0xFF_FFFF && Ones(28) == 0xFFF_FFFF;
    MaskOfShifted(a, Ones(28));
    OnesAreNeutral(a / 16, 28);
  }

  lemma {:induction false} BitAndCommutes(a: nat, b: nat)
    ensures BitAnd(a, b) == BitAnd(b, a)
  {
    if a == 0 || b == 0 {
    } else {
      BitAndCommutes(a / 2, b / 2);
    }
  }

  /** Size of `n` bytes followed by one more byte, padded to 16-byte alignment. */
  function PaddedWithChecksum(n: nat): (r: nat)
    ensures r % 16 == 0 && r % 4 == 0 && n + 1 <= r <= n + 16
  {
    var q := n / 16 + 1;
    MultipleOf16(q);
    MultipleOf4(4 * q);
    16 * q
  }

  lemma MultipleOf16(q: nat)
    ensures 16 * q % 16 == 0
  {
  }

  lemma MultipleOf4(q: nat)
    ensures 4 * q % 4 == 0
  {
  }

  /** The mask expression of the size walk computes the least multiple of 16 that holds
      the body and its checksum byte, so 1 to 16 bytes follow the body. */
  lemma RoundingIsLeast(n: nat, m: nat)
    requires n + 16 < 0x1_0000_0000
    ensures BitAnd(n + 1 + 15, 0xFFFF_FFF0) == PaddedWithChecksum(n) == (n / 16 + 1) * 16
    ensures m % 16 == 0 && n + 1 <= m ==> PaddedWithChecksum(n) <= m
  {
    hide BitAnd;
    MaskDropsRemainder(n + 16);
    assert n + 16 - (n + 16) % 16 == (n / 16 + 1) * 16;
  }
}
