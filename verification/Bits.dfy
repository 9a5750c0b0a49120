/** Fixed-width unsigned arithmetic and the bit helpers of include/common/common.hh.

    Machine words are numbers below a power of two.  The C++ operators are defined on numbers
    bit by bit; `Bit` is how every result about them is stated.
  */
module Bits {

  const WORD_LIMIT: int := 0x1_0000_0000

  type Word = w: int | 0 <= w < WORD_LIMIT

  function Pow2(n: nat): (r: nat)
    ensures r >= 1
  {
    if n == 0 then 1 else 2 * Pow2(n - 1)
  }

  /** Bit `i` of `a`, counting from the least significant. */
  predicate Bit(a: nat, i: nat) {
    if i == 0 then a % 2 == 1 else Bit(a / 2, i - 1)
  }

  // ----- the C++ operators -----

  function And(a: nat, b: nat): nat
    decreases a
  {
    if a == 0 then 0 else (if a % 2 == 1 && b % 2 == 1 then 1 else 0) + 2 * And(a / 2, b / 2)
  }

  function Or(a: nat, b: nat): nat
    decreases a + b
  {
    if a == 0 && b == 0 then 0
    else (if a % 2 == 1 || b % 2 == 1 then 1 else 0) + 2 * Or(a / 2, b / 2)
  }

  function Xor(a: nat, b: nat): nat
    decreases a + b
  {
    if a == 0 && b == 0 then 0
    else (if a % 2 != b % 2 then 1 else 0) + 2 * Xor(a / 2, b / 2)
  }

  /** `~a` on an unsigned type of `n` bits. */
  function Not(n: nat, a: nat): nat
    requires a < Pow2(n)
  {
    Pow2(n) - 1 - a
  }

  /** `a << s` on an unsigned type of `n` bits: the bits shifted past the top are lost. */
  function Shl(n: nat, a: nat, s: nat): (r: nat)
    requires a < Pow2(n)
    ensures r < Pow2(n)
    decreases s
  {
    if s == 0 then a else Shl(n, (2 * a) % Pow2(n), s - 1)
  }

  function Shr(a: nat, s: nat): (r: nat)
    ensures r <= a
    decreases s
  {
    if s == 0 then a else Shr(a / 2, s - 1)
  }

  // ----- what each operator does to bit i -----

  lemma {:induction false} ZeroBit(i: nat)
    ensures !Bit(0, i)
  {
    if i > 0 { ZeroBit(i - 1); }
  }

  lemma {:induction false} AndBit(a: nat, b: nat, i: nat)
    ensures Bit(And(a, b), i) <==> Bit(a, i) && Bit(b, i)
    decreases i
  {
    if a == 0 {
      ZeroBit(i);
    } else if i > 0 {
      AndBit(a / 2, b / 2, i - 1);
    }
  }

  lemma {:induction false} OrBit(a: nat, b: nat, i: nat)
    ensures Bit(Or(a, b), i) <==> Bit(a, i) || Bit(b, i)
    decreases i
  {
    if a == 0 && b == 0 {
      ZeroBit(i);
    } else if i > 0 {
      OrBit(a / 2, b / 2, i - 1);
    }
  }

  lemma {:induction false} XorBit(a: nat, b: nat, i: nat)
    ensures Bit(Xor(a, b), i) <==> Bit(a, i) != Bit(b, i)
    decreases i
  {
    if a == 0 && b == 0 {
      ZeroBit(i);
    } else if i > 0 {
      XorBit(a / 2, b / 2, i - 1);
    }
  }

  lemma HalfComplement(p: nat, a: nat)
    requires a < 2 * p
    ensures (2 * p - 1 - a) / 2 == p - 1 - a / 2
    ensures (2 * p - 1 - a) % 2 == 1 - a % 2
  {}

  lemma {:induction false} NotBit(n: nat, a: nat, i: nat)
    requires a < Pow2(n)
    ensures Bit(Not(n, a), i) <==> i < n && !Bit(a, i)
    decreases i
  {
    if n == 0 {
      ZeroBit(i);
    } else {
      HalfComplement(Pow2(n - 1), a);
      if i > 0 { NotBit(n - 1, a / 2, i - 1); }
    }
  }

  lemma {:induction false} ShrBit(a: nat, s: nat, i: nat)
    ensures Bit(Shr(a, s), i) <==> Bit(a, i + s)
    decreases s
  {
    if s > 0 { ShrBit(a / 2, s - 1, i); }
  }

  /** Halving commutes with division by p. */
  lemma Halve(a: nat, p: nat)
    requires p >= 1
    ensures a / (2 * p) == (a / 2) / p
    ensures (a % (2 * p)) / 2 == (a / 2) % p
    ensures (a % (2 * p)) % 2 == a % 2
  {
    var q, r := (a / 2) / p, (a / 2) % p;
    var x := p * q;
    HalveParts(a, x, r);
    MulAssoc(2, p, q);
    ModUnique(a, 2 * p, q, 2 * r + a % 2);
  }

  lemma HalveParts(a: nat, x: nat, r: nat)
    requires a / 2 == x + r
    ensures a == 2 * x + (2 * r + a % 2)
  {}

  /** Quotient and remainder are unique. */
  lemma ModUnique(a: int, p: nat, q: int, r: int)
    requires p >= 1 && a == p * q + r && 0 <= r < p
    ensures a / p == q && a % p == r
  {
    QuotientUnique(p, q, r, a / p, a % p);
  }

  lemma QuotientUnique(p: nat, q: int, r: int, q': int, r': int)
    requires p >= 1 && 0 <= r < p && 0 <= r' < p
    requires p * q + r == p * q' + r'
    ensures q == q' && r == r'
  {
    if q < q' {
      MulMonotone(p, q + 1, q');
    } else if q' < q {
      MulMonotone(p, q' + 1, q);
    }
  }

  lemma MulMonotone(p: nat, a: int, b: int)
    requires a <= b
    ensures p * a <= p * b
  {}

  lemma {:induction false} ModBit(a: nat, n: nat, i: nat)
    ensures Bit(a % Pow2(n), i) <==> i < n && Bit(a, i)
    decreases n
  {
    if n == 0 {
      ZeroBit(i);
    } else {
      Halve(a, Pow2(n - 1));
      if i > 0 { ModBit(a / 2, n - 1, i - 1); }
    }
  }

  lemma {:induction false} ShlBit(n: nat, a: nat, s: nat, i: nat)
    requires a < Pow2(n)
    ensures Bit(Shl(n, a, s), i) <==> s <= i < n && Bit(a, i - s)
    decreases s
  {
    if s == 0 {
      HighBit(a, n, i);
    } else {
      ShlBit(n, (2 * a) % Pow2(n), s - 1, i);
      if s - 1 <= i < n { DoubleBit(n, a, i - (s - 1)); }
    }
  }

  lemma DoubleBit(n: nat, a: nat, i: nat)
    ensures Bit((2 * a) % Pow2(n), i) <==> 0 < i < n && Bit(a, i - 1)
  {
    ModBit(2 * a, n, i);
    assert (2 * a) / 2 == a;
  }

  /** A number below 2^n has no bit at n or above. */
  lemma {:induction false} HighBit(a: nat, n: nat, i: nat)
    requires a < Pow2(n)
    ensures i >= n ==> !Bit(a, i)
    decreases n
  {
    if n == 0 {
      ZeroBit(i);
    } else if i > 0 {
      HighBit(a / 2, n - 1, i - 1);
    }
  }

  /** Two numbers with the same bits are the same number. */
  lemma {:induction false} SameBits(a: nat, b: nat, n: nat)
    requires a < Pow2(n) && b < Pow2(n)
    requires forall i: nat :: i < n ==> (Bit(a, i) <==> Bit(b, i))
    ensures a == b
  {
    if n > 0 {
      assert Bit(a, 0) <==> Bit(b, 0);
      forall i: nat | i < n - 1 ensures Bit(a / 2, i) <==> Bit(b / 2, i) {
        assert Bit(a, i + 1) <==> Bit(b, i + 1);
      }
      SameBits(a / 2, b / 2, n - 1);
    }
  }

  /** The converse of HighBit: bits only below n means a number below 2^n. */
  lemma {:induction false} BoundedByBits(a: nat, n: nat)
    requires forall i: nat :: i >= n ==> !Bit(a, i)
    ensures a < Pow2(n)
    decreases n, a
  {
    if n == 0 {
      if a > 0 {
        assert !Bit(a, 0);
        forall i: nat ensures !Bit(a / 2, i) { assert !Bit(a, i + 1); }
        BoundedByBits(a / 2, 0);
      }
    } else {
      forall i: nat | i >= n - 1 ensures !Bit(a / 2, i) { assert !Bit(a, i + 1); }
      BoundedByBits(a / 2, n - 1);
    }
  }

  lemma OpBounds(a: nat, b: nat, n: nat)
    requires a < Pow2(n) && b < Pow2(n)
    ensures And(a, b) < Pow2(n) && Or(a, b) < Pow2(n) && Xor(a, b) < Pow2(n)
  {
    forall i: nat | i >= n ensures !Bit(And(a, b), i) && !Bit(Or(a, b), i) && !Bit(Xor(a, b), i) {
      HighBit(a, n, i); HighBit(b, n, i);
      AndBit(a, b, i); OrBit(a, b, i); XorBit(a, b, i);
    }
    BoundedByBits(And(a, b), n);
    BoundedByBits(Or(a, b), n);
    BoundedByBits(Xor(a, b), n);
  }

  // ----- powers of two -----

  lemma {:induction false} Pow2Add(m: nat, n: nat)
    ensures Pow2(m + n) == Pow2(m) * Pow2(n)
  {
    if m > 0 { Pow2Add(m - 1, n); }
  }

  lemma Pow2Values()
    ensures Pow2(5) == 32 && Pow2(8) == 0x100 && Pow2(10) == 1024 && Pow2(12) == 4096 && Pow2(20) == 0x10_0000
    ensures Pow2(32) == WORD_LIMIT && Pow2(64) == WORD_LIMIT * WORD_LIMIT
  {
    assert Pow2(5) == 32;
    Pow2Add(5, 5); Pow2Add(5, 3); Pow2Add(10, 2); Pow2Add(10, 10); Pow2Add(20, 12); Pow2Add(32, 32);
    assert Pow2(3) == 8 && Pow2(2) == 4;
  }

  lemma {:induction false} Pow2Monotone(m: nat, n: nat)
    requires m <= n
    ensures Pow2(m) <= Pow2(n)
  {
    if m < n { Pow2Monotone(m, n - 1); }
  }

  lemma {:induction false} ShrIsDiv(a: nat, s: nat)
    ensures Shr(a, s) == a / Pow2(s)
    decreases s
  {
    if s > 0 {
      ShrIsDiv(a / 2, s - 1);
      Halve(a, Pow2(s - 1));
    }
  }

  // ----- the operators on machine words -----

  function AndW(a: Word, b: Word): Word { Pow2Values(); OpBounds(a, b, 32); And(a, b) }

  function OrW(a: Word, b: Word): Word { Pow2Values(); OpBounds(a, b, 32); Or(a, b) }

  function XorW(a: Word, b: Word): Word { Pow2Values(); OpBounds(a, b, 32); Xor(a, b) }

  function NotW(a: Word): Word { Pow2Values(); Not(32, a) }

  // ----- getBits, setBit, signExtend -----

  /** `getBitsNoShift<high, low>` on an unsigned type of `n` bits, mask and all. */
  function GetBitsNoShift(n: nat, high: nat, low: nat, word: nat): nat
    requires low <= high < n && word < Pow2(n)
  {
    var ones := Not(n, 0);
    var mask := if high != n - 1 then Not(n, Shl(n, ones, high + 1)) else ones;
    And(word, mask)
  }

  function GetBits(n: nat, high: nat, low: nat, word: nat): nat
    requires low <= high < n && word < Pow2(n)
  {
    Shr(GetBitsNoShift(n, high, low, word), low)
  }

  lemma GetBitsNoShiftBit(n: nat, high: nat, low: nat, word: nat, i: nat)
    requires low <= high < n && word < Pow2(n)
    ensures Bit(GetBitsNoShift(n, high, low, word), i) <==> i <= high && Bit(word, i)
  {
    var ones := Not(n, 0);
    NotBit(n, 0, i);
    ZeroBit(i);
    HighBit(word, n, i);
    if high != n - 1 {
      var shifted := Shl(n, ones, high + 1);
      ShlBit(n, ones, high + 1, i);
      NotBit(n, shifted, i);
      if i > high {
        NotBit(n, 0, i - (high + 1));
        ZeroBit(i - (high + 1));
      }
      AndBit(word, Not(n, shifted), i);
    } else {
      AndBit(word, ones, i);
    }
  }

  /** `getBits<high, low>` moves bit low + i of the word to bit i, and nothing else. */
  lemma GetBitsBit(n: nat, high: nat, low: nat, word: nat, i: nat)
    requires low <= high < n && word < Pow2(n)
    ensures Bit(GetBits(n, high, low, word), i) <==> i <= high - low && Bit(word, i + low)
  {
    ShrBit(GetBitsNoShift(n, high, low, word), low, i);
    GetBitsNoShiftBit(n, high, low, word, i + low);
  }

  /** As arithmetic, `getBits` is a quotient and a remainder. */
  lemma GetBitsIsDivMod(n: nat, high: nat, low: nat, word: nat)
    requires low <= high < n && word < Pow2(n)
    ensures GetBits(n, high, low, word) == (word / Pow2(low)) % Pow2(high - low + 1)
    ensures GetBits(n, high, low, word) < Pow2(high - low + 1)
  {
    var w := high - low + 1;
    var a, b := GetBits(n, high, low, word), Shr(word, low) % Pow2(w);
    forall i: nat ensures Bit(a, i) <==> Bit(b, i) {
      GetBitsBit(n, high, low, word, i);
      ModBit(Shr(word, low), w, i);
      ShrBit(word, low, i);
    }
    forall i: nat | i >= w ensures !Bit(a, i) {
      GetBitsBit(n, high, low, word, i);
    }
    BoundedByBits(a, w);
    SameBits(a, b, w);
    ShrIsDiv(word, low);
  }

  lemma LowBits(n: nat, size: nat, word: nat)
    requires 0 < size <= n && word < Pow2(n)
    ensures GetBits(n, size - 1, 0, word) == word % Pow2(size)
  {
    GetBitsIsDivMod(n, size - 1, 0, word);
    assert Pow2(0) == 1;
  }

  /** `setBit<pos, toSet>`. */
  function SetBit(pos: nat, toSet: bool, word: Word): nat
    requires pos < 32
  {
    Pow2Values();
    Pow2Monotone(1, 32);
    var mask := Shl(32, 1, pos);
    if toSet then Or(word, mask) else And(word, Not(32, mask))
  }

  lemma SetBitBit(pos: nat, toSet: bool, word: Word, i: nat)
    requires pos < 32
    ensures Bit(SetBit(pos, toSet, word), i) <==> if i == pos then toSet else Bit(word, i)
  {
    Pow2Values();
    Pow2Monotone(1, 32);
    var mask := Shl(32, 1, pos);
    ShlBit(32, 1, pos, i);
    HighBit(word, 32, i);
    if i > pos { ZeroBit(i - pos - 1); }
    NotBit(32, mask, i);
    OrBit(word, mask, i);
    AndBit(word, Not(32, mask), i);
  }

  /** `signExtend<newSize, oldSize>`; note that equal sizes return the word untouched. */
  function SignExtend(newSize: nat, oldSize: nat, word: Word): nat
    requires 0 < oldSize <= newSize <= 32
  {
    Pow2Values();
    if newSize == oldSize then word
    else
      var zeroed := GetBits(32, oldSize - 1, 0, word);
      Pow2Monotone(1, 32);
      var mask := Shl(32, 1, oldSize - 1);
      var res := (Xor(zeroed, mask) - mask) % WORD_LIMIT;
      GetBits(32, newSize - 1, 0, res)
  }

  /** The two's-complement value of the low `n` bits of `w`. */
  function AsSigned(n: nat, w: nat): int
    requires n > 0
  {
    var z := w % Pow2(n);
    if z >= Pow2(n - 1) then z - Pow2(n) else z
  }

  lemma {:induction false} ShlPower(n: nat, k: nat, s: nat)
    requires k + s < n
    ensures Pow2(k) < Pow2(n) && Shl(n, Pow2(k), s) == Pow2(k + s)
    decreases s
  {
    Pow2Monotone(k + 1, n);
    if s > 0 {
      Pow2Monotone(k + 2, n);
      SmallMod(Pow2(k + 1), Pow2(n));
      ShlPower(n, k + 1, s - 1);
    }
  }

  lemma SmallMod(a: nat, m: nat)
    requires a < m
    ensures a % m == a
  {
    ModUnique(a, m, 0, a);
  }

  /** XOR with the top bit of a (k+1)-bit number flips that bit. */
  lemma {:induction false} XorTop(z: nat, k: nat)
    requires z < Pow2(k + 1)
    ensures Xor(z, Pow2(k)) == if z >= Pow2(k) then z - Pow2(k) else z + Pow2(k)
    decreases k
  {
    if k > 0 {
      XorTop(z / 2, k - 1);
    } else {
      assert Pow2(0) == 1 && Pow2(1) == 2;
      assert Xor(z / 2, Pow2(0) / 2) == 0;
    }
  }

  /** Clearing the high bits, flipping the sign bit and subtracting its weight yields the
      two's-complement value of the low bits. */
  lemma FlipAndSubtract(oldSize: nat, word: Word)
    requires 0 < oldSize <= 32
    ensures word < Pow2(32)
    ensures Xor(GetBits(32, oldSize - 1, 0, word), Pow2(oldSize - 1)) - Pow2(oldSize - 1) == AsSigned(oldSize, word)
  {
    Pow2Values();
    LowBits(32, oldSize, word);
    XorTop(word % Pow2(oldSize), oldSize - 1);
  }

  lemma SignExtendCutsEncoding(newSize: nat, oldSize: nat, word: Word)
    requires 0 < oldSize < newSize <= 32
    ensures var res := AsSigned(oldSize, word) % WORD_LIMIT;
            res < Pow2(32) && SignExtend(newSize, oldSize, word) == GetBits(32, newSize - 1, 0, res)
  {
    Pow2Values();
    FlipAndSubtract(oldSize, word);
    MaskIsPower(oldSize - 1);
  }

  lemma MaskIsPower(k: nat)
    requires k < 32
    ensures 1 < Pow2(32) && Shl(32, 1, k) == Pow2(k)
  {
    ShlPower(32, 0, k);
  }

  /** The unsigned encoding of `signExtend` when the size grows. */
  lemma SignExtendIsEncoding(newSize: nat, oldSize: nat, word: Word)
    requires 0 < oldSize < newSize <= 32
    ensures SignExtend(newSize, oldSize, word) == AsSigned(oldSize, word) % Pow2(newSize)
  {
    var v := AsSigned(oldSize, word);
    SignExtendCutsEncoding(newSize, oldSize, word);
    LowBits(32, newSize, v % WORD_LIMIT);
    ModOfMod(v, newSize);
  }

  lemma AsSignedOfEncoding(n: nat, v: int)
    requires n > 0 && 0 <= v + Pow2(n - 1) && v < Pow2(n - 1)
    ensures AsSigned(n, v % Pow2(n)) == v
  {
    if v >= 0 {
      ModUnique(v, Pow2(n), 0, v);
    } else {
      ModUnique(v, Pow2(n), -1, v + Pow2(n));
    }
    ModUnique(v % Pow2(n), Pow2(n), 0, v % Pow2(n));
  }

  /** Sign extension keeps the two's-complement value, for every pair of sizes, and when the
      size grows it clears everything above the new size. */
  lemma SignExtendKeepsValue(newSize: nat, oldSize: nat, word: Word)
    requires 0 < oldSize <= newSize <= 32
    ensures AsSigned(newSize, SignExtend(newSize, oldSize, word)) == AsSigned(oldSize, word)
    ensures oldSize < newSize ==> SignExtend(newSize, oldSize, word) < Pow2(newSize)
    ensures SignExtend(newSize, oldSize, word) < WORD_LIMIT
  {
    Pow2Values();
    Pow2Monotone(newSize, 32);
    if oldSize < newSize {
      SignExtendIsEncoding(newSize, oldSize, word);
      Pow2Monotone(oldSize - 1, newSize - 1);
      AsSignedOfEncoding(newSize, AsSigned(oldSize, word));
    }
  }

  lemma ModOfMod(v: int, n: nat)
    requires n <= 32
    ensures (v % WORD_LIMIT) % Pow2(n) == v % Pow2(n)
  {
    Pow2Values();
    Pow2Add(n, 32 - n);
    NestedMod(v, Pow2(n), Pow2(32 - n));
  }

  lemma NestedMod(v: int, p: nat, c: nat)
    requires p >= 1 && c >= 1
    ensures p * c >= 1 && (v % (p * c)) % p == v % p
  {
    MulMonotone(p, 1, c);
    var q, r := v / (p * c), v % (p * c);
    var q1, r1 := r / p, r % p;
    MulAssoc(p, c, q);
    MulDist(p, c * q, q1);
    ModUnique(v, p, c * q + q1, r1);
  }

  lemma MulAssoc(a: int, b: int, c: int)
    ensures (a * b) * c == a * (b * c)
  {}

  lemma MulDist(a: int, b: int, c: int)
    ensures a * (b + c) == a * b + a * c
  {}
}
