/** Integer facts the enum rewrites rely on: powers of two, the integer
    logarithm, decimal text of a number and how C# reads it back, and the
    32-bit two's-complement arithmetic of C#'s `int`. */
module Numerals {

  function Pow2(k: nat): (r: nat)
    ensures r >= 1
  {
    if k == 0 then 1 else 2 * Pow2(k - 1)
  }

  lemma {:induction false} Pow2Add(a: nat, b: nat)
    ensures Pow2(a + b) == Pow2(a) * Pow2(b)
  {
    if a > 0 {
      Pow2Add(a - 1, b);
    }
  }

  lemma {:induction false} Pow2Monotone(a: nat, b: nat)
    requires a < b
    ensures Pow2(a) < Pow2(b)
  {
    if a + 1 < b {
      Pow2Monotone(a, b - 1);
    }
  }

  lemma Pow2At31And32()
    ensures Pow2(31) == 0x8000_0000 && Pow2(32) == 0x1_0000_0000
  {
    Pow2Add(1, 1);
    Pow2Add(2, 2);
    Pow2Add(4, 4);
    Pow2Add(8, 8);
    Pow2Add(16, 16);
    Pow2Add(16, 15);
    Pow2Add(8, 7);
    Pow2Add(4, 3);
    Pow2Add(2, 1);
  }

  predicate IsPowerOfTwo(n: nat) {
    n >= 1 && Pow2(FloorLog2(n)) == n
  }

  /** The largest k with 2^k <= n: the exact counterpart of (int)Math.Log(n, 2). */
  function FloorLog2(n: nat): (k: nat)
    requires n >= 1
    ensures Pow2(k) <= n < Pow2(k + 1)
  {
    if n == 1 then 0 else 1 + FloorLog2(n / 2)
  }

  lemma {:induction false} FloorLog2OfPow2(k: nat)
    ensures FloorLog2(Pow2(k)) == k
  {
    if k > 0 {
      assert Pow2(k) / 2 == Pow2(k - 1);
      FloorLog2OfPow2(k - 1);
    }
  }

  /** Every power of two is recognised as one. */
  lemma Pow2IsPowerOfTwo(k: nat)
    ensures IsPowerOfTwo(Pow2(k))
  {
    FloorLog2OfPow2(k);
  }

  // ----- Decimal numerals -----

  predicate IsDigit(c: char) { '0' <= c <= '9' }

  function DigitChar(d: nat): (c: char)
    requires d < 10
    ensures IsDigit(c)
  {
    ['0', '1', '2', '3', '4', '5', '6', '7', '8', '9'][d]
  }

  function DigitValue(c: char): (d: nat)
    requires IsDigit(c)
    ensures d < 10 && DigitChar(d) == c
  {
    c as int - '0' as int
  }

  /** Decimal text as C# writes it: digits only, no leading zero unless the number is 0. */
  predicate IsCanonicalDecimal(s: string) {
    |s| >= 1 && (forall i :: 0 <= i < |s| ==> IsDigit(s[i])) && (s[0] == '0' ==> |s| == 1)
  }

  /** ToString("d") of a non-negative number. */
  function DecimalText(n: nat): (s: string)
    ensures IsCanonicalDecimal(s)
  {
    if n < 10 then [DigitChar(n)] else DecimalText(n / 10) + [DigitChar(n % 10)]
  }

  /** The value of a string of decimal digits. */
  function ParseDecimal(s: string): nat
    requires forall i :: 0 <= i < |s| ==> IsDigit(s[i])
  {
    if |s| == 0 then 0 else 10 * ParseDecimal(s[..|s| - 1]) + DigitValue(s[|s| - 1])
  }

  /** Decimal text reads back as the number it was written from. */
  lemma {:induction false} ParseDecimalText(n: nat)
    ensures ParseDecimal(DecimalText(n)) == n
  {
    var s := DecimalText(n);
    if n >= 10 {
      assert s[..|s| - 1] == DecimalText(n / 10);
      ParseDecimalText(n / 10);
    }
  }

  lemma {:induction false} ParseDecimalPositive(s: string)
    requires IsCanonicalDecimal(s) && s[0] != '0'
    ensures ParseDecimal(s) >= 1
  {
    if |s| > 1 {
      ParseDecimalPositive(s[..|s| - 1]);
    }
  }

  /** Canonical decimal text is what DecimalText writes for its value. */
  lemma {:induction false} DecimalTextOfParse(s: string)
    requires IsCanonicalDecimal(s)
    ensures DecimalText(ParseDecimal(s)) == s
  {
    var n := ParseDecimal(s);
    if |s| > 1 {
      var prefix := s[..|s| - 1];
      ParseDecimalPositive(prefix);
      DecimalTextOfParse(prefix);
      assert n / 10 == ParseDecimal(prefix) && n % 10 == DigitValue(s[|s| - 1]);
      assert s == prefix + [s[|s| - 1]];
    }
  }

  // ----- Bitwise OR of non-negative numbers -----

  /** The bitwise OR of two non-negative numbers, taken bit by bit from the lowest. */
  function BitOr(a: nat, b: nat): nat
    decreases a + b
  {
    if a == 0 then b
    else if b == 0 then a
    else 2 * BitOr(a / 2, b / 2) + (if a % 2 == 1 || b % 2 == 1 then 1 else 0)
  }

  /** The lowest bit of an OR, and the OR of the remaining bits. */
  lemma BitOrHalves(a: nat, b: nat)
    ensures BitOr(a, b) % 2 == (if a % 2 == 1 || b % 2 == 1 then 1 else 0)
    ensures BitOr(a, b) / 2 == BitOr(a / 2, b / 2)
  {
    if a == 0 {
      assert BitOr(a / 2, b / 2) == b / 2;
    } else if b == 0 {
      assert BitOr(a / 2, b / 2) == a / 2 by {
        assert b / 2 == 0;
      }
    }
  }

  lemma {:induction false} BitOrCommutative(a: nat, b: nat)
    ensures BitOr(a, b) == BitOr(b, a)
    decreases a + b
  {
    if a != 0 && b != 0 {
      BitOrCommutative(a / 2, b / 2);
    }
  }

  lemma {:induction false} BitOrAssociative(a: nat, b: nat, c: nat)
    ensures BitOr(BitOr(a, b), c) == BitOr(a, BitOr(b, c))
    decreases a + b + c
  {
    var left := BitOr(BitOr(a, b), c);
    var right := BitOr(a, BitOr(b, c));
    if a + b + c > 0 {
      BitOrAssociative(a / 2, b / 2, c / 2);
      BitOrHalves(a, b);
      BitOrHalves(b, c);
      BitOrHalves(BitOr(a, b), c);
      BitOrHalves(a, BitOr(b, c));
      assert left / 2 == right / 2 && left % 2 == right % 2;
    }
  }

  /** The last two operands of an OR may trade places. */
  lemma BitOrSwap(o: nat, a: nat, b: nat)
    ensures BitOr(BitOr(o, a), b) == BitOr(BitOr(o, b), a)
  {
    BitOrAssociative(o, a, b);
    BitOrCommutative(a, b);
    BitOrAssociative(o, b, a);
  }

  // ----- C# `int` arithmetic -----

  /** A mathematical integer reduced to 32-bit two's complement, as an unchecked C# `int`. */
  function Wrap32(x: int): (r: int)
    ensures -0x8000_0000 <= r < 0x8000_0000
    ensures -0x8000_0000 <= x < 0x8000_0000 ==> r == x
    ensures (r - x) % 0x1_0000_0000 == 0
  {
    (x + 0x8000_0000) % 0x1_0000_0000 - 0x8000_0000
  }

  /** `a << count` on C# `int`: the count is masked to its low five bits and the result wraps. */
  function ShiftLeftInt32(a: int, count: int): int {
    Wrap32(a * Pow2(count % 32))
  }

  /** Below bit 31, shifting 1 left neither masks nor wraps. */
  lemma ShiftOneBelow31(k: nat)
    requires k < 31
    ensures ShiftLeftInt32(1, k) == Pow2(k)
  {
    assert k % 32 == k;
    var p := Pow2(k);
    Pow2At31And32();
    Pow2Monotone(k, 31);
    assert -0x8000_0000 <= 1 * p < 0x8000_0000;
  }
}
