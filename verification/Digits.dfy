/** Decimal text and the digit bounds that size the allocation-free buffers (meowix, util.rs). */
module Digits {
  import opened Bytes
  import opened Wrappers

  const ZERO: Byte := 48
  const MINUS: Byte := 45

  function Pow2(n: nat): (p: nat)
    ensures p > 0
  {
    if n == 0 then 1 else 2 * Pow2(n - 1)
  }

  function Pow10(n: nat): (p: nat)
    ensures p > 0
  {
    if n == 0 then 1 else 10 * Pow10(n - 1)
  }

  predicate IsDigit(b: Byte) {
    ZERO <= b <= 57
  }

  predicate AllDigits(text: seq<Byte>) {
    forall i :: 0 <= i < |text| ==> IsDigit(text[i])
  }

  /** Decimal text without leading zeros. */
  function FormatUnsigned(n: nat): (text: seq<Byte>)
    ensures |text| > 0 && AllDigits(text)
  {
    if n < 10 then [48 + n] else FormatUnsigned(n / 10) + [48 + n % 10]
  }

  function FormatSigned(i: int): (text: seq<Byte>)
    ensures |text| > 0
    ensures forall k :: 0 <= k < |text| ==> IsDigit(text[k]) || text[k] == MINUS
  {
    if i < 0 then [MINUS] + FormatUnsigned(-i) else FormatUnsigned(i)
  }

  function ParseUnsigned(text: seq<Byte>): Option<nat> {
    if text == [] || !IsDigit(text[|text| - 1]) then None
    else
      var digit := text[|text| - 1] as int - 48;
      if |text| == 1 then Some(digit)
      else
        match ParseUnsigned(text[..|text| - 1])
        case None => None
        case Some(high) => Some(10 * high + digit)
  }

  function ParseSigned(text: seq<Byte>): Option<int> {
    if text != [] && text[0] == MINUS then
      match ParseUnsigned(text[1..])
      case None => None
      case Some(n) => Some(-(n as int))
    else
      match ParseUnsigned(text)
      case None => None
      case Some(n) => Some(n)
  }

  lemma {:induction false} ParseFormatUnsigned(n: nat)
    ensures ParseUnsigned(FormatUnsigned(n)) == Some(n)
  {
    if n >= 10 {
      ParseFormatUnsigned(n / 10);
      var text := FormatUnsigned(n);
      assert text[..|text| - 1] == FormatUnsigned(n / 10);
    }
  }

  /** Parsing the text of a number gives the number. */
  lemma ParseFormatSigned(i: int)
    ensures ParseSigned(FormatSigned(i)) == Some(i)
  {
    ParseFormatUnsigned(if i < 0 then -i else i);
    if i < 0 {
      assert FormatSigned(i)[1..] == FormatUnsigned(-i);
    } else {
      assert IsDigit(FormatUnsigned(i)[0]);
    }
  }

  /** A number has at most `k` digits iff it is below the `k`-th power of ten. */
  lemma {:induction false} FormatLength(n: nat, k: nat)
    requires k > 0
    ensures |FormatUnsigned(n)| <= k <==> n < Pow10(k)
  {
    if k == 1 {
      assert Pow10(1) == 10;
      if n >= 10 {
        assert |FormatUnsigned(n)| >= 2;
      }
    } else {
      TenDigits(k);
      if n >= 10 {
        FormatLength(n / 10, k - 1);
      }
    }
  }

  /** Each digit, counted from the right, is the digit of its power of ten. */
  lemma {:induction false} DigitAt(n: nat, k: nat)
    requires k < |FormatUnsigned(n)|
    ensures FormatUnsigned(n)[|FormatUnsigned(n)| - 1 - k] as int == 48 + n / Pow10(k) % 10
  {
    if k > 0 {
      DigitAt(n / 10, k - 1);
      DivideTwice(n, Pow10(k - 1));
      var front := FormatUnsigned(n / 10);
      assert FormatUnsigned(n)[|front| - k] == front[|front| - k];
    }
  }

  lemma DivideTwice(n: nat, b: nat)
    requires b > 0
    ensures n / (10 * b) == n / 10 / b
  {
    var tenth := n / 10;
    var q, r := tenth / b, tenth % b;
    assert tenth == b * q + r;
    assert 10 * (b * q) == 10 * b * q;
    assert n == 10 * b * q + (10 * r + n % 10);
    DivideUnique(n, 10 * b, q, 10 * r + n % 10);
  }

  /** A minus sign in front of the digits, and nothing in front of those of a natural number. */
  lemma SignFirst(i: int)
    ensures i < 0 ==> FormatSigned(i) == [45] + FormatUnsigned(-i)
    ensures i >= 0 ==> FormatSigned(i) == FormatUnsigned(i)
  {
  }

  lemma TenDigits(k: nat)
    requires k > 1
    ensures Pow10(k) == 10 * Pow10(k - 1) && Pow10(k) >= 10
  {
  }

  lemma FormatMonotone(m: nat, n: nat)
    requires m <= n
    ensures |FormatUnsigned(m)| <= |FormatUnsigned(n)|
  {
    FormatLength(n, |FormatUnsigned(n)|);
    FormatLength(m, |FormatUnsigned(n)|);
  }

  /** The counting loop behind both bounds. */
  method DecimalDigits(value: nat) returns (digits: nat)
    ensures digits == |FormatUnsigned(value)|
    ensures forall k :: k > 0 ==> (digits <= k <==> value < Pow10(k))
  {
    var n := value;
    digits := 1;
    while n >= 10
      invariant digits + |FormatUnsigned(n)| == |FormatUnsigned(value)| + 1
    {
      n := n / 10;
      digits := digits + 1;
    }
    forall k | k > 0 ensures |FormatUnsigned(value)| <= k <==> value < Pow10(k) {
      FormatLength(value, k);
    }
  }

  // ----- the bounds -----

  const WIDEST := 128

  /** Bound for an unsigned type of `bits` bits: the digits of the widest maximum, shifted down to its width. */
  function UnsignedBound(bits: nat, widest: nat): nat
    requires bits <= widest
  {
    |FormatUnsigned((Pow2(widest) - 1) / Pow2(widest - bits))|
  }

  /** Bound for a signed type of `bits` bits: the digits of its most negative value, and the sign. */
  function SignedBound(bits: nat): nat
    requires bits > 0
  {
    |FormatUnsigned(Pow2(bits - 1))| + 1
  }

  lemma {:induction false} Pow2Sum(a: nat, b: nat)
    ensures Pow2(a + b) == Pow2(a) * Pow2(b)
  {
    if a > 0 {
      Pow2Sum(a - 1, b);
      assert Pow2(a) * Pow2(b) == 2 * (Pow2(a - 1) * Pow2(b));
    }
  }

  lemma {:induction false} Pow10Sum(a: nat, b: nat)
    ensures Pow10(a + b) == Pow10(a) * Pow10(b)
  {
    if a > 0 {
      Pow10Sum(a - 1, b);
      assert Pow10(a) * Pow10(b) == 10 * (Pow10(a - 1) * Pow10(b));
    }
  }

  lemma DivideBelow(x: nat, y: nat)
    requires x > 0 && y > 0
    ensures (x * y - 1) / y == x - 1
  {
    assert x * y - 1 == y * (x - 1) + (y - 1);
    DivideUnique(x * y - 1, y, x - 1, y - 1);
  }

  lemma DivideUnique(n: nat, d: nat, q: nat, r: nat)
    requires d > 0 && r < d && n == d * q + r
    ensures n / d == q
  {
    var s := n % d;
    assert n == d * (n / d) + s;
    assert d * (n / d - q) == r - s;
    SmallMultiple(d, n / d - q);
  }

  lemma SmallMultiple(d: nat, k: int)
    requires -(d as int) < d * k < d
    ensures k == 0
  {
  }

  lemma ShiftedMaximum(bits: nat, widest: nat)
    requires bits <= widest
    ensures (Pow2(widest) - 1) / Pow2(widest - bits) == Pow2(bits) - 1
  {
    Pow2Sum(bits, widest - bits);
    DivideBelow(Pow2(bits), Pow2(widest - bits));
  }

  /** Every value of an unsigned width fits its bound, and the largest value needs all of it. */
  lemma UnsignedBoundTight(bits: nat, widest: nat, n: nat)
    requires bits <= widest && n < Pow2(bits)
    ensures |FormatUnsigned(n)| <= UnsignedBound(bits, widest)
    ensures |FormatUnsigned(Pow2(bits) - 1)| == UnsignedBound(bits, widest)
  {
    ShiftedMaximum(bits, widest);
    FormatMonotone(n, Pow2(bits) - 1);
  }

  /** Every value of a signed width fits its bound, and the most negative value needs all of it. */
  lemma SignedBoundTight(bits: nat, i: int)
    requires bits > 0 && -(Pow2(bits - 1) as int) <= i < Pow2(bits - 1)
    ensures |FormatSigned(i)| <= SignedBound(bits)
    ensures |FormatSigned(-(Pow2(bits - 1) as int))| == SignedBound(bits)
  {
    FormatMonotone(if i < 0 then -i else i, Pow2(bits - 1));
  }

  // the widths in use

  lemma Pow2Twice(n: nat, twice: nat, p: nat)
    requires twice == n + n && Pow2(n) == p
    ensures Pow2(twice) == p * p
  {
    Pow2Sum(n, n);
  }

  /** The powers at 8, 16 and almost 16 times `n`, which is 4. */
  lemma PowersFromFour(n: nat)
    requires n == 4
    ensures Pow2(8 * n) == 0x1_0000_0000
    ensures Pow2(16 * n) == 0x1_0000_0000_0000_0000
    ensures Pow2(16 * n - 1) == 0x8000_0000_0000_0000
  {
    assert Pow2(n) == 16;
    Pow2Twice(n, 2 * n, 16);
    Pow2Twice(2 * n, 4 * n, 0x100);
    Pow2Twice(4 * n, 8 * n, 0x1_0000);
    Pow2Twice(8 * n, 16 * n, 0x1_0000_0000);
  }

  lemma PowersOfTwo()
    ensures Pow2(32) == 0x1_0000_0000
    ensures Pow2(63) == 0x8000_0000_0000_0000
    ensures Pow2(64) == 0x1_0000_0000_0000_0000
  {
    PowersFromFour(4);
  }

  lemma PowersOfTen()
    ensures Pow10(9) == 1_000_000_000
    ensures Pow10(10) == 10_000_000_000
    ensures Pow10(18) == 1_000_000_000_000_000_000
    ensures Pow10(19) == 10_000_000_000_000_000_000
    ensures Pow10(20) == 100_000_000_000_000_000_000
  {
    assert Pow10(3) == 1000;
    Pow10Sum(3, 3);
    Pow10Sum(3, 6);
    Pow10Sum(9, 9);
    assert Pow10(10) == 10 * Pow10(9) && Pow10(19) == 10 * Pow10(18) && Pow10(20) == 10 * Pow10(19);
  }

  const U64 := 0x1_0000_0000_0000_0000
  type Unsigned32 = n: nat | n < U32
  type Unsigned64 = n: nat | n < U64

  const I64_MIN := -0x8000_0000_0000_0000

  lemma Width32(widest: nat, n: nat)
    requires widest >= 32 && n < U32
    ensures UnsignedBound(32, widest) == 10 && |FormatUnsigned(n)| <= 10
    ensures |FormatUnsigned(U32 - 1)| == 10
  {
    PowersOfTwo();
    PowersOfTen();
    UnsignedBoundTight(32, widest, n);
    FormatLength(U32 - 1, 9);
    FormatLength(U32 - 1, 10);
  }

  lemma Width64(widest: nat, n: nat)
    requires widest >= 64 && n < U64
    ensures UnsignedBound(64, widest) == 20 && |FormatUnsigned(n)| <= 20
    ensures |FormatUnsigned(U64 - 1)| == 20
  {
    PowersOfTwo();
    PowersOfTen();
    UnsignedBoundTight(64, widest, n);
    FormatLength(U64 - 1, 19);
    FormatLength(U64 - 1, 20);
  }

  lemma SignedWidth64(i: int)
    requires I64_MIN <= i < -I64_MIN
    ensures SignedBound(64) == 20 && |FormatSigned(i)| <= 20
    ensures |FormatSigned(I64_MIN)| == 20
  {
    PowersOfTwo();
    PowersOfTen();
    SignedBoundTight(64, i);
    FormatLength(-I64_MIN, 18);
    FormatLength(-I64_MIN, 19);
  }
}
