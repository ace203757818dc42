/**
 * The integer helpers of Sources/Foundatee/Common+Scalar.swift: the `<!` and
 * `>!` operators and `Int.limitedString(digits:)`.
 *
 * The operators are generic over `Comparable`; here a value is compared by an
 * integer `key`, so that two different values can compare equal, as two
 * instances of a `Comparable` type can.
 */
module CommonScalar {

  /** The range of a 64-bit `Int`. */
  const IntMin: int := -0x8000_0000_0000_0000
  const IntMax: int := 0x7FFF_FFFF_FFFF_FFFF

  // ----- <! and >! -----

  /** `lhs <! rhs`: the left operand when it is smaller, the right one otherwise. */
  function LesserOf<T>(lhs: T, rhs: T, key: T -> int): (r: T)
    ensures r == lhs || r == rhs
    ensures key(r) <= key(lhs) && key(r) <= key(rhs)
    ensures key(lhs) == key(rhs) ==> r == rhs
  {
    if key(lhs) < key(rhs) then lhs else rhs
  }

  /** `lhs >! rhs`: the left operand when it is greater, the right one otherwise. */
  function GreaterOf<T>(lhs: T, rhs: T, key: T -> int): (r: T)
    ensures r == lhs || r == rhs
    ensures key(r) >= key(lhs) && key(r) >= key(rhs)
    ensures key(lhs) == key(rhs) ==> r == rhs
  {
    if key(lhs) > key(rhs) then lhs else rhs
  }

  /**
   * Operands that compare unequal are split between `<!` and `>!`; on a tie
   * both operators return the right operand and the left one is dropped.
   */
  lemma LesserAndGreater<T>(lhs: T, rhs: T, key: T -> int)
    ensures key(lhs) != key(rhs) ==>
      multiset{LesserOf(lhs, rhs, key), GreaterOf(lhs, rhs, key)} == multiset{lhs, rhs}
    ensures key(lhs) == key(rhs) ==>
      LesserOf(lhs, rhs, key) == rhs && GreaterOf(lhs, rhs, key) == rhs
  {
  }

  /** Swapping the operands changes the result only on a tie. */
  lemma LesserOfSwapped<T>(lhs: T, rhs: T, key: T -> int)
    ensures LesserOf(lhs, rhs, key) == LesserOf(rhs, lhs, key) <==> key(lhs) != key(rhs) || lhs == rhs
    ensures GreaterOf(lhs, rhs, key) == GreaterOf(rhs, lhs, key) <==> key(lhs) != key(rhs) || lhs == rhs
  {
  }

  // ----- decimal text -----

  /** Ten to the power `n`. */
  function Pow10(n: nat): (p: nat)
    ensures p >= 1
  {
    if n == 0 then 1 else 10 * Pow10(n - 1)
  }

  /** The decimal digits of `n`, most significant first, without leading zeros ("0" for zero). */
  function Digits(n: nat): (s: string)
    ensures 1 <= |s| && forall i :: 0 <= i < |s| ==> '0' <= s[i] <= '9'
    decreases n
  {
    if n < 10 then [(48 + n) as char] else Digits(n / 10) + [(48 + n % 10) as char]
  }

  /** A positive number has `k` digits exactly when it lies in `[10^(k-1), 10^k)`. */
  lemma {:induction false} DigitsBounds(n: nat)
    requires n >= 1
    ensures Pow10(|Digits(n)| - 1) <= n < Pow10(|Digits(n)|)
    decreases n
  {
    if n >= 10 {
      DigitsBounds(n / 10);
    }
  }

  /** More than `k` digits exactly when at least `10^k`. */
  lemma MoreDigitsThan(n: nat, k: nat)
    requires n >= 1
    ensures |Digits(n)| > k <==> n >= Pow10(k)
  {
    DigitsBounds(n);
    if |Digits(n)| > k {
      Pow10Monotone(k, |Digits(n)| - 1);
    } else {
      Pow10Monotone(|Digits(n)|, k);
    }
  }

  lemma {:induction false} Pow10Monotone(a: nat, b: nat)
    requires a <= b
    ensures Pow10(a) <= Pow10(b)
    decreases b
  {
    if a < b {
      Pow10Monotone(a, b - 1);
    }
  }

  /** `String(n)`: the decimal text of an integer, with a leading `-` when negative. */
  function Description(n: int): string
  {
    if n < 0 then "-" + Digits(-n) else Digits(n)
  }

  /** `String(repeating: "9", count: n)`. */
  function Nines(n: nat): string
  {
    seq(n, _ => '9')
  }

  function Abs(n: int): nat
  {
    if n < 0 then -n else n
  }

  // ----- limitedString -----

  /**
   * `limitedString(digits:)`: the decimal text of the number, unless the
   * number has more digits than `digits` allows, in which case that many
   * nines and a `+`. A `digits` outside 1 to 126, or a zero number, gives the
   * plain text. The digit count is exact here.
   */
  function LimitedString(n: int, digits: int): (r: string)
    requires IntMin <= n <= IntMax && -128 <= digits <= 127
    requires 1 <= digits < 127 && n != 0 ==> n != IntMin
    ensures !(1 <= digits < 127) || n == 0 ==> r == Description(n)
    ensures 1 <= digits < 127 && n != 0 ==>
      (r == Nines(digits) + "+" <==> Abs(n) >= Pow10(digits)) &&
      (Abs(n) < Pow10(digits) ==> r == Description(n))
    ensures 1 <= digits < 127 ==> |r| <= digits + 1
  {
    if !(1 <= digits < 127) || n == 0 then
      Description(n)
    else
      MoreDigitsThan(Abs(n), digits);
      if |Digits(Abs(n))| > digits then
        Nines(digits) + "+"
      else
        assert Description(n) != Nines(digits) + "+" by {
          if n > 0 {
            assert |Description(n)| <= digits;
          } else {
            assert Description(n)[0] == '-' != (Nines(digits) + "+")[0];
          }
        }
        Description(n)
  }

  /** The examples of the documentation: ten with one digit allowed is "9+", one hundred with two is "99+". */
  lemma LimitedStringExamples()
    ensures LimitedString(10, 1) == "9+"
    ensures LimitedString(100, 2) == "99+"
    ensures LimitedString(99, 2) == "99"
    ensures LimitedString(IntMin, 0) == Description(IntMin)
  {
    assert Pow10(1) == 10 && Pow10(2) == 100;
    assert Digits(99) == "99" by {
      assert Digits(9) == "9";
    }
  }
}
