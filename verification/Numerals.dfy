/** What the recursive number printers emit (kernel/src/drivers/serial.c,
    kernel/src/drivers/vga.c), and when it is the number. */
module Numerals {
  import opened Arithmetic
  import opened Ascii
  import opened Machine

  /** "0123456789ABCDEF" */
  const DIGITS: seq<bv8> := [0x30, 0x31, 0x32, 0x33, 0x34, 0x35, 0x36, 0x37,
                             0x38, 0x39, 0x41, 0x42, 0x43, 0x44, 0x45, 0x46]

  // When the recursion ends

  /** The number the printer is called with after `n` recursive calls. */
  function Argument(nb: nat, base: nat, n: nat): nat
    requires 1 <= base
    decreases n
  {
    if n == 0 then nb else Argument(nb / base, base, n - 1)
  }

  /** The recursion reaches a number that is not above the base. */
  ghost predicate RecursionEnds(nb: nat, base: nat)
    requires 1 <= base
  {
    exists n: nat :: Argument(nb, base, n) <= base
  }

  lemma {:induction false} CallsToEnd(nb: nat, base: nat) returns (n: nat)
    requires 2 <= base
    ensures Argument(nb, base, n) <= base
    decreases nb
  {
    if nb <= base {
      n := 0;
    } else {
      DivSmaller(nb, base);
      var m := CallsToEnd(nb / base, base);
      n := m + 1;
    }
  }

  lemma {:induction false} BaseOneStays(nb: nat, n: nat)
    ensures Argument(nb, 1, n) == nb
    decreases n
  {
    if 0 < n {
      DivModUnique(nb, 1, nb, 0);
      BaseOneStays(nb, n - 1);
    }
  }

  /** The recursion ends in every base from 2 on, and in base 1 for 0 and 1 only. */
  lemma RecursionEndsIff(nb: nat, base: nat)
    requires 1 <= base
    ensures RecursionEnds(nb, base) <==> 2 <= base || nb <= 1
  {
    if 2 <= base {
      var n := CallsToEnd(nb, base);
    } else if nb <= 1 {
      assert Argument(nb, base, 0) <= base;
    } else {
      forall n: nat ensures Argument(nb, base, n) == nb {
        BaseOneStays(nb, n);
      }
    }
  }

  /** The printer accepts the base, does not divide by zero and ends; see `RecursionEndsIff`. */
  predicate CanPrint(nb: nat, base: nat) {
    1 <= base <= 16 && (2 <= base || nb <= 1)
  }

  // What is printed

  /** The bytes the printer emits: it recurses on `nb > base`, not on `nb >= base`. */
  function Digits(nb: nat, base: nat): (s: seq<bv8>)
    requires CanPrint(nb, base)
    ensures s != []
    decreases nb
  {
    (if nb > base then DivSmaller(nb, base); Digits(nb / base, base) else []) + [DIGITS[nb % base]]
  }

  /** The usual numeral of `nb`. */
  function Numeral(nb: nat, base: nat): (s: seq<bv8>)
    requires 2 <= base <= 16
    ensures s != []
    decreases nb
  {
    (if nb >= base then DivSmaller(nb, base); Numeral(nb / base, base) else []) + [DIGITS[nb % base]]
  }

  function DigitValue(b: bv8): int {
    if b <= 0x39 then b as nat - 0x30 else b as nat - 0x37
  }

  function Value(s: seq<bv8>, base: nat): int {
    if s == [] then 0 else Value(s[..|s| - 1], base) * base + DigitValue(s[|s| - 1])
  }

  function Pow(base: nat, k: nat): nat {
    if k == 0 then 1 else base * Pow(base, k - 1)
  }

  lemma DigitRoundTrip(d: nat)
    requires d < 16
    ensures DigitValue(DIGITS[d]) == d && DIGITS[d] != MINUS
  {
  }

  /** The character codes of the digits: '0' to '9' and 'A' to 'F'. */
  lemma DigitCode(d: nat)
    requires d < 16
    ensures DIGITS[d] as nat == if d < 10 then 0x30 + d else 0x37 + d
  {
  }

  lemma ValueAppended(s: seq<bv8>, d: nat, base: nat)
    requires d < 16
    ensures Value(s + [DIGITS[d]], base) == Value(s, base) * base + d
  {
    DigitRoundTrip(d);
    assert (s + [DIGITS[d]])[..|s|] == s;
  }

  /** Appending the last digit of `nb` to digits that stand for `nb / base`, or fall
      short of it by `gap`. */
  lemma ValueStep(front: seq<bv8>, nb: nat, base: nat, gap: int)
    requires 2 <= base <= 16
    requires Value(front, base) == nb / base - gap
    ensures Value(front + [DIGITS[nb % base]], base) == nb - base * gap
  {
    ValueAppended(front, nb % base, base);
    DivMod(nb, base);
    Recompose(nb, base, nb / base, nb % base, gap);
  }

  /** The usual numeral decodes to its number. */
  lemma {:induction false} NumeralValue(nb: nat, base: nat)
    requires 2 <= base <= 16
    ensures Value(Numeral(nb, base), base) == nb
    decreases nb
  {
    if nb >= base {
      var q := nb / base;
      DivSmaller(nb, base);
      NumeralValue(q, base);
      ValueStep(Numeral(q, base), nb, base, 0);
      assert Numeral(nb, base) == Numeral(q, base) + [DIGITS[nb % base]];
    } else {
      DivModUnique(nb, base, 0, nb);
      ValueStep([], nb, base, 0);
      assert Numeral(nb, base) == [] + [DIGITS[nb % base]];
    }
  }

  lemma PowBounds(q: nat, base: nat, r: nat, n: nat, nb: nat)
    requires r < base && nb == base * q + r
    ensures q < Pow(base, n) ==> nb < Pow(base, n + 1)
    ensures Pow(base, n) <= q ==> Pow(base, n + 1) <= nb
  {
    var p := Pow(base, n);
    assert Pow(base, n + 1) == base * p;
    if q < p {
      MulMonotone(base, q + 1, p);
    } else {
      MulMonotone(base, p, q);
    }
  }

  /** It begins with a nonzero digit and is as short as that allows. */
  lemma {:induction false} NumeralMinimal(nb: nat, base: nat)
    requires 2 <= base <= 16
    ensures nb < Pow(base, |Numeral(nb, base)|)
    ensures 0 < nb ==> Numeral(nb, base)[0] != DIGITS[0] && Pow(base, |Numeral(nb, base)| - 1) <= nb
    decreases nb
  {
    if nb >= base {
      var q, r := nb / base, nb % base;
      DivSmaller(nb, base);
      DivAtLeastOne(nb, base);
      NumeralMinimal(q, base);
      var n := |Numeral(q, base)|;
      DivMod(nb, base);
      PowBounds(q, base, r, n, nb);
      PowBounds(q, base, r, n - 1, nb);
    } else {
      DivModUnique(nb, base, 0, nb);
      assert Pow(base, 1) == base * Pow(base, 0) == base;
      DigitRoundTrip(nb);
    }
  }

  // When the printer departs from the numeral

  lemma QuotientShift(nb: nat, base: nat, i: nat)
    requires 2 <= base && 0 < Pow(base, i)
    ensures 0 < Pow(base, i + 1) && nb / Pow(base, i + 1) == nb / base / Pow(base, i)
  {
    DivDiv(nb, base, Pow(base, i));
  }

  lemma {:induction false} TableEntryAt(nb: nat, base: nat, i: nat)
    requires 2 <= base <= 16 && i < |Digits(nb, base)|
    ensures 0 < Pow(base, i)
    ensures Digits(nb, base)[|Digits(nb, base)| - 1 - i] == DIGITS[nb / Pow(base, i) % base]
    decreases i
  {
    if i == 0 {
      DivModUnique(nb, 1, nb, 0);
    } else {
      var q, front := nb / base, Digits(nb / base, base);
      TableEntryAt(q, base, i - 1);
      QuotientShift(nb, base, i - 1);
      assert Digits(nb, base)[|front| - i] == front[|front| - i];
    }
  }

  /** Every emitted byte is the character of the digit at its place: counted from the
      right, byte `i` stands for `nb / base^i % base`. */
  lemma DigitAt(nb: nat, base: nat, i: nat)
    requires 2 <= base <= 16 && i < |Digits(nb, base)|
    ensures 0 < Pow(base, i)
    ensures var d := nb / Pow(base, i) % base;
            Digits(nb, base)[|Digits(nb, base)| - 1 - i] as nat == if d < 10 then 0x30 + d else 0x37 + d
  {
    TableEntryAt(nb, base, i);
    DivMod(nb / Pow(base, i), base);
    DigitCode(nb / Pow(base, i) % base);
  }

  /** In base 1 the printer emits a lone '0' for the two numbers it ends for. */
  lemma DigitsInBaseOne(nb: nat)
    requires nb <= 1
    ensures Digits(nb, 1) == [0x30]
  {
    DivModUnique(nb, 1, nb, 0);
  }

  lemma {:induction false} PowPositive(base: nat, k: nat)
    requires 1 <= base
    ensures 0 < Pow(base, k)
  {
    if 0 < k {
      PowPositive(base, k - 1);
      AtLeast(base, Pow(base, k - 1));
    }
  }

  /** The `k`-th quotient equals the base, where the printer stops one step early. */
  predicate StopsEarlyAt(nb: nat, base: nat, k: nat)
    requires 2 <= base
  {
    PowPositive(base, k);
    nb / Pow(base, k) == base
  }

  lemma NextQuotient(nb: nat, base: nat, k: nat)
    requires 2 <= base
    ensures StopsEarlyAt(nb, base, k + 1) <==> StopsEarlyAt(nb / base, base, k)
  {
    PowPositive(base, k);
    DivDiv(nb, base, Pow(base, k));
  }

  /** The interval of the numbers whose `k`-th quotient equals the base. */
  lemma StopsEarlyInterval(nb: nat, base: nat, k: nat)
    requires 2 <= base
    ensures StopsEarlyAt(nb, base, k) <==> Pow(base, k + 1) <= nb < Pow(base, k + 1) + Pow(base, k)
  {
    PowPositive(base, k);
    var p := Pow(base, k);
    assert Pow(base, k + 1) == p * base;
    if p * base <= nb < p * base + p {
      DivModUnique(nb, p, base, nb - p * base);
    }
  }

  /** At the base itself the printer emits a lone zero. */
  lemma DigitsOfBase(base: nat)
    requires 2 <= base <= 16
    ensures Digits(base, base) == [DIGITS[0]] && Numeral(base, base) == [DIGITS[1], DIGITS[0]]
    ensures Value(Digits(base, base), base) == 0
  {
    DivModUnique(base, base, 1, 0);
    DivModUnique(1, base, 0, 1);
    assert Numeral(1, base) == [DIGITS[1]];
    ValueAppended([], 0, base);
  }

  lemma EarlyIsAboveBase(nb: nat, base: nat)
    requires 2 <= base && base <= nb / base
    ensures base < nb
  {
    DivSmaller(nb, base);
  }

  lemma EarlyIsLarge(nb: nat, base: nat, k: nat)
    requires 2 <= base && StopsEarlyAt(nb, base, k)
    ensures base <= nb
  {
    PowPositive(base, k);
    AtLeast(base, Pow(base, k));
    assert Pow(base, k) * base <= nb;
  }

  lemma EarlyAtOnce(nb: nat, base: nat)
    requires 2 <= base && StopsEarlyAt(nb, base, 0)
    ensures nb == base && Pow(base, 1) == base
  {
    DivModUnique(nb, 1, nb, 0);
    assert Pow(base, 1) == base * Pow(base, 0);
  }

  /** If a quotient equals the base, the digits are the usual numeral without its
      leading 1; there are `k + 1` of them and they fall short by `base^(k+1)`. */
  lemma {:induction false} DigitsWhenEarly(nb: nat, base: nat, k: nat)
    requires 2 <= base <= 16 && StopsEarlyAt(nb, base, k)
    ensures Numeral(nb, base) == [DIGITS[1]] + Digits(nb, base)
    ensures |Digits(nb, base)| == k + 1 && Digits(nb, base)[0] == DIGITS[0]
    ensures Value(Digits(nb, base), base) == nb - Pow(base, k + 1)
    decreases k
  {
    if k == 0 {
      EarlyAtOnce(nb, base);
      DigitsOfBase(base);
    } else {
      var q := nb / base;
      NextQuotient(nb, base, k - 1);
      EarlyIsLarge(q, base, k - 1);
      DigitsWhenEarly(q, base, k - 1);
      EarlyIsAboveBase(nb, base);
      ValueStep(Digits(q, base), nb, base, Pow(base, k));
      var front, last := Digits(q, base), [DIGITS[nb % base]];
      assert Digits(nb, base) == front + last && Numeral(nb, base) == Numeral(q, base) + last;
      assert [DIGITS[1]] + (front + last) == ([DIGITS[1]] + front) + last;
    }
  }

  /** If no quotient equals the base, the digits are the usual numeral. */
  lemma {:induction false} DigitsWhenNotEarly(nb: nat, base: nat)
    requires 2 <= base <= 16
    requires forall k: nat :: !StopsEarlyAt(nb, base, k)
    ensures Digits(nb, base) == Numeral(nb, base)
    decreases nb
  {
    assert !StopsEarlyAt(nb, base, 0);
    if nb > base {
      DivSmaller(nb, base);
      forall k: nat ensures !StopsEarlyAt(nb / base, base, k) {
        NextQuotient(nb, base, k);
      }
      DigitsWhenNotEarly(nb / base, base);
    }
  }

  lemma DigitsDistinct(c: nat, d: nat)
    requires c < 16 && d < 16 && DIGITS[c] == DIGITS[d]
    ensures c == d
  {
    DigitRoundTrip(c);
    DigitRoundTrip(d);
  }

  /** A numeral that begins with "10" comes from a number with such a quotient. */
  lemma {:induction false} OneZeroIsEarly(nb: nat, base: nat) returns (k: nat)
    requires 2 <= base <= 16
    requires var s := Numeral(nb, base); |s| >= 2 && s[0] == DIGITS[1] && s[1] == DIGITS[0]
    ensures StopsEarlyAt(nb, base, k)
    decreases nb
  {
    var q, r := nb / base, nb % base;
    DivSmaller(nb, base);
    if q < base {
      DivModUnique(q, base, 0, q);
      assert Numeral(q, base) == [DIGITS[q]];
      DigitsDistinct(q, 1);
      DigitsDistinct(r, 0);
      k := 0;
      DivMod(nb, base);
      assert Pow(base, 0) == 1;
    } else {
      var j := OneZeroIsEarly(q, base);
      k := j + 1;
      NextQuotient(nb, base, j);
    }
  }

  /** Exactly when no quotient `nb / base^k` equals the base do the digits decode to
      `nb`; that there is none can be read off the usual numeral, which must not
      begin with "10". */
  lemma DigitsDecodeIff(nb: nat, base: nat)
    requires 2 <= base <= 16
    ensures Value(Digits(nb, base), base) == nb <==> forall k: nat :: !StopsEarlyAt(nb, base, k)
    ensures (forall k: nat :: !StopsEarlyAt(nb, base, k))
       <==> !(var s := Numeral(nb, base); |s| >= 2 && s[0] == DIGITS[1] && s[1] == DIGITS[0])
    ensures (forall k: nat :: !StopsEarlyAt(nb, base, k)) <==> Digits(nb, base) == Numeral(nb, base)
  {
    if k: nat :| StopsEarlyAt(nb, base, k) {
      DigitsWhenEarly(nb, base, k);
      PowPositive(base, k + 1);
    } else {
      DigitsWhenNotEarly(nb, base);
      NumeralValue(nb, base);
      if var s := Numeral(nb, base); |s| >= 2 && s[0] == DIGITS[1] && s[1] == DIGITS[0] {
        var k := OneZeroIsEarly(nb, base);
      }
    }
  }

  lemma EarlyUnique(nb: nat, base: nat, j: nat, k: nat)
    requires 2 <= base <= 16 && StopsEarlyAt(nb, base, j) && StopsEarlyAt(nb, base, k)
    ensures j == k
  {
    DigitsWhenEarly(nb, base, j);
    DigitsWhenEarly(nb, base, k);
  }

  /** A number with such a quotient prints like a number without one only if they are
      the base and 0. */
  lemma EarlyPrintsLike(a: nat, b: nat, base: nat, k: nat)
    requires 2 <= base <= 16
    requires StopsEarlyAt(a, base, k) && forall j: nat :: !StopsEarlyAt(b, base, j)
    requires Digits(a, base) == Digits(b, base)
    ensures a == base && b == 0
  {
    DigitsWhenEarly(a, base, k);
    DigitsWhenNotEarly(b, base);
    NumeralMinimal(b, base);
    assert b == 0;
    assert k == 0 && Pow(base, 0) == 1;
  }

  /** The printer makes exactly one pair of numbers per base indistinguishable: 0 and
      the base itself. */
  lemma DigitsAlikeIff(a: nat, b: nat, base: nat)
    requires 2 <= base <= 16
    ensures Digits(a, base) == Digits(b, base)
       <==> a == b || (a == 0 && b == base) || (a == base && b == 0)
  {
    DigitsOfBase(base);
    DivModUnique(0, base, 0, 0);
    if Digits(a, base) == Digits(b, base) {
      if j: nat :| StopsEarlyAt(a, base, j) {
        if k: nat :| StopsEarlyAt(b, base, k) {
          DigitsWhenEarly(a, base, j);
          DigitsWhenEarly(b, base, k);
          NumeralValue(a, base);
          NumeralValue(b, base);
        } else {
          EarlyPrintsLike(a, b, base, j);
        }
      } else if k: nat :| StopsEarlyAt(b, base, k) {
        EarlyPrintsLike(b, a, base, k);
      } else {
        DigitsDecodeIff(a, base);
        DigitsDecodeIff(b, base);
      }
    }
  }

  // Signed numbers, in base 10 only

  function Magnitude(nb: int32): nat {
    if nb < 0 then 0 - nb else nb
  }

  /** Negating a negative number by `nb *= -1` gives its magnitude for every `nb` above INT32_MIN. */
  function SignedDigits(nb: int32): seq<bv8> {
    if nb < 0 then [MINUS] + Digits(Magnitude(nb), 10) else Digits(Magnitude(nb), 10)
  }

  function SignedValue(s: seq<bv8>): int {
    if s != [] && s[0] == MINUS then -Value(s[1..], 10) else Value(s, 10)
  }

  /** A minus sign (0x2D) stands before the digits of a negative number's magnitude, and
      nothing before those of another. */
  lemma SignedDigitsShape(nb: int32)
    requires -0x8000_0000 < nb
    ensures SignedDigits(nb) == if nb < 0 then [0x2D] + Digits(0 - nb, 10) else Digits(nb, 10)
  {
  }

  lemma {:induction false} DigitsBeginWithDigit(nb: nat, base: nat)
    requires 2 <= base <= 16
    ensures Digits(nb, base)[0] != MINUS
    decreases nb
  {
    if nb > base {
      DivSmaller(nb, base);
      DigitsBeginWithDigit(nb / base, base);
    } else {
      DivMod(nb, base);
      DigitRoundTrip(nb % base);
    }
  }

  /** The signed digits decode to `nb` exactly when those of its magnitude do. */
  lemma SignedDigitsDecodeIff(nb: int32)
    requires INT32_MIN < nb
    ensures SignedValue(SignedDigits(nb)) == nb <==> forall k: nat :: !StopsEarlyAt(Magnitude(nb), 10, k)
  {
    var digits := Digits(Magnitude(nb), 10);
    DigitsDecodeIff(Magnitude(nb), 10);
    DigitsBeginWithDigit(Magnitude(nb), 10);
    if nb < 0 {
      assert SignedDigits(nb)[1..] == digits;
    } else {
      assert SignedDigits(nb) == digits;
    }
  }
}
