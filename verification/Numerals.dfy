/** String::fromInt and String::toInt of stdlib/string.hpp. */
module Numerals {
  const CHARMAP := "0123456789abcdefghijklmnopqrstuvwxyz"
  const WORD := 0x1_0000_0000
  const HALF := 0x8000_0000

  /** A 32-bit word read as a signed integer. */
  function Signed(x: int): int {
    if x % WORD < HALF then x % WORD else x % WORD - WORD
  }

  /** It is the one signed 32-bit number with the same low 32 bits. */
  lemma SignedWord(x: int, y: int)
    ensures y == Signed(x) <==> -HALF <= y < HALF && (y - x) % WORD == 0
  {
    var k := x / WORD;
    assert x == k * WORD + x % WORD;
    if -HALF <= y < HALF && (y - x) % WORD == 0 {
      var j := (y - x) / WORD;
      assert y == (k + j) * WORD + x % WORD;
    }
  }

  /** The numeral of `n` in `base`, most significant digit first. */
  function Digits(n: int, base: int): (s: string)
    requires 0 <= n && 2 <= base <= 36
    ensures |s| > 0
    decreases n
  {
    if n < base then [CHARMAP[n]]
    else
      QuotientSmaller(n, base);
      Digits(n / base, base) + [CHARMAP[n % base]]
  }

  lemma QuotientSmaller(n: int, base: int)
    requires 2 <= base <= n
    ensures 0 < n / base < n && n == (n / base) * base + n % base && 0 <= n % base < base
  {
    var q, r := n / base, n % base;
    assert n == base * q + r && 0 <= r < base;
    Times(base, q);
  }

  /** For base >= 2, base * q is at least 2 * q when q is positive and at most 2 * q otherwise. */
  lemma Times(base: int, q: int)
    requires 2 <= base
    ensures q >= 1 ==> base * q >= 2 * q
    ensures q <= 0 ==> base * q <= 0
  {
    if q >= 1 {
      assert (base - 2) * q >= 0;
    } else {
      assert base * (-q) >= 0;
    }
  }

  /** The last digit of a numeral, and the numeral before it. */
  lemma LastDigit(n: int, base: int)
    requires 0 <= n && 2 <= base <= 36
    ensures 0 <= n % base < |CHARMAP| && 0 <= n / base && (n > 0 ==> n / base < n)
    ensures Digits(n, base) == (if n / base == 0 then [] else Digits(n / base, base)) + [CHARMAP[n % base]]
  {
    if n < base { SmallDigit(n, base); } else { QuotientSmaller(n, base); }
  }

  method FromUnsigned(n: int, base: int) returns (str: string)
    requires 0 <= n < WORD && 2 <= base <= 36
    ensures str == Digits(n, base)
  {
    hide Digits;
    var num := n;
    LastDigit(n, base);
    str := [CHARMAP[num % base]];
    num := num / base;
    while num > 0
      invariant 0 <= num
      invariant Digits(n, base) == (if num == 0 then [] else Digits(num, base)) + str
      decreases num
    {
      LastDigit(num, base);
      var c := CHARMAP[num % base];
      assert forall d: string :: (d + [c]) + str == d + ([c] + str);
      str := [c] + str;
      num := num / base;
    }
  }

  lemma SmallDigit(n: int, base: int)
    requires 0 <= n < base
    ensures n % base == n && n / base == 0
  {
  }

  // ----- reading a numeral -----

  /** The digit a character stands for, -1 for none. */
  function DigitOf(c: char): int {
    if '0' <= c <= '9' then c as int - '0' as int
    else if 'a' <= c <= 'z' then c as int - 'a' as int + 10
    else -1
  }

  lemma CharmapInOrder(k: int)
    requires 0 <= k < |CHARMAP|
    ensures |CHARMAP| == 36 && DigitOf(CHARMAP[k]) == k
  {
    assert |CHARMAP| == 36;
    assert k < 10 ==> CHARMAP[k] == ['0', '1', '2', '3', '4', '5', '6', '7', '8', '9'][k];
  }

  /** String::find on the table of digits. */
  method FindDigit(c: char) returns (r: int)
    ensures r == DigitOf(c)
  {
    r := 0;
    while r < |CHARMAP|
      invariant 0 <= r <= |CHARMAP| == 36
      invariant forall k :: 0 <= k < r ==> CHARMAP[k] != c
    {
      if CHARMAP[r] == c {
        CharmapInOrder(r);
        return;
      }
      r := r + 1;
    }
    if DigitOf(c) >= 0 {
      CharmapComplete(c);
    }
    r := -1;
  }

  lemma CharmapComplete(c: char)
    requires DigitOf(c) >= 0
    ensures |CHARMAP| == 36 && 0 <= DigitOf(c) < 36 && CHARMAP[DigitOf(c)] == c
  {
    var k := DigitOf(c);
    CharmapInOrder(k);
  }

  predicate AllDigits(s: string) {
    forall i :: 0 <= i < |s| ==> DigitOf(s[i]) >= 0
  }

  /** The number a string of digits denotes. */
  function Value(s: string, base: int): int
    requires AllDigits(s)
  {
    if s == "" then 0 else Value(s[..|s| - 1], base) * base + DigitOf(s[|s| - 1])
  }

  function Power(base: int, e: nat): int {
    if e == 0 then 1 else base * Power(base, e - 1)
  }

  lemma {:induction false} ValuePrepend(c: char, s: string, base: int)
    requires AllDigits(s) && DigitOf(c) >= 0
    ensures AllDigits([c] + s) && Value([c] + s, base) == DigitOf(c) * Power(base, |s|) + Value(s, base)
    decreases |s|
  {
    var t := [c] + s;
    if s == "" {
      assert t[..0] == "";
    } else {
      var n := |s| - 1;
      ValuePrepend(c, s[..n], base);
      assert t[..|t| - 1] == [c] + s[..n];
      Distribute(DigitOf(c), Power(base, n), Value(s[..n], base), base);
    }
  }

  lemma Distribute(d: int, p: int, v: int, base: int)
    ensures (d * p + v) * base == d * (base * p) + v * base
  {
    assert d * p * base == d * (base * p);
  }

  /** Words that agree up to whole multiples of 2^32. */
  predicate Congruent(a: int, b: int) {
    (a - b) % WORD == 0
  }

  lemma CongruentTimes(d: int, a: int, b: int)
    requires Congruent(a, b)
    ensures Congruent(d * a, d * b) && Congruent(a * d, b * d)
  {
    var k := (a - b) / WORD;
    assert a - b == WORD * k;
    assert d * a - d * b == d * (a - b) == WORD * (d * k);
    assert a * d - b * d == d * a - d * b;
  }

  lemma SignedCongruent(x: int)
    ensures Congruent(Signed(x), x) && -HALF <= Signed(x) < HALF
  {
  }

  lemma SignedUnique(x: int, y: int)
    requires Congruent(x, y)
    ensures Signed(x) == Signed(y)
  {
    assert x % WORD == y % WORD;
  }

  lemma DigitStep(num: int, factor: int, digit: int, v: int, p: int, base: int)
    requires Congruent(num, v) && Congruent(factor, p)
    ensures Congruent(Signed(num + digit * factor), digit * p + v)
    ensures Congruent(Signed(factor * base), base * p)
    ensures -HALF <= Signed(num + digit * factor) < HALF
  {
    CongruentTimes(digit, factor, p);
    CongruentTimes(base, factor, p);
    var a, b := digit * factor, digit * p;
    SignedCongruent(num + a);
    SignedCongruent(factor * base);
    CongruentSum(Signed(num + a), num + a, b + v, num, v, a, b);
    var c, d := factor * base, base * p;
    CongruentChain(Signed(c), c, d);
  }

  lemma CongruentChain(x: int, y: int, z: int)
    requires Congruent(x, y) && Congruent(y, z)
    ensures Congruent(x, z)
  {
  }

  lemma CongruentSum(x: int, y: int, z: int, num: int, v: int, a: int, b: int)
    requires Congruent(x, y) && y == num + a && z == b + v && Congruent(num, v) && Congruent(a, b)
    ensures Congruent(x, z)
  {
  }

  /** toInt: digits from the right, in 32-bit arithmetic that wraps. A character that is no digit makes
      the result 0. */
  method ToInt(s: string, base: int) returns (num: int)
    requires 2 <= base <= 36
    ensures num == Read(s, base)
  {
    num := 0;
    var factor := 1;
    var i := |s|;
    assert s[i..] == [];
    hide Congruent, Power, Value, Signed;
    StartReading(base);
    while i > 0
      invariant 0 <= i <= |s| && AllDigits(s[i..])
      invariant Congruent(num, Value(s[i..], base)) && -HALF <= num < HALF
      invariant Congruent(factor, Power(base, |s| - i))
    {
      i := i - 1;
      var digit := FindDigit(s[i]);
      if digit == -1 {
        return 0;
      }
      ghost var rest := s[i + 1..];
      assert s[i..] == [s[i]] + rest;
      ValuePrepend(s[i], rest, base);
      DigitStep(num, factor, digit, Value(rest, base), Power(base, |rest|), base);
      PowerNext(base, |rest|);
      num := Signed(num + digit * factor);
      factor := Signed(factor * base);
    }
    assert s[0..] == s;
    SignedUnique(num, Value(s, base));
    SignedSmall(num);
  }

  lemma StartReading(base: int)
    ensures Congruent(0, Value("", base)) && Congruent(1, Power(base, 0))
  {
  }

  lemma PowerNext(base: int, e: nat)
    ensures Power(base, e + 1) == base * Power(base, e)
  {
  }

  lemma SignedSmall(x: int)
    requires -HALF <= x < HALF
    ensures Signed(x) == x
  {
  }

  // ----- round trips -----

  lemma {:induction false} DigitsDenote(n: int, base: int)
    requires 0 <= n && 2 <= base <= 36
    ensures AllDigits(Digits(n, base)) && Value(Digits(n, base), base) == n
    decreases n
  {
    if n < base {
      CharmapInOrder(n);
      assert Digits(n, base)[..0] == "";
    } else {
      QuotientSmaller(n, base);
      CharmapInOrder(n % base);
      DigitsDenote(n / base, base);
      var s := Digits(n, base);
      assert s[..|s| - 1] == Digits(n / base, base);
    }
  }

  /** No numeral has a leading zero but that of zero, which is a single digit. */
  lemma {:induction false} NoLeadingZero(n: int, base: int)
    requires 0 <= n && 2 <= base <= 36
    ensures Digits(n, base)[0] == '0' <==> n == 0
    ensures n == 0 ==> |Digits(n, base)| == 1
    decreases n
  {
    if n < base {
      CharmapInOrder(n);
    } else {
      QuotientSmaller(n, base);
      NoLeadingZero(n / base, base);
    }
  }

  /** Digits below the base, without a leading zero. */
  predicate Canonical(s: string, base: int) {
    && |s| > 0 && (|s| > 1 ==> s[0] != '0')
    && forall i :: 0 <= i < |s| ==> 0 <= DigitOf(s[i]) < base
  }

  lemma {:induction false} NumeralIsCanonical(n: int, base: int)
    requires 0 <= n && 2 <= base <= 36
    ensures Canonical(Digits(n, base), base)
    decreases n
  {
    NoLeadingZero(n, base);
    if n < base {
      CharmapInOrder(n);
    } else {
      QuotientSmaller(n, base);
      CharmapInOrder(n % base);
      NumeralIsCanonical(n / base, base);
    }
  }

  lemma {:induction false} PositiveValue(s: string, base: int)
    requires Canonical(s, base) && s[0] != '0' && 2 <= base
    ensures AllDigits(s) && Value(s, base) >= 1
    decreases |s|
  {
    var t := s[..|s| - 1];
    if t != "" {
      PositiveValue(t, base);
      Times(base, Value(t, base));
    }
  }

  lemma SameDigit(a: char, b: char)
    requires DigitOf(a) == DigitOf(b) >= 0
    ensures a == b
  {
    CharmapComplete(a);
    CharmapComplete(b);
  }

  lemma AtLeastOnce(k: int, base: int)
    requires 1 <= k && 0 <= base
    ensures k * base >= base
    decreases k
  {
    if k > 1 {
      AtLeastOnce(k - 1, base);
      assert k * base == (k - 1) * base + base;
    }
  }

  lemma LessSplit(q: int, d: int, r: int, e: int, base: int)
    requires q < r && 0 <= d < base && 0 <= e
    ensures q * base + d < r * base + e
  {
    AtLeastOnce(r - q, base);
    assert r * base == q * base + (r - q) * base;
  }

  /** Quotient and remainder are unique. */
  lemma SameSplit(q: int, d: int, r: int, e: int, base: int)
    requires q * base + d == r * base + e && 0 <= d < base && 0 <= e < base
    ensures q == r && d == e
  {
    if q < r { LessSplit(q, d, r, e, base); }
    if r < q { LessSplit(r, e, q, d, base); }
  }

  /** The number a canonical numeral denotes determines it. */
  lemma {:induction false} CanonicalUnique(s: string, t: string, base: int)
    requires 2 <= base && Canonical(s, base) && Canonical(t, base) && AllDigits(s) && AllDigits(t)
    requires Value(s, base) == Value(t, base)
    ensures s == t
    decreases |s|
  {
    var a, b := s[..|s| - 1], t[..|t| - 1];
    var d, e := DigitOf(s[|s| - 1]), DigitOf(t[|t| - 1]);
    SameSplit(Value(a, base), d, Value(b, base), e, base);
    SameDigit(s[|s| - 1], t[|t| - 1]);
    if a != "" && b != "" {
      CanonicalUnique(a, b, base);
    } else if a != "" {
      PositiveValue(a, base);
    } else if b != "" {
      PositiveValue(b, base);
    }
    assert s == a + [s[|s| - 1]] && t == b + [t[|t| - 1]];
  }

  /** So the numeral of `n` is the only canonical one that denotes it. */
  lemma NumeralIsTheOne(n: int, base: int, s: string)
    requires 0 <= n && 2 <= base <= 36
    ensures s == Digits(n, base) <==> Canonical(s, base) && AllDigits(s) && Value(s, base) == n
  {
    NumeralIsCanonical(n, base);
    DigitsDenote(n, base);
    if Canonical(s, base) && AllDigits(s) && Value(s, base) == n { CanonicalUnique(s, Digits(n, base), base); }
  }

  /** What toInt makes of any string. */
  function Read(s: string, base: int): int {
    if AllDigits(s) then Signed(Value(s, base)) else 0
  }

  /** Reading back the numeral of an unsigned word gives the word exactly below 2^31. */
  lemma UnsignedRoundTrip(n: int, base: int)
    requires 0 <= n < WORD && 2 <= base <= 36
    ensures Read(Digits(n, base), base) == n <==> n < HALF
    ensures Read(Digits(n, base), base) == Signed(n)
  {
    DigitsDenote(n, base);
  }

  /** fromInt of a signed word: a minus sign and the numeral of the negation. */
  function SignedDigits(n: int, base: int): string
    requires -HALF <= n < HALF && 2 <= base <= 36
  {
    if n < 0 then "-" + Digits(-n, base) else Digits(n, base)
  }

  method FromSigned(n: int, base: int) returns (str: string)
    requires -HALF <= n < HALF && 2 <= base <= 36
    ensures str == SignedDigits(n, base)
  {
    if n < 0 {
      str := FromUnsigned(-n, base);
      str := "-" + str;
    } else {
      str := FromUnsigned(n, base);
    }
  }

  /** A minus sign exactly for negative words, and the canonical numeral of what is left, also for -2^31. */
  lemma SignedDenotes(n: int, base: int)
    requires -HALF <= n < HALF && 2 <= base <= 36
    ensures var s := SignedDigits(n, base);
            if n < 0 then
              && |s| > 1 && s[0] == '-' && Canonical(s[1..], base) && AllDigits(s[1..]) && Value(s[1..], base) == -n
            else
              Canonical(s, base) && AllDigits(s) && Value(s, base) == n
  {
    var m := if n < 0 then -n else n;
    NumeralIsCanonical(m, base);
    DigitsDenote(m, base);
    assert n < 0 ==> SignedDigits(n, base)[1..] == Digits(m, base);
  }

  /** toInt does not know the minus sign: a signed word reads back exactly when it is not negative,
      and a negative one always reads as zero. */
  lemma SignedRoundTrip(n: int, base: int)
    requires -HALF <= n < HALF && 2 <= base <= 36
    ensures Read(SignedDigits(n, base), base) == n <==> n >= 0
    ensures n < 0 ==> Read(SignedDigits(n, base), base) == 0
  {
    if n < 0 {
      var s := SignedDigits(n, base);
      assert s[0] == '-' && DigitOf(s[0]) == -1;
    } else {
      DigitsDenote(n, base);
    }
  }
}
