/** Printing of integers, in any base from 2 to 36 and as hexadecimal words. */
module Numbers {
  const WORD: nat := 0x1_0000_0000_0000_0000
  const HALF: nat := 0x8000_0000_0000_0000

  /** The digit table, which reads the same in both directions from its middle. */
  const TABLE: string := DOWN + NINE + UP + LETTERS
  const DOWN: string := "zyxwvutsrqponmlkjihgfedcba"
  const NINE: string := "987654321"
  const UP: string := "0123456789"
  const LETTERS: string := "abcdefghijklmnopqrstuvwxyz"

  predicate IsInt64(v: int) {
    -(HALF as int) <= v < HALF
  }

  predicate Legal(base: int) {
    2 <= base <= 36
  }

  function Abs(v: int): nat {
    if v < 0 then -v else v
  }

  function Quotient(n: nat, b: nat): nat
    requires b >= 2
  {
    n / b
  }

  function Remainder(n: nat, b: nat): nat
    requires b >= 2
  {
    n % b
  }

  lemma DivisionLaw(n: nat, b: nat)
    requires b >= 2
    ensures n == Quotient(n, b) * b + Remainder(n, b) && Remainder(n, b) < b
  {
  }

  lemma Product(q: nat, b: nat)
    requires b >= 2
    ensures q * b >= 2 * q && (q > 0 ==> q * b >= b) && (q == 0 ==> q * b == 0)
  {
    assert q * b == 2 * q + q * (b - 2);
    if q > 0 {
      assert q * b == b + (q - 1) * b;
    }
  }

  /** A quotient is at most half, and zero exactly for numbers below the divisor, which are their own remainders. */
  lemma QuotientBounds(n: nat, b: nat)
    requires b >= 2
    ensures 2 * Quotient(n, b) <= n && Remainder(n, b) < b
    ensures Quotient(n, b) == 0 <==> n < b
    ensures n < b ==> Remainder(n, b) == n
  {
    hide Quotient, Remainder;
    DivisionLaw(n, b);
    Product(Quotient(n, b), b);
  }

  /** Division and remainder of machine integers, which truncate toward zero. */
  function Div(v: int, b: nat): int
    requires b >= 2
  {
    if v < 0 then -(Quotient(-v, b) as int) else Quotient(v, b)
  }

  function Mod(v: int, b: nat): int
    requires b >= 2
  {
    if v < 0 then -(Remainder(-v, b) as int) else Remainder(v, b)
  }

  // ---------------------------------------------------------------- numerals

  function DigitChar(d: nat): char
    requires d < 36
  {
    if d < 10 then '0' + d as char else 'a' + (d - 10) as char
  }

  function DigitValue(c: char): int {
    if '0' <= c <= '9' then c as int - '0' as int else c as int - 'a' as int + 10
  }

  /** The digits of a number, without leading zeros. */
  function Digits(n: nat, base: nat): (s: string)
    requires Legal(base)
    ensures |s| > 0
  {
    QuotientBounds(n, base);
    if n < base then [DigitChar(n)] else Digits(Quotient(n, base), base) + [DigitChar(Remainder(n, base))]
  }

  /** The number a string of digits denotes. */
  function Value(s: string, base: nat): int {
    if s == [] then 0 else Value(s[..|s| - 1], base) * base + DigitValue(s[|s| - 1])
  }

  lemma {:induction false} ValueOfDigits(n: nat, base: nat)
    requires Legal(base)
    ensures Value(Digits(n, base), base) == n
  {
    hide Quotient, Remainder;
    var s := Digits(n, base);
    QuotientBounds(n, base);
    if n < base {
      assert s[..|s| - 1] == [];
    } else {
      ValueOfDigits(Quotient(n, base), base);
      assert s[..|s| - 1] == Digits(Quotient(n, base), base);
      DivisionLaw(n, base);
    }
  }

  lemma {:induction false} NoLeadingZero(n: nat, base: nat)
    requires Legal(base)
    ensures n > 0 ==> Digits(n, base)[0] != '0'
  {
    hide Quotient, Remainder;
    QuotientBounds(n, base);
    if n >= base {
      NoLeadingZero(Quotient(n, base), base);
    }
  }

  /** What `itoa` is to write: only base 10 has a sign. */
  function Text(v: int, base: nat): string
    requires Legal(base)
  {
    (if v < 0 && base == 10 then "-" else "") + Digits(Abs(v), base)
  }

  function Parse(s: string): int {
    if s != [] && s[0] == '-' then -Value(s[1..], 10) else Value(s, 10)
  }

  lemma {:induction false} DigitsAreDigits(n: nat, base: nat, i: nat)
    requires Legal(base) && i < |Digits(n, base)|
    ensures Digits(n, base)[i] != '-'
  {
    hide Quotient, Remainder;
    QuotientBounds(n, base);
    if n >= base && i < |Digits(Quotient(n, base), base)| {
      DigitsAreDigits(Quotient(n, base), base, i);
    }
  }

  /** Parsing what is written in base 10 gives the number back, the least one included. */
  lemma ParseText(v: int)
    ensures Parse(Text(v, 10)) == v
  {
    ValueOfDigits(Abs(v), 10);
    DigitsAreDigits(Abs(v), 10, 0);
    var s := Text(v, 10);
    if v < 0 {
      assert s[1..] == Digits(Abs(v), 10);
    } else {
      assert s == Digits(Abs(v), 10);
    }
  }

  /** In another base a number is written like its negative. */
  lemma SignLostIff(v: int, base: nat)
    requires Legal(base)
    ensures Text(v, base) == Text(-v, base) <==> v == 0 || base != 10
  {
    if base == 10 {
      ParseText(v);
      ParseText(-v);
    }
  }

  // ---------------------------------------------------------------- itoa

  /** The digits of a number, none for zero. */
  function Tail(n: nat, base: nat): string
    requires Legal(base)
  {
    if n == 0 then [] else Digits(n, base)
  }

  lemma LastDigit(n: nat, base: nat)
    requires Legal(base)
    ensures Remainder(n, base) < base
    ensures Digits(n, base) == Tail(Quotient(n, base), base) + [DigitChar(Remainder(n, base))]
  {
    QuotientBounds(n, base);
    hide Quotient, Remainder;
  }

  function Backwards(s: string): (r: string)
    ensures |r| == |s|
  {
    seq(|s|, i requires 0 <= i < |s| => s[|s| - 1 - i])
  }

  lemma LettersAt(i: nat)
    requires i < 26
    ensures LETTERS[i] == DOWN[25 - i] == DigitChar(10 + i)
  {
    assert i == 0 || i == 1 || i == 2 || i == 3 || i == 4 || i == 5 || i == 6 || i == 7 || i == 8 || i == 9 || i == 10
           || i == 11 || i == 12 || i == 13 || i == 14 || i == 15 || i == 16 || i == 17 || i == 18 || i == 19 || i == 20
           || i == 21 || i == 22 || i == 23 || i == 24 || i == 25;
  }

  lemma FiguresAt(i: nat)
    requires i <= 9
    ensures UP[i] == DigitChar(i) && (i > 0 ==> NINE[9 - i] == DigitChar(i))
  {
    assert i == 0 || i == 1 || i == 2 || i == 3 || i == 4 || i == 5 || i == 6 || i == 7 || i == 8 || i == 9;
  }

  /** Every remainder of a legal base, of either sign, has its digit in the table. */
  lemma TableChar(r: int)
    requires -35 <= r <= 35
    ensures |TABLE| == 71 && TABLE[35 + r] == DigitChar(Abs(r))
  {
    if Abs(r) < 10 {
      FiguresAt(Abs(r));
    } else {
      LettersAt(Abs(r) - 10);
    }
  }

  function Pow2(k: nat): (r: nat)
    ensures r > 0
  {
    if k == 0 then 1 else 2 * Pow2(k - 1)
  }

  lemma {:induction false} DigitsFit(n: nat, base: nat, k: nat)
    requires Legal(base) && n < Pow2(k) && k > 0
    ensures |Digits(n, base)| <= k
  {
    hide Quotient, Remainder;
    QuotientBounds(n, base);
    if n >= base {
      DigitsFit(Quotient(n, base), base, k - 1);
    }
  }

  lemma SixtyFour()
    ensures Pow2(64) == WORD
  {
    assert Pow2(8) == 256;
    assert Pow2(16) == 65536 by { Doubling(8, 8); }
    assert Pow2(32) == 65536 * 65536 by { Doubling(16, 16); }
    Doubling(32, 32);
  }

  lemma {:induction false} Doubling(a: nat, b: nat)
    ensures Pow2(a + b) == Pow2(a) * Pow2(b)
  {
    if b > 0 {
      Doubling(a, b - 1);
      Twice(Pow2(a), Pow2(b - 1));
    }
  }

  lemma Twice(x: nat, y: nat)
    ensures x * (2 * y) == 2 * (x * y)
  {
  }

  /** Reverse `a[lo..hi]` in place. */
  method ReverseRange(a: array<char>, lo: nat, hi: nat)
    requires lo <= hi <= a.Length
    modifies a
    ensures a[..] == old(a[..lo]) + Backwards(old(a[lo..hi])) + old(a[hi..])
  {
    hide Backwards;
    var low, high: int := lo, hi - 1;
    while low < high
      invariant lo <= low && high < hi && low + high == lo + hi - 1 && low <= high + 1
      invariant forall k | lo <= k < low :: a[k] == old(a[lo + hi - 1 - k])
      invariant forall k | high < k < hi :: a[k] == old(a[lo + hi - 1 - k])
      invariant forall k | 0 <= k < lo || low <= k <= high || hi <= k < a.Length :: a[k] == old(a[k])
    {
      a[low], a[high] := a[high], a[low];
      low, high := low + 1, high - 1;
    }
    RangeReversed(old(a[..]), a[..], lo, hi);
    assert old(a[..])[..lo] == old(a[..lo]) && old(a[..])[lo..hi] == old(a[lo..hi]) && old(a[..])[hi..] == old(a[hi..]);
  }

  lemma RangeReversed(before: string, after: string, lo: nat, hi: nat)
    requires lo <= hi <= |before| == |after|
    requires forall k | lo <= k < hi :: after[k] == before[lo + hi - 1 - k]
    requires forall k | 0 <= k < lo || hi <= k < |after| :: after[k] == before[k]
    ensures after == before[..lo] + Backwards(before[lo..hi]) + before[hi..]
  {
  }

  /** A buffer of 65 bytes holds any text and its terminator. */
  lemma TextFits(v: int, base: nat)
    requires IsInt64(v) && Legal(base)
    ensures |Text(v, base)| <= 64
  {
    SixtyFour();
    DigitsFit(Abs(v), base, 64);
    if base == 10 {
      DecimalFits(Abs(v), 63);
    }
  }

  lemma {:induction false} DecimalFits(n: nat, k: nat)
    requires n <= Pow2(k)
    ensures |Digits(n, 10)| <= k / 3 + 1
  {
    QuotientBounds(n, 10);
    if n >= 10 {
      DivisionLaw(n, 10);
      assert k >= 3 && Pow2(k) == 2 * Pow2(k - 1) && Pow2(k - 1) == 2 * Pow2(k - 2) && Pow2(k - 2) == 2 * Pow2(k - 3);
      DecimalFits(Quotient(n, 10), k - 3);
    }
  }

  /** Write a number to a buffer, with a terminator; an illegal base writes the empty string. */
  method Itoa(value: int, str: array<char>, base: int) returns (ghost length: nat)
    requires str.Length > (if Legal(base) then |Text(value, base)| else 0)
    modifies str
    ensures length < str.Length && str[length] == '\0'
    ensures str[..length] == if Legal(base) then Text(value, base) else ""
  {
    if base < 2 || base > 36 {
      str[0] := '\0';
      return 0;
    }
    var low := 0;
    if value < 0 && base == 10 {
      str[0] := '-';
      low := 1;
    }
    ghost var sign := str[..low];
    var ptr := WriteDigits(value, str, low, base);
    str[ptr] := '\0';
    assert str[low..ptr] == Backwards(Digits(Abs(value), base));
    ReverseRange(str, low, ptr);
    BackwardsTwice(Digits(Abs(value), base));
    return ptr;
  }

  lemma BackwardsTwice(s: string)
    ensures Backwards(Backwards(s)) == s
  {
  }

  lemma BackwardsAppend(s: string, c: char)
    ensures Backwards(s + [c]) == [c] + Backwards(s)
  {
  }

  /** The digits, last one first. */
  method WriteDigits(value: int, str: array<char>, low: nat, base: nat) returns (ptr: nat)
    requires Legal(base) && low + |Digits(Abs(value), base)| < str.Length
    modifies str
    ensures low <= ptr < str.Length && str[low..ptr] == Backwards(Digits(Abs(value), base))
    ensures str[..low] == old(str[..low])
  {
    hide Digits, Quotient, Remainder, Div, Mod, Abs, Backwards;
    ghost var all := Digits(Abs(value), base);
    var v := value;
    ptr := low;
    BackwardsEmpty();
    while true
      invariant low <= ptr < str.Length && ptr - low + |Digits(Abs(v), base)| == |all|
      invariant str[..low] == old(str[..low])
      invariant all == Digits(Abs(v), base) + Backwards(str[low..ptr])
      decreases Abs(v)
    {
      DigitStep(v, base);
      ghost var out := str[low..ptr];
      var c := TABLE[35 + Mod(v, base)];
      str[ptr] := c;
      ptr := ptr + 1;
      BackwardsAppend(out, c);
      assert str[low..ptr] == out + [c];
      v := Div(v, base);
      assert all == Tail(Abs(v), base) + Backwards(str[low..ptr]);
      if v == 0 {
        break;
      }
      NonZero(v);
    }
    NonZero(0);
    assert all == Backwards(str[low..ptr]);
    BackwardsTwice(str[low..ptr]);
  }

  lemma BackwardsEmpty()
    ensures Backwards([]) == []
  {
  }

  lemma NonZero(v: int)
    ensures Abs(v) == 0 <==> v == 0
  {
  }

  /** One step of the loop: the last digit, and what is left. */
  lemma DigitStep(v: int, base: nat)
    requires Legal(base)
    ensures 0 <= 35 + Mod(v, base) < |TABLE| == 71
    ensures Digits(Abs(v), base) == Tail(Abs(Div(v, base)), base) + [TABLE[35 + Mod(v, base)]]
    ensures Div(v, base) == 0 || Abs(Div(v, base)) < Abs(v)
  {
    LastDigit(Abs(v), base);
    QuotientBounds(Abs(v), base);
    TableChar(Mod(v, base));
  }

  // ---------------------------------------------------------------- htoa

  /** A word without its last `j` hexadecimal digits. */
  function Shifted(m: nat, j: nat): nat {
    if j == 0 then m else Shifted(m, j - 1) / 16
  }

  lemma {:induction false} ShiftedSmall(m: nat, j: nat)
    requires m < Pow2(64) && j <= 16
    ensures Shifted(m, j) < Pow2(64 - 4 * j)
  {
    if j > 0 {
      ShiftedSmall(m, j - 1);
      var k := 64 - 4 * j;
      assert Pow2(k + 4) == 2 * Pow2(k + 3) && Pow2(k + 3) == 2 * Pow2(k + 2) && Pow2(k + 2) == 2 * Pow2(k + 1) && Pow2(k + 1) == 2 * Pow2(k);
    }
  }

  lemma NextDigit(m: nat, j: nat)
    ensures Tail(Shifted(m, j), 16) ==
              if Shifted(m, j) == 0 then [] else Tail(Shifted(m, j + 1), 16) + [DigitChar(Shifted(m, j) % 16)]
    ensures Shifted(m, j + 1) == Shifted(m, j) / 16
    ensures Shifted(m, j) == 0 <==> Shifted(m, j + 1) == 0 && Shifted(m, j) % 16 == 0
  {
    LastDigit(Shifted(m, j), 16);
  }

  lemma {:induction false} ShiftedShorter(m: nat, j: nat)
    requires j > 0
    ensures |Tail(Shifted(m, j), 16)| < |Digits(m, 16)|
  {
    hide Digits;
    if j == 1 {
      LastDigit(m, 16);
    } else {
      ShiftedShorter(m, j - 1);
      NextDigit(m, j - 1);
    }
  }

  /** Nothing is left of a 64-bit word without its sixteen digits. */
  lemma AllShifted(n: int)
    ensures Shifted(n % WORD, 16) == 0
  {
    SixtyFour();
    ShiftedSmall(n % WORD, 16);
  }

  /**
   Write the 64-bit word of a number in hexadecimal.  There is no terminator, and nothing behind the
   digits is touched.
   */
  method Htoa(n: int, str: array<char>) returns (ghost length: nat)
    requires IsInt64(n) && str.Length >= 2 + |Digits(n % WORD, 16)|
    modifies str
    ensures length == 2 + |Digits(n % WORD, 16)|
    ensures str[..] == "0x" + Digits(n % WORD, 16) + old(str[length..])
  {
    hide Digits, Shifted, Tail;
    var m := n % WORD;
    AllShifted(n);
    str[0] := '0';
    str[1] := 'x';
    var ptr := 2;
    var zeros: int := 0;
    var i := 60;
    ghost var j := 15;
    NoDigits();
    assert str[..2] == "0x";
    while i > 0
      invariant i == 4 * j && 0 <= j <= 15
      invariant 2 <= ptr < str.Length && str[..ptr] == "0x" + Tail(Shifted(m, j + 1), 16)
      invariant forall k | ptr <= k < str.Length :: str[k] == old(str[k])
      invariant j - 15 <= zeros <= 0 && (zeros == 0 <==> Shifted(m, j + 1) == 0)
    {
      NextDigit(m, j);
      ShiftedShorter(m, j);
      NoDigits();
      var tmp := Shifted(m, i / 4) % 16;
      if !(tmp == 0 && zeros == 0) {
        zeros := zeros - 1;
        str[ptr] := if tmp >= 10 then 'a' + (tmp - 10) as char else '0' + tmp as char;
        ptr := ptr + 1;
      }
      i := i - 4;
      j := j - 1;
    }
    FinalDigit(m);
    var tmp := m % 16;
    str[ptr] := if tmp >= 10 then 'a' + (tmp - 10) as char else '0' + tmp as char;
    ptr := ptr + 1;
    assert str[..ptr] == "0x" + Digits(m, 16);
    assert str[ptr..] == old(str[ptr..]);
    assert str[..] == str[..ptr] + str[ptr..];
    return ptr;
  }

  lemma FinalDigit(m: nat)
    ensures Digits(m, 16) == Tail(Shifted(m, 1), 16) + [DigitChar(m % 16)]
  {
    LastDigit(m, 16);
  }

  /** What is written reads back as the word, and has no leading zero unless it is the word zero. */
  lemma HexReadsBack(n: int)
    ensures var s := Digits(n % WORD, 16);
            Value(s, 16) == n % WORD && (s[0] == '0' <==> n % WORD == 0)
  {
    ValueOfDigits(n % WORD, 16);
    NoLeadingZero(n % WORD, 16);
  }

  lemma NoDigits()
    ensures Tail(0, 16) == []
  {
  }
}
