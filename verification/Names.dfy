/**
 Numeric file names of /proc: the parser `name_to_int` and the "%d" printer
 used by the directory listings.
 */
module Names {
  const UINT_SPAN: nat := 0x1_0000_0000

  /** The value ~0U, by which the parser reports "not a number". */
  const NO_NUMBER: nat := UINT_SPAN - 1

  /** The largest number the parser accepts. */
  const MAX_NUMBER: nat := 4294967279

  /** Conversion of a C integer to `unsigned int`. */
  function ToUnsigned(i: int): (u: nat)
    ensures 0 <= i < UINT_SPAN ==> u == i
  {
    i % UINT_SPAN
  }

  predicate IsDigit(c: char) {
    '0' <= c <= '9'
  }

  predicate AllDigits(s: string) {
    forall i :: 0 <= i < |s| ==> IsDigit(s[i])
  }

  function DigitValue(c: char): nat
    requires IsDigit(c)
  {
    c as int - '0' as int
  }

  function DigitChar(d: nat): (c: char)
    requires d < 10
  {
    (d + '0' as int) as char
  }

  /** What "%d" prints for a number that is not negative. */
  function Decimal(v: nat): string {
    if v < 10 then [DigitChar(v)] else Decimal(v / 10) + [DigitChar(v % 10)]
  }

  /** What "%d" prints for any int. */
  function PrintInt(i: int): string {
    if i < 0 then "-" + Decimal(-i) else Decimal(i)
  }

  /** A name offered to `filldir`: a literal, or a number printed with "%d". */
  datatype FileName = Word(word: string) | Numeral(number: int)

  function Text(name: FileName): string {
    match name
    case Word(w) => w
    case Numeral(i) => PrintInt(i)
  }

  /** A decimal numeral without a superfluous leading zero. */
  predicate Canonical(s: string) {
    s != "" && AllDigits(s) && (|s| > 1 ==> s[0] != '0')
  }

  function Value(s: string): nat
    requires AllDigits(s)
  {
    if s == "" then 0 else 10 * Value(s[..|s| - 1]) + DigitValue(s[|s| - 1])
  }

  /** The number a non-empty name stands for in a lookup. */
  function NameNumber(name: string): nat {
    if Canonical(name) && Value(name) <= MAX_NUMBER then Value(name) else NO_NUMBER
  }

  lemma {:induction false} ValueOfPrefix(s: string, i: nat)
    requires AllDigits(s) && i < |s|
    ensures AllDigits(s[..i]) && Value(s) >= 10 * Value(s[..i])
    decreases |s|
  {
    if i < |s| - 1 {
      var t := s[..|s| - 1];
      ValueOfPrefix(t, i);
      assert t[..i] == s[..i];
    }
  }

  /** The parser, in wrapping 32-bit arithmetic. That its result is an exact
      value shows that no step ever wraps. */
  method NameToInt(name: string) returns (n: nat)
    ensures name == "" ==> n == 0
    ensures name != "" ==> n == NameNumber(name)
  {
    n := 0;
    if |name| > 1 && name[0] == '0' {
      return NO_NUMBER;
    }
    var i := 0;
    while i < |name|
      invariant i <= |name| && AllDigits(name[..i])
      invariant n == Value(name[..i]) <= MAX_NUMBER
    {
      var c := ToUnsigned(name[i] as int - '0' as int);
      if c > 9 {
        return NO_NUMBER;
      }
      if n >= (NO_NUMBER - 9) / 10 {
        if AllDigits(name) {
          ValueOfPrefix(name, i);
        }
        return NO_NUMBER;
      }
      assert name[..i + 1][..i] == name[..i];
      n := ToUnsigned(n * 10);
      n := ToUnsigned(n + c);
      i := i + 1;
    }
    assert name[..i] == name;
  }

  lemma {:induction false} DecimalIsCanonical(v: nat)
    ensures Canonical(Decimal(v)) && Value(Decimal(v)) == v
    ensures v > 0 ==> Decimal(v)[0] != '0'
  {
    var s := Decimal(v);
    if v < 10 {
      assert s[..0] == "";
    } else {
      DecimalIsCanonical(v / 10);
      assert s[..|s| - 1] == Decimal(v / 10);
    }
  }

  lemma DigitSplit(q: nat, c: char)
    requires IsDigit(c)
    ensures (10 * q + DigitValue(c)) / 10 == q
    ensures DigitChar((10 * q + DigitValue(c)) % 10) == c
  {
  }

  lemma {:induction false} CanonicalIsDecimal(s: string)
    requires Canonical(s)
    ensures s == Decimal(Value(s))
    ensures s[0] != '0' ==> Value(s) > 0
    decreases |s|
  {
    var t, d := s[..|s| - 1], s[|s| - 1];
    assert s == t + [d];
    DigitSplit(Value(t), d);
    if t != "" {
      CanonicalIsDecimal(t);
      assert Value(s) >= 10;
    } else {
      assert Value(t) == 0;
    }
  }

  /** Exactly the canonical numerals up to MAX_NUMBER are accepted, each as its own value. */
  lemma NameNumberExact(name: string, v: nat)
    requires v != NO_NUMBER
    ensures NameNumber(name) == v <==> v <= 4294967279 && name == Decimal(v)
  {
    DecimalIsCanonical(v);
    if Canonical(name) {
      CanonicalIsDecimal(name);
    }
  }

  /** Parsing inverts printing of every int that is not negative, and refuses the negative ones. */
  lemma PrintedIntParses(i: int)
    requires -0x8000_0000 <= i < 0x8000_0000
    ensures NameNumber(PrintInt(i)) == if i >= 0 then i else NO_NUMBER
  {
    if i >= 0 {
      NameNumberExact(PrintInt(i), i);
    } else {
      assert !IsDigit(PrintInt(i)[0]);
    }
  }

  /** Two different names are never accepted as the same number. */
  lemma AcceptedNamesInjective(a: string, b: string)
    requires NameNumber(a) == NameNumber(b) != NO_NUMBER
    ensures a == b
  {
    NameNumberExact(a, NameNumber(a));
    NameNumberExact(b, NameNumber(b));
  }

  /** Digits mean what they mean. */
  lemma NumeralExamples()
    ensures Decimal(0) == "0" && Decimal(4096) == "4096" && PrintInt(-17) == "-17"
    ensures NameNumber("01") == NameNumber("1a") == 0xffff_ffff
  {
    assert Decimal(40) == "40" && Decimal(409) == "409";
    assert !Canonical("01") && !IsDigit("1a"[1]);
  }

  lemma DecimalInjective(a: nat, b: nat)
    requires Decimal(a) == Decimal(b)
    ensures a == b
  {
    DecimalIsCanonical(a);
    DecimalIsCanonical(b);
  }
}
