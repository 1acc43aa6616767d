/**
  The string primitives of Go's standard library that the aggregation relies on:
  `strings.Compare` (the sort key comparison), `strings.HasPrefix` (the
  authorized-name test) and `strconv.ParseInt(s, 10, 64)` (the seconds of a
  message timestamp). Strings are sequences of code points; for the valid
  UTF-8 strings Go compares byte by byte, the order of code points is the order
  of their encodings, so comparisons and prefixes agree.
*/
module Text {

  /** strings.Compare: -1, 0 or +1 by lexicographic order. */
  function Compare(a: string, b: string): (r: int)
    ensures -1 <= r <= 1
  {
    if a == [] && b == [] then 0
    else if a == [] then -1
    else if b == [] then 1
    else if a[0] < b[0] then -1
    else if a[0] > b[0] then 1
    else Compare(a[1..], b[1..])
  }

  /** The comparator's verdict "a sorts no later than b". */
  predicate NoLater(a: string, b: string) {
    Compare(a, b) <= 0
  }

  lemma {:induction false} CompareZeroIffEqual(a: string, b: string)
    ensures Compare(a, b) == 0 <==> a == b
  {
    if a != [] && b != [] && a[0] == b[0] {
      CompareZeroIffEqual(a[1..], b[1..]);
      assert a == [a[0]] + a[1..] && b == [b[0]] + b[1..];
    }
  }

  lemma {:induction false} CompareAntisymmetric(a: string, b: string)
    ensures Compare(a, b) == -Compare(b, a)
  {
    if a != [] && b != [] && a[0] == b[0] {
      CompareAntisymmetric(a[1..], b[1..]);
    }
  }

  /** Any two strings are ordered one way or the other. */
  lemma NoLaterTotal(a: string, b: string)
    ensures NoLater(a, b) || NoLater(b, a)
  {
    CompareAntisymmetric(a, b);
  }

  lemma {:induction false} NoLaterTransitive(a: string, b: string, c: string)
    requires NoLater(a, b) && NoLater(b, c)
    ensures NoLater(a, c)
  {
    if a == [] || c == [] {
      if c == [] && a != [] {
        // b would have to be empty and then a <= [] forces a == []
        assert b == [];
      }
    } else {
      assert b != [];
      if a[0] == b[0] && b[0] == c[0] {
        NoLaterTransitive(a[1..], b[1..], c[1..]);
      }
    }
  }

  /**
    strings.HasPrefix: s starts with prefix. Go compares bytes and the model
    characters; on valid UTF-8 the two prefix relations agree.
  */
  predicate HasPrefix(s: string, prefix: string): (r: bool)
    ensures r <==> |prefix| <= |s| && s[..|prefix|] == prefix
  {
    prefix <= s
  }

  predicate IsDigit(c: char) {
    '0' <= c <= '9'
  }

  function DigitValue(c: char): (n: nat)
    requires IsDigit(c)
    ensures n < 10
  {
    c as int - '0' as int
  }

  function DigitChar(n: nat): (c: char)
    requires n < 10
    ensures IsDigit(c) && DigitValue(c) == n
  {
    ('0' as int + n) as char
  }

  predicate AllDigits(s: string) {
    forall i :: 0 <= i < |s| ==> IsDigit(s[i])
  }

  /** Value of a decimal numeral read left to right onto `acc` (Horner's rule). */
  function Horner(s: string, acc: nat): nat
    requires AllDigits(s)
  {
    if s == [] then acc else Horner(s[1..], acc * 10 + DigitValue(s[0]))
  }

  /** The decimal numeral of n, without leading zeros (strconv.FormatInt). */
  function Decimal(n: nat): (s: string)
    ensures |s| > 0 && AllDigits(s)
  {
    if n < 10 then [DigitChar(n)] else Decimal(n / 10) + [DigitChar(n % 10)]
  }

  const MaxUint64: nat := 0xffff_ffff_ffff_ffff
  /** 1 << 63: one past the largest int64 and the magnitude of the smallest. */
  const Int64Cutoff: nat := 0x8000_0000_0000_0000

  /** Go's int64 addition: x brought into the int64 range by two's-complement wrap-around. */
  function Wrap64(x: int): (r: int)
    ensures -(Int64Cutoff as int) <= r < Int64Cutoff
    ensures (x - r) % (2 * Int64Cutoff) == 0
    ensures -(Int64Cutoff as int) <= x < Int64Cutoff ==> r == x
    ensures Int64Cutoff <= x < 3 * Int64Cutoff ==> r == x - 2 * Int64Cutoff
  {
    (x + Int64Cutoff) % (2 * Int64Cutoff) - Int64Cutoff
  }

  /** Outcome of strconv.ParseUint on a decimal string. */
  datatype UintScan = Parsed(n: nat) | SyntaxError | RangeError

  /**
    The digit loop of ParseUint with base 10: a character that is not a digit
    is a syntax error; the first digit that takes the value past MaxUint64 is a
    range error, whatever follows it.
  */
  function ScanUint(s: string, acc: nat): UintScan
  {
    if s == [] then Parsed(acc)
    else if !IsDigit(s[0]) then SyntaxError
    else if acc * 10 + DigitValue(s[0]) > MaxUint64 then RangeError
    else ScanUint(s[1..], acc * 10 + DigitValue(s[0]))
  }

  /**
    strconv.ParseInt(s, 10, 64), keeping the value and dropping the error as
    the caller does: a syntax error gives 0, a range error the nearest int64.
  */
  function ParseInt64(s: string): (v: int)
    ensures -(Int64Cutoff as int) <= v < Int64Cutoff
  {
    if s == [] then 0
    else
      var neg := s[0] == '-';
      var digits := if s[0] == '+' || s[0] == '-' then s[1..] else s;
      var un := if digits == [] then SyntaxError else ScanUint(digits, 0);
      match un
      case SyntaxError => 0
      case RangeError => if neg then -(Int64Cutoff as int) else Int64Cutoff - 1
      case Parsed(n) =>
        if !neg && n >= Int64Cutoff then Int64Cutoff - 1
        else if neg && n > Int64Cutoff then -(Int64Cutoff as int)
        else if neg then -(n as int)
        else n
  }

  lemma {:induction false} HornerGrows(s: string, acc: nat)
    requires AllDigits(s)
    ensures Horner(s, acc) >= acc
  {
    if s != [] {
      HornerGrows(s[1..], acc * 10 + DigitValue(s[0]));
    }
  }

  /** Without overflow, the digit loop computes the numeral's value. */
  lemma {:induction false} ScanUintValue(s: string, acc: nat)
    requires AllDigits(s) && Horner(s, acc) <= MaxUint64
    ensures ScanUint(s, acc) == Parsed(Horner(s, acc))
  {
    if s != [] {
      var next := acc * 10 + DigitValue(s[0]);
      HornerGrows(s[1..], next);
      ScanUintValue(s[1..], next);
    }
  }

  lemma {:induction false} HornerAppend(s: string, c: char, acc: nat)
    requires AllDigits(s) && IsDigit(c)
    ensures AllDigits(s + [c]) && Horner(s + [c], acc) == Horner(s, acc) * 10 + DigitValue(c)
  {
    assert AllDigits(s + [c]);
    if s != [] {
      assert (s + [c])[1..] == s[1..] + [c];
      HornerAppend(s[1..], c, acc * 10 + DigitValue(s[0]));
    }
  }

  lemma {:induction false} HornerDecimal(n: nat)
    ensures Horner(Decimal(n), 0) == n
  {
    if n >= 10 {
      HornerDecimal(n / 10);
      HornerAppend(Decimal(n / 10), DigitChar(n % 10), 0);
    }
  }

  /** ParseInt64 reads back every non-negative int64 that FormatInt writes. */
  lemma ParseInt64Decimal(n: nat)
    requires n < Int64Cutoff
    ensures ParseInt64(Decimal(n)) == n
  {
    var s := Decimal(n);
    HornerDecimal(n);
    ScanUintValue(s, 0);
    assert s[0] != '+' && s[0] != '-' by { assert IsDigit(s[0]); }
  }

  /** A string that is not a numeral parses to 0 (the ignored syntax error). */
  lemma ParseInt64NotNumeral(s: string)
    requires s == [] || (!IsDigit(s[0]) && s[0] != '+' && s[0] != '-')
    ensures ParseInt64(s) == 0
  {
  }
}
