/**
 * The Python text conversions the engine relies on: `int()` applied to a
 * string (base 10), `str()` of an integer, and `str.upper()`.
 *
 * `int()` accepts surrounding whitespace, one optional sign and a run of
 * decimal digits in which single underscores may separate digits; anything
 * else raises ValueError, modelled here as None. Digits are those of every
 * Unicode script (so "\U{0663}", Arabic-Indic three, reads as 3), following the Unicode 15.0
 * tables of Python 3.12.
 */
module PyText {
  import opened Common

  /**
   * The whitespace `int()` skips around a number: the characters for which
   * `str.isspace()` holds, except the separators \x1c-\x1f, which `int()`
   * refuses although `str.isspace()` accepts them.
   */
  predicate IsSpace(c: char)
  {
    IsSpaceCode(c as int)
  }

  /** The code points of `IsSpace`. */
  predicate IsSpaceCode(n: int)
  {
    || 9 <= n <= 13 || n == 0x20 || n == 0x85 || n == 0xA0 || n == 0x1680
    || 0x2000 <= n <= 0x200A || n == 0x2028 || n == 0x2029 || n == 0x202F
    || n == 0x205F || n == 0x3000
  }

  /** The number of scripts beyond ASCII with decimal digits (Unicode general category Nd). */
  const OTHER_SCRIPTS := 67

  /**
   * The code point of the digit zero of the k-th such script; the digit at
   * zero + d has the value d.
   */
  function ScriptZero(k: nat): int
    requires k < OTHER_SCRIPTS
  {
    match k
    case 0 => 0x00660
    case 1 => 0x006F0
    case 2 => 0x007C0
    case 3 => 0x00966
    case 4 => 0x009E6
    case 5 => 0x00A66
    case 6 => 0x00AE6
    case 7 => 0x00B66
    case 8 => 0x00BE6
    case 9 => 0x00C66
    case 10 => 0x00CE6
    case 11 => 0x00D66
    case 12 => 0x00DE6
    case 13 => 0x00E50
    case 14 => 0x00ED0
    case 15 => 0x00F20
    case 16 => 0x01040
    case 17 => 0x01090
    case 18 => 0x017E0
    case 19 => 0x01810
    case 20 => 0x01946
    case 21 => 0x019D0
    case 22 => 0x01A80
    case 23 => 0x01A90
    case 24 => 0x01B50
    case 25 => 0x01BB0
    case 26 => 0x01C40
    case 27 => 0x01C50
    case 28 => 0x0A620
    case 29 => 0x0A8D0
    case 30 => 0x0A900
    case 31 => 0x0A9D0
    case 32 => 0x0A9F0
    case 33 => 0x0AA50
    case 34 => 0x0ABF0
    case 35 => 0x0FF10
    case 36 => 0x104A0
    case 37 => 0x10D30
    case 38 => 0x11066
    case 39 => 0x110F0
    case 40 => 0x11136
    case 41 => 0x111D0
    case 42 => 0x112F0
    case 43 => 0x11450
    case 44 => 0x114D0
    case 45 => 0x11650
    case 46 => 0x116C0
    case 47 => 0x11730
    case 48 => 0x118E0
    case 49 => 0x11950
    case 50 => 0x11C50
    case 51 => 0x11D50
    case 52 => 0x11DA0
    case 53 => 0x11F50
    case 54 => 0x16A60
    case 55 => 0x16AC0
    case 56 => 0x16B50
    case 57 => 0x1D7CE
    case 58 => 0x1D7D8
    case 59 => 0x1D7E2
    case 60 => 0x1D7EC
    case 61 => 0x1D7F6
    case 62 => 0x1E140
    case 63 => 0x1E2F0
    case 64 => 0x1E4F0
    case 65 => 0x1E950
    case 66 => 0x1FBF0
    case _ => 0
  }

  /** The value of n as a digit of script k or a later one, or None. */
  function DigitFrom(n: int, k: nat): (r: Option<nat>)
    requires k <= OTHER_SCRIPTS
    ensures r.Some? ==> r.value < 10 && n >= 0x660 && !IsSpaceCode(n)
    decreases OTHER_SCRIPTS - k
  {
    if k == OTHER_SCRIPTS then None
    else if ScriptZero(k) <= n < ScriptZero(k) + 10 then Some(n - ScriptZero(k))
    else DigitFrom(n, k + 1)
  }

  /** The value of c as a decimal digit of a script other than ASCII, or None. */
  function OtherDigit(c: char): (r: Option<nat>)
    ensures r.Some? ==> r.value < 10
  {
    DigitFrom(c as int, 0)
  }

  /** `str.isdecimal()` on one character: the digits `int()` reads. */
  predicate IsDigit(c: char)
  {
    '0' <= c <= '9' || OtherDigit(c).Some?
  }

  function DigitValue(c: char): nat
  {
    if '0' <= c <= '9' then c as int - '0' as int
    else match OtherDigit(c)
      case Some(d) => d
      case None => 0
  }

  function DigitChar(d: nat): (c: char)
    requires d < 10
    ensures '0' <= c <= '9' && IsDigit(c) && DigitValue(c) == d
  {
    var c := ('0' as int + d) as char;
    assert '0' <= c <= '9';
    c
  }

  function StripLeft(s: string): (r: string)
    ensures |r| <= |s| && r == s[|s| - |r|..]
    ensures |r| > 0 ==> !IsSpace(r[0])
  {
    if |s| > 0 && IsSpace(s[0]) then StripLeft(s[1..]) else s
  }

  function StripRight(s: string): (r: string)
    ensures |r| <= |s| && r == s[..|r|]
    ensures |r| > 0 ==> !IsSpace(r[|r| - 1])
  {
    if |s| > 0 && IsSpace(s[|s| - 1]) then StripRight(s[..|s| - 1]) else s
  }

  /** The whitespace `int()` strips: the string without its leading and trailing whitespace. */
  function Strip(s: string): (r: string)
    ensures |r| > 0 ==> !IsSpace(r[0]) && !IsSpace(r[|r| - 1])
  {
    var l := StripLeft(s);
    var r := StripRight(l);
    assert |r| > 0 ==> r[0] == l[0];
    r
  }

  /**
   * Python's `digitpart`: a digit, followed by more digits, each of which may
   * be preceded by a single underscore.
   */
  predicate WellFormedDigits(s: string)
    decreases |s|
  {
    && |s| > 0 && IsDigit(s[|s| - 1])
    && if |s| == 1 then true
       else if s[|s| - 2] == '_' then |s| >= 3 && WellFormedDigits(s[..|s| - 2])
       else WellFormedDigits(s[..|s| - 1])
  }

  /** The value of a digit string, underscores ignored. */
  function DigitsValue(s: string): nat
  {
    if s == [] then 0
    else if s[|s| - 1] == '_' then DigitsValue(s[..|s| - 1])
    else 10 * DigitsValue(s[..|s| - 1]) + DigitValue(s[|s| - 1])
  }

  /** `int(text)`: Some(value), or None where Python raises ValueError. */
  function ParseInt(text: string): Option<int>
  {
    ParseStripped(Strip(text))
  }

  /** `int()` on text that has no surrounding whitespace left. */
  function ParseStripped(t: string): Option<int>
  {
    if |t| > 0 && (t[0] == '-' || t[0] == '+') then
      if WellFormedDigits(t[1..]) then
        var v: int := DigitsValue(t[1..]);
        Some(if t[0] == '-' then -v else v)
      else None
    else if WellFormedDigits(t) then Some(DigitsValue(t))
    else None
  }

  /** `str(n)` for a natural number. */
  function Decimal(n: nat): (s: string)
    ensures |s| > 0
    ensures forall i :: 0 <= i < |s| ==> '0' <= s[i] <= '9'
  {
    if n < 10 then [DigitChar(n)] else Decimal(n / 10) + [DigitChar(n % 10)]
  }

  /** `str(i)` for any integer. */
  function Show(i: int): string
  {
    if i < 0 then "-" + Decimal(-i) else Decimal(i)
  }

  lemma {:induction false} DecimalValue(n: nat)
    ensures DigitsValue(Decimal(n)) == n
  {
    if n >= 10 {
      var d := Decimal(n / 10);
      assert (d + [DigitChar(n % 10)])[..|d|] == d;
      DecimalValue(n / 10);
    }
  }

  lemma StripKeeps(s: string)
    requires |s| > 0 && !IsSpace(s[0]) && !IsSpace(s[|s| - 1])
    ensures Strip(s) == s
  {
  }

  lemma {:induction false} DecimalWellFormed(n: nat)
    ensures WellFormedDigits(Decimal(n))
    ensures !IsSpace(Decimal(n)[0]) && !IsSpace(Decimal(n)[|Decimal(n)| - 1])
    ensures Decimal(n)[0] != '-' && Decimal(n)[0] != '+'
  {
    var d := Decimal(n);
    if n >= 10 {
      DecimalWellFormed(n / 10);
      assert d[..|d| - 1] == Decimal(n / 10);
    }
  }

  /** `int(str(n))` for a natural number. */
  lemma ParseDecimal(n: nat)
    ensures ParseInt(Show(n)) == Some(n)
  {
    assert Show(n) == Decimal(n);
    assert Strip(Decimal(n)) == Decimal(n) by {
      DecimalWellFormed(n);
      StripKeeps(Decimal(n));
    }
    DecimalValue(n);
    DecimalWellFormed(n);
  }

  lemma StripNegated(n: nat)
    ensures Strip("-" + Decimal(n)) == "-" + Decimal(n)
  {
    var d := Decimal(n);
    var s := "-" + d;
    DecimalWellFormed(n);
    assert s[0] == '-' && s[|s| - 1] == d[|d| - 1];
    StripKeeps(s);
  }

  lemma ParseStrippedNegated(n: nat)
    ensures ParseStripped("-" + Decimal(n)) == Some(-(n as int))
  {
    var d := Decimal(n);
    var s := "-" + d;
    assert s[1..] == d;
    assert WellFormedDigits(s[1..]) && DigitsValue(s[1..]) == n by {
      DecimalValue(n);
      DecimalWellFormed(n);
    }
  }

  /** `int(str(i))` for a negative number i. */
  lemma ParseNegated(n: nat)
    requires n > 0
    ensures ParseInt(Show(-(n as int))) == Some(-(n as int))
  {
    assert Show(-(n as int)) == "-" + Decimal(n);
    StripNegated(n);
    ParseStrippedNegated(n);
  }

  /** Printing an integer and reading it back with `int()` gives the integer again. */
  lemma ParseShow(i: int)
    ensures ParseInt(Show(i)) == Some(i)
  {
    if i < 0 {
      ParseNegated(-i);
    } else {
      ParseDecimal(i);
    }
  }

  /** Text with no whitespace around it is read as it stands. */
  lemma ParseUnpadded(s: string)
    requires |s| > 0 && !IsSpace(s[0]) && !IsSpace(s[|s| - 1])
    ensures ParseInt(s) == ParseStripped(s)
  {
    StripKeeps(s);
  }

  /** Leading whitespace is skipped. */
  lemma ParseSkipsSpace(s: string)
    requires |s| > 0 && IsSpace(s[0])
    ensures ParseInt(s) == ParseInt(s[1..])
  {
  }

  /** A digit is never whitespace, a sign or an underscore. */
  lemma DigitNotSpace(c: char)
    requires IsDigit(c)
    ensures !IsSpace(c) && c != '-' && c != '+' && c != '_'
  {
  }

  /** A single digit, of any script, reads as its value. */
  lemma ParseOneDigit(c: char)
    requires IsDigit(c)
    ensures ParseInt([c]) == Some(DigitValue(c))
  {
    var s := [c];
    DigitNotSpace(c);
    assert ParseStripped(s) == Some(DigitValue(c)) by {
      assert WellFormedDigits(s);
      assert s[..0] == [] && DigitsValue(s) == DigitValue(c);
    }
    ParseUnpadded(s);
  }

  /** The Arabic-Indic digit three reads as 3. */
  lemma ParseArabicIndicDigit()
    ensures ParseInt("\U{0663}") == Some(3)
  {
    ParseOneDigit('\U{0663}');
  }

  /** A no-break space before a number is skipped. */
  lemma ParseAfterNoBreakSpace()
    ensures ParseInt("\U{00A0}5") == Some(5)
  {
    var s := "\U{00A0}5";
    ParseSkipsSpace(s);
    assert s[1..] == "5";
    ParseOneDigit('5');
  }

  /** The separator \x1c is not whitespace to `int()`, which refuses it. */
  lemma ParseAfterSeparator()
    ensures ParseInt("\U{001C}5") == None
  {
    ParseUnpadded("\U{001C}5");
    assert ParseStripped("\U{001C}5") == None;
  }

  function UpperChar(c: char): char
  {
    if 'a' <= c <= 'z' then (c as int - 'a' as int + 'A' as int) as char else c
  }

  /** `str.upper()` on ASCII letters; every other character is kept. */
  function Upper(s: string): (r: string)
    ensures |r| == |s|
    ensures forall i :: 0 <= i < |s| ==> !('a' <= r[i] <= 'z')
  {
    seq(|s|, i requires 0 <= i < |s| => UpperChar(s[i]))
  }

  lemma UpperIdempotent(s: string)
    ensures Upper(Upper(s)) == Upper(s)
  {
  }
}
