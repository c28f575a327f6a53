/** The two C library behaviours the tar scanner leans on when it decodes a
    header: turning a `char*` into a `std::string` (read up to the first NUL)
    and `strtoull(text, NULL, 0)` (base auto-detection, saturation). */
module LibC {

  /** One byte of the archive. */
  type byte = b: int | 0 <= b < 256

  const Two64: nat := 0x1_0000_0000_0000_0000
  /** ULLONG_MAX on a platform with 64-bit `unsigned long long`. */
  const ULLongMax: nat := Two64 - 1

  /** Index of the first NUL at or after `i`, or `|s|` when there is none. */
  function NulFrom(s: seq<byte>, i: nat): (j: nat)
    requires i <= |s|
    ensures i <= j <= |s|
    ensures j == |s| || s[j] == 0
    decreases |s| - i
  {
    if i == |s| || s[i] == 0 then i else NulFrom(s, i + 1)
  }

  /** No NUL lies between `i` and the index NulFrom finds: it is the first. */
  lemma {:induction false} NulFromIsFirst(s: seq<byte>, i: nat)
    requires i <= |s|
    ensures forall k :: i <= k < NulFrom(s, i) ==> s[k] != 0
    decreases |s| - i
  {
    if i < |s| && s[i] != 0 {
      NulFromIsFirst(s, i + 1);
    }
  }

  /** The C string stored at the start of `s`: every byte before the first
      NUL, or all of `s` when it holds no NUL. */
  function CString(s: seq<byte>): (r: seq<byte>)
    ensures |r| <= |s|
    ensures |r| == |s| || s[|r|] == 0
  {
    s[..NulFrom(s, 0)]
  }

  /** The C string is a prefix of `s` and holds no NUL. */
  lemma CStringIsNulFreePrefix(s: seq<byte>)
    ensures var r := CString(s);
      (forall k :: 0 <= k < |r| ==> r[k] == s[k]) && 0 !in r
  {
    NulFromIsFirst(s, 0);
  }

  /** `isspace` in the "C" locale: space, \t, \n, \v, \f and \r. */
  predicate IsSpace(c: byte): (b: bool)
    ensures b ==> DigitValue(c) == 36 && c != '+' as int && c != '-' as int
  {
    c == ' ' as int || '\t' as int <= c <= '\r' as int
  }

  /** The value of `c` as a digit in a base up to 36 ('0'..'9', then
      'a'/'A' = 10 and so on); 36 when `c` is a digit in no base. */
  function DigitValue(c: byte): (d: nat)
    ensures d <= 36
    ensures d < 10 <==> '0' as int <= c <= '9' as int
  {
    if '0' as int <= c <= '9' as int then c - '0' as int
    else if 'a' as int <= c <= 'z' as int then c - 'a' as int + 10
    else if 'A' as int <= c <= 'Z' as int then c - 'A' as int + 10
    else 36
  }

  /** Where the run of white space that starts at `i` ends. */
  function SpaceEnd(s: seq<byte>, i: nat): (j: nat)
    requires i <= |s|
    ensures i <= j <= |s|
    ensures j == |s| || !IsSpace(s[j])
    decreases |s| - i
  {
    if i == |s| || !IsSpace(s[i]) then i else SpaceEnd(s, i + 1)
  }

  /** Every byte SpaceEnd skips is white space. */
  lemma {:induction false} SpaceEndSkipsSpace(s: seq<byte>, i: nat)
    requires i <= |s|
    ensures forall k :: i <= k < SpaceEnd(s, i) ==> IsSpace(s[k])
    decreases |s| - i
  {
    if i < |s| && IsSpace(s[i]) {
      SpaceEndSkipsSpace(s, i + 1);
    }
  }

  /** Where the run of digits in `base` that starts at `i` ends. */
  function DigitEnd(s: seq<byte>, i: nat, base: nat): (j: nat)
    requires i <= |s|
    ensures i <= j <= |s|
    ensures j == |s| || DigitValue(s[j]) >= base
    decreases |s| - i
  {
    if i == |s| || DigitValue(s[i]) >= base then i else DigitEnd(s, i + 1, base)
  }

  /** Every byte DigitEnd passes over is a digit in `base`. */
  lemma {:induction false} DigitEndSkipsDigits(s: seq<byte>, i: nat, base: nat)
    requires i <= |s|
    ensures forall k :: i <= k < DigitEnd(s, i, base) ==> DigitValue(s[k]) < base
    decreases |s| - i
  {
    if i < |s| && DigitValue(s[i]) < base {
      DigitEndSkipsDigits(s, i + 1, base);
    }
  }

  /** Every byte of `ds` is a digit in `base`. */
  ghost predicate AllDigits(ds: seq<byte>, base: nat) {
    forall k :: 0 <= k < |ds| ==> DigitValue(ds[k]) < base
  }

  /** Positional value of the digits `s[i..j]`, most significant first. A
      run with a nonzero leading digit has a nonzero value. */
  function Value(s: seq<byte>, i: nat, j: nat, base: nat): (v: nat)
    requires i <= j <= |s|
    ensures i < j && base > 0 && DigitValue(s[i]) > 0 ==> v > 0
    decreases j
  {
    if j == i then 0 else Value(s, i, j - 1, base) * base + DigitValue(s[j - 1])
  }

  /** The base `strtoull` picks when called with base 0, and where the digits
      start, given that the text after the optional sign starts at `i`:
      "0x"/"0X" selects hex and is skipped, any other leading '0' selects
      octal, anything else decimal. */
  function DetectBase(s: seq<byte>, i: nat): (r: (nat, nat))
    requires i <= |s|
    ensures r.0 == 16 <==>
      i + 2 <= |s| && s[i] == '0' as int && (s[i + 1] == 'x' as int || s[i + 1] == 'X' as int)
    ensures r.0 == 8 <==> r.0 != 16 && i < |s| && s[i] == '0' as int
    ensures r.0 in {8, 10, 16}
    ensures r.1 == if r.0 == 16 then i + 2 else i
    ensures i <= r.1 <= |s|
  {
    if i + 2 <= |s| && s[i] == '0' as int && (s[i + 1] == 'x' as int || s[i + 1] == 'X' as int) then (16, i + 2)
    else if i < |s| && s[i] == '0' as int then (8, i)
    else (10, i)
  }

  /** The unbounded value of the digits `strtoull` converts when the text
      after the optional sign starts at `j`: the base is detected there and
      the longest run of digits in that base is read. */
  function Magnitude(s: seq<byte>, j: nat): (m: nat)
    requires j <= |s|
    ensures (j == |s| || DigitValue(s[j]) >= 10) ==> m == 0
    ensures j < |s| && '1' as int <= s[j] <= '9' as int ==> m > 0
    ensures (&& j + 2 < |s| && s[j] == '0' as int
             && (s[j + 1] == 'x' as int || s[j + 1] == 'X' as int)
             && 0 < DigitValue(s[j + 2]) < 16) ==> m > 0
  {
    var (base, k) := DetectBase(s, j);
    Value(s, k, DigitEnd(s, k, base), base)
  }

  /** `strtoull(s, NULL, 0)` as C17 (section 7.22.1.4 of ISO/IEC 9899:2018)
      states it: leading white space is skipped, an optional sign is read,
      the base is detected, the longest run of digits in that base is
      converted; a value above ULLONG_MAX gives ULLONG_MAX, and a '-' sign
      negates the value modulo 2^64 (2^64 - v for v > 0). */
  function StrToULL(s: seq<byte>): (r: nat)
    ensures r <= ULLongMax
  {
    var i := SpaceEnd(s, 0);
    var negative := i < |s| && s[i] == '-' as int;
    var j := if i < |s| && (s[i] == '-' as int || s[i] == '+' as int) then i + 1 else i;
    var v := Magnitude(s, j);
    if v > ULLongMax then ULLongMax
    else if negative then (if v == 0 then 0 else Two64 - v)
    else v
  }

  /** Every byte of `ws` is white space. */
  ghost predicate AllSpace(ws: seq<byte>) {
    forall k :: 0 <= k < |ws| ==> IsSpace(ws[k])
  }

  /** Leading white space is skipped up to the first byte that is not. */
  lemma {:induction false} SpaceEndOver(ws: seq<byte>, t: seq<byte>, i: nat)
    requires AllSpace(ws) && i <= |ws|
    requires t == [] || !IsSpace(t[0])
    ensures SpaceEnd(ws + t, i) == |ws|
    decreases |ws| - i
  {
    if i < |ws| {
      assert (ws + t)[i] == ws[i];
      SpaceEndOver(ws, t, i + 1);
    } else if t != [] {
      assert (ws + t)[i] == t[0];
    }
  }

  /** A run of digits after a prefix ends where it ends without the prefix. */
  lemma {:induction false} DigitEndShift(p: seq<byte>, t: seq<byte>, i: nat, base: nat)
    requires i <= |t|
    ensures DigitEnd(p + t, |p| + i, base) == |p| + DigitEnd(t, i, base)
    decreases |t| - i
  {
    if i < |t| {
      assert (p + t)[|p| + i] == t[i];
      if DigitValue(t[i]) < base {
        DigitEndShift(p, t, i + 1, base);
      }
    }
  }

  /** The value of a run of digits after a prefix does not depend on it. */
  lemma {:induction false} ValueShift(p: seq<byte>, t: seq<byte>, i: nat, j: nat, base: nat)
    requires i <= j <= |t|
    ensures Value(p + t, |p| + i, |p| + j, base) == Value(t, i, j, base)
    decreases j
  {
    if j > i {
      ValueShift(p, t, i, j - 1, base);
      assert (p + t)[|p| + j - 1] == t[j - 1];
    }
  }

  /** Base detection and conversion after a prefix read what they read
      without it. */
  lemma MagnitudeShift(p: seq<byte>, t: seq<byte>, j: nat)
    requires j <= |t|
    ensures Magnitude(p + t, |p| + j) == Magnitude(t, j)
  {
    var (base, k) := DetectBase(t, j);
    if j < |t| {
      assert (p + t)[|p| + j] == t[j];
    }
    if j + 1 < |t| {
      assert (p + t)[|p| + j + 1] == t[j + 1];
    }
    assert DetectBase(p + t, |p| + j) == (base, |p| + k);
    DigitEndShift(p, t, k, base);
    ValueShift(p, t, k, DigitEnd(t, k, base), base);
  }

  /** Leading white space does not change what `strtoull` reads. */
  lemma StrToULLLeadingSpace(ws: seq<byte>, t: seq<byte>)
    requires AllSpace(ws)
    requires t == [] || !IsSpace(t[0])
    ensures StrToULL(ws + t) == StrToULL(t)
  {
    SpaceEndOver(ws, t, 0);
    assert SpaceEnd(t, 0) == 0;
    if t != [] {
      assert (ws + t)[|ws|] == t[0];
      MagnitudeShift(ws, t, 1);
    }
    MagnitudeShift(ws, t, 0);
  }

  /** Unsigned text is read as its magnitude, saturated at ULLONG_MAX; a
      '+' sign changes nothing; a '-' sign negates the magnitude modulo 2^64,
      unless it saturates. */
  lemma StrToULLSign(t: seq<byte>)
    requires t == [] || (!IsSpace(t[0]) && t[0] != '+' as int && t[0] != '-' as int)
    ensures var v := Magnitude(t, 0);
      && StrToULL(t) == (if v > ULLongMax then ULLongMax else v)
      && StrToULL(['+' as byte] + t) == StrToULL(t)
      && StrToULL(['-' as byte] + t) == (if v > ULLongMax then ULLongMax else if v == 0 then 0 else Two64 - v)
  {
    assert SpaceEnd(t, 0) == 0;
    assert SpaceEnd(['+' as byte] + t, 0) == 0;
    assert SpaceEnd(['-' as byte] + t, 0) == 0;
    MagnitudeShift(['+' as byte], t, 0);
    MagnitudeShift(['-' as byte], t, 0);
  }

  // ---------------------------------------------------------------------
  // Digit text, the way a ustar writer fills a numeric field, and what
  // StrToULL makes of it.

  function Pow(b: nat, e: nat): (r: nat)
    ensures b > 0 ==> r > 0
  {
    if e == 0 then 1 else b * Pow(b, e - 1)
  }

  /** `n` written as exactly `w` octal digits, zero-padded on the left: the
      way a ustar writer fills a numeric field (11 digits and a NUL for the
      size). */
  function OctalDigits(n: nat, w: nat): (ds: seq<byte>)
    ensures |ds| == w
  {
    if w == 0 then [] else OctalDigits(n / 8, w - 1) + [('0' as int + n % 8) as byte]
  }

  /** The value of a run of digits depends only on those digits. */
  lemma {:induction false} ValuePrefix(p: seq<byte>, q: seq<byte>, i: nat, j: nat, base: nat)
    requires i <= j <= |p|
    ensures Value(p + q, i, j, base) == Value(p, i, j, base)
    decreases j
  {
    if j > i {
      ValuePrefix(p, q, i, j - 1, base);
      assert (p + q)[j - 1] == p[j - 1];
    }
  }

  /** Reading back `w` octal digits gives the number, when it fits. */
  lemma {:induction false} OctalDigitsValue(n: nat, w: nat)
    requires n < Pow(8, w)
    ensures AllDigits(OctalDigits(n, w), 8)
    ensures Value(OctalDigits(n, w), 0, w, 8) == n
  {
    if w > 0 {
      assert n / 8 < Pow(8, w - 1);
      OctalDigitsValue(n / 8, w - 1);
      var init := OctalDigits(n / 8, w - 1);
      var last := ('0' as int + n % 8) as byte;
      assert OctalDigits(n, w) == init + [last];
      ValuePrefix(init, [last], 0, w - 1, 8);
    }
  }

  /** The first of `w` octal digits is '0' when the number is below 8^(w-1). */
  lemma {:induction false} LeadingOctalZero(n: nat, w: nat)
    requires w >= 1 && n < Pow(8, w - 1)
    ensures OctalDigits(n, w)[0] == '0' as int
  {
    if w > 1 {
      assert n / 8 < Pow(8, w - 2);
      LeadingOctalZero(n / 8, w - 1);
    }
  }

  /** With no leading white space or sign and a leading '0' that does not
      start "0x", `strtoull` reads the longest run of octal digits. */
  lemma StrToULLOctal(s: seq<byte>)
    requires s != [] && s[0] == '0' as int
    requires |s| == 1 || (s[1] != 'x' as int && s[1] != 'X' as int)
    ensures var v := Value(s, 0, DigitEnd(s, 0, 8), 8);
      StrToULL(s) == if v > ULLongMax then ULLongMax else v
  {
    assert SpaceEnd(s, 0) == 0;
    assert DetectBase(s, 0) == (8, 0);
  }

  /** A leading '1'..'9' makes `strtoull` read the longest run of decimal
      digits. */
  lemma StrToULLDecimal(s: seq<byte>)
    requires s != [] && '1' as int <= s[0] <= '9' as int
    ensures var v := Value(s, 0, DigitEnd(s, 0, 10), 10);
      StrToULL(s) == if v > ULLongMax then ULLongMax else v
  {
    assert SpaceEnd(s, 0) == 0;
    assert DetectBase(s, 0) == (10, 0);
  }

  /** A sign followed by white space or by another sign leaves no digits
      to convert: the result is 0. */
  lemma StrToULLSignWithoutDigits(t: seq<byte>)
    requires t != [] && (IsSpace(t[0]) || t[0] == '+' as int || t[0] == '-' as int)
    ensures StrToULL(['+' as byte] + t) == 0 && StrToULL(['-' as byte] + t) == 0
  {
    var plus := ['+' as byte] + t;
    var minus := ['-' as byte] + t;
    assert plus[1] == t[0] && minus[1] == t[0];
    assert SpaceEnd(plus, 0) == 0 && SpaceEnd(minus, 0) == 0;
    assert DetectBase(plus, 1) == (10, 1) && DetectBase(minus, 1) == (10, 1);
    assert DigitEnd(plus, 1, 10) == 1 && DigitEnd(minus, 1, 10) == 1;
    assert Magnitude(plus, 1) == 0 && Magnitude(minus, 1) == 0;
  }

  /** "0x" or "0X" makes `strtoull` read the longest run of hex digits that
      follows it. */
  lemma StrToULLHex(s: seq<byte>)
    requires |s| >= 2 && s[0] == '0' as int && (s[1] == 'x' as int || s[1] == 'X' as int)
    ensures var v := Value(s, 2, DigitEnd(s, 2, 16), 16);
      StrToULL(s) == if v > ULLongMax then ULLongMax else v
  {
    assert SpaceEnd(s, 0) == 0;
    assert DetectBase(s, 0) == (16, 2);
  }

  /** Base 0 on short texts: hex, a negated one, octal after white space,
      a '+' sign, a decimal value that saturates, and "0b101", which C17
      base detection reads as the octal "0" followed by other text. */
  lemma StrToULLExamples()
    ensures StrToULL(['0' as byte, 'x' as byte, '1' as byte, 'f' as byte]) == 31
    ensures StrToULL(['-' as byte, '1' as byte]) == ULLongMax
    ensures StrToULL([' ' as byte, '\t' as byte, '0' as byte, '1' as byte, '7' as byte]) == 15
    ensures StrToULL(['+' as byte, '1' as byte, '0' as byte]) == 10
    ensures StrToULL(['0' as byte, 'b' as byte, '1' as byte, '0' as byte, '1' as byte]) == 0
  {
    var hex := ['0' as byte, 'x' as byte, '1' as byte, 'f' as byte];
    StrToULLHex(hex);
    assert DigitEnd(hex, 2, 16) == 4;
    var oct := ['0' as byte, '1' as byte, '7' as byte];
    assert [' ' as byte, '\t' as byte, '0' as byte, '1' as byte, '7' as byte] == [' ' as byte, '\t' as byte] + oct;
    StrToULLLeadingSpace([' ' as byte, '\t' as byte], oct);
    StrToULLOctal(oct);
    assert DigitEnd(oct, 0, 8) == 3;
    var bin := ['0' as byte, 'b' as byte, '1' as byte, '0' as byte, '1' as byte];
    StrToULLOctal(bin);
    assert DigitEnd(bin, 0, 8) == 1;
  }

  /** A numeric field written the ustar way, zero-padded octal digits and a
      NUL, is read back exactly by `strtoull` in base 0 as long as its first
      digit is '0' (the value is below 8^(w-1)), because that zero selects
      octal. */
  lemma OctalFieldRoundTrip(n: nat, w: nat, rest: seq<byte>)
    requires w >= 1 && n < Pow(8, w - 1) && n <= ULLongMax
    ensures StrToULL(OctalDigits(n, w) + [0] + rest) == n
  {
    var ds := OctalDigits(n, w);
    assert Pow(8, w) == 8 * Pow(8, w - 1);
    OctalDigitsValue(n, w);
    LeadingOctalZero(n, w);
    DigitEndStopsAtNul(ds, rest, 0, 8);
    ValuePrefix(ds, [0] + rest, 0, w, 8);
    assert ds + [0] + rest == ds + ([0] + rest);
    StrToULLOctal(ds + [0] + rest);
  }

  /** The first of `w` octal digits is '1'..'7' when the number needs all
      `w` of them. */
  lemma {:induction false} LeadingOctalDigit(n: nat, w: nat)
    requires w >= 1 && Pow(8, w - 1) <= n < Pow(8, w)
    ensures '1' as int <= OctalDigits(n, w)[0] <= '7' as int
  {
    if w > 1 {
      assert Pow(8, w) == 8 * Pow(8, w - 1) && Pow(8, w - 1) == 8 * Pow(8, w - 2);
      assert Pow(8, w - 2) <= n / 8 < Pow(8, w - 1);
      LeadingOctalDigit(n / 8, w - 1);
      assert OctalDigits(n, w)[0] == OctalDigits(n / 8, w - 1)[0];
    }
  }

  /** Octal digits read in base 10 are worth at least as much as in base 8,
      and more once there are two of them and the first is not '0'. */
  lemma {:induction false} DecimalReadExceedsOctal(s: seq<byte>, i: nat, j: nat)
    requires i < j <= |s|
    requires forall k :: i <= k < j ==> DigitValue(s[k]) < 8
    ensures Value(s, i, j, 10) >= Value(s, i, j, 8)
    ensures j - i >= 2 && DigitValue(s[i]) > 0 ==> Value(s, i, j, 10) > Value(s, i, j, 8)
    decreases j
  {
    if j - 1 > i {
      DecimalReadExceedsOctal(s, i, j - 1);
      var a := Value(s, i, j - 1, 10);
      var b := Value(s, i, j - 1, 8);
      assert a * 10 >= b * 10 >= b * 8;
      if DigitValue(s[i]) > 0 {
        assert b > 0;
        assert b * 10 > b * 8;
      }
    }
  }

  /** A field of two or more octal digits whose first digit is not '0' is
      misread: base detection takes it as decimal, which is worth more, so
      `strtoull` returns more than the number (or ULLONG_MAX). */
  lemma OctalFieldMisread(n: nat, w: nat, rest: seq<byte>)
    requires w >= 2 && Pow(8, w - 1) <= n < Pow(8, w)
    ensures var r := StrToULL(OctalDigits(n, w) + [0] + rest);
      r > n || r == ULLongMax
  {
    var ds := OctalDigits(n, w);
    OctalDigitsValue(n, w);
    LeadingOctalDigit(n, w);
    assert AllDigits(ds, 10);
    DigitEndStopsAtNul(ds, rest, 0, 10);
    ValuePrefix(ds, [0] + rest, 0, w, 10);
    assert ds + [0] + rest == ds + ([0] + rest);
    DecimalReadExceedsOctal(ds, 0, w);
    StrToULLDecimal(ds + [0] + rest);
  }

  /** A field of two or more octal digits holding a number below ULLONG_MAX
      reads back exactly when its first digit is '0'. */
  lemma OctalFieldReadsBack(n: nat, w: nat, rest: seq<byte>)
    requires w >= 2 && n < Pow(8, w) && n < ULLongMax
    ensures StrToULL(OctalDigits(n, w) + [0] + rest) == n <==> OctalDigits(n, w)[0] == '0' as int
  {
    if n < Pow(8, w - 1) {
      LeadingOctalZero(n, w);
      OctalFieldRoundTrip(n, w, rest);
    } else {
      LeadingOctalDigit(n, w);
      OctalFieldMisread(n, w, rest);
    }
  }

  /** 8^k written as k+1 octal digits starts with '1', so base detection
      reads it as decimal: "1" and k zeros, that is 10^k. */
  lemma PowerOfEightReadAsDecimal(k: nat, rest: seq<byte>)
    requires Pow(10, k) <= ULLongMax
    ensures StrToULL(OctalDigits(Pow(8, k), k + 1) + [0] + rest) == Pow(10, k)
  {
    var ds := OctalDigits(Pow(8, k), k + 1);
    PowerOfEightText(k);
    DigitEndStopsAtNul(ds, rest, 0, 10);
    ValuePrefix(ds, [0] + rest, 0, k + 1, 10);
    assert ds + [0] + rest == ds + ([0] + rest);
    StrToULLDecimal(ds + [0] + rest);
  }

  /** From 1 GiB on, the 11-digit octal size field no longer starts with
      '0': the field of a 1073741824-byte (8^10) file reads as 10^10. */
  lemma GibOctalSizeReadAsDecimal(rest: seq<byte>)
    ensures StrToULL(OctalDigits(Pow(8, 10), 11) + [0] + rest) == Pow(10, 10)
  {
    assert Pow(10, 10) == 10000000000;
    PowerOfEightReadAsDecimal(10, rest);
  }

  /** 8^k in k+1 octal digits is "1" followed by k zeros, which read in base
      10 is 10^k. */
  lemma {:induction false} PowerOfEightText(k: nat)
    ensures OctalDigits(Pow(8, k), k + 1)[0] == '1' as int
    ensures AllDigits(OctalDigits(Pow(8, k), k + 1), 10)
    ensures Value(OctalDigits(Pow(8, k), k + 1), 0, k + 1, 10) == Pow(10, k)
  {
    var ds := OctalDigits(Pow(8, k), k + 1);
    if k == 0 {
      assert ds == [] + ['1' as int as byte];
    } else {
      PowerOfEightText(k - 1);
      assert Pow(8, k) / 8 == Pow(8, k - 1) && Pow(8, k) % 8 == 0;
      var init := OctalDigits(Pow(8, k - 1), k);
      assert ds == init + ['0' as int as byte];
      ValuePrefix(init, ['0' as int as byte], 0, k, 10);
    }
  }

  /** A run of digits followed by a NUL ends at the NUL. */
  lemma {:induction false} DigitEndStopsAtNul(ds: seq<byte>, rest: seq<byte>, i: nat, base: nat)
    requires i <= |ds| && base <= 36
    requires AllDigits(ds, base)
    ensures DigitEnd(ds + [0] + rest, i, base) == |ds|
    decreases |ds| - i
  {
    var s := ds + [0] + rest;
    if i < |ds| {
      assert s[i] == ds[i];
      DigitEndStopsAtNul(ds, rest, i + 1, base);
    } else {
      assert s[i] == 0;
    }
  }
}
