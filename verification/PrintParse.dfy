/** Printing an integer and reading it back. */
module PrintParse {
  import opened Number
  import opened Seqs
  import opened Strtol

  // ---- the characters of the digits -------------------------------------------------------

  lemma LowerChars(d: nat)
    requires d < 36
    ensures d < 10 ==> DIGITS[d] as int == '0' as int + d
    ensures 10 <= d ==> DIGITS[d] as int == 'a' as int + d - 10
  {
  }

  lemma UpperChars(d: nat)
    requires d < 36
    ensures d < 10 ==> UPPER_DIGITS[d] as int == '0' as int + d
    ensures 10 <= d ==> UPPER_DIGITS[d] as int == 'A' as int + d - 10
  {
  }

  lemma DigitOfChar(d: nat, upper: bool)
    requires d < 36
    ensures DigitOf(DigitChar(d, upper)) == d && DigitChar(d, upper) != ' '
  {
    if upper {
      UpperChars(d);
    } else {
      LowerChars(d);
    }
  }

  // ---- the value of printed digits --------------------------------------------------------

  function Vals(t: string): seq<int> {
    seq(|t|, k requires 0 <= k < |t| => DigitOf(t[k]))
  }

  // Every character of the text is a digit of the base.
  ghost predicate AllDigits(t: string, base: nat) {
    forall k :: 0 <= k < |t| ==> 0 <= DigitOf(t[k]) < base
  }

  lemma ValueSnocText(t: string, c: char, base: nat)
    ensures Value(Vals(t + [c]), base) == Value(Vals(t), base) * base + DigitOf(c)
    ensures AllDigits(t, base) && 0 <= DigitOf(c) < base ==> AllDigits(t + [c], base)
  {
    hide DigitOf;
    var v := Vals(t + [c]);
    assert v[..|v| - 1] == Vals(t) && v[|v| - 1] == DigitOf(c);
  }

  lemma NoDigits(base: nat)
    ensures Value(Vals(""), base) == 0 && AllDigits("", base)
  {
  }

  lemma {:induction false} DigitTextValue(n: nat, base: nat, upper: bool)
    requires 2 <= base <= 36
    ensures var t := DigitText(n, base, upper);
            AllDigits(t, base) && Value(Vals(t), base) == n
  {
    hide DigitOf, DigitChar, AllDigits, Value;
    if n < base {
      DigitOfChar(n, upper);
      NoDigits(base);
      ValueSnocText("", DigitChar(n, upper), base);
      assert "" + [DigitChar(n, upper)] == DigitText(n, base, upper);
    } else {
      Smaller(n, base);
      DigitOfChar(n % base, upper);
      DigitTextValue(n / base, base, upper);
      ValueSnocText(DigitText(n / base, base, upper), DigitChar(n % base, upper), base);
    }
  }

  lemma {:induction false} LeadingZeros(z: seq<int>, ds: seq<int>, base: int)
    requires forall k :: 0 <= k < |z| ==> z[k] == 0
    ensures Value(z + ds, base) == Value(ds, base)
    decreases |z| + |ds|
  {
    var w := z + ds;
    if ds != [] {
      assert w[..|w| - 1] == z + ds[..|ds| - 1];
      LeadingZeros(z, ds[..|ds| - 1], base);
    } else if z != [] {
      assert w == z && z[..|z| - 1] + [] == z[..|z| - 1];
      LeadingZeros(z[..|z| - 1], [], base);
    }
  }

  // A run of digits that ends before something else is read as a whole.
  lemma {:induction false} DigitsOf(s: string, start: nat, base: nat, t: string)
    requires base <= 36 && start + |t| <= |s| && s[start..start + |t|] == t && AllDigits(t, base)
    requires !(0 <= DigitOf(At(s, start + |t|)) < base)
    ensures Digits(s, start, base) == Vals(t)
    decreases |t|
  {
    hide DigitOf;
    if t != "" {
      assert s[start] == s[start..start + |t|][0] == t[0];
      assert s[start + 1..start + 1 + |t[1..]|] == s[start..start + |t|][1..];
      DigitsOf(s, start + 1, base, t[1..]);
      assert Vals(t) == [DigitOf(t[0])] + Vals(t[1..]);
    }
  }

  lemma ZeroChar(base: nat)
    requires 2 <= base
    ensures DigitOf('0') == 0 && DigitOf(' ') == -1 && DigitOf('\0') == -1 && DigitOf('x') == 33
  {
  }

  // Zeros and printed digits, followed by something that is no digit.
  lemma ScanDigits(s: string, start: nat, zeros: string, n: nat, base: nat, upper: bool)
    requires 2 <= base <= 36 && forall k :: 0 <= k < |zeros| ==> zeros[k] == '0'
    requires var t := zeros + DigitText(n, base, upper);
             start + |t| <= |s| && s[start..start + |t|] == t && !(0 <= DigitOf(At(s, start + |t|)) < base)
    ensures Value(Digits(s, start, base), base) == n
  {
    hide DigitText, DigitOf, Digits, Value;
    var digits := DigitText(n, base, upper);
    var t := zeros + digits;
    DigitTextValue(n, base, upper);
    ZeroChar(base);
    assert AllDigits(t, base);
    DigitsOf(s, start, base, t);
    assert Vals(t) == Vals(zeros) + Vals(digits);
    LeadingZeros(Vals(zeros), Vals(digits), base);
  }

  // ---- what strtol makes of the text ------------------------------------------------------

  ghost predicate All(c: char, t: string) {
    forall k :: 0 <= k < |t| ==> t[k] == c
  }

  lemma SkipRun(s: string, n: nat)
    requires n < |s| && All(' ', s[..n]) && s[n] != ' '
    ensures SkipSpaces(s, 0) == n
  {
    var r := SkipSpaces(s, 0);
    assert forall k :: 0 <= k < n ==> s[..n][k] == s[k];
    assert At(s, n) != ' ' && At(s, r) != ' ';
  }

  lemma DigitChars(base: nat, body: string, k: nat)
    requires AllDigits(body, base) && k < |body|
    ensures body[k] != ' ' && body[k] != '-' && body[k] != '+'
  {
  }

  lemma NotX(s: string, i: nat, pre: string, body: string, rest: string)
    requires s == pre + body + rest && |pre| <= i && AllDigits(body, 16) && All(' ', rest)
    ensures At(s, i) != 'x' && At(s, i) != 'X'
  {
    if i < |pre| + |body| {
      assert s[i] == body[i - |pre|];
    } else if i < |s| {
      assert s[i] == rest[i - |pre| - |body|];
    }
  }

  // Blanks, a sign and digits that do not look like a hexadecimal prefix.
  lemma PlainHeader(s: string, blanks: string, sgn: string, base: int, body: string, rest: string)
    requires 2 <= base <= 36 && s == blanks + sgn + body + rest && All(' ', blanks) &&
             (sgn == "" || sgn == "-" || sgn == "+")
    requires body != "" && AllDigits(body, base) && All(' ', rest)
    ensures HeaderOf(s, base) == Header(|blanks| + |sgn|, base, sgn == "-")
  {
    hide SkipSpaces;
    var n, j := |blanks|, |blanks| + |sgn|;
    DigitChars(base, body, 0);
    assert s[..n] == blanks;
    assert s[n] == if sgn == "" then body[0] else sgn[0];
    SkipRun(s, n);
    assert s[j] == body[0];
    if base == 16 {
      NotX(s, j + 1, blanks + sgn, body, rest);
    }
  }

  lemma HexHeader(s: string, blanks: string, sgn: string, more: string)
    requires s == blanks + sgn + "0x" + more && All(' ', blanks) && (sgn == "" || sgn == "-" || sgn == "+")
    ensures HeaderOf(s, 16) == Header(|blanks| + |sgn| + 2, 16, sgn == "-")
  {
    hide SkipSpaces;
    var n, j := |blanks|, |blanks| + |sgn|;
    assert s[..n] == blanks;
    assert s[n] == if sgn == "" then '0' else sgn[0];
    SkipRun(s, n);
    assert s[j] == '0' && s[j + 1] == 'x';
  }

  lemma ZeroesAreDigits(zeros: string, digits: string, base: nat)
    requires 2 <= base && All('0', zeros) && AllDigits(digits, base)
    ensures AllDigits(zeros + digits, base) && forall k :: 0 <= k < |zeros| ==> zeros[k] == '0'
  {
  }

  lemma Terminated(s: string, i: nat, rest: string)
    requires i + |rest| == |s| && s[i..] == rest && All(' ', rest)
    ensures DigitOf(At(s, i)) == -1
  {
    if rest != "" {
      assert s[i] == rest[0];
    }
  }

  lemma ShapeHeader(s: string, blanks: string, sgn: string, prefix: string, base: nat, body: string, rest: string)
    requires 2 <= base <= 36 && All(' ', blanks) && All(' ', rest) && (sgn == "" || sgn == "-" || sgn == "+")
    requires prefix == "" || (prefix == "0x" && base == 16)
    requires s == blanks + sgn + prefix + body + rest && body != "" && AllDigits(body, base)
    ensures HeaderOf(s, base) == Header(|blanks| + |sgn| + |prefix|, base, sgn == "-")
  {
    hide HeaderOf, All, AllDigits;
    if prefix == "" {
      assert s == blanks + sgn + body + rest;
      PlainHeader(s, blanks, sgn, base, body, rest);
    } else {
      Assoc(blanks + sgn + "0x", body, rest);
      HexHeader(s, blanks, sgn, body + rest);
    }
  }

  lemma ReadBody(s: string, pre: string, zeros: string, n: nat, base: nat, upper: bool, rest: string)
    requires 2 <= base <= 36 && All('0', zeros) && All(' ', rest)
    requires s == pre + (zeros + DigitText(n, base, upper)) + rest
    ensures Value(Digits(s, |pre|, base), base) == n
  {
    hide DigitText, Value, Digits, DigitOf;
    var body := zeros + DigitText(n, base, upper);
    ThreePieces(pre, body, rest);
    Terminated(s, |pre| + |body|, rest);
    ScanDigits(s, |pre|, zeros, n, base, upper);
  }

  // Text of that shape is read back as the number, for every kind of padding.
  lemma ReadShape(s: string, blanks: string, sgn: string, prefix: string, zeros: string, n: nat, base: nat, upper: bool,
                  rest: string)
    requires 2 <= base <= 36 && All(' ', blanks) && All('0', zeros) && All(' ', rest) &&
             (sgn == "" || sgn == "-" || sgn == "+")
    requires prefix == "" || (prefix == "0x" && base == 16)
    requires s == blanks + sgn + prefix + (zeros + DigitText(n, base, upper)) + rest
    ensures Exact(s, base) == Signed(sgn == "-", n)
  {
    hide DigitText, HeaderOf, Value, Digits, DigitOf, All, AllDigits;
    var body := zeros + DigitText(n, base, upper);
    var start := |blanks| + |sgn| + |prefix|;
    DigitTextValue(n, base, upper);
    ZeroesAreDigits(zeros, DigitText(n, base, upper), base);
    ShapeHeader(s, blanks, sgn, prefix, base, body, rest);
    var pre := blanks + sgn + prefix;
    ReadBody(s, pre, zeros, n, base, upper, rest);
    assert |pre| == start;
  }

  // The sign as strtol sees it: a blank sign is one more blank.
  function Sgn(num: int, f: Flags): string {
    if SignText(num, f) == " " then "" else SignText(num, f)
  }

  function Gap(num: int, f: Flags): string {
    if SignText(num, f) == " " then " " else ""
  }

  function HexText(base: nat, f: Flags): string {
    if PrefixText(base, f) == "0x" then "0x" else ""
  }

  function OctalText(base: nat, f: Flags): string {
    if PrefixText(base, f) == "0" then "0" else ""
  }

  lemma SignAndPrefix(num: int, base: nat, f: Flags)
    ensures SignText(num, f) == Gap(num, f) + Sgn(num, f) &&
            PrefixText(base, f) == HexText(base, f) + OctalText(base, f)
    ensures (Gap(num, f) == "" || Gap(num, f) == " ") && (OctalText(base, f) == "" || OctalText(base, f) == "0")
  {
  }

  lemma Pieces(width: int, more: int, gap: string, octal: string)
    requires (gap == "" || gap == " ") && (octal == "" || octal == "0")
    ensures All(' ', "" + gap) && All(' ', Repeat(' ', width) + gap) && All(' ', Repeat(' ', width)) && All(' ', "")
    ensures All('0', octal + "" + Repeat('0', more)) && All('0', octal + Repeat('0', width) + Repeat('0', more))
  {
    hide Repeat;
  }

  lemma Regroup(gap: string, sgn: string, hex: string, octal: string, fill: string, digits: string, width: int,
                f: Flags, sign: string, prefix: string)
    requires sign == gap + sgn && prefix == hex + octal
    ensures Layout(sign, prefix, fill, digits, width, f)
            == ((if !f.left && !f.zeropad then Repeat(' ', width) else "") + gap) + sgn + hex
               + ((octal + (if !f.left && f.zeropad then Repeat('0', width) else "") + fill) + digits)
               + (if f.left then Repeat(' ', width) else "")
  {
    hide Repeat;
  }

  // The printed text is blanks, a sign, a prefix, zeros, the digits and blanks.
  lemma Shape(num: int, base: nat, size: int, precision: int, f: Flags)
    returns (blanks: string, zeros: string, rest: string)
    requires 2 <= base <= 36 && Magnitude(num, f) >= 0
    ensures All(' ', blanks) && All('0', zeros) && All(' ', rest)
    ensures Text(num, base, size, precision, f)
            == blanks + Sgn(num, f) + HexText(base, f) + (zeros + DigitText(Magnitude(num, f), base, f.upper)) + rest
  {
    hide DigitText, Repeat, Magnitude, All, Gap, Sgn, HexText, OctalText, SignText, PrefixText, Layout;
    var digits := DigitText(Magnitude(num, f), base, f.upper);
    var fill := Repeat('0', precision - |digits|);
    var width := size - |SignText(num, f)| - |PrefixText(base, f)| - |fill| - |digits|;
    SignAndPrefix(num, base, f);
    Pieces(width, precision - |digits|, Gap(num, f), OctalText(base, f));
    blanks := (if !f.left && !f.zeropad then Repeat(' ', width) else "") + Gap(num, f);
    zeros := OctalText(base, f) + (if !f.left && f.zeropad then Repeat('0', width) else "") + fill;
    rest := if f.left then Repeat(' ', width) else "";
    Regroup(Gap(num, f), Sgn(num, f), HexText(base, f), OctalText(base, f), fill, digits, width, f,
            SignText(num, f), PrefixText(base, f));
  }

  // strtol reads back what number prints, in every base, with every width, precision and flags,
  // as long as a negative number is printed with its sign.
  lemma RoundTrip(num: int, base: nat, size: int, precision: int, f: Flags)
    requires 2 <= base <= 36 && -0x8000_0000 <= num < 0x8000_0000 && (f.sign || num >= 0)
    ensures Exact(Text(num, base, size, precision, f), base) == num
  {
    hide DigitText, Text, Exact;
    var blanks, zeros, rest := Shape(num, base, size, precision, f);
    ReadShape(Text(num, base, size, precision, f), blanks, Sgn(num, f), HexText(base, f),
              zeros, Magnitude(num, f), base, f.upper, rest);
  }

  // A negative number printed without its sign denotes its 32-bit pattern, and is read back as LONG_MAX.
  lemma WithoutSign(num: int, base: nat, size: int, precision: int, f: Flags)
    requires 2 <= base <= 36 && -0x8000_0000 <= num < 0 && !f.sign
    ensures Exact(Text(num, base, size, precision, f), base) == num + 4294967296
    ensures Clamp(Exact(Text(num, base, size, precision, f), base)) == LONG_MAX
  {
    hide DigitText, Text, Exact;
    var blanks, zeros, rest := Shape(num, base, size, precision, f);
    ReadShape(Text(num, base, size, precision, f), blanks, Sgn(num, f), HexText(base, f),
              zeros, Magnitude(num, f), base, f.upper, rest);
  }

  method PrintThenParse(num: int, base: nat, size: int, precision: int, f: Flags) returns (r: int, range: bool)
    requires 2 <= base <= 36 && -0x8000_0000 <= num < 0x8000_0000
    ensures r == num <==> f.sign || num >= 0
    ensures r == num ==> !range
  {
    hide DigitText, Text, Exact;
    var ok, text := Print(num, base, size, precision, f);
    var end;
    r, end, range := ParseLong(text, base);
    if f.sign || num >= 0 {
      RoundTrip(num, base, size, precision, f);
    } else {
      WithoutSign(num, base, size, precision, f);
    }
  }
}
