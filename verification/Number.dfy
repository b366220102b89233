/**
 number of vsprintf.c: the digits of an integer with sign, prefix, precision and padding.
*/
module Number {
  import opened Arith

  datatype Flags = Flags(zeropad: bool, left: bool, plus: bool, space: bool, hash: bool, upper: bool, sign: bool)

  const DIGITS: string := "0123456789abcdefghijklmnopqrstuvwxyz"
  const UPPER_DIGITS: string := "0123456789ABCDEFGHIJKLMNOPQRSTUVWXYZ"

  function DigitChar(d: nat, upper: bool): char
    requires d < 36
  {
    if upper then UPPER_DIGITS[d] else DIGITS[d]
  }

  // ---- the reference ----------------------------------------------------------------------

  lemma Smaller(n: nat, base: nat)
    requires 2 <= base <= n
    ensures 0 < n / base < n
  {
    var q := n / base;
    assert n == q * base + n % base;
    if q >= n {
      MulMonotone(2, base, q);
    }
  }

  // The digits of n, most significant first.
  function DigitText(n: nat, base: nat, upper: bool): (t: string)
    requires 2 <= base <= 36
    ensures |t| > 0
  {
    if n < base then [DigitChar(n, upper)]
    else Smaller(n, base); DigitText(n / base, base, upper) + [DigitChar(n % base, upper)]
  }

  function Repeat(c: char, n: int): (s: string)
    ensures |s| == (if n > 0 then n else 0) && forall k :: 0 <= k < |s| ==> s[k] == c
  {
    if n <= 0 then "" else Repeat(c, n - 1) + [c]
  }

  function SignText(num: int, f: Flags): string {
    if !f.sign then ""
    else if num < 0 then "-" else if f.plus then "+" else if f.space then " " else ""
  }

  function PrefixText(base: nat, f: Flags): string {
    if !f.hash then "" else if base == 16 then "0x" else if base == 8 then "0" else ""
  }

  // The magnitude that is printed: without a sign, the 32-bit pattern.
  function Magnitude(num: int, f: Flags): int {
    if num >= 0 then num else if f.sign then -num else num + 0x1_0000_0000
  }

  // Blanks, sign, prefix, zeros, digits, blanks; at most one of the paddings is not empty.
  function Layout(sign: string, prefix: string, zeros: string, digits: string, width: int, f: Flags): string {
    if f.left then sign + prefix + (zeros + digits) + Repeat(' ', width)
    else if f.zeropad then sign + prefix + Repeat('0', width) + (zeros + digits)
    else Repeat(' ', width) + sign + prefix + (zeros + digits)
  }

  function Text(num: int, base: nat, size: int, precision: int, f: Flags): string
    requires 2 <= base <= 36 && Magnitude(num, f) >= 0
  {
    var digits := DigitText(Magnitude(num, f), base, f.upper);
    var zeros := Repeat('0', precision - |digits|);
    var width := size - |SignText(num, f)| - |PrefixText(base, f)| - |zeros| - |digits|;
    Layout(SignText(num, f), PrefixText(base, f), zeros, digits, width, f)
  }

  // The text fills the field width exactly, unless what must be printed is longer.
  lemma TextWidth(num: int, base: nat, size: int, precision: int, f: Flags)
    requires 2 <= base <= 36 && Magnitude(num, f) >= 0
    ensures var digits := |DigitText(Magnitude(num, f), base, f.upper)|;
            var least := |SignText(num, f)| + |PrefixText(base, f)| + if precision > digits then precision else digits;
            |Text(num, base, size, precision, f)| == if size > least then size else least
  {
    hide DigitText, Repeat;
  }

  // ---- the code ---------------------------------------------------------------------------

  // Digits below ten are decimal, the others letters, in upper case only if that is asked for.
  lemma DigitCharMeans(d: nat, upper: bool)
    requires d < 36
    ensures DigitChar(d, upper) as int
            == if d < 10 then 48 + d else if upper then 65 + (d - 10) else 97 + (d - 10)
  {
  }

  lemma {:induction false} NoLeadingZero(n: nat, base: nat, upper: bool)
    requires 2 <= base <= 36
    ensures DigitText(n, base, upper)[0] == '0' ==> n == 0 && |DigitText(n, base, upper)| == 1
  {
    if n < base {
      DigitCharMeans(n, upper);
    } else {
      Smaller(n, base);
      NoLeadingZero(n / base, base, upper);
    }
  }

  // A minus sign for negative numbers, a plus or a blank for others, and none without the sign flag.
  lemma SignMeans(num: int, f: Flags)
    ensures SignText(num, f) == "-" <==> f.sign && num < 0
    ensures SignText(num, f) == "+" <==> f.sign && num >= 0 && f.plus
    ensures SignText(num, f) == " " <==> f.sign && num >= 0 && !f.plus && f.space
    ensures SignText(num, f) in {"", "-", "+", " "}
  {
  }

  lemma PrefixMeans(base: nat, f: Flags)
    ensures PrefixText(base, f) == "0x" <==> f.hash && base == 16
    ensures PrefixText(base, f) == "0" <==> f.hash && base == 8
    ensures PrefixText(base, f) in {"", "0", "0x"}
  {
  }

  ghost predicate AllAre(c: char, t: string) {
    forall k :: 0 <= k < |t| ==> t[k] == c
  }

  // Where sign and prefix, zeros and digits stand in a text.  Left alignment puts them first and blanks
  // behind, zero padding fills up behind sign and prefix, and otherwise blanks come first.
  ghost predicate Sides(t: string, head: string, zeros: string, digits: string, f: Flags) {
    var core := head + zeros + digits;
    && |head| + |digits| <= |core| <= |t|
    && (f.left ==> t[..|core|] == core && AllAre(' ', t[|core|..]))
    && (!f.left && !f.zeropad ==> t[|t| - |core|..] == core && AllAre(' ', t[..|t| - |core|]))
    && (!f.left && f.zeropad ==>
          t[..|head|] == head && t[|t| - |digits|..] == digits && AllAre('0', t[|head|..|t| - |digits|]))
  }

  lemma LayoutSides(sign: string, prefix: string, zeros: string, digits: string, width: int, f: Flags)
    requires AllAre('0', zeros)
    ensures Sides(Layout(sign, prefix, zeros, digits, width, f), sign + prefix, zeros, digits, f)
  {
    hide Repeat;
    var t, head := Layout(sign, prefix, zeros, digits, width, f), sign + prefix;
    if f.left {
      assert t == head + zeros + digits + Repeat(' ', width);
    } else if f.zeropad {
      assert t == head + (Repeat('0', width) + zeros) + digits;
      assert t[|head|..|t| - |digits|] == Repeat('0', width) + zeros;
    } else {
      assert t == Repeat(' ', width) + (head + zeros + digits);
    }
  }

  lemma TextSides(num: int, base: nat, size: int, precision: int, f: Flags)
    requires 2 <= base <= 36 && Magnitude(num, f) >= 0
    ensures var digits := DigitText(Magnitude(num, f), base, f.upper);
            Sides(Text(num, base, size, precision, f), SignText(num, f) + PrefixText(base, f),
                  Repeat('0', precision - |digits|), digits, f)
  {
    hide DigitText, Repeat, Magnitude, SignText, PrefixText, Sides, Layout;
    var digits := DigitText(Magnitude(num, f), base, f.upper);
    var sign, prefix, zeros := SignText(num, f), PrefixText(base, f), Repeat('0', precision - |digits|);
    LayoutSides(sign, prefix, zeros, digits, size - |sign| - |prefix| - |zeros| - |digits|, f);
  }

  function Reversed(s: string): (r: string)
    ensures |r| == |s|
  {
    if s == "" then "" else [s[|s| - 1]] + Reversed(s[..|s| - 1])
  }

  // One step of the conversion.
  function Shifted(u: nat, base: nat): nat
    requires base > 0
  {
    u / base
  }

  function Lowest(u: nat, base: nat): nat
    requires base > 0
  {
    u % base
  }

  lemma Halves(u: nat, base: nat, k: nat)
    requires 2 <= base && 0 < u < Two(k)
    ensures k > 0 && Shifted(u, base) < Two(k - 1)
  {
    var q := u / base;
    assert u == q * base + u % base;
    MulMonotone(2, base, q);
  }

  lemma ZeroText(base: nat, upper: bool)
    requires 2 <= base <= 36
    ensures Reversed("0") == DigitText(0, base, upper)
  {
    assert Reversed("0"[..0]) == "";
  }

  lemma Two32()
    ensures Two(32) == 0x1_0000_0000
  {
    assert Two(8) == 0x100;
    assert Two(16) == 0x1_0000;
    assert Two(24) == 0x100_0000;
  }

  // Taking one digit off a number.
  lemma NextDigit(u: nat, base: nat, upper: bool, done: string)
    requires 2 <= base <= 36 && u > 0
    ensures 0 <= Shifted(u, base) < u && Lowest(u, base) < 36
    ensures var d := DigitChar(Lowest(u, base), upper);
            DigitText(u, base, upper) + Reversed(done)
            == (if Shifted(u, base) == 0 then "" else DigitText(Shifted(u, base), base, upper)) + Reversed(done + [d])
  {
    var d := DigitChar(Lowest(u, base), upper);
    assert (done + [d])[..|done|] == done;
    if u < base {
      DivModUnique(u, base, 0, u);
    } else {
      Smaller(u, base);
    }
  }

  // The digits of a number, least significant first, in `tmp`.
  method Extract(n: nat, base: nat, upper: bool, tmp: array<char>) returns (i: nat)
    requires 2 <= base <= 36 && n < 0x1_0000_0000 && tmp.Length == 66
    modifies tmp
    ensures i <= 66 && Reversed(tmp[..i]) == DigitText(n, base, upper)
  {
    hide DigitChar, DigitText, Reversed, Two, Shifted, Lowest;
    i := 0;
    if n == 0 {
      tmp[0] := '0';
      i := 1;
      ZeroText(base, upper);
      assert tmp[..1] == "0";
      return;
    }
    var u := n;
    Two32();
    assert Reversed(tmp[..0]) == "";
    while u != 0
      invariant i <= 32 && 0 <= u < Two(32 - i)
      invariant DigitText(n, base, upper) == (if u == 0 then "" else DigitText(u, base, upper)) + Reversed(tmp[..i])
      decreases u
    {
      Halves(u, base, 32 - i);
      NextDigit(u, base, upper, tmp[..i]);
      ghost var done := tmp[..i];
      tmp[i] := DigitChar(Lowest(u, base), upper);
      assert tmp[..i + 1] == done + [DigitChar(Lowest(u, base), upper)];
      u := Shifted(u, base);
      i := i + 1;
    }
  }

  // while (size-- > 0) *str++ = c;
  method Fill(c: char, size: int) returns (out: string, size': int)
    ensures out == Repeat(c, size) && size' == (if size > 0 then 0 else size) - 1
  {
    out, size' := "", size;
    while size' > 0
      invariant out + Repeat(c, 0) == Repeat(c, if size > 0 then size - size' else 0) &&
                (size > 0 ==> 0 <= size' <= size) && (size <= 0 ==> size' == size)
    {
      out := out + [c];
      size' := size' - 1;
    }
    size' := size' - 1;
  }

  // while (i-- > 0) *str++ = tmp[i];
  method Backwards(tmp: array<char>, n: nat) returns (out: string)
    requires n <= tmp.Length
    ensures out == Reversed(tmp[..n])
  {
    out := "";
    var i := n;
    while i > 0
      invariant 0 <= i <= n && Reversed(tmp[..n]) == out + Reversed(tmp[..i])
    {
      assert tmp[..i][..i - 1] == tmp[..i - 1];
      i := i - 1;
      out := out + [tmp[i]];
    }
  }

  // Sign, magnitude and what is left of the field width.  The magnitude of LONG_MIN is right because
  // only its 32-bit pattern is used.
  method TakeSign(num: int, size0: int, flags: Flags) returns (sign: string, unsigned: nat, size: int)
    requires -0x8000_0000 <= num < 0x8000_0000
    ensures sign == SignText(num, flags) && unsigned == Magnitude(num, flags) < 0x1_0000_0000 && size == size0 - |sign|
  {
    sign, size := "", size0;
    var n := num;
    if flags.sign {
      if n < 0 {
        sign, n, size := "-", -n, size - 1;
      } else if flags.plus {
        sign, size := "+", size - 1;
      } else if flags.space {
        sign, size := " ", size - 1;
      }
    }
    unsigned := n % 0x1_0000_0000;
  }

  lemma Arranged(sign: string, prefix: string, zeros: string, digits: string, width: int, f: Flags,
                 blanks: string, pad: string, rest: string)
    requires !(f.left && f.zeropad)
    requires blanks == if !f.zeropad && !f.left then Repeat(' ', width) else ""
    requires pad == if f.zeropad then Repeat('0', width) else ""
    requires rest == if f.left then Repeat(' ', width) else ""
    ensures blanks + sign + prefix + pad + zeros + digits + rest == Layout(sign, prefix, zeros, digits, width, f)
  {
    hide Repeat;
  }

  // The writes behind the calculation of the digits; `width` is what is left for padding.
  method Assemble(sign: string, base: nat, width: int, precision: nat, i: nat, tmp: array<char>, flags: Flags)
    returns (str: string)
    requires i <= precision && i <= tmp.Length && !(flags.left && flags.zeropad)
    ensures str == Layout(sign, PrefixText(base, flags), Repeat('0', precision - i), Reversed(tmp[..i]), width, flags)
  {
    hide Repeat, Reversed;
    var c := if flags.zeropad then '0' else ' ';
    var size := width;
    str := "";
    var blanks, pad, zeros, digits, rest := "", "", "", "", "";
    if !flags.zeropad && !flags.left {
      blanks, size := Fill(' ', size);
      str := str + blanks;
    }
    str := str + sign;
    assert str == blanks + sign;
    if flags.hash {
      if base == 8 {
        str := str + "0";
      } else if base == 16 {
        str := str + "0" + [DIGITS[33]];
      }
    }
    assert str == blanks + sign + PrefixText(base, flags) by { assert [DIGITS[33]] == "x"; }
    if !flags.left {
      pad, size := Fill(c, size);
      str := str + pad;
    }
    var spent;
    zeros, spent := Fill('0', precision - i);
    str := str + zeros;
    digits := Backwards(tmp, i);
    str := str + digits;
    rest, size := Fill(' ', size);
    str := str + rest;
    assert str == blanks + sign + PrefixText(base, flags) + pad + zeros + digits + rest;
    Arranged(sign, PrefixText(base, flags), zeros, digits, width, flags, blanks, pad, rest);
  }

  // What the prefix takes off the field width.
  function PrefixLength(base: nat, f: Flags): (n: nat)
    ensures n == |PrefixText(base, f)|
  {
    if !f.hash then 0 else if base == 16 then 2 else if base == 8 then 1 else 0
  }

  // Left alignment only switches zero padding off.
  lemma SameTexts(num: int, base: nat, f: Flags, g: Flags)
    requires g == if f.left then f.(zeropad := false) else f
    ensures SignText(num, g) == SignText(num, f) && PrefixText(base, g) == PrefixText(base, f) &&
            Magnitude(num, g) == Magnitude(num, f)
  {
  }

  lemma LayoutIsText(num: int, base: nat, size: int, precision: int, f: Flags, zeros: nat, width: int)
    requires 2 <= base <= 36 && Magnitude(num, f) >= 0
    requires var n := |DigitText(Magnitude(num, f), base, f.upper)|;
             && zeros == (if n > precision then 0 else precision - n)
             && width == size - |SignText(num, f)| - |PrefixText(base, f)| - zeros - n
    ensures Layout(SignText(num, f), PrefixText(base, f), Repeat('0', zeros),
                DigitText(Magnitude(num, f), base, f.upper), width,
                   if f.left then f.(zeropad := false) else f)
            == Text(num, base, size, precision, f)
  {
    hide Repeat, DigitText, SignText, PrefixText, Magnitude;
    var n := |DigitText(Magnitude(num, f), base, f.upper)|;
    assert Repeat('0', zeros) == Repeat('0', precision - n);
  }

  // number; a base outside 2..36 returns a null pointer.
  method Print(num: int, base: int, size0: int, precision0: int, flags0: Flags) returns (ok: bool, str: string)
    requires -0x8000_0000 <= num < 0x8000_0000
    ensures ok <==> 2 <= base <= 36
    ensures ok ==> str == Text(num, base, size0, precision0, flags0)
  {
    hide Repeat, DigitText, Reversed, SignText, PrefixText, Magnitude;
    var tmp := new char[66](_ => '\0');
    var flags, precision := flags0, precision0;
    if flags.left {
      flags := flags.(zeropad := false);
    }
    if base < 2 || base > 36 {
      return false, "";
    }
    var sign, unsigned, size := TakeSign(num, size0, flags);
    SameTexts(num, base, flags0, flags);
    size := size - PrefixLength(base, flags);
    var i := Extract(unsigned, base, flags.upper, tmp);
    if i > precision {
      precision := i;
    }
    size := size - precision;
    str := Assemble(sign, base, size, precision, i, tmp, flags);
    LayoutIsText(num, base, size0, precision0, flags0, precision - i, size);
    ok := true;
  }
}
