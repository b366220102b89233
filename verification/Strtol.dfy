/**
 strtol. The reference accumulates the digits in unbounded integers and clamps at the end; the
 code decides before each digit whether the next step would leave the range of a 32-bit long.
*/
module Strtol {
  import opened Arith

  const LONG_MAX: int := 0x7FFF_FFFF
  const LONG_MIN: int := -0x8000_0000

  // The character at i; a string ends with a null character.
  function At(s: string, i: nat): char {
    if i < |s| then s[i] else '\0'
  }

  predicate IsDigit(c: char) { '0' <= c <= '9' }
  predicate IsUpper(c: char) { 'A' <= c <= 'Z' }
  predicate IsAlpha(c: char) { 'A' <= c <= 'Z' || 'a' <= c <= 'z' }

  // The value of a digit, or -1.
  function DigitOf(c: char): int {
    if IsDigit(c) then c as int - '0' as int
    else if IsAlpha(c) then c as int - (if IsUpper(c) then 'A' as int - 10 else 'a' as int - 10)
    else -1
  }

  // ---- the reference ----------------------------------------------------------------------

  function Value(ds: seq<int>, base: int): int {
    if ds == [] then 0 else Value(ds[..|ds| - 1], base) * base + ds[|ds| - 1]
  }

  function Power(base: int, n: nat): int {
    if n == 0 then 1 else base * Power(base, n - 1)
  }

  // The same by place values, the first digit counting most.
  function PlaceValue(ds: seq<int>, base: int): int {
    if ds == [] then 0 else ds[0] * Power(base, |ds| - 1) + PlaceValue(ds[1..], base)
  }

  lemma TimesBase(x: int, p: int, y: int, base: int)
    ensures x * (base * p) + (y * base) == (x * p + y) * base
  {
    assert x * (base * p) == (x * p) * base;
  }

  lemma {:induction false} PlaceSnoc(ds: seq<int>, d: int, base: int)
    ensures PlaceValue(ds + [d], base) == PlaceValue(ds, base) * base + d
  {
    var all := ds + [d];
    if ds == [] {
      assert all[1..] == [] && PlaceValue([], base) == 0;
    } else {
      assert all[1..] == ds[1..] + [d];
      PlaceSnoc(ds[1..], d, base);
      var p := Power(base, |ds| - 1);
      assert Power(base, |ds|) == base * p;
      TimesBase(ds[0], p, PlaceValue(ds[1..], base), base);
    }
  }

  lemma {:induction false} ValueIsPlaceValue(ds: seq<int>, base: int)
    ensures Value(ds, base) == PlaceValue(ds, base)
  {
    if ds != [] {
      var init, d := ds[..|ds| - 1], ds[|ds| - 1];
      assert ds == init + [d];
      ValueIsPlaceValue(init, base);
      PlaceSnoc(init, d, base);
    }
  }

  // The digits are 0 to 9, and letters of either case from 10 on.
  lemma DigitOfMeans(c: char)
    ensures 48 <= c as int <= 57 ==> DigitOf(c) == c as int - 48
    ensures 65 <= c as int <= 90 ==> DigitOf(c) == c as int - 55
    ensures 97 <= c as int <= 122 ==> DigitOf(c) == c as int - 87
    ensures DigitOf(c) == -1 <==> !(48 <= c as int <= 57 || 65 <= c as int <= 90 || 97 <= c as int <= 122)
  {
  }

  // The longest run of digits of the base from i on.
  function Digits(s: string, i: nat, base: int): (ds: seq<int>)
    requires base <= 36
    ensures i + |ds| <= |s| || |ds| == 0
    ensures forall k :: 0 <= k < |ds| ==> 0 <= ds[k] < base && ds[k] == DigitOf(At(s, i + k))
    ensures !(0 <= DigitOf(At(s, i + |ds|)) < base)
    decreases |s| - i
  {
    var d := DigitOf(At(s, i));
    if 0 <= d < base && i < |s| then [d] + Digits(s, i + 1, base) else []
  }

  function SkipSpaces(s: string, i: nat): (r: nat)
    ensures i <= r && At(s, r) != ' ' && forall k :: i <= k < r ==> At(s, k) == ' '
    decreases |s| - i
  {
    if i < |s| && s[i] == ' ' then SkipSpaces(s, i + 1) else i
  }

  // Where the digits start, the base and the sign.
  datatype Header = Header(start: nat, base: int, neg: bool)

  function HeaderOf(s: string, base: int): (h: Header)
    requires base == 0 || 2 <= base <= 36
    ensures 2 <= h.base <= 36
  {
    var i := SkipSpaces(s, 0);
    var j := if At(s, i) == '-' || At(s, i) == '+' then i + 1 else i;
    var hex := (base == 0 || base == 16) && At(s, j) == '0' && (At(s, j + 1) == 'x' || At(s, j + 1) == 'X');
    var k := if hex then j + 2 else j;
    Header(k, if hex then 16 else if base != 0 then base else if At(s, k) == '0' then 8 else 10, At(s, i) == '-')
  }

  function Clamp(x: int): int {
    if x < LONG_MIN then LONG_MIN else if x > LONG_MAX then LONG_MAX else x
  }

  // The number that the text denotes, however large.
  function Exact(s: string, base: int): int
    requires base == 0 || 2 <= base <= 36
  {
    var h := HeaderOf(s, base);
    var v := Value(Digits(s, h.start, h.base), h.base);
    if h.neg then -v else v
  }

  function Blanks(n: nat): (s: string)
    ensures |s| == n && forall k :: 0 <= k < n ==> s[k] == ' '
  {
    if n == 0 then "" else Blanks(n - 1) + " "
  }

  lemma SkipsBlanks(s: string, n: nat)
    requires n < |s| && s[n] != ' ' && forall k :: 0 <= k < n ==> s[k] == ' '
    ensures SkipSpaces(s, 0) == n
  {
    var r := SkipSpaces(s, 0);
    assert At(s, r) != ' ' && At(s, n) != ' ';
  }

  // Blanks, a sign and the rest: the sign decides whether the number is negative, and the start of
  // the rest may decide the base.
  lemma HeaderMeans(n: nat, sgn: string, body: string, base: int)
    requires base == 0 || 2 <= base <= 36
    requires sgn == "" || sgn == "-" || sgn == "+"
    requires body != "" && body[0] != ' ' && (sgn == "" ==> body[0] != '-' && body[0] != '+')
    ensures var s := Blanks(n) + sgn + body;
            var hex := |body| > 1 && body[0] == '0' && (body[1] == 'x' || body[1] == 'X') && (base == 0 || base == 16);
            HeaderOf(s, base) ==
              if hex then Header(n + |sgn| + 2, 16, sgn == "-")
              else Header(n + |sgn|, if base != 0 then base else if body[0] == '0' then 8 else 10, sgn == "-")
  {
    hide SkipSpaces;
    var s := Blanks(n) + sgn + body;
    assert s[n] == if sgn == "" then body[0] else sgn[0];
    SkipsBlanks(s, n);
    var j := n + |sgn|;
    assert At(s, j) == body[0] && At(s, j + 1) == if |body| > 1 then body[1] else '\0';
  }

  // ---- the code ---------------------------------------------------------------------------

  // C division truncates towards zero.
  function CDiv(a: int, b: int): int
    requires b > 0
  {
    if a >= 0 then a / b else -((-a) / b)
  }

  function CMod(a: int, b: int): int
    requires b > 0
  {
    if a >= 0 then a % b else -((-a) % b)
  }

  // One more digit leaves the range exactly when the cutoff test says so.
  lemma CutoffExact(limit: nat, base: nat, acc: nat, c: nat)
    requires base > 0 && c < base
    ensures acc > limit / base || (acc == limit / base && c > limit % base) <==> acc * base + c > limit
  {
    var q, r := limit / base, limit % base;
    assert limit == q * base + r;
    if acc > q {
      MulMonotone(q + 1, acc, base);
    } else if acc < q {
      MulMonotone(acc + 1, q, base);
    }
  }

  // More digits never make the value smaller.
  lemma {:induction false} ValueGrows(ds: seq<int>, n: nat, base: int)
    requires base >= 1 && n <= |ds| && forall k :: 0 <= k < |ds| ==> ds[k] >= 0
    ensures 0 <= Value(ds[..n], base) <= Value(ds, base)
    decreases |ds|
  {
    if ds == [] {
      assert ds[..n] == [];
    } else {
      var init := ds[..|ds| - 1];
      if n == |ds| {
        assert ds[..n] == ds;
        ValueGrows(init, 0, base);
        assert init[..0] == [];
        MulMonotone(0, Value(init, base), base);
      } else {
        assert init[..n] == ds[..n];
        ValueGrows(init, n, base);
        MulMonotone(1, base, Value(init, base));
      }
    }
  }

  lemma ValueSnoc(ds: seq<int>, n: nat, base: int)
    requires n < |ds|
    ensures Value(ds[..n + 1], base) == Value(ds[..n], base) * base + ds[n]
  {
    assert ds[..n + 1][..n] == ds[..n];
  }

  // The largest magnitude of a long with that sign.
  function Limit(neg: bool): nat {
    if neg then -LONG_MIN else LONG_MAX
  }

  function Signed(neg: bool, v: int): int {
    if neg then -v else v
  }

  // The state of the accumulation after n of the digits.
  ghost predicate Accumulated(ds: seq<int>, n: nat, base: int, neg: bool, acc: int, any: int)
    requires n <= |ds|
  {
    && (any == 0 || any == 1 || any == -1) && (any == 0 <==> n == 0)
    && (any >= 0 ==> acc == Signed(neg, Value(ds[..n], base)) && Value(ds[..n], base) <= Limit(neg))
    && (any < 0 ==> acc == Signed(neg, Limit(neg)) && Value(ds, base) > Limit(neg))
  }

  // The two parts of the limit that the cutoff test compares with.
  function Quotient(neg: bool, base: int): int
    requires base > 0
  {
    Limit(neg) / base
  }

  function Remainder(neg: bool, base: int): int
    requires base > 0
  {
    Limit(neg) % base
  }

  method Cutoffs(base: int, neg: bool) returns (cutoff: int, cutlim: int)
    requires 2 <= base <= 36
    ensures Signed(neg, cutoff) == Quotient(neg, base) && cutlim == Remainder(neg, base)
  {
    cutoff := if neg then LONG_MIN else LONG_MAX;
    cutlim := CMod(cutoff, base);
    cutoff := CDiv(cutoff, base);
    if neg {
      if cutlim > 0 {
        cutlim := cutlim - base;
        cutoff := cutoff + 1;
      }
      cutlim := -cutlim;
    }
  }

  // What one digit does to the accumulation.
  lemma OneMore(ds: seq<int>, n: nat, base: int, neg: bool, acc: int, any: int)
    requires base >= 2 && n < |ds| && (forall k :: 0 <= k < |ds| ==> 0 <= ds[k] < base)
    requires Accumulated(ds, n, base, neg, acc, any) && any >= 0
    ensures var c, mag := ds[n], Signed(neg, acc);
            var over := mag > Quotient(neg, base) || (mag == Quotient(neg, base) && c > Remainder(neg, base));
            && mag >= 0
            && (over ==> Accumulated(ds, n + 1, base, neg, Signed(neg, Limit(neg)), -1))
            && (!over ==> 0 <= mag * base + c <= Limit(neg)
                          && Accumulated(ds, n + 1, base, neg, Signed(neg, mag * base + c), 1))
  {
    ValueGrows(ds, n, base);
    ValueGrows(ds, n + 1, base);
    ValueSnoc(ds, n, base);
    CutoffExact(Limit(neg), base, Signed(neg, acc), ds[n]);
  }

  // One digit, without ever leaving the range of a long.
  method Consume(acc: int, any: int, c: int, base: int, neg: bool, cutoff: int, cutlim: int, ghost ds: seq<int>,
                 ghost n: nat)
    returns (acc': int, any': int)
    requires 2 <= base <= 36 && n < |ds| && c == ds[n] && (forall k :: 0 <= k < |ds| ==> 0 <= ds[k] < base)
    requires Signed(neg, cutoff) == Quotient(neg, base) && cutlim == Remainder(neg, base)
    requires any >= 0 && Accumulated(ds, n, base, neg, acc, any)
    ensures Accumulated(ds, n + 1, base, neg, acc', any') && LONG_MIN <= acc' <= LONG_MAX
  {
    hide Accumulated, Quotient, Remainder;
    OneMore(ds, n, base, neg, acc, any);
    if neg {
      if acc < cutoff || (acc == cutoff && c > cutlim) {
        any', acc' := -1, LONG_MIN;
      } else {
        assert (-acc) * base + c == -(acc * base - c);
        any', acc' := 1, acc * base - c;
      }
    } else {
      if acc > cutoff || (acc == cutoff && c > cutlim) {
        any', acc' := -1, LONG_MAX;
      } else {
        any', acc' := 1, acc * base + c;
      }
    }
  }

  lemma Nothing(ds: seq<int>, base: int, neg: bool)
    ensures Accumulated(ds, 0, base, neg, 0, 0)
  {
    assert ds[..0] == [];
  }

  lemma StillOver(ds: seq<int>, n: nat, base: int, neg: bool, acc: int, any: int)
    requires n < |ds| && any < 0 && Accumulated(ds, n, base, neg, acc, any)
    ensures Accumulated(ds, n + 1, base, neg, acc, any)
  {
  }

  // The loop over the digits.
  method Accumulate(str: string, start: nat, base: int, neg: bool) returns (acc: int, any: int, i: nat)
    requires 2 <= base <= 36
    ensures var ds := Digits(str, start, base);
            i == start + |ds| && Accumulated(ds, |ds|, base, neg, acc, any)
  {
    hide Accumulated, Value, Quotient, Remainder, DigitOf;
    ghost var ds := Digits(str, start, base);
    var cutoff, cutlim := Cutoffs(base, neg);
    acc, any, i := 0, 0, start;
    Nothing(ds, base, neg);
    while true
      invariant start <= i <= start + |ds| && Accumulated(ds, i - start, base, neg, acc, any)
      decreases start + |ds| - i
    {
      var c := DigitOf(At(str, i));
      assert i < start + |ds| ==> ds[i - start] == c;
      if c < 0 {
        break;
      }
      if c >= base {
        break;
      }
      assert i - start < |ds| && c == ds[i - start];
      if any < 0 {
        StillOver(ds, i - start, base, neg, acc, any);
        i := i + 1;
        continue;
      }
      acc, any := Consume(acc, any, c, base, neg, cutoff, cutlim, ds, i - start);
      i := i + 1;
    }
  }

  // What the accumulation of all digits ends with is the exact value, clamped.
  lemma AllConsumed(ds: seq<int>, base: int, neg: bool, acc: int, any: int)
    requires base >= 2 && (forall k :: 0 <= k < |ds| ==> 0 <= ds[k] < base)
    requires Accumulated(ds, |ds|, base, neg, acc, any)
    ensures acc == Clamp(Signed(neg, Value(ds, base)))
    ensures any < 0 <==> acc != Signed(neg, Value(ds, base))
    ensures any == 0 <==> ds == []
  {
    assert ds[..|ds|] == ds;
    ValueGrows(ds, 0, base);
  }

  lemma SkipOne(s: string, i: nat)
    requires At(s, i) == ' '
    ensures i < |s| && SkipSpaces(s, i) == SkipSpaces(s, i + 1)
  {
  }

  lemma SkipNone(s: string, i: nat)
    requires At(s, i) != ' '
    ensures SkipSpaces(s, i) == i
  {
  }

  // White space, sign and prefix.
  method ParseHeader(str: string, base0: int) returns (i: nat, base: int, neg: bool)
    requires base0 == 0 || 2 <= base0 <= 36
    ensures HeaderOf(str, base0) == Header(i, base, neg)
  {
    hide SkipSpaces, At;
    base, i := base0, 0;
    while At(str, i) == ' '
      invariant SkipSpaces(str, 0) == SkipSpaces(str, i)
      decreases |str| - i
    {
      SkipOne(str, i);
      i := i + 1;
    }
    SkipNone(str, i);
    neg := false;
    if At(str, i) == '-' {
      neg, i := true, i + 1;
    } else if At(str, i) == '+' {
      i := i + 1;
    }
    if (base == 0 || base == 16) && At(str, i) == '0' && (At(str, i + 1) == 'x' || At(str, i + 1) == 'X') {
      i := i + 2;
      base := 16;
    }
    if base == 0 {
      base := if At(str, i) == '0' then 8 else 10;
    }
  }

  // strtol, with *endptr as an index and whether errno was set to ERANGE.
  method ParseLong(str: string, base0: int) returns (r: int, end: nat, range: bool)
    requires base0 == 0 || 2 <= base0 <= 36
    ensures r == Clamp(Exact(str, base0)) && (range <==> r != Exact(str, base0))
    ensures var x := Exact(str, base0);
            && (x < -2147483648 ==> r == -2147483648) && (x > 2147483647 ==> r == 2147483647)
            && (-2147483648 <= x <= 2147483647 ==> r == x)
    ensures var h := HeaderOf(str, base0);
            var ds := Digits(str, h.start, h.base);
            end == if ds == [] then 0 else h.start + |ds|
  {
    hide Value, Digits, HeaderOf, Accumulated;
    var i, base, neg := ParseHeader(str, base0);
    var any;
    r, any, end := Accumulate(str, i, base, neg);
    AllConsumed(Digits(str, i, base), base, neg, r, any);
    range := any < 0;
    if any == 0 {
      end := 0;
    }
  }
}
