/** Numbers as text: the number printer of the format functions, the decimal parsers of the configuration file,
    and the fixed-point options printed and parsed with them. */
module DecimalText {
  import opened Machine

  const W64: nat := 0x1_0000_0000_0000_0000

  type s64 = x: int | -0x8000_0000_0000_0000 <= x < 0x8000_0000_0000_0000

  /** What a signed 64-bit variable keeps. */
  function Wrap64(x: int): (r: s64)
    ensures -0x8000_0000_0000_0000 <= x < 0x8000_0000_0000_0000 ==> r == x
  {
    (x + 0x8000_0000_0000_0000) % W64 - 0x8000_0000_0000_0000
  }

  // ----- digits

  function Repeat(c: char, n: int): (s: string)
    ensures |s| == if n > 0 then n else 0
    ensures forall i :: 0 <= i < |s| ==> s[i] == c
  {
    if n <= 0 then "" else seq(n, _ => c)
  }

  function DigitChar(d: nat, upper: bool): char
    requires d < 16
  {
    if d < 10 then ('0' as int + d) as char
    else if upper then ('A' as int + d - 10) as char
    else ('a' as int + d - 10) as char
  }

  function Digits(n: nat, base: nat, upper: bool): string
    requires base == 10 || base == 16
    decreases n
  {
    if n == 0 then "" else Digits(n / base, base, upper) + [DigitChar(n % base, upper)]
  }

  // ----- the number printer

  datatype Flags = Flags(sign: bool, plus: bool, space: bool, left: bool, zeropad: bool, hexPrep: bool, upper: bool)

  /** The sign, the magnitude that is printed, and its digits. */
  function SignText(num: s64, f: Flags): string {
    if !f.sign then "" else if num < 0 then "-" else if f.plus then "+" else if f.space then " " else ""
  }

  function Magnitude(num: s64, f: Flags): (r: nat)
    ensures r < W64
  {
    var n: int := num;
    if n >= 0 then n else if f.sign then -n else n + W64
  }

  /** A number as `processNumber` prints it: padding on the left, sign, prefix, zeros, digits, padding on the
      right. */
  function NumberText(num: s64, isHex: bool, size: int, precision: int, f: Flags): string {
    var u := Magnitude(num, f);
    var digits := if u == 0 then (if precision != 0 then "0" else "") else Digits(u, if isHex then 16 else 10, f.upper);
    var prefix := if f.hexPrep && isHex && u != 0 then "0x" else "";
    var shown := if |digits| > precision then |digits| else precision;
    var width := |SignText(num, f)| + |prefix| + shown;
    var pad := size - width;
    Laid(pad, SignText(num, f), prefix, shown - |digits|, digits, f.zeropad && !f.left && precision == -1, f.left)
  }

  function Laid(pad: int, sign: string, prefix: string, zeros: int, digits: string, zeropad: bool, left: bool): string {
    (if zeropad || left then "" else Repeat(' ', pad)) + sign + prefix + (if zeropad then Repeat('0', pad) else "")
    + Repeat('0', zeros) + digits + (if left then Repeat(' ', pad) else "")
  }

  function Pow10(n: nat): (r: nat)
    ensures r > 0
  {
    if n == 0 then 1 else 10 * Pow10(n - 1)
  }

  lemma Pow10Of20()
    ensures W64 < Pow10(20)
  {
    assert Pow10(5) == 100000 && Pow10(10) == 100000 * Pow10(5) && Pow10(15) == 100000 * Pow10(10);
    assert Pow10(20) == 100000 * Pow10(15);
  }

  lemma DigitsStep(n: nat, base: nat, upper: bool, k: nat)
    requires n != 0 && (base == 10 || base == 16) && n < Pow10(k)
    ensures k > 0 && n / base < Pow10(k - 1) && n / base < n
    ensures Digits(n, base, upper) == Digits(n / base, base, upper) + [DigitChar(n % base, upper)]
  {
  }

  lemma NoDigits(base: nat, upper: bool)
    requires base == 10 || base == 16
    ensures Digits(0, base, upper) == ""
  {
  }

  /** The digits of a number, filled into a buffer of twenty characters from the last one on. */
  method FillDigits(u: nat, base: nat, upper: bool, tmp: array<char>) returns (i: nat)
    requires u < W64 && (base == 10 || base == 16) && tmp.Length == 20
    modifies tmp
    ensures i == |Digits(u, base, upper)| <= 20
    ensures forall k :: 0 <= k < i ==> tmp[k] == Digits(u, base, upper)[i - 1 - k]
  {
    hide Digits, Pow10, DigitChar;
    var n: nat := u;
    i := 0;
    Pow10Of20();
    ghost var done := "";
    while n != 0
      invariant i <= 20 && n < Pow10(20 - i)
      invariant Digits(u, base, upper) == Digits(n, base, upper) + done
      invariant |done| == i && forall k :: 0 <= k < i ==> tmp[k] == done[i - 1 - k]
      decreases n
    {
      DigitsStep(n, base, upper, 20 - i);
      done := [DigitChar(n % base, upper)] + done;
      tmp[i] := DigitChar(n % base, upper);
      n := n / base;
      i := i + 1;
    }
    NoDigits(base, upper);
    assert Digits(u, base, upper) == done;
  }

  /** They are taken out in the other order. */
  method DigitText(u: nat, base: nat, upper: bool) returns (str: string)
    requires u < W64 && (base == 10 || base == 16)
    ensures str == Digits(u, base, upper)
  {
    hide Digits;
    var tmp := new char[20];
    var i: nat := FillDigits(u, base, upper, tmp);
    ghost var done := Digits(u, base, upper);
    str := "";
    while i > 0
      invariant i <= |done| <= 20 && str == done[..|done| - i]
      invariant forall k :: 0 <= k < i ==> tmp[k] == done[|done| - 1 - k]
    {
      i := i - 1;
      str := str + [tmp[i]];
    }
  }

  method ProcessNumber(num: s64, isHex: bool, size0: int, precision0: int, f: Flags) returns (str: string)
    ensures str == NumberText(num, isHex, size0, precision0, f)
  {
    hide Digits, Laid, Repeat, Magnitude, DigitChar;
    var size, precision := size0, precision0;
    var sign, n := "", Magnitude(num, f);
    if f.sign {
      if num < 0 {
        sign, size := "-", size - 1;
      } else if f.plus {
        sign, size := "+", size - 1;
      } else if f.space {
        sign, size := " ", size - 1;
      }
    }
    assert sign == SignText(num, f) && size == size0 - |sign|;
    var hexPrep, digits := f.hexPrep, "";
    if n == 0 {
      if precision != 0 { digits := "0"; }
      hexPrep := false;
    } else {
      digits := DigitText(n, if isHex then 16 else 10, f.upper);
    }
    var zeropad := f.zeropad;
    if f.left || precision != -1 { zeropad := false; }
    if hexPrep && isHex { size := size - 2; }
    if |digits| > precision { precision := |digits|; }
    size := size - precision;
    str := Emit(size, sign, if hexPrep && isHex then "0x" else "", precision - |digits|, digits, zeropad, f.left);
  }

  // ----- what a printed number says

  function DigitWorth(c: char): nat {
    if '0' <= c <= '9' then c as int - '0' as int
    else if 'a' <= c <= 'f' then c as int - 'a' as int + 10
    else if 'A' <= c <= 'F' then c as int - 'A' as int + 10
    else 0
  }

  function Worth(s: string, base: nat): nat {
    if s == "" then 0 else base * Worth(s[..|s| - 1], base) + DigitWorth(s[|s| - 1])
  }

  /** Digits in the one case or the other, without leading zeros. */
  ghost predicate Plain(s: string, base: nat, upper: bool) {
    && (forall i :: 0 <= i < |s| ==> if upper then s[i] in "0123456789ABCDEF" else s[i] in "0123456789abcdef")
    && (base == 10 ==> forall i :: 0 <= i < |s| ==> s[i] <= '9')
    && (s != "" ==> s[0] != '0')
  }

  lemma DigitCharIs(d: nat, upper: bool)
    requires d < 16
    ensures var c := DigitChar(d, upper);
            && DigitWorth(c) == d && (d > 0 ==> c != '0') && (d < 10 ==> c <= '9')
            && if upper then c in "0123456789ABCDEF" else c in "0123456789abcdef"
  {
    if upper {
      assert DigitChar(d, upper) == "0123456789ABCDEF"[d];
    } else {
      assert DigitChar(d, upper) == "0123456789abcdef"[d];
    }
  }

  lemma WorthPush(s: string, c: char, base: nat)
    ensures Worth(s + [c], base) == base * Worth(s, base) + DigitWorth(c)
  {
    assert (s + [c])[..|s|] == s;
  }

  lemma PlainPush(s: string, d: nat, base: nat, upper: bool)
    requires Plain(s, base, upper) && d < base && (base == 10 || base == 16) && (s == "" ==> d > 0)
    ensures Plain(s + [DigitChar(d, upper)], base, upper)
  {
    DigitCharIs(d, upper);
    hide DigitChar;
  }

  lemma SplitDigit(n: nat, base: nat)
    requires n > 0 && (base == 10 || base == 16)
    ensures n / base < n && n % base < base && n == base * (n / base) + n % base
  {
  }

  lemma {:induction false} DigitsAre(n: nat, base: nat, upper: bool)
    requires base == 10 || base == 16
    ensures Worth(Digits(n, base, upper), base) == n && Plain(Digits(n, base, upper), base, upper)
    ensures Digits(n, base, upper) == "" <==> n == 0
    decreases n
  {
    if n > 0 {
      SplitDigit(n, base);
      var q, d := n / base, n % base;
      DigitsAre(q, base, upper);
      var front := Digits(q, base, upper);
      assert Digits(n, base, upper) == front + [DigitChar(d, upper)];
      hide *;
      DigitCharIs(d, upper);
      WorthPush(front, DigitChar(d, upper), base);
      PlainPush(front, d, base, upper);
    }
  }

  lemma WorthOfZero(base: nat, upper: bool)
    ensures Worth("", base) == Worth("0", base) == 0 && Plain("", base, upper)
  {
    assert "0"[..0] == "";
  }

  lemma Repeats(pad: int, n: nat, more: nat)
    requires n == if pad > 0 then pad else 0
    ensures Repeat(' ', pad) == Repeat(' ', n) && Repeat('0', pad) + Repeat('0', more) == Repeat('0', more + n)
    ensures Repeat(' ', 0) == "" && "" + Repeat('0', more) == Repeat('0', more)
  {
  }

  lemma Joined(a: string, b: string, c: string, d: string, e: string, f: string, g: string)
    ensures a + b + c + d + e + f + g == a + b + c + (d + e) + f + g
  {
    assert a + b + c + d + e == a + b + c + (d + e);
  }

  lemma LaidOut(pad: int, sign: string, prefix: string, more: nat, digits: string, zeropad: bool, left: bool)
    returns (front: nat, zeros: nat, behind: nat)
    requires !(zeropad && left)
    ensures Laid(pad, sign, prefix, more, digits, zeropad, left)
         == Repeat(' ', front) + sign + prefix + Repeat('0', zeros) + digits + Repeat(' ', behind)
    ensures front + zeros + behind == more + (if pad > 0 then pad else 0)
    ensures (left || zeropad ==> front == 0) && (!left ==> behind == 0) && (!zeropad ==> zeros == more)
  {
    hide Repeat;
    var n: nat := if pad > 0 then pad else 0;
    front := if zeropad || left then 0 else n;
    zeros := more + if zeropad then n else 0;
    behind := if left then n else 0;
    Repeats(pad, n, more);
    Joined(if zeropad || left then "" else Repeat(' ', pad), sign, prefix, if zeropad then Repeat('0', pad) else "",
           Repeat('0', more), digits, if left then Repeat(' ', pad) else "");
  }

  /** The sign that is shown. */
  function SignOf(num: s64, f: Flags): string {
    if f.sign && num < 0 then "-" else if f.sign && f.plus then "+" else if f.sign && f.space then " " else ""
  }

  function PrefixOf(num: s64, isHex: bool, f: Flags): string {
    if f.hexPrep && isHex && num != 0 then "0x" else ""
  }

  lemma MagnitudeIs(num: s64, f: Flags)
    ensures Magnitude(num, f) == 0 <==> num == 0
    ensures Magnitude(num, f) == if f.sign && num < 0 then -(num as int)
                                 else if num < 0 then num as int + 0x1_0000_0000_0000_0000 else num
  {
  }

  lemma NumberTextIs(num: s64, isHex: bool, size: int, precision: int, f: Flags, digits: string)
    requires var u := Magnitude(num, f);
             digits == if u == 0 then (if precision != 0 then "0" else "")
                       else Digits(u, if isHex then 16 else 10, f.upper)
    ensures var sign, prefix := SignOf(num, f), PrefixOf(num, isHex, f);
            var shown := if |digits| > precision then |digits| else precision;
            NumberText(num, isHex, size, precision, f)
            == Laid(size - (|sign| + |prefix| + shown), sign, prefix, shown - |digits|, digits,
                    f.zeropad && !f.left && precision == -1, f.left)
  {
    hide Digits, Laid, Magnitude;
    MagnitudeIs(num, f);
  }

  /** What is printed: spaces in front, a sign, 0x, zeros, the number to base 10 or 16, spaces behind. A signed
      number shows its sign, another one is taken modulo 2^64; zeros fill up to the precision, or up to the width
      if they are asked for and there is neither a precision nor alignment to the left; otherwise spaces fill up
      to the width, on one side only. */
  lemma PrintedNumber(num: s64, isHex: bool, size: int, precision: int, f: Flags)
    returns (front: nat, zeros: nat, digits: string, behind: nat)
    ensures var sign, prefix := SignOf(num, f), PrefixOf(num, isHex, f);
            && NumberText(num, isHex, size, precision, f)
            == Repeat(' ', front) + sign + prefix + Repeat('0', zeros) + digits + Repeat(' ', behind)
            && (var least := |sign| + |prefix| + (if |digits| < precision then precision else |digits|);
                front + |sign| + |prefix| + zeros + |digits| + behind == if size < least then least else size)
            && (f.left ==> front == 0) && (!f.left ==> behind == 0)
            && (if f.zeropad && !f.left && precision == -1 then front == 0
                else zeros == if |digits| < precision then precision - |digits| else 0)
    ensures if num == 0 && precision != 0 then digits == "0" else Plain(digits, if isHex then 16 else 10, f.upper)
    ensures Worth(digits, if isHex then 16 else 10)
         == if f.sign && num < 0 then -(num as int) else if num < 0 then num as int + 0x1_0000_0000_0000_0000 else num
  {
    hide Digits, Plain, Worth, Laid, Repeat, NumberText, Magnitude, SignText, SignOf, PrefixOf;
    var u := Magnitude(num, f);
    MagnitudeIs(num, f);
    var base := if isHex then 16 else 10;
    DigitsAre(u, base, f.upper);
    WorthOfZero(base, f.upper);
    digits := if u == 0 then (if precision != 0 then "0" else "") else Digits(u, base, f.upper);
    NumberTextIs(num, isHex, size, precision, f, digits);
    var sign, prefix := SignOf(num, f), PrefixOf(num, isHex, f);
    var shown := if |digits| > precision then |digits| else precision;
    var pad := size - (|sign| + |prefix| + shown);
    var zeropad := f.zeropad && !f.left && precision == -1;
    front, zeros, behind := LaidOut(pad, sign, prefix, shown - |digits|, digits, zeropad, f.left);
  }

  /** Appends a character as often as the count says. */
  method Fill(str0: string, c: char, count: int) returns (str: string)
    ensures str == str0 + Repeat(c, count)
  {
    str := str0;
    var left := count;
    while left > 0
      invariant left == count || 0 <= left < count
      invariant str == str0 + Repeat(c, count - left)
    {
      assert Repeat(c, count - left) + [c] == Repeat(c, count - left + 1);
      str := str + [c];
      left := left - 1;
    }
    assert Repeat(c, count) == Repeat(c, count - left);
  }

  method Emit(pad: int, sign: string, prefix: string, zeros: int, digits: string, zeropad: bool, left: bool)
    returns (str: string)
    ensures str == Laid(pad, sign, prefix, zeros, digits, zeropad, left)
  {
    hide Repeat;
    str := "";
    if !zeropad && !left { str := Fill(str, ' ', pad); }
    assert "" + Repeat(' ', pad) == Repeat(' ', pad);
    str := str + sign;
    str := str + prefix;
    ghost var before := str;
    if zeropad { str := Fill(str, '0', pad); }
    assert before + "" == before;
    str := Fill(str, '0', zeros);
    str := str + digits;
    ghost var after := str;
    if left { str := Fill(str, ' ', pad); }
    assert after + "" == after;
  }

  // ----- parsing

  predicate IsDigit(c: char) { '0' <= c <= '9' }

  predicate AllDigits(s: string) { forall i :: 0 <= i < |s| ==> IsDigit(s[i]) }

  function DigitValue(c: char): nat
    requires IsDigit(c)
  {
    c as int - '0' as int
  }

  function DecValue(s: string): nat
    requires AllDigits(s)
  {
    if s == "" then 0 else 10 * DecValue(s[..|s| - 1]) + DigitValue(s[|s| - 1])
  }

  predicate InRange(x: s64, lo: s64, hi: s64) { lo <= x <= hi }

  predicate Signed(s: string) { |s| >= 2 && (s[0] == '+' || s[0] == '-') }

  /** What a decimal integer means: an optional sign before digits, taken modulo 2^64, inside the bounds. */
  function IntMeaning(s: string, lo: s64, hi: s64): Option<s64> {
    var body := if Signed(s) then s[1..] else s;
    if !AllDigits(body) then None
    else
      var r := if Signed(s) && s[0] == '-' then Wrap64(0 - DecValue(body)) else Wrap64(DecValue(body));
      if InRange(r, lo, hi) then Some(r) else None
  }

  lemma WrapMulAdd(a: int, n: nat)
    ensures Wrap64(10 * Wrap64(a) + n) == Wrap64(10 * a + n)
  {
    var b := a + 0x8000_0000_0000_0000;
    var q := b / W64;
    assert Wrap64(a) == a - q * W64;
    WrapShift(10 * a + n, -10 * q);
  }

  lemma WrapShift(x: int, k: int)
    ensures Wrap64(x + k * W64) == Wrap64(x)
  {
    var b := x + 0x8000_0000_0000_0000;
    var q, r := b / W64, b % W64;
    assert b + k * W64 == (q + k) * W64 + r;
    ModOf(q + k, r);
  }

  lemma ModOf(q: int, r: int)
    requires 0 <= r < W64
    ensures (q * W64 + r) % W64 == r
  {
  }

  lemma WrapNeg(a: int)
    ensures Wrap64(0 - Wrap64(a)) == Wrap64(0 - a)
  {
    var q := (a + 0x8000_0000_0000_0000) / W64;
    assert Wrap64(a) == a - q * W64;
    WrapShift(0 - a, q);
  }

  lemma WrapAdd(a: int, n: int)
    ensures Wrap64(Wrap64(a) + n) == Wrap64(a + n)
  {
    var q := (a + 0x8000_0000_0000_0000) / W64;
    assert Wrap64(a) == a - q * W64;
    WrapShift(a + n, -q);
  }

  lemma DecNext(s: string, k: nat)
    requires k < |s| && AllDigits(s[..k]) && IsDigit(s[k])
    ensures AllDigits(s[..k + 1]) && DecValue(s[..k + 1]) == 10 * DecValue(s[..k]) + DigitValue(s[k])
  {
    var longer := s[..k + 1];
    assert longer[..k] == s[..k];
    forall i | 0 <= i < |longer|
      ensures IsDigit(longer[i])
    {
      assert i < k ==> s[..k][i] == s[i];
    }
  }

  /** `parseDecIntOptionImpl`. */
  method ParseDecInt(val: string, minval: s64, maxval: s64) returns (r: Option<s64>)
    ensures r == IntMeaning(val, minval, maxval)
  {
    hide Wrap64, DecValue;
    var res: s64, i, negative := 0, 0, false;
    if |val| >= 2 {
      if val[0] == '+' {
        i := 1;
      } else if val[0] == '-' {
        negative, i := true, 1;
      }
    }
    ghost var start, body := i, val[i..];
    WrapZero();
    assert body[..0] == "";
    while i < |val|
      invariant start <= i <= |val| && AllDigits(body[..i - start])
      invariant res == Wrap64(DecValue(body[..i - start]))
    {
      if !('0' <= val[i] <= '9') {
        assert !IsDigit(body[i - start]);
        return None;
      }
      var n := val[i] as int - '0' as int;
      ghost var k := i - start;
      DecNext(body, k);
      WrapMulAdd(DecValue(body[..k]), n);
      res := Wrap64(10 * res + n);
      i := i + 1;
    }
    assert body[..|body|] == body;
    if negative {
      WrapNeg(DecValue(body));
      res := Wrap64(0 - res);
    }
    return if minval <= res <= maxval then Some(res) else None;
  }

  lemma WrapZero()
    ensures Wrap64(0) == 0 && DecValue("") == 0
  {
  }

  // ----- fixed-point options

  const MULT: nat := 1_0000_0000
  const MIN64: s64 := -0x8000_0000_0000_0000
  const MAX64: s64 := 0x7FFF_FFFF_FFFF_FFFF

  function PointAt(s: string, from: nat): (p: nat)
    requires from <= |s|
    ensures from <= p <= |s| && (p < |s| ==> s[p] == '.')
    decreases |s| - from
  {
    if from == |s| || s[from] == '.' then from else PointAt(s, from + 1)
  }

  /** What the j-th digit after the point counts for; nothing from the ninth on. */
  function Unit(j: nat): nat {
    if j < 8 then Pow10(7 - j) else 0
  }

  function Scaled(d: nat, j: nat): nat { d * Unit(j) }

  function Min8(n: nat): nat { if n < 8 then n else 8 }

  /** The first j digits after the point, in units of the last of eight. */
  function FracValue(t: string, j: nat): nat
    requires j <= |t| && AllDigits(t[..j])
    decreases j
  {
    if j == 0 then 0
    else
      assert forall i :: 0 <= i < j ==> t[..j][i] == t[i];
      FracValue(t, j - 1) + Scaled(DigitValue(t[j - 1]), j - 1)
  }

  /** What a fixed-point option means: a sign, an integer, and up to eight digits after a point; what follows the
      eighth is not looked at. */
  function FloatMeaning(val: string, lo: s64, hi: s64): Option<s64> {
    var negative := val != "" && val[0] == '-';
    var s := if val != "" && (val[0] == '+' || val[0] == '-') then val[1..] else val;
    var p := PointAt(s, 0);
    if s == "" || (p == 0 && |s| == 1) then None
    else
      var whole := if p == 0 then Some(0) else IntMeaning(s[..p], MIN64, MAX64);
      if whole.None? then None
      else
        var v: int := whole.value;
        var abs := if negative then Wrap64(0 - v) else v;
        var t := if p < |s| then s[p + 1..] else "";
        var n := Min8(|t|);
        if !(MIN64 <= abs * MULT <= MAX64) || !AllDigits(t[..n]) then None
        else
          var sum := Wrap64(abs * MULT + FracValue(t, n));
          var r := if negative then Wrap64(0 - sum) else sum;
          if InRange(r, lo, hi) then Some(r) else None
  }

  /** `parseDecFloatOption`. */
  method ParseDecFloat(val0: string, minval: s64, maxval: s64) returns (r: Option<s64>)
    ensures r == FloatMeaning(val0, minval, maxval)
  {
    hide Wrap64, IntMeaning, Unit, FracValue, AllDigits, PointAt, Min8;
    if val0 == "" { return None; }
    var negative, val := false, val0;
    if val[0] == '+' {
      val := val[1..];
    } else if val[0] == '-' {
      negative, val := true, val[1..];
    }
    if val == "" { return None; }
    var point := PointAt(val, 0);
    var intPart: s64 := 0;
    if point == 0 {
      if |val| == 1 { return None; }
    } else {
      var rc := ParseDecInt(val[..point], MIN64, MAX64);
      if rc.None? { return None; }
      intPart := rc.value;
    }
    var abs: s64 := if negative then Wrap64(0 - intPart) else intPart;
    if !(MIN64 <= abs * MULT <= MAX64) { return None; }
    var t := if point < |val| then val[point + 1..] else "";
    var frac := AddFraction(abs * MULT, t);
    if frac.None? { return None; }
    var res := if negative then Wrap64(0 - frac.value) else frac.value;
    return if minval <= res <= maxval then Some(res) else None;
  }

  lemma FracNext(t: string, j: nat)
    requires j < |t| && AllDigits(t[..j]) && IsDigit(t[j])
    ensures AllDigits(t[..j + 1]) && FracValue(t, j + 1) == FracValue(t, j) + DigitValue(t[j]) * Unit(j)
  {
    hide Unit;
    var longer := t[..j + 1];
    forall i | 0 <= i < |longer|
      ensures IsDigit(longer[i])
    {
      assert i < j ==> t[..j][i] == t[i];
    }
  }

  method AddFraction(base: s64, t: string) returns (r: Option<s64>)
    ensures r == if AllDigits(t[..Min8(|t|)]) then Some(Wrap64(base + FracValue(t, Min8(|t|)))) else None
  {
    hide Wrap64, FracValue, Unit;
    var res, mul, pos := base, MULT / 10, 0;
    UnitSteps(t);
    WrapSelf(base);
    while pos < |t| && mul > 0
      invariant pos <= Min8(|t|) && mul == Unit(pos)
      invariant AllDigits(t[..pos]) && res == Wrap64(base + FracValue(t, pos))
      decreases |t| - pos
    {
      UnitStep(pos);
      if !('0' <= t[pos] <= '9') {
        assert !IsDigit(t[..Min8(|t|)][pos]);
        return None;
      }
      var n := t[pos] as int - '0' as int;
      FracNext(t, pos);
      WrapAdd(base + FracValue(t, pos), n * mul);
      res := Wrap64(res + n * mul);
      mul := mul / 10;
      pos := pos + 1;
    }
    UnitSteps(t);
    return Some(res);
  }

  lemma WrapSelf(x: s64)
    ensures Wrap64(x) == x
  {
  }

  lemma UnitSteps(t: string)
    ensures FracValue(t, 0) == 0
    ensures Unit(0) == MULT / 10 && Unit(8) == 0
    ensures forall j: nat :: j < 8 ==> Unit(j) > 0
  {
  }

  lemma UnitStep(j: nat)
    requires j < 8
    ensures Unit(j + 1) == Unit(j) / 10
  {
  }

  // ----- printing fixed-point options

  const INT_FLAGS := Flags(true, false, false, false, false, false, false)
  const FRAC_FLAGS := Flags(true, false, false, false, true, false, false)

  /** What the loop that should drop trailing zeros leaves of a fraction: it drops digits until the last one is
      a zero. */
  function Kept(frac: nat): (r: nat)
    ensures r <= frac && (r == frac <==> frac % 10 == 0)
  {
    if frac % 10 == 0 then frac else Kept(frac / 10)
  }

  function WithoutZeros(s: string): string {
    if s != "" && s[|s| - 1] == '0' then WithoutZeros(s[..|s| - 1]) else s
  }

  function Abs(v: int): nat { if v >= 0 then v else -v }

  function WholeShown(val: s64): (r: s64)
    requires val != MIN64
  {
    var v: int := val;
    if v >= 0 then v / MULT else -(-v / MULT)
  }

  function FracShown(val: s64): nat { Kept(Abs(val) % MULT) }

  function FloatText(val: s64): string
    requires val != MIN64
  {
    NumberText(WholeShown(val), false, -1, -1, INT_FLAGS)
    + if FracShown(val) == 0 then "" else WithoutZeros("." + NumberText(FracShown(val), false, 8, -1, FRAC_FLAGS))
  }

  /** The two numbers to print. */
  method SplitFixed(val: s64) returns (whole: s64, frac: nat)
    requires val != MIN64
    ensures whole == WholeShown(val) && frac == FracShown(val) < MULT
  {
    var v: int := val;
    var sign := if v >= 0 then 1 else -1;
    assert sign * v == Abs(val);
    var intPart: nat, fracPart: nat := sign * v / MULT, sign * v % MULT;
    while fracPart % 10 != 0
      invariant Kept(fracPart) == FracShown(val) && fracPart < MULT
      decreases fracPart
    {
      fracPart := fracPart / 10;
    }
    whole, frac := sign * intPart, fracPart;
  }

  /** Zeros are dropped from the end, at most back to the point. */
  method DropZeros(whole: string, digits: string) returns (out: string, n2: int)
    ensures out == whole + WithoutZeros("." + digits) && n2 == |out| - 1
  {
    var tail := "." + digits;
    n2 := |tail| - 1;
    while tail[n2] == '0'
      invariant 0 <= n2 == |tail| - 1 && tail[0] == '.'
      invariant WithoutZeros(tail) == WithoutZeros("." + digits)
      decreases n2
    {
      tail := tail[..n2];
      n2 := n2 - 1;
    }
    out := whole + tail;
    n2 := n2 + |whole|;
  }

  /** `encodedFloatToString`; the length it returns is one too small when there is a fraction. */
  method EncodedFloatToString(val: s64) returns (out: string, n: int)
    requires val != MIN64
    ensures out == FloatText(val)
    ensures n == |out| - if FracShown(val) == 0 then 0 else 1
  {
    hide WholeShown, FracShown, NumberText, WithoutZeros;
    var whole, frac := SplitFixed(val);
    out := ProcessNumber(whole, false, -1, -1, INT_FLAGS);
    n := |out|;
    if frac != 0 {
      var digits := ProcessNumber(frac, false, 8, -1, FRAC_FLAGS);
      out, n := DropZeros(out, digits);
    }
  }

  // ----- what is printed is read back

  lemma {:induction false} DigitsMean(n: nat, k: nat)
    requires n < Pow10(k)
    ensures var s := Digits(n, 10, false); AllDigits(s) && DecValue(s) == n && |s| <= k && (n > 0 ==> s != "")
    decreases n
  {
    if n > 0 {
      DigitsStep(n, 10, false, k);
      DigitsMean(n / 10, k - 1);
      var s, t := Digits(n, 10, false), Digits(n / 10, 10, false);
      assert s[..|s| - 1] == t;
      LastDigit(n % 10);
    }
  }

  lemma LastDigit(d: nat)
    requires d < 10
    ensures IsDigit(DigitChar(d, false)) && DigitValue(DigitChar(d, false)) == d
  {
  }

  /** Digits of the magnitude, or a single 0. */
  function Shown(u: nat): string { if u == 0 then "0" else Digits(u, 10, false) }

  lemma ShownMeans(u: nat, k: nat)
    requires u < Pow10(k) && k > 0
    ensures AllDigits(Shown(u)) && DecValue(Shown(u)) == u && 0 < |Shown(u)| <= k
  {
    hide Digits;
    DigitsMean(u, k);
    assert "0"[..0] == "";
  }

  lemma PlainNumber(num: s64)
    ensures NumberText(num, false, -1, -1, INT_FLAGS) == (if num < 0 then "-" else "") + Shown(Abs(num))
  {
    hide Digits;
  }

  /** The decimal printer and the integer parser are inverse on all 64-bit numbers. */
  lemma IntRoundTrip(num: s64, lo: s64, hi: s64)
    ensures IntMeaning(NumberText(num, false, -1, -1, INT_FLAGS), lo, hi)
         == if InRange(num, lo, hi) then Some(num) else None
  {
    hide NumberText, Shown, Pow10, Wrap64, DecValue;
    PlainNumber(num);
    Pow10Of20();
    ShownMeans(Abs(num), 20);
    WrapSelf(num);
    var t := Shown(Abs(num));
    var s := NumberText(num, false, -1, -1, INT_FLAGS);
    if num < 0 {
      assert s[1..] == t;
    } else {
      assert s == t && IsDigit(t[0]);
    }
  }

  lemma PaddedNumber(frac: nat)
    requires 0 < frac < MULT
    ensures var t := NumberText(frac, false, 8, -1, FRAC_FLAGS); |t| == 8 && AllDigits(t) && DecValue(t) == frac
  {
    Pow10Of8();
    ShownMeans(frac, 8);
    hide Digits, Pow10, DecValue;
    var d := Digits(frac, 10, false);
    assert NumberText(frac, false, 8, -1, FRAC_FLAGS) == Repeat('0', 8 - |d|) + d;
    LeadingZeros(8 - |d|, d);
  }

  lemma Pow10Of8()
    ensures Pow10(8) == MULT
  {
    assert Pow10(4) == 10000 && Pow10(8) == 10000 * Pow10(4);
  }

  lemma {:induction false} LeadingZeros(n: nat, d: string)
    requires AllDigits(d)
    ensures AllDigits(Repeat('0', n) + d) && DecValue(Repeat('0', n) + d) == DecValue(d)
    decreases |d| + n
  {
    var s := Repeat('0', n) + d;
    if d != "" {
      LeadingZeros(n, d[..|d| - 1]);
      assert s[..|s| - 1] == Repeat('0', n) + d[..|d| - 1];
    } else if n > 0 {
      LeadingZeros(n - 1, d);
      assert s[..|s| - 1] == Repeat('0', n - 1) + d;
    }
  }

  lemma UnitIs(j: nat)
    requires 0 < j <= 8
    ensures Pow10(9 - j) == 10 * Pow10(8 - j) && Unit(j - 1) == Pow10(8 - j)
  {
  }

  lemma Horner(a: nat, d: nat, p: nat)
    ensures a * (10 * p) + d * p == (10 * a + d) * p
  {
  }

  lemma {:induction false} FracIsDec(t: string, j: nat)
    requires j <= |t| && j <= 8 && AllDigits(t[..j])
    ensures FracValue(t, j) == DecValue(t[..j]) * Pow10(8 - j)
    decreases j
  {
    hide Pow10, Unit;
    if j > 0 {
      assert t[..j][..j - 1] == t[..j - 1] && t[..j][j - 1] == t[j - 1];
      FracIsDec(t, j - 1);
      UnitIs(j);
      Horner(DecValue(t[..j - 1]), DigitValue(t[j - 1]), Pow10(8 - j));
    }
  }

  /** Zeros at the end of a fraction do not count. */
  lemma {:induction false} ZerosDoNotCount(t: string) returns (g: nat)
    requires |t| <= 8 && AllDigits(t)
    ensures g <= |t| && WithoutZeros("." + t) == "." + t[..g]
    ensures AllDigits(t[..g]) && FracValue(t[..g], g) == FracValue(t, |t|)
    decreases |t|
  {
    var s := "." + t;
    if t != "" && t[|t| - 1] == '0' {
      var u := t[..|t| - 1];
      assert s[..|s| - 1] == "." + u;
      g := ZerosDoNotCount(u);
      assert t[..g] == u[..g];
      FracOfPrefix(t, |t| - 1);
    } else {
      g := |t|;
      assert t[..g] == t;
    }
  }

  lemma {:induction false} FracOfPrefix(t: string, j: nat)
    requires j <= |t| && AllDigits(t[..j])
    ensures FracValue(t[..j], j) == FracValue(t, j)
  {
    FracOfSame(t[..j], t, j);
  }

  lemma {:induction false} FracOfSame(s: string, t: string, j: nat)
    requires j <= |s| && j <= |t| && s[..j] == t[..j] && AllDigits(s[..j])
    ensures FracValue(s, j) == FracValue(t, j)
    decreases j
  {
    if j > 0 {
      assert s[..j][j - 1] == t[..j][j - 1];
      assert s[..j - 1] == s[..j][..j - 1] && t[..j - 1] == t[..j][..j - 1];
      FracOfSame(s, t, j - 1);
    }
  }

  lemma {:induction false} PointAfter(t: string, rest: string, from: nat)
    requires from <= |t| && AllDigits(t) && (rest == "" || rest[0] == '.')
    ensures PointAt(t + rest, from) == |t|
    decreases |t| - from
  {
    if from < |t| { PointAfter(t, rest, from + 1); }
  }

  // ----- the value of a decimal text

  /** Digits with at most one point among them, and at least one digit or a point before a digit. */
  predicate Numeral(s: string) {
    var p := PointAt(s, 0);
    AllDigits(s[..p]) && (p < |s| ==> AllDigits(s[p + 1..])) && (p > 0 || |s| > 1)
  }

  function AfterPoint(s: string): string {
    var p := PointAt(s, 0);
    if p < |s| then s[p + 1..] else ""
  }

  function WholePart(s: string): nat
    requires Numeral(s)
  {
    DecValue(s[..PointAt(s, 0)])
  }

  /** The fraction cut after its eighth digit, in units of that digit. */
  function FracPart(s: string): nat
    requires Numeral(s)
  {
    var t := AfterPoint(s);
    assert forall i :: 0 <= i < Min8(|t|) ==> t[..Min8(|t|)][i] == t[i];
    DecValue(t[..Min8(|t|)]) * Pow10(8 - Min8(|t|))
  }

  function Size(s: string): nat
    requires Numeral(s)
  {
    WholePart(s) * MULT + FracPart(s)
  }

  predicate Minus(val: string) { val != "" && val[0] == '-' }

  function Body(val: string): string {
    if val != "" && (val[0] == '+' || val[0] == '-') then val[1..] else val
  }

  /** A numeral with an optional sign, and its value. */
  predicate IsDecimal(val: string) { Numeral(Body(val)) }

  function DecimalValue(val: string): int
    requires IsDecimal(val)
  {
    if Minus(val) then 0 - Size(Body(val)) else Size(Body(val))
  }

  /** The integer part with its sign, as a 64-bit variable keeps it. */
  function Whole64(val: string): s64
    requires IsDecimal(val)
  {
    Wrap64(if Minus(val) then 0 - WholePart(Body(val)) else WholePart(Body(val)))
  }

  /** The only overflow that is noticed. */
  predicate Overflows(val: string)
    requires IsDecimal(val)
  {
    !(MIN64 <= Whole64(val) * MULT <= MAX64)
  }

  /** What the parser takes a decimal for otherwise: behind a minus, the integer part counts as positive and the
      fraction as negative, because the sign is applied to the integer part twice. */
  function TakenFor(val: string): s64
    requires IsDecimal(val)
  {
    var sum := Whole64(val) * MULT + FracPart(Body(val));
    Wrap64(if Minus(val) then 0 - sum else sum)
  }

  lemma FracPartIs(s: string)
    requires Numeral(s)
    ensures var t := AfterPoint(s); AllDigits(t[..Min8(|t|)]) && FracPart(s) == FracValue(t, Min8(|t|)) < MULT
  {
    hide Pow10, DecValue;
    var t := AfterPoint(s);
    var n := Min8(|t|);
    assert AllDigits(t[..n]) by {
      assert forall i :: 0 <= i < n ==> t[..n][i] == t[i];
    }
    FracIsDec(t, n);
    DecBound(t[..n], n);
  }

  /** n digits are worth less than the n-th power of ten, and less than the eighth when shifted there. */
  lemma {:induction false} DecBound(d: string, n: nat)
    requires AllDigits(d) && |d| == n <= 8
    ensures DecValue(d) < Pow10(n) && DecValue(d) * Pow10(8 - n) < MULT
    decreases n
  {
    Pow10Of8();
    if n > 0 { DecBound(d[..n - 1], n - 1); }
    PowersMeet(DecValue(d), n);
  }

  lemma PowersMeet(x: nat, n: nat)
    requires n <= 8 && x < Pow10(n)
    ensures x * Pow10(8 - n) < Pow10(8)
  {
    hide Pow10;
    PowerProduct(n, 8 - n);
    var a, b := Pow10(n), Pow10(8 - n);
    assert x * b < a * b;
  }

  lemma {:induction false} PowerProduct(a: nat, b: nat)
    ensures Pow10(a) * Pow10(b) == Pow10(a + b)
    decreases a
  {
    if a > 0 {
      PowerProduct(a - 1, b);
      assert 10 * Pow10(a - 1) * Pow10(b) == 10 * (Pow10(a - 1) * Pow10(b));
    }
  }

  lemma WholePartMeans(s: string)
    requires Numeral(s)
    ensures var p := PointAt(s, 0); p > 0 ==> IntMeaning(s[..p], MIN64, MAX64) == Some(Wrap64(WholePart(s)))
    ensures PointAt(s, 0) == 0 ==> WholePart(s) == 0
  {
    hide DecValue, Wrap64;
    var t := s[..PointAt(s, 0)];
    if t == "" {
      NoValue();
    } else {
      assert IsDigit(t[0]);
    }
  }

  lemma NoValue()
    ensures DecValue("") == 0
  {
  }

  /** The parser on every decimal. */
  lemma DecimalMeans(val: string, lo: s64, hi: s64)
    requires IsDecimal(val)
    ensures FloatMeaning(val, lo, hi)
         == if Overflows(val) || !InRange(TakenFor(val), lo, hi) then None else Some(TakenFor(val))
  {
    hide IntMeaning, Wrap64, FracValue, DecValue, PointAt, Numeral, FracPart, WholePart;
    var s := Body(val);
    FracPartIs(s);
    WholePartMeans(s);
    WrapZero();
    WrapNeg(WholePart(s));
    WrapNeg(Whole64(val) * MULT + FracPart(s));
    ParsedParts(val, lo, hi);
  }

  /** The parser's own computation, on the parts of a decimal. */
  lemma ParsedParts(val: string, lo: s64, hi: s64)
    requires IsDecimal(val)
    ensures var s := Body(val);
            var whole := if PointAt(s, 0) == 0 then Some(0) else IntMeaning(s[..PointAt(s, 0)], MIN64, MAX64);
            whole.Some? && AllDigits(AfterPoint(s)[..Min8(|AfterPoint(s)|)]) ==>
              var v: int := whole.value;
              var abs := if Minus(val) then Wrap64(0 - v) else v;
              var sum := Wrap64(abs * MULT + FracValue(AfterPoint(s), Min8(|AfterPoint(s)|)));
              var r := if Minus(val) then Wrap64(0 - sum) else sum;
              FloatMeaning(val, lo, hi)
              == if MIN64 <= abs * MULT <= MAX64 && InRange(r, lo, hi) then Some(r) else None
  {
    hide IntMeaning, Wrap64, FracValue;
  }

  /** A decimal whose size fits 64 bits. */
  lemma SmallDecimal(val: string)
    requires IsDecimal(val) && Size(Body(val)) <= MAX64
    ensures !Overflows(val)
    ensures TakenFor(val) == if Minus(val) then WholePart(Body(val)) * MULT - FracPart(Body(val)) else Size(Body(val))
  {
    hide WholePart, FracPart, Numeral;
    WrapsOnly(val);
    hide Wrap64;
  }

  /** Where the wraps of Whole64 and TakenFor do nothing. */
  lemma WrapsOnly(val: string)
    requires IsDecimal(val)
    ensures WholePart(Body(val)) <= MAX64 ==>
              Whole64(val) == if Minus(val) then 0 - WholePart(Body(val)) else WholePart(Body(val))
    ensures var sum := Whole64(val) * MULT + FracPart(Body(val));
            var r := if Minus(val) then 0 - sum else sum;
            MIN64 <= r <= MAX64 ==> TakenFor(val) == r
  {
    hide WholePart, FracPart, Numeral;
  }

  /** The parser gives a decimal its value for all bounds, or rejects it because its value is no 64-bit number,
      exactly in these cases: the overflow of the integer part is noticed; or, without a minus, the size fits 64
      bits; or, with a minus, there is nothing but zeros before the point. */
  lemma DecimalIsRight(val: string)
    requires IsDecimal(val)
    ensures (forall lo: s64, hi: s64 ::
               FloatMeaning(val, lo, hi)
               == if lo <= DecimalValue(val) <= hi then Some(DecimalValue(val)) else None)
            <==> Overflows(val)
                 || if Minus(val) then WholePart(Body(val)) == 0 else Size(Body(val)) <= MAX64
  {
    hide FloatMeaning, WholePart, FracPart, Numeral, Overflows, TakenFor;
    forall lo: s64, hi: s64
      ensures FloatMeaning(val, lo, hi)
           == if Overflows(val) || !InRange(TakenFor(val), lo, hi) then None else Some(TakenFor(val))
    {
      DecimalMeans(val, lo, hi);
    }
    RightWhen(val);
    if !Overflows(val) {
      assert FloatMeaning(val, MIN64, MAX64) == Some(TakenFor(val));
    }
  }

  lemma RightWhen(val: string)
    requires IsDecimal(val)
    ensures Overflows(val) ==> !(MIN64 <= DecimalValue(val) <= MAX64)
    ensures !Overflows(val) ==>
              (TakenFor(val) == DecimalValue(val)
               <==> if Minus(val) then WholePart(Body(val)) == 0 else Size(Body(val)) <= MAX64)
  {
    FracPartIs(Body(val));
    WrapsOnly(val);
    hide WholePart, FracPart, Numeral, Wrap64;
  }

  /** For example, -2 is taken for 2. */
  lemma MinusTwo()
    ensures IsDecimal("-2") && DecimalValue("-2") == -2 * MULT
    ensures FloatMeaning("-2", MIN64, MAX64) == Some(2 * MULT)
  {
    var s := "-2"[1..];
    assert s == "2" && s[..1] == "2" && "2"[..0] == "" && PointAt(s, 0) == 1;
    assert DecValue("2") == 2 && WholePart(s) == 2 && AfterPoint(s) == "";
    FracPartIs(s);
    NoFraction();
    DecimalMeans("-2", MIN64, MAX64);
    SmallDecimal("-2");
  }

  /** For example, 2^64+1 is taken for 1, within the bounds of a gamma option. */
  lemma LongDecimal()
    ensures IsDecimal("18446744073709551617") && DecimalValue("18446744073709551617") == (W64 + 1) * MULT
    ensures FloatMeaning("18446744073709551617", 0, 4 * MULT) == Some(MULT)
  {
    LongParts();
    hide WholePart, FracPart, Numeral, FloatMeaning, Wrap64, Body, Minus;
    var s := "18446744073709551617";
    DecimalMeans(s, 0, 4 * MULT);
    WrapShift(1, 1);
    WrapSelf(1);
    WrapSelf(MULT);
  }

  lemma LongParts()
    ensures var s := "18446744073709551617";
            && IsDecimal(s) && Body(s) == s && !Minus(s) && WholePart(s) == W64 + 1 && FracPart(s) == 0
  {
    LongValue();
    NoFraction();
    hide WholePart, FracPart, Numeral, DecValue, Pow10, FracValue;
    var s := "18446744073709551617";
    assert AllDigits(s);
    PartsAreNumeral(s, "");
    assert s + "" == s;
  }

  lemma LongValue()
    ensures DecValue("18446744073709551617") == W64 + 1
  {
    hide DecValue;
    var s := "18446744073709551617";
    assert s == "18446" + "74407" + "37095" + "51617";
    FiveDigits("18446", "", 18446);
    FiveDigits("74407", "18446", 74407);
    FiveDigits("37095", "18446" + "74407", 37095);
    FiveDigits("51617", "18446" + "74407" + "37095", 51617);
    assert "" + "18446" == "18446";
    NoValue();
  }

  lemma FiveDigits(d: string, before: string, v: nat)
    requires |d| == 5 && AllDigits(d) && AllDigits(before)
    requires v == 10000 * DigitValue(d[0]) + 1000 * DigitValue(d[1]) + 100 * DigitValue(d[2]) + 10 * DigitValue(d[3])
                  + DigitValue(d[4])
    ensures DecValue(before + d) == 100000 * DecValue(before) + v
  {
    var s := before + d;
    var n := |before|;
    NextDigit(s, n);
    NextDigit(s, n + 1);
    NextDigit(s, n + 2);
    NextDigit(s, n + 3);
    NextDigit(s, n + 4);
    assert s[..n] == before && s[..n + 5] == s;
  }

  lemma NextDigit(s: string, n: nat)
    requires n < |s| && AllDigits(s)
    ensures DecValue(s[..n + 1]) == 10 * DecValue(s[..n]) + DigitValue(s[n])
  {
    assert s[..n + 1][..n] == s[..n];
  }

  // ----- printed options

  /** The number of whole units a printed option has, without its sign. */
  function WholeUnits(val: s64): nat { Abs(val) / MULT }

  lemma FloatTextIs(val: s64)
    requires val != MIN64
    ensures var f := FracShown(val);
            FloatText(val) == (if WholeShown(val) < 0 then "-" else "") + Shown(WholeUnits(val))
              + if f == 0 then "" else WithoutZeros("." + NumberText(f, false, 8, -1, FRAC_FLAGS))
    ensures Abs(WholeShown(val)) == WholeUnits(val) && (WholeShown(val) < 0 <==> val < 0 && WholeUnits(val) > 0)
  {
    PlainNumber(WholeShown(val));
    hide NumberText, Shown, FracShown, WithoutZeros;
  }

  lemma FractionMeans(f: nat) returns (frac: string)
    requires 0 < f < MULT
    ensures WithoutZeros("." + NumberText(f, false, 8, -1, FRAC_FLAGS)) == "." + frac
    ensures |frac| <= 8 && AllDigits(frac) && FracValue(frac, |frac|) == f
  {
    hide NumberText, WithoutZeros, FracValue, Pow10, DecValue;
    PaddedNumber(f);
    var digits := NumberText(f, false, 8, -1, FRAC_FLAGS);
    var g := ZerosDoNotCount(digits);
    FracIsDec(digits, 8);
    assert digits[..8] == digits;
    NoFraction();
    frac := digits[..g];
  }

  lemma NoFraction()
    ensures FracValue("", 0) == 0 && Pow10(0) == 1
  {
  }

  /** Digits, alone or with a point and at most eight digits behind it, are a numeral. */
  lemma PartsAreNumeral(t: string, rest: string)
    requires t != "" && AllDigits(t)
    requires rest == "" || (rest[0] == '.' && |rest| <= 9 && AllDigits(rest[1..]))
    ensures Numeral(t + rest) && WholePart(t + rest) == DecValue(t)
    ensures var frac := if rest == "" then "" else rest[1..]; FracPart(t + rest) == FracValue(frac, |frac|)
  {
    hide FracValue, DecValue, Pow10, FracPart;
    PointAfter(t, rest, 0);
    var s := t + rest;
    assert s[..|t|] == t;
    var frac := if rest == "" then "" else rest[1..];
    assert AfterPoint(s) == frac;
    FracPartIs(s);
  }

  /** The printed text of an option is a decimal: its whole units and the fraction as the printer left it, with a
      minus exactly if it is negative and has a whole unit. */
  lemma PrintedIsDecimal(val: s64)
    requires val != MIN64
    ensures var text := FloatText(val);
            && IsDecimal(text) && WholePart(Body(text)) == WholeUnits(val) && FracPart(Body(text)) == FracShown(val)
            && (Minus(text) <==> val < 0 && WholeUnits(val) > 0)
  {
    hide NumberText, Shown, FracShown, WithoutZeros, FracValue, Pow10, FloatText, WholeShown, Numeral, DecValue;
    hide WholePart, FracPart;
    var w, f := WholeUnits(val), FracShown(val);
    KeptBelow(val);
    FloatTextIs(val);
    Pow10Of20();
    ShownMeans(w, 20);
    var t, rest := Shown(w), "";
    NoFraction();
    if f != 0 {
      var frac := FractionMeans(f);
      rest := "." + frac;
      assert rest[1..] == frac;
    }
    PartsAreNumeral(t, rest);
    assert IsDigit(t[0]);
    assert ("-" + t + rest)[1..] == t + rest && "" + t + rest == t + rest;
  }

  lemma KeptBelow(val: s64)
    ensures FracShown(val) <= Abs(val) % MULT < MULT && WholeUnits(val) < W64
    ensures WholeUnits(val) * MULT + FracShown(val) <= Abs(val)
    ensures WholeUnits(val) * MULT + FracShown(val) == Abs(val) <==> Abs(val) % 10 == 0
  {
    var q, f := Abs(val) / MULT, Abs(val) % MULT;
    assert Abs(val) == q * MULT + f;
    LastDigitOfRest(q, f);
  }

  lemma LastDigitOfRest(q: nat, f: nat)
    ensures (q * MULT + f) % 10 == f % 10
  {
    assert q * MULT + f == 10 * (q * 1000_0000) + f;
  }

  /** The value that comes back for a printed option. */
  function Survives(val: s64): int {
    if val < 0 && WholeUnits(val) > 0 then WholeUnits(val) * MULT - FracShown(val)
    else WholeUnits(val) * MULT + FracShown(val)
  }

  /** Parsing a printed option yields exactly the surviving value, if that is within the bounds. */
  lemma PrintedFloatMeans(val: s64, lo: s64, hi: s64)
    requires val != MIN64
    ensures 0 <= Survives(val) <= MAX64
    ensures FloatMeaning(FloatText(val), lo, hi)
         == if InRange(Survives(val), lo, hi) then Some(Survives(val)) else None
  {
    hide FloatText, FloatMeaning, FracShown, WholeUnits, WholePart, FracPart, Numeral, Overflows, TakenFor;
    PrintedIsDecimal(val);
    KeptBelow(val);
    DecimalMeans(FloatText(val), lo, hi);
    SmallDecimal(FloatText(val));
  }

  /** Printing and parsing gives an option back exactly if it is not negative, its last decimal digit is 0, and it
      is within the bounds. */
  lemma FloatRoundTrip(val: s64, lo: s64, hi: s64)
    requires val != MIN64
    ensures FloatMeaning(FloatText(val), lo, hi) == Some(val) <==> val >= 0 && val % 10 == 0 && InRange(val, lo, hi)
  {
    hide FloatMeaning, FloatText, FracShown, WholeUnits;
    PrintedFloatMeans(val, lo, hi);
    KeptBelow(val);
  }
}
