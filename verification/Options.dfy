/**
 Numbers as text: the printer that writes them into the configuration file and the parsers that read it, and
 exactly when these undo that.
 */
module Options {
  datatype Parsed<T> = Ok(value: T) | Wrong

  const INT64_MAX: int := 0x7FFF_FFFF_FFFF_FFFF
  const INT64_MIN: int := -0x8000_0000_0000_0000
  const TWO64: int := 0x1_0000_0000_0000_0000

  // ---------- processNumber ----------

  datatype Flags = Flags(zeropad: bool, sign: bool, plus: bool, space: bool, left: bool, hexPrep: bool, upper: bool)

  /** The digit for d. */
  function Dig(d: nat, upper: bool): char
    requires d < 16
  {
    (if d < 10 then 48 + d else if upper then 55 + d else 87 + d) as char
  }

  /** The digits of a number, none for 0. */
  function Digits(n: nat, base: nat, upper: bool): string
    requires base == 10 || base == 16
  {
    if n == 0 then "" else Digits(n / base, base, upper) + [Dig(n % base, upper)]
  }

  function Repeat(c: char, n: int): (s: string)
    ensures |s| == if n > 0 then n else 0
  {
    seq(if n > 0 then n else 0, _ => c)
  }

  /** The numbers processNumber takes: 64 bits, of which the least one cannot be negated where a sign is put. */
  predicate Printable(num: int, fl: Flags) {
    INT64_MIN <= num <= INT64_MAX && (fl.sign ==> INT64_MIN < num)
  }

  /** The number as the loops take it: the magnitude if a sign is put, else 64 bits without one. */
  function Magnitude(num: int, fl: Flags): (u: nat)
    requires Printable(num, fl)
    ensures u < TWO64
  {
    if num >= 0 then num else if fl.sign then -num else num + TWO64
  }

  function SignText(num: int, fl: Flags): string {
    if !fl.sign then "" else if num < 0 then "-" else if fl.plus then "+" else if fl.space then " " else ""
  }

  function DigitText(num: int, isHex: bool, precision: int, fl: Flags): string
    requires Printable(num, fl)
  {
    if num == 0 then (if precision != 0 then "0" else "")
    else Digits(Magnitude(num, fl), if isHex then 16 else 10, fl.upper)
  }

  function Max(a: int, b: int): int { if a > b then a else b }

  /** What comes before the digits: padding, sign, prefix and zeros. */
  function Head(sign: string, prefix: bool, zeros: bool, left: bool, pad: int, more: int): string {
    (if zeros || left then "" else Repeat(' ', pad)) + sign + (if prefix then "0x" else "")
    + (if zeros then Repeat('0', pad) else "") + Repeat('0', more)
  }

  /** Zeros fill the width. */
  predicate ZeroFilled(precision: int, fl: Flags) { fl.zeropad && !fl.left && precision == -1 }

  predicate Prefixed(num: int, isHex: bool, fl: Flags) { fl.hexPrep && num != 0 && isHex }

  /** How many characters fill the width, if that is more than 0. */
  function Pad(num: int, isHex: bool, size: int, precision: int, fl: Flags): int
    requires Printable(num, fl)
  {
    size - |SignText(num, fl)| - (if Prefixed(num, isHex, fl) then 2 else 0)
    - Max(|DigitText(num, isHex, precision, fl)|, precision)
  }

  /** What processNumber writes. */
  function Rendered(num: int, isHex: bool, size: int, precision: int, fl: Flags): string
    requires Printable(num, fl)
  {
    var digits, pad := DigitText(num, isHex, precision, fl), Pad(num, isHex, size, precision, fl);
    Head(SignText(num, fl), Prefixed(num, isHex, fl), ZeroFilled(precision, fl), fl.left, pad,
         Max(|digits|, precision) - |digits|)
    + digits + (if fl.left then Repeat(' ', pad) else "")
  }

  function PowerOf(base: nat, k: nat): (p: nat)
    ensures base > 0 ==> p > 0
  {
    if k == 0 then 1 else base * PowerOf(base, k - 1)
  }

  /** As many digits are written as the size of the number allows. */
  lemma {:induction false} DigitCount(n: nat, base: nat, upper: bool, k: nat)
    requires (base == 10 || base == 16) && n < PowerOf(base, k)
    ensures |Digits(n, base, upper)| <= k
    decreases k
  {
    if n > 0 {
      assert n / base < PowerOf(base, k - 1) by {
        if base == 10 {
          assert n < 10 * PowerOf(10, k - 1);
        } else {
          assert n < 16 * PowerOf(16, k - 1);
        }
      }
      DigitCount(n / base, base, upper, k - 1);
    }
  }

  lemma TwentyDigits(n: nat, base: nat, upper: bool)
    requires (base == 10 || base == 16) && n < TWO64
    ensures |Digits(n, base, upper)| <= 20
  {
    assert PowerOf(10, 5) == 100000;
    assert PowerOf(10, 10) == 100000_00000;
    assert PowerOf(10, 15) == 100000_00000_00000;
    assert PowerOf(10, 20) == 100000_00000_00000_00000;
    assert PowerOf(16, 5) == 0x10_0000;
    assert PowerOf(16, 10) == 0x100_0000_0000;
    assert PowerOf(16, 15) == 0x1000_0000_0000_0000;
    assert PowerOf(16, 20) == 0x1_0000_0000_0000_0000_0000;
    DigitCount(n, base, upper, 20);
  }

  function Reverse(s: string): (r: string)
    ensures |r| == |s|
  {
    if s == "" then "" else Reverse(s[1..]) + [s[0]]
  }

  lemma DigitsStep(n: nat, base: nat, upper: bool)
    requires base == 10 || base == 16
    ensures n == 0 ==> Digits(n, base, upper) == ""
    ensures n > 0 ==> n / base < n && Digits(n, base, upper) == Digits(n / base, base, upper) + [Dig(n % base, upper)]
  {
  }

  /** A digit moved from the front part to the buffer. */
  lemma MoveDigit(front: string, c: char, was: string)
    ensures (front + [c]) + Reverse(was) == front + Reverse(was + [c])
  {
    ReverseLast(was, c);
  }

  /** The digit loop: digits go into a buffer of 20, least significant first. */
  method PutDigits(tmp: array<char>, num: nat, base: nat, upper: bool) returns (i: nat)
    requires tmp.Length == 20 && (base == 10 || base == 16) && 0 < num < TWO64
    modifies tmp
    ensures i == |Digits(num, base, upper)| <= 20 && Reverse(tmp[..i]) == Digits(num, base, upper)
  {
    hide Digits, Reverse, Dig;
    TwentyDigits(num, base, upper);
    var n := num;
    i := 0;
    assert Reverse(tmp[..0]) == "";
    while n != 0
      invariant 0 <= n && i + |Digits(n, base, upper)| == |Digits(num, base, upper)| <= 20
      invariant Digits(n, base, upper) + Reverse(tmp[..i]) == Digits(num, base, upper)
      decreases n
    {
      DigitsStep(n, base, upper);
      var c := Dig(n % base, upper);
      ghost var was := tmp[..i];
      tmp[i] := c;
      assert tmp[..i + 1] == was + [c];
      MoveDigit(Digits(n / base, base, upper), c, was);
      i := i + 1;
      n := n / base;
    }
    DigitsStep(0, base, upper);
  }

  lemma {:induction false} ReverseLast(s: string, c: char)
    ensures Reverse(s + [c]) == [c] + Reverse(s)
  {
    if s == "" {
      assert s + [c] == [c] && Reverse([c][1..]) == "";
    } else {
      ReverseLast(s[1..], c);
      assert (s + [c])[1..] == s[1..] + [c];
    }
  }

  /** A loop that appends a character size times, if that is more than 0. */
  method Append(str: string, c: char, size: int) returns (out: string)
    ensures out == str + Repeat(c, size)
  {
    out := str;
    var n := size;
    assert str + Repeat(c, 0) == str;
    while n > 0
      invariant n <= Max(size, 0) && (size > 0 ==> n >= 0) && (size <= 0 ==> n == size)
      invariant out == str + Repeat(c, if size > 0 then size - n else 0)
    {
      assert Repeat(c, size - n + 1) == Repeat(c, size - n) + [c];
      out := out + [c];
      n := n - 1;
    }
  }

  /** The digits from the buffer, most significant first. */
  method CopyDigits(str: string, tmp: array<char>, n: nat) returns (out: string)
    requires n <= tmp.Length
    ensures out == str + Reverse(tmp[..n])
  {
    out := str;
    var i := n;
    while i > 0
      invariant 0 <= i <= n && out + Reverse(tmp[..i]) == str + Reverse(tmp[..n])
    {
      ReverseLast(tmp[..i - 1], tmp[i - 1]);
      assert tmp[..i] == tmp[..i - 1] + [tmp[i - 1]];
      out := out + [tmp[i - 1]];
      i := i - 1;
    }
    assert Reverse(tmp[..0]) == "";
  }

  /** The padding, sign and prefix that go in front of the digits. */
  method PutHead(sign: string, prefix: bool, zeropad: bool, left: bool, pad: int, more: int) returns (out: string)
    ensures out == Head(sign, prefix, zeropad, left, pad, more)
  {
    out := "";
    if !(zeropad || left) {
      out := Append(out, ' ', pad);
    }
    assert out == if zeropad || left then "" else Repeat(' ', pad);
    out := out + sign;
    out := out + if prefix then "0x" else "";
    if zeropad {
      out := Append(out, '0', pad);
    } else {
      assert out == out + "";
    }
    out := Append(out, '0', more);
  }

  /** The digits, or the single zero, in the buffer. */
  method MakeDigits(tmp: array<char>, num: int, isHex: bool, precision: int, fl: Flags) returns (i: nat)
    requires tmp.Length == 20 && Printable(num, fl)
    modifies tmp
    ensures i <= 20 && Reverse(tmp[..i]) == DigitText(num, isHex, precision, fl)
  {
    i := 0;
    if num == 0 {
      if precision != 0 {
        tmp[0] := '0';
        i := 1;
      }
      ReverseShort(tmp[..i]);
    } else {
      i := PutDigits(tmp, Magnitude(num, fl), if isHex then 16 else 10, fl.upper);
    }
  }

  /** processNumber: the text that is put into the output. */
  method ProcessNumber(num: int, isHex: bool, size: int, precision: int, fl: Flags) returns (out: string)
    requires Printable(num, fl)
    ensures out == Rendered(num, isHex, size, precision, fl)
  {
    hide DigitText, Repeat, Reverse, SignText, Head;
    var sign := SignText(num, fl);
    var sz := size - |sign|;
    var tmp := new char[20];
    var i := MakeDigits(tmp, num, isHex, precision, fl);
    ghost var digits := Reverse(tmp[..i]);
    var prefix := fl.hexPrep && num != 0 && isHex;
    var zeropad := fl.zeropad && !fl.left && precision == -1;
    if prefix {
      sz := sz - 2;
    }
    var count := if i > precision then i else precision;
    sz := sz - count;
    out := PutHead(sign, prefix, zeropad, fl.left, sz, count - i);
    out := CopyDigits(out, tmp, i);
    if fl.left {
      out := Append(out, ' ', sz);
    } else {
      assert out == out + "";
    }
  }

  lemma ReverseShort(s: string)
    requires |s| <= 1
    ensures Reverse(s) == s
  {
    if |s| == 1 {
      assert Reverse(s[1..]) == "";
    }
  }

  // ---------- the text as a whole ----------

  lemma DigitTable(d: nat)
    requires d < 16
    ensures Dig(d, false) == "0123456789abcdef"[d] && Dig(d, true) == "0123456789ABCDEF"[d]
  {
  }

  /** The number without regard to the width: sign, prefix, zeros up to the precision, digits. */
  function Bare(num: int, isHex: bool, precision: int, fl: Flags): string
    requires Printable(num, fl)
  {
    var digits := DigitText(num, isHex, precision, fl);
    SignText(num, fl) + (if fl.hexPrep && isHex && num != 0 then "0x" else "")
    + Repeat('0', precision - |digits|) + digits
  }

  /** n characters and more. */
  predicate Fills(s: string, c: char, n: int) { |s| == Max(n, 0) && forall i | 0 <= i < |s| :: s[i] == c }

  lemma GlueAll(s: string, p: string, m: string, d: string, z: string)
    ensures "" + s + p + "" + m + d + z == (s + p + m + d) + z
    ensures "" + s + p + z + m + d + "" == (s + p + m + d)[..|s + p|] + z + (s + p + m + d)[|s + p|..]
    ensures z + s + p + "" + m + d + "" == z + (s + p + m + d)
  {
    var bare := s + p + m + d;
    assert bare[..|s + p|] == s + p && bare[|s + p|..] == m + d;
  }

  lemma RepeatFills(c: char, n: int)
    ensures Fills(Repeat(c, n), c, n)
  {
  }

  /**
   The text is the bare number, and as many characters more as the width asks for: blanks behind it, zeros behind
   the sign and the prefix, or blanks in front.
   */
  lemma WidthFilled(num: int, isHex: bool, size: int, precision: int, fl: Flags) returns (z: string)
    requires Printable(num, fl)
    ensures Fills(z, if fl.zeropad && !fl.left && precision == -1 then '0' else ' ',
                  size - |Bare(num, isHex, precision, fl)|)
    ensures var text, bare := Rendered(num, isHex, size, precision, fl), Bare(num, isHex, precision, fl);
      var k := |SignText(num, fl)| + if fl.hexPrep && isHex && num != 0 then 2 else 0;
      k <= |bare| && text == if fl.left then bare + z
                             else if fl.zeropad && precision == -1 then bare[..k] + z + bare[k..]
                             else z + bare
  {
    hide DigitText, SignText, Repeat;
    var digits, pad := DigitText(num, isHex, precision, fl), Pad(num, isHex, size, precision, fl);
    var prefix, more := if Prefixed(num, isHex, fl) then "0x" else "", Repeat('0', precision - |digits|);
    RepeatLength(Max(|digits|, precision) - |digits|, precision - |digits|);
    z := Repeat(if ZeroFilled(precision, fl) then '0' else ' ', pad);
    RepeatFills(if ZeroFilled(precision, fl) then '0' else ' ', pad);
    GlueAll(SignText(num, fl), prefix, more, digits, z);
    NoPrefix(SignText(num, fl) + prefix, SignText(num, fl));
  }

  lemma NoPrefix(a: string, b: string)
    ensures a + "" == a && b + "" == b && "" + b == b
  {
  }

  lemma RepeatLength(m: int, n: int)
    requires m == Max(n, 0)
    ensures Repeat('0', m) == Repeat('0', n)
  {
  }

  // ---------- the parsers ----------

  /** 64-bit signed wrap-around. */
  function Wrap64(x: int): (w: int)
    ensures INT64_MIN <= w <= INT64_MAX
    ensures INT64_MIN <= x <= INT64_MAX ==> w == x
  {
    (x + 0x8000_0000_0000_0000) % TWO64 - 0x8000_0000_0000_0000
  }

  /** The value of a decimal digit; 10 and more for anything else. */
  function DecDigit(c: char): nat { if '0' <= c <= '9' then c as nat - 48 else 10 }

  /** The value of a hexadecimal digit; 16 for anything else. */
  function HexDigit(c: char): nat {
    if '0' <= c <= '9' then c as nat - 48 else if 'a' <= c <= 'f' then c as nat - 87
    else if 'A' <= c <= 'F' then c as nat - 55 else 16
  }

  /** The loop of parseDecIntOptionImpl over the digits. */
  function DecValue(s: string): Parsed<int> {
    if s == "" then Ok(0)
    else
      var r, n := DecValue(s[..|s| - 1]), DecDigit(s[|s| - 1]);
      if r.Wrong? || n > 9 then Wrong else Ok(Wrap64(10 * r.value + n))
  }

  /** The loop of parseHexIntOption. */
  function HexValue(s: string): Parsed<nat> {
    if s == "" then Ok(0)
    else
      var r, n := HexValue(s[..|s| - 1]), HexDigit(s[|s| - 1]);
      if r.Wrong? || n > 15 then Wrong else Ok((16 * r.value + n) % TWO64)
  }

  /** Whether the text begins with a sign that is taken as one. */
  predicate Signed(s: string) { |s| >= 2 && (s[0] == '+' || s[0] == '-') }

  /** What parseDecIntOptionImpl gives. */
  function DecParsed(s: string, minval: int, maxval: int): Parsed<int> {
    var r := DecValue(if Signed(s) then s[1..] else s);
    if r.Wrong? then Wrong
    else
      var v := Wrap64(if Signed(s) && s[0] == '-' then -r.value else r.value);
      if minval <= v <= maxval then Ok(v) else Wrong
  }

  /** The loop over the digits. */
  method ReadDigits(val: string) returns (r: Parsed<int>)
    ensures r == DecValue(val)
  {
    hide Wrap64, DecDigit;
    var res, i := 0, 0;
    while i < |val|
      invariant 0 <= i <= |val| && DecValue(val[..i]) == Ok(res)
    {
      var n := DecDigit(val[i]);
      assert val[..i + 1][..i] == val[..i];
      if n > 9 {
        Wrongly(val, i + 1);
        return Wrong;
      }
      res := Wrap64(10 * res + n);
      i := i + 1;
    }
    assert val[..i] == val;
    return Ok(res);
  }

  /** parseDecIntOptionImpl. */
  method ParseDecInt(val: string, minval: int, maxval: int) returns (r: Parsed<int>)
    ensures r == DecParsed(val, minval, maxval)
  {
    hide Wrap64, DecValue;
    var i, sign := 0, 1;
    if |val| >= 2 {
      if val[0] == '+' {
        i := 1;
      } else if val[0] == '-' {
        sign := -1;
        i := 1;
      }
    }
    assert i == 0 ==> val[i..] == val;
    r := ReadDigits(val[i..]);
    if r.Ok? {
      var res := Wrap64(r.value * sign);
      return if minval <= res <= maxval then Ok(res) else Wrong;
    }
  }

  /** Once wrong, always wrong. */
  lemma {:induction false} Wrongly(s: string, k: nat)
    requires k <= |s| && DecValue(s[..k]).Wrong?
    ensures DecValue(s).Wrong?
    decreases |s|
  {
    if k < |s| {
      assert s[..|s| - 1][..k] == s[..k];
      Wrongly(s[..|s| - 1], k);
    } else {
      assert s[..k] == s;
    }
  }

  lemma {:induction false} HexWrongly(s: string, k: nat)
    requires k <= |s| && HexValue(s[..k]).Wrong?
    ensures HexValue(s).Wrong?
    decreases |s|
  {
    if k < |s| {
      assert s[..|s| - 1][..k] == s[..k];
      HexWrongly(s[..|s| - 1], k);
    } else {
      assert s[..k] == s;
    }
  }

  /** parseHexIntOption. */
  method ParseHexInt(val: string, minval: nat, maxval: nat) returns (r: Parsed<nat>)
    ensures r == if HexValue(val).Wrong? || !(minval <= HexValue(val).value <= maxval) then Wrong else HexValue(val)
  {
    var res, i := 0, 0;
    while i < |val|
      invariant 0 <= i <= |val| && 0 <= res && HexValue(val[..i]) == Ok(res)
    {
      assert val[..i + 1][..i] == val[..i];
      var c := val[i];
      if '0' <= c <= '9' {
        res := (16 * res + (c as int - '0' as int)) % TWO64;
      } else if 'a' <= c <= 'f' {
        res := (16 * res + (c as int - 'a' as int + 10)) % TWO64;
      } else if 'A' <= c <= 'F' {
        res := (16 * res + (c as int - 'A' as int + 10)) % TWO64;
      } else {
        HexWrongly(val, i + 1);
        return Wrong;
      }
      i := i + 1;
    }
    assert val[..i] == val;
    return if minval <= res <= maxval then Ok(res) else Wrong;
  }

  // ---------- the parsers undo the printers ----------

  lemma DigitOfDig(d: nat, upper: bool)
    requires d < 16
    ensures HexDigit(Dig(d, upper)) == d && (d < 10 ==> DecDigit(Dig(d, upper)) == d && '0' <= Dig(d, upper) <= '9')
  {
  }

  lemma DecLast(s: string, c: char)
    ensures DecValue(s + [c]) ==
      if DecValue(s).Wrong? || DecDigit(c) > 9 then Wrong else Ok(Wrap64(10 * DecValue(s).value + DecDigit(c)))
  {
    hide DecDigit, Wrap64;
    assert (s + [c])[..|s|] == s;
  }

  lemma HexLast(s: string, c: char)
    ensures HexValue(s + [c]) ==
      if HexValue(s).Wrong? || HexDigit(c) > 15 then Wrong else Ok((16 * HexValue(s).value + HexDigit(c)) % TWO64)
  {
    hide HexDigit;
    assert (s + [c])[..|s|] == s;
  }

  lemma {:induction false} DecOfDigits(n: nat, upper: bool)
    requires n <= INT64_MAX
    ensures DecValue(Digits(n, 10, upper)) == Ok(n)
    ensures forall i | 0 <= i < |Digits(n, 10, upper)| :: '0' <= Digits(n, 10, upper)[i] <= '9'
    decreases n
  {
    hide DecDigit, Dig, Wrap64;
    if n > 0 {
      DecOfDigits(n / 10, upper);
      DigitsStep(n, 10, upper);
      DigitOfDig(n % 10, upper);
      DecLast(Digits(n / 10, 10, upper), Dig(n % 10, upper));
      assert 10 * (n / 10) + n % 10 == n;
    }
  }

  lemma SmallValue(n: nat)
    requires n < TWO64
    ensures (16 * (n / 16) + n % 16) % TWO64 == n
  {
    assert 16 * (n / 16) + n % 16 == n;
  }

  lemma {:induction false} HexOfDigits(n: nat, upper: bool)
    requires n < TWO64
    ensures HexValue(Digits(n, 16, upper)) == Ok(n)
    decreases n
  {
    hide HexDigit, Dig, HexValue, Digits;
    DigitsStep(n, 16, upper);
    if n > 0 {
      HexOfDigits(n / 16, upper);
      DigitOfDig(n % 16, upper);
      HexLast(Digits(n / 16, 16, upper), Dig(n % 16, upper));
      SmallValue(n);
    } else {
      NoHexDigits();
    }
  }

  /** Zeros in front change nothing. */
  lemma {:induction false} DecZeros(z: string, s: string)
    requires forall i | 0 <= i < |z| :: z[i] == '0'
    ensures DecValue(z + s) == DecValue(s)
    decreases |z| + |s|
  {
    if s != "" {
      DecZeros(z, s[..|s| - 1]);
      assert (z + s)[..|z + s| - 1] == z + s[..|s| - 1];
    } else if z != "" {
      DecZeros(z[..|z| - 1], "");
      assert z + s == z && z[..|z| - 1] + "" == z[..|z| - 1];
    }
  }

  lemma {:induction false} HexZeros(z: string, s: string)
    requires forall i | 0 <= i < |z| :: z[i] == '0'
    ensures HexValue(z + s) == HexValue(s)
    decreases |z| + |s|
  {
    if s != "" {
      HexZeros(z, s[..|s| - 1]);
      assert (z + s)[..|z + s| - 1] == z + s[..|s| - 1];
    } else if z != "" {
      HexZeros(z[..|z| - 1], "");
      assert z + s == z && z[..|z| - 1] + "" == z[..|z| - 1];
    }
  }

  /** A character that is no digit makes the text wrong. */
  lemma {:induction false} DecBad(s: string, c: char)
    requires c in s && DecDigit(c) > 9
    ensures DecValue(s).Wrong?
  {
    if s[|s| - 1] != c {
      assert s == s[..|s| - 1] + [s[|s| - 1]];
      DecBad(s[..|s| - 1], c);
    }
  }

  lemma {:induction false} HexBad(s: string, c: char)
    requires c in s && HexDigit(c) > 15
    ensures HexValue(s).Wrong?
  {
    if s[|s| - 1] != c {
      assert s == s[..|s| - 1] + [s[|s| - 1]];
      HexBad(s[..|s| - 1], c);
    }
  }

  /** A blank is put in: for the sign, or to fill the width. */
  predicate Blank(num: int, isHex: bool, size: int, precision: int, fl: Flags)
    requires Printable(num, fl)
  {
    SignText(num, fl) == " " || (Pad(num, isHex, size, precision, fl) > 0 && !ZeroFilled(precision, fl))
  }

  lemma RepeatIs(c: char, n: int)
    ensures n <= 0 ==> Repeat(c, n) == ""
    ensures n > 0 ==> c in Repeat(c, n)
    ensures forall i | 0 <= i < |Repeat(c, n)| :: Repeat(c, n)[i] == c
  {
    if n > 0 {
      assert Repeat(c, n)[0] == c;
    }
  }

  lemma BlankShows(num: int, isHex: bool, size: int, precision: int, fl: Flags)
    requires Printable(num, fl)
    ensures Blank(num, isHex, size, precision, fl) ==> ' ' in Rendered(num, isHex, size, precision, fl)
    ensures Prefixed(num, isHex, fl) ==> 'x' in Rendered(num, isHex, size, precision, fl)
  {
    hide DigitText, SignText, Repeat;
    RepeatIs(' ', Pad(num, isHex, size, precision, fl));
    if SignText(num, fl) == " " {
      assert " "[0] == ' ';
    }
    if Prefixed(num, isHex, fl) {
      assert "0x"[1] == 'x';
    }
  }

  /** Without blanks and prefix the text is the sign, zeros and the digits. */
  lemma PlainText(num: int, isHex: bool, size: int, precision: int, fl: Flags) returns (z: string)
    requires Printable(num, fl) && !Blank(num, isHex, size, precision, fl) && !Prefixed(num, isHex, fl)
    ensures Rendered(num, isHex, size, precision, fl) == SignText(num, fl) + (z + DigitText(num, isHex, precision, fl))
    ensures forall i | 0 <= i < |z| :: z[i] == '0'
    ensures precision == 0 ==> z == ""
  {
    hide DigitText, SignText, Repeat;
    var sign, digits := SignText(num, fl), DigitText(num, isHex, precision, fl);
    var zeros, pad := ZeroFilled(precision, fl), Pad(num, isHex, size, precision, fl);
    var more := Max(|digits|, precision) - |digits|;
    var z1, z2 := if zeros then Repeat('0', pad) else "", Repeat('0', more);
    z := z1 + z2;
    RepeatIs('0', pad);
    RepeatIs('0', more);
    RepeatIs(' ', pad);
    Glue(sign, z1, z2, digits);
    assert Head(sign, false, zeros, fl.left, pad, more) == "" + sign + "" + z1 + z2;
  }

  lemma Glue(a: string, b: string, c: string, d: string)
    ensures ("" + a + "" + b + c) + d + "" == a + ((b + c) + d)
  {
  }

  lemma ZeroDigit()
    ensures DecValue("0") == Ok(0) && HexValue("0") == Ok(0) && DecValue("") == Ok(0) && HexValue("") == Ok(0)
  {
    assert DecValue("0"[..0]) == Ok(0) && HexValue("0"[..0]) == Ok(0);
  }

  lemma SignIs(num: int, fl: Flags)
    ensures SignText(num, fl) in ["", "+", "-", " "] && (SignText(num, fl) == "-" <==> fl.sign && num < 0)
  {
  }

  /** What the digits are worth, and that they are digits. */
  lemma DigitsWorth(num: int, precision: int, fl: Flags)
    requires Printable(num, fl) && Magnitude(num, fl) <= INT64_MAX
    ensures var d := DigitText(num, false, precision, fl);
      && DecValue(d) == Ok(Magnitude(num, fl)) && (d == "" <==> num == 0 && precision == 0)
      && forall i | 0 <= i < |d| :: '0' <= d[i] <= '9'
  {
    hide Digits, DecValue;
    ZeroDigit();
    DecOfDigits(Magnitude(num, fl), fl.upper);
    DigitsStep(Magnitude(num, fl), 10, fl.upper);
  }

  lemma NoSign(z: string, digits: string, sign: string)
    requires (forall i | 0 <= i < |z| :: z[i] == '0') && (forall i | 0 <= i < |digits| :: '0' <= digits[i] <= '9')
    requires digits != ""
    requires sign in ["", "+", "-"]
    ensures var s := sign + (z + digits);
      && (Signed(s) <==> sign != "") && (sign == "" ==> s == z + digits)
      && (sign != "" ==> s[1..] == z + digits && s[0] == sign[0])
  {
    var t := z + digits;
    assert '0' <= t[0] <= '9';
  }

  lemma BlankIsWrong(s: string, minval: int, maxval: int)
    requires ' ' in s
    ensures DecParsed(s, minval, maxval) == Wrong
  {
    hide DecValue;
    if Signed(s) {
      assert s == [s[0]] + s[1..];
      DecBad(s[1..], ' ');
    } else {
      DecBad(s, ' ');
    }
  }

  /**
   What processNumber writes of a decimal number parseDecIntOptionImpl reads back, for every width, precision and
   flags, exactly when no blank is put in and the text is not a plus alone, which is what is left of zero with
   precision 0 and the plus flag.
   */
  lemma DecRoundTrip(num: int, size: int, precision: int, fl: Flags, minval: int, maxval: int)
    requires Printable(num, fl) && minval <= num <= maxval && (fl.sign || num >= 0)
    ensures DecParsed(Rendered(num, false, size, precision, fl), minval, maxval) == Ok(num) <==>
      !Blank(num, false, size, precision, fl) && !(num == 0 && precision == 0 && SignText(num, fl) == "+")
  {
    hide DecValue, Blank, Rendered, SignText, DigitText;
    BlankShows(num, false, size, precision, fl);
    SignIs(num, fl);
    if Blank(num, false, size, precision, fl) {
      BlankIsWrong(Rendered(num, false, size, precision, fl), minval, maxval);
    } else {
      var z := PlainText(num, false, size, precision, fl);
      var sign, digits := SignText(num, fl), DigitText(num, false, precision, fl);
      DigitsWorth(num, precision, fl);
      NotBlankSign(num, size, precision, fl);
      if digits == "" {
        assert sign + (z + digits) == sign;
        ZeroDigit();
        if sign == "+" {
          DecBad(sign, '+');
        }
      } else {
        DecZeros(z, digits);
        NoSign(z, digits, sign);
      }
    }
  }

  lemma NotBlankSign(num: int, size: int, precision: int, fl: Flags)
    requires Printable(num, fl) && !Blank(num, false, size, precision, fl)
    ensures SignText(num, fl) != " "
  {
  }

  /**
   What processNumber writes of a 64-bit number in hexadecimal, without a sign, parseHexIntOption reads back exactly
   when no blank is put in and no prefix.
   */
  lemma HexRoundTrip(num: int, size: int, precision: int, fl: Flags)
    requires Printable(num, fl) && !fl.sign
    ensures HexValue(Rendered(num, true, size, precision, fl)) == Ok(Magnitude(num, fl)) <==>
      !Blank(num, true, size, precision, fl) && !Prefixed(num, true, fl)
  {
    hide Digits, HexValue, Blank, Rendered;
    BlankShows(num, true, size, precision, fl);
    if Blank(num, true, size, precision, fl) {
      HexBad(Rendered(num, true, size, precision, fl), ' ');
    } else if Prefixed(num, true, fl) {
      HexBad(Rendered(num, true, size, precision, fl), 'x');
    } else {
      var z := PlainText(num, true, size, precision, fl);
      var digits := DigitText(num, true, precision, fl);
      HexOfDigits(Magnitude(num, fl), fl.upper);
      HexZeros(z, digits);
      ZeroDigit();
      assert SignText(num, fl) + (z + digits) == z + digits;
    }
  }

  lemma NoHexDigits()
    ensures HexValue("") == Ok(0) && Digits(0, 16, false) == Digits(0, 16, true) == ""
  {
  }

  /** A width that blanks fill, and a hexadecimal prefix, are not read back. */
  lemma NotReadBack()
    ensures var fl := Flags(false, true, false, false, false, false, false);
      DecParsed(Rendered(5, false, 2, -1, fl), 0, 9) == Wrong
    ensures var fl := Flags(false, false, false, false, false, true, false);
      HexValue(Rendered(5, true, 0, -1, fl)) == Wrong
  {
    hide Rendered, DecValue, HexValue;
    var d := Flags(false, true, false, false, false, false, false);
    var h := Flags(false, false, false, false, false, true, false);
    OneDigit(d.upper, 10);
    BlankShows(5, false, 2, -1, d);
    BlankIsWrong(Rendered(5, false, 2, -1, d), 0, 9);
    BlankShows(5, true, 0, -1, h);
    HexBad(Rendered(5, true, 0, -1, h), 'x');
  }

  lemma OneDigit(upper: bool, base: nat)
    requires base == 10 || base == 16
    ensures Digits(5, base, upper) == "5"
  {
    DigitsStep(5, base, upper);
    DigitsStep(0, base, upper);
    assert 5 / base == 0 && 5 % base == 5;
  }
}
