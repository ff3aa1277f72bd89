/** Coercion of a raw rule value: the chain that turns `"true"` and
    `"false"` into booleans, anything JavaScript's `Number()` accepts into a
    number, and leaves every other text a string. */
module Coercion {
  import opened Optional
  import opened Text

  /** A number `Number()` can produce other than `NaN`, as an exact value. */
  datatype Number = Finite(x: real) | PosInfinity | NegInfinity

  /** A coerced rule value. */
  datatype Value = VBool(b: bool) | VNum(n: Number) | VStr(s: string)

  /** The value of a digit character in bases up to 16 (either case of
      `a`-`f`); 16 for any other character. */
  function DigitValue(c: char): (d: nat)
    ensures d <= 16
  {
    if '0' <= c <= '9' then (c - '0') as nat
    else if 'a' <= c <= 'f' then (c - 'a') as nat + 10
    else if 'A' <= c <= 'F' then (c - 'A') as nat + 10
    else 16
  }

  predicate AllDigits(s: string, radix: nat) {
    forall k :: 0 <= k < |s| ==> DigitValue(s[k]) < radix
  }

  /** The value of a digit string, most significant digit first. */
  function DigitsValue(s: string, radix: nat): nat
    requires AllDigits(s, radix)
  {
    if s == [] then 0 else DigitsValue(s[..|s| - 1], radix) * radix + DigitValue(s[|s| - 1])
  }

  /** `x` times ten to the power `e`, one factor of ten at a time. */
  function Scale(x: real, e: int): real
    decreases if e < 0 then -e else e
  {
    if e == 0 then x
    else if e > 0 then Scale(x, e - 1) * 10.0
    else Scale(x, e + 1) / 10.0
  }

  /** The first position holding `a` or `b`, or `|s|` if there is none. */
  function IndexOf(s: string, a: char, b: char): (i: nat)
    ensures i <= |s|
    ensures i < |s| ==> s[i] == a || s[i] == b
    ensures forall k :: 0 <= k < i ==> s[k] != a && s[k] != b
  {
    if s == [] || s[0] == a || s[0] == b then 0 else 1 + IndexOf(s[1..], a, b)
  }

  /** The exponent after `e` or `E`: an optional sign and at least one
      decimal digit. */
  function ParseExponent(t: string): Option<int> {
    var signed := t != [] && (t[0] == '+' || t[0] == '-');
    var digits := if signed then t[1..] else t;
    if digits != [] && AllDigits(digits, 10) then
      var n: int := DigitsValue(digits, 10);
      Some(if signed && t[0] == '-' then -n else n)
    else None
  }

  /** An unsigned decimal literal: digits with an optional fraction after
      `.` (at least one digit in all) and an optional exponent. */
  function ParseDecimal(u: string): Option<real> {
    var i := IndexOf(u, 'e', 'E');
    var mantissa := u[..i];
    var exponent := if i == |u| then Some(0) else ParseExponent(u[i + 1..]);
    var d := IndexOf(mantissa, '.', '.');
    var whole := mantissa[..d];
    var fraction := if d == |mantissa| then [] else mantissa[d + 1..];
    if exponent.Some? && AllDigits(whole, 10) && AllDigits(fraction, 10) && |whole| + |fraction| >= 1 then
      var w := DigitsValue(whole, 10) as real;
      var f := Scale(DigitsValue(fraction, 10) as real, -|fraction|);
      Some(Scale(w + f, exponent.value))
    else None
  }

  /** `0x`/`0X`, `0o`/`0O` or `0b`/`0B` and at least one digit of that base. */
  function ParsePrefixed(t: string, radix: nat): Option<Number>
    requires |t| >= 2
  {
    var digits := t[2..];
    if digits != [] && AllDigits(digits, radix) then Some(Finite(DigitsValue(digits, radix) as real))
    else None
  }

  /** `Number(s)` for a string `s`, with `None` standing for `NaN`: the
      trimmed text is empty (zero) or a numeric literal. */
  function ToNumber(s: string): Option<Number> {
    var t := Trim(s);
    if t == [] then Some(Finite(0.0)) else ParseNumeric(t)
  }

  /** The base a `0x`/`0X`, `0o`/`0O` or `0b`/`0B` prefix selects, or 0 for
      any other second character. */
  function PrefixRadix(c: char): nat {
    if c == 'x' || c == 'X' then 16
    else if c == 'o' || c == 'O' then 8
    else if c == 'b' || c == 'B' then 2
    else 0
  }

  /** A prefixed binary, octal or hexadecimal integer, or an optionally
      signed `Infinity` or decimal literal. */
  function ParseNumeric(t: string): Option<Number>
    requires t != []
  {
    var radix := if |t| >= 2 && t[0] == '0' then PrefixRadix(t[1]) else 0;
    if radix != 0 then ParsePrefixed(t, radix)
    else
      var u := if t[0] == '-' || t[0] == '+' then t[1..] else t;
      var n := ParseUnsigned(u);
      if t[0] == '-' then Negate(n) else n
  }

  function Negate(n: Option<Number>): Option<Number> {
    match n
    case Some(Finite(x)) => Some(Finite(-x))
    case Some(PosInfinity) => Some(NegInfinity)
    case Some(NegInfinity) => Some(PosInfinity)
    case None => None
  }

  lemma NegateFinite(x: real)
    ensures Negate(Some(Finite(x))) == Some(Finite(-x))
  {
  }

  /** `Infinity` or an unsigned decimal literal. */
  function ParseUnsigned(u: string): Option<Number> {
    if u == "Infinity" then Some(PosInfinity)
    else match ParseDecimal(u)
      case None => None
      case Some(x) => Some(Finite(x))
  }

  /** The coercion chain, first match wins: exactly `"true"`, exactly
      `"false"`, then whatever `Number()` does not turn into `NaN`; any other
      text stays the same string. */
  function Coerce(raw: string): (v: Value)
    ensures v.VBool? <==> raw == "true" || raw == "false"
    ensures v.VBool? ==> v.b == (raw == "true")
    ensures v.VStr? ==> v.s == raw
    ensures v.VStr? <==> raw != "true" && raw != "false" && ToNumber(raw).None?
    ensures v.VNum? ==> ToNumber(raw) == Some(v.n)
  {
    if raw == "true" then VBool(true)
    else if raw == "false" then VBool(false)
    else match ToNumber(raw)
      case Some(n) => VNum(n)
      case None => VStr(raw)
  }

  /** An empty raw value, as left by `price >`, coerces to the number zero. */
  lemma CoerceEmpty()
    ensures Coerce("") == VNum(Finite(0.0))
  {
    assert Trim("") == [];
  }

  /** The decimal digits of `n`, with no leading zero. */
  function NatDigits(n: nat): (s: string)
    decreases n
  {
    if n < 10 then ['0' + n as char] else NatDigits(n / 10) + ['0' + (n % 10) as char]
  }

  /** `n` written in decimal, with a leading `-` when negative. */
  function IntToDecimal(n: int): string {
    if n < 0 then ['-'] + NatDigits(-n) else NatDigits(n)
  }

  lemma {:induction false} NatDigitsValue(n: nat)
    ensures NatDigits(n) != [] && AllDigits(NatDigits(n), 10)
    ensures DigitsValue(NatDigits(n), 10) == n
    ensures NatDigits(n)[0] == '0' ==> n == 0
    decreases n
  {
    var s := NatDigits(n);
    if n >= 10 {
      NatDigitsValue(n / 10);
      assert s[..|s| - 1] == NatDigits(n / 10);
      assert s[0] == NatDigits(n / 10)[0];
    }
  }

  /** A plain run of decimal digits is read as an unsigned decimal literal
      with no fraction and no exponent. */
  lemma DigitsParse(digits: string)
    requires digits != [] && AllDigits(digits, 10)
    ensures ParseDecimal(digits) == Some(DigitsValue(digits, 10) as real)
  {
    forall k | 0 <= k < |digits| ensures digits[k] != 'e' && digits[k] != 'E' && digits[k] != '.' {
      DigitIsNoMarker(digits[k]);
    }
    IndexOfAbsent(digits, 'e', 'E');
    IndexOfAbsent(digits, '.', '.');
    assert digits[..|digits|] == digits;
    DecimalWhole(digits);
  }

  /** Text with neither an exponent nor a fraction is read as its whole
      part. */
  lemma DecimalWhole(u: string)
    requires u != [] && AllDigits(u, 10)
    requires IndexOf(u, 'e', 'E') == |u| && IndexOf(u[..|u|], '.', '.') == |u|
    ensures ParseDecimal(u) == Some(DigitsValue(u, 10) as real)
  {
    assert u[..|u|] == u;
    assert DigitsValue([], 10) == 0;
  }

  lemma DigitIsNoMarker(c: char)
    requires DigitValue(c) < 10
    ensures '0' <= c <= '9'
    ensures c != 'e' && c != 'E' && c != '.' && !IsWhitespace(c)
  {
  }

  lemma IndexOfAbsent(s: string, a: char, b: char)
    requires forall k :: 0 <= k < |s| ==> s[k] != a && s[k] != b
    ensures IndexOf(s, a, b) == |s|
  {
  }

  lemma FirstCharDiffers(s: string, word: string)
    requires s != [] && word != [] && s[0] != word[0]
    ensures s != word
  {
  }

  /** Any integer written in decimal comes back as that number: the text is
      neither `true` nor `false`, carries no base prefix, and `Number()`
      reads it digit by digit. */
  lemma {:induction false} CoerceInteger(n: int)
    ensures Coerce(IntToDecimal(n)) == VNum(Finite(n as real))
  {
    if n < 0 {
      CoerceNegativeInteger(n);
    } else {
      NatDigitsValue(n);
      CoerceNatural(NatDigits(n));
    }
  }

  lemma CoerceNegativeInteger(n: int)
    requires n < 0
    ensures Coerce(IntToDecimal(n)) == VNum(Finite(n as real))
  {
    var digits := NatDigits(-n);
    NatDigitsValue(-n);
    var s := IntToDecimal(n);
    assert s == ['-'] + digits;
    assert s[1..] == digits;
    CoerceSigned(s, digits, n);
  }

  /** A minus sign before the digits of `-n` coerces to `n`. */
  lemma CoerceSigned(s: string, digits: string, n: int)
    requires |s| >= 2 && s[0] == '-' && s[1..] == digits
    requires AllDigits(digits, 10) && DigitsValue(digits, 10) == -n
    ensures Coerce(s) == VNum(Finite(n as real))
  {
    CoerceNegative(s);
    var d := DigitsValue(s[1..], 10);
    assert d == -n;
    assert -(d as real) == n as real;
  }

  lemma CoerceNatural(digits: string)
    requires digits != [] && AllDigits(digits, 10)
    requires digits[0] == '0' ==> |digits| == 1
    ensures Coerce(digits) == VNum(Finite(DigitsValue(digits, 10) as real))
  {
    NumberOfDigits(digits);
    DigitIsNoMarker(digits[0]);
    CoerceNumericText(digits, Finite(DigitsValue(digits, 10) as real));
  }

  lemma CoerceNegative(s: string)
    requires |s| >= 2 && s[0] == '-' && AllDigits(s[1..], 10)
    ensures Coerce(s) == VNum(Finite(-(DigitsValue(s[1..], 10) as real)))
  {
    NumberOfNegativeDigits(s);
    CoerceNumericText(s, Finite(-(DigitsValue(s[1..], 10) as real)));
  }

  /** Text starting with a minus sign or a digit is neither `true` nor
      `false`, so when `Number()` reads it, it becomes that number. */
  lemma CoerceNumericText(s: string, n: Number)
    requires s != [] && (s[0] == '-' || '0' <= s[0] <= '9')
    requires ToNumber(s) == Some(n)
    ensures Coerce(s) == VNum(n)
  {
    FirstCharDiffers(s, "true");
    FirstCharDiffers(s, "false");
    CoerceNumeric(s, n);
  }

  /** A decimal integer without superfluous leading zeros is read as its
      value. */
  lemma NumberOfDigits(digits: string)
    requires digits != [] && AllDigits(digits, 10)
    requires digits[0] == '0' ==> |digits| == 1
    ensures ToNumber(digits) == Some(Finite(DigitsValue(digits, 10) as real))
  {
    DigitIsNoMarker(digits[0]);
    DigitIsNoMarker(digits[|digits| - 1]);
    ToNumberOfTrimmed(digits);
    NumericUnsigned(digits);
    UnsignedDigits(digits);
  }

  /** ... and with a minus sign in front, as its negation. */
  lemma NumberOfNegativeDigits(s: string)
    requires |s| >= 2 && s[0] == '-' && AllDigits(s[1..], 10)
    ensures ToNumber(s) == Some(Finite(-(DigitsValue(s[1..], 10) as real)))
  {
    var digits := s[1..];
    assert s[|s| - 1] == digits[|digits| - 1];
    DigitIsNoMarker(digits[|digits| - 1]);
    ToNumberOfTrimmed(s);
    NumericNegative(s);
    UnsignedDigits(digits);
    NegateFinite(DigitsValue(digits, 10) as real);
  }

  /** Text other than `true` and `false` that `Number()` reads becomes that
      number. */
  lemma CoerceNumeric(s: string, n: Number)
    requires s != "true" && s != "false" && ToNumber(s) == Some(n)
    ensures Coerce(s) == VNum(n)
  {
  }

  /** Text other than `true` and `false` that `Number()` turns into `NaN`
      stays the same string. */
  lemma CoerceNaN(raw: string)
    requires raw != "true" && raw != "false" && ToNumber(raw) == None
    ensures Coerce(raw) == VStr(raw)
  {
  }

  /** A model name such as `5G` starts like a number but is not one, so it
      stays a string. */
  lemma CoerceModelName()
    ensures Coerce("5G") == VStr("5G")
  {
    ModelNameParts();
    TrimTrimmed("5G");
    NotANumber("5G");
    CoerceNaN("5G");
  }

  lemma ModelNameParts()
    ensures Trimmed("5G") && "5G" != "Infinity" && "5G"[..2] == "5G"
    ensures IndexOf("5G", 'e', 'E') == 2 && IndexOf("5G", '.', '.') == 2
    ensures !AllDigits("5G", 10)
  {
    assert DigitValue('G') == 16;
  }

  lemma NotANumber(u: string)
    requires u == "5G" && Trimmed(u) && u != "Infinity" && u[..|u|] == u
    requires IndexOf(u, 'e', 'E') == |u| && IndexOf(u, '.', '.') == |u| && !AllDigits(u, 10)
    ensures ToNumber(u) == None
  {
    assert Trim(u) == u;
    assert ParseDecimal(u) == None;
    assert ParseUnsigned(u) == None;
    assert ParseNumeric(u) == None;
  }

  /** Empty or whitespace-only text reads as zero. */
  lemma ToNumberBlank(s: string)
    requires AllWhitespace(s)
    ensures ToNumber(s) == Some(Finite(0.0))
  {
  }

  /** `Number()` ignores whitespace around the literal: surrounding a
      trimmed text with any whitespace does not change what it reads. */
  lemma ToNumberSurrounded(before: string, core: string, after: string)
    requires AllWhitespace(before) && AllWhitespace(after) && Trimmed(core)
    ensures ToNumber(before + core + after) == ToNumber(core)
  {
    TrimSurrounded(before, core, after);
    TrimTrimmed(core);
  }

  lemma ToNumberOfTrimmed(s: string)
    requires s != [] && !IsWhitespace(s[0]) && !IsWhitespace(s[|s| - 1])
    ensures ToNumber(s) == ParseNumeric(s)
  {
    TrimTrimmed(s);
  }

  lemma NumericNegative(s: string)
    requires s != [] && s[0] == '-'
    ensures ParseNumeric(s) == Negate(ParseUnsigned(s[1..]))
  {
  }

  lemma NumericUnsigned(s: string)
    requires s != [] && DigitValue(s[0]) < 10
    requires s[0] == '0' ==> |s| == 1
    ensures ParseNumeric(s) == ParseUnsigned(s)
  {
  }

  lemma UnsignedDigits(digits: string)
    requires digits != [] && AllDigits(digits, 10)
    ensures ParseUnsigned(digits) == Some(Finite(DigitsValue(digits, 10) as real))
  {
    DigitIsNoMarker(digits[0]);
    FirstCharDiffers(digits, "Infinity");
    DigitsParse(digits);
  }

  /** Words stay words: text that is not `true` or `false` and starts with a
      character no numeric literal can start with (anything but whitespace,
      a digit, a sign, `.` or the `I` of `Infinity`) is kept as the same
      string, so `instock` or `Samsung` compare as text. */
  lemma CoerceWord(raw: string)
    requires raw != "true" && raw != "false" && raw != []
    requires !IsWhitespace(raw[0]) && DigitValue(raw[0]) >= 10
    requires raw[0] != '+' && raw[0] != '-' && raw[0] != '.' && raw[0] != 'I'
    ensures Coerce(raw) == VStr(raw)
  {
    var t := Trim(raw);
    assert t != [] && t[0] == raw[0] by {
      assert TrimStart(raw) == raw;
      assert raw[..1] == [raw[0]];
      assert !AllWhitespace(raw);
      assert t == TrimEnd(raw) == raw[..|t|];
    }
    assert t != "Infinity";
    var i := IndexOf(t, 'e', 'E');
    var d := IndexOf(t[..i], '.', '.');
    assert i > 0 ==> d > 0 && t[..i][..d][0] == raw[0];
  }
}
