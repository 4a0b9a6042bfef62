/**
  The parts of Python's `str` and numeric-conversion behaviour that the
  structure-file code relies on: `split('\n')`, `startswith`, clamped
  slicing, `strip()`, `int()` on a base-10 field and `float()` on a
  plain decimal field.  Each is modelled as a total function; where Python
  raises `ValueError`, the model returns `None`.
*/
module PyText {
  import opened Wrappers

  /** The characters for which Python's `str.isspace()` holds; `strip()`
      removes exactly these from the ends of a string. */
  predicate IsSpace(c: char) {
    var n := c as int;
    (9 <= n <= 13) || (0x1C <= n <= 0x20) || n == 0x85 || n == 0xA0 || n == 0x1680
    || (0x2000 <= n <= 0x200A) || n == 0x2028 || n == 0x2029 || n == 0x202F
    || n == 0x205F || n == 0x3000
  }

  predicate AllSpace(s: string) {
    forall i :: 0 <= i < |s| ==> IsSpace(s[i])
  }

  /** The four information separators U+001C..U+001F.  `isspace()` holds
      for them, but `int()` and `float()` do not skip them around a number:
      CPython skips only the ASCII characters `\t\n\v\f\r` and space, and
      the whitespace outside ASCII. */
  predicate IsSeparatorControl(c: char) {
    0x1C <= c as int <= 0x1F
  }

  /** The whitespace `int()` and `float()` skip at the ends of a number. */
  predicate IsNumberSpace(c: char) {
    IsSpace(c) && !IsSeparatorControl(c)
  }

  predicate AllNumberSpace(s: string) {
    forall i :: 0 <= i < |s| ==> IsNumberSpace(s[i])
  }

  /** Has no `int()`/`float()` whitespace at either end: what is left once
      they have skipped theirs. */
  predicate NumberTrimmed(s: string) {
    |s| == 0 || (!IsNumberSpace(s[0]) && !IsNumberSpace(s[|s| - 1]))
  }

  predicate NoSeparatorControl(s: string) {
    forall i :: 0 <= i < |s| ==> !IsSeparatorControl(s[i])
  }

  /** Has no whitespace at either end, which is what `strip()` leaves behind. */
  predicate Trimmed(s: string) {
    |s| == 0 || (!IsSpace(s[0]) && !IsSpace(s[|s| - 1]))
  }

  /** `s.startswith(prefix)` */
  predicate StartsWith(s: string, prefix: string) {
    |prefix| <= |s| && s[..|prefix|] == prefix
  }

  /** `s[lo:hi]` for non-negative bounds: bounds past the end are clamped,
      so a slice never raises, it only comes out shorter or empty. */
  function Slice(s: string, lo: nat, hi: nat): (r: string)
    ensures |r| == if hi <= lo || |s| <= lo then 0 else (if hi < |s| then hi else |s|) - lo
  {
    if hi <= lo || |s| <= lo then "" else if hi < |s| then s[lo..hi] else s[lo..]
  }

  /** A slice holds the characters of `s` from `lo` on. */
  lemma SliceAt(s: string, lo: nat, hi: nat)
    ensures forall k :: 0 <= k < |Slice(s, lo, hi)| ==> Slice(s, lo, hi)[k] == s[lo + k]
  {
  }

  /** `s[lo:]` */
  function SliceFrom(s: string, lo: nat): string {
    Slice(s, lo, |s|)
  }

  /** `s.lstrip()`: `s` without its leading whitespace. */
  function StripLeft(s: string): (r: string)
    ensures |r| == 0 || !IsSpace(r[0])
  {
    if |s| > 0 && IsSpace(s[0]) then StripLeft(s[1..]) else s
  }

  /** `s.rstrip()`: `s` without its trailing whitespace. */
  function StripRight(s: string): (r: string)
    ensures |r| == 0 || !IsSpace(r[|r| - 1])
  {
    if |s| > 0 && IsSpace(s[|s| - 1]) then StripRight(s[..|s| - 1]) else s
  }

  /** `s.strip()`: `s` without its leading and trailing whitespace. */
  function Strip(s: string): (r: string)
    ensures Trimmed(r)
  {
    StripRightPrefix(StripLeft(s));
    StripRight(StripLeft(s))
  }

  /** What `lstrip()` removes is whitespace, and what it keeps is a suffix. */
  lemma {:induction false} StripLeftSuffix(s: string)
    ensures var r := StripLeft(s); |r| <= |s| && r == s[|s| - |r|..] && AllSpace(s[..|s| - |r|])
  {
    if |s| > 0 && IsSpace(s[0]) {
      StripLeftSuffix(s[1..]);
      var r := StripLeft(s[1..]);
      assert s[1..][..|s| - 1 - |r|] == s[1..|s| - |r|];
    }
  }

  /** What `rstrip()` removes is whitespace, and what it keeps is a prefix. */
  lemma {:induction false} StripRightPrefix(s: string)
    ensures var r := StripRight(s); |r| <= |s| && r == s[..|r|] && AllSpace(s[|r|..])
  {
    if |s| > 0 && IsSpace(s[|s| - 1]) {
      StripRightPrefix(s[..|s| - 1]);
      var r := StripRight(s[..|s| - 1]);
      assert s[..|s| - 1][|r|..] + [s[|s| - 1]] == s[|r|..];
    }
  }

  /** `strip()` removes only whitespace, from the two ends: `s` is the
      stripped text with whitespace before and after it. */
  lemma StripShape(s: string)
    ensures exists lo :: 0 <= lo <= |s| - |Strip(s)| && Strip(s) == s[lo..lo + |Strip(s)|]
                          && AllSpace(s[..lo]) && AllSpace(s[lo + |Strip(s)|..])
  {
    var left := StripLeft(s);
    StripLeftSuffix(s);
    StripRightPrefix(left);
    var r := StripRight(left);
    var lo := |s| - |left|;
    assert r == s[lo..lo + |r|];
    assert s[lo + |r|..] == left[|r|..];
  }

  lemma {:induction false} StripLeftBlank(s: string)
    requires AllSpace(s)
    ensures StripLeft(s) == ""
  {
    if |s| > 0 {
      StripLeftBlank(s[1..]);
    }
  }

  lemma {:induction false} StripLeftPadded(pre: string, u: string)
    requires AllSpace(pre)
    ensures StripLeft(pre + u) == StripLeft(u)
    decreases |pre|
  {
    if |pre| > 0 {
      assert (pre + u)[1..] == pre[1..] + u;
      StripLeftPadded(pre[1..], u);
    } else {
      assert pre + u == u;
    }
  }

  lemma {:induction false} StripRightPadded(u: string, post: string)
    requires AllSpace(post)
    ensures StripRight(u + post) == StripRight(u)
    decreases |post|
  {
    if |post| > 0 {
      assert (u + post)[..|u + post| - 1] == u + post[..|post| - 1];
      StripRightPadded(u, post[..|post| - 1]);
    } else {
      assert u + post == u;
    }
  }

  /** Surrounding a trimmed text with whitespace does not change what `strip()` returns. */
  lemma {:induction false} StripPadded(pre: string, t: string, post: string)
    requires AllSpace(pre) && AllSpace(post) && Trimmed(t)
    ensures Strip(pre + t + post) == t
  {
    assert pre + t + post == pre + (t + post);
    StripLeftPadded(pre, t + post);
    if |t| == 0 {
      assert t + post == post;
      StripLeftBlank(post);
    } else {
      assert StripLeft(t + post) == t + post;
      StripRightPadded(t, post);
      assert StripRight(t) == t;
    }
  }

  /** Text with no whitespace at its ends is its own stripped form. */
  lemma StripTrimmed(t: string)
    requires Trimmed(t)
    ensures Strip(t) == t
  {
    StripPadded("", t, "");
    assert "" + t + "" == t;
  }

  /** Stripping twice is stripping once. */
  lemma StripIdempotent(s: string)
    ensures Strip(Strip(s)) == Strip(s)
  {
    StripPadded("", Strip(s), "");
    assert "" + Strip(s) + "" == Strip(s);
  }

  /** A string made only of whitespace strips to the empty string. */
  lemma StripBlank(s: string)
    requires AllSpace(s)
    ensures Strip(s) == ""
  {
    StripPadded(s, "", "");
    assert s + "" + "" == s;
  }

  // ---------------------------------------------------------------------
  // Decimal digits

  predicate IsDigit(c: char) {
    '0' <= c <= '9'
  }

  predicate AllDigits(s: string) {
    forall i :: 0 <= i < |s| ==> IsDigit(s[i])
  }

  function DigitValue(c: char): nat
    requires IsDigit(c)
  {
    c as int - '0' as int
  }

  function DigitChar(d: nat): (c: char)
    requires d < 10
    ensures IsDigit(c) && DigitValue(c) == d
  {
    ('0' as int + d) as char
  }

  /** The number a run of decimal digits denotes (leading zeros allowed, as `int()` allows them). */
  function DigitsValue(s: string): nat
    requires AllDigits(s)
  {
    if |s| == 0 then 0 else DigitsValue(s[..|s| - 1]) * 10 + DigitValue(s[|s| - 1])
  }

  function Pow10(k: nat): (p: nat)
    ensures p >= 1
  {
    if k == 0 then 1 else 10 * Pow10(k - 1)
  }

  /** An optional leading `+` or `-`: whether it was `-`, and the rest. */
  function SplitSign(t: string): (bool, string) {
    if |t| > 0 && (t[0] == '-' || t[0] == '+') then (t[0] == '-', t[1..]) else (false, t)
  }

  /** `int(s)` for a base-10 string: surrounding whitespace, then an optional
      sign, then at least one ASCII digit; anything else is a `ValueError`.
      A number holds only signs and digits, so without information
      separators in `s` the whitespace `int()` skips and the whitespace
      `strip()` removes leave the same text; with one, `int()` meets it at
      an end of the text or inside it and raises either way
      (`DecodeSeesNumberText`). */
  function DecodeInt(s: string): (r: Option<int>)
    ensures r.Some? ==> |Strip(s)| > 0 && (r.value < 0 ==> Strip(s)[0] == '-')
  {
    var signed := SplitSign(Strip(s));
    var digits := signed.1;
    if NoSeparatorControl(s) && |digits| > 0 && AllDigits(digits) then
      Some(if signed.0 then -(DigitsValue(digits) as int) else DigitsValue(digits))
    else None
  }

  /** The index of the first `c` in `m`, or `|m|` when there is none. */
  function FirstIndexOf(m: string, c: char): (i: nat)
    ensures i <= |m| && (i < |m| ==> m[i] == c) && c !in m[..i]
  {
    if |m| == 0 then 0
    else if m[0] == c then 0
    else
      var i := 1 + FirstIndexOf(m[1..], c);
      assert m[..i] == [m[0]] + m[1..][..i - 1];
      i
  }

  /** An exact decimal number: `units / 10^places`.  This is the value a
      plain decimal text denotes before Python rounds it to a binary double. */
  datatype Decimal = Decimal(units: int, places: nat)

  /** Whether `d > k` for a whole number `k` (the comparisons the confidence
      thresholds make). */
  predicate Exceeds(d: Decimal, k: int) {
    d.units > k * Pow10(d.places)
  }

  /** The number a decimal denotes. */
  function ValueOf(d: Decimal): real {
    d.units as real / Pow10(d.places) as real
  }

  /** `Exceeds` is the comparison `d > k` on the number denoted. */
  lemma ExceedsValue(d: Decimal, k: int)
    ensures Exceeds(d, k) <==> ValueOf(d) > k as real
  {
    var p := Pow10(d.places) as real;
    assert ValueOf(d) * p == d.units as real;
    assert (k * Pow10(d.places)) as real == k as real * p;
  }

  /** The number written `whole.frac` (either part may be empty). */
  function MantissaValue(whole: string, frac: string): (d: Decimal)
    requires AllDigits(whole) && AllDigits(frac)
    ensures d.units >= 0
  {
    Decimal(DigitsValue(whole) * Pow10(|frac|) + DigitsValue(frac), |frac|)
  }

  /** Unsigned plain decimal notation: digits with at most one decimal
      point and at least one digit. */
  function DecodeUnsignedDecimal(m: string): Option<Decimal> {
    var i := FirstIndexOf(m, '.');
    var whole := m[..i];
    var frac := if i < |m| then m[i + 1..] else "";
    if |whole| + |frac| > 0 && AllDigits(whole) && AllDigits(frac) then Some(MantissaValue(whole, frac))
    else None
  }

  /** The first occurrence is the one with none before it. */
  lemma FirstIndexOfAt(m: string, c: char, i: nat)
    requires i < |m| && m[i] == c && c !in m[..i]
    ensures FirstIndexOf(m, c) == i
  {
  }

  /** `float(s)` on plain decimal notation: surrounding whitespace, an optional
      sign, then unsigned decimal notation.  The value is the exact decimal
      number written.  Information separators are rejected as in `DecodeInt`. */
  function DecodeDecimal(s: string): (r: Option<Decimal>)
    ensures r.Some? ==> |Strip(s)| > 0 && (r.value.units < 0 ==> Strip(s)[0] == '-')
  {
    var signed := SplitSign(Strip(s));
    if !NoSeparatorControl(s) then None
    else match DecodeUnsignedDecimal(signed.1)
    case None => None
    case Some(v) => Some(if signed.0 then Decimal(-v.units, v.places) else v)
  }

  /** A field holding only whitespace (or nothing, as a slice past the end
      of a line does) is rejected by both `int()` and `float()`. */
  lemma {:induction false} BlankIsNotANumber(s: string)
    requires AllSpace(s)
    ensures DecodeInt(s) == None && DecodeDecimal(s) == None
  {
    StripBlank(s);
    assert SplitSign("") == (false, "");
  }

  // ---------------------------------------------------------------------
  // Rendering numbers, the partner of decoding

  /** `str(n)` for a non-negative integer. */
  function EncodeNat(n: nat): (s: string)
    ensures |s| > 0 && AllDigits(s) && DigitsValue(s) == n
  {
    if n < 10 then [DigitChar(n)]
    else
      var s := EncodeNat(n / 10) + [DigitChar(n % 10)];
      assert s[..|s| - 1] == EncodeNat(n / 10);
      s
  }

  /** `str(n)` */
  function EncodeInt(n: int): string {
    if n < 0 then "-" + EncodeNat(-n) else EncodeNat(n)
  }

  /** `n` written with exactly `width` digits, zero-padded on the left. */
  function PadDigits(n: nat, width: nat): (s: string)
    requires n < Pow10(width)
    ensures |s| == width && AllDigits(s) && DigitsValue(s) == n
  {
    if width == 0 then ""
    else
      var s := PadDigits(n / 10, width - 1) + [DigitChar(n % 10)];
      assert s[..|s| - 1] == PadDigits(n / 10, width - 1);
      s
  }

  lemma DivMod(a: int, p: int)
    requires a >= 0 && p >= 1
    ensures a / p >= 0 && 0 <= a % p < p && a == (a / p) * p + a % p
  {
  }

  /** The fixed-point value `n / 10^places` written as `%.<places>f` would. */
  function EncodeFixed(n: int, places: nat): string
    requires places >= 1
  {
    var a: nat := if n < 0 then -n else n;
    var p := Pow10(places);
    DivMod(a, p);
    var q: nat := a / p;
    var r: nat := a % p;
    (if n < 0 then "-" else "") + EncodeNat(q) + "." + PadDigits(r, places)
  }

  lemma EncodeIntTrimmed(n: int)
    ensures Trimmed(EncodeInt(n)) && |EncodeInt(n)| > 0
  {
    var d := EncodeNat(if n < 0 then -n else n);
    assert IsDigit(d[0]) && IsDigit(d[|d| - 1]);
  }

  /** `int()` reads back what `str()` wrote, whatever whitespace it skips
      surrounds it. */
  lemma {:induction false} DecodeEncodeInt(n: int, pre: string, post: string)
    requires AllNumberSpace(pre) && AllNumberSpace(post)
    ensures DecodeInt(pre + EncodeInt(n) + post) == Some(n)
  {
    var t := EncodeInt(n);
    EncodeIntTrimmed(n);
    DecodeSeesNumberText(pre, t, post);
    StripTrimmed(t);
    var d := EncodeNat(if n < 0 then -n else n);
    if n < 0 {
      assert SplitSign(t) == (true, d);
    } else {
      assert SplitSign(t) == (false, d);
    }
    forall k | 0 <= k < |t|
      ensures !IsSeparatorControl(t[k])
    {
      if n < 0 && k > 0 {
        assert t[k] == d[k - 1];
      }
    }
  }

  /** The digits before and after the point of a rendered fixed-point value,
      and the magnitude they denote together. */
  lemma FixedParts(n: int, places: nat) returns (whole: string, frac: string)
    requires places >= 1
    ensures |whole| > 0 && |frac| > 0 && AllDigits(whole) && AllDigits(frac)
    ensures MantissaValue(whole, frac) == Decimal(if n < 0 then -n else n, places)
    ensures EncodeFixed(n, places) == (if n < 0 then "-" else "") + (whole + "." + frac)
  {
    var a: nat := if n < 0 then -n else n;
    var p := Pow10(places);
    DivMod(a, p);
    whole := EncodeNat(a / p);
    frac := PadDigits(a % p, places);
    assert DigitsValue(whole) * Pow10(|frac|) + DigitsValue(frac) == a;
  }

  /** Reading `whole.frac` back as unsigned decimal notation. */
  lemma DecodeUnsignedMantissa(whole: string, frac: string)
    requires |whole| > 0 && AllDigits(whole) && AllDigits(frac)
    ensures DecodeUnsignedDecimal(whole + "." + frac) == Some(MantissaValue(whole, frac))
  {
    var m := whole + "." + frac;
    assert m[..|whole|] == whole;
    assert m[|whole|] == '.';
    assert m[|whole| + 1..] == frac;
    FirstIndexOfAt(m, '.', |whole|);
  }

  /** Unsigned decimal notation holds only digits and a point. */
  lemma UnsignedDecimalPlain(m: string)
    requires DecodeUnsignedDecimal(m).Some?
    ensures NoSeparatorControl(m)
  {
    var i := FirstIndexOf(m, '.');
    forall k | 0 <= k < |m|
      ensures !IsSeparatorControl(m[k])
    {
      if k < i {
        assert m[k] == m[..i][k];
      } else if k > i {
        assert m[k] == m[i + 1..][k - i - 1];
      }
    }
  }

  /** An information separator anywhere in a field makes both `int()` and
      `float()` raise, even where `strip()` would have removed it. */
  lemma SeparatorIsNotANumber(s: string, i: nat)
    requires i < |s| && IsSeparatorControl(s[i])
    ensures DecodeInt(s) == None && DecodeDecimal(s) == None
  {
  }

  /** Whitespace `int()` skips is whitespace `strip()` removes. */
  lemma NumberSpaceIsSpace(s: string)
    requires AllNumberSpace(s)
    ensures AllSpace(s) && NoSeparatorControl(s)
  {
  }

  lemma NoSeparatorConcat(pre: string, t: string, post: string)
    requires NoSeparatorControl(pre) && NoSeparatorControl(t) && NoSeparatorControl(post)
    ensures NoSeparatorControl(pre + t + post)
  {
    var s := pre + t + post;
    forall k | 0 <= k < |s|
      ensures !IsSeparatorControl(s[k])
    {
      if k < |pre| {
        assert s[k] == pre[k];
      } else if k < |pre| + |t| {
        assert s[k] == t[k - |pre|];
      } else {
        assert s[k] == post[k - |pre| - |t|];
      }
    }
  }

  /** `int()` and `float()` see only the text between the whitespace they
      skip: whitespace they skip around a text changes neither. */
  lemma DecodeSeesNumberText(pre: string, t: string, post: string)
    requires AllNumberSpace(pre) && AllNumberSpace(post) && NumberTrimmed(t)
    ensures DecodeInt(pre + t + post) == DecodeInt(t)
    ensures DecodeDecimal(pre + t + post) == DecodeDecimal(t)
  {
    var s := pre + t + post;
    if NoSeparatorControl(t) {
      NumberSpaceIsSpace(pre);
      NumberSpaceIsSpace(post);
      NoSeparatorConcat(pre, t, post);
      if |t| > 0 {
        assert !IsSeparatorControl(t[0]) && !IsSeparatorControl(t[|t| - 1]);
      }
      StripPadded(pre, t, post);
      StripTrimmed(t);
      assert SplitSign(Strip(s)) == SplitSign(Strip(t));
    } else {
      var k :| 0 <= k < |t| && IsSeparatorControl(t[k]);
      SeparatorIsNotANumber(t, k);
      assert s[|pre| + k] == t[k];
      SeparatorIsNotANumber(s, |pre| + k);
    }
  }

  /** Stripping keeps a text free of information separators. */
  lemma StripNoSeparator(s: string)
    requires NoSeparatorControl(s)
    ensures NoSeparatorControl(Strip(s))
  {
    StripShape(s);
    var lo :| 0 <= lo <= |s| - |Strip(s)| && Strip(s) == s[lo..lo + |Strip(s)|];
    forall k | 0 <= k < |Strip(s)|
      ensures !IsSeparatorControl(Strip(s)[k])
    {
      assert Strip(s)[k] == s[lo + k];
    }
  }

  /** A field `int()` or `float()` can read gives the same number once stripped. */
  lemma DecodeStripped(s: string)
    requires NoSeparatorControl(s)
    ensures DecodeInt(Strip(s)) == DecodeInt(s) && DecodeDecimal(Strip(s)) == DecodeDecimal(s)
  {
    StripNoSeparator(s);
    StripIdempotent(s);
    assert SplitSign(Strip(Strip(s))) == SplitSign(Strip(s));
  }

  /** `float()` applies the sign to the unsigned value it reads. */
  lemma DecodeDecimalSigned(s: string, negative: bool, m: string, v: Decimal)
    requires NoSeparatorControl(s)
    requires SplitSign(Strip(s)) == (negative, m) && DecodeUnsignedDecimal(m) == Some(v)
    ensures DecodeDecimal(s) == Some(if negative then Decimal(-v.units, v.places) else v)
  {
  }

  /** A sign followed by text that starts with a digit splits into the two. */
  lemma SplitSignDigit(negative: bool, m: string)
    requires |m| > 0 && IsDigit(m[0])
    ensures SplitSign((if negative then "-" else "") + m) == (negative, m)
  {
    var t := (if negative then "-" else "") + m;
    if negative {
      assert t[1..] == m;
    } else {
      assert t == m;
    }
  }

  /** A sign followed by text that starts and ends with a digit is trimmed,
      and decodes to the signed unsigned value. */
  lemma DecodeSignedDigits(negative: bool, m: string, v: Decimal)
    requires |m| > 0 && IsDigit(m[0]) && IsDigit(m[|m| - 1])
    requires DecodeUnsignedDecimal(m) == Some(v)
    ensures Trimmed((if negative then "-" else "") + m)
    ensures DecodeDecimal((if negative then "-" else "") + m) == Some(if negative then Decimal(-v.units, v.places) else v)
  {
    var t := (if negative then "-" else "") + m;
    assert t[|t| - 1] == m[|m| - 1];
    assert t[0] == if negative then '-' else m[0];
    StripTrimmed(t);
    SplitSignDigit(negative, m);
    UnsignedDecimalPlain(m);
    forall k | 0 <= k < |t|
      ensures !IsSeparatorControl(t[k])
    {
      if negative && k > 0 {
        assert t[k] == m[k - 1];
      } else if !negative {
        assert t[k] == m[k];
      }
    }
    DecodeDecimalSigned(t, negative, m, v);
  }

  /** `whole.frac` starts and ends with a digit and reads back as its value. */
  lemma MantissaShape(whole: string, frac: string)
    requires |whole| > 0 && |frac| > 0 && AllDigits(whole) && AllDigits(frac)
    ensures var m := whole + "." + frac;
            && |m| > 0 && IsDigit(m[0]) && IsDigit(m[|m| - 1])
            && DecodeUnsignedDecimal(m) == Some(MantissaValue(whole, frac))
  {
    var m := whole + "." + frac;
    assert m[0] == whole[0] && m[|m| - 1] == frac[|frac| - 1];
    DecodeUnsignedMantissa(whole, frac);
  }

  /** `float()` reads back the exact fixed-point value that `EncodeFixed` wrote. */
  lemma {:induction false} DecodeEncodeFixed(n: int, places: nat, pre: string, post: string)
    requires places >= 1 && AllNumberSpace(pre) && AllNumberSpace(post)
    ensures DecodeDecimal(pre + EncodeFixed(n, places) + post) == Some(Decimal(n, places))
  {
    var whole, frac := FixedParts(n, places);
    MantissaShape(whole, frac);
    DecodeSignedDigits(n < 0, whole + "." + frac, MantissaValue(whole, frac));
    DecodeSeesNumberText(pre, EncodeFixed(n, places), post);
  }

  // ---------------------------------------------------------------------
  // Splitting into lines

  /** `s.split(sep)` with an explicit one-character separator: the pieces
      between separators, an empty piece at each end that the text starts
      or ends with a separator, and `[""]` for empty text. */
  function Split(s: string, sep: char): (parts: seq<string>)
    ensures |parts| >= 1
    ensures forall i :: 0 <= i < |parts| ==> sep !in parts[i]
    decreases |s|
  {
    var i := FirstIndexOf(s, sep);
    if i == |s| then [s] else [s[..i]] + Split(s[i + 1..], sep)
  }

  /** `sep.join(parts)` */
  function Join(parts: seq<string>, sep: char): string
    requires |parts| >= 1
  {
    if |parts| == 1 then parts[0] else parts[0] + [sep] + Join(parts[1..], sep)
  }

  lemma JoinCons(p: string, rest: seq<string>, sep: char)
    requires |rest| >= 1
    ensures Join([p] + rest, sep) == p + [sep] + Join(rest, sep)
  {
    assert ([p] + rest)[1..] == rest;
  }

  lemma SplitAround(s: string, i: nat)
    requires i < |s|
    ensures s[..i] + [s[i]] + s[i + 1..] == s
  {
  }

  /** Joining the pieces of a split gives back the text. */
  lemma {:induction false} JoinSplit(s: string, sep: char)
    ensures Join(Split(s, sep), sep) == s
    decreases |s|
  {
    var i := FirstIndexOf(s, sep);
    if i < |s| {
      var rest := s[i + 1..];
      JoinSplit(rest, sep);
      JoinCons(s[..i], Split(rest, sep), sep);
      SplitAround(s, i);
    }
  }

  /** Splitting joined pieces that hold no separator gives back the pieces. */
  lemma {:induction false} SplitJoin(parts: seq<string>, sep: char)
    requires |parts| >= 1
    requires forall i :: 0 <= i < |parts| ==> sep !in parts[i]
    ensures Split(Join(parts, sep), sep) == parts
  {
    var s := Join(parts, sep);
    if |parts| == 1 {
      assert FirstIndexOf(s, sep) == |s|;
    } else {
      var rest := Join(parts[1..], sep);
      assert s == parts[0] + [sep] + rest;
      assert s[..|parts[0]|] == parts[0];
      FirstIndexOfAt(s, sep, |parts[0]|);
      assert s[|parts[0]| + 1..] == rest;
      SplitJoin(parts[1..], sep);
    }
  }

  // ---------------------------------------------------------------------
  // Filtering lines

  /** `[l for l in lines if l.startswith(prefix)]` */
  function KeepPrefixed(lines: seq<string>, prefix: string): (r: seq<string>)
    ensures |r| <= |lines|
    ensures forall l :: l in r <==> l in lines && StartsWith(l, prefix)
  {
    if |lines| == 0 then []
    else
      var init := KeepPrefixed(lines[..|lines| - 1], prefix);
      var last := lines[|lines| - 1];
      assert lines == lines[..|lines| - 1] + [last];
      if StartsWith(last, prefix) then init + [last] else init
  }

  /** The filter works line by line and keeps the order of the lines it keeps. */
  lemma {:induction false} KeepPrefixedAppend(a: seq<string>, b: seq<string>, prefix: string)
    ensures KeepPrefixed(a + b, prefix) == KeepPrefixed(a, prefix) + KeepPrefixed(b, prefix)
    decreases |b|
  {
    if |b| > 0 {
      var b' := b[..|b| - 1];
      KeepPrefixedAppend(a, b', prefix);
      assert (a + b)[..|a + b| - 1] == a + b';
    } else {
      assert a + b == a;
    }
  }

  /** A filter that every line passes keeps the list as it is. */
  lemma {:induction false} KeepPrefixedAll(lines: seq<string>, prefix: string)
    requires forall k :: 0 <= k < |lines| ==> StartsWith(lines[k], prefix)
    ensures KeepPrefixed(lines, prefix) == lines
  {
    if |lines| > 0 {
      KeepPrefixedAll(lines[..|lines| - 1], prefix);
    }
  }
}
