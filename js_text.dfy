/** The few JavaScript string built-ins the reminder widget relies on:
    String.prototype.trim, String(n).padStart(2, '0') for a non-negative
    integer n, and parseInt(s, 10). */
module JsText {

  datatype Option<T> = None | Some(value: T)

  /** ECMAScript WhiteSpace and LineTerminator code points: what `trim`
      removes and what `parseInt` skips before the number. */
  predicate IsWhiteSpace(c: char) {
    c == '\t' || c == '\U{B}' || c == '\U{C}' || c == ' ' || c == '\U{A0}' || c == '\U{FEFF}'
    || c == '\U{1680}' || ('\U{2000}' <= c <= '\U{200A}') || c == '\U{202F}' || c == '\U{205F}'
    || c == '\U{3000}' || c == '\n' || c == '\r' || c == '\U{2028}' || c == '\U{2029}'
  }

  /** Leading white space removed: a suffix of `s` that does not start with
      white space, everything before it being white space. */
  function TrimStart(s: string): (r: string)
    ensures |r| <= |s| && r == s[|s| - |r|..]
    ensures r == [] || !IsWhiteSpace(r[0])
    ensures forall i :: 0 <= i < |s| - |r| ==> IsWhiteSpace(s[i])
  {
    if s != [] && IsWhiteSpace(s[0]) then
      var r := TrimStart(s[1..]);
      assert forall i :: 1 <= i < |s| ==> s[i] == s[1..][i - 1];
      r
    else s
  }

  /** Trailing white space removed: a prefix of `s` that does not end with
      white space, everything after it being white space. */
  function TrimEnd(s: string): (r: string)
    ensures |r| <= |s| && r == s[..|r|]
    ensures r == [] || !IsWhiteSpace(r[|r| - 1])
    ensures forall i :: |r| <= i < |s| ==> IsWhiteSpace(s[i])
  {
    if s != [] && IsWhiteSpace(s[|s| - 1]) then TrimEnd(s[..|s| - 1]) else s
  }

  /** String.prototype.trim: a string neither starting nor ending with white
      space, no longer than the input. */
  function Trim(s: string): (r: string)
    ensures |r| <= |s|
    ensures r == [] || (!IsWhiteSpace(r[0]) && !IsWhiteSpace(r[|r| - 1]))
  {
    TrimEnd(TrimStart(s))
  }

  /** A trimmed string is empty exactly when the input was all white space. */
  lemma TrimEmptyIffBlank(s: string)
    ensures Trim(s) == [] <==> forall i :: 0 <= i < |s| ==> IsWhiteSpace(s[i])
  {
    var t := TrimStart(s);
    var r := TrimEnd(t);
    if r != [] {
      assert r[0] == t[0] == s[|s| - |t|];
    }
  }

  /** A trimmed string is a slice of the input: a prefix of what is left
      after dropping the leading white space. */
  lemma TrimIsSlice(s: string)
    ensures Trim(s) <= s[|s| - |TrimStart(s)|..]
  {
    var t := TrimStart(s);
    assert TrimEnd(t) == t[..|TrimEnd(t)|];
  }

  predicate IsDigit(c: char) {
    '0' <= c <= '9'
  }

  predicate AllDigits(s: string) {
    forall i :: 0 <= i < |s| ==> IsDigit(s[i])
  }

  function DigitChar(d: nat): (c: char)
    requires d < 10
    ensures IsDigit(c) && DigitValue(c) == d
  {
    (48 + d) as char
  }

  function DigitValue(c: char): (d: nat)
    requires IsDigit(c)
    ensures d < 10
  {
    c as int - 48
  }

  /** The value of a string of decimal digits, most significant first. */
  function DigitsValue(ds: string): nat
    requires AllDigits(ds)
  {
    if ds == [] then 0 else DigitsValue(ds[..|ds| - 1]) * 10 + DigitValue(ds[|ds| - 1])
  }

  /** String(n) for a non-negative integer: its shortest decimal numeral,
      which has no leading zero. */
  function Decimal(n: nat): (r: string)
    ensures 1 <= |r| && AllDigits(r)
    ensures |r| > 1 ==> r[0] != '0'
    ensures n < 10 <==> |r| == 1
  {
    if n < 10 then [DigitChar(n)] else Decimal(n / 10) + [DigitChar(n % 10)]
  }

  /** The numeral denotes the number it was made from. */
  lemma {:induction false} DecimalValue(n: nat)
    ensures DigitsValue(Decimal(n)) == n
  {
    if n >= 10 {
      var r := Decimal(n);
      assert r[..|r| - 1] == Decimal(n / 10);
      DecimalValue(n / 10);
    }
  }

  /** Leading zeros do not change the value of a numeral. */
  lemma {:induction false} LeadingZeroValue(ds: string)
    requires AllDigits(ds)
    ensures AllDigits("0" + ds) && DigitsValue("0" + ds) == DigitsValue(ds)
  {
    if ds != [] {
      var z := "0" + ds;
      assert z[..|z| - 1] == "0" + ds[..|ds| - 1];
      LeadingZeroValue(ds[..|ds| - 1]);
    }
  }

  /** String.prototype.padStart(target, fill) with a one-character `fill`:
      `s` itself when it is long enough, otherwise `s` preceded by enough
      copies of `fill` to reach `target` characters. */
  function PadStart(s: string, target: nat, fill: char): (r: string)
    ensures |r| == if |s| >= target then |s| else target
    ensures r[|r| - |s|..] == s
    ensures forall i :: 0 <= i < |r| - |s| ==> r[i] == fill
    decreases target - |s|
  {
    if |s| >= target then s else PadStart([fill] + s, target, fill)
  }

  /** String(n).padStart(2, '0'), used for the hour and minute pickers: at
      least two characters, all of them digits. */
  function PadTwo(n: nat): (r: string)
    ensures 2 <= |r| && AllDigits(r)
  {
    var d := Decimal(n);
    var r := PadStart(d, 2, '0');
    assert forall i :: |r| - |d| <= i < |r| ==> r[i] == d[i - (|r| - |d|)];
    r
  }

  /** Below 100 the padded numeral has exactly two digits; a one-digit
      number gets one leading zero. */
  lemma PadTwoShape(n: nat)
    requires n < 100
    ensures |PadTwo(n)| == 2 && AllDigits(PadTwo(n))
    ensures n < 10 ==> PadTwo(n) == ['0', DigitChar(n)]
  {
    var d := Decimal(n);
    if n >= 10 {
      assert |Decimal(n / 10)| == 1;
      assert |d| == 2;
    } else {
      assert PadTwo(n) == PadStart(['0'] + d, 2, '0');
    }
  }

  /** The longest prefix of `s` made of decimal digits. */
  function DigitPrefix(s: string): (r: string)
    ensures |r| <= |s| && r == s[..|r|] && AllDigits(r)
    ensures |r| < |s| ==> !IsDigit(s[|r|])
  {
    if s != [] && IsDigit(s[0]) then [s[0]] + DigitPrefix(s[1..]) else []
  }

  /** parseInt(s, 10): skip leading white space, then read the number.
      A number is found only where the input has a digit, and one that
      starts with a digit is not negative. */
  function ParseInt(s: string): (r: Option<int>)
    ensures r.Some? ==> exists i :: 0 <= i < |s| && IsDigit(s[i])
    ensures TrimStart(s) != [] && IsDigit(TrimStart(s)[0]) ==> r.Some? && r.value >= 0
  {
    var t := TrimStart(s);
    var r := ParseTrimmed(t);
    assert r.Some? ==> IsDigit(s[|s| - |t| + SignLength(t)]);
    r
  }

  /** The length of the optional sign in front of the digits. */
  function SignLength(t: string): (n: nat)
    ensures n <= 1 && n <= |t|
  {
    if t != [] && (t[0] == '-' || t[0] == '+') then 1 else 0
  }

  /** The number at the very front of `t`: an optional sign, then the
      longest run of decimal digits; no digit at all gives NaN, written None. */
  function ParseTrimmed(t: string): (r: Option<int>)
    ensures r.Some? ==> SignLength(t) < |t| && IsDigit(t[SignLength(t)])
  {
    var negative := t != [] && t[0] == '-';
    var ds := DigitPrefix(t[SignLength(t)..]);
    var magnitude: int := DigitsValue(ds);
    if ds == [] then None else Some(if negative then -magnitude else magnitude)
  }

  /** parseInt reads back the value of any non-empty digit string. */
  lemma ParseDigits(ds: string)
    requires ds != [] && AllDigits(ds)
    ensures ParseInt(ds) == Some(DigitsValue(ds))
  {
    ParseStopsAtNonDigit(ds, []);
    assert ds + [] == ds;
  }

  /** parseInt skips white space in front of the number. */
  lemma {:induction false} ParseSkipsWhiteSpace(w: string, s: string)
    requires forall i :: 0 <= i < |w| ==> IsWhiteSpace(w[i])
    ensures ParseInt(w + s) == ParseInt(s)
  {
    TrimStartSkips(w, s);
    assert ParseInt(w + s) == ParseTrimmed(TrimStart(s));
  }

  lemma {:induction false} TrimStartSkips(w: string, s: string)
    requires forall i :: 0 <= i < |w| ==> IsWhiteSpace(w[i])
    ensures TrimStart(w + s) == TrimStart(s)
  {
    if w == [] {
      assert w + s == s;
    } else {
      assert (w + s)[0] == w[0] && (w + s)[1..] == w[1..] + s;
      TrimStartSkips(w[1..], s);
    }
  }

  /** parseInt stops at the first character that is not a digit and reads
      the digits before it. */
  lemma ParseStopsAtNonDigit(ds: string, rest: string)
    requires ds != [] && AllDigits(ds)
    requires rest == [] || !IsDigit(rest[0])
    ensures ParseInt(ds + rest) == Some(DigitsValue(ds))
  {
    var s := ds + rest;
    assert IsDigit(s[0]) && !IsWhiteSpace(s[0]);
    assert TrimStart(s) == s;
    var p := DigitPrefix(s);
    DigitPrefixOf(ds, rest);
    assert p == ds;
  }

  lemma {:induction false} DigitPrefixOf(ds: string, rest: string)
    requires AllDigits(ds)
    requires rest == [] || !IsDigit(rest[0])
    ensures DigitPrefix(ds + rest) == ds
  {
    if ds == [] {
      assert ds + rest == rest;
    } else {
      assert (ds + rest)[0] == ds[0] && (ds + rest)[1..] == ds[1..] + rest;
      DigitPrefixOf(ds[1..], rest);
    }
  }

  /** A sign in front of the digits: `-` negates the value they read as,
      `+` leaves it as it is. */
  lemma ParseSigned(ds: string, rest: string)
    requires ds != [] && AllDigits(ds)
    requires rest == [] || !IsDigit(rest[0])
    ensures ParseInt("-" + ds + rest) == Some(-(DigitsValue(ds) as int))
    ensures ParseInt("+" + ds + rest) == Some(DigitsValue(ds) as int)
  {
    var minus, plus := "-" + ds + rest, "+" + ds + rest;
    assert TrimStart(minus) == minus;
    assert TrimStart(plus) == plus;
    ParseTrimmedSigned('-', ds, rest);
    ParseTrimmedSigned('+', ds, rest);
  }

  lemma ParseTrimmedSigned(sign: char, ds: string, rest: string)
    requires sign == '-' || sign == '+'
    requires ds != [] && AllDigits(ds)
    requires rest == [] || !IsDigit(rest[0])
    ensures var r := ParseTrimmed([sign] + ds + rest);
            r.Some? && r.value == if sign == '-' then -(DigitsValue(ds) as int) else DigitsValue(ds)
  {
    var t := [sign] + ds + rest;
    assert SignLength(t) == 1 && t[1..] == ds + rest;
    DigitPrefixOf(ds, rest);
  }

  /** A string that starts with neither white space, a sign nor a digit
      reads as NaN. */
  lemma ParseNoNumber(s: string)
    requires s == [] || (!IsWhiteSpace(s[0]) && !IsDigit(s[0]) && s[0] != '-' && s[0] != '+')
    ensures ParseInt(s).None?
  {
  }

  /** Padding a number to two digits and parsing it back gives the number:
      the pickers' option values are read back exactly. */
  lemma ParsePadTwo(n: nat)
    ensures ParseInt(PadTwo(n)) == Some(n)
  {
    var d := Decimal(n);
    DecimalValue(n);
    if |d| < 2 {
      assert PadTwo(n) == "0" + d;
      LeadingZeroValue(d);
    } else {
      assert PadTwo(n) == d;
    }
    ParseDigits(PadTwo(n));
  }
}
