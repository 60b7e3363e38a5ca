/**
 * ECMAScript's global `parseInt(string)` called without a radix, on unbounded integers: leading
 * whitespace is skipped, one `+` or `-` sign is read, a "0x"/"0X" prefix switches to base 16,
 * and the longest run of digits that follows is the value. No digits at all gives NaN, here `None`.
 */
module JsNumber {
  import opened Wrappers
  import opened JsString

  /** The value of `c` as a digit of a base up to 36, or 36 when `c` is no such digit. */
  function DigitValue(c: char): nat
  {
    if '0' <= c <= '9' then c as nat - '0' as nat
    else if 'a' <= c <= 'z' then c as nat - 'a' as nat + 10
    else if 'A' <= c <= 'Z' then c as nat - 'A' as nat + 10
    else 36
  }

  predicate IsDigitIn(c: char, radix: nat)
  {
    DigitValue(c) < radix
  }

  /** `d` is a non-empty run of digits of base `radix`. */
  predicate IsDigitRun(d: string, radix: nat)
  {
    d != "" && IsDigitIn(d[0], radix) && (|d| == 1 || IsDigitRun(d[1..], radix))
  }

  /** The longest prefix of `s` made of digits of base `radix`. */
  function DigitPrefix(s: string, radix: nat): (d: string)
    ensures |d| <= |s| && d == s[..|d|]
    ensures forall i | 0 <= i < |d| :: IsDigitIn(d[i], radix)
    ensures |d| == |s| || !IsDigitIn(s[|d|], radix)
  {
    if s != "" && IsDigitIn(s[0], radix) then [s[0]] + DigitPrefix(s[1..], radix) else ""
  }

  /** The number the digit string `d` denotes in base `radix`, most significant digit first. */
  function DigitsValue(d: string, radix: nat): nat
  {
    if d == "" then 0 else DigitsValue(d[..|d| - 1], radix) * radix + DigitValue(d[|d| - 1])
  }

  /** The "0x" or "0X" that makes `parseInt` read base 16. */
  predicate HasHexPrefix(u: string)
  {
    |u| >= 2 && u[0] == '0' && (u[1] == 'x' || u[1] == 'X')
  }

  /**
   * `parseInt(s)`; `None` stands for NaN. A number is read only when the first character after
   * the whitespace is a sign or a decimal digit, and it is negative only after a `-`.
   */
  function ParseInt(s: string): (r: Option<int>)
    ensures r.Some? ==> var t := TrimStart(s); t != "" && (t[0] == '+' || t[0] == '-' || IsDigitIn(t[0], 10))
    ensures r.Some? && r.value < 0 ==> TrimStart(s)[0] == '-'
  {
    ParseSigned(TrimStart(s))
  }

  /** What `parseInt` reads once leading whitespace is gone: an optional sign, then the digits. */
  function ParseSigned(t: string): Option<int>
  {
    if t != "" && t[0] == '-' then
      match ParseDigits(t[1..])
      case Some(v) => Some(-(v as int))
      case None => None
    else if t != "" && t[0] == '+' then ParseDigits(t[1..])
    else ParseDigits(t)
  }

  /** The unsigned part: base 16 after "0x"/"0X", base 10 otherwise; NaN when no digit follows. */
  function ParseDigits(u: string): (r: Option<nat>)
    ensures r.Some? ==> u != "" && IsDigitIn(u[0], 10)
  {
    var radix := if HasHexPrefix(u) then 16 else 10;
    var digits := DigitPrefix(if HasHexPrefix(u) then u[2..] else u, radix);
    if digits == "" then None else Some(DigitsValue(digits, radix))
  }

  function DigitChar(d: nat): (c: char)
    requires d < 10
    ensures '0' <= c <= '9' && DigitValue(c) == d
  {
    ('0' as int + d) as char
  }

  /** The decimal numeral of `n`, without leading zeros (what `String(n)` gives). */
  function NatToString(n: nat): (s: string)
    ensures s != ""
    ensures forall i | 0 <= i < |s| :: '0' <= s[i] <= '9'
    ensures s[0] == '0' ==> n == 0 && s == "0"
  {
    if n < 10 then [DigitChar(n)] else NatToString(n / 10) + [DigitChar(n % 10)]
  }

  function IntToString(n: int): string
  {
    if n < 0 then "-" + NatToString(-n) else NatToString(n)
  }

  lemma {:induction false} NatToStringValue(n: nat)
    ensures DigitsValue(NatToString(n), 10) == n
  {
    if n >= 10 {
      var s := NatToString(n / 10) + [DigitChar(n % 10)];
      assert s[..|s| - 1] == NatToString(n / 10);
      NatToStringValue(n / 10);
    }
  }

  lemma {:induction false} DigitPrefixStopsAt(d: string, rest: string, radix: nat)
    requires forall i | 0 <= i < |d| :: IsDigitIn(d[i], radix)
    requires rest == "" || !IsDigitIn(rest[0], radix)
    ensures DigitPrefix(d + rest, radix) == d
  {
    if d != "" {
      assert (d + rest)[1..] == d[1..] + rest;
      DigitPrefixStopsAt(d[1..], rest, radix);
      assert [d[0]] + d[1..] == d;
    }
  }

  lemma ParseDigitsOfNumeral(m: nat, rest: string)
    requires rest == "" || DigitValue(rest[0]) >= 10
    requires m == 0 && rest != "" ==> rest[0] != 'x' && rest[0] != 'X'
    ensures ParseDigits(NatToString(m) + rest) == Some(m)
  {
    var d := NatToString(m);
    var u := d + rest;
    assert !HasHexPrefix(u);
    DigitPrefixStopsAt(d, rest, 10);
    NatToStringValue(m);
  }

  lemma TrimStartKeeps(s: string)
    requires s == "" || !IsWhitespace(s[0])
    ensures TrimStart(s) == s
  {
  }

  /**
   * `parseInt` reads back the decimal numeral of any integer, whatever follows it, as long as
   * the text after it cannot extend the digit run (and, after a lone "0", cannot make a "0x").
   */
  lemma ParseIntOfNumeral(n: int, rest: string)
    requires rest == "" || DigitValue(rest[0]) >= 10
    requires n == 0 && rest != "" ==> rest[0] != 'x' && rest[0] != 'X'
    ensures ParseInt(IntToString(n) + rest) == Some(n)
  {
    if n < 0 {
      var d := NatToString(-n);
      ParseDigitsOfNumeral(-n, rest);
      SignedNumeral(d, rest, -n);
      assert IntToString(n) == "-" + d;
    } else {
      ParseDigitsOfNumeral(n, rest);
      UnsignedNumeral(n, rest);
    }
  }

  lemma UnsignedNumeral(m: nat, rest: string)
    requires ParseDigits(NatToString(m) + rest) == Some(m)
    ensures ParseInt(NatToString(m) + rest) == Some(m)
  {
    var d := NatToString(m);
    var s := d + rest;
    assert s[0] == d[0];
    TrimStartKeeps(s);
  }

  lemma SignedNumeral(d: string, rest: string, m: nat)
    requires ParseDigits(d + rest) == Some(m)
    ensures ParseInt("-" + d + rest) == Some(-(m as int))
  {
    var s := "-" + d + rest;
    assert s[0] == '-' && s[1..] == d + rest;
    ParseIntKeeps(s);
  }

  /** Text that does not start with whitespace is parsed as it stands. */
  lemma ParseIntKeeps(s: string)
    requires s == "" || !IsWhitespace(s[0])
    ensures ParseInt(s) == ParseSigned(s)
  {
    TrimStartKeeps(s);
  }

  lemma {:induction false} TrimStartSkips(ws: string, s: string)
    requires AllWhitespace(ws)
    ensures TrimStart(ws + s) == TrimStart(s)
  {
    if ws != "" {
      assert (ws + s)[1..] == ws[1..] + s;
      TrimStartSkips(ws[1..], s);
    } else {
      assert ws + s == s;
    }
  }

  /** Whitespace in front of a numeral does not change what `parseInt` reads. */
  lemma ParseIntSkipsWhitespace(ws: string, s: string)
    requires AllWhitespace(ws)
    ensures ParseInt(ws + s) == ParseInt(s)
  {
    TrimStartSkips(ws, s);
  }

  /** Text that does not open with a sign or a digit (after whitespace) reads as NaN. */
  lemma ParseIntNaN(s: string)
    requires var t := TrimStart(s); t == "" || (t[0] != '+' && t[0] != '-' && DigitValue(t[0]) >= 10)
    ensures ParseInt(s) == None
  {
  }

  /**
   * The hexadecimal prefix: `parseInt` of "0x" or "0X", a run of hexadecimal digits `d` and text
   * that cannot extend the run is `d` read in base 16, so "0x1F" is 31 and "0x10" is 16.
   */
  lemma ParseIntHex(s: string, x: char, d: string, rest: string)
    requires x == 'x' || x == 'X'
    requires IsDigitRun(d, 16)
    requires rest == "" || !IsDigitIn(rest[0], 16)
    requires s == "0" + [x] + d + rest
    ensures ParseInt(s) == Some(DigitsValue(d, 16))
  {
    HexShape(s, x, d, rest);
    HexDigitsRead(s, d, rest);
    ParseIntKeeps(s);
  }

  /** A sign in front of such a hexadecimal numeral negates it: "-0x1F" is -31. */
  lemma ParseIntNegativeHex(s: string, x: char, d: string, rest: string)
    requires x == 'x' || x == 'X'
    requires IsDigitRun(d, 16)
    requires rest == "" || !IsDigitIn(rest[0], 16)
    requires s == "0" + [x] + d + rest
    ensures ParseInt("-" + s) == Some(-(DigitsValue(d, 16) as int))
  {
    HexShape(s, x, d, rest);
    HexDigitsRead(s, d, rest);
    NegatedDigits(s, DigitsValue(d, 16));
  }

  /** "0x" with no hexadecimal digit after it is NaN; it is not read as the number 0. */
  lemma ParseIntHexNaN(s: string, x: char, rest: string)
    requires x == 'x' || x == 'X'
    requires rest == "" || !IsDigitIn(rest[0], 16)
    requires s == "0" + [x] + rest
    ensures ParseInt(s) == None
  {
    assert HasHexPrefix(s) && s[2..] == rest;
    ParseIntKeeps(s);
  }

  lemma HexShape(s: string, x: char, d: string, rest: string)
    requires x == 'x' || x == 'X'
    requires s == "0" + [x] + d + rest
    ensures HasHexPrefix(s) && s[2..] == d + rest
  {
    DropPrefix("0" + [x], d, rest);
    assert s[0] == s[..2][0] && s[1] == s[..2][1];
  }

  lemma DropPrefix(p: string, d: string, rest: string)
    ensures |p + d + rest| >= |p| && (p + d + rest)[..|p|] == p
    ensures (p + d + rest)[|p|..] == d + rest
  {
  }

  /** A `-` in front of digits that read as `m` makes the text read as `-m`. */
  lemma NegatedDigits(u: string, m: nat)
    requires ParseDigits(u) == Some(m)
    ensures ParseInt("-" + u) == Some(-(m as int))
  {
    var s := "-" + u;
    assert s[0] == '-' && s[1..] == u;
    ParseIntKeeps(s);
  }

  /** After the prefix, the digit run `d` is read in base 16. */
  lemma HexDigitsRead(u: string, d: string, rest: string)
    requires HasHexPrefix(u) && u[2..] == d + rest
    requires IsDigitRun(d, 16)
    requires rest == "" || !IsDigitIn(rest[0], 16)
    ensures ParseDigits(u) == Some(DigitsValue(d, 16))
  {
    DigitRunDigits(d, 16);
    DigitPrefixStopsAt(d, rest, 16);
  }

  lemma {:induction false} DigitRunDigits(d: string, radix: nat)
    requires IsDigitRun(d, radix)
    ensures forall i | 0 <= i < |d| :: IsDigitIn(d[i], radix)
  {
    if |d| > 1 {
      DigitRunDigits(d[1..], radix);
      assert forall i | 1 <= i < |d| :: d[i] == d[1..][i - 1];
    }
  }
}
