/**
 * ECMAScript's `encodeURIComponent`: every character outside a small unescaped set is written
 * as the percent-encoded bytes (section 2.1 of RFC 3986) of its UTF-8 form (RFC 3629), with
 * upper-case hexadecimal digits. `Decode` is the inverse used to state that nothing is lost.
 */
module UriComponent {
  import opened Wrappers

  type Byte = x: int | 0 <= x < 256

  /** The characters `encodeURIComponent` keeps: letters, digits and `- _ . ! ~ * ' ( )`. */
  predicate IsUnescaped(c: char)
  {
    || ('A' <= c <= 'Z') || ('a' <= c <= 'z') || ('0' <= c <= '9')
    || c == '-' || c == '_' || c == '.' || c == '!' || c == '~' || c == '*' || c == '\'' || c == '(' || c == ')'
  }

  /** The UTF-8 bytes of one Unicode scalar value. */
  function Utf8(c: char): (bs: seq<Byte>)
    ensures 1 <= |bs| <= 4
  {
    var v := c as int;
    if v < 0x80 then [v]
    else if v < 0x800 then [0xC0 + v / 0x40, 0x80 + v % 0x40]
    else if v < 0x10000 then [0xE0 + v / 0x1000, 0x80 + (v / 0x40) % 0x40, 0x80 + v % 0x40]
    else [0xF0 + v / 0x40000, 0x80 + (v / 0x1000) % 0x40, 0x80 + (v / 0x40) % 0x40, 0x80 + v % 0x40]
  }

  function Utf8String(s: string): seq<Byte>
  {
    if s == "" then [] else Utf8(s[0]) + Utf8String(s[1..])
  }

  function HexDigit(n: nat): (c: char)
    requires n < 16
    ensures IsUnescaped(c)
  {
    if n < 10 then ('0' as int + n) as char else ('A' as int + n - 10) as char
  }

  /** Each byte as "%" and two upper-case hexadecimal digits. */
  function PercentEncode(bs: seq<Byte>): (r: string)
    ensures |r| == 3 * |bs|
    ensures forall i | 0 <= i < |r| :: r[i] == '%' || IsUnescaped(r[i])
  {
    if bs == [] then "" else ['%', HexDigit(bs[0] / 16), HexDigit(bs[0] % 16)] + PercentEncode(bs[1..])
  }

  function EncodeChar(c: char): (r: string)
    ensures r != ""
    ensures forall i | 0 <= i < |r| :: r[i] == '%' || IsUnescaped(r[i])
  {
    if IsUnescaped(c) then [c] else PercentEncode(Utf8(c))
  }

  /**
   * `encodeURIComponent(s)`. Only unescaped characters and `%` occur in the result, so none of
   * `/ ? # & = :` can end the component early.
   */
  function Encode(s: string): (r: string)
    ensures |r| >= |s|
    ensures forall i | 0 <= i < |r| :: r[i] == '%' || IsUnescaped(r[i])
  {
    if s == "" then "" else EncodeChar(s[0]) + Encode(s[1..])
  }

  /** Text made only of unescaped characters is its own encoding. */
  lemma {:induction false} EncodeKeepsUnescaped(s: string)
    requires forall i | 0 <= i < |s| :: IsUnescaped(s[i])
    ensures Encode(s) == s
  {
    if s != "" {
      EncodeKeepsUnescaped(s[1..]);
      assert [s[0]] + s[1..] == s;
    }
  }

  function HexValue(c: char): (v: Option<nat>)
    ensures v.Some? ==> v.value < 16
  {
    if '0' <= c <= '9' then Some(c as nat - '0' as nat)
    else if 'A' <= c <= 'F' then Some(c as nat - 'A' as nat + 10)
    else if 'a' <= c <= 'f' then Some(c as nat - 'a' as nat + 10)
    else None
  }

  /** Percent-decoding: "%XY" becomes the byte XY and any other ASCII character its own code. */
  function PercentDecode(s: string): Option<seq<Byte>>
  {
    if s == "" then Some([])
    else if s[0] == '%' then
      if |s| < 3 || HexValue(s[1]).None? || HexValue(s[2]).None? then None
      else
        match PercentDecode(s[3..])
        case Some(rest) => Some([HexValue(s[1]).value * 16 + HexValue(s[2]).value] + rest)
        case None => None
    else if s[0] as int < 0x80 then
      match PercentDecode(s[1..])
      case Some(rest) => Some([s[0] as int] + rest)
      case None => None
    else None
  }

  /** How many bytes the UTF-8 sequence that starts with `b` has, or 0 when `b` cannot start one. */
  function SequenceLength(b: Byte): nat
  {
    if b < 0x80 then 1
    else if 0xC2 <= b < 0xE0 then 2
    else if 0xE0 <= b < 0xF0 then 3
    else if 0xF0 <= b < 0xF5 then 4
    else 0
  }

  predicate IsContinuation(b: Byte)
  {
    0x80 <= b < 0xC0
  }

  function CodePoint(bs: seq<Byte>): int
    requires 1 <= |bs| <= 4
  {
    var b0: int := bs[0];
    if |bs| == 1 then b0
    else
      var b1: int := bs[1];
      if |bs| == 2 then (b0 - 0xC0) * 0x40 + (b1 - 0x80)
      else
        var b2: int := bs[2];
        if |bs| == 3 then (b0 - 0xE0) * 0x1000 + (b1 - 0x80) * 0x40 + (b2 - 0x80)
        else (b0 - 0xF0) * 0x40000 + (b1 - 0x80) * 0x1000 + (b2 - 0x80) * 0x40 + (bs[3] as int - 0x80)
  }

  /** The smallest code point that needs `n` bytes; anything smaller is an overlong form. */
  function MinCodePoint(n: nat): int
  {
    if n <= 1 then 0 else if n == 2 then 0x80 else if n == 3 then 0x800 else 0x10000
  }

  predicate IsScalar(v: int)
  {
    (0 <= v < 0xD800) || (0xE000 <= v < 0x110000)
  }

  /** Strict UTF-8 decoding: no overlong forms, no surrogates, nothing past U+10FFFF. */
  function Utf8Decode(bs: seq<Byte>): Option<string>
    decreases |bs|
  {
    if bs == [] then Some("")
    else
      var n := SequenceLength(bs[0]);
      if n == 0 || |bs| < n || exists k | 1 <= k < n :: !IsContinuation(bs[k]) then None
      else
        var v := CodePoint(bs[..n]);
        if !IsScalar(v) || v < MinCodePoint(n) then None
        else
          match Utf8Decode(bs[n..])
          case Some(rest) => Some([v as char] + rest)
          case None => None
  }

  /** `decodeURIComponent` on the strings `Encode` produces. */
  function Decode(s: string): Option<string>
  {
    match PercentDecode(s)
    case Some(bs) => Utf8Decode(bs)
    case None => None
  }

  /** The bytes of one character start a sequence of their own length and decode back to it. */
  lemma Utf8Char(c: char)
    ensures var bs := Utf8(c);
            && SequenceLength(bs[0]) == |bs|
            && (forall k | 1 <= k < |bs| :: IsContinuation(bs[k]))
            && CodePoint(bs) == c as int
            && MinCodePoint(|bs|) <= c as int
  {
    var v := c as int;
    if v < 0x80 {
    } else if v < 0x800 {
      TwoByteForm(v);
    } else if v < 0x10000 {
      ThreeByteForm(v);
    } else {
      FourByteForm(v);
    }
  }

  lemma TwoByteForm(v: int)
    requires 0x80 <= v < 0x800
    ensures 0xC2 <= 0xC0 + v / 0x40 < 0xE0
    ensures (0xC0 + v / 0x40 - 0xC0) * 0x40 + (0x80 + v % 0x40 - 0x80) == v
  {
    assert v == (v / 0x40) * 0x40 + v % 0x40;
  }

  lemma ThreeByteForm(v: int)
    requires 0x800 <= v < 0x10000
    ensures 0xE0 <= 0xE0 + v / 0x1000 < 0xF0
    ensures v / 0x1000 * 0x1000 + ((v / 0x40) % 0x40) * 0x40 + v % 0x40 == v
  {
    assert v / 0x40 == (v / 0x1000) * 0x40 + (v / 0x40) % 0x40;
    assert v == (v / 0x40) * 0x40 + v % 0x40;
  }

  lemma FourByteForm(v: int)
    requires 0x10000 <= v < 0x110000
    ensures 0xF0 <= 0xF0 + v / 0x40000 < 0xF5
    ensures v / 0x40000 * 0x40000 + ((v / 0x1000) % 0x40) * 0x1000 + ((v / 0x40) % 0x40) * 0x40 + v % 0x40 == v
  {
    assert v / 0x1000 == (v / 0x40000) * 0x40 + (v / 0x1000) % 0x40;
    assert v / 0x40 == (v / 0x1000) * 0x40 + (v / 0x40) % 0x40;
    assert v == (v / 0x40) * 0x40 + v % 0x40;
  }

  lemma Utf8DecodeCons(c: char, rest: seq<Byte>)
    ensures Utf8Decode(Utf8(c) + rest) ==
              match Utf8Decode(rest)
              case Some(t) => Some([c] + t)
              case None => None
  {
    var bs := Utf8(c);
    var all := bs + rest;
    Utf8Char(c);
    assert all[0] == bs[0];
    assert all[..|bs|] == bs;
    assert all[|bs|..] == rest;
    assert forall k | 1 <= k < |bs| :: all[k] == bs[k];
  }

  /** UTF-8 decoding undoes UTF-8 encoding. */
  lemma {:induction false} Utf8RoundTrip(s: string)
    ensures Utf8Decode(Utf8String(s)) == Some(s)
  {
    if s != "" {
      Utf8RoundTrip(s[1..]);
      Utf8DecodeCons(s[0], Utf8String(s[1..]));
      assert [s[0]] + s[1..] == s;
    }
  }

  /** The two hexadecimal digits of a byte read back as that byte. */
  lemma HexDigitsOf(b: Byte)
    ensures HexValue(HexDigit(b / 16)) == Some(b / 16)
    ensures HexValue(HexDigit(b % 16)) == Some(b % 16)
    ensures (b / 16) * 16 + b % 16 == b
  {
  }

  /** `bs` in front of a decoded byte sequence; a failure stays a failure. */
  function Prepend(bs: seq<Byte>, o: Option<seq<Byte>>): Option<seq<Byte>>
  {
    match o
    case Some(t) => Some(bs + t)
    case None => None
  }

  lemma PrependTwice(b: Byte, bs: seq<Byte>, o: Option<seq<Byte>>)
    requires bs != [] && b == bs[0]
    ensures Prepend([b], Prepend(bs[1..], o)) == Prepend(bs, o)
  {
    if o.Some? {
      assert [b] + (bs[1..] + o.value) == bs + o.value;
    }
  }

  /** A "%XY" triple in front of `tail` decodes to the byte XY in front of what `tail` decodes to. */
  lemma PercentDecodeTriple(b: Byte, tail: string)
    ensures PercentDecode(['%', HexDigit(b / 16), HexDigit(b % 16)] + tail) == Prepend([b], PercentDecode(tail))
  {
    var s := ['%', HexDigit(b / 16), HexDigit(b % 16)] + tail;
    HexDigitsOf(b);
    assert s[3..] == tail;
  }

  lemma PercentEncodeCons(bs: seq<Byte>, rest: string)
    requires bs != []
    ensures PercentEncode(bs) + rest ==
              ['%', HexDigit(bs[0] / 16), HexDigit(bs[0] % 16)] + (PercentEncode(bs[1..]) + rest)
  {
  }

  lemma {:induction false} PercentDecodeEncoded(bs: seq<Byte>, rest: string)
    ensures PercentDecode(PercentEncode(bs) + rest) == Prepend(bs, PercentDecode(rest))
  {
    if bs != [] {
      var b := bs[0];
      var tail := PercentEncode(bs[1..]) + rest;
      PercentEncodeCons(bs, rest);
      PercentDecodeTriple(b, tail);
      PercentDecodeEncoded(bs[1..], rest);
      PrependTwice(b, bs, PercentDecode(rest));
    } else {
      assert PercentEncode(bs) + rest == rest;
      assert Prepend([], PercentDecode(rest)) == PercentDecode(rest) by {
        if PercentDecode(rest).Some? {
          assert [] + PercentDecode(rest).value == PercentDecode(rest).value;
        }
      }
    }
  }

  lemma PercentDecodeEncodedChar(c: char, rest: string)
    ensures PercentDecode(EncodeChar(c) + rest) == Prepend(Utf8(c), PercentDecode(rest))
  {
    if IsUnescaped(c) {
      assert ([c] + rest)[1..] == rest;
    } else {
      PercentDecodeEncoded(Utf8(c), rest);
    }
  }

  lemma {:induction false} PercentDecodeEncode(s: string)
    ensures PercentDecode(Encode(s)) == Some(Utf8String(s))
  {
    if s != "" {
      PercentDecodeEncode(s[1..]);
      PercentDecodeEncodedChar(s[0], Encode(s[1..]));
    }
  }

  /** Nothing is lost: decoding what `encodeURIComponent` produced gives the original string. */
  lemma DecodeEncode(s: string)
    ensures Decode(Encode(s)) == Some(s)
  {
    PercentDecodeEncode(s);
    Utf8RoundTrip(s);
  }
}
