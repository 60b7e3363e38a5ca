/**
 * The JavaScript string operations the scraper relies on, over `string` (`seq<char>`):
 * falsy-or on strings, `String.prototype.trim`, `startsWith`, `split` on a one-character
 * separator and `filter(Boolean)`.
 */
module JsString {
  import opened Wrappers

  /** `a || b` for a string `a`: the empty string is the only falsy string ("0" is truthy). */
  function Or(a: string, b: string): string
  {
    if a != "" then a else b
  }

  /** `x || ""` where `x` is an attribute value that may be `null` or `undefined`. */
  function OrEmpty(x: Option<string>): string
  {
    match x
    case Some(s) => s
    case None => ""
  }

  /**
   * `el?.textContent?.trim() || fallback`: the trimmed text when the element is there and has
   * more than whitespace in it, the fallback otherwise.
   */
  function TrimmedOr(text: Option<string>, fallback: string): (r: string)
    ensures r == fallback || (text.Some? && r == Trim(text.value) && r != "" && NoOuterWhitespace(r))
  {
    Or(Trim(OrEmpty(text)), fallback)
  }

  lemma TrimmedOrCases(text: Option<string>, fallback: string)
    ensures text.Some? && !AllWhitespace(text.value) ==>
              TrimmedOr(text, fallback) == Trim(text.value) != ""
    ensures text.None? || AllWhitespace(text.value) ==> TrimmedOr(text, fallback) == fallback
  {
  }

  /** `el?.getAttribute(name) || fallback`: the raw value unless it is missing or empty. */
  function AttributeOr(value: Option<string>, fallback: string): (r: string)
    ensures value.Some? && value.value != "" ==> r == value.value
    ensures value.None? || value.value == "" ==> r == fallback
  {
    Or(OrEmpty(value), fallback)
  }

  /** `s.startsWith(prefix)`. */
  predicate StartsWith(s: string, prefix: string)
  {
    |prefix| <= |s| && s[..|prefix|] == prefix
  }

  /**
   * The code points `trim` removes: ECMAScript's WhiteSpace and LineTerminator productions, that
   * is TAB, LF, VT, FF, CR, SPACE, NBSP, U+1680, U+2000 to U+200A, LS, PS, U+202F, U+205F,
   * U+3000 and the byte order mark.
   */
  predicate IsWhitespace(c: char)
  {
    || ('\t' <= c <= '\r') || c == ' ' || c == '\U{A0}' || c == '\U{1680}'
    || ('\U{2000}' <= c <= '\U{200A}') || c == '\U{2028}' || c == '\U{2029}'
    || c == '\U{202F}' || c == '\U{205F}' || c == '\U{3000}' || c == '\U{FEFF}'
  }

  predicate AllWhitespace(s: string)
  {
    forall i | 0 <= i < |s| :: IsWhitespace(s[i])
  }

  /** What `trim` leaves: nothing to remove at either end. */
  predicate NoOuterWhitespace(s: string)
  {
    s == "" || (!IsWhitespace(s[0]) && !IsWhitespace(s[|s| - 1]))
  }

  /** How many whitespace characters `s` starts with. */
  function LeadingWhitespace(s: string): (n: nat)
    ensures n <= |s|
    ensures forall i | 0 <= i < n :: IsWhitespace(s[i])
    ensures n == |s| || !IsWhitespace(s[n])
  {
    if s != "" && IsWhitespace(s[0]) then 1 + LeadingWhitespace(s[1..]) else 0
  }

  /** Where the whitespace that `s` ends with begins. */
  function TrailingWhitespace(s: string): (n: nat)
    ensures n <= |s|
    ensures forall i | n <= i < |s| :: IsWhitespace(s[i])
    ensures n == 0 || !IsWhitespace(s[n - 1])
  {
    if s != "" && IsWhitespace(s[|s| - 1]) then TrailingWhitespace(s[..|s| - 1]) else |s|
  }

  /** Drops the leading whitespace. */
  function TrimStart(s: string): string
  {
    s[LeadingWhitespace(s)..]
  }

  /** Drops the trailing whitespace. */
  function TrimEnd(s: string): string
  {
    s[..TrailingWhitespace(s)]
  }

  /**
   * `s.trim()`: nothing to remove is left at either end, and the result is empty exactly when
   * `s` is all whitespace.
   */
  function Trim(s: string): (r: string)
    ensures NoOuterWhitespace(r)
    ensures r == "" <==> AllWhitespace(s)
  {
    TrimBounds(s);
    TrimEnd(TrimStart(s))
  }

  lemma TrimBounds(s: string)
    ensures var r := TrimEnd(TrimStart(s));
            && NoOuterWhitespace(r)
            && (r == "" <==> AllWhitespace(s))
  {
    var lo := LeadingWhitespace(s);
    var t := TrimStart(s);
    var hi := TrailingWhitespace(t);
    var r := TrimEnd(t);
    if r != "" {
      assert r[0] == s[lo];
      assert r[|r| - 1] == t[hi - 1];
    }
  }

  /**
   * What `trim` keeps is the middle of `s`: it starts right after the leading whitespace, and
   * only whitespace follows it.
   */
  lemma TrimIsMiddle(s: string)
    ensures var lo, r := LeadingWhitespace(s), Trim(s);
      && lo + |r| <= |s|
      && s[lo..lo + |r|] == r
      && AllWhitespace(s[..lo])
      && AllWhitespace(s[lo + |r|..])
  {
    var lo := LeadingWhitespace(s);
    var t := TrimStart(s);
    var hi := TrailingWhitespace(t);
    assert Trim(s) == t[..hi];
    SliceOfSlice(s, lo, hi);
  }

  lemma SliceOfSlice(s: string, lo: nat, hi: nat)
    requires lo <= |s| && hi <= |s| - lo
    requires forall i | hi <= i < |s| - lo :: IsWhitespace(s[lo..][i])
    ensures s[lo..lo + hi] == s[lo..][..hi]
    ensures AllWhitespace(s[lo + hi..])
  {
    var m := lo + hi;
    forall i | 0 <= i < |s| - m ensures IsWhitespace(s[m..][i]) {
      assert s[m..][i] == s[lo..][hi + i];
    }
  }

  /** Trimming text that has no outer whitespace leaves it as it is. */
  lemma TrimKeeps(s: string)
    requires NoOuterWhitespace(s)
    ensures Trim(s) == s
  {
    assert LeadingWhitespace(s) == 0;
    assert s[0..] == s;
    assert TrailingWhitespace(s) == |s|;
  }

  /** `trim` is idempotent. */
  lemma TrimIdempotent(s: string)
    ensures Trim(Trim(s)) == Trim(s)
  {
    TrimKeeps(Trim(s));
  }

  /** `s.split(sep)`: the pieces between occurrences of `sep`, empty pieces included. */
  function Split(s: string, sep: char): (parts: seq<string>)
    ensures |parts| >= 1
    ensures forall i | 0 <= i < |parts| :: sep !in parts[i]
  {
    if s == "" then [""]
    else
      var rest := Split(s[1..], sep);
      if s[0] == sep then [""] + rest
      else [[s[0]] + rest[0]] + rest[1..]
  }

  /** `parts.join(sep)`. */
  function Join(parts: seq<string>, sep: char): string
  {
    if parts == [] then ""
    else if |parts| == 1 then parts[0]
    else parts[0] + [sep] + Join(parts[1..], sep)
  }

  lemma {:induction false} JoinConsFirst(c: char, p: string, tail: seq<string>, sep: char)
    ensures Join([[c] + p] + tail, sep) == [c] + Join([p] + tail, sep)
  {
    if tail != [] {
      assert ([[c] + p] + tail)[1..] == tail;
      assert ([p] + tail)[1..] == tail;
    }
  }

  /** Splitting and joining back with the same separator gives the original string. */
  lemma {:induction false} JoinSplit(s: string, sep: char)
    ensures Join(Split(s, sep), sep) == s
  {
    if s != "" {
      var rest := Split(s[1..], sep);
      JoinSplit(s[1..], sep);
      if s[0] == sep {
        assert ([""] + rest)[1..] == rest;
        assert Join(Split(s, sep), sep) == [sep] + Join(rest, sep);
      } else {
        JoinConsFirst(s[0], rest[0], rest[1..], sep);
        assert [rest[0]] + rest[1..] == rest;
      }
      assert [s[0]] + s[1..] == s;
    }
  }

  /** `parts.filter(Boolean)`: the non-empty pieces, in their order. */
  function NonEmpty(parts: seq<string>): (r: seq<string>)
    ensures |r| <= |parts|
    ensures forall i | 0 <= i < |r| :: r[i] != ""
    ensures forall x :: x in r <==> x in parts && x != ""
  {
    if parts == [] then []
    else if parts[0] == "" then NonEmpty(parts[1..])
    else [parts[0]] + NonEmpty(parts[1..])
  }

  /** `filter(Boolean)` on a concatenation filters each part and keeps them in order. */
  lemma {:induction false} NonEmptyConcat(a: seq<string>, b: seq<string>)
    ensures NonEmpty(a + b) == NonEmpty(a) + NonEmpty(b)
  {
    if a == [] {
      assert a + b == b;
    } else {
      assert (a + b)[0] == a[0] && (a + b)[1..] == a[1..] + b;
      NonEmptyConcat(a[1..], b);
    }
  }

  /** A single piece is kept exactly when it is non-empty. */
  lemma NonEmptySingle(x: string)
    ensures NonEmpty([x]) == (if x == "" then [] else [x])
  {
    assert [x][1..] == [];
  }

  /** The pieces laid end to end. */
  function Concat(parts: seq<string>): string
  {
    if parts == [] then "" else parts[0] + Concat(parts[1..])
  }

  /** `s` with every occurrence of `c` removed. */
  function Without(s: string, c: char): string
  {
    if s == "" then "" else (if s[0] == c then "" else [s[0]]) + Without(s[1..], c)
  }

  /** Dropping the empty pieces does not change what the pieces spell out. */
  lemma {:induction false} ConcatNonEmpty(parts: seq<string>)
    ensures Concat(NonEmpty(parts)) == Concat(parts)
  {
    if parts != [] {
      ConcatNonEmpty(parts[1..]);
      if parts[0] != "" {
        assert ([parts[0]] + NonEmpty(parts[1..]))[1..] == NonEmpty(parts[1..]);
      }
    }
  }

  /** The pieces of `split(sep)` spell out the string with every separator removed. */
  lemma {:induction false} ConcatSplit(s: string, sep: char)
    ensures Concat(Split(s, sep)) == Without(s, sep)
  {
    if s != "" {
      var rest := Split(s[1..], sep);
      ConcatSplit(s[1..], sep);
      if s[0] == sep {
        assert ([""] + rest)[1..] == rest;
      } else {
        var parts := [[s[0]] + rest[0]] + rest[1..];
        assert parts[1..] == rest[1..];
        assert Concat(rest) == rest[0] + Concat(rest[1..]);
        assert Concat(parts) == [s[0]] + rest[0] + Concat(rest[1..]);
      }
    }
  }
}
