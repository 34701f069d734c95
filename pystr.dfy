/**
 * The handful of Python `str` built-ins the script relies on, stated over
 * `string` (a sequence of Unicode scalar values, close to a Python 3 `str`,
 * which may also hold lone surrogates).
 */
module PyStr {

  /** The characters for which Python's `str.isspace()` holds; `str.strip()`
      without an argument removes exactly these from both ends. */
  const Whitespace: set<char> := {
    '\t', '\n', '\U{0B}', '\U{0C}', '\r', '\U{1C}', '\U{1D}', '\U{1E}', '\U{1F}', ' ',
    '\U{85}', '\U{A0}', '\U{1680}',
    '\U{2000}', '\U{2001}', '\U{2002}', '\U{2003}', '\U{2004}', '\U{2005}',
    '\U{2006}', '\U{2007}', '\U{2008}', '\U{2009}', '\U{200A}',
    '\U{2028}', '\U{2029}', '\U{202F}', '\U{205F}', '\U{3000}'
  }

  /** `s.lstrip(cs)`: drops the longest prefix made of characters in `cs`. */
  function TrimStart(s: string, cs: set<char>): (r: string)
    ensures |r| <= |s| && r == s[|s| - |r|..]
    ensures forall k :: 0 <= k < |s| - |r| ==> s[k] in cs
    ensures r != [] ==> r[0] !in cs
    decreases |s|
  {
    if s != [] && s[0] in cs then
      var r := TrimStart(s[1..], cs);
      assert s[1..][|s| - 1 - |r|..] == s[|s| - |r|..];
      r
    else s
  }

  /** `s.rstrip(cs)`: drops the longest suffix made of characters in `cs`. */
  function TrimEnd(s: string, cs: set<char>): (r: string)
    ensures |r| <= |s| && r == s[..|r|]
    ensures forall k :: |r| <= k < |s| ==> s[k] in cs
    ensures r != [] ==> r[|r| - 1] !in cs
    decreases |s|
  {
    if s != [] && s[|s| - 1] in cs then
      var r := TrimEnd(s[..|s| - 1], cs);
      assert s[..|s| - 1][..|r|] == s[..|r|];
      r
    else s
  }

  /** `s.strip(cs)`; `s.strip()` is `Strip(s, Whitespace)`. The result is empty
      exactly when every character of `s` is in `cs`, and otherwise neither
      starts nor ends with one of them. */
  function Strip(s: string, cs: set<char>): (r: string)
    ensures |r| <= |s|
    ensures r == [] <==> forall k :: 0 <= k < |s| ==> s[k] in cs
    ensures r != [] ==> r[0] !in cs && r[|r| - 1] !in cs
    decreases |s|
  {
    if s != [] && s[0] in cs then Strip(s[1..], cs)
    else if s != [] && s[|s| - 1] in cs then Strip(s[..|s| - 1], cs)
    else s
  }

  /** Stripping both ends is stripping the front and then the back, so what
      `strip` keeps is the middle of `s` between the removed prefix and suffix. */
  lemma {:induction false} StripIsTrimBoth(s: string, cs: set<char>)
    ensures Strip(s, cs) == TrimEnd(TrimStart(s, cs), cs)
    decreases |s|
  {
    if s != [] && s[0] in cs {
      StripIsTrimBoth(s[1..], cs);
    } else if s != [] && s[|s| - 1] in cs {
      var init := s[..|s| - 1];
      StripIsTrimBoth(init, cs);
      assert init[0] == s[0];
    }
  }

  /** Stripping twice is stripping once. */
  lemma StripIdempotent(s: string, cs: set<char>)
    ensures Strip(Strip(s, cs), cs) == Strip(s, cs)
  {
  }

  /** `s.replace(target, replacement)` for one-character arguments: every
      occurrence is replaced in place and everything else is kept. */
  function Replace(s: string, target: char, replacement: char): (r: string)
    ensures |r| == |s|
    ensures forall k :: 0 <= k < |s| ==> r[k] == (if s[k] == target then replacement else s[k])
  {
    if s == [] then []
    else [if s[0] == target then replacement else s[0]] + Replace(s[1..], target, replacement)
  }

  /** Sum of the lengths of `parts`. */
  function TotalLength(parts: seq<string>): nat
  {
    if parts == [] then 0 else |parts[0]| + TotalLength(parts[1..])
  }

  /** `sep.join(parts)`. Its length is that of all parts plus one separator
      between each neighbouring pair; with a non-empty separator it is empty
      exactly when there is no part or a single empty one. */
  function Join(parts: seq<string>, sep: string): (r: string)
    ensures parts == [] ==> r == []
    ensures parts != [] ==> |r| == TotalLength(parts) + (|parts| - 1) * |sep|
    ensures sep != [] ==> (r == [] <==> parts == [] || parts == [[]])
  {
    if parts == [] then []
    else if |parts| == 1 then parts[0]
    else parts[0] + sep + Join(parts[1..], sep)
  }

  /** The one-character strings of `s`, in order: what iterating over a `str` yields. */
  function Chars(s: string): seq<string>
  {
    seq(|s|, k requires 0 <= k < |s| => [s[k]])
  }

  function DigitChar(d: nat): char
    requires d < 10
  {
    "0123456789"[d]
  }

  predicate IsDigit(c: char)
  {
    '0' <= c <= '9'
  }

  /** Decimal digits of `n` without leading zeros, as Python's `str(n)`. */
  function NatToStr(n: nat): (r: string)
    ensures r != []
    ensures forall k :: 0 <= k < |r| ==> IsDigit(r[k])
    ensures |r| > 1 ==> r[0] != '0'
  {
    if n < 10 then [DigitChar(n)] else NatToStr(n / 10) + [DigitChar(n % 10)]
  }

  /** Python's `str(i)` for an `int`: a minus sign before the digits of a negative number. */
  function IntToStr(i: int): string
  {
    if i < 0 then "-" + NatToStr(-i) else NatToStr(i)
  }

  predicate IsDigits(s: string)
  {
    forall k :: 0 <= k < |s| ==> IsDigit(s[k])
  }

  /** The number a string of decimal digits denotes (Python's `int(s)` on such a string). */
  function DigitsValue(s: string): nat
    requires IsDigits(s)
  {
    if s == [] then 0
    else 10 * DigitsValue(s[..|s| - 1]) + DigitValue(s[|s| - 1])
  }

  function DigitValue(c: char): nat
    requires IsDigit(c)
  {
    (c as int) - ('0' as int)
  }

  /** Reading back the digits `str(n)` wrote gives `n` again. */
  lemma {:induction false} NatToStrRoundTrip(n: nat)
    ensures DigitsValue(NatToStr(n)) == n
  {
    var r := NatToStr(n);
    if n < 10 {
      assert r[..0] == [];
    } else {
      assert r[..|r| - 1] == NatToStr(n / 10);
      NatToStrRoundTrip(n / 10);
    }
  }

  /** The texts `str` writes for an `int`: digits, with a leading minus sign
      for a negative number. */
  predicate IsIntText(s: string)
  {
    (s != [] && IsDigits(s)) || (|s| > 1 && s[0] == '-' && IsDigits(s[1..]))
  }

  /** Python's `int(s)` on such a text. */
  function ParseInt(s: string): int
    requires IsIntText(s)
  {
    if s[0] == '-' then -(DigitsValue(s[1..]) as int) else DigitsValue(s)
  }

  /** `str` of any integer reads back as that integer; it starts with a minus
      sign exactly when the integer is negative. */
  lemma IntToStrRoundTrip(i: int)
    ensures IsIntText(IntToStr(i))
    ensures ParseInt(IntToStr(i)) == i
    ensures IntToStr(i)[0] == '-' <==> i < 0
  {
    if i < 0 {
      var digits := NatToStr(-i);
      var text := "-" + digits;
      assert IntToStr(i) == text;
      assert text[1..] == digits;
      NatToStrRoundTrip(-i);
      assert ParseInt(text) == -(DigitsValue(digits) as int);
    } else {
      var digits := NatToStr(i);
      assert IntToStr(i) == digits;
      assert IsDigit(digits[0]);
      NatToStrRoundTrip(i);
    }
  }

  function HexDigit(d: nat): char
    requires d < 16
  {
    "0123456789abcdef"[d]
  }

  /** The quote Python's `repr` puts around `s`: a double quote when `s` holds a
      single quote and no double quote, a single quote otherwise. */
  function ReprQuote(s: string): char
  {
    if '\'' in s && '"' !in s then '"' else '\''
  }

  /** How `repr` writes one ASCII character inside a string quoted with `q`. */
  function ReprChar(c: char, q: char): string
  {
    if c == '\\' then "\\\\"
    else if c == q then ['\\', q]
    else if c == '\t' then "\\t"
    else if c == '\n' then "\\n"
    else if c == '\r' then "\\r"
    else if c < ' ' || c == '\U{7F}' then
      var n := c as int;
      ['\\', 'x', HexDigit(n / 16), HexDigit(n % 16)]
    else [c]
  }

  function ReprBody(s: string, q: char): string
  {
    if s == [] then [] else ReprChar(s[0], q) + ReprBody(s[1..], q)
  }

  /** Python's `repr` of a string. */
  function Repr(s: string): string
  {
    var q := ReprQuote(s);
    [q] + ReprBody(s, q) + [q]
  }

  function ReprAll(xs: seq<string>): seq<string>
  {
    seq(|xs|, k requires 0 <= k < |xs| => Repr(xs[k]))
  }

  /** Python's `str` of a list of strings: `['a', 'b']`. */
  function ListRepr(xs: seq<string>): string
  {
    "[" + Join(ReprAll(xs), ", ") + "]"
  }

  /** A character `repr` writes as itself inside quotes `q`: not the quote,
      not a backslash, not a control character. */
  predicate PlainChar(c: char, q: char)
  {
    c != q && c != '\\' && IsPrintable(c)
  }

  /** Not an ASCII control character: `repr` escapes those whatever the
      quote. */
  predicate IsPrintable(c: char)
  {
    ' ' <= c && c != '\U{7F}'
  }

  predicate IsPlain(s: string, q: char)
  {
    forall k :: 0 <= k < |s| ==> PlainChar(s[k], q)
  }

  lemma {:induction false} ReprBodyPlain(s: string, q: char)
    requires IsPlain(s, q)
    ensures ReprBody(s, q) == s
  {
    if s != [] {
      ReprBodyPlain(s[1..], q);
      assert s == [s[0]] + s[1..];
    }
  }

  /** A string with no single quote, backslash or control character is shown
      between single quotes, unchanged. */
  lemma ReprPlain(s: string)
    requires IsPlain(s, '\'')
    ensures Repr(s) == "'" + s + "'"
  {
    assert '\'' !in s;
    ReprBodyPlain(s, '\'');
  }

  /** A string holding a single quote but no double quote (and no backslash
      or control character) is shown between double quotes, unchanged. */
  lemma ReprSwitchesQuote(s: string)
    requires '\'' in s && IsPlain(s, '"')
    ensures Repr(s) == "\"" + s + "\""
  {
    assert '"' !in s;
    ReprBodyPlain(s, '"');
  }

  /** Reading an escaped string body back: a backslash is dropped and the
      character after it kept; every other character is kept. */
  function Unescape(t: string): string
  {
    if t == [] then []
    else if t[0] == '\\' && |t| >= 2 then [t[1]] + Unescape(t[2..])
    else [t[0]] + Unescape(t[1..])
  }

  /** For a string with no control character, the body `repr` writes reads
      back as the string, whatever the quote. */
  lemma {:induction false} UnescapeReprBody(s: string, q: char)
    requires forall k :: 0 <= k < |s| ==> IsPrintable(s[k])
    ensures Unescape(ReprBody(s, q)) == s
  {
    if s != [] {
      var rest := ReprBody(s[1..], q);
      UnescapeReprBody(s[1..], q);
      var t := ReprChar(s[0], q) + rest;
      if s[0] == '\\' || s[0] == q {
        assert t == ['\\', s[0]] + rest && t[2..] == rest;
      } else {
        assert t == [s[0]] + rest && t[1..] == rest;
      }
      assert s == [s[0]] + s[1..];
    }
  }

  /** A string holding both quotes stays between single quotes and escapes
      its own single quotes with a backslash; when it holds no control
      character, the body between the quotes reads back as the string. */
  lemma ReprEscapesQuote(s: string)
    requires '\'' in s && '"' in s
    ensures ReprQuote(s) == '\''
    ensures ReprChar('\'', ReprQuote(s)) == "\\'"
    ensures |Repr(s)| >= 2 && Repr(s)[0] == Repr(s)[|Repr(s)| - 1] == '\''
    ensures (forall k :: 0 <= k < |s| ==> IsPrintable(s[k])) ==>
      Unescape(Repr(s)[1..|Repr(s)| - 1]) == s
  {
    var body := ReprBody(s, '\'');
    assert Repr(s)[1..|Repr(s)| - 1] == body;
    if forall k :: 0 <= k < |s| ==> IsPrintable(s[k]) {
      UnescapeReprBody(s, '\'');
    }
  }

  /** A list of plain strings is shown as its items in single quotes,
      separated by `", "`, between brackets. */
  lemma ListReprPlain(xs: seq<string>)
    requires forall k :: 0 <= k < |xs| ==> IsPlain(xs[k], '\'')
    ensures ListRepr(xs) == "[" + Join(seq(|xs|, k requires 0 <= k < |xs| => "'" + xs[k] + "'"), ", ") + "]"
  {
    var quoted := seq(|xs|, k requires 0 <= k < |xs| => "'" + xs[k] + "'");
    forall k | 0 <= k < |xs|
      ensures ReprAll(xs)[k] == quoted[k]
    {
      ReprPlain(xs[k]);
    }
    assert ReprAll(xs) == quoted;
  }
}
