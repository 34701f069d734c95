/**
 * `sanitize_filename`: turns a search query into the name of the text file
 * its results are written to.
 */
module Sanitizer {
  import PyStr

  /** The characters treated as invalid in file names, in the order the
      replacement loop visits them. */
  const InvalidChars: string := "<>:\"/\\|?*"

  /** The base name used when the query leaves nothing usable. */
  const DefaultName: string := "shodan_results"

  const Extension: string := ".txt"

  /** Membership in `InvalidChars`, spelled out character by character. */
  predicate IsInvalid(c: char)
  {
    c == '<' || c == '>' || c == ':' || c == '"' || c == '/' ||
    c == '\\' || c == '|' || c == '?' || c == '*'
  }

  lemma InvalidCharsAreIsInvalid(c: char)
    ensures c in InvalidChars <==> IsInvalid(c)
  {
  }

  /** Reference definition of the replacement loop: position by position,
      an invalid character becomes `_` and any other character is kept. */
  function ReplaceInvalid(s: string): string
  {
    seq(|s|, k requires 0 <= k < |s| => if IsInvalid(s[k]) then '_' else s[k])
  }

  /** The guard of the fallback: the name is empty or only dots. */
  predicate NeedsFallback(name: string)
  {
    name == [] || PyStr.Strip(name, {'.'}) == []
  }

  /** The query as `query.strip()` leaves it. */
  function Stripped(query: string): string
  {
    PyStr.Strip(query, PyStr.Whitespace)
  }

  /** The base name chosen for a stripped query. */
  function BaseFor(stripped: string): string
  {
    var name := ReplaceInvalid(stripped);
    if NeedsFallback(name) then DefaultName else name
  }

  /** What `sanitize_filename(query)` returns. */
  function SanitizedName(query: string): string
  {
    BaseFor(Stripped(query)) + Extension
  }

  /** The base name of a sanitised file name: everything before the extension. */
  function BaseName(filename: string): string
    requires |filename| >= |Extension|
  {
    filename[..|filename| - |Extension|]
  }

  /** The replacement loop: each invalid character in turn is replaced by
      `_` throughout the name. */
  method ReplaceInvalidChars(name: string) returns (replaced: string)
    ensures replaced == ReplaceInvalid(name)
  {
    replaced := name;
    for i := 0 to |InvalidChars|
      invariant |replaced| == |name|
      invariant forall k :: 0 <= k < |name| ==>
        replaced[k] == if name[k] in InvalidChars[..i] then '_' else name[k]
    {
      assert InvalidChars[..i + 1] == InvalidChars[..i] + [InvalidChars[i]];
      assert '_' != InvalidChars[i];
      replaced := PyStr.Replace(replaced, InvalidChars[i], '_');
    }
    assert InvalidChars[..|InvalidChars|] == InvalidChars;
    forall k | 0 <= k < |name|
      ensures replaced[k] == ReplaceInvalid(name)[k]
    {
      InvalidCharsAreIsInvalid(name[k]);
    }
  }

  /** Strip the query, replace the invalid characters, fall back to the
      default name when nothing usable is left, then append the extension. */
  method SanitizeFilename(query: string) returns (filename: string)
    ensures filename == SanitizedName(query)
  {
    filename := Stripped(query);
    filename := ReplaceInvalidChars(filename);
    if filename == [] || PyStr.Strip(filename, {'.'}) == [] {
      filename := DefaultName;
    }
    filename := filename + Extension;
  }

  /** The fallback is taken exactly when the stripped query is made only of
      dots, an empty one included: `.` is not invalid, so the replacement
      neither creates nor removes a dot. */
  lemma FallbackExactlyForDots(stripped: string)
    ensures NeedsFallback(ReplaceInvalid(stripped))
        <==> forall k :: 0 <= k < |stripped| ==> stripped[k] == '.'
  {
    var name := ReplaceInvalid(stripped);
    assert |name| == |stripped|;
    assert forall k :: 0 <= k < |stripped| ==> (name[k] == '.' <==> stripped[k] == '.');
  }

  /** The result always ends in the extension, after a non-empty base name in
      which no invalid character survives. */
  lemma SanitizedIsValid(query: string)
    ensures |SanitizedName(query)| > |Extension|
    ensures SanitizedName(query)[|SanitizedName(query)| - |Extension|..] == Extension
    ensures BaseName(SanitizedName(query)) == BaseFor(Stripped(query))
    ensures forall c :: c in BaseName(SanitizedName(query)) ==> !IsInvalid(c)
  {
    var name := ReplaceInvalid(Stripped(query));
    var base := BaseFor(Stripped(query));
    assert SanitizedName(query) == base + Extension;
    assert BaseName(base + Extension) == base;
    forall c | c in base
      ensures !IsInvalid(c)
    {
      var k :| 0 <= k < |base| && base[k] == c;
      if !NeedsFallback(name) {
        assert base[k] == name[k];
      }
    }
  }

  /** When the stripped query is empty or only dots the result is exactly
      `shodan_results.txt`. */
  lemma FallbackName(query: string)
    requires forall k :: 0 <= k < |Stripped(query)| ==> Stripped(query)[k] == '.'
    ensures SanitizedName(query) == "shodan_results.txt"
  {
  }

  /** Outside the fallback the base name has the length of the stripped query,
      with `_` at the positions of invalid characters and the query's own
      character everywhere else. */
  lemma SanitizedKeepsPositions(query: string)
    requires exists k :: 0 <= k < |Stripped(query)| && Stripped(query)[k] != '.'
    ensures |SanitizedName(query)| == |Stripped(query)| + |Extension|
    ensures forall k :: 0 <= k < |Stripped(query)| ==>
              SanitizedName(query)[k] ==
                if IsInvalid(Stripped(query)[k]) then '_' else Stripped(query)[k]
  {
    FallbackExactlyForDots(Stripped(query));
  }

  /** A non-empty query made only of invalid characters becomes underscores:
      they are replaced, not removed, so the fallback is never reached. */
  lemma AllInvalidBecomesUnderscores(query: string)
    requires Stripped(query) != []
    requires forall k :: 0 <= k < |Stripped(query)| ==> IsInvalid(Stripped(query)[k])
    ensures SanitizedName(query) == seq(|Stripped(query)|, _ => '_') + Extension
  {
  }
}
