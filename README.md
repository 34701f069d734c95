# shodan_search: file naming and result rendering, verified in Dafny

`shodan_search.py` asks for an API key and a search query, runs the query
through the Shodan search cursor and writes one line per matching host to a
text file named after the query. This project models the two pieces of logic
in that script and proves what they promise:

- **`sanitize_filename`** (module `Sanitizer`, file `sanitizer.dfy`): strips
  the query, replaces each of `< > : " / \ | ? *` by `_`, falls back to
  `shodan_results` when the name is empty or only dots, and appends `.txt`.
  `SanitizeFilename` follows the source step by step. Its replacement loop,
  which rebinds the name once per invalid character, is the method
  `ReplaceInvalidChars`. Both are proved against the specification functions
  `ReplaceInvalid` (a position-by-position definition) and `SanitizedName`.
- **Result-file rendering** (module `Results`, file `results.dfy`): the body
  of the `with open(...)` block in `main`. A record is a loosely typed
  `map<string, Value>` in which any key may be missing. `FormatLine` is the
  per-record line. `WriteResults` makes the two header writes and then
  appends one line per record from the cursor, counting as it goes. The
  cursor is an input sequence of records. The file is the sequence of
  strings passed to `write`, in order.
- **Python string built-ins** (module `PyStr`, file `pystr.dfy`): `strip`,
  one-character `replace`, `join`, `str` of an integer and of a list of
  strings. Each is written out so that the two pieces above are stated in
  terms of what Python does.

A query made only of invalid characters does not reach the fallback. The
characters are replaced, not removed, so it becomes underscores
(`AllInvalidBecomesUnderscores`). Only a query that is empty or only dots
after stripping reaches the fallback (`FallbackExactlyForDots`).

## Model

| member | source | states |
|---|---|---|
| `PyStr.Strip` | shodan_search.py:11 | `strip` leaves an empty string exactly when every character is one of those stripped; otherwise the result neither starts nor ends with one |
| `PyStr.StripIsTrimBoth` | shodan_search.py:11 | `strip` equals removing the leading run and then the trailing run of stripped characters, so it keeps exactly the middle of the input |
| `PyStr.TrimStart` | shodan_search.py:11 | the leading part removed is made only of stripped characters, the rest is a suffix of the input, and it does not start with a stripped character |
| `PyStr.TrimEnd` | shodan_search.py:11 | the trailing part removed is made only of stripped characters, the rest is a prefix of the input, and it does not end with a stripped character |
| `PyStr.StripIdempotent` | shodan_search.py:35 | stripping an already stripped query changes nothing, so the second strip inside `sanitize_filename` is harmless for the query `main` passes |
| `PyStr.Replace` | shodan_search.py:13 | one-character `replace` keeps the length and changes exactly the occurrences of the target |
| `PyStr.Join` | shodan_search.py:68 | the join has the length of all parts plus one separator per neighbouring pair; with a non-empty separator it is empty exactly when there is no part or one empty part |
| `PyStr.NatToStrRoundTrip` | shodan_search.py:73 | the decimal text `str` writes for a number reads back as that number |
| `PyStr.IntToStrRoundTrip` | shodan_search.py:67 | `str` of any integer is decimal digits, with a minus sign in front for a negative one; it reads back as that integer, and starts with a minus sign exactly when the integer is negative |
| `PyStr.ReprPlain` | shodan_search.py:66-67 | `repr` of a string with no single quote, backslash or control character is that string between single quotes |
| `PyStr.ReprSwitchesQuote` | shodan_search.py:66-67 | `repr` of a string holding a single quote but no double quote (and no backslash or control character) is that string between double quotes |
| `PyStr.ReprEscapesQuote` | shodan_search.py:66-67 | `repr` of a string holding both quotes is wrapped in single quotes, writes each single quote inside as backslash-quote, and, when the string holds no control character, its body reads back as the string by dropping each escaping backslash |
| `PyStr.UnescapeReprBody` | shodan_search.py:66-67 | for a string with no control character, the body `repr` writes between the quotes reads back as the string, with either quote |
| `PyStr.ListReprPlain` | shodan_search.py:66-67 | `str` of a list of plain strings is each item in single quotes, joined by `", "`, between square brackets |
| `Sanitizer.InvalidCharsAreIsInvalid` | shodan_search.py:10 | the nine-character string the loop walks holds exactly the characters `IsInvalid` names: less-than, greater-than, colon, double quote, slash, backslash, vertical bar, question mark and asterisk |
| `Sanitizer.ReplaceInvalidChars` | shodan_search.py:10-13 | after replacing each invalid character in turn, every invalid character is `_` in the same position and every other character is kept |
| `Sanitizer.SanitizeFilename` | shodan_search.py:5-19 | the function returns the stripped, replaced name, or `shodan_results` in the fallback case, followed by `.txt` |
| `Sanitizer.FallbackExactlyForDots` | shodan_search.py:15-17 | the fallback is taken if and only if the stripped query is empty or made only of dots |
| `Sanitizer.SanitizedIsValid` | shodan_search.py:10-19 | the result always ends in `.txt`; its base name is not empty and contains none of the nine invalid characters |
| `Sanitizer.FallbackName` | shodan_search.py:15-19 | a query that is empty or only dots after stripping yields exactly `shodan_results.txt` |
| `Sanitizer.SanitizedKeepsPositions` | shodan_search.py:11-13 | outside the fallback, the base name has the stripped query's length, with `_` where it had an invalid character and its own character everywhere else |
| `Sanitizer.AllInvalidBecomesUnderscores` | shodan_search.py:12-17 | a non-empty query made only of invalid characters yields that many underscores plus `.txt`, not the fallback |
| `Results.FieldText` | shodan_search.py:66-67 | a missing `ip_str` or `port` renders as `N/A`; a present one renders as its value; this never fails |
| `Results.PortShownAsDigits` | shodan_search.py:67 | a numeric port is written as decimal digits that read back as the port number |
| `Results.HostnamesText` | shodan_search.py:68-70 | the hostnames text is produced unless the value cannot be iterated (a number or null), in which case `join` raises; when produced it is never empty |
| `Results.HostnamesPlaceholder` | shodan_search.py:68-70 | the placeholder appears when the key is missing, the list is empty or holds one empty string, or the value is an empty string; otherwise the `", "` join appears |
| `Results.FormatLine` | shodan_search.py:66-73 | a record renders exactly when its hostnames can be joined, and then the line is `IP: `, the IP text, a tab, `Port: `, the port text, a tab, `Hostnames: `, the hostnames text and a newline; otherwise the error is the `join` type error |
| `Results.LineRoundTrip` | shodan_search.py:73 | the line layout `IP: …\tPort: …\tHostnames: …\n` is unambiguous: the three fields read back when IP and port hold no tab |
| `Results.FormatLineRoundTrip` | shodan_search.py:66-73 | a record's line carries its IP text, port text and hostnames text, in that order |
| `Results.Header` | shodan_search.py:60-61 | the header is two writes: the title followed by the query, as given, and a newline; then a rule of 50 `=` and a blank line |
| `Results.WriteResults` | shodan_search.py:56-76 | the file holds the two header writes followed by exactly `count` lines, the line of each record in cursor order; the loop completes exactly when every record renders, and then `count` is the number of records; otherwise it stops at the first failing record with that record's error |

## Left out

- The Shodan client (`shodan.Shodan`, `api.info()`, `api.search_cursor`, `shodan.APIError`) is a foreign, networked library. The cursor is replaced by a given sequence of records, so an API error in the middle of pagination is not modelled.
- The `input()` prompts, the empty-key and empty-query exits, `sys.exit` and every `print`, including the progress line after every 100 results, are console I/O.
- `open`, the UTF-8 encoding, closing the file and `os.path.abspath` are filesystem I/O. The file is modelled as the sequence of strings written to it.
- The `except` handlers only print and exit. `WriteResults` reports the error that ends the loop as `Aborted`, with the message, and leaves the lines written so far in the file.
- Record values are limited to strings, integers, lists of strings and null. Booleans, floats and nested objects are not modelled, and neither is a list holding anything but strings.
- PyStr.Repr: Python escapes non-printable non-ASCII characters in `repr`; the model escapes only the ASCII control characters. This affects only an `ip_str` or `port` that holds a list.
- PyStr.Whitespace: the set is Python 3's `str.isspace()` for the current Unicode version and is fixed in the model.
