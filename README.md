# Crumbix, modelled in Dafny

Crumbix is a command-line tool. It reads the cookies that a web browser has stored for one site and writes them to a cookie file in the Netscape format, which curl, wget and youtube-dl read. This project models the tool's decision logic and proves what that logic guarantees:

- **Netscape format** (`netscape.dfy`). `get_netscape_format` turns a cookie into one tab-separated line of seven columns. `main` writes the output file: three comment lines, a blank line, then one line per cookie, each ended by a line feed. The file is built by a method with a loop, as the source builds it with a `for` loop. A reference reader for a cookie-file line is also defined, so that the format can be stated as a round trip.
- **Domain resolution** (`domain.dfy`). This is `extract_domain`, plus the fallback and validation in `main` that turn the typed URL into the target domain or the "Invalid URL" exit. The public-suffix splitter (tldextract) and `urlparse(...).hostname` are library code. They are oracles: function-valued fields of a `Parsers` value.
- **Extraction** (`extraction.dfy`). This covers two things:
  - the closed set of browsers and the case-insensitive lookup of the loader table;
  - the classification of a failed store read into "locked or protected" and "other".
- **The run** (`crumbix.dfy`). `main`, from its parsed arguments to its exit. It covers:
  - the default output name;
  - the store read, which is an environment function;
  - the stop on a failed read;
  - the exit with status 0, with no file written, on an empty result;
  - the rendering of the file, and the exit status of every ending.
- **Requirements** (`requirements.dfy`). `read_requirements` from `setup.py` works in two steps:
  - it strips every line of `requirements.txt`;
  - it drops blank lines, and lines whose *unstripped* first character is `#` or `-`.

  The file's presence and its lines are the input.
- **Strings** (`strings.dfy`). This holds the Python string operations the above rely on: `startswith`, `in`, `lower`, `strip`, `str(int)` and splitting and joining on a character, each with its defining properties.

## Model

| member | source | states |
|---|---|---|
| Netscape.FormatLineLayout | crumbix.py:33-42 | of `FormatLine`: the line is the domain, the domain-wide flag ("TRUE" iff the domain starts with "."), the path, the secure flag, the expiration, the name and the value, in that order, with a tab between each |
| Netscape.ExpirationRule | crumbix.py:37-38 | of `Expiration`: the expiration column is "0" exactly when there is no expiry or it is 0; otherwise it is the decimal form of the expiry and reads back as that integer |
| Netscape.SplitFormatLine | crumbix.py:29-42 | when no field holds a tab, splitting the line on tabs gives exactly seven columns: domain, path, name and value are recovered unchanged; the flag column is "TRUE" iff the domain starts with "." and "FALSE" otherwise; the secure column is "TRUE" iff the cookie is secure; the expiration column follows its session rule |
| Netscape.ParseFormatLine | crumbix.py:29-42 | of `FormatLine`: a cookie-file reader gives back the cookie from its line (a session expiry of 0 and no expiry being the same cookie) |
| Netscape.FormatLineInjective | crumbix.py:29-42 | two cookies with tab-free fields share a line only when they are the same cookie once an expiry of 0 is read as no expiry |
| Netscape.FormatLineExample | crumbix.py:29-42 | the line of a domain-wide, secure cookie with expiry 1893456000 is `.example.com\tTRUE\t/\tTRUE\t1893456000\tsess\tabc123` |
| Netscape.RenderCookieFile | crumbix.py:194-201 | the loop writes the content of the file: the three comment lines and the blank line, then the line of every cookie in input order, each line followed by a line feed |
| Netscape.ReadBackCookieFile | crumbix.py:196-201 | when the timestamp holds no line feed and no cookie's domain, path, name or value holds a line feed or a tab, the file split on line feeds has exactly the cookie count plus five lines: the four header lines, one line per cookie in input order (each reading back as its cookie), and nothing after the last line feed |
| Netscape.TerminatedHeader | crumbix.py:196-198 | the header text is the format marker, the "Generated by Crumbix on" line with the timestamp, and the specification line, each ended by a line feed, then an empty line |
| DomainResolution.WithSchemeRule | crumbix.py:50-51 | of `WithScheme`: after prefixing, the URL starts with "http://" or "https://"; it is unchanged iff it already started with one of them (case-sensitively), and otherwise "http://" is put in front |
| DomainResolution.WithSchemeIdempotent | crumbix.py:50-51 | prefixing twice is prefixing once |
| DomainResolution.ExtractDomainIgnoresScheme | crumbix.py:49-56 | `extract_domain` gives the same outcome whether or not the user typed "http://" |
| DomainResolution.ExtractDomainCases | crumbix.py:44-67 | the outcome is an exception exactly when the suffix splitter raises; it is "domain.suffix" when both parts are non-empty; otherwise it is the hostname of the prefixed URL, and is found iff that hostname is non-empty |
| DomainResolution.ExtractDomain | crumbix.py:44-67 | a domain that is found is never empty |
| DomainResolution.ResolveTarget | crumbix.py:109-118 | the domain `main` goes on with is never empty |
| DomainResolution.ResolveTargetCases | crumbix.py:109-118 | of `TargetDomain`: `main` takes the found domain, stops when nothing was found, and after an exception takes the non-empty hostname of the raw, unprefixed input |
| Extraction.LookupIff | crumbix.py:124-133 | of `Lookup`: the loader table finds browser b exactly when the lower-cased name equals b's key |
| Extraction.LookupRoundTrip | crumbix.py:124-133 | every browser is found under its own key, and the lookup ignores case |
| Extraction.ClassifyIff | crumbix.py:172 | of `Classify`: a failure counts as "locked or protected" iff the message contains "Permission denied" with that exact capitalisation at some position, or contains "locked" in any capitalisation |
| Extraction.ClassifyCaseAsymmetry | crumbix.py:172 | "DATABASE IS LOCKED" counts as locked; "permission denied" in lower case does not |
| Crumbix.OutputNameRule | crumbix.py:120-121 | of `OutputName`: a non-empty `--output` is used verbatim; otherwise the name is the domain followed by ".cookies.txt", so different domains get different names |
| Crumbix.Run | crumbix.py:108-201 | it exits on an invalid URL exactly when no non-empty domain resolves. A failed read ends the run with the browser, the classification and the message. A missing or empty result ends it with status 0 and writes no file. Otherwise the cookies are saved under the output name, with the rendered content and their count. The exit status is 1 exactly when no domain resolves or the read for the resolved domain failed |
| Requirements.KeepRule | setup.py:19-21 | a line is kept iff it holds a non-whitespace character and its raw first character is neither "#" nor "-" |
| Requirements.IndentedCommentKept | setup.py:17-21 | a comment or option line is dropped, but the same line indented by whitespace is kept, and what is kept is the unindented line stripped, so it begins with the "#" or "-" |
| Requirements.FilterClean | setup.py:17-19 | every returned requirement is non-empty and has no whitespace at either end |
| Requirements.FilterSelects | setup.py:12-22 | of `Filter`: the k-th requirement is the stripped k-th kept line, so the result is as long as the list of kept positions |
| Requirements.KeptIndicesIncreasing | setup.py:12-22 | the kept positions are increasing, so the requirements come out in file order |
| Requirements.KeptIndicesBound | setup.py:12-22 | every kept position is a line of the file |
| Requirements.KeptExactly | setup.py:18-21 | a line's position is among the kept ones iff the line passes the filter |
| Requirements.Filter | setup.py:12-22 | there are never more requirements than lines |
| Requirements.MissingFile | setup.py:9-10 | of `ReadRequirements`: without a requirements file the list is empty |
| Strings.StripSpec | setup.py:17 | of `Strip`: `strip` removes whitespace, and only whitespace, from both ends and leaves the middle untouched; the result has no whitespace at either end, and it is empty exactly for a blank line |
| Strings.Lower | crumbix.py:133 | `lower()`: the result has the same length, every ASCII capital becomes its small letter, and every other character is kept |
| Strings.ContainsIff | crumbix.py:172 | the substring test holds iff the text occurs at some position |
| Strings.IntDecimalRoundTrip | crumbix.py:38 | the decimal form of every integer, negative ones included, reads back as that integer |

## Left out

- The reading thread, the result queue, and the `is_alive`/`sleep` polling loop are left out because they exist only for concurrency. The queue-empty case, where the reader ended without reporting, is the `NoReport` outcome of the store read.
- The browser cookie readers are left out, with their decryption and database access. They are the environment's `fetch` function, called with the browser and the target domain.
- Command-line parsing is left out. Because the option accepts only the seven names, `main` never meets a name missing from the loader table; `Run` takes a `Browser` value.
- The public-suffix splitter and `urlparse` are oracles. `urlparse` raising on a malformed URL, inside `extract_domain` or in `main`'s fallback, is not modelled. The oracle always answers.
- Float expiries are left out: `expires` is an integer, so the truncation that `int(...)` applies to a fractional expiry is not modelled.
- The clock is left out. The header's timestamp is a parameter, already rendered as text.
- All console output, panels, progress display and the branding header are left out.
- Opening and writing the file, the `IOError` branch and `sys.exit` are left out. `Run` returns the path, the content and the exit outcome instead.
- Reading `requirements.txt` is left out: how the file iterator splits lines and translates newlines. The input is the lines as the iterator yields them, line endings included; `strip` removes those endings.
- The `setup()` call itself is left out.
- Strings.Lower: lower-cases ASCII letters only. Python's `str.lower` also folds non-ASCII letters, some of them (such as the Kelvin sign) to an ASCII letter. So the "locked" test is exact only for ASCII input: a message with "LOC" followed by the Kelvin sign and "ED" counts as locked in the program but not in the model. The browser lookup is unaffected, because no non-ASCII character lowers to text that could complete a loader key.
- Strings.IsSpace: covers the characters that Python's `str.isspace` accepts, written out as a fixed set of code points.
- crumbix.py:172 tests "Permission denied" case-sensitively, and the model follows it. `Extraction.ClassifyCaseAsymmetry` shows that a lower-case "permission denied" is classified `Other`.
