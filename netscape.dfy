/** The Netscape cookie-file format that curl and wget read: one
    tab-separated line per cookie (`get_netscape_format`) and the file that
    `main` writes, a fixed comment header followed by those lines. */
module Netscape {
  import opened Strings

  /** A cookie as a browser store hands it over. `expires` is `None` for a
      session cookie and Unix seconds otherwise. */
  datatype Cookie = Cookie(
    domain: string,
    path: string,
    secure: bool,
    expires: Option<int>,
    name: string,
    value: string)

  const TAB := '\t'
  const LF := '\n'

  /** The two boolean columns. */
  function Flag(b: bool): string
  {
    if b then "TRUE" else "FALSE"
  }

  /** A cookie that expires with the browser session: no expiry, or expiry 0. */
  predicate IsSession(c: Cookie)
  {
    c.expires.None? || c.expires.value == 0
  }

  /** The expiration column: the integer expiry when one is set and non-zero,
      and the sentinel "0" otherwise. */
  function Expiration(expires: Option<int>): string
  {
    var e := if expires.Some? && expires.value != 0 then expires.value else 0;
    if e != 0 then IntToDecimal(e) else "0"
  }

  /** The seven columns, in file order. */
  function Fields(c: Cookie): seq<string>
  {
    [c.domain, Flag(StartsWith(c.domain, ".")), c.path, Flag(c.secure),
     Expiration(c.expires), c.name, c.value]
  }

  /** `get_netscape_format`: the columns joined by tabs. */
  function FormatLine(c: Cookie): string
  {
    Join(Fields(c), TAB)
  }

  /** The fields a cookie store supplies hold no `sep` character. */
  ghost predicate FreeOf(c: Cookie, sep: char)
  {
    Free(c.domain, sep) && Free(c.path, sep) && Free(c.name, sep) && Free(c.value, sep)
  }

  /** The line is the seven columns, in the order domain, domain-wide flag,
      path, secure flag, expiration, name, value, with a tab between each. */
  lemma FormatLineLayout(c: Cookie)
    ensures FormatLine(c) ==
      c.domain + "\t" + (if StartsWith(c.domain, ".") then "TRUE" else "FALSE") + "\t"
      + c.path + "\t" + (if c.secure then "TRUE" else "FALSE") + "\t"
      + Expiration(c.expires) + "\t" + c.name + "\t" + c.value
  {
    var f := Fields(c);
    JoinSeven(f);
    Reassociate(f[0], f[1], f[2], f[3], f[4], f[5], f[6]);
  }

  /** `Join` of seven pieces, nested to the right. */
  lemma JoinSeven(f: seq<string>)
    requires |f| == 7
    ensures Join(f, TAB) == f[0] + ("\t" + (f[1] + ("\t" + (f[2] + ("\t" + (f[3] + ("\t" + (f[4]
      + ("\t" + (f[5] + ("\t" + f[6])))))))))))
  {
    assert Join(f[5..], TAB) == f[5] + ("\t" + f[6]) by {
      JoinStep(f[5..], TAB);
      assert f[5..][1..] == [f[6]];
    }
    assert f[4..][1..] == f[5..];
    JoinStep(f[4..], TAB);
    assert f[3..][1..] == f[4..];
    JoinStep(f[3..], TAB);
    assert f[2..][1..] == f[3..];
    JoinStep(f[2..], TAB);
    assert f[1..][1..] == f[2..];
    JoinStep(f[1..], TAB);
    JoinStep(f, TAB);
  }

  lemma Reassociate(a: string, b: string, c: string, d: string, e: string, f: string, g: string)
    ensures a + ("\t" + (b + ("\t" + (c + ("\t" + (d + ("\t" + (e + ("\t" + (f + ("\t" + g)))))))))))
         == a + "\t" + b + "\t" + c + "\t" + d + "\t" + e + "\t" + f + "\t" + g
  {
  }

  lemma JoinStep(parts: seq<string>, sep: char)
    requires |parts| >= 2
    ensures Join(parts, sep) == parts[0] + [sep] + Join(parts[1..], sep)
  {
  }

  /** The expiration column is "0" exactly for a session cookie, and otherwise
      reads back as the cookie's expiry. */
  lemma ExpirationRule(c: Cookie)
    ensures Expiration(c.expires) == "0" <==> IsSession(c)
    ensures ParseInt(Expiration(c.expires)) == Some(if IsSession(c) then 0 else c.expires.value)
  {
    if IsSession(c) {
      assert "0"[..0] == [];
    } else {
      var e := c.expires.value;
      IntDecimalRoundTrip(e);
      if e > 0 {
        assert NatToDecimal(e) != "0";
      } else {
        assert IntToDecimal(e)[0] == '-';
      }
    }
  }

  lemma {:induction false} JoinFree(parts: seq<string>, sep: char, other: char)
    requires sep != other
    requires forall k :: 0 <= k < |parts| ==> Free(parts[k], other)
    ensures Free(Join(parts, sep), other)
    decreases |parts|
  {
    if |parts| > 1 {
      JoinFree(parts[1..], sep, other);
    }
  }

  lemma FieldsFree(c: Cookie, sep: char)
    requires FreeOf(c, sep)
    requires sep != '-' && !IsDigit(sep) && sep !in "TRUEFALS"
    ensures forall k :: 0 <= k < |Fields(c)| ==> Free(Fields(c)[k], sep)
  {
    IntDecimalFree(if c.expires.Some? then c.expires.value else 0, sep);
  }

  /** Splitting a line on tabs recovers its seven columns, provided no field of
      the cookie holds a tab; the two flags and the expiration follow their
      rules. */
  lemma SplitFormatLine(c: Cookie)
    requires FreeOf(c, TAB)
    ensures var f := Split(FormatLine(c), TAB);
      && |f| == 7
      && f[0] == c.domain && f[2] == c.path && f[5] == c.name && f[6] == c.value
      && (f[1] == "TRUE" <==> |c.domain| > 0 && c.domain[0] == '.')
      && (f[1] == "FALSE" <==> !(|c.domain| > 0 && c.domain[0] == '.'))
      && (f[3] == "TRUE" <==> c.secure)
      && (f[3] == "FALSE" <==> !c.secure)
      && (f[4] == "0" <==> IsSession(c))
      && (!IsSession(c) ==> ParseInt(f[4]) == Some(c.expires.value))
  {
    FieldsFree(c, TAB);
    SplitJoin(Fields(c), TAB);
    ExpirationRule(c);
  }

  /** Cookies that differ only in how a session is spelled (no expiry or
      expiry 0) are the same cookie; this picks `None`. */
  function Normalize(c: Cookie): Cookie
  {
    if IsSession(c) then c.(expires := None) else c
  }

  predicate IsFlag(s: string)
  {
    s == "TRUE" || s == "FALSE"
  }

  /** A reader for one line of a Netscape cookie file, as the consumers of the
      file apply it: seven tab-separated columns, a domain-wide flag that
      agrees with the domain, a boolean secure column and an integer expiry,
      0 meaning a session cookie. */
  function ParseLine(line: string): Option<Cookie>
  {
    var f := Split(line, TAB);
    if |f| != 7 || f[1] != Flag(StartsWith(f[0], ".")) || !IsFlag(f[3]) then None
    else
      match ParseInt(f[4])
      case None => None
      case Some(e) => Some(Cookie(f[0], f[2], f[3] == "TRUE", if e == 0 then None else Some(e), f[5], f[6]))
  }

  /** Reading a formatted line gives the cookie back (up to how a session is
      spelled). */
  lemma ParseFormatLine(c: Cookie)
    requires FreeOf(c, TAB)
    ensures ParseLine(FormatLine(c)) == Some(Normalize(c))
  {
    FieldsFree(c, TAB);
    SplitJoin(Fields(c), TAB);
    ExpirationRule(c);
  }

  /** Two cookies with tab-free fields get the same line only if they are the
      same cookie. */
  lemma FormatLineInjective(c: Cookie, d: Cookie)
    requires FreeOf(c, TAB) && FreeOf(d, TAB)
    requires FormatLine(c) == FormatLine(d)
    ensures Normalize(c) == Normalize(d)
  {
    ParseFormatLine(c);
    ParseFormatLine(d);
  }

  // The output file.

  const FORMAT_MARKER := "# Netscape HTTP Cookie File"
  const GENERATED_BY := "# Generated by Crumbix on "
  const SPEC_REFERENCE := "# http://curl.haxx.se/rfc/cookie_spec.html"

  /** The comment header and the blank line after it; `timestamp` is the
      rendering of the clock reading taken when the file is written. */
  function HeaderLines(timestamp: string): seq<string>
  {
    [FORMAT_MARKER, GENERATED_BY + timestamp, SPEC_REFERENCE, ""]
  }

  /** One formatted line per cookie, in the given order. */
  function BodyLines(cookies: seq<Cookie>): (r: seq<string>)
    ensures |r| == |cookies|
    ensures forall i :: 0 <= i < |cookies| ==> r[i] == FormatLine(cookies[i])
  {
    seq(|cookies|, i requires 0 <= i < |cookies| => FormatLine(cookies[i]))
  }

  /** The lines of the output file, without their terminators. */
  function FileLines(cookies: seq<Cookie>, timestamp: string): seq<string>
  {
    HeaderLines(timestamp) + BodyLines(cookies)
  }

  /** Text made of lines, each followed by a line feed. */
  function Terminated(lines: seq<string>): string
    decreases |lines|
  {
    if lines == [] then "" else lines[0] + [LF] + Terminated(lines[1..])
  }

  lemma {:induction false} TerminatedAppend(a: seq<string>, b: seq<string>)
    ensures Terminated(a + b) == Terminated(a) + Terminated(b)
    decreases |a|
  {
    if a != [] {
      assert (a + b)[0] == a[0];
      assert (a + b)[1..] == a[1..] + b;
      TerminatedAppend(a[1..], b);
    } else {
      assert a + b == b;
    }
  }

  /** Line-feed terminated text is the lines joined by line feeds, followed by
      one more (empty) piece. */
  lemma {:induction false} TerminatedIsJoin(lines: seq<string>)
    ensures Terminated(lines) == Join(lines + [""], LF)
    decreases |lines|
  {
    if lines != [] {
      assert (lines + [""])[1..] == lines[1..] + [""];
      TerminatedIsJoin(lines[1..]);
    }
  }

  lemma TerminatedHeader(timestamp: string)
    ensures Terminated(HeaderLines(timestamp))
         == FORMAT_MARKER + "\n" + GENERATED_BY + timestamp + "\n" + SPEC_REFERENCE + "\n\n"
  {
    var h := HeaderLines(timestamp);
    assert Terminated(h[3..]) == "\n" by {
      assert h[3..][1..] == [];
    }
    assert Terminated(h[2..]) == SPEC_REFERENCE + "\n\n" by {
      assert h[2..][1..] == h[3..];
    }
    assert Terminated(h[1..]) == GENERATED_BY + timestamp + "\n" + SPEC_REFERENCE + "\n\n" by {
      assert h[1..][1..] == h[2..];
    }
  }

  /** Writes the header, then one line per cookie, each followed by a line
      feed; the result is the whole content of the output file. */
  method RenderCookieFile(cookies: seq<Cookie>, timestamp: string) returns (content: string)
    ensures content == Terminated(FileLines(cookies, timestamp))
  {
    content := FORMAT_MARKER + "\n";
    content := content + GENERATED_BY + timestamp + "\n";
    content := content + SPEC_REFERENCE + "\n\n";
    TerminatedHeader(timestamp);
    assert HeaderLines(timestamp) + BodyLines(cookies[..0]) == HeaderLines(timestamp);
    for i := 0 to |cookies|
      invariant content == Terminated(HeaderLines(timestamp) + BodyLines(cookies[..i]))
    {
      var line := FormatLine(cookies[i]);
      var done := HeaderLines(timestamp) + BodyLines(cookies[..i]);
      TerminatedAppend(done, [line]);
      assert Terminated([line]) == line + "\n" by {
        assert [line][1..] == [];
      }
      assert HeaderLines(timestamp) + BodyLines(cookies[..i + 1]) == done + [line];
      content := content + line + "\n";
    }
    assert cookies[..|cookies|] == cookies;
  }

  lemma FormatLineFree(c: Cookie)
    requires FreeOf(c, LF)
    ensures Free(FormatLine(c), LF)
  {
    FieldsFree(c, LF);
    JoinFree(Fields(c), TAB, LF);
  }

  lemma FileLinesFree(cookies: seq<Cookie>, timestamp: string)
    requires Free(timestamp, LF)
    requires forall i :: 0 <= i < |cookies| ==> FreeOf(cookies[i], LF)
    ensures var all := FileLines(cookies, timestamp) + [""];
      forall k :: 0 <= k < |all| ==> Free(all[k], LF)
  {
    var all := FileLines(cookies, timestamp) + [""];
    forall k | 0 <= k < |all|
      ensures Free(all[k], LF)
    {
      if 4 <= k < |all| - 1 {
        FormatLineFree(cookies[k - 4]);
      } else if k == 1 {
        assert all[1] == GENERATED_BY + timestamp;
      }
    }
  }

  /** Reading the file back line by line gives the three comment lines, the
      blank line, then exactly one line per cookie in input order, each of
      which parses back to its cookie; nothing follows the last line feed. */
  lemma ReadBackCookieFile(cookies: seq<Cookie>, timestamp: string)
    requires Free(timestamp, LF)
    requires forall i :: 0 <= i < |cookies| ==> FreeOf(cookies[i], LF) && FreeOf(cookies[i], TAB)
    ensures var lines := Split(Terminated(FileLines(cookies, timestamp)), LF);
      && |lines| == |cookies| + 5
      && lines[..4] == HeaderLines(timestamp)
      && lines[|lines| - 1] == ""
      && forall i :: 0 <= i < |cookies| ==>
           lines[4 + i] == FormatLine(cookies[i]) && ParseLine(lines[4 + i]) == Some(Normalize(cookies[i]))
  {
    FileLinesFree(cookies, timestamp);
    TerminatedIsJoin(FileLines(cookies, timestamp));
    SplitJoin(FileLines(cookies, timestamp) + [""], LF);
    forall i | 0 <= i < |cookies|
      ensures ParseLine(FormatLine(cookies[i])) == Some(Normalize(cookies[i]))
    {
      ParseFormatLine(cookies[i]);
    }
  }

  /** The worked example of the format: a domain-wide, secure cookie with an
      expiry. */
  lemma FormatLineExample(c: Cookie)
    requires c == Cookie(".example.com", "/", true, Some(1893456000), "sess", "abc123")
    ensures FormatLine(c) == ".example.com\tTRUE\t/\tTRUE\t1893456000\tsess\tabc123"
  {
    FormatLineLayout(c);
    assert StartsWith(c.domain, ".");
    ExampleExpiry(c.expires);
    ExampleText();
  }

  lemma ExampleText()
    ensures ".example.com\tTRUE\t/\tTRUE\t1893456000\tsess\tabc123"
         == ".example.com" + "\t" + "TRUE" + "\t" + "/" + "\t" + "TRUE" + "\t" + "1893456000"
            + "\t" + "sess" + "\t" + "abc123"
  {
  }

  lemma ExampleExpiry(e: Option<int>)
    requires e == Some(1893456000)
    ensures Expiration(e) == "1893456000"
  {
    assert NatToDecimal(1) == "1";
    assert NatToDecimal(18) == "18";
    assert NatToDecimal(189) == "189";
    assert NatToDecimal(1893) == "1893";
    assert NatToDecimal(18934) == "18934";
    assert NatToDecimal(189345) == "189345";
    assert NatToDecimal(1893456) == "1893456";
    assert NatToDecimal(18934560) == "18934560";
    assert NatToDecimal(189345600) == "189345600";
    assert NatToDecimal(1893456000) == "1893456000";
  }
}
