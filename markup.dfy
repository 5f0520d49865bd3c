/** The two library escapes the directory listing applies to file names:
    `html.escape` for the text a browser shows and `urllib.parse.quote`
    for the link it follows; each with the decoding a browser applies,
    which recovers the name exactly. */
module Markup {
  import opened Util

  // ---------------------------------------------------------------------
  // html.escape(s, quote=True)

  /** The characters HTML gives a meaning to inside text and attributes. */
  predicate Special(c: char)
  {
    c == '&' || c == '<' || c == '>' || c == '"' || c == '\''
  }

  function EscapeChar(c: char): string
  {
    if c == '&' then "&amp;"
    else if c == '<' then "&lt;"
    else if c == '>' then "&gt;"
    else if c == '"' then "&quot;"
    else if c == '\'' then "&#x27;"
    else [c]
  }

  /** `html.escape`. Python replaces `&` first and then the others, which is
      the same as escaping character by character. */
  function Escape(s: string): string
  {
    if |s| == 0 then "" else EscapeChar(s[0]) + Escape(s[1..])
  }

  /** Escaped text holds none of `<`, `>`, `"`, `'`: the only special
      character left is the `&` that starts an entity. */
  lemma {:induction false} EscapeNoMarkup(s: string)
    ensures forall i :: 0 <= i < |Escape(s)| ==> !Special(Escape(s)[i]) || Escape(s)[i] == '&'
    decreases |s|
  {
    if |s| > 0 {
      EscapeNoMarkup(s[1..]);
      var h, t := EscapeChar(s[0]), Escape(s[1..]);
      assert forall i :: 0 <= i < |h| ==> !Special(h[i]) || h[i] == '&';
      PrefixProperty(h, t);
    }
  }

  /** Characters either part of a concatenation holds are those of the whole. */
  lemma PrefixProperty(h: string, t: string)
    requires forall i :: 0 <= i < |h| ==> !Special(h[i]) || h[i] == '&'
    requires forall i :: 0 <= i < |t| ==> !Special(t[i]) || t[i] == '&'
    ensures forall i :: 0 <= i < |h + t| ==> !Special((h + t)[i]) || (h + t)[i] == '&'
  {
    forall i | 0 <= i < |h + t|
      ensures !Special((h + t)[i]) || (h + t)[i] == '&'
    {
      if i >= |h| {
        assert (h + t)[i] == t[i - |h|];
      }
    }
  }

  predicate StartsWith(s: string, p: string)
  {
    |p| <= |s| && s[..|p|] == p
  }

  /** `html.unescape` restricted to the five entities `Escape` produces. */
  function Unescape(s: string): string
    decreases |s|
  {
    if |s| == 0 then ""
    else if StartsWith(s, "&amp;") then "&" + Unescape(s[5..])
    else if StartsWith(s, "&lt;") then "<" + Unescape(s[4..])
    else if StartsWith(s, "&gt;") then ">" + Unescape(s[4..])
    else if StartsWith(s, "&quot;") then "\"" + Unescape(s[6..])
    else if StartsWith(s, "&#x27;") then "'" + Unescape(s[6..])
    else [s[0]] + Unescape(s[1..])
  }

  /** Text that does not start with `&` starts with no entity. */
  lemma NoEntity(s: string)
    requires |s| > 0 && s[0] != '&'
    ensures !StartsWith(s, "&amp;") && !StartsWith(s, "&lt;") && !StartsWith(s, "&gt;")
    ensures !StartsWith(s, "&quot;") && !StartsWith(s, "&#x27;")
  {
    forall k | 1 <= k <= |s|
      ensures s[..k][0] == s[0]
    {
    }
  }

  lemma UnescapeChar(c: char, rest: string)
    ensures Unescape(EscapeChar(c) + rest) == [c] + Unescape(rest)
  {
    var e := EscapeChar(c);
    var s := e + rest;
    assert s[..|e|] == e && s[|e|..] == rest;
    if c == '&' {
    } else if c == '<' {
      assert s[1] == 'l';
    } else if c == '>' {
      assert s[1] == 'g';
    } else if c == '"' {
      assert s[1] == 'q' && s[2] == 'u';
    } else if c == '\'' {
      assert s[1] == '#' && s[2] == 'x';
    } else {
      NoEntity(s);
      assert s[0] == c && s[1..] == rest;
    }
  }

  /** A browser shows exactly the escaped name. */
  lemma {:induction false} UnescapeEscape(s: string)
    ensures Unescape(Escape(s)) == s
    decreases |s|
  {
    if |s| > 0 {
      UnescapeChar(s[0], Escape(s[1..]));
      UnescapeEscape(s[1..]);
      assert s == [s[0]] + s[1..];
    }
  }

  // ---------------------------------------------------------------------
  // urllib.parse.quote(s) with safe="/", encoded as UTF-8

  /** Bytes `quote` leaves alone: ASCII letters and digits, `_.-~` and the
      default safe character `/`. */
  predicate SafeByte(b: byte)
  {
    (65 <= b <= 90) || (97 <= b <= 122) || (48 <= b <= 57)
    || b == 95 || b == 46 || b == 45 || b == 126 || b == 47
  }

  /** Upper-case hexadecimal digit of `n`. */
  function HexDigit(n: int): (c: char)
    requires 0 <= n < 16
    ensures IsHex(c) && HexValue(c) == n
  {
    if n < 10 then ('0' as int + n) as char else ('A' as int + n - 10) as char
  }

  predicate IsHex(c: char)
  {
    ('0' <= c <= '9') || ('A' <= c <= 'F') || ('a' <= c <= 'f')
  }

  function HexValue(c: char): (n: int)
    requires IsHex(c)
    ensures 0 <= n < 16
  {
    if '0' <= c <= '9' then c as int - '0' as int
    else if 'A' <= c <= 'F' then c as int - 'A' as int + 10
    else c as int - 'a' as int + 10
  }

  /** A character that may appear in a quoted link. */
  predicate LinkChar(c: char)
  {
    c as int < 128 && (SafeByte(c as int) || c == '%')
  }

  function QuoteByte(b: byte): string
  {
    if SafeByte(b) then [b as char] else ['%', HexDigit(b / 16), HexDigit(b % 16)]
  }

  function QuoteBytes(bs: seq<byte>): string
  {
    if |bs| == 0 then "" else QuoteByte(bs[0]) + QuoteBytes(bs[1..])
  }

  /** `urllib.parse.quote`. */
  function Quote(s: string): string
  {
    QuoteBytes(Utf8(s))
  }

  predicate AllLinkChars(r: string)
  {
    forall i :: 0 <= i < |r| ==> LinkChar(r[i])
  }

  lemma QuoteByteLink(b: byte)
    ensures AllLinkChars(QuoteByte(b))
  {
  }

  lemma LinkCharsAppend(h: string, t: string)
    requires AllLinkChars(h) && AllLinkChars(t)
    ensures AllLinkChars(h + t)
  {
    forall i | 0 <= i < |h + t|
      ensures LinkChar((h + t)[i])
    {
      if i >= |h| {
        assert (h + t)[i] == t[i - |h|];
      }
    }
  }

  lemma {:induction false} QuoteBytesLink(bs: seq<byte>)
    ensures AllLinkChars(QuoteBytes(bs))
    decreases |bs|
  {
    if |bs| > 0 {
      QuoteByteLink(bs[0]);
      QuoteBytesLink(bs[1..]);
      LinkCharsAppend(QuoteByte(bs[0]), QuoteBytes(bs[1..]));
    }
  }

  /** A quoted link consists of safe ASCII characters and `%` escapes only,
      so it cannot close the `href` attribute. */
  lemma QuoteSafe(s: string)
    ensures AllLinkChars(Quote(s))
    ensures '"' !in Quote(s) && '<' !in Quote(s) && '>' !in Quote(s)
  {
    QuoteBytesLink(Utf8(s));
  }

  /** The bytes of a URL after percent-decoding: `%XX` is one byte, any
      other character contributes its UTF-8 encoding. */
  function PercentDecode(s: string): seq<byte>
    decreases |s|
  {
    if |s| == 0 then []
    else if |s| >= 3 && s[0] == '%' && IsHex(s[1]) && IsHex(s[2]) then
      [HexValue(s[1]) * 16 + HexValue(s[2])] + PercentDecode(s[3..])
    else EncodeChar(s[0]) + PercentDecode(s[1..])
  }

  lemma PercentDecodeByte(b: byte, rest: string)
    ensures PercentDecode(QuoteByte(b) + rest) == [b] + PercentDecode(rest)
  {
    var q := QuoteByte(b);
    var s := q + rest;
    if SafeByte(b) {
      assert s[0] == b as char && s[1..] == rest;
    } else {
      assert s[..3] == q && s[3..] == rest;
    }
  }

  lemma {:induction false} PercentDecodeQuoteBytes(bs: seq<byte>)
    ensures PercentDecode(QuoteBytes(bs)) == bs
    decreases |bs|
  {
    if |bs| > 0 {
      PercentDecodeByte(bs[0], QuoteBytes(bs[1..]));
      PercentDecodeQuoteBytes(bs[1..]);
      assert bs == [bs[0]] + bs[1..];
    }
  }

  /** A browser following the link asks for exactly the quoted name. */
  lemma PercentDecodeQuote(s: string)
    ensures Utf8Decode(PercentDecode(Quote(s))) == Some(s)
  {
    PercentDecodeQuoteBytes(Utf8(s));
    Utf8DecodeEncode(s);
  }

  lemma QuoteBytesCons(b: byte, t: seq<byte>)
    ensures QuoteBytes([b] + t) == QuoteByte(b) + QuoteBytes(t)
  {
    assert ([b] + t)[1..] == t;
  }

  /** A space is escaped, the path separator is not. */
  lemma QuoteExample(s: string)
    requires s == "a b/"
    ensures Quote(s) == "a%20b/"
  {
    Utf8Ascii(s);
    assert Utf8(s) == [97, 32, 98, 47];
    assert QuoteByte(47) == "/" && QuoteByte(98) == "b" && QuoteByte(32) == "%20" && QuoteByte(97) == "a";
    assert QuoteBytes([47]) == "/" by {
      QuoteBytesCons(47, []);
    }
    assert QuoteBytes([98, 47]) == "b/" by {
      QuoteBytesCons(98, [47]);
    }
    assert QuoteBytes([32, 98, 47]) == "%20b/" by {
      QuoteBytesCons(32, [98, 47]);
    }
    QuoteBytesCons(97, [32, 98, 47]);
  }

  lemma EscapeCons(c: char, t: string)
    ensures Escape([c] + t) == EscapeChar(c) + Escape(t)
  {
    assert ([c] + t)[1..] == t;
  }

  /** Escaping works piece by piece. */
  lemma {:induction false} EscapeAppend(a: string, b: string)
    ensures Escape(a + b) == Escape(a) + Escape(b)
    decreases |a|
  {
    if |a| > 0 {
      assert (a + b)[0] == a[0] && (a + b)[1..] == a[1..] + b;
      EscapeAppend(a[1..], b);
    } else {
      assert a + b == b;
    }
  }

  /** A name without special characters is shown as it is. */
  lemma {:induction false} EscapePlain(s: string)
    requires forall i :: 0 <= i < |s| ==> !Special(s[i])
    ensures Escape(s) == s
    decreases |s|
  {
    if |s| > 0 {
      EscapePlain(s[1..]);
      assert s == [s[0]] + s[1..];
    }
  }

  /** Markup in a file name is shown, not interpreted: a tag around a
      plain name becomes the entities for `<` and `>`. */
  lemma EscapeTag(name: string)
    requires forall i :: 0 <= i < |name| ==> !Special(name[i])
    ensures Escape("<" + name + ">") == "&lt;" + name + "&gt;"
  {
    EscapePlain(name);
    TagPieces(name, Escape(name));
  }

  lemma TagPieces(name: string, e: string)
    requires Escape(name) == e
    ensures Escape("<" + name + ">") == "&lt;" + e + "&gt;"
  {
    EscapeAround("<", name, ">");
    EscapeOne('<');
    EscapeOne('>');
  }

  lemma EscapeOne(c: char)
    ensures Escape([c]) == EscapeChar(c)
  {
  }

  lemma EscapeAround(a: string, b: string, c: string)
    ensures Escape(a + b + c) == Escape(a) + Escape(b) + Escape(c)
  {
    EscapeAppend(a + b, c);
    EscapeAppend(a, b);
  }

  /** An ampersand and an apostrophe become entities as well. */
  lemma EscapeAmpQuote(a: string, b: string)
    ensures Escape(a + "&" + b + "'") == Escape(a) + "&amp;" + Escape(b) + "&#x27;"
  {
    EscapeAppend(a + "&" + b, "'");
    EscapeAppend(a + "&", b);
    EscapeAppend(a, "&");
    EscapeOne('&');
    EscapeOne('\'');
  }
}
