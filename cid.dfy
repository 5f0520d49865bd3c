/** Substitution of `(cid:N)` glyph references in text extracted from a PDF,
    as `pdf_cid_labor.py` does it: a fixed table from glyph ids to text, the
    token grammar of `CID_REGEX`, the id extraction of `replace_cid` and
    `gather_unknown_cid`, and the left-to-right `CID_REGEX.sub` pass. */
module Cid {
  import opened Util

  /** The hand-made glyph table `cmap`. */
  const CMap: map<int, string> := map[
    2 := "\U{2019}", 3 := " ", 4 := "A", 17 := "B", 18 := "C", 24 := "D", 28 := "E", 38 := "F",
    39 := "G", 44 := "H", 47 := "I", 58 := "J", 60 := "K", 62 := "L", 68 := "M", 69 := "N",
    75 := "O", 87 := "P", 89 := "Q", 90 := "R", 94 := "S", 100 := "T", 104 := "U", 115 := "V",
    116 := "W", 121 := "X", 122 := "Y", 127 := "Z", 258 := "a", 271 := "b", 272 := "c",
    282 := "d", 286 := "e", 296 := "f", 297 := "fb", 299 := "ff", 322 := "fj", 325 := "fk",
    332 := "ft", 336 := "g", 346 := "h", 349 := "i", 361 := "j", 364 := "k", 367 := "l",
    373 := "m", 374 := "n", 381 := "o", 393 := "p", 395 := "q", 396 := "r", 400 := "s",
    410 := "t", 414 := "tf", 415 := "ti", 425 := "tt", 426 := "ttf", 427 := "tti", 437 := "u",
    448 := "v", 449 := "w", 454 := "x", 455 := "y", 460 := "z", 853 := ",", 855 := ":",
    856 := ".", 859 := "\U{2019}", 876 := "/", 882 := "-", 894 := "(", 895 := ")", 919 := "\"",
    926 := "\U{A9}", 928 := "\U{AE}", 1004 := "0", 1005 := "1", 1006 := "2", 1007 := "3",
    1008 := "4", 1009 := "5", 1010 := "6", 1011 := "7", 1012 := "8", 1013 := "9"
  ]

  /** Python's `str.isspace`, which is also the class `\s` matches in a `str` pattern. */
  predicate IsWs(c: char)
  {
    ('\t' <= c <= '\r') || ('\U{1C}' <= c <= ' ') || c == '\U{85}' || c == '\U{A0}'
    || c == '\U{1680}' || ('\U{2000}' <= c <= '\U{200A}') || c == '\U{2028}' || c == '\U{2029}'
    || c == '\U{202F}' || c == '\U{205F}' || c == '\U{3000}'
  }

  predicate AllWs(s: string)
  {
    |s| == 0 || (IsWs(s[0]) && AllWs(s[1..]))
  }

  /** Length of the longest all-whitespace prefix: what a greedy `\s*` consumes. */
  function WsLen(s: string): (n: nat)
    ensures n <= |s| && AllWs(s[..n]) && (n < |s| ==> !IsWs(s[n]))
  {
    if |s| > 0 && IsWs(s[0]) then
      var m := WsLen(s[1..]);
      assert s[..m + 1][1..] == s[1..][..m];
      m + 1
    else 0
  }

  /** Length of the longest all-digit prefix: what a greedy `\d+` consumes. */
  function DigitLen(s: string): (n: nat)
    ensures n <= |s| && AllDigits(s[..n]) && (n < |s| ==> !IsDigit(s[n]))
  {
    if |s| > 0 && IsDigit(s[0]) then
      var m := DigitLen(s[1..]);
      assert s[..m + 1][1..] == s[1..][..m];
      m + 1
    else 0
  }

  /** The automaton of `CID_REGEX`, `\(\s*cid\s*:\s*\d+\s*\)`. State 0 expects
      `(`; 1 skips blanks before `cid`, whose letters take it through 2 and 3 to
      4; 4 skips blanks before `:`; 5 skips blanks before the first digit; 6
      reads digits; 7 skips blanks before `)`; 8 has matched. No blank is a
      letter, a colon, a digit or a parenthesis, so the automaton is
      deterministic: the greedy `\s*` and `\d+` never have to give back. */
  const Accept: nat := 8

  function Step(q: nat, c: char): (r: Option<nat>)
    ensures r.Some? ==> 0 < r.value <= Accept
  {
    if q == 0 && c == '(' then Some(1)
    else if q == 1 && IsWs(c) then Some(1)
    else if q == 1 && c == 'c' then Some(2)
    else if q == 2 && c == 'i' then Some(3)
    else if q == 3 && c == 'd' then Some(4)
    else if q == 4 && IsWs(c) then Some(4)
    else if q == 4 && c == ':' then Some(5)
    else if q == 5 && IsWs(c) then Some(5)
    else if (q == 5 || q == 6) && IsDigit(c) then Some(6)
    else if (q == 6 || q == 7) && IsWs(c) then Some(7)
    else if (q == 6 || q == 7) && c == ')' then Some(Accept)
    else None
  }

  /** The state after reading all of `x` from state `q`, if the automaton
      does not get stuck. */
  function Run(x: string, q: nat): Option<nat>
    decreases |x|
  {
    if |x| == 0 then Some(q)
    else
      match Step(q, x[0])
      case None => None
      case Some(q2) => Run(x[1..], q2)
  }

  /** `CID_REGEX` matches the whole of `x`. */
  predicate IsToken(x: string)
  {
    Run(x, 0) == Some(Accept)
  }

  /** A token written out from its pieces: `(`, blanks, `cid`, blanks, `:`,
      blanks, digits, blanks, `)`. */
  datatype Parts = Parts(w1: string, w2: string, w3: string, digits: string, w4: string)
  {
    predicate Valid()
    {
      AllWs(w1) && AllWs(w2) && AllWs(w3) && AllWs(w4) && |digits| > 0 && AllDigits(digits)
    }

    function Text(): string
    {
      "(" + (w1 + ("cid" + (w2 + (":" + (w3 + (digits + (w4 + ")")))))))
    }
  }

  lemma {:induction false} RunAppend(a: string, b: string, q: nat)
    ensures Run(a + b, q) == (match Run(a, q) case None => None case Some(q2) => Run(b, q2))
    decreases |a|
  {
    if |a| == 0 {
      assert a + b == b;
    } else {
      assert (a + b)[1..] == a[1..] + b;
      match Step(q, a[0])
      case None =>
      case Some(q2) => RunAppend(a[1..], b, q2);
    }
  }

  /** Blanks keep the states that skip them. */
  lemma {:induction false} RunWs(w: string, q: nat)
    requires q == 1 || q == 4 || q == 5 || q == 7
    requires AllWs(w)
    ensures Run(w, q) == Some(q)
    decreases |w|
  {
    if |w| > 0 {
      RunWs(w[1..], q);
    }
  }

  lemma {:induction false} RunDigits(d: string)
    requires AllDigits(d)
    ensures Run(d, 6) == Some(6)
    decreases |d|
  {
    if |d| > 0 {
      RunDigits(d[1..]);
    }
  }

  lemma RunTrailing(w: string)
    requires AllWs(w)
    ensures Run(w, 6) == Some(if |w| == 0 then 6 else 7)
  {
    if |w| > 0 {
      RunWs(w[1..], 7);
    }
  }

  lemma RunNumber(w3: string, d: string, w4: string)
    requires AllWs(w3) && |d| > 0 && AllDigits(d) && AllWs(w4)
    ensures Run(w3 + (d + (w4 + ")")), 5) == Some(Accept)
  {
    RunAppend(w3, d + (w4 + ")"), 5);
    RunWs(w3, 5);
    RunAppend(d, w4 + ")", 5);
    RunDigits(d[1..]);
    RunAppend(w4, ")", 6);
    RunTrailing(w4);
  }

  lemma RunColon(w2: string, rest: string)
    requires AllWs(w2) && Run(rest, 5) == Some(Accept)
    ensures Run(w2 + (":" + rest), 4) == Some(Accept)
  {
    RunAppend(w2, ":" + rest, 4);
    RunWs(w2, 4);
    RunAppend(":", rest, 4);
  }

  lemma RunCid(w1: string, rest: string)
    requires AllWs(w1) && Run(rest, 4) == Some(Accept)
    ensures Run(w1 + ("cid" + rest), 1) == Some(Accept)
  {
    RunAppend(w1, "cid" + rest, 1);
    RunWs(w1, 1);
    RunAppend("cid", rest, 1);
  }

  /** Every well-formed choice of pieces spells a token. */
  lemma TokenOfParts(p: Parts)
    requires p.Valid()
    ensures IsToken(p.Text())
  {
    var r6 := p.w3 + (p.digits + (p.w4 + ")"));
    RunNumber(p.w3, p.digits, p.w4);
    var r4 := p.w2 + (":" + r6);
    RunColon(p.w2, r6);
    var r2 := p.w1 + ("cid" + r4);
    RunCid(p.w1, r4);
    RunAppend("(", r2, 0);
  }

  /** An accepted run that has not finished reads one more character. */
  lemma Next(x: string, q: nat)
    requires q != Accept && Run(x, q) == Some(Accept)
    ensures |x| > 0 && Step(q, x[0]).Some? && Run(x[1..], Step(q, x[0]).value) == Some(Accept)
  {
  }

  /** Nothing follows a match. */
  lemma Dead(x: string)
    requires Run(x, Accept) == Some(Accept)
    ensures |x| == 0
  {
  }

  lemma SkipWs(y: string, q: nat)
    requires q == 1 || q == 4 || q == 5 || q == 7
    ensures Run(y, q) == Run(y[WsLen(y)..], q)
  {
    var n := WsLen(y);
    assert y == y[..n] + y[n..];
    RunAppend(y[..n], y[n..], q);
    RunWs(y[..n], q);
  }

  /** From state 6 or 7, the rest of an accepted token is blanks and `)`. */
  lemma {:induction false} TailShape(v: string, q: nat)
    requires (q == 6 || q == 7) && Run(v, q) == Some(Accept)
    requires q == 6 && |v| > 0 ==> !IsDigit(v[0])
    ensures |v| > 0 && v[|v| - 1] == ')' && AllWs(v[..|v| - 1])
    decreases |v|
  {
    Next(v, q);
    if v[0] == ')' {
      Dead(v[1..]);
    } else {
      TailShape(v[1..], 7);
      assert v[..|v| - 1] == [v[0]] + v[1..][..|v| - 2];
    }
  }

  /** Blanks and the rest after state 1: `cid` must follow. */
  function ParseCid(y: string): (r: (string, string))
    requires Run(y, 1) == Some(Accept)
    ensures AllWs(r.0) && y == r.0 + ("cid" + r.1) && Run(r.1, 4) == Some(Accept)
  {
    var a := WsLen(y);
    CidAfter(y, a);
    (y[..a], y[a + 3..])
  }

  /** The blanks of state 1 are followed by the letters `cid`. */
  lemma CidAfter(y: string, a: nat)
    requires Run(y, 1) == Some(Accept) && a == WsLen(y)
    ensures a + 3 <= |y| && y == y[..a] + ("cid" + y[a + 3..]) && Run(y[a + 3..], 4) == Some(Accept)
  {
    SkipWs(y, 1);
    CidLetters(y[a..]);
    Cut(y, a, 3);
  }

  lemma Cut(y: string, a: nat, k: nat)
    requires a + k <= |y|
    ensures y[a..][k..] == y[a + k..] && y == y[..a] + (y[a..][..k] + y[a + k..])
  {
  }

  /** After the blanks of state 1 come the letters `cid`. */
  lemma CidLetters(u: string)
    requires Run(u, 1) == Some(Accept) && (|u| > 0 ==> !IsWs(u[0]))
    ensures |u| >= 3 && u[..3] == "cid" && Run(u[3..], 4) == Some(Accept)
  {
    Next(u, 1);
    Next(u[1..], 2);
    Next(u[2..], 3);
    assert u[1..][1..] == u[2..] && u[2..][1..] == u[3..];
  }

  /** Blanks and the rest after state 4: `:` must follow. */
  function ParseColon(y: string): (r: (string, string))
    requires Run(y, 4) == Some(Accept)
    ensures AllWs(r.0) && y == r.0 + (":" + r.1) && Run(r.1, 5) == Some(Accept)
  {
    var b := WsLen(y);
    var u := y[b..];
    SkipWs(y, 4);
    Next(u, 4);
    assert y == y[..b] + ([u[0]] + u[1..]);
    (y[..b], u[1..])
  }

  lemma DigitsThen(u: string)
    requires Run(u, 5) == Some(Accept) && (|u| > 0 ==> !IsWs(u[0]))
    ensures DigitLen(u) > 0 && Run(u[DigitLen(u)..], 6) == Some(Accept)
  {
    Next(u, 5);
    var d := DigitLen(u);
    var v := u[d..];
    assert u == u[..d] + v;
    RunAppend(u[..d], v, 5);
    assert u[..d][1..] == u[1..d];
    RunDigits(u[1..d]);
  }

  /** Blanks, digits, blanks and `)` after state 5. */
  function ParseNumber(y: string): (r: (string, string, string))
    requires Run(y, 5) == Some(Accept)
    ensures AllWs(r.0) && |r.1| > 0 && AllDigits(r.1) && AllWs(r.2) && y == r.0 + (r.1 + (r.2 + ")"))
  {
    var c := WsLen(y);
    SkipWs(y, 5);
    DigitsThen(y[c..]);
    var d := DigitLen(y[c..]);
    TailShape(y[c..][d..], 6);
    SplitNumber(y, c, d);
    (y[..c], y[c..][..d], y[c..][d..][..|y[c..][d..]| - 1])
  }

  lemma SplitNumber(y: string, c: nat, d: nat)
    requires c <= |y| && d < |y[c..]| && y[c..][d..][|y[c..][d..]| - 1] == ')'
    ensures y == y[..c] + (y[c..][..d] + (y[c..][d..][..|y[c..][d..]| - 1] + ")"))
  {
    var u := y[c..];
    var v := u[d..];
    assert v == v[..|v| - 1] + ")";
    assert u == u[..d] + v;
    assert y == y[..c] + u;
  }

  /** The pieces of a token: the inverse of `Parts.Text`. */
  function Parse(x: string): (p: Parts)
    requires IsToken(x)
    ensures p.Valid() && p.Text() == x
  {
    Next(x, 0);
    var r1 := ParseCid(x[1..]);
    var r2 := ParseColon(r1.1);
    var r3 := ParseNumber(r2.1);
    Assemble(x, r1.0, r1.1, r2.0, r2.1, r3.0, r3.1, r3.2);
    Parts(r1.0, r2.0, r3.0, r3.1, r3.2)
  }

  lemma Assemble(x: string, w1: string, y1: string, w2: string, y2: string, w3: string, digits: string, w4: string)
    requires |x| > 0 && x[0] == '('
    requires x[1..] == w1 + ("cid" + y1) && y1 == w2 + (":" + y2) && y2 == w3 + (digits + (w4 + ")"))
    ensures x == Parts(w1, w2, w3, digits, w4).Text()
  {
    assert x == [x[0]] + x[1..];
  }

  /** `IsToken` is exactly the grammar of `CID_REGEX`. */
  lemma TokenGrammar(x: string)
    ensures IsToken(x) <==> exists p: Parts :: p.Valid() && p.Text() == x
  {
    if IsToken(x) {
      var p := Parse(x);
      assert p.Valid() && p.Text() == x;
    }
    forall p: Parts | p.Valid() && p.Text() == x
      ensures IsToken(x)
    {
      TokenOfParts(p);
    }
  }

  // ---------------------------------------------------------------------
  // The numeric id

  /** `s.split(":")[1]`; a token always has exactly one colon. */
  function AfterColon(s: string): string
  {
    var ps := Split(s, ':');
    if |ps| >= 2 then ps[1] else []
  }

  /** `s.strip(")")`. */
  function StripParens(s: string): string
    decreases |s|
  {
    if |s| > 0 && s[0] == ')' then StripParens(s[1..])
    else if |s| > 0 && s[|s| - 1] == ')' then StripParens(s[..|s| - 1])
    else s
  }

  /** `s.strip()`. */
  function StripWs(s: string): string
    decreases |s|
  {
    if |s| > 0 && IsWs(s[0]) then StripWs(s[1..])
    else if |s| > 0 && IsWs(s[|s| - 1]) then StripWs(s[..|s| - 1])
    else s
  }

  /** The recursive `AllWs` says the same as "every character is a blank". */
  lemma {:induction false} AllWsIndex(s: string)
    ensures AllWs(s) <==> forall i :: 0 <= i < |s| ==> IsWs(s[i])
    decreases |s|
  {
    if |s| > 0 {
      AllWsIndex(s[1..]);
      assert forall i :: 1 <= i < |s| ==> s[i] == s[1..][i - 1];
    }
  }

  /** The glyph id of a token (`int(str_cid.split(":")[1].strip(")").strip())`). */
  function IdOf(x: string): nat
    requires IsToken(x)
  {
    Value(StripWs(StripParens(AfterColon(x))))
  }

  lemma {:induction false} StripWsOf(w3: string, d: string, w4: string)
    requires AllWs(w3) && AllWs(w4) && |d| > 0 && AllDigits(d)
    ensures StripWs(w3 + (d + w4)) == d
    decreases |w3| + |w4|
  {
    var s := w3 + (d + w4);
    assert s[|w3|] == d[0];
    DigitEnds(d);
    if |w3| > 0 {
      assert s[0] == w3[0] && s[1..] == w3[1..] + (d + w4);
      StripFront(s);
      StripWsOf(w3[1..], d, w4);
    } else if |w4| > 0 {
      AllWsLast(w4);
      assert s[0] == d[0] && s[|s| - 1] == w4[|w4| - 1];
      assert s[..|s| - 1] == w3 + (d + w4[..|w4| - 1]);
      StripBack(s);
      StripWsOf(w3, d, w4[..|w4| - 1]);
    } else {
      assert s == d;
      StripNone(s);
    }
  }

  /** A digit run starts and ends with something other than a blank. */
  lemma DigitEnds(d: string)
    requires |d| > 0 && AllDigits(d)
    ensures IsDigit(d[0]) && IsDigit(d[|d| - 1])
    ensures !IsWs(d[0]) && !IsWs(d[|d| - 1])
  {
    AllDigitsIndex(d);
  }

  lemma AllWsLast(w: string)
    requires |w| > 0 && AllWs(w)
    ensures IsWs(w[|w| - 1]) && AllWs(w[..|w| - 1])
  {
    AllWsIndex(w);
    AllWsIndex(w[..|w| - 1]);
  }

  lemma StripFront(s: string)
    requires |s| > 0 && IsWs(s[0])
    ensures StripWs(s) == StripWs(s[1..])
  {
  }

  lemma StripBack(s: string)
    requires |s| > 0 && !IsWs(s[0]) && IsWs(s[|s| - 1])
    ensures StripWs(s) == StripWs(s[..|s| - 1])
  {
  }

  lemma StripNone(s: string)
    requires |s| > 0 && !IsWs(s[0]) && !IsWs(s[|s| - 1])
    ensures StripWs(s) == s
  {
  }

  /** What follows the one colon of a token. */
  lemma AfterColonOfParts(p: Parts)
    requires p.Valid()
    ensures AfterColon(p.Text()) == p.w3 + (p.digits + (p.w4 + ")"))
  {
    WsNoColon(p.w1);
    WsNoColon(p.w2);
    WsNoColon(p.w3);
    WsNoColon(p.w4);
    AllDigitsIndex(p.digits);
    var pre := "(" + (p.w1 + ("cid" + p.w2));
    var post := p.w3 + (p.digits + (p.w4 + ")"));
    assert p.Text() == pre + [':'] + post;
    assert ':' !in pre;
    SplitAt(pre, ':', post);
    assert ':' !in post;
    SplitNoSep(post, ':');
    assert Split(p.Text(), ':') == [pre, post];
  }

  lemma {:induction false} WsNoColon(w: string)
    requires AllWs(w)
    ensures ':' !in w
    decreases |w|
  {
    if |w| > 0 {
      WsNoColon(w[1..]);
      assert w == [w[0]] + w[1..];
    }
  }

  /** Stripping `)` from the text after the colon leaves blanks, digits, blanks. */
  lemma StripParensOfParts(p: Parts)
    requires p.Valid()
    ensures StripParens(p.w3 + (p.digits + (p.w4 + ")"))) == p.w3 + (p.digits + p.w4)
  {
    var inner := p.w3 + (p.digits + p.w4);
    var post := p.w3 + (p.digits + (p.w4 + ")"));
    assert post == inner + ")";
    DigitEnds(p.digits);
    assert inner[0] != ')' by {
      if |p.w3| > 0 { assert inner[0] == p.w3[0]; } else { assert inner[0] == p.digits[0]; }
    }
    assert inner[|inner| - 1] != ')' by {
      if |p.w4| > 0 {
        AllWsLast(p.w4);
        assert inner[|inner| - 1] == p.w4[|p.w4| - 1];
      } else {
        assert inner == p.w3 + p.digits;
        assert inner[|inner| - 1] == p.digits[|p.digits| - 1];
      }
    }
    ParenBack(post);
    ParenNone(inner);
  }

  lemma ParenBack(s: string)
    requires |s| > 1 && s[0] != ')' && s[|s| - 1] == ')'
    ensures StripParens(s) == StripParens(s[..|s| - 1])
  {
  }

  lemma ParenNone(s: string)
    requires |s| > 0 && s[0] != ')' && s[|s| - 1] != ')'
    ensures StripParens(s) == s
  {
  }

  /** The id of a token is its digit run read in decimal. */
  lemma IdOfParts(p: Parts)
    requires p.Valid()
    ensures IsToken(p.Text()) && IdOf(p.Text()) == Value(p.digits)
  {
    TokenOfParts(p);
    AfterColonOfParts(p);
    StripParensOfParts(p);
    StripWsOf(p.w3, p.digits, p.w4);
  }

  /** `replace_cid`: the table's text for a known id, the token itself otherwise. */
  function Replace(x: string, table: map<int, string>): string
    requires IsToken(x)
  {
    var id := IdOf(x);
    if id in table then table[id] else x
  }

  // ---------------------------------------------------------------------
  // Scanning

  /** Length of the shortest prefix of `s` that takes state `q` to a match;
      since the matched state is final, it is the only such prefix. */
  function MatchFrom(s: string, q: nat): (r: Option<nat>)
    ensures r.Some? ==> r.value <= |s| && Run(s[..r.value], q) == Some(Accept)
    ensures r.Some? && q != Accept ==> r.value > 0
    decreases |s|
  {
    if q == Accept then Some(0)
    else if |s| == 0 then None
    else
      match Step(q, s[0])
      case None => None
      case Some(q2) =>
        match MatchFrom(s[1..], q2)
        case None => None
        case Some(n) =>
          assert s[..n + 1][1..] == s[1..][..n];
          Some(n + 1)
  }

  /** Length of the `CID_REGEX` match starting at the front of `s`, if any. */
  function MatchLen(s: string): (r: Option<nat>)
    ensures r.Some? ==> 0 < r.value <= |s| && IsToken(s[..r.value])
  {
    MatchFrom(s, 0)
  }

  lemma {:induction false} MatchFromIff(s: string, q: nat, n: nat)
    ensures MatchFrom(s, q) == Some(n) <==> (n <= |s| && Run(s[..n], q) == Some(Accept))
    decreases |s|
  {
    if n <= |s| && Run(s[..n], q) == Some(Accept) {
      if q == Accept {
        Dead(s[..n]);
      } else {
        Next(s[..n], q);
        var q2 := Step(q, s[0]).value;
        assert s[..n][1..] == s[1..][..n - 1];
        MatchFromIff(s[1..], q2, n - 1);
      }
    }
  }

  /** A match at the front of `s` is exactly a token prefix of `s`; in
      particular there is at most one. */
  lemma MatchLenIff(s: string, n: nat)
    ensures MatchLen(s) == Some(n) <==> (n <= |s| && IsToken(s[..n]))
  {
    MatchFromIff(s, 0, n);
  }

  /** One step of the scan: a copied character or a matched token. */
  datatype Piece = Plain(c: char) | Cid(text: string)

  predicate Scanned(ps: seq<Piece>)
  {
    forall i :: 0 <= i < |ps| && ps[i].Cid? ==> IsToken(ps[i].text)
  }

  /** The text the pieces came from. */
  function Flatten(ps: seq<Piece>): string
  {
    if |ps| == 0 then []
    else (match ps[0] case Plain(c) => [c] case Cid(t) => t) + Flatten(ps[1..])
  }

  /** The text with every token replaced. */
  function Render(ps: seq<Piece>, table: map<int, string>): string
    requires Scanned(ps)
  {
    if |ps| == 0 then [] else RenderPiece(ps[0], table) + Render(ps[1..], table)
  }

  function RenderPiece(p: Piece, table: map<int, string>): string
    requires p.Cid? ==> IsToken(p.text)
  {
    match p
    case Plain(c) => [c]
    case Cid(t) => Replace(t, table)
  }

  /** The matched tokens, in order. */
  function Tokens(ps: seq<Piece>): seq<string>
  {
    if |ps| == 0 then []
    else (match ps[0] case Plain(_) => [] case Cid(t) => [t]) + Tokens(ps[1..])
  }

  /** The regular expression's left-to-right search: at each position either
      a token matches, and scanning resumes after it, or one character is
      copied. The pieces cover the text exactly and every match is a token. */
  function Scan(s: string): (r: seq<Piece>)
    ensures Flatten(r) == s && Scanned(r)
    decreases |s|
  {
    if |s| == 0 then []
    else
      match MatchLen(s)
      case Some(n) =>
        var rest := Scan(s[n..]);
        assert s == s[..n] + s[n..];
        [Cid(s[..n])] + rest
      case None =>
        var rest := Scan(s[1..]);
        assert s == [s[0]] + s[1..];
        [Plain(s[0])] + rest
  }

  /** `CID_REGEX.sub(replace_cid, s)`. */
  function Sub(s: string, table: map<int, string>): string
  {
    Render(Scan(s), table)
  }

  /** `CID_REGEX.findall(s)`. */
  function FindAll(s: string): (r: seq<string>)
    ensures forall t :: t in r ==> IsToken(t)
  {
    TokensAreTokens(Scan(s));
    Tokens(Scan(s))
  }

  lemma {:induction false} TokensAreTokens(ps: seq<Piece>)
    requires Scanned(ps)
    ensures forall t :: t in Tokens(ps) ==> IsToken(t)
  {
    if |ps| > 0 {
      TokensAreTokens(ps[1..]);
    }
  }

  lemma {:induction false} RenderAppend(a: seq<Piece>, b: seq<Piece>, table: map<int, string>)
    requires Scanned(a) && Scanned(b)
    ensures Scanned(a + b) && Render(a + b, table) == Render(a, table) + Render(b, table)
    decreases |a|
  {
    ScannedAppend(a, b);
    if |a| > 0 {
      ScannedTail(a);
      assert (a + b)[0] == a[0] && (a + b)[1..] == a[1..] + b;
      RenderAppend(a[1..], b, table);
      var h := RenderPiece(a[0], table);
      assert Render(a + b, table) == h + Render(a[1..] + b, table);
      assert h + (Render(a[1..], table) + Render(b, table)) == (h + Render(a[1..], table)) + Render(b, table);
    } else {
      assert a + b == b;
    }
  }

  lemma ScannedAppend(a: seq<Piece>, b: seq<Piece>)
    requires Scanned(a) && Scanned(b)
    ensures Scanned(a + b)
  {
    assert forall i :: |a| <= i < |a + b| ==> (a + b)[i] == b[i - |a|];
  }

  lemma ScannedTail(a: seq<Piece>)
    requires |a| > 0 && Scanned(a)
    ensures Scanned(a[1..])
  {
    assert forall i :: 0 <= i < |a| - 1 ==> a[1..][i] == a[i + 1];
  }

  lemma {:induction false} TokensAppend(a: seq<Piece>, b: seq<Piece>)
    ensures Tokens(a + b) == Tokens(a) + Tokens(b)
    decreases |a|
  {
    if |a| > 0 {
      assert (a + b)[1..] == a[1..] + b;
      TokensAppend(a[1..], b);
    } else {
      assert a + b == b;
    }
  }

  /** Only state 0 reads `(`: a run that cannot match within `a` cannot
      match by reading on into text that starts with `(`. */
  lemma {:induction false} NoMatchFrom(a: string, z: string, q: nat)
    requires q != 0 && q != Accept && |z| > 0 && z[0] == '('
    requires MatchFrom(a, q) == None
    ensures MatchFrom(a + z, q) == None
    decreases |a|
  {
    if |a| == 0 {
      assert a + z == z;
      assert !IsWs('(') && !IsDigit('(');
      assert Step(q, z[0]) == None;
    } else {
      assert (a + z)[0] == a[0];
      assert (a + z)[1..] == a[1..] + z;
      match Step(q, a[0])
      case None =>
      case Some(q2) =>
        if q2 != Accept {
          NoMatchFrom(a[1..], z, q2);
        }
    }
  }

  /** A text that ends before a `(` scans the same whether or not more text follows. */
  lemma NoMatchExtends(a: string, z: string)
    requires |a| > 0 && |z| > 0 && z[0] == '('
    requires MatchLen(a) == None
    ensures MatchLen(a + z) == None
  {
    assert (a + z)[0] == a[0];
    assert (a + z)[1..] == a[1..] + z;
    if a[0] == '(' {
      NoMatchFrom(a[1..], z, 1);
    }
  }

  lemma ScanTokenFront(s: string, n: nat)
    requires |s| > 0 && MatchLen(s) == Some(n)
    ensures Scan(s) == [Cid(s[..n])] + Scan(s[n..])
  {
  }

  lemma ScanPlainFront(s: string)
    requires |s| > 0 && MatchLen(s) == None
    ensures Scan(s) == [Plain(s[0])] + Scan(s[1..])
  {
  }

  lemma SeqAssoc4<T>(p: T, u: seq<T>, q: T, v: seq<T>)
    ensures [p] + (u + [q] + v) == ([p] + u) + [q] + v
  {
  }

  /** Scanning splits at a token: whatever precedes it cannot run into it,
      and whatever follows it is scanned afresh. */
  lemma {:induction false} ScanAround(a: string, x: string, b: string)
    requires IsToken(x)
    ensures Scan(a + x + b) == Scan(a) + [Cid(x)] + Scan(b)
    decreases |a|
  {
    var s := a + x + b;
    if |a| == 0 {
      assert s == x + b;
      assert s[..|x|] == x && s[|x|..] == b;
      MatchLenIff(s, |x|);
      ScanTokenFront(s, |x|);
    } else {
      match MatchLen(a)
      case Some(n) =>
        assert s[..n] == a[..n] && s[n..] == a[n..] + x + b;
        MatchLenIff(s, n);
        ScanTokenFront(s, n);
        ScanTokenFront(a, n);
        ScanAround(a[n..], x, b);
        SeqAssoc4(Cid(a[..n]), Scan(a[n..]), Cid(x), Scan(b));
      case None =>
        assert s == a + (x + b) && s[0] == a[0] && s[1..] == a[1..] + x + b;
        NoMatchExtends(a, x + b);
        ScanPlainFront(s);
        ScanPlainFront(a);
        ScanAround(a[1..], x, b);
        SeqAssoc4(Plain(a[0]), Scan(a[1..]), Cid(x), Scan(b));
    }
  }

  // ---------------------------------------------------------------------
  // Properties of the substitution

  /** The substitution works token by token, and keeps the text between
      tokens unchanged and in order. */
  lemma SubAround(a: string, x: string, b: string, table: map<int, string>)
    requires IsToken(x)
    ensures Sub(a + x + b, table) == Sub(a, table) + Replace(x, table) + Sub(b, table)
    ensures FindAll(a + x + b) == FindAll(a) + [x] + FindAll(b)
  {
    ScanAround(a, x, b);
    var pa := Scan(a);
    var pb := Scan(b);
    assert Scanned([Cid(x)]);
    RenderAppend(pa, [Cid(x)], table);
    RenderAppend(pa + [Cid(x)], pb, table);
    assert Render([Cid(x)], table) == Replace(x, table);
    TokensAppend(pa, [Cid(x)]);
    TokensAppend(pa + [Cid(x)], pb);
    assert Tokens([Cid(x)]) == [x];
  }

  lemma {:induction false} RenderUnchanged(ps: seq<Piece>, table: map<int, string>)
    requires Scanned(ps)
    requires forall t :: t in Tokens(ps) ==> IsToken(t) && IdOf(t) !in table
    ensures Render(ps, table) == Flatten(ps)
  {
    if |ps| > 0 {
      TokensAppend([ps[0]], ps[1..]);
      assert ps == [ps[0]] + ps[1..];
      RenderUnchanged(ps[1..], table);
    }
  }

  /** A text whose tokens all have unknown ids (in particular, a text with
      no token) comes back unchanged. */
  lemma SubUnchanged(s: string, table: map<int, string>)
    requires forall t :: t in FindAll(s) ==> IdOf(t) !in table
    ensures Sub(s, table) == s
  {
    TokensAreTokens(Scan(s));
    assert FindAll(s) == Tokens(Scan(s));
    RenderUnchanged(Scan(s), table);
  }

  /** A token with a known id becomes the table's text; any other stays verbatim. */
  lemma ReplaceParts(p: Parts, table: map<int, string>)
    requires p.Valid()
    ensures IsToken(p.Text())
    ensures Value(p.digits) in table ==> Replace(p.Text(), table) == table[Value(p.digits)]
    ensures Value(p.digits) !in table ==> Replace(p.Text(), table) == p.Text()
  {
    IdOfParts(p);
  }

  /** Text without `(` holds no token and is left as it is. */
  lemma {:induction false} SubNoParen(s: string, table: map<int, string>)
    requires '(' !in s
    ensures Sub(s, table) == s && FindAll(s) == []
    decreases |s|
  {
    if |s| > 0 {
      assert Step(0, s[0]).None?;
      assert MatchLen(s).None?;
      assert '(' !in s[1..];
      SubNoParen(s[1..], table);
      assert s == [s[0]] + s[1..];
    }
  }

  /** A token between two texts without `(`: only it is replaced. */
  lemma SubToken(a: string, x: string, b: string, table: map<int, string>)
    requires IsToken(x) && '(' !in a && '(' !in b
    ensures Sub(a + x + b, table) == a + Replace(x, table) + b
  {
    SubAround(a, x, b, table);
    SubNoParen(a, table);
    SubNoParen(b, table);
  }

  /** The token `( cid : 426 )`, blanks included, stands for glyph 426 ... */
  lemma LigatureId(x: string)
    requires x == "( cid : 426 )"
    ensures IsToken(x) && IdOf(x) == 426
  {
    var p := Parts(" ", " ", " ", "426", " ");
    assert p.Valid();
    assert p.Text() == x;
    IdOfParts(p);
    assert Value(p.digits) == 426 by {
      var d: string := "426";
      assert d[..2] == "42" && d[..2][..1] == "4" && d[..2][..1][..0] == "";
      assert Value("4") == 4;
      assert Value("42") == 42;
    }
  }

  /** ... which the table maps to the three-letter ligature `ttf`. */
  lemma LigatureToken(x: string)
    requires x == "( cid : 426 )"
    ensures IsToken(x) && Replace(x, CMap) == "ttf"
  {
    LigatureId(x);
    assert CMap[426] == "ttf";
  }

  /** The text around a token is kept. */
  lemma LigatureExample(a: string, x: string, b: string)
    requires a == "x" && x == "( cid : 426 )" && b == "y"
    ensures Sub(a + x + b, CMap) == "xttfy"
  {
    LigatureToken(x);
    SubToken(a, x, b, CMap);
    assert a + "ttf" + b == "xttfy";
  }

  // ---------------------------------------------------------------------
  // Gathering unknown ids

  /** `gather_unknown_cid`: the tokens of the set whose id is not in the
      table, each once, in the order the set is visited. */
  method GatherUnknown(unique: set<string>, table: map<int, string>) returns (res: seq<string>)
    requires forall t :: t in unique ==> IsToken(t)
    ensures forall t :: t in res <==> t in unique && IdOf(t) !in table
    ensures forall i, j :: 0 <= i < j < |res| ==> res[i] != res[j]
  {
    res := [];
    var rest := unique;
    while rest != {}
      invariant rest <= unique
      invariant forall t :: t in res <==> t in unique && t !in rest && IdOf(t) !in table
      invariant forall i, j :: 0 <= i < j < |res| ==> res[i] != res[j]
      decreases |rest|
    {
      var t :| t in rest;
      if IdOf(t) !in table {
        res := res + [t];
      }
      rest := rest - {t};
    }
  }
}
