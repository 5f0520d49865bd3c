/** POSIX path handling of the upload server (`gethttp3.py`): the parts of
    `posixpath` it relies on (`join`, `normpath`, `dirname`, `basename`) and
    `translate_path`, which maps a request path to a file under the
    server's working directory. */
module Paths {
  import opened Util

  predicate IsAbsolute(p: string)
  {
    |p| > 0 && p[0] == '/'
  }

  /** `posixpath.join(a, b)`: an absolute `b` replaces `a`; otherwise `b`
      is appended after a `/` unless `a` is empty or already ends in one. */
  function PathJoin(a: string, b: string): (r: string)
    ensures IsAbsolute(b) ==> r == b
    ensures !IsAbsolute(b) ==> |r| >= |a| + |b| && r[..|a|] == a && r[|r| - |b|..] == b
  {
    if IsAbsolute(b) then b
    else if |a| == 0 || a[|a| - 1] == '/' then a + b
    else a + "/" + b
  }

  /** `os.path.basename(p)`, the second half of `os.path.split(p)`. */
  function Basename(p: string): (r: string)
    ensures '/' !in r
    ensures '/' !in p ==> r == p
  {
    p[RFind(p, '/') + 1..]
  }

  /** `s.rstrip("/")`. */
  function RStripSlashes(s: string): (r: string)
    ensures r <= s && !EndsWith(r, '/')
    ensures forall i :: |r| <= i < |s| ==> s[i] == '/'
  {
    if |s| > 0 && s[|s| - 1] == '/' then RStripSlashes(s[..|s| - 1]) else s
  }

  /** `posixpath.dirname(p)`: everything before the last `/`, with trailing
      slashes removed unless nothing but slashes is left. */
  function Dirname(p: string): string
  {
    var head := p[..RFind(p, '/') + 1];
    var stripped := RStripSlashes(head);
    if |stripped| > 0 then stripped else head
  }

  /** The containing directory of `d/n` is `d`. */
  lemma DirnameJoin(d: string, n: string)
    requires |d| > 0 && !EndsWith(d, '/') && '/' !in n && !IsAbsolute(n)
    ensures Dirname(PathJoin(d, n)) == d
  {
    var p := d + "/" + n;
    assert PathJoin(d, n) == p;
    assert p[|d|] == '/';
    assert p[|d| + 1..] == n;
    assert RFind(p, '/') == |d|;
    assert p[..|d| + 1] == d + "/";
    assert (d + "/")[..|d|] == d;
  }

  // ---------------------------------------------------------------------
  // posixpath.normpath

  /** Leading slashes `normpath` keeps: two stay two, one or three and
      more become one. */
  function InitialSlashes(p: string): (k: nat)
    ensures k <= 2
    ensures k > 0 <==> IsAbsolute(p)
  {
    if |p| >= 2 && p[0] == '/' && p[1] == '/' && !(|p| >= 3 && p[2] == '/') then 2
    else if |p| >= 1 && p[0] == '/' then 1
    else 0
  }

  /** One component of `normpath`'s loop: empty and `.` components vanish,
      `..` removes the previous component, except at the start of a relative
      path or after another `..`, and is dropped at the root. */
  function NormStep(acc: seq<string>, comp: string, rooted: bool): seq<string>
  {
    if comp == "" || comp == "." then acc
    else if comp != ".." || (!rooted && |acc| == 0) || (|acc| > 0 && acc[|acc| - 1] == "..") then acc + [comp]
    else if |acc| > 0 then acc[..|acc| - 1]
    else acc
  }

  function NormComps(comps: seq<string>, rooted: bool): seq<string>
  {
    if |comps| == 0 then []
    else NormStep(NormComps(comps[..|comps| - 1], rooted), comps[|comps| - 1], rooted)
  }

  /** `posixpath.normpath(p)`. */
  function NormPath(p: string): string
  {
    if p == "" then "."
    else
      var k := InitialSlashes(p);
      var path := (if k == 2 then "//" else if k == 1 then "/" else "") + Join(NormComps(Split(p, '/'), k > 0), "/");
      if path == "" then "." else path
  }

  /** The components `normpath` keeps are real names, and `..` survives only
      as a leading run of a relative path. */
  predicate Clean(cs: seq<string>, rooted: bool)
  {
    (forall i :: 0 <= i < |cs| ==> cs[i] != "" && cs[i] != ".")
    && (forall i :: 0 <= i < |cs| && rooted ==> cs[i] != "..")
    && (forall i, j :: 0 <= i < j < |cs| && cs[j] == ".." ==> cs[i] == "..")
  }

  lemma {:induction false} NormCompsClean(comps: seq<string>, rooted: bool)
    ensures Clean(NormComps(comps, rooted), rooted)
    ensures forall c :: c in NormComps(comps, rooted) ==> c in comps
    decreases |comps|
  {
    if |comps| > 0 {
      var pre := comps[..|comps| - 1];
      NormCompsClean(pre, rooted);
      var acc := NormComps(pre, rooted);
      var c := comps[|comps| - 1];
      assert forall x :: x in pre ==> x in comps;
      assert c in comps;
      if c != "" && c != "." && c == ".." && !(!rooted && |acc| == 0) && !(|acc| > 0 && acc[|acc| - 1] == "..") && |acc| > 0 {
        var r := acc[..|acc| - 1];
        assert forall i :: 0 <= i < |r| ==> r[i] == acc[i];
        assert forall x :: x in r ==> x in acc;
      }
    }
  }

  // ---------------------------------------------------------------------
  // translate_path

  /** `path.split("?", 1)[0].split("#", 1)[0]`. */
  function StripQuery(p: string): (r: string)
    ensures '?' !in r && '#' !in r
  {
    var q := BeforeFirst(p, '?');
    BeforeFirstIsPrefix(p, '?');
    BeforeFirstIsPrefix(q, '#');
    var r := BeforeFirst(q, '#');
    assert forall i :: 0 <= i < |r| ==> r[i] == q[i];
    r
  }

  /** `filter(None, words)`: the non-empty strings, in order. */
  function NonEmpty(ws: seq<string>): (r: seq<string>)
    ensures forall w :: w in r <==> w in ws && w != ""
  {
    if |ws| == 0 then []
    else NonEmpty(ws[..|ws| - 1]) + (if ws[|ws| - 1] == "" then [] else [ws[|ws| - 1]])
  }

  /** The words `translate_path` iterates over. */
  function Words(p: string): seq<string>
  {
    NonEmpty(Split(NormPath(StripQuery(p)), '/'))
  }

  /** `os.curdir` or `os.pardir`. */
  predicate IsDotName(w: string)
  {
    w == "." || w == ".."
  }

  /** One iteration of `translate_path`'s loop. */
  function AddWord(path: string, word: string): string
  {
    var w := Basename(word);
    if IsDotName(w) then path else PathJoin(path, w)
  }

  function AddWords(path: string, ws: seq<string>): string
  {
    if |ws| == 0 then path else AddWord(AddWords(path, ws[..|ws| - 1]), ws[|ws| - 1])
  }

  /** The file a request path names, below the working directory `cwd`. */
  function Translate(cwd: string, p: string): string
  {
    AddWords(cwd, Words(p))
  }

  /** `translate_path`: the working directory is passed in as `cwd`, and the
      path is taken as already percent-decoded. */
  method TranslatePath(cwd: string, requestPath: string) returns (path: string)
    ensures path == Translate(cwd, requestPath)
  {
    path := StripQuery(requestPath);
    path := NormPath(path);
    var words := NonEmpty(Split(path, '/'));
    path := cwd;
    for i := 0 to |words|
      invariant path == AddWords(cwd, words[..i])
    {
      assert words[..i + 1][..i] == words[..i];
      var word := Basename(words[i]);
      if IsDotName(word) {
        continue;
      }
      path := PathJoin(path, word);
    }
    assert words[..|words|] == words;
  }

  // ---------------------------------------------------------------------
  // Properties of translate_path

  /** The names `translate_path` appends: the words other than `.` and `..`. */
  function Kept(ws: seq<string>): seq<string>
  {
    if |ws| == 0 then []
    else Kept(ws[..|ws| - 1]) + (if IsDotName(ws[|ws| - 1]) then [] else [ws[|ws| - 1]])
  }

  /** `"/" + w` for every name, concatenated. */
  function Slashed(ws: seq<string>): string
  {
    if |ws| == 0 then [] else Slashed(ws[..|ws| - 1]) + "/" + ws[|ws| - 1]
  }

  predicate NoSlash(w: string)
  {
    |w| == 0 || (w[0] != '/' && NoSlash(w[1..]))
  }

  lemma {:induction false} NoSlashIff(w: string)
    ensures NoSlash(w) <==> '/' !in w
    decreases |w|
  {
    if |w| > 0 {
      NoSlashIff(w[1..]);
      assert w == [w[0]] + w[1..];
    }
  }

  /** A name `translate_path` can append: non-empty and free of `/`. */
  predicate IsName(w: string)
  {
    w != "" && NoSlash(w)
  }

  lemma {:induction false} KeptClean(ws: seq<string>)
    requires forall i :: 0 <= i < |ws| ==> IsName(ws[i])
    ensures forall i :: 0 <= i < |Kept(ws)| ==> IsName(Kept(ws)[i]) && !IsDotName(Kept(ws)[i])
    decreases |ws|
  {
    if |ws| > 0 {
      var pre := ws[..|ws| - 1];
      KeptClean(pre);
    }
  }

  lemma {:induction false} NoSlashLast(w: string)
    requires |w| > 0 && NoSlash(w)
    ensures w[|w| - 1] != '/'
    decreases |w|
  {
    if |w| > 1 {
      NoSlashLast(w[1..]);
    }
  }

  /** `cwd/n1/.../nk` does not end in `/`. */
  lemma {:induction false} SlashedLast(cwd: string, ks: seq<string>)
    requires |cwd| > 0 && !EndsWith(cwd, '/')
    requires forall i :: 0 <= i < |ks| ==> IsName(ks[i])
    ensures |cwd + Slashed(ks)| > 0 && !EndsWith(cwd + Slashed(ks), '/')
  {
    if |ks| > 0 {
      var last := ks[|ks| - 1];
      assert IsName(last);
      var x := cwd + Slashed(ks);
      assert x == (cwd + Slashed(ks[..|ks| - 1]) + "/") + last;
      assert x[|x| - 1] == last[|last| - 1];
      NoSlashLast(last);
    }
  }

  lemma JoinName(x: string, w: string)
    requires |x| > 0 && !EndsWith(x, '/') && IsName(w)
    ensures PathJoin(x, w) == x + "/" + w
  {
  }

  lemma SlashedSnoc(cwd: string, ks: seq<string>, w: string)
    ensures cwd + Slashed(ks + [w]) == cwd + Slashed(ks) + "/" + w
  {
    assert (ks + [w])[..|ks|] == ks;
  }

  /** Appending one more name to `cwd/n1/.../nk`. */
  lemma SlashedStep(cwd: string, ks: seq<string>, w: string)
    requires |cwd| > 0 && !EndsWith(cwd, '/')
    requires forall i :: 0 <= i < |ks| ==> IsName(ks[i])
    requires IsName(w)
    ensures PathJoin(cwd + Slashed(ks), w) == cwd + Slashed(ks + [w])
  {
    SlashedLast(cwd, ks);
    JoinName(cwd + Slashed(ks), w);
    SlashedSnoc(cwd, ks, w);
  }

  lemma {:induction false} AddWordsSlashed(cwd: string, ws: seq<string>)
    requires |cwd| > 0 && !EndsWith(cwd, '/')
    requires forall i :: 0 <= i < |ws| ==> IsName(ws[i])
    ensures AddWords(cwd, ws) == cwd + Slashed(Kept(ws))
    decreases |ws|
  {
    if |ws| > 0 {
      var pre := ws[..|ws| - 1];
      AddWordsSlashed(cwd, pre);
      var w := ws[|ws| - 1];
      assert IsName(w);
      NoSlashIff(w);
      assert Basename(w) == w;
      assert AddWords(cwd, ws) == AddWord(AddWords(cwd, pre), w);
      if !IsDotName(w) {
        KeptClean(pre);
        SlashedStep(cwd, Kept(pre), w);
        assert Kept(ws) == Kept(pre) + [w];
      } else {
        assert Kept(ws) == Kept(pre);
      }
    }
  }

  /** `/n1/.../nk` (k > 0) does not end in `/`. */
  lemma SlashedNames(ks: seq<string>)
    requires |ks| > 0
    requires forall i :: 0 <= i < |ks| ==> IsName(ks[i])
    ensures |Slashed(ks)| > 0 && !EndsWith(Slashed(ks), '/')
  {
    var last := ks[|ks| - 1];
    assert IsName(last);
    var x := Slashed(ks);
    assert x == (Slashed(ks[..|ks| - 1]) + "/") + last;
    assert x[|x| - 1] == last[|last| - 1];
    NoSlashLast(last);
  }

  /** Below the root directory, the first kept name replaces the lone `/`:
      the loop builds `/n1/.../nk`, or leaves `/` when nothing is kept. */
  lemma {:induction false} AddWordsRoot(ws: seq<string>)
    requires forall i :: 0 <= i < |ws| ==> IsName(ws[i])
    ensures AddWords("/", ws) == if |Kept(ws)| == 0 then "/" else Slashed(Kept(ws))
    decreases |ws|
  {
    if |ws| > 0 {
      var pre := ws[..|ws| - 1];
      AddWordsRoot(pre);
      var w := ws[|ws| - 1];
      assert IsName(w);
      NoSlashIff(w);
      assert Basename(w) == w;
      assert AddWords("/", ws) == AddWord(AddWords("/", pre), w);
      if !IsDotName(w) {
        assert Kept(ws) == Kept(pre) + [w];
        KeptClean(pre);
        if |Kept(pre)| == 0 {
          assert Slashed([w]) == Slashed([]) + "/" + w;
          assert Kept(ws) == [w];
        } else {
          SlashedNames(Kept(pre));
          JoinName(Slashed(Kept(pre)), w);
          SlashedSnoc("", Kept(pre), w);
        }
      } else {
        assert Kept(ws) == Kept(pre);
      }
    }
  }

  lemma WordsFree(p: string)
    ensures forall i :: 0 <= i < |Words(p)| ==> IsName(Words(p)[i])
  {
    SplitPiecesFree(NormPath(StripQuery(p)), '/');
    var ws := Words(p);
    forall i | 0 <= i < |ws|
      ensures IsName(ws[i])
    {
      assert ws[i] in ws;
      NoSlashIff(ws[i]);
    }
  }

  /** `translate_path` never leaves the working directory: its result is
      `cwd` followed by `/name` segments, where no name is empty, `.` or
      `..` or contains a `/`. A server started in `/` is the one case where
      the working directory ends in `/`; there the segments follow the root's
      own slash. */
  lemma TranslateUnder(cwd: string, p: string)
    requires |cwd| > 0 && (cwd == "/" || !EndsWith(cwd, '/'))
    ensures Translate(cwd, p)
      == if cwd == "/" && |Kept(Words(p))| > 0 then Slashed(Kept(Words(p))) else cwd + Slashed(Kept(Words(p)))
    ensures forall i :: 0 <= i < |Kept(Words(p))| ==> IsName(Kept(Words(p))[i]) && !IsDotName(Kept(Words(p))[i])
  {
    WordsFree(p);
    if cwd == "/" {
      AddWordsRoot(Words(p));
      if |Kept(Words(p))| == 0 {
        assert Slashed(Kept(Words(p))) == "";
        assert cwd + "" == cwd;
      }
    } else {
      AddWordsSlashed(cwd, Words(p));
    }
    KeptClean(Words(p));
  }

  /** The query string and the fragment do not affect the file. */
  lemma TranslateIgnoresQuery(cwd: string, p: string, c: char, rest: string)
    requires '?' !in p && '#' !in p && (c == '?' || c == '#')
    ensures Translate(cwd, p + [c] + rest) == Translate(cwd, p)
  {
    BeforeFirstNoSep(p, '?');
    BeforeFirstNoSep(p, '#');
    if c == '?' {
      BeforeFirstAt(p, '?', rest);
    } else {
      assert p + [c] + rest == p + ([c] + rest);
      BeforeFirstPrefix(p, '?', [c] + rest);
      assert BeforeFirst([c] + rest, '?') == [c] + BeforeFirst(rest, '?');
      assert p + BeforeFirst([c] + rest, '?') == p + [c] + BeforeFirst(rest, '?');
      BeforeFirstAt(p, '#', BeforeFirst(rest, '?'));
    }
    assert StripQuery(p + [c] + rest) == StripQuery(p);
  }

  /** The empty path names the working directory itself ... */
  lemma TranslateEmpty(cwd: string, p: string)
    requires p == ""
    ensures Translate(cwd, p) == cwd
  {
    assert StripQuery(p) == p;
    var n := NormPath(p);
    assert n == ".";
    SplitNoSep(n, '/');
    assert [n][..0] == [];
    assert NonEmpty([n]) == NonEmpty([]) + [n];
    var ws := NonEmpty(Split(n, '/'));
    assert ws == [n];
    assert AddWords(cwd, ws) == AddWord(cwd, n);
  }

  /** ... and so does `/`. */
  lemma TranslateSlash(cwd: string)
    ensures Translate(cwd, "/") == cwd
  {
    SplitAt("", '/', "");
    assert "" + ['/'] + "" == "/";
    assert Split("/", '/') == ["", ""];
    assert StripQuery("/") == "/" by {
      assert BeforeFirst("/", '?') == "/";
      assert BeforeFirst("/", '#') == "/";
    }
    assert ["", ""][..1] == [""];
    assert NormComps(["", ""], true) == [];
    assert NormPath("/") == "/";
    assert NonEmpty(["", ""]) == [];
  }

  lemma {:induction false} SplitTrailingSep(a: string)
    ensures Split(a + "/", '/') == Split(a, '/') + [""]
    decreases |a|
  {
    if |a| == 0 {
      assert a + "/" == "/";
    } else {
      assert (a + "/")[1..] == a[1..] + "/";
      SplitTrailingSep(a[1..]);
    }
  }

  lemma NormCompsTrailingEmpty(cs: seq<string>, rooted: bool)
    ensures NormComps(cs + [""], rooted) == NormComps(cs, rooted)
  {
    assert (cs + [""])[..|cs|] == cs;
  }

  /** A trailing slash does not change the normalised path of a path that
      has none. */
  lemma NormPathTrailingSlash(p: string)
    requires p != "" && !EndsWith(p, '/')
    ensures NormPath(p + "/") == NormPath(p)
  {
    var q := p + "/";
    assert q[0] == p[0];
    if |p| >= 2 {
      assert q[1] == p[1];
    }
    if |p| >= 3 {
      assert q[2] == p[2];
    }
    assert InitialSlashes(q) == InitialSlashes(p);
    SplitTrailingSep(p);
    NormCompsTrailingEmpty(Split(p, '/'), InitialSlashes(p) > 0);
  }

  /** The redirect `send_head` answers a directory request without a
      trailing slash with names the same directory, as long as the path
      carries no query or fragment. */
  lemma TranslateTrailingSlash(cwd: string, p: string)
    requires '?' !in p && '#' !in p && !EndsWith(p, '/')
    ensures Translate(cwd, p + "/") == Translate(cwd, p)
  {
    var q := p + "/";
    assert '?' !in q && '#' !in q;
    BeforeFirstNoSep(p, '?');
    BeforeFirstNoSep(p, '#');
    BeforeFirstNoSep(q, '?');
    BeforeFirstNoSep(q, '#');
    assert StripQuery(q) == q && StripQuery(p) == p;
    if p == "" {
      TranslateEmpty(cwd, p);
      assert q == "/";
      TranslateSlash(cwd);
    } else {
      NormPathTrailingSlash(p);
    }
  }
}
