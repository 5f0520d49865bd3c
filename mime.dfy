/** Content types of served files (`guess_type` in `gethttp3.py`). The
    system table that `mimetypes.init()` reads is a parameter, `types`; the
    server lays its own four entries over it. */
module Mime {
  import opened Util

  const OctetStream := "application/octet-stream"
  const TextPlain := "text/plain"

  /** `extensions_map`: the system table with the server's overrides. */
  function ExtensionsMap(types: map<string, string>): (m: map<string, string>)
    ensures "" in m && m[""] == OctetStream
    ensures forall e :: e in [".py", ".c", ".h"] ==> e in m && m[e] == TextPlain
    ensures forall e :: e in types && e !in ["", ".py", ".c", ".h"] ==> e in m && m[e] == types[e]
    ensures forall e :: e in m ==> e in types || e in ["", ".py", ".c", ".h"]
  {
    types + map["" := OctetStream, ".py" := TextPlain, ".c" := TextPlain, ".h" := TextPlain]
  }

  predicate AllDots(s: string)
  {
    |s| == 0 || (s[0] == '.' && AllDots(s[1..]))
  }

  /** The extension `posixpath.splitext(p)` finds: from the last `.` of the
      last path component, unless the component is only dots up to there
      (so `.bashrc` has none). */
  function Ext(p: string): (e: string)
    ensures e == "" || (|e| <= |p| && e[0] == '.' && e == p[|p| - |e|..] && '/' !in e)
  {
    var s := RFind(p, '/');
    var d := RFind(p, '.');
    if d > s && !AllDots(p[s + 1..d]) then
      assert p[d..] == p[|p| - |p[d..]|..];
      assert forall i :: d <= i < |p| ==> p[i] in p[s + 1..];
      p[d..]
    else ""
  }

  /** `guess_type`: the exact extension first, then its lower-case form,
      then the table's default entry. */
  function GuessType(path: string, types: map<string, string>): string
  {
    var m := ExtensionsMap(types);
    var ext := Ext(path);
    if ext in m then m[ext]
    else if Lower(ext) in m then m[Lower(ext)]
    else m[""]
  }

  /** The three outcomes of `guess_type`, in order of preference. */
  lemma GuessTypeCases(path: string, types: map<string, string>)
    ensures var m := ExtensionsMap(types); var e := Ext(path);
      && (e in m ==> GuessType(path, types) == m[e])
      && (e !in m && Lower(e) in m ==> GuessType(path, types) == m[Lower(e)])
      && (e !in m && Lower(e) !in m ==> GuessType(path, types) == OctetStream)
  {
  }

  /** The extensions the server's own table entries hide in the system table. */
  const Overridden := ["", ".py", ".c", ".h"]

  /** `guess_type` stated against the system table alone: an extension the
      server does not override gets the system's type, first as written and
      then in lower case; an unknown one whose lower-case form is a source
      extension is plain text; anything else is `application/octet-stream`. */
  lemma GuessTypeSystem(path: string, types: map<string, string>)
    ensures var e := Ext(path); var l := Lower(e);
      && (e in types && e !in Overridden ==> GuessType(path, types) == types[e])
      && (e !in types && e !in Overridden && l in types && l !in Overridden ==> GuessType(path, types) == types[l])
      && (e !in types && e !in Overridden && l in [".py", ".c", ".h"] ==> GuessType(path, types) == TextPlain)
      && (e !in types && l !in types && l !in [".py", ".c", ".h"] ==> GuessType(path, types) == OctetStream)
  {
    var e := Ext(path);
    var l := Lower(e);
    if e !in types && e !in Overridden {
      assert e !in ExtensionsMap(types);
    }
    if e !in types && l !in types && l !in [".py", ".c", ".h"] {
      GuessDefault(path, types);
    }
  }

  /** Source extensions are already lower case. */
  lemma LowerSource(e: string)
    requires e in [".py", ".c", ".h"]
    ensures Lower(e) == e
  {
    assert e == ".py" || e == ".c" || e == ".h";
    assert |Lower(e)| == |e|;
    assert forall i :: 0 <= i < |e| ==> Lower(e)[i] == LowerChar(e[i]) == e[i];
  }

  lemma GuessDefault(path: string, types: map<string, string>)
    requires Ext(path) !in types && Lower(Ext(path)) !in types && Lower(Ext(path)) !in [".py", ".c", ".h"]
    ensures GuessType(path, types) == OctetStream
  {
    var m := ExtensionsMap(types);
    var e := Ext(path);
    if e == "" {
      assert e in m;
    } else {
      assert |Lower(e)| == |e| > 0;
      if e in [".py", ".c", ".h"] {
        LowerSource(e);
        assert false;
      }
      assert e !in m && Lower(e) !in m;
    }
  }

  /** Every answer is a type of the system table, plain text, or
      `application/octet-stream`. */
  lemma GuessTypeRange(path: string, types: map<string, string>)
    ensures var t := GuessType(path, types);
      t in types.Values || t == TextPlain || t == OctetStream
  {
    var m := ExtensionsMap(types);
    var e := Ext(path);
    if e in m {
      if e !in Overridden {
        assert e in types;
      }
    } else if Lower(e) in m {
      if Lower(e) !in Overridden {
        assert Lower(e) in types;
      }
    }
  }

  /** Python and C sources are shown as plain text, whatever the system table says. */
  lemma SourceIsText(path: string, types: map<string, string>)
    requires Ext(path) in [".py", ".c", ".h"]
    ensures GuessType(path, types) == TextPlain
  {
  }

  /** A file without extension is served as `application/octet-stream`. */
  lemma NoExtIsOctetStream(path: string, types: map<string, string>)
    requires Ext(path) == ""
    ensures GuessType(path, types) == OctetStream
  {
    assert Ext(path) in ExtensionsMap(types);
  }

  /** An extension such as `.PY` whose lower-case form is a source
      extension is served as plain text unless the system table knows it. */
  lemma UpperCaseSource(path: string, types: map<string, string>)
    requires Lower(Ext(path)) in [".py", ".c", ".h"] && Ext(path) !in types
    ensures GuessType(path, types) == TextPlain
  {
    var m := ExtensionsMap(types);
    if Ext(path) in m {
      assert Ext(path) in [".py", ".c", ".h"] || Ext(path) == "";
    }
  }

  /** A name made of one dot and a dot-free word, such as `.bashrc`, has
      no extension: leading dots do not start one. */
  lemma DotFile(dir: string, word: string)
    requires '/' !in word && '.' !in word
    ensures Ext(dir + "/." + word) == ""
  {
    var p := dir + "/." + word;
    assert p[|dir|] == '/' && p[|dir| + 1] == '.';
    assert p[|dir| + 2..] == word;
    assert p[|dir| + 1..] == "." + word;
    RFindIs(p, '/', |dir|);
    RFindIs(p, '.', |dir| + 1);
    assert p[|dir| + 1..|dir| + 1] == "";
  }

  /** Only the last dot counts: `x.tar.gz` has the extension `.gz`. */
  lemma LastDot(dir: string, stem: string, ext: string)
    requires '/' !in stem && '/' !in ext && '.' !in ext && !AllDots(stem)
    ensures Ext(dir + "/" + stem + "." + ext) == "." + ext
  {
    var p := dir + "/" + stem + "." + ext;
    var d := |dir| + 1 + |stem|;
    SlashOf(dir, stem, ext);
    LastOf(dir + "/" + stem, '.', ext);
    assert RFind(p, '.') == d;
    assert RFind(p, '/') == |dir|;
    assert p[|dir| + 1..d] == stem;
    ExtIs(p, |dir|, d, stem);
  }

  lemma SlashOf(dir: string, stem: string, ext: string)
    requires '/' !in stem && '/' !in ext
    ensures var p := dir + "/" + stem + "." + ext;
      RFind(p, '/') == |dir| && p[|dir| + 1..|dir| + 1 + |stem|] == stem
  {
    var tail := stem + "." + ext;
    Regroup(dir + "/", stem, ".", ext);
    LastOf(dir, '/', tail);
    assert tail[..|stem|] == stem;
  }

  lemma ExtIs(p: string, s: int, d: int, word: string)
    requires RFind(p, '/') == s && RFind(p, '.') == d && s < d
    requires p[s + 1..d] == word && !AllDots(word)
    ensures Ext(p) == p[d..]
  {
  }

  lemma Regroup(a: string, b: string, c: string, d: string)
    ensures a + b + c + d == a + (b + c + d)
  {
  }

  /** In `a x b` with no `x` in `b`, the last `x` is the one after `a`. */
  lemma LastOf(a: string, x: char, b: string)
    requires x !in b
    ensures RFind(a + [x] + b, x) == |a|
    ensures (a + [x] + b)[|a|..] == [x] + b && (a + [x] + b)[|a| + 1..] == b
  {
    var p := a + [x] + b;
    assert p[|a| + 1..] == b;
    RFindIs(p, x, |a|);
  }
}
