/** GET and HEAD handling of `gethttp3.py`: `send_head` routes a request
    to a redirect, an index file, a directory listing, a file or a 404;
    `list_directory` builds the listing page. */
module Responder {
  import opened Util
  import opened Paths
  import opened Files
  import opened Http
  import opened Markup
  import Mime

  // ---------------------------------------------------------------------
  // file_list.sort(key=lambda a: a.lower())

  /** The sort key. */
  function SortKey(a: string): string
  {
    Lower(a)
  }

  /** `a` may come before `b`: its key is not greater. */
  predicate KeyLe(a: string, b: string)
  {
    !Less(SortKey(b), SortKey(a))
  }

  predicate Sorted(s: seq<string>)
  {
    forall i, j :: 0 <= i < j < |s| ==> KeyLe(s[i], s[j])
  }

  lemma KeyLeTrans(a: string, b: string, c: string)
    requires KeyLe(a, b) && KeyLe(b, c)
    ensures KeyLe(a, c)
  {
    var ka, kb, kc := SortKey(a), SortKey(b), SortKey(c);
    LessTotal(ka, kb);
    LessTotal(kb, kc);
    if Less(kc, ka) {
      if Less(ka, kb) {
        LessTransitive(kc, ka, kb);
        LessIrreflexive(kb);
        if Less(kb, kc) {
          LessTransitive(kb, kc, kb);
        }
      } else {
        if Less(kb, kc) {
          LessTransitive(kb, kc, ka);
        }
      }
      LessIrreflexive(ka);
      LessIrreflexive(kb);
      LessIrreflexive(kc);
    }
  }

  /** A key strictly below `b`'s lies below everything after `b` too. */
  lemma BelowTrans(x: string, b: string, c: string)
    requires Less(SortKey(x), SortKey(b)) && KeyLe(b, c)
    ensures Less(SortKey(x), SortKey(c)) && SortKey(c) != SortKey(x)
  {
    LessTotal(SortKey(b), SortKey(c));
    if Less(SortKey(b), SortKey(c)) {
      LessTransitive(SortKey(x), SortKey(b), SortKey(c));
    }
    LessIrreflexive(SortKey(x));
  }

  /** `x` goes in front of the first element with a greater key: after
      every element whose key equals its own. */
  function Insert(x: string, s: seq<string>): seq<string>
  {
    if |s| == 0 then [x]
    else if Less(SortKey(x), SortKey(s[0])) then [x] + s
    else [s[0]] + Insert(x, s[1..])
  }

  /** The result of Python's stable sort by `str.lower`: names inserted
      one by one in their original order. */
  function SortByLower(s: seq<string>): seq<string>
  {
    if |s| == 0 then [] else Insert(s[|s| - 1], SortByLower(s[..|s| - 1]))
  }

  /** Inserting adds exactly one name. */
  lemma {:induction false} InsertPerm(x: string, s: seq<string>)
    ensures multiset(Insert(x, s)) == multiset(s) + multiset{x}
    decreases |s|
  {
    if |s| > 0 && !Less(SortKey(x), SortKey(s[0])) {
      InsertPerm(x, s[1..]);
      assert s == [s[0]] + s[1..];
    }
  }

  /** Sorting neither drops nor duplicates a name. */
  lemma {:induction false} SortPerm(s: seq<string>)
    ensures multiset(SortByLower(s)) == multiset(s)
    decreases |s|
  {
    if |s| > 0 {
      SortPerm(s[..|s| - 1]);
      InsertPerm(s[|s| - 1], SortByLower(s[..|s| - 1]));
      assert s == s[..|s| - 1] + [s[|s| - 1]];
    }
  }

  /** Consing a name no greater than any of a sorted list keeps it sorted. */
  lemma SortedCons(a: string, t: seq<string>)
    requires Sorted(t)
    requires forall j :: 0 <= j < |t| ==> KeyLe(a, t[j])
    ensures Sorted([a] + t)
  {
    var r := [a] + t;
    forall i, j | 0 <= i < j < |r|
      ensures KeyLe(r[i], r[j])
    {
      assert r[j] == t[j - 1];
      if i > 0 {
        assert r[i] == t[i - 1];
      }
    }
  }

  lemma SortedTail(s: seq<string>)
    requires Sorted(s) && |s| > 0
    ensures Sorted(s[1..])
    ensures forall j :: 0 <= j < |s[1..]| ==> KeyLe(s[0], s[1..][j])
  {
    forall i, j | 0 <= i < j < |s[1..]|
      ensures KeyLe(s[1..][i], s[1..][j])
    {
      assert s[1..][i] == s[i + 1] && s[1..][j] == s[j + 1];
    }
    forall j | 0 <= j < |s[1..]|
      ensures KeyLe(s[0], s[1..][j])
    {
      assert s[1..][j] == s[j + 1];
    }
  }

  /** Every element of `t` drawn from `s` or equal to `x` lies above `a`. */
  lemma AllAbove(a: string, x: string, s: seq<string>, t: seq<string>)
    requires forall j :: 0 <= j < |s| ==> KeyLe(a, s[j])
    requires KeyLe(a, x)
    requires multiset(t) == multiset(s) + multiset{x}
    ensures forall j :: 0 <= j < |t| ==> KeyLe(a, t[j])
  {
    forall j | 0 <= j < |t|
      ensures KeyLe(a, t[j])
    {
      assert t[j] in multiset(t);
      if t[j] != x {
        assert t[j] in multiset(s);
        var k :| 0 <= k < |s| && s[k] == t[j];
      }
    }
  }

  lemma {:induction false} InsertSorted(x: string, s: seq<string>)
    requires Sorted(s)
    ensures Sorted(Insert(x, s))
    decreases |s|
  {
    if |s| > 0 {
      SortedTail(s);
      if Less(SortKey(x), SortKey(s[0])) {
        forall j | 0 <= j < |s|
          ensures KeyLe(x, s[j])
        {
          if j == 0 {
            LessTotal(SortKey(x), SortKey(s[0]));
            LessIrreflexive(SortKey(x));
            if Less(SortKey(s[0]), SortKey(x)) {
              LessTransitive(SortKey(x), SortKey(s[0]), SortKey(x));
            }
          } else {
            assert s[j] == s[1..][j - 1];
            BelowTrans(x, s[0], s[j]);
            LessTotal(SortKey(x), SortKey(s[j]));
            if Less(SortKey(s[j]), SortKey(x)) {
              LessTransitive(SortKey(x), SortKey(s[j]), SortKey(x));
              LessIrreflexive(SortKey(x));
            }
          }
        }
        SortedCons(x, s);
      } else {
        InsertSorted(x, s[1..]);
        InsertPerm(x, s[1..]);
        AllAbove(s[0], x, s[1..], Insert(x, s[1..]));
        SortedCons(s[0], Insert(x, s[1..]));
      }
    }
  }

  lemma {:induction false} SortedSort(s: seq<string>)
    ensures Sorted(SortByLower(s))
    decreases |s|
  {
    if |s| > 0 {
      SortedSort(s[..|s| - 1]);
      InsertSorted(s[|s| - 1], SortByLower(s[..|s| - 1]));
    }
  }

  /** The names of `s` with key `k`, in order. */
  function WithKey(s: seq<string>, k: string): (r: seq<string>)
  {
    if |s| == 0 then []
    else Own(s[0], k) + WithKey(s[1..], k)
  }

  lemma {:induction false} WithKeyAppend(a: seq<string>, b: seq<string>, k: string)
    ensures WithKey(a + b, k) == WithKey(a, k) + WithKey(b, k)
    decreases |a|
  {
    if |a| == 0 {
      assert a + b == b;
    } else {
      assert (a + b)[1..] == a[1..] + b;
      WithKeyAppend(a[1..], b, k);
    }
  }

  /** No name with key `k` in a list whose keys all lie above it. */
  lemma {:induction false} WithKeyAbove(x: string, s: seq<string>)
    requires |s| > 0 && Sorted(s) && Less(SortKey(x), SortKey(s[0]))
    ensures WithKey(s, SortKey(x)) == []
  {
    forall j | 0 <= j < |s|
      ensures SortKey(s[j]) != SortKey(x)
    {
      if j == 0 {
        LessIrreflexive(SortKey(x));
      } else {
        BelowTrans(x, s[0], s[j]);
      }
    }
    WithKeyNone(s, SortKey(x));
  }

  lemma {:induction false} WithKeyNone(s: seq<string>, k: string)
    requires forall j :: 0 <= j < |s| ==> SortKey(s[j]) != k
    ensures WithKey(s, k) == []
    decreases |s|
  {
    if |s| > 0 {
      WithKeyNone(s[1..], k);
    }
  }

  lemma WithKeyCons(a: string, t: seq<string>, k: string)
    ensures WithKey([a] + t, k) == Own(a, k) + WithKey(t, k)
  {
    assert ([a] + t)[1..] == t;
  }

  lemma InsertUnfold(x: string, s: seq<string>)
    requires |s| > 0 && !Less(SortKey(x), SortKey(s[0]))
    ensures Insert(x, s) == [s[0]] + Insert(x, s[1..])
  {
  }

  function Own(x: string, k: string): seq<string>
  {
    if SortKey(x) == k then [x] else []
  }

  lemma InsertWithKeyFront(x: string, s: seq<string>, k: string)
    requires |s| > 0 && Sorted(s) && Less(SortKey(x), SortKey(s[0]))
    ensures WithKey(Insert(x, s), k) == WithKey(s, k) + Own(x, k)
  {
    WithKeyCons(x, s, k);
    if SortKey(x) == k {
      WithKeyAbove(x, s);
    }
  }

  lemma InsertWithKeyStep(x: string, s: seq<string>, k: string)
    requires |s| > 0 && !Less(SortKey(x), SortKey(s[0]))
    requires WithKey(Insert(x, s[1..]), k) == WithKey(s[1..], k) + Own(x, k)
    ensures WithKey(Insert(x, s), k) == WithKey(s, k) + Own(x, k)
  {
    var a, b, c := Own(s[0], k), WithKey(s[1..], k), Own(x, k);
    assert WithKey(Insert(x, s), k) == a + (b + c) by {
      InsertUnfold(x, s);
      WithKeyCons(s[0], Insert(x, s[1..]), k);
    }
    assert WithKey(s, k) == a + b by {
      WithKeyCons(s[0], s[1..], k);
      assert [s[0]] + s[1..] == s;
    }
    SeqAssoc(a, b, c);
  }

  lemma {:induction false} InsertWithKey(x: string, s: seq<string>, k: string)
    requires Sorted(s)
    ensures WithKey(Insert(x, s), k) == WithKey(s, k) + Own(x, k)
    decreases |s|
  {
    if |s| == 0 {
      WithKeyCons(x, [], k);
    } else if Less(SortKey(x), SortKey(s[0])) {
      InsertWithKeyFront(x, s, k);
    } else {
      SortedTail(s);
      InsertWithKey(x, s[1..], k);
      InsertWithKeyStep(x, s, k);
    }
  }

  /** The sort is stable: names with equal keys keep their order. */
  lemma {:induction false} SortStable(s: seq<string>, k: string)
    ensures WithKey(SortByLower(s), k) == WithKey(s, k)
    decreases |s|
  {
    if |s| > 0 {
      var init, last := s[..|s| - 1], s[|s| - 1];
      SortStable(init, k);
      SortedSort(init);
      InsertWithKey(last, SortByLower(init), k);
      SortLast(s);
      WithKeyLast(s, k);
    }
  }

  lemma SortLast(s: seq<string>)
    requires |s| > 0
    ensures SortByLower(s) == Insert(s[|s| - 1], SortByLower(s[..|s| - 1]))
  {
  }

  lemma WithKeyLast(s: seq<string>, k: string)
    requires |s| > 0
    ensures WithKey(s, k) == WithKey(s[..|s| - 1], k) + Own(s[|s| - 1], k)
  {
    assert s == s[..|s| - 1] + [s[|s| - 1]];
    WithKeyAppend(s[..|s| - 1], [s[|s| - 1]], k);
    assert [s[|s| - 1]][1..] == [];
  }

  /** The sorted listing is ordered by lower-cased name, lists every name
      as often as the directory does, and keeps equal keys in order. */
  lemma SortByLowerCorrect(s: seq<string>)
    ensures Sorted(SortByLower(s))
    ensures multiset(SortByLower(s)) == multiset(s)
    ensures forall k :: WithKey(SortByLower(s), k) == WithKey(s, k)
  {
    SortedSort(s);
    SortPerm(s);
    forall k
      ensures WithKey(SortByLower(s), k) == WithKey(s, k)
    {
      SortStable(s, k);
    }
  }

  lemma ExampleKeys(b: string, ad: string, a: string, bb: string)
    requires b == "b.txt" && ad == "A_dir" && a == "a.txt" && bb == "B.txt"
    ensures Less(SortKey(ad), SortKey(b)) && Less(SortKey(a), SortKey(ad))
    ensures !Less(SortKey(bb), SortKey(a)) && !Less(SortKey(bb), SortKey(ad)) && !Less(SortKey(bb), SortKey(b))
  {
    assert SortKey(b) == "b.txt" && SortKey(bb) == "b.txt";
    assert SortKey(ad) == "a_dir" && SortKey(a) == "a.txt";
    assert Less("a.txt", "a_dir") by {
      assert "a.txt"[1..] == ".txt" && "a_dir"[1..] == "_dir";
    }
    LessIrreflexive("b.txt");
  }

  lemma InsertFront(x: string, s: seq<string>)
    requires |s| > 0 && Less(SortKey(x), SortKey(s[0]))
    ensures Insert(x, s) == [x] + s
  {
  }

  lemma SortSnoc(s: seq<string>, x: string)
    ensures SortByLower(s + [x]) == Insert(x, SortByLower(s))
  {
    assert (s + [x])[..|s|] == s;
  }

  lemma InsertLast(x: string, a: string, b: string, c: string)
    requires !Less(SortKey(x), SortKey(a)) && !Less(SortKey(x), SortKey(b)) && !Less(SortKey(x), SortKey(c))
    ensures Insert(x, [a, b, c]) == [a, b, c, x]
  {
    InsertUnfold(x, [a, b, c]);
    assert [a, b, c][1..] == [b, c];
    InsertUnfold(x, [b, c]);
    assert [b, c][1..] == [c];
    InsertUnfold(x, [c]);
    assert [c][1..] == [];
  }

  /** Sorting four names whose keys compare as in the example below. */
  lemma SortFour(b: string, ad: string, a: string, bb: string)
    requires Less(SortKey(ad), SortKey(b)) && Less(SortKey(a), SortKey(ad))
    requires !Less(SortKey(bb), SortKey(a)) && !Less(SortKey(bb), SortKey(ad)) && !Less(SortKey(bb), SortKey(b))
    ensures SortByLower([b, ad, a, bb]) == [a, ad, b, bb]
  {
    SortSnoc([], b);
    assert [] + [b] == [b];
    SortSnoc([b], ad);
    assert [b] + [ad] == [b, ad];
    InsertFront(ad, [b]);
    SortSnoc([b, ad], a);
    assert [b, ad] + [a] == [b, ad, a];
    InsertFront(a, [ad, b]);
    SortSnoc([b, ad, a], bb);
    assert [b, ad, a] + [bb] == [b, ad, a, bb];
    InsertLast(bb, a, ad, b);
  }

  /** Case is ignored, and `.` sorts before `_`; names equal up to case
      keep their order. */
  lemma SortExample(b: string, ad: string, a: string, bb: string)
    requires b == "b.txt" && ad == "A_dir" && a == "a.txt" && bb == "B.txt"
    ensures SortByLower([b, ad, a, bb]) == [a, ad, b, bb]
  {
    ExampleKeys(b, ad, a, bb);
    SortFour(b, ad, a, bb);
  }

  // ---------------------------------------------------------------------
  // list_directory

  const ListingHead := "<!DOCTYPE HTML PUBLIC \"-//W3C//DTD HTML 4.01//EN\""
    + "\"http://www.w3.org/TR/html4/strict.dtd\"><html><head>"
    + "<meta http-equiv=\"Content-Type\" content=\"text/html; charset=utf-8\">"
  const UploadForm := "<form ENCTYPE=\"multipart/form-data\" method=\"post\"><input name=\"file\" type=\"file\""
    + " multiple=\"multiple\"/><input type=\"submit\" value=\"upload\"/></form><hr><ul>"
  const ListingEnd := "</ul><hr></body></html>"
  const ItemOpen := "<li><a href=\""

  /** The page up to the first entry, titled with the escaped request path. */
  function ListingTop(display: string): string
  {
    ListingHead + "<title>Directory listing for " + display + "</title>"
    + "</head><body><h2>Directory listing for " + display + "</h2>" + UploadForm
  }

  /** The link target: directories get a trailing `/`. */
  function LinkName(st: Store, path: string, name: string): string
  {
    if PathJoin(path, name) in st.dirs then name + "/" else name
  }

  /** The shown name: `@` for a symbolic link, else `/` for a directory. */
  function DisplayName(st: Store, path: string, name: string): string
  {
    var full := PathJoin(path, name);
    if full in st.links then name + "@"
    else if full in st.dirs then name + "/"
    else name
  }

  function Item(st: Store, path: string, name: string): string
  {
    ItemOpen + (Quote(LinkName(st, path, name)) + ("\">" + (Escape(DisplayName(st, path, name)) + "</a>")))
  }

  function Items(st: Store, path: string, names: seq<string>): string
  {
    if |names| == 0 then "" else Item(st, path, names[0]) + Items(st, path, names[1..])
  }

  lemma {:induction false} ItemsSnoc(st: Store, path: string, names: seq<string>, n: string)
    ensures Items(st, path, names + [n]) == Items(st, path, names) + Item(st, path, n)
    decreases |names|
  {
    if |names| == 0 {
      assert Items(st, path, [n]) == Item(st, path, n) + Items(st, path, []);
    } else {
      assert (names + [n])[1..] == names[1..] + [n];
      ItemsSnoc(st, path, names[1..], n);
    }
  }

  lemma ItemsStep(top: string, st: Store, path: string, names: seq<string>, i: nat)
    requires i < |names|
    ensures (top + Items(st, path, names[..i])) + Item(st, path, names[i]) == top + Items(st, path, names[..i + 1])
  {
    ItemsSnoc(st, path, names[..i], names[i]);
    assert names[..i + 1] == names[..i] + [names[i]];
    SeqAssoc(top, Items(st, path, names[..i]), Item(st, path, names[i]));
  }

  /** The reply `list_directory` sends for directory `path`: an error when
      the directory cannot be read, else the page of its sorted entries. */
  function ListingSpec(st: Store, path: string, requestPath: string): Response
  {
    if path !in st.listing then ErrorReply(404, "No permission to list directory")
    else
      var names := SortByLower(st.listing[path]);
      HtmlReply(ListingTop(Escape(requestPath)) + Items(st, path, names) + ListingEnd)
  }

  /** `list_directory`; the request path is taken as already
      percent-decoded. */
  method ListDirectory(st: Store, path: string, requestPath: string) returns (r: Response)
    ensures r == ListingSpec(st, path, requestPath)
  {
    if path !in st.listing {
      return ErrorReply(404, "No permission to list directory");
    }
    var names := SortByLower(st.listing[path]);
    var top := ListingTop(Escape(requestPath));
    var f := top;
    for i := 0 to |names|
      invariant f == top + Items(st, path, names[..i])
    {
      ItemsStep(top, st, path, names, i);
      f := f + Item(st, path, names[i]);
    }
    assert names[..|names|] == names;
    r := HtmlReply(f + ListingEnd);
  }

  // ---------------------------------------------------------------------
  // Reading the listing back

  /** What a browser makes of the entries of a listing: for each item the
      name its link requests and the name it shows. */
  function ParseItems(s: string): Option<seq<(string, string)>>
    decreases |s|
  {
    if |s| == 0 then Some([])
    else if !StartsWith(s, ItemOpen) then None
    else
      var t := s[|ItemOpen|..];
      var q := Find(t, '"');
      if q < 0 || !StartsWith(t[q..], "\">") then None
      else
        var u := t[q + 2..];
        var e := Find(u, '<');
        if e < 0 || !StartsWith(u[e..], "</a>") then None
        else
          match (Utf8Decode(PercentDecode(t[..q])), ParseItems(u[e + 4..]))
          case (Some(link), Some(rest)) => Some([(link, Unescape(u[..e]))] + rest)
          case _ => None
  }

  /** The links and names the listing shows for `names`. */
  function Entries(st: Store, path: string, names: seq<string>): (r: seq<(string, string)>)
    ensures |r| == |names|
  {
    if |names| == 0 then []
    else [(LinkName(st, path, names[0]), DisplayName(st, path, names[0]))] + Entries(st, path, names[1..])
  }

  lemma FindAfter(a: string, x: char, b: string)
    requires x !in a
    ensures Find(a + [x] + b, x) == |a|
  {
    var s := a + [x] + b;
    assert s[|a|] == x;
    assert s[..|a|] == a;
  }

  lemma Parts(a: string, b: string)
    ensures (a + b)[..|a|] == a && (a + b)[|a|..] == b && StartsWith(a + b, a)
  {
  }

  /** One item, given that its link holds no `"` and its text no `<`. */
  lemma ParseUnfold(q: string, e: string, rest: string)
    requires '"' !in q && '<' !in e
    ensures ParseItems(ItemOpen + (q + ("\">" + (e + ("</a>" + rest)))))
      == match (Utf8Decode(PercentDecode(q)), ParseItems(rest))
         case (Some(link), Some(es)) => Some([(link, Unescape(e))] + es)
         case _ => None
  {
    var v := "</a>" + rest;
    var w := "\">" + (e + v);
    var t := q + w;
    var s := ItemOpen + t;
    Parts(ItemOpen, t);
    assert t == q + ['"'] + (">" + (e + v));
    FindAfter(q, '"', ">" + (e + v));
    Parts(q, w);
    Parts("\">", e + v);
    var u := e + v;
    assert t[|q| + 2..] == u;
    assert u == e + ['<'] + ("/a>" + rest);
    FindAfter(e, '<', "/a>" + rest);
    Parts(e, v);
    Parts("</a>", rest);
    assert u[|e| + 4..] == rest;
  }

  lemma ParseItem(link: string, display: string, rest: string)
    ensures ParseItems(ItemOpen + (Quote(link) + ("\">" + (Escape(display) + ("</a>" + rest)))))
      == (match ParseItems(rest)
          case Some(es) => Some([(link, display)] + es)
          case None => None)
  {
    var e := Escape(display);
    EscapeNoMarkup(display);
    assert '<' !in e by {
      forall i | 0 <= i < |e|
        ensures e[i] != '<'
      {
        assert !Special(e[i]) || e[i] == '&';
      }
    }
    QuoteSafe(link);
    ParseUnfold(Quote(link), e, rest);
    PercentDecodeQuote(link);
    UnescapeEscape(display);
  }

  lemma Regroup(a: string, b: string, c: string, d: string, e: string, f: string)
    ensures (a + (b + (c + (d + e)))) + f == a + (b + (c + (d + (e + f))))
  {
  }

  /** The entries of a listing read back as exactly the links and names
      of the listed files, in the same order. */
  lemma {:induction false} ParseItemsOf(st: Store, path: string, names: seq<string>)
    ensures ParseItems(Items(st, path, names)) == Some(Entries(st, path, names))
    decreases |names|
  {
    if |names| > 0 {
      ParseItemsOf(st, path, names[1..]);
      var link, display := LinkName(st, path, names[0]), DisplayName(st, path, names[0]);
      var rest := Items(st, path, names[1..]);
      ParseItem(link, display, rest);
      Regroup(ItemOpen, Quote(link), "\">", Escape(display), "</a>", rest);
    }
  }

  /** A readable directory is answered with a page that shows every entry
      once, in the order of `SortByLower`, each linked to its own name; an
      unreadable one with a 404. */
  lemma ListingContents(st: Store, path: string, requestPath: string)
    ensures var r := ListingSpec(st, path, requestPath);
      && (path !in st.listing ==> r == ErrorReply(404, "No permission to list directory"))
      && (path in st.listing ==>
        && r.Reply? && r.code == 200
        && exists items ::
          && Utf8Decode(r.body) == Some(ListingTop(Escape(requestPath)) + items + ListingEnd)
          && ParseItems(items) == Some(Entries(st, path, SortByLower(st.listing[path]))))
  {
    if path in st.listing {
      var items := Items(st, path, SortByLower(st.listing[path]));
      ParseItemsOf(st, path, SortByLower(st.listing[path]));
      assert Utf8Decode(ListingSpec(st, path, requestPath).body) == Some(ListingTop(Escape(requestPath)) + items + ListingEnd);
    }
  }

  /** How an entry is shown and linked. */
  lemma EntryNames(st: Store, path: string, name: string)
    ensures var full := PathJoin(path, name);
      && (full in st.dirs ==> LinkName(st, path, name) == name + "/")
      && (full !in st.dirs ==> LinkName(st, path, name) == name)
      && (full in st.links ==> DisplayName(st, path, name) == name + "@")
      && (full !in st.links && full in st.dirs ==> DisplayName(st, path, name) == name + "/")
      && (full !in st.links && full !in st.dirs ==> DisplayName(st, path, name) == name)
  {
  }

  // ---------------------------------------------------------------------
  // send_head

  const Indexes := ["index.html", "index.htm"]

  /** Serving the regular file `p`: its bytes with its guessed type, or 404
      when it cannot be opened. The `Last-Modified` header is left out. */
  function FileReply(st: Store, p: string, types: map<string, string>): Response
  {
    if p in st.files then
      Reply(200, [("Content-type", Mime.GuessType(p, types)), ("Content-Length", Decimal(|st.files[p]|))], st.files[p])
    else ErrorReply(404, "File not found")
  }

  /** What `send_head` does with the translated path `path` of
      `requestPath`. */
  function Route(st: Store, path: string, requestPath: string, types: map<string, string>): Response
  {
    if path in st.dirs then
      if !EndsWith(requestPath, '/') then Reply(301, [("Location", requestPath + "/")], [])
      else if st.Exists(PathJoin(path, Indexes[0])) then FileReply(st, PathJoin(path, Indexes[0]), types)
      else if st.Exists(PathJoin(path, Indexes[1])) then FileReply(st, PathJoin(path, Indexes[1]), types)
      else ListingSpec(st, path, requestPath)
    else FileReply(st, path, types)
  }

  /** The reply to a GET or HEAD of `requestPath` (GET also writes the body). */
  function HeadSpec(st: Store, cwd: string, requestPath: string, types: map<string, string>): Response
  {
    Route(st, Translate(cwd, requestPath), requestPath, types)
  }

  /** `send_head`. The working directory is `cwd` and the system MIME
      table is `types`. */
  method SendHead(st: Store, cwd: string, requestPath: string, types: map<string, string>) returns (r: Response)
    ensures r == HeadSpec(st, cwd, requestPath, types)
  {
    var path := TranslatePath(cwd, requestPath);
    ghost var translated := path;
    if path in st.dirs {
      if !EndsWith(requestPath, '/') {
        return Reply(301, [("Location", requestPath + "/")], []);
      }
      var dir := path;
      var found := false;
      var i := 0;
      while i < |Indexes|
        invariant 0 <= i <= |Indexes|
        invariant !found && path == dir
        invariant forall j :: 0 <= j < i ==> !st.Exists(PathJoin(dir, Indexes[j]))
      {
        var index := PathJoin(dir, Indexes[i]);
        if st.Exists(index) {
          path := index;
          found := true;
          break;
        }
        i := i + 1;
      }
      if !found {
        r := ListDirectory(st, path, requestPath);
        return;
      }
      assert i == 0 || i == 1;
    }
    if path in st.files {
      var data := st.files[path];
      r := Reply(200, [("Content-type", Mime.GuessType(path, types)), ("Content-Length", Decimal(|data|))], data);
    } else {
      r := ErrorReply(404, "File not found");
    }
    assert r == Route(st, translated, requestPath, types);
  }

  /** Index files and served files are always files the store holds, so a
      200 for a file carries exactly that file's bytes and their length. */
  lemma FileReplyBody(st: Store, p: string, types: map<string, string>)
    ensures var r := FileReply(st, p, types);
      && (r.Reply? <==> p in st.files)
      && (r.Reply? ==>
        && r.code == 200 && r.body == st.files[p] && |r.headers| == 2
        && r.headers[0] == ("Content-type", Mime.GuessType(p, types))
        && r.headers[1].0 == "Content-Length" && Value(r.headers[1].1) == |r.body|)
      && (!r.Reply? ==> r == ErrorReply(404, "File not found"))
  {
    if p in st.files {
      ValueDecimal(|st.files[p]|);
    }
  }

  lemma ListingCode(st: Store, path: string, requestPath: string)
    ensures ListingSpec(st, path, requestPath).Reply? ==> ListingSpec(st, path, requestPath).code == 200
  {
  }

  /** A request path that ends in `/` is never redirected: every reply is
      a 200 or an error. */
  lemma TrailingSlashNotRedirected(st: Store, path: string, requestPath: string, types: map<string, string>)
    requires EndsWith(requestPath, '/')
    ensures Route(st, path, requestPath, types).Reply? ==> Route(st, path, requestPath, types).code == 200
  {
    if path in st.dirs {
      FileReplyBody(st, PathJoin(path, Indexes[0]), types);
      FileReplyBody(st, PathJoin(path, Indexes[1]), types);
      ListingCode(st, path, requestPath);
    } else {
      FileReplyBody(st, path, types);
    }
  }

  /** A directory asked for without a trailing slash is redirected to the
      same path with one, which names the same directory and is not
      redirected again. */
  lemma RedirectDirectory(st: Store, cwd: string, requestPath: string, types: map<string, string>)
    requires Translate(cwd, requestPath) in st.dirs && !EndsWith(requestPath, '/')
    requires '?' !in requestPath && '#' !in requestPath
    ensures var r := HeadSpec(st, cwd, requestPath, types);
      && r == Reply(301, [("Location", requestPath + "/")], [])
      && Translate(cwd, requestPath + "/") == Translate(cwd, requestPath)
      && (HeadSpec(st, cwd, requestPath + "/", types).Reply? ==> HeadSpec(st, cwd, requestPath + "/", types).code == 200)
  {
    TranslateTrailingSlash(cwd, requestPath);
    var loc := requestPath + "/";
    assert EndsWith(loc, '/');
    TrailingSlashNotRedirected(st, Translate(cwd, loc), loc, types);
  }

  /** `send_head` answers the translated path `path` with a 200, a 301 or a
      404, and with the 301 exactly for a directory asked for without a
      trailing slash. */
  lemma RouteCodes(st: Store, path: string, requestPath: string, types: map<string, string>)
    ensures var r := Route(st, path, requestPath, types);
      && (r.code == 200 || r.code == 301 || r.code == 404)
      && (r.code == 301 <==> path in st.dirs && !EndsWith(requestPath, '/'))
  {
    var r := Route(st, path, requestPath, types);
    var html, htm := PathJoin(path, Indexes[0]), PathJoin(path, Indexes[1]);
    if path !in st.dirs {
      assert r == FileReply(st, path, types);
      FileCodes(st, path, types);
    } else if !EndsWith(requestPath, '/') {
      assert r.code == 301;
    } else if st.Exists(html) {
      assert r == FileReply(st, html, types);
      FileCodes(st, html, types);
    } else if st.Exists(htm) {
      assert r == FileReply(st, htm, types);
      FileCodes(st, htm, types);
    } else {
      assert r == ListingSpec(st, path, requestPath);
      ListingCodes(st, path, requestPath);
    }
  }

  /** A 200 from `send_head` carries the bytes of the file `path`, of one of
      the directory's index files, or the directory's listing: nothing else
      is ever sent. */
  lemma RouteBodies(st: Store, path: string, requestPath: string, types: map<string, string>)
    ensures var r := Route(st, path, requestPath, types);
      var html, htm := PathJoin(path, "index.html"), PathJoin(path, "index.htm");
      r.Reply? && r.code == 200 ==>
        || (path in st.files && r.body == st.files[path])
        || (path in st.dirs && html in st.files && r.body == st.files[html])
        || (path in st.dirs && htm in st.files && r.body == st.files[htm])
        || (path in st.dirs && r == ListingSpec(st, path, requestPath))
  {
    if path !in st.dirs {
      FileCodes(st, path, types);
    } else if EndsWith(requestPath, '/') {
      if st.Exists(PathJoin(path, Indexes[0])) {
        FileCodes(st, PathJoin(path, Indexes[0]), types);
      } else if st.Exists(PathJoin(path, Indexes[1])) {
        FileCodes(st, PathJoin(path, Indexes[1]), types);
      }
    }
  }

  lemma FileCodes(st: Store, p: string, types: map<string, string>)
    ensures var r := FileReply(st, p, types);
      && (r.code == 200 || r.code == 404)
      && (r.Reply? ==> r.code == 200 && p in st.files && r.body == st.files[p])
  {
  }

  lemma ListingCodes(st: Store, path: string, requestPath: string)
    ensures var r := ListingSpec(st, path, requestPath); r.code == 200 || r.code == 404
  {
    ListingCode(st, path, requestPath);
  }

  /** A directory called `index.html` hides both the listing and
      `index.htm`: `os.path.exists` finds it, opening it fails, and the
      answer is 404. */
  lemma IndexIsDirectory(st: Store, path: string, requestPath: string, types: map<string, string>)
    requires path in st.dirs && EndsWith(requestPath, '/')
    requires PathJoin(path, "index.html") in st.dirs && PathJoin(path, "index.html") !in st.files
    ensures Route(st, path, requestPath, types) == ErrorReply(404, "File not found")
  {
  }

  /** A directory with a trailing slash serves `index.html` if it exists,
      else `index.htm`, else its listing; any other path is served as a
      file. */
  lemma RouteCases(st: Store, path: string, requestPath: string, types: map<string, string>)
    ensures var r := Route(st, path, requestPath, types);
      var html, htm := PathJoin(path, "index.html"), PathJoin(path, "index.htm");
      && (path !in st.dirs ==> r == FileReply(st, path, types))
      && (path in st.dirs && !EndsWith(requestPath, '/') ==> r.Reply? && r.code == 301)
      && (path in st.dirs && EndsWith(requestPath, '/') ==>
        && (st.Exists(html) ==> r == FileReply(st, html, types))
        && (!st.Exists(html) && st.Exists(htm) ==> r == FileReply(st, htm, types))
        && (!st.Exists(html) && !st.Exists(htm) ==> r == ListingSpec(st, path, requestPath)))
  {
  }
}
