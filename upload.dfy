/** The multipart upload of `gethttp3.py` (`deal_post_data` and the page
    `do_POST` answers with). The request body is the finite sequence of
    lines `rfile.readline()` returns; reading past its end gives an empty
    line, as the stream does. Files are created and written through a
    `Files.Disk`. */
module Upload {
  import opened Util
  import opened Paths
  import opened Files
  import opened Http

  /** How `deal_post_data` ends: it returns `(status, info)`, an exception
      escapes it, or it spins forever reading empty lines at the end of the
      stream. */
  datatype Outcome = Returned(status: bool, info: string) | Raised | Hung

  const NotBeginMsg := "Content NOT begin with boundary\n"
  const NoNameMsg := "Can't find out file name...\n"
  const ExceptionMsg := "Exception!\n"

  // ---------------------------------------------------------------------
  // The boundary

  /** `headers["Content-Type"].split("=")[1]`; `None` where Python raises
      (no header, or no `=` in it). */
  function Boundary(contentType: Option<string>): (r: Option<string>)
    ensures r.Some? ==> contentType.Some? && '=' !in r.value
  {
    if contentType.None? then None
    else
      var ps := Split(contentType.value, '=');
      SplitPiecesFree(contentType.value, '=');
      if |ps| >= 2 then Some(ps[1]) else None
  }

  /** The boundary is the text between the first and the second `=` (or
      the end of the header). */
  lemma BoundaryOf(a: string, b: string, c: string)
    requires '=' !in a && '=' !in b
    ensures Boundary(Some(a + "=" + b)) == Some(b)
    ensures Boundary(Some(a + "=" + b + "=" + c)) == Some(b)
  {
    SplitAt(a, '=', b);
    SplitNoSep(b, '=');
    assert a + "=" + b + "=" + c == a + ['='] + (b + ['='] + c);
    SplitAt(a, '=', b + ['='] + c);
    SplitAt(b, '=', c);
  }

  /** A Content-Type without `=` makes the handler raise. */
  lemma NoBoundary(t: string)
    requires '=' !in t
    ensures Boundary(Some(t)) == None
  {
    SplitNoSep(t, '=');
  }

  /** The two delimiter lines, `--boundary\r\n` and `--boundary--\r\n`, UTF-8 encoded. */
  datatype Marks = Marks(begin: seq<byte>, end: seq<byte>)

  function MarksOf(boundary: string): (m: Marks)
    ensures m.begin == Utf8("--" + boundary + "\r\n") && m.end == Utf8("--" + boundary + "--\r\n")
    ensures |m.begin| > 0 && m.begin != m.end
  {
    var m := Marks(Utf8("--" + boundary + "\r\n"), Utf8("--" + boundary + "--\r\n"));
    Utf8DecodeEncode("--" + boundary + "\r\n");
    Utf8DecodeEncode("--" + boundary + "--\r\n");
    m
  }

  /** `rfile.readline()`: the next line and the new position; at the end of
      the stream an empty line and the same position. */
  function ReadLine(body: seq<seq<byte>>, pos: nat): (r: (seq<byte>, nat))
    requires pos <= |body|
    ensures pos < |body| ==> r == (body[pos], pos + 1)
    ensures pos == |body| ==> r == ([], pos)
  {
    if pos < |body| then (body[pos], pos + 1) else ([], pos)
  }

  // ---------------------------------------------------------------------
  // The file name in the part header

  const Key := "filename=\""

  /** `Key` occurs in `s` at `j`. */
  predicate KeyAt(s: string, j: nat)
  {
    j + |Key| <= |s| && s[j..j + |Key|] == Key
  }

  /** `Key` starts nowhere in `s`. */
  predicate KeyFree(s: string)
  {
    forall j :: 0 <= j <= |s| ==> !KeyAt(s, j)
  }

  /** Where the line that starts `s` ends: at its first newline, or at the end. */
  function LineEnd(s: string): (n: nat)
    ensures n <= |s| && (n == |s| || s[n] == '\n') && '\n' !in s[..n]
  {
    var f := Find(s, '\n');
    if f >= 0 then f else |s|
  }

  /** A match of `filename="(.*)"` starting at `i`: `.` stops at a newline
      and the greedy group runs to the last `"` before it. */
  function MatchAt(s: string, i: nat): (r: Option<string>)
    requires i <= |s|
    ensures r.Some? <==> KeyAt(s, i) && '"' in s[i + |Key|..][..LineEnd(s[i + |Key|..])]
    ensures r.Some? ==> var g := r.value; var rest := s[i + |Key|..]; var n := LineEnd(rest);
      && |g| < n && rest[..|g|] == g && rest[|g|] == '"' && '"' !in rest[|g| + 1..n]
  {
    if KeyAt(s, i) then
      var rest := s[i + |Key|..];
      var n := LineEnd(rest);
      var q := RFind(rest[..n], '"');
      if q >= 0 then
        assert rest[..n][q + 1..] == rest[q + 1..n];
        Some(rest[..q])
      else None
    else None
  }

  /** The leftmost match at or after `i`. */
  function FirstMatch(s: string, i: nat): Option<string>
    requires i <= |s|
    decreases |s| - i
  {
    if i == |s| then None
    else if MatchAt(s, i).Some? then MatchAt(s, i)
    else FirstMatch(s, i + 1)
  }

  /** `re.findall(r'filename="(.*)"', line)[0]`; `None` where there is no
      match and the `[0]` raises. */
  function FindFilename(s: string): Option<string>
  {
    FirstMatch(s, 0)
  }

  lemma {:induction false} FirstMatchSkip(s: string, i: nat, k: nat)
    requires i <= k <= |s|
    requires forall j :: i <= j < k ==> MatchAt(s, j).None?
    ensures FirstMatch(s, i) == FirstMatch(s, k)
    decreases k - i
  {
    if i < k {
      FirstMatchSkip(s, i + 1, k);
    }
  }

  /** No key occurrence overlaps the start of `Key`: its letters after the
      first are all different from `f`. */
  lemma KeyStart(s: string, p: nat, j: nat)
    requires p + |Key| <= |s| && s[p..p + |Key|] == Key
    requires j < p < j + |Key| && j + |Key| <= |s|
    ensures s[j..j + |Key|] != Key
  {
    assert s[p] == 'f';
    assert s[j..j + |Key|][p - j] == s[p];
    assert forall t :: 1 <= t < |Key| ==> Key[t] != 'f';
  }

  /** A key-free prefix followed by the key holds no earlier key. */
  lemma NoEarlierKey(s: string, pre: string)
    requires KeyFree(pre) && pre + Key <= s
    ensures forall j :: 0 <= j < |pre| ==> !KeyAt(s, j)
  {
    var p := |pre|;
    assert s[p..p + |Key|] == Key;
    forall j | 0 <= j < p
      ensures !KeyAt(s, j)
    {
      if j + |Key| <= p {
        assert s[j..j + |Key|] == pre[j..j + |Key|];
        assert !KeyAt(pre, j);
      } else if j + |Key| <= |s| {
        KeyStart(s, p, j);
      }
    }
  }

  /** With no newline and no `"` after the closing one, the group is what
      lies between the key and that `"`. */
  lemma MatchHere(s: string, p: nat, g: string, post: string)
    requires KeyAt(s, p) && s[p + |Key|..] == g + "\"" + post
    requires '"' !in post && '\n' !in g && '\n' !in post
    ensures MatchAt(s, p) == Some(g)
  {
    var rest := s[p + |Key|..];
    assert '\n' !in rest by {
      assert forall i :: 0 <= i < |rest| ==> rest[i] == (if i < |g| then g[i] else if i == |g| then '"' else post[i - |g| - 1]);
    }
    assert LineEnd(rest) == |rest|;
    assert rest[|g|] == '"' && rest[|g| + 1..] == post;
    assert rest[..|rest|] == rest;
    assert RFind(rest, '"') == |g|;
    assert rest[..|g|] == g;
  }

  /** The file name is the text between `filename="` and the last `"` of
      the line, provided the key occurs nowhere before. */
  lemma FilenameOf(pre: string, g: string, post: string)
    requires KeyFree(pre) && '"' !in post && '\n' !in g && '\n' !in post
    ensures FindFilename(pre + Key + g + "\"" + post) == Some(g)
  {
    var s := pre + (Key + (g + "\"" + post));
    assert s == pre + Key + g + "\"" + post;
    var p := |pre|;
    NoEarlierKey(s, pre);
    FirstMatchSkip(s, 0, p);
    assert s[p..p + |Key|] == Key;
    assert s[p + |Key|..] == g + "\"" + post;
    MatchHere(s, p, g, post);
  }

  /** A header line without `filename="` makes the handler raise. */
  lemma NoFilename(s: string)
    requires KeyFree(s)
    ensures FindFilename(s) == None
  {
    forall j | 0 <= j <= |s|
      ensures MatchAt(s, j).None?
    {
      assert !KeyAt(s, j);
    }
    FirstMatchSkip(s, 0, |s|);
  }

  /** `line.rstrip("\r\n")`. */
  function RStripNewlines(s: string): (r: string)
    ensures r <= s && (|r| == 0 || (r[|r| - 1] != '\r' && r[|r| - 1] != '\n'))
    ensures forall i :: |r| <= i < |s| ==> s[i] == '\r' || s[i] == '\n'
  {
    if |s| > 0 && (s[|s| - 1] == '\r' || s[|s| - 1] == '\n') then RStripNewlines(s[..|s| - 1]) else s
  }

  /** The file name of a part header line as it was read: UTF-8 decoded,
      line end stripped, searched; `None` where Python raises. */
  function HeaderName(line: seq<byte>): Option<string>
  {
    match Utf8Decode(line)
    case None => None
    case Some(text) => FindFilename(RStripNewlines(text))
  }

  // ---------------------------------------------------------------------
  // Avoiding existing files

  /** The `k`-th alternative name: the counter goes in front of the last
      `.`; without one, `rfind` gives -1 and Python's slices put it in front
      of the last character. */
  function Candidate(name: string, k: nat): (c: string)
    requires |name| > 0
  {
    var dot := RFind(name, '.');
    var cut := if dot >= 0 then dot else |name| - 1;
    name[..cut] + "_" + Decimal(k) + name[cut..]
  }

  function Target(path: string, name: string, k: nat): string
    requires |name| > 0
  {
    PathJoin(path, Candidate(name, k))
  }

  function Existing(st: Store): set<string>
  {
    st.dirs + st.files.Keys
  }

  /** The candidates tried before the `k`-th. */
  function Tried(path: string, name: string, k: nat): set<string>
    requires |name| > 0
  {
    set j | 1 <= j < k :: Target(path, name, j)
  }

  lemma CandidateInjective(name: string, j: nat, k: nat)
    requires |name| > 0 && Candidate(name, j) == Candidate(name, k)
    ensures j == k
  {
    var dot := RFind(name, '.');
    var cut := if dot >= 0 then dot else |name| - 1;
    var a := name[..cut] + "_";
    var cj := Candidate(name, j);
    assert cj == a + (Decimal(j) + name[cut..]);
    assert Candidate(name, k) == a + (Decimal(k) + name[cut..]);
    assert |Decimal(j)| == |Decimal(k)|;
    assert Decimal(j) == cj[|a|..|a| + |Decimal(j)|];
    assert Decimal(k) == Candidate(name, k)[|a|..|a| + |Decimal(k)|];
    DecimalInjective(j, k);
  }

  /** All candidates are absolute, or none is: they share their first character. */
  lemma CandidateAbsolute(name: string, j: nat, k: nat)
    requires |name| > 0
    ensures IsAbsolute(Candidate(name, j)) == IsAbsolute(Candidate(name, k))
  {
    var dot := RFind(name, '.');
    var cut := if dot >= 0 then dot else |name| - 1;
    assert Candidate(name, j)[0] == (name[..cut] + "_")[0];
    assert Candidate(name, k)[0] == (name[..cut] + "_")[0];
  }

  lemma TargetInjective(path: string, name: string, j: nat, k: nat)
    requires |name| > 0 && Target(path, name, j) == Target(path, name, k)
    ensures j == k
  {
    var cj := Candidate(name, j);
    var ck := Candidate(name, k);
    CandidateAbsolute(name, j, k);
    if !IsAbsolute(cj) {
      var r := PathJoin(path, cj);
      assert cj == r[|r| - |cj|..];
      assert ck == r[|r| - |ck|..];
      assert |cj| == |ck|;
    }
    CandidateInjective(name, j, k);
  }

  /** One more existing candidate tried leaves fewer existing names untried. */
  lemma TriedGrows(st: Store, path: string, name: string, k: nat)
    requires |name| > 0 && k >= 1 && Target(path, name, k) in Existing(st)
    ensures |Existing(st) - Tried(path, name, k + 1)| < |Existing(st) - Tried(path, name, k)|
  {
    var t := Target(path, name, k);
    assert Tried(path, name, k + 1) == Tried(path, name, k) + {t};
    if t in Tried(path, name, k) {
      var j :| 1 <= j < k && Target(path, name, j) == t;
      TargetInjective(path, name, j, k);
    }
    assert Existing(st) - Tried(path, name, k + 1) == (Existing(st) - Tried(path, name, k)) - {t};
  }

  /** The counter the duplicate loop stops at: the first free candidate
      from `k` on. */
  function FreeIndex(st: Store, path: string, name: string, k: nat): nat
    requires |name| > 0 && k >= 1
    decreases |Existing(st) - Tried(path, name, k)|
  {
    if !st.Exists(Target(path, name, k)) then k
    else
      TriedGrows(st, path, name, k);
      FreeIndex(st, path, name, k + 1)
  }

  /** The counter found is free, and every one from `k` up to it is taken. */
  lemma {:induction false} FreeIndexFree(st: Store, path: string, name: string, k: nat)
    requires |name| > 0 && k >= 1
    ensures var r := FreeIndex(st, path, name, k);
      && r >= k && !st.Exists(Target(path, name, r))
      && forall j :: k <= j < r ==> st.Exists(Target(path, name, j))
    decreases |Existing(st) - Tried(path, name, k)|
  {
    if st.Exists(Target(path, name, k)) {
      TriedGrows(st, path, name, k);
      FreeIndexFree(st, path, name, k + 1);
      FreeIndexTaken(st, path, name, k);
    }
  }

  /** A taken `k`-th candidate extends the run of taken ones found from `k + 1`. */
  lemma FreeIndexTaken(st: Store, path: string, name: string, k: nat)
    requires |name| > 0 && k >= 1 && st.Exists(Target(path, name, k))
    requires var r := FreeIndex(st, path, name, k + 1);
      && r >= k + 1 && !st.Exists(Target(path, name, r))
      && forall j :: k + 1 <= j < r ==> st.Exists(Target(path, name, j))
    ensures var r := FreeIndex(st, path, name, k);
      && r >= k && !st.Exists(Target(path, name, r))
      && forall j :: k <= j < r ==> st.Exists(Target(path, name, j))
  {
    TriedGrows(st, path, name, k);
    assert FreeIndex(st, path, name, k) == FreeIndex(st, path, name, k + 1);
  }

  /** Where the part is stored: `path/name`, or the first candidate with a
      free name if that exists. */
  function Resolve(st: Store, path: string, name: string): (r: string)
    requires |name| > 0
    ensures !st.Exists(r)
  {
    var first := PathJoin(path, name);
    if !st.Exists(first) then first
    else
      FreeIndexFree(st, path, name, 1);
      Target(path, name, FreeIndex(st, path, name, 1))
  }

  /** The stored name is free, and it is `path/name` unless that exists, in
      which case it is the first free candidate `k` after `1 .. k-1` taken. */
  lemma ResolveFirstFree(st: Store, path: string, name: string)
    requires |name| > 0
    ensures var r := Resolve(st, path, name);
      && !st.Exists(r)
      && (r == PathJoin(path, name)
          || (st.Exists(PathJoin(path, name))
              && exists k: nat :: k >= 1 && r == Target(path, name, k)
                   && forall j :: 1 <= j < k ==> st.Exists(Target(path, name, j))))
  {
    var first := PathJoin(path, name);
    if st.Exists(first) {
      var k := FreeIndex(st, path, name, 1);
      FreeIndexFree(st, path, name, 1);
      assert Resolve(st, path, name) == Target(path, name, k);
    }
  }

  /** `os.path.join(path, filename)` and the `while os.path.exists` loop. */
  method ResolveName(st: Store, path: string, name: string) returns (filename: string)
    requires |name| > 0
    ensures filename == Resolve(st, path, name)
  {
    filename := PathJoin(path, name);
    var dupCount := 1;
    while st.Exists(filename)
      invariant dupCount >= 1
      invariant st.Exists(filename) ==> Resolve(st, path, name) == Target(path, name, FreeIndex(st, path, name, dupCount))
      invariant !st.Exists(filename) ==> filename == Resolve(st, path, name)
      decreases if st.Exists(filename) then |Existing(st) - Tried(path, name, dupCount)| + 1 else 0
    {
      filename := Target(path, name, dupCount);
      if st.Exists(filename) {
        TriedGrows(st, path, name, dupCount);
      }
      dupCount := dupCount + 1;
    }
  }

  /** `README` is tried as `READM_1E`, `READM_2E`, ... */
  lemma NoDotExample(name: string)
    requires name == "README"
    ensures Candidate(name, 1) == "READM_1E"
  {
    assert RFind(name, '.') == -1;
    assert name[..5] == "READM" && name[5..] == "E";
  }

  /** ... and `a.tar.gz` as `a.tar_1.gz`. */
  lemma LastDotNameExample(name: string)
    requires name == "a.tar.gz"
    ensures Candidate(name, 2) == "a.tar_2.gz"
  {
    assert name[5] == '.' && '.' !in name[6..];
    assert name[..5] == "a.tar" && name[5..] == ".gz";
  }

  /** An absolute file name from the client ignores the upload directory:
      the part is stored at that name or one of its candidates, wherever
      the request was sent. */
  lemma AbsoluteNameEscapes(st: Store, path: string, other: string, name: string)
    requires |name| >= 2 && IsAbsolute(name)
    ensures Resolve(st, path, name) == Resolve(st, other, name)
    ensures !st.Exists(name) ==> Resolve(st, path, name) == name
  {
    var dot := RFind(name, '.');
    assert dot != 0;
    forall k: nat
      ensures Target(path, name, k) == Candidate(name, k) && Target(other, name, k) == Candidate(name, k)
    {
      assert Candidate(name, k)[0] == '/';
    }
    FreeIndexSame(st, path, other, name, 1);
  }

  /** Two directories whose candidates coincide give the same counter. */
  lemma {:induction false} FreeIndexSame(st: Store, path: string, other: string, name: string, k: nat)
    requires |name| > 0 && k >= 1
    requires forall j: nat :: Target(path, name, j) == Target(other, name, j)
    ensures FreeIndex(st, path, name, k) == FreeIndex(st, other, name, k)
    decreases |Existing(st) - Tried(path, name, k)|
  {
    assert Target(path, name, k) == Target(other, name, k);
    if st.Exists(Target(path, name, k)) {
      TriedGrows(st, path, name, k);
      FreeIndexSame(st, path, other, name, k + 1);
      assert FreeIndex(st, path, name, k) == FreeIndex(st, path, name, k + 1);
      assert FreeIndex(st, other, name, k) == FreeIndex(st, other, name, k + 1);
    }
  }

  // ---------------------------------------------------------------------
  // The inner loop: copying one part into its file

  const FlushLimit := 1024

  /** `buf[:-2]`. */
  function Trim2(buf: seq<byte>): (r: seq<byte>)
    ensures |buf| >= 2 ==> r + buf[|buf| - 2..] == buf
    ensures |buf| < 2 ==> r == []
  {
    if |buf| >= 2 then buf[..|buf| - 2] else []
  }

  /** Which way the inner loop was left. */
  datatype Stop = AtBegin | AtEnd | WriteFailed | Spinning

  /** The state after the inner loop: how it stopped, the stream position,
      and the file system. */
  datatype Inner = Inner(stop: Stop, pos: nat, st: Store)

  /** The inner loop from stream position `pos` with `buf` pending, writing
      to the open file `f`. */
  function InnerSpec(body: seq<seq<byte>>, pos: nat, buf: seq<byte>, m: Marks, f: string, st: Store): (r: Inner)
    requires pos <= |body| && f in st.files
    ensures r.pos <= |body| && f in r.st.files
    ensures r.pos >= pos
    decreases |body| - pos
  {
    var (line, next) := ReadLine(body, pos);
    if line == m.begin || line == m.end then
      var stop := if line == m.begin then AtBegin else AtEnd;
      match st.Write(f, Trim2(buf))
      case None => Inner(WriteFailed, next, st)
      case Some(st') => Inner(stop, next, st')
    else if |buf| > FlushLimit && st.Write(f, buf).None? then
      Inner(WriteFailed, next, st)
    else
      var st' := if |buf| > FlushLimit then st.Appended(f, buf) else st;
      var buf' := (if |buf| > FlushLimit then [] else buf) + line;
      if pos == |body| then Inner(Spinning, next, st')
      else InnerSpec(body, next, buf', m, f, st')
  }

  /** The `while loop_info == inner` loop inside `with open(filename, "wb")`.
      Once the stream is exhausted and the buffer is at most 1024 bytes,
      every further iteration reads `b""` and changes nothing: the source
      loops forever there, this method reports `Spinning`. */
  method CopyPart(disk: Disk, body: seq<seq<byte>>, start: nat, m: Marks, f: string) returns (stop: Stop, pos: nat)
    requires start <= |body| && f in disk.store.files
    modifies disk
    ensures Inner(stop, pos, disk.store) == InnerSpec(body, start, [], m, f, old(disk.store))
  {
    var buf: seq<byte> := [];
    pos := start;
    while true
      invariant pos <= |body| && f in disk.store.files
      invariant InnerSpec(body, pos, buf, m, f, disk.store) == InnerSpec(body, start, [], m, f, old(disk.store))
      decreases |body| - pos
    {
      var atEnd := pos == |body|;
      var line := ReadLine(body, pos).0;
      pos := ReadLine(body, pos).1;
      if line == m.begin || line == m.end {
        var ok := disk.Write(f, Trim2(buf));
        if !ok {
          return WriteFailed, pos;
        }
        stop := if line == m.begin then AtBegin else AtEnd;
        return;
      }
      if |buf| > FlushLimit {
        var ok := disk.Write(f, buf);
        if !ok {
          return WriteFailed, pos;
        }
        buf := [];
      }
      buf := buf + line;
      if atEnd {
        return Spinning, pos;
      }
    }
  }

  // ---------------------------------------------------------------------
  // The outer loop

  /** The result of the handler together with the file system it leaves. */
  datatype Post = Post(outcome: Outcome, st: Store)

  /** Where one pass of the outer loop leads: the handler's result, or the
      next part with the report so far and the file system. */
  datatype Step = Finish(post: Post) | More(pos: nat, info: string, st: Store)
  {
    function Store(): Store
    {
      if Finish? then post.st else st
    }
  }

  /** One pass of the outer loop, entered after a `--boundary\r\n` line
      with the part header at stream position `pos`: the header is read,
      the name resolved, two lines skipped and the payload copied. */
  function PartStep(body: seq<seq<byte>>, pos: nat, info: string, m: Marks, path: string, st: Store): (r: Step)
    requires pos <= |body|
    ensures r.More? ==> pos < r.pos <= |body|
  {
    var (header, p1) := ReadLine(body, pos);
    match HeaderName(header)
    case None => Finish(Post(Raised, st))
    case Some(name) =>
      if name == "" then Finish(Post(Returned(false, info + NoNameMsg), st))
      else
        var filename := Resolve(st, path, name);
        var p2 := ReadLine(body, p1).1;
        var p3 := ReadLine(body, p2).1;
        if !st.CanCreate(filename) then
          Finish(Post(Returned(false, info + ExceptionMsg + filename + "\n"), st))
        else
          AfterCopy(InnerSpec(body, p3, [], m, filename, st.Created(filename)), info, filename)
  }

  /** Where the outer loop goes once the inner loop for `filename` stopped as `r` says. */
  function AfterCopy(r: Inner, info: string, filename: string): (s: Step)
    ensures s.More? <==> r.stop == AtBegin
    ensures s.More? ==> s.pos == r.pos
  {
    match r.stop
    case AtBegin => More(r.pos, info + filename + "\n", r.st)
    case AtEnd => Finish(Post(Returned(true, info + filename + "\n"), r.st))
    case WriteFailed => Finish(Post(Returned(false, info + ExceptionMsg + filename + "\n"), r.st))
    case Spinning => Finish(Post(Hung, r.st))
  }

  /** The outer loop with `line` just read at stream position `pos`, the
      report so far `info`, and `path` the translated request path. */
  function OuterSpec(body: seq<seq<byte>>, pos: nat, line: seq<byte>, info: string, m: Marks, path: string, st: Store): Post
    requires pos <= |body|
    decreases |body| - pos
  {
    if line != m.begin then Post(Returned(false, info + NotBeginMsg), st)
    else
      match PartStep(body, pos, info, m, path, st)
      case Finish(post) => post
      case More(next, info', st') => OuterSpec(body, next, m.begin, info', m, path, st')
  }

  /** `deal_post_data` for a request with the given Content-Type header,
      request path and body, served from `cwd`. */
  function PostSpec(contentType: Option<string>, cwd: string, requestPath: string, body: seq<seq<byte>>, st: Store): Post
  {
    match Boundary(contentType)
    case None => Post(Raised, st)
    case Some(b) =>
      var (line, pos) := ReadLine(body, 0);
      OuterSpec(body, pos, line, "\n", MarksOf(b), Translate(cwd, requestPath), st)
  }

  /** One pass of the `while loop_info == outer` loop after the line read
      was `--boundary\r\n`. */
  method NextPart(disk: Disk, body: seq<seq<byte>>, pos: nat, info: string, m: Marks, cwd: string, requestPath: string)
    returns (s: Step)
    requires pos <= |body|
    modifies disk
    ensures s == PartStep(body, pos, info, m, Translate(cwd, requestPath), old(disk.store))
    ensures disk.store == s.Store()
  {
    var header := ReadLine(body, pos).0;
    var p := ReadLine(body, pos).1;
    var name := HeaderName(header);
    if name.None? {
      return Finish(Post(Raised, disk.store));
    }
    if name.value == "" {
      return Finish(Post(Returned(false, info + NoNameMsg), disk.store));
    }
    var path := TranslatePath(cwd, requestPath);
    var filename := ResolveName(disk.store, path, name.value);
    p := ReadLine(body, p).1;
    p := ReadLine(body, p).1;
    var created := disk.Create(filename);
    if !created {
      return Finish(Post(Returned(false, info + ExceptionMsg + filename + "\n"), disk.store));
    }
    var stop, next := CopyPart(disk, body, p, m, filename);
    match stop
    case AtBegin => s := More(next, info + filename + "\n", disk.store);
    case AtEnd => s := Finish(Post(Returned(true, info + filename + "\n"), disk.store));
    case WriteFailed => s := Finish(Post(Returned(false, info + ExceptionMsg + filename + "\n"), disk.store));
    case Spinning => s := Finish(Post(Hung, disk.store));
  }

  /** `deal_post_data`: the `outer`/`inner`/`leave` state machine. A pass
      that stops the loop gives the handler's result; one that meets the
      next `--boundary\r\n` goes round again. */
  method DealPostData(disk: Disk, contentType: Option<string>, cwd: string, requestPath: string, body: seq<seq<byte>>)
    returns (outcome: Outcome)
    modifies disk
    ensures Post(outcome, disk.store) == PostSpec(contentType, cwd, requestPath, body, old(disk.store))
  {
    var boundary := Boundary(contentType);
    if boundary.None? {
      return Raised;
    }
    var m := MarksOf(boundary.value);
    var info := "\n";
    var line, pos := ReadLine(body, 0).0, ReadLine(body, 0).1;
    while line == m.begin
      invariant pos <= |body|
      invariant OuterSpec(body, pos, line, info, m, Translate(cwd, requestPath), disk.store)
        == PostSpec(contentType, cwd, requestPath, body, old(disk.store))
      decreases |body| - pos
    {
      var s := NextPart(disk, body, pos, info, m, cwd, requestPath);
      if s.Finish? {
        return s.post.outcome;
      }
      line, pos, info := m.begin, s.pos, s.info;
    }
    outcome := Returned(false, info + NotBeginMsg);
  }

  // ---------------------------------------------------------------------
  // Properties of the inner loop

  /** The stores after appending `a` and then `b` and after appending `a + b` agree. */
  lemma AppendedTwice(st: Store, f: string, a: seq<byte>, b: seq<byte>)
    requires f in st.files && |a| + |b| <= st.free
    ensures st.Appended(f, a).Appended(f, b) == st.Appended(f, a + b)
  {
    assert st.files[f] + a + b == st.files[f] + (a + b);
  }

  lemma AppendedNothing(st: Store, f: string)
    requires f in st.files
    ensures st.Appended(f, []) == st
  {
    assert st.files[f] + [] == st.files[f];
    assert st.files[f := st.files[f]] == st.files;
  }

  /** What the flushes of the inner loop write for the payload `lines`
      (`chunks`), and what is pending in `buf` when the boundary comes. */
  function Fill(lines: seq<seq<byte>>): (r: (seq<seq<byte>>, seq<byte>))
  {
    if |lines| == 0 then ([], [])
    else
      var (cs, b) := Fill(lines[..|lines| - 1]);
      var last := lines[|lines| - 1];
      if |b| > FlushLimit then (cs + [b], last) else (cs, b + last)
  }

  /** The flushes and the pending buffer together hold the payload; every
      flush was of more than 1024 bytes; the buffer ends with the last
      line and held at most 1024 bytes before it. */
  lemma {:induction false} FillFacts(lines: seq<seq<byte>>)
    ensures var r := Fill(lines);
      && Concat(r.0) + r.1 == Concat(lines)
      && (forall i :: 0 <= i < |r.0| ==> |r.0[i]| > FlushLimit)
      && (|lines| > 0 ==> var last := lines[|lines| - 1];
           |last| <= |r.1| <= FlushLimit + |last| && r.1[|r.1| - |last|..] == last)
    decreases |lines|
  {
    if |lines| > 0 {
      var init := lines[..|lines| - 1];
      var last := lines[|lines| - 1];
      FillFacts(init);
      assert lines == init + [last];
      FillStepFacts(init, last);
    }
  }

  /** `FillFacts` for one more line, from the facts for the lines before it. */
  lemma FillStepFacts(init: seq<seq<byte>>, last: seq<byte>)
    requires var r := Fill(init);
      && Concat(r.0) + r.1 == Concat(init)
      && (forall i :: 0 <= i < |r.0| ==> |r.0[i]| > FlushLimit)
    ensures var r := Fill(init + [last]);
      && Concat(r.0) + r.1 == Concat(init + [last])
      && (forall i :: 0 <= i < |r.0| ==> |r.0[i]| > FlushLimit)
      && |last| <= |r.1| <= FlushLimit + |last| && r.1[|r.1| - |last|..] == last
  {
    var lines := init + [last];
    assert lines[..|lines| - 1] == init && lines[|lines| - 1] == last;
    var (cs, b) := Fill(init);
    ConcatSnoc(init, last);
    if |b| > FlushLimit {
      FlushedChunk(cs, b, last);
    } else {
      KeptChunk(cs, b, last);
    }
  }

  /** A flush moves the buffer into the chunks and starts it again with the line. */
  lemma FlushedChunk(cs: seq<seq<byte>>, b: seq<byte>, last: seq<byte>)
    requires |b| > FlushLimit && forall i :: 0 <= i < |cs| ==> |cs[i]| > FlushLimit
    ensures Concat(cs + [b]) + last == Concat(cs) + b + last
    ensures forall i :: 0 <= i < |cs + [b]| ==> |(cs + [b])[i]| > FlushLimit
    ensures last[|last| - |last|..] == last
  {
    ConcatSnoc(cs, b);
  }

  /** Without a flush the line goes onto the buffer. */
  lemma KeptChunk(cs: seq<seq<byte>>, b: seq<byte>, last: seq<byte>)
    requires |b| <= FlushLimit
    ensures Concat(cs) + (b + last) == Concat(cs) + b + last
    ensures |last| <= |b + last| <= FlushLimit + |last| && (b + last)[|b + last| - |last|..] == last
  {
  }

  /** The bytes flushed for a prefix of the payload are never more than
      those flushed for the whole payload, counting a flush that the next
      line triggers. */
  lemma {:induction false} FillGrows(lines: seq<seq<byte>>, n: nat)
    requires n < |lines|
    ensures var (cs, b) := Fill(lines[..n]);
      |Concat(cs)| + (if |b| > FlushLimit then |b| else 0) <= |Concat(Fill(lines).0)|
    decreases |lines| - n
  {
    var (cs, b) := Fill(lines[..n]);
    assert lines[..n + 1][..n] == lines[..n];
    if n + 1 < |lines| {
      FillGrows(lines, n + 1);
      var (cs', b') := Fill(lines[..n + 1]);
      assert |Concat(cs')| == |Concat(cs)| + (if |b| > FlushLimit then |b| else 0) by {
        if |b| > FlushLimit {
          assert cs' == cs + [b];
          assert (cs + [b])[..|cs|] == cs;
        }
      }
    } else {
      assert lines[..n + 1] == lines;
      if |b| > FlushLimit {
        assert Fill(lines).0 == cs + [b];
        assert (cs + [b])[..|cs|] == cs;
      }
    }
  }

  /** With the pending buffer ending in the last payload line of at least
      two bytes, cutting two bytes off the buffer cuts them off the whole
      payload: the flushes make no difference. */
  lemma FlushInvisible(lines: seq<seq<byte>>)
    requires |lines| == 0 || |lines[|lines| - 1]| >= 2
    ensures Concat(Fill(lines).0) + Trim2(Fill(lines).1) == Trim2(Concat(lines))
  {
    var r := Fill(lines);
    FillFacts(lines);
    if |lines| > 0 {
      assert |r.1| >= 2;
      TrimAfter(Concat(r.0), r.1);
    }
  }

  lemma TrimAfter(c: seq<byte>, b: seq<byte>)
    requires |b| >= 2
    ensures Trim2(c + b) == c + Trim2(b)
  {
    assert (c + b)[..|c + b| - 2] == c + b[..|b| - 2];
  }

  function StopAt(line: seq<byte>, m: Marks): Stop
  {
    if line == m.begin then AtBegin else AtEnd
  }

  /** The bytes a part leaves in its file: the flushed chunks and the
      pending buffer without its last two bytes. */
  function Written(lines: seq<seq<byte>>): seq<byte>
  {
    Concat(Fill(lines).0) + Trim2(Fill(lines).1)
  }

  lemma WrittenAtMost(lines: seq<seq<byte>>)
    ensures |Written(lines)| <= |Concat(lines)|
  {
    FillFacts(lines);
  }

  /** One more payload line: it is appended to the buffer, after the
      buffer is flushed if it holds more than 1024 bytes. */
  lemma FillNext(body: seq<seq<byte>>, start: nat, k: nat)
    requires start <= k < |body|
    ensures var (cs, b) := Fill(body[start..k]);
      Fill(body[start..k + 1]) == if |b| > FlushLimit then (cs + [b], body[k]) else (cs, b + body[k])
    ensures var (cs, b) := Fill(body[start..k]); Concat(cs + [b]) == Concat(cs) + b
  {
    assert body[start..k + 1][..k - start] == body[start..k];
    assert body[start..k + 1][k - start] == body[k];
    var (cs, b) := Fill(body[start..k]);
    assert (cs + [b])[..|cs|] == cs;
  }

  /** The inner loop on a line that is no delimiter. */
  lemma InnerStep(body: seq<seq<byte>>, k: nat, buf: seq<byte>, m: Marks, f: string, st: Store)
    requires k < |body| && f in st.files && body[k] != m.begin && body[k] != m.end
    ensures |buf| > FlushLimit && |buf| > st.free ==> InnerSpec(body, k, buf, m, f, st).stop == WriteFailed
    ensures |buf| > FlushLimit && |buf| <= st.free ==>
      InnerSpec(body, k, buf, m, f, st) == InnerSpec(body, k + 1, body[k], m, f, st.Appended(f, buf))
    ensures |buf| <= FlushLimit ==> InnerSpec(body, k, buf, m, f, st) == InnerSpec(body, k + 1, buf + body[k], m, f, st)
  {
    assert [] + body[k] == body[k];
  }

  /** The inner loop once the payload lines `body[start..k]` have gone
      through it without a failed write. */
  function Resume(body: seq<seq<byte>>, start: nat, k: nat, m: Marks, f: string, st: Store): Inner
    requires start <= k <= |body| && f in st.files
    requires |Concat(Fill(body[start..k]).0)| <= st.free
  {
    var r := Fill(body[start..k]);
    InnerSpec(body, k, r.1, m, f, st.Appended(f, Concat(r.0)))
  }

  /** The inner loop at the delimiter that ends the payload. */
  lemma InnerRunLast(body: seq<seq<byte>>, start: nat, q: nat, m: Marks, f: string, st: Store)
    requires start <= q < |body| && f in st.files
    requires body[q] == m.begin || body[q] == m.end
    requires |Concat(Fill(body[start..q]).0)| <= st.free
    ensures var w := Written(body[start..q]);
      && (|w| <= st.free ==> Resume(body, start, q, m, f, st) == Inner(StopAt(body[q], m), q + 1, st.Appended(f, w)))
      && (|w| > st.free ==> Resume(body, start, q, m, f, st).stop == WriteFailed)
  {
    var (cs, b) := Fill(body[start..q]);
    if |Written(body[start..q])| <= st.free {
      AppendedTwice(st, f, Concat(cs), Trim2(b));
    }
  }

  /** A payload line before the delimiter moves the inner loop on by one
      line, as `Fill` does, or makes a flush fail when the payload does
      not fit. */
  lemma InnerRunStep(body: seq<seq<byte>>, start: nat, k: nat, q: nat, m: Marks, f: string, st: Store)
    requires start <= k < q < |body| && f in st.files
    requires body[k] != m.begin && body[k] != m.end
    requires |Concat(Fill(body[start..k]).0)| <= st.free
    ensures |Concat(Fill(body[start..k + 1]).0)| <= st.free ==>
      Resume(body, start, k, m, f, st) == Resume(body, start, k + 1, m, f, st)
    ensures |Concat(Fill(body[start..k + 1]).0)| > st.free ==>
      Resume(body, start, k, m, f, st).stop == WriteFailed && |Written(body[start..q])| > st.free
  {
    var (cs, b) := Fill(body[start..k]);
    var stk := st.Appended(f, Concat(cs));
    FillNext(body, start, k);
    InnerStep(body, k, b, m, f, stk);
    if |b| > FlushLimit {
      FillGrows(body[start..q], k - start);
      assert body[start..q][..k - start] == body[start..k];
      if |b| <= stk.free {
        AppendedTwice(st, f, Concat(cs), b);
      }
    }
  }

  /** The inner loop from the `k`-th line of a payload `body[start..q]`
      that ends at a delimiter line `body[q]`: it either writes all of
      `Written` and stops after the delimiter, or the disk is too small
      and a write fails. */
  lemma {:induction false} InnerRun(body: seq<seq<byte>>, start: nat, k: nat, q: nat, m: Marks, f: string, st: Store)
    requires start <= k <= q < |body| && f in st.files
    requires body[q] == m.begin || body[q] == m.end
    requires forall j :: start <= j < q ==> body[j] != m.begin && body[j] != m.end
    requires |Concat(Fill(body[start..k]).0)| <= st.free
    ensures var w := Written(body[start..q]);
      && (|w| <= st.free ==> Resume(body, start, k, m, f, st) == Inner(StopAt(body[q], m), q + 1, st.Appended(f, w)))
      && (|w| > st.free ==> Resume(body, start, k, m, f, st).stop == WriteFailed)
    decreases q - k
  {
    if k == q {
      InnerRunLast(body, start, q, m, f, st);
    } else if |Concat(Fill(body[start..k + 1]).0)| <= st.free {
      InnerRun(body, start, k + 1, q, m, f, st);
      InnerRunStep(body, start, k, q, m, f, st);
    } else {
      InnerRunStep(body, start, k, q, m, f, st);
    }
  }

  /** Everything the inner loop does for one part: it stores the payload
      `body[start..q]` minus two bytes, whatever the flushes did, unless the
      disk is too small. */
  lemma PartStored(body: seq<seq<byte>>, start: nat, q: nat, m: Marks, f: string, st: Store)
    requires start <= q < |body| && f in st.files
    requires body[q] == m.begin || body[q] == m.end
    requires forall j :: start <= j < q ==> body[j] != m.begin && body[j] != m.end
    requires q == start || |body[q - 1]| >= 2
    ensures var w := Trim2(Concat(body[start..q]));
      var r := InnerSpec(body, start, [], m, f, st);
      && (|w| <= st.free ==> r == Inner(StopAt(body[q], m), q + 1, st.Appended(f, w)))
      && (|w| > st.free ==> r.stop == WriteFailed)
  {
    assert body[start..start] == [];
    AppendedNothing(st, f);
    InnerRun(body, start, start, q, m, f, st);
    assert Resume(body, start, start, m, f, st) == InnerSpec(body, start, [], m, f, st);
    var lines := body[start..q];
    assert |lines| > 0 ==> lines[|lines| - 1] == body[q - 1];
    FlushInvisible(lines);
  }

  // ---------------------------------------------------------------------
  // Properties of the outer loop

  /** A body that does not start with `--boundary\r\n` is refused and
      nothing is created. */
  lemma NotBegin(contentType: Option<string>, cwd: string, requestPath: string, body: seq<seq<byte>>, st: Store)
    requires Boundary(contentType).Some?
    requires |body| == 0 || body[0] != MarksOf(Boundary(contentType).value).begin
    ensures PostSpec(contentType, cwd, requestPath, body, st) == Post(Returned(false, "\n" + NotBeginMsg), st)
  {
  }

  /** A part header without `filename="..."` (or not UTF-8) raises before
      anything is created. */
  lemma HeaderRaises(body: seq<seq<byte>>, pos: nat, info: string, m: Marks, path: string, st: Store)
    requires pos <= |body| && HeaderName(ReadLine(body, pos).0).None?
    ensures OuterSpec(body, pos, m.begin, info, m, path, st) == Post(Raised, st)
  {
  }

  /** `filename=""` stops with the "Can't find out file name" report. */
  lemma EmptyName(body: seq<seq<byte>>, pos: nat, info: string, m: Marks, path: string, st: Store)
    requires pos <= |body| && HeaderName(ReadLine(body, pos).0) == Some("")
    ensures OuterSpec(body, pos, m.begin, info, m, path, st) == Post(Returned(false, info + NoNameMsg), st)
  {
  }

  /** A file that cannot be created stops with "Exception!" and its name. */
  lemma CreateFails(body: seq<seq<byte>>, pos: nat, info: string, m: Marks, path: string, st: Store, name: string)
    requires pos < |body| && HeaderName(body[pos]) == Some(name) && name != ""
    requires !st.CanCreate(Resolve(st, path, name))
    ensures OuterSpec(body, pos, m.begin, info, m, path, st)
      == Post(Returned(false, info + ExceptionMsg + Resolve(st, path, name) + "\n"), st)
  {
  }

  /** One part: header line at `pos`, two skipped lines, payload up to the
      delimiter at `q`. Its file holds the payload minus two bytes and its
      name is added to the report; a `--boundary\r\n` delimiter goes on
      with the next part, `--boundary--\r\n` ends with success, and a
      payload that does not fit ends with "Exception!". */
  lemma PartOutcome(body: seq<seq<byte>>, pos: nat, q: nat, info: string, m: Marks, path: string, st: Store, name: string)
    requires pos + 3 <= q < |body| && HeaderName(body[pos]) == Some(name) && name != ""
    requires m.begin != m.end && (body[q] == m.begin || body[q] == m.end)
    requires forall j :: pos + 3 <= j < q ==> body[j] != m.begin && body[j] != m.end
    requires q == pos + 3 || |body[q - 1]| >= 2
    requires st.CanCreate(Resolve(st, path, name))
    ensures var filename := Resolve(st, path, name);
      var w := Trim2(Concat(body[pos + 3..q]));
      var r := PartStep(body, pos, info, m, path, st);
      && (|w| <= st.free && body[q] == m.end ==>
           r == Finish(Post(Returned(true, info + filename + "\n"), st.Created(filename).Appended(filename, w))))
      && (|w| <= st.free && body[q] == m.begin ==>
           r == More(q + 1, info + filename + "\n", st.Created(filename).Appended(filename, w)))
      && (|w| > st.free ==> r.Finish? && r.post.outcome == Returned(false, info + ExceptionMsg + filename + "\n"))
  {
    PartUnfold(body, pos, info, m, path, st, name);
    CopyOutcome(body, pos + 3, q, info, m, st, Resolve(st, path, name));
  }

  /** `PartOutcome` for the copy into the created file `filename`. */
  lemma CopyOutcome(body: seq<seq<byte>>, start: nat, q: nat, info: string, m: Marks, st: Store, filename: string)
    requires start <= q < |body| && st.CanCreate(filename) && filename !in st.files
    requires m.begin != m.end && (body[q] == m.begin || body[q] == m.end)
    requires forall j :: start <= j < q ==> body[j] != m.begin && body[j] != m.end
    requires q == start || |body[q - 1]| >= 2
    ensures var w := Trim2(Concat(body[start..q]));
      var r := AfterCopy(InnerSpec(body, start, [], m, filename, st.Created(filename)), info, filename);
      && (|w| <= st.free && body[q] == m.end ==>
           r == Finish(Post(Returned(true, info + filename + "\n"), st.Created(filename).Appended(filename, w))))
      && (|w| <= st.free && body[q] == m.begin ==>
           r == More(q + 1, info + filename + "\n", st.Created(filename).Appended(filename, w)))
      && (|w| > st.free ==> r.Finish? && r.post.outcome == Returned(false, info + ExceptionMsg + filename + "\n"))
  {
    var st1 := st.Created(filename);
    assert st1.free == st.free;
    PartStored(body, start, q, m, filename, st1);
  }

  /** `PartStep` on a part whose header names `name` and whose file can be created. */
  lemma PartUnfold(body: seq<seq<byte>>, pos: nat, info: string, m: Marks, path: string, st: Store, name: string)
    requires pos + 3 <= |body| && HeaderName(body[pos]) == Some(name) && name != ""
    requires st.CanCreate(Resolve(st, path, name))
    ensures var filename := Resolve(st, path, name);
      PartStep(body, pos, info, m, path, st)
        == AfterCopy(InnerSpec(body, pos + 3, [], m, filename, st.Created(filename)), info, filename)
  {
    assert ReadLine(body, pos) == (body[pos], pos + 1);
    assert ReadLine(body, pos + 1).1 == pos + 2 && ReadLine(body, pos + 2).1 == pos + 3;
  }

  /** A single-part upload stores the payload minus its last two bytes
      under the resolved name and reports success with that name. */
  lemma UploadOne(contentType: Option<string>, cwd: string, requestPath: string, body: seq<seq<byte>>, q: nat, st: Store, name: string)
    requires Boundary(contentType).Some?
    requires 4 <= q < |body| && body[0] == MarksOf(Boundary(contentType).value).begin
    requires body[q] == MarksOf(Boundary(contentType).value).end
    requires HeaderName(body[1]) == Some(name) && name != ""
    requires forall j :: 4 <= j < q ==>
      body[j] != MarksOf(Boundary(contentType).value).begin && body[j] != MarksOf(Boundary(contentType).value).end
    requires q == 4 || |body[q - 1]| >= 2
    requires st.CanCreate(Resolve(st, Translate(cwd, requestPath), name))
    requires |Concat(body[4..q])| <= st.free
    ensures var filename := Resolve(st, Translate(cwd, requestPath), name);
      var r := PostSpec(contentType, cwd, requestPath, body, st);
      && r.outcome == Returned(true, "\n" + filename + "\n")
      && r.st.files == st.files[filename := Trim2(Concat(body[4..q]))]
  {
    var m := MarksOf(Boundary(contentType).value);
    var path := Translate(cwd, requestPath);
    PostStart(contentType, cwd, requestPath, body, st);
    OnePart(body, q, m, path, st, name);
  }

  /** The outer loop on a body whose first part also is its last. */
  lemma OnePart(body: seq<seq<byte>>, q: nat, m: Marks, path: string, st: Store, name: string)
    requires 4 <= q < |body| && HeaderName(body[1]) == Some(name) && name != ""
    requires m.begin != m.end && body[q] == m.end
    requires forall j :: 4 <= j < q ==> body[j] != m.begin && body[j] != m.end
    requires q == 4 || |body[q - 1]| >= 2
    requires st.CanCreate(Resolve(st, path, name))
    requires |Concat(body[4..q])| <= st.free
    ensures var filename := Resolve(st, path, name);
      var r := OuterSpec(body, 1, m.begin, "\n", m, path, st);
      && r.outcome == Returned(true, "\n" + filename + "\n")
      && r.st.files == st.files[filename := Trim2(Concat(body[4..q]))]
  {
    var filename := Resolve(st, path, name);
    var w := Trim2(Concat(body[4..q]));
    assert |w| <= st.free by {
      assert |w| <= |Concat(body[4..q])|;
    }
    PartOutcome(body, 1, q, "\n", m, path, st, name);
    st.CreatedThenAppended(filename, w);
  }

  /** A body that starts with `--boundary\r\n` goes on with the first part header. */
  lemma PostStart(contentType: Option<string>, cwd: string, requestPath: string, body: seq<seq<byte>>, st: Store)
    requires Boundary(contentType).Some?
    requires |body| > 0 && body[0] == MarksOf(Boundary(contentType).value).begin
    ensures var m := MarksOf(Boundary(contentType).value);
      PostSpec(contentType, cwd, requestPath, body, st) == OuterSpec(body, 1, m.begin, "\n", m, Translate(cwd, requestPath), st)
  {
  }

  // ---------------------------------------------------------------------
  // The page `do_POST` answers with

  const PageHead := "<!DOCTYPE HTML PUBLIC \"-//W3C//DTD HTML 4.01//EN\" \"http://www.w3.org/TR/html4/strict.dtd\">"
    + "<html><head><meta http-equiv=\"Content-Type\" content=\"text/html; charset=utf-8\">"

  /** `"{}".format(self.headers["referer"])`: a missing header formats as `None`. */
  function RefererText(referer: Option<string>): string
  {
    if referer.Some? then referer.value else "None"
  }

  /** The page up to its title. */
  function PageTop(result: string): string
  {
    PageHead + "<title>" + result + "</title>"
  }

  /** The result page: title and heading say Success or Failed, the report
      follows with its line breaks as `<br>`, then the link back. */
  function ResultPage(status: bool, info: string, referer: Option<string>): (page: string)
  {
    var result := if status then "Success" else "Failed";
    PageTop(result) + ("</head><body><h2>" + result + "</h2><hr>"
      + ReplaceAll(info, "\n", "<br>") + "<br><a href=\"" + RefererText(referer) + "\">back</a></body>\n</html>")
  }

  /** `do_POST`: the result page for the returned report; `None` when
      `deal_post_data` raised or never returned. */
  function DoPost(o: Outcome, referer: Option<string>): (r: Option<Response>)
    ensures r.Some? <==> o.Returned?
    ensures r.Some? ==>
      && r.value.Reply? && r.value.code == 200 && |r.value.headers| == 2
      && Value(r.value.headers[1].1) == |r.value.body|
      && Utf8Decode(r.value.body) == Some(ResultPage(o.status, o.info, referer))
  {
    if o.Returned? then Some(HtmlReply(ResultPage(o.status, o.info, referer))) else None
  }

  /** The report keeps no raw newline on the page: each became `<br>`. */
  lemma PageHasNoRawReportNewline(info: string)
    ensures '\n' !in ReplaceAll(info, "\n", "<br>")
  {
    ReplaceAllRemoves(info, '\n', "<br>");
  }

  /** The page's title says Success or Failed as the upload went. */
  lemma PageTitle(status: bool, info: string, referer: Option<string>)
    ensures status ==> PageTop("Success") <= ResultPage(status, info, referer)
    ensures !status ==> PageTop("Failed") <= ResultPage(status, info, referer)
  {
  }
}
