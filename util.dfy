/** Sequence, string and byte helpers shared by the models: the parts of
    Python's and JavaScript's string libraries that the modelled code calls
    (split, join, replace, startswith, lower, encode). */
module Util {

  datatype Option<T> = None | Some(value: T)

  /** A byte is an integer in [0, 256). */
  type byte = b: int | 0 <= b < 256

  /** Concatenation of a sequence of sequences, in order. */
  function Concat<T>(ss: seq<seq<T>>): seq<T>
  {
    if |ss| == 0 then [] else Concat(ss[..|ss| - 1]) + ss[|ss| - 1]
  }

  lemma ConcatSnoc<T>(a: seq<seq<T>>, x: seq<T>)
    ensures Concat(a + [x]) == Concat(a) + x
  {
    assert (a + [x])[..|a|] == a;
  }

  lemma ConcatAppend<T>(a: seq<seq<T>>, b: seq<seq<T>>)
    ensures Concat(a + b) == Concat(a) + Concat(b)
    decreases |b|
  {
    if |b| == 0 {
      assert a + b == a;
    } else {
      assert (a + b)[..|a + b| - 1] == a + b[..|b| - 1];
      ConcatAppend(a, b[..|b| - 1]);
    }
  }

  /** Number of occurrences of `x` in `s`. */
  function Count<T(==)>(x: T, s: seq<T>): nat
  {
    if |s| == 0 then 0 else (if s[0] == x then 1 else 0) + Count(x, s[1..])
  }

  lemma CountAppend<T>(x: T, a: seq<T>, b: seq<T>)
    ensures Count(x, a + b) == Count(x, a) + Count(x, b)
  {
    if |a| == 0 {
      assert a + b == b;
    } else {
      assert (a + b)[1..] == a[1..] + b;
      CountAppend(x, a[1..], b);
    }
  }

  lemma CountZero<T>(x: T, s: seq<T>)
    ensures Count(x, s) == 0 <==> x !in s
  {
    if |s| > 0 {
      CountZero(x, s[1..]);
      assert s == [s[0]] + s[1..];
    }
  }

  /** Python's `str.split(sep)` / JavaScript's `String.prototype.split(sep)`
      for a one-element separator: the maximal separator-free pieces, in order. */
  function Split<T(==)>(s: seq<T>, sep: T): (r: seq<seq<T>>)
    ensures |r| >= 1
  {
    if |s| == 0 then [[]]
    else
      var rest := Split(s[1..], sep);
      if s[0] == sep then [[]] + rest
      else [[s[0]] + rest[0]] + rest[1..]
  }

  /** `sep.join(ps)` / `ps.join(sep)`. */
  function Join<T>(ps: seq<seq<T>>, sep: seq<T>): seq<T>
  {
    if |ps| == 0 then []
    else if |ps| == 1 then ps[0]
    else ps[0] + sep + Join(ps[1..], sep)
  }

  /** Pieces with the same number of `x` each join to texts with the same
      number of `x`. */
  lemma {:induction false} JoinCountSame<T>(x: T, ps: seq<seq<T>>, qs: seq<seq<T>>, sep: seq<T>)
    requires |ps| == |qs|
    requires forall i :: 0 <= i < |ps| ==> Count(x, ps[i]) == Count(x, qs[i])
    ensures Count(x, Join(ps, sep)) == Count(x, Join(qs, sep))
    decreases |ps|
  {
    if |ps| > 1 {
      JoinCountSame(x, ps[1..], qs[1..], sep);
      CountAppend(x, ps[0] + sep, Join(ps[1..], sep));
      CountAppend(x, ps[0], sep);
      CountAppend(x, qs[0] + sep, Join(qs[1..], sep));
      CountAppend(x, qs[0], sep);
    }
  }

  lemma SplitPiecesFree<T>(s: seq<T>, sep: T)
    ensures forall i :: 0 <= i < |Split(s, sep)| ==> sep !in Split(s, sep)[i]
  {
    if |s| > 0 { SplitPiecesFree(s[1..], sep); }
  }

  lemma SplitCount<T>(s: seq<T>, sep: T)
    ensures |Split(s, sep)| == Count(sep, s) + 1
  {
    if |s| > 0 { SplitCount(s[1..], sep); }
  }

  lemma JoinSplit<T>(s: seq<T>, sep: T)
    ensures Join(Split(s, sep), [sep]) == s
  {
    if |s| > 0 {
      JoinSplit(s[1..], sep);
      var rest := Split(s[1..], sep);
      if s[0] != sep {
        if |rest| > 1 {
          assert ([[s[0]] + rest[0]] + rest[1..])[1..] == rest[1..];
          assert Join(rest, [sep]) == rest[0] + [sep] + Join(rest[1..], [sep]);
        }
      } else {
        assert ([[]] + rest)[1..] == rest;
      }
    }
  }

  lemma {:induction false} SplitNoSep<T>(a: seq<T>, sep: T)
    requires sep !in a
    ensures Split(a, sep) == [a]
  {
    if |a| > 0 {
      SplitNoSep(a[1..], sep);
      assert a == [a[0]] + a[1..];
    }
  }

  lemma {:induction false} SplitAt<T>(a: seq<T>, sep: T, b: seq<T>)
    requires sep !in a
    ensures Split(a + [sep] + b, sep) == [a] + Split(b, sep)
  {
    if |a| == 0 {
      assert a + [sep] + b == [sep] + b;
      assert ([sep] + b)[1..] == b;
    } else {
      assert (a + [sep] + b)[1..] == a[1..] + [sep] + b;
      SplitAt(a[1..], sep, b);
      assert a == [a[0]] + a[1..];
    }
  }

  lemma {:induction false} SplitJoin<T>(ps: seq<seq<T>>, sep: T)
    requires |ps| >= 1
    requires forall i :: 0 <= i < |ps| ==> sep !in ps[i]
    ensures Split(Join(ps, [sep]), sep) == ps
  {
    if |ps| == 1 {
      SplitNoSep(ps[0], sep);
    } else {
      SplitJoin(ps[1..], sep);
      SplitAt(ps[0], sep, Join(ps[1..], [sep]));
      assert ps == [ps[0]] + ps[1..];
    }
  }

  /** The first piece of `s.split(sep)`: everything before the first `sep`. */
  function BeforeFirst<T(==)>(s: seq<T>, sep: T): seq<T>
  {
    Split(s, sep)[0]
  }

  lemma {:induction false} BeforeFirstIsPrefix<T>(s: seq<T>, sep: T)
    ensures BeforeFirst(s, sep) <= s && sep !in BeforeFirst(s, sep)
    decreases |s|
  {
    SplitPiecesFree(s, sep);
    if |s| > 0 && s[0] != sep {
      BeforeFirstIsPrefix(s[1..], sep);
    }
  }

  lemma BeforeFirstNoSep<T>(s: seq<T>, sep: T)
    requires sep !in s
    ensures BeforeFirst(s, sep) == s
  {
    if |s| > 0 { BeforeFirstNoSep(s[1..], sep); }
  }

  lemma BeforeFirstAt<T>(a: seq<T>, sep: T, b: seq<T>)
    requires sep !in a
    ensures BeforeFirst(a + [sep] + b, sep) == a
  {
    if |a| == 0 {
      assert a + [sep] + b == [sep] + b;
    } else {
      assert (a + [sep] + b)[1..] == a[1..] + [sep] + b;
      BeforeFirstAt(a[1..], sep, b);
    }
  }

  lemma {:induction false} BeforeFirstPrefix<T>(a: seq<T>, sep: T, b: seq<T>)
    requires sep !in a
    ensures BeforeFirst(a + b, sep) == a + BeforeFirst(b, sep)
    decreases |a|
  {
    if |a| == 0 {
      assert a + b == b;
    } else {
      assert (a + b)[1..] == a[1..] + b;
      BeforeFirstPrefix(a[1..], sep, b);
      assert a == [a[0]] + a[1..];
    }
  }

  /** Python's `str.replace(p, r)` and JavaScript's `replaceAll(p, r)` for a
      non-empty pattern: occurrences are replaced left to right, without overlap. */
  function ReplaceAll<T(==)>(s: seq<T>, p: seq<T>, r: seq<T>): seq<T>
    requires |p| > 0
    decreases |s|
  {
    if |s| == 0 then []
    else if p <= s then r + ReplaceAll(s[|p|..], p, r)
    else [s[0]] + ReplaceAll(s[1..], p, r)
  }

  /** A pattern whose first element does not occur leaves the text unchanged. */
  lemma {:induction false} ReplaceAllAbsent<T>(s: seq<T>, p: seq<T>, r: seq<T>)
    requires |p| > 0 && p[0] !in s
    ensures ReplaceAll(s, p, r) == s
    decreases |s|
  {
    if |s| > 0 {
      assert !(p <= s);
      ReplaceAllAbsent(s[1..], p, r);
      assert s == [s[0]] + s[1..];
    }
  }

  /** Replacing in the pattern itself gives the replacement. */
  lemma ReplaceAllWhole<T>(p: seq<T>, r: seq<T>)
    requires |p| > 0
    ensures ReplaceAll(p, p, r) == r
  {
    assert p[|p|..] == [];
  }

  /** A leading element that cannot start the pattern is copied. */
  lemma ReplaceAllCons<T>(c: T, s: seq<T>, p: seq<T>, r: seq<T>)
    requires |p| > 0 && c != p[0]
    ensures ReplaceAll([c] + s, p, r) == [c] + ReplaceAll(s, p, r)
  {
    assert ([c] + s)[1..] == s;
  }

  /** A pattern occurring at the front is replaced there. */
  lemma ReplaceAllFront<T>(s: seq<T>, p: seq<T>, r: seq<T>)
    requires |p| > 0
    ensures ReplaceAll(p + s, p, r) == r + ReplaceAll(s, p, r)
  {
    assert p <= p + s;
    assert (p + s)[|p|..] == s;
  }

  /** An element that occurs in neither pattern nor replacement keeps its count. */
  lemma {:induction false} ReplaceAllCount<T>(x: T, s: seq<T>, p: seq<T>, r: seq<T>)
    requires |p| > 0 && x !in p && x !in r
    ensures Count(x, ReplaceAll(s, p, r)) == Count(x, s)
    decreases |s|
  {
    if |s| > 0 {
      if p <= s {
        ReplaceAllCount(x, s[|p|..], p, r);
        CountAppend(x, r, ReplaceAll(s[|p|..], p, r));
        CountZero(x, r);
        CountZero(x, p);
        assert s == p + s[|p|..];
        CountAppend(x, p, s[|p|..]);
      } else {
        ReplaceAllCount(x, s[1..], p, r);
        CountAppend(x, [s[0]], ReplaceAll(s[1..], p, r));
      }
    }
  }

  /** A one-element pattern that does not occur in its replacement is gone afterwards. */
  lemma {:induction false} ReplaceAllRemoves<T>(s: seq<T>, x: T, r: seq<T>)
    requires x !in r
    ensures x !in ReplaceAll(s, [x], r)
    decreases |s|
  {
    if |s| > 0 {
      ReplaceAllRemoves(s[1..], x, r);
      if [x] <= s {
        assert s[1..] == s[|[x]|..];
      } else {
        assert s[0] != x;
      }
    }
  }

  /** `s` never has `a` immediately followed by `b`. */
  predicate NoPair<T(==)>(s: seq<T>, a: T, b: T)
  {
    forall i :: 0 <= i < |s| - 1 ==> !(s[i] == a && s[i + 1] == b)
  }

  lemma NoPairAppend<T>(u: seq<T>, v: seq<T>, a: T, b: T)
    requires NoPair(u, a, b) && NoPair(v, a, b)
    requires |u| > 0 && |v| > 0 ==> !(u[|u| - 1] == a && v[0] == b)
    ensures NoPair(u + v, a, b)
  {
    forall i | 0 <= i < |u + v| - 1
      ensures !((u + v)[i] == a && (u + v)[i + 1] == b)
    {
      if i + 1 < |u| {
        assert (u + v)[i] == u[i] && (u + v)[i + 1] == u[i + 1];
      } else if i + 1 == |u| {
        assert (u + v)[i] == u[|u| - 1] && (u + v)[i + 1] == v[0];
      } else {
        assert (u + v)[i] == v[i - |u|] && (u + v)[i + 1] == v[i - |u| + 1];
      }
    }
  }

  lemma NoPairSuffix<T>(s: seq<T>, k: nat, a: T, b: T)
    requires k <= |s| && NoPair(s, a, b)
    ensures NoPair(s[k..], a, b)
  {
    forall i | 0 <= i < |s[k..]| - 1
      ensures !(s[k..][i] == a && s[k..][i + 1] == b)
    {
      assert s[k..][i] == s[k + i] && s[k..][i + 1] == s[k + i + 1];
    }
  }

  lemma NoPairWithout<T>(s: seq<T>, a: T, b: T)
    requires a !in s
    ensures NoPair(s, a, b)
  {
    forall i | 0 <= i < |s| - 1
      ensures !(s[i] == a && s[i + 1] == b)
    {
      assert s[i] in s;
    }
  }

  /** The first element of a replacement result comes from the text or from the replacement. */
  lemma ReplaceAllHead<T>(s: seq<T>, p: seq<T>, r: seq<T>)
    requires |p| > 0 && |ReplaceAll(s, p, r)| > 0
    ensures (!(p <= s) && ReplaceAll(s, p, r)[0] == s[0])
            || (p <= s && (|r| == 0 || ReplaceAll(s, p, r)[0] == r[0]))
  {
  }

  /** Rewriting with a pattern and a non-empty replacement, both free of `a`
      and `b`, never creates an adjacent pair `a b`. */
  lemma {:induction false} ReplaceAllNoNewPair<T>(s: seq<T>, p: seq<T>, r: seq<T>, a: T, b: T)
    requires |p| > 0 && |r| > 0
    requires a !in p && b !in p && a !in r && b !in r
    requires NoPair(s, a, b)
    ensures NoPair(ReplaceAll(s, p, r), a, b)
    decreases |s|
  {
    if |s| > 0 {
      if p <= s {
        var rest := s[|p|..];
        NoPairSuffix(s, |p|, a, b);
        ReplaceAllNoNewPair(rest, p, r, a, b);
        NoPairWithout(r, a, b);
        assert r[|r| - 1] in r;
        NoPairAppend(r, ReplaceAll(rest, p, r), a, b);
      } else {
        var rest := s[1..];
        NoPairSuffix(s, 1, a, b);
        ReplaceAllNoNewPair(rest, p, r, a, b);
        var tail := ReplaceAll(rest, p, r);
        if |tail| > 0 {
          ReplaceAllHead(rest, p, r);
          if p <= rest {
            assert r[0] in r;
          } else {
            assert tail[0] == s[1];
          }
        }
        NoPairAppend([s[0]], tail, a, b);
      }
    }
  }

  /** Replacing `a b` by `c b`, with `c` different from `a`, leaves no `a b` behind. */
  lemma {:induction false} ReplaceAllPairGone<T>(s: seq<T>, a: T, b: T, c: T)
    requires a != c && a != b && b != c
    ensures NoPair(ReplaceAll(s, [a, b], [c, b]), a, b)
    decreases |s|
  {
    if |s| > 0 {
      var p := [a, b];
      if p <= s {
        var rest := s[2..];
        ReplaceAllPairGone(rest, a, b, c);
        NoPairWithout([c, b], a, b);
        assert [c, b][1] == b;
        NoPairAppend([c, b], ReplaceAll(rest, p, [c, b]), a, b);
      } else {
        var rest := s[1..];
        ReplaceAllPairGone(rest, a, b, c);
        var tail := ReplaceAll(rest, p, [c, b]);
        if |tail| > 0 {
          ReplaceAllHead(rest, p, [c, b]);
          if p <= rest {
            assert tail[0] == c;
          } else {
            assert tail[0] == s[1];
            assert s[..2] == [s[0], s[1]];
          }
        }
        NoPairAppend([s[0]], tail, a, b);
      }
    }
  }

  /** Python's `str.endswith` for a one-element suffix. */
  predicate EndsWith<T(==)>(s: seq<T>, x: T)
  {
    |s| > 0 && s[|s| - 1] == x
  }

  /** Index of the first `x` in `s`, or -1 (Python's `str.find`). */
  function Find<T(==)>(s: seq<T>, x: T): (i: int)
    ensures -1 <= i < |s|
    ensures i >= 0 ==> s[i] == x && x !in s[..i]
    ensures i == -1 ==> x !in s
  {
    if |s| == 0 then -1
    else if s[0] == x then 0
    else
      var i := Find(s[1..], x);
      if i < 0 then -1
      else
        assert s[..i + 1] == [s[0]] + s[1..][..i];
        i + 1
  }

  /** Index of the last `x` in `s`, or -1 (Python's `str.rfind`). */
  function RFind<T(==)>(s: seq<T>, x: T): (i: int)
    ensures -1 <= i < |s|
    ensures i >= 0 ==> s[i] == x && x !in s[i + 1..]
    ensures i == -1 ==> x !in s
  {
    if |s| == 0 then -1
    else if s[|s| - 1] == x then |s| - 1
    else
      var i := RFind(s[..|s| - 1], x);
      assert s[..|s| - 1][i + 1..] + [s[|s| - 1]] == s[i + 1..];
      i
  }

  lemma SeqAssoc<T>(a: seq<T>, b: seq<T>, c: seq<T>)
    ensures a + (b + c) == (a + b) + c
  {
  }

  /** The last occurrence is the one with no occurrence after it. */
  lemma RFindIs<T>(s: seq<T>, x: T, i: nat)
    requires i < |s| && s[i] == x && x !in s[i + 1..]
    ensures RFind(s, x) == i
  {
  }

  /** ASCII case folding, as `str.lower()` does for ASCII letters. */
  function LowerChar(c: char): char
  {
    if 'A' <= c <= 'Z' then (c as int + 32) as char else c
  }

  function Lower(s: string): (r: string)
    ensures |r| == |s|
    ensures forall i :: 0 <= i < |s| ==> r[i] == LowerChar(s[i])
  {
    if |s| == 0 then [] else [LowerChar(s[0])] + Lower(s[1..])
  }

  /** Python's string order `<`: lexicographic by code point. */
  predicate Less(a: string, b: string)
  {
    if |a| == 0 then |b| > 0
    else if |b| == 0 then false
    else a[0] < b[0] || (a[0] == b[0] && Less(a[1..], b[1..]))
  }

  lemma LessIrreflexive(a: string)
    ensures !Less(a, a)
  {
  }

  lemma {:induction false} LessTotal(a: string, b: string)
    ensures Less(a, b) || a == b || Less(b, a)
  {
    if |a| > 0 && |b| > 0 && a[0] == b[0] {
      LessTotal(a[1..], b[1..]);
      if a[1..] == b[1..] {
        assert a == [a[0]] + a[1..] && b == [b[0]] + b[1..];
      }
    }
  }

  lemma {:induction false} LessTransitive(a: string, b: string, c: string)
    requires Less(a, b) && Less(b, c)
    ensures Less(a, c)
  {
    if |a| > 0 && a[0] == b[0] && b[0] == c[0] {
      LessTransitive(a[1..], b[1..], c[1..]);
    }
  }

  /** UTF-8 encoding of one Unicode scalar value (`str.encode("utf-8")`). */
  function EncodeChar(c: char): (r: seq<byte>)
    ensures 1 <= |r| <= 4
    ensures (c as int < 0x80) <==> r == [c as int]
  {
    var n := c as int;
    if n < 0x80 then [n]
    else if n < 0x800 then [0xC0 + n / 64, 0x80 + n % 64]
    else if n < 0x10000 then [0xE0 + n / 4096, 0x80 + (n / 64) % 64, 0x80 + n % 64]
    else [0xF0 + n / 262144, 0x80 + (n / 4096) % 64, 0x80 + (n / 64) % 64, 0x80 + n % 64]
  }

  function Utf8(s: string): (r: seq<byte>)
    ensures |r| >= |s|
  {
    if |s| == 0 then [] else EncodeChar(s[0]) + Utf8(s[1..])
  }

  lemma Utf8Append(a: string, b: string)
    ensures Utf8(a + b) == Utf8(a) + Utf8(b)
  {
    if |a| == 0 {
      assert a + b == b;
    } else {
      assert (a + b)[1..] == a[1..] + b;
      Utf8Append(a[1..], b);
    }
  }

  /** ASCII text encodes to one byte per character. */
  lemma {:induction false} Utf8Ascii(s: string)
    requires forall i :: 0 <= i < |s| ==> s[i] as int < 0x80
    ensures |Utf8(s)| == |s|
    ensures forall i :: 0 <= i < |s| ==> Utf8(s)[i] == s[i] as int
  {
    if |s| > 0 {
      Utf8Ascii(s[1..]);
    }
  }

  predicate IsCont(b: byte)
  {
    0x80 <= b < 0xC0
  }

  /** A Unicode scalar value: what a `char` may hold. */
  predicate IsScalar(n: int)
  {
    0 <= n < 0xD800 || 0xE000 <= n < 0x110000
  }

  /** The first character of `b` and its length in bytes under strict
      UTF-8 (`bytes.decode("utf-8")`): no overlong forms, no surrogates,
      nothing above U+10FFFF. */
  function DecodeChar(b: seq<byte>): (r: Option<(char, nat)>)
    requires |b| > 0
    ensures r.Some? ==> 1 <= r.value.1 <= |b| && r.value.1 <= 4
  {
    var b0 := b[0] as int;
    if b0 < 0x80 then Some((b0 as char, 1))
    else if 0xC2 <= b0 < 0xE0 && |b| >= 2 && IsCont(b[1]) then
      var n := (b0 - 0xC0) * 64 + (b[1] as int - 0x80);
      Some((n as char, 2))
    else if 0xE0 <= b0 < 0xF0 && |b| >= 3 && IsCont(b[1]) && IsCont(b[2])
      && (b0 == 0xE0 ==> b[1] >= 0xA0) && (b0 == 0xED ==> b[1] < 0xA0) then
      var n := Code3(b0, b[1], b[2]);
      Some((n as char, 3))
    else if 0xF0 <= b0 < 0xF5 && |b| >= 4 && IsCont(b[1]) && IsCont(b[2]) && IsCont(b[3])
      && (b0 == 0xF0 ==> b[1] >= 0x90) && (b0 == 0xF4 ==> b[1] < 0x90) then
      var n := Code4(b0, b[1], b[2], b[3]);
      Some((n as char, 4))
    else None
  }

  function Code3(b0: int, b1: byte, b2: byte): (n: int)
    requires 0xE0 <= b0 < 0xF0 && IsCont(b1) && IsCont(b2)
    requires (b0 == 0xE0 ==> b1 >= 0xA0) && (b0 == 0xED ==> b1 < 0xA0)
    ensures 0x800 <= n < 0x10000 && IsScalar(n)
  {
    (b0 - 0xE0) * 4096 + (b1 as int - 0x80) * 64 + (b2 as int - 0x80)
  }

  function Code4(b0: int, b1: byte, b2: byte, b3: byte): (n: int)
    requires 0xF0 <= b0 < 0xF5 && IsCont(b1) && IsCont(b2) && IsCont(b3)
    requires (b0 == 0xF0 ==> b1 >= 0x90) && (b0 == 0xF4 ==> b1 < 0x90)
    ensures 0x10000 <= n < 0x110000
  {
    (b0 - 0xF0) * 262144 + (b1 as int - 0x80) * 4096 + (b2 as int - 0x80) * 64 + (b3 as int - 0x80)
  }

  /** `bytes.decode("utf-8")`; `None` where Python raises `UnicodeDecodeError`. */
  function Utf8Decode(b: seq<byte>): Option<string>
    decreases |b|
  {
    if |b| == 0 then Some([])
    else
      match DecodeChar(b)
      case None => None
      case Some((c, n)) =>
        match Utf8Decode(b[n..])
        case None => None
        case Some(t) => Some([c] + t)
  }

  lemma Digits64(n: int)
    requires n >= 0
    ensures n == 64 * (n / 64) + n % 64 && n / 64 == 64 * (n / 4096) + (n / 64) % 64
    ensures n / 4096 == 64 * (n / 262144) + (n / 4096) % 64
  {
  }

  /** Decoding undoes the encoding of one character. */
  lemma DecodeEncodeChar(c: char, rest: seq<byte>)
    ensures DecodeChar(EncodeChar(c) + rest) == Some((c, |EncodeChar(c)|))
  {
    var n := c as int;
    var e := EncodeChar(c);
    var b := e + rest;
    assert forall i :: 0 <= i < |e| ==> b[i] == e[i];
    if n < 0x80 {
    } else if n < 0x800 {
      Decode2(n);
    } else if n < 0x10000 {
      Decode3(n);
    } else {
      Decode4(n);
    }
  }

  lemma Decode2(n: int)
    requires 0x80 <= n < 0x800
    ensures 0xC2 <= 0xC0 + n / 64 < 0xE0 && 0 <= n % 64 < 64
    ensures (n / 64) * 64 + n % 64 == n
  {
  }

  lemma Decode3(n: int)
    requires 0x800 <= n < 0x10000
    ensures 0 <= n / 4096 < 16 && 0 <= (n / 64) % 64 < 64 && 0 <= n % 64 < 64
    ensures n / 4096 == 0 ==> (n / 64) % 64 >= 0x20
    ensures (n / 4096) * 4096 + ((n / 64) % 64) * 64 + n % 64 == n
  {
    var q := n / 64;
    assert n == q * 64 + n % 64;
    assert q == (q / 64) * 64 + q % 64;
    assert q / 64 == n / 4096;
  }

  lemma Decode4(n: int)
    requires 0x10000 <= n < 0x110000
    ensures n / 262144 == 0 ==> (n / 4096) % 64 >= 0x10
    ensures 0 <= n / 262144 < 5 && 0 <= (n / 4096) % 64 < 64 && 0 <= (n / 64) % 64 < 64 && 0 <= n % 64 < 64
    ensures n / 262144 == 4 ==> (n / 4096) % 64 < 0x10
    ensures (n / 262144) * 262144 + ((n / 4096) % 64) * 4096 + ((n / 64) % 64) * 64 + n % 64 == n
  {
    var q := n / 64;
    var t := q / 64;
    assert n == q * 64 + n % 64;
    assert q == t * 64 + q % 64;
    assert t == n / 4096;
    assert t == (t / 64) * 64 + t % 64;
    assert t / 64 == n / 262144;
  }

  /** Decoding only accepts the encoding of the character it returns. */
  lemma EncodeDecodeChar(b: seq<byte>)
    requires |b| > 0 && DecodeChar(b).Some?
    ensures b[..DecodeChar(b).value.1] == EncodeChar(DecodeChar(b).value.0)
  {
    var k := DecodeChar(b).value.1;
    if k == 1 {
      assert b[..1] == [b[0]];
    } else if k == 2 {
      Encode2(b[0], b[1]);
      assert b[..2] == [b[0], b[1]];
    } else if k == 3 {
      Encode3(b[0], b[1], b[2]);
      assert b[..3] == [b[0], b[1], b[2]];
    } else {
      Encode4(b[0], b[1], b[2], b[3]);
      assert b[..4] == [b[0], b[1], b[2], b[3]];
    }
  }

  lemma Split64(q: int, r: int)
    requires 0 <= r < 64
    ensures (q * 64 + r) / 64 == q && (q * 64 + r) % 64 == r
  {
  }

  lemma Split4096(q: int, r: int)
    requires 0 <= r < 4096
    ensures (q * 4096 + r) / 4096 == q && (q * 4096 + r) % 4096 == r
  {
  }

  lemma Split262144(q: int, r: int)
    requires 0 <= r < 262144
    ensures (q * 262144 + r) / 262144 == q
  {
  }

  /** A two-byte sequence is the encoding of the character it decodes to. */
  lemma Encode2(b0: byte, b1: byte)
    requires 0xC2 <= b0 < 0xE0 && IsCont(b1)
    ensures var n := (b0 as int - 0xC0) * 64 + (b1 as int - 0x80);
      0x80 <= n < 0x800 && EncodeChar(n as char) == [b0, b1]
  {
    Split64(b0 as int - 0xC0, b1 as int - 0x80);
  }

  lemma Encode3(b0: byte, b1: byte, b2: byte)
    requires 0xE0 <= b0 < 0xF0 && IsCont(b1) && IsCont(b2)
    requires (b0 == 0xE0 ==> b1 >= 0xA0) && (b0 == 0xED ==> b1 < 0xA0)
    ensures EncodeChar(Code3(b0 as int, b1, b2) as char) == [b0, b1, b2]
  {
    var n := Code3(b0 as int, b1, b2);
    var hi := (b0 as int - 0xE0) * 64 + (b1 as int - 0x80);
    assert n == hi * 64 + (b2 as int - 0x80);
    Split64(hi, b2 as int - 0x80);
    Split64(b0 as int - 0xE0, b1 as int - 0x80);
    assert n == (b0 as int - 0xE0) * 4096 + ((b1 as int - 0x80) * 64 + (b2 as int - 0x80));
    Split4096(b0 as int - 0xE0, (b1 as int - 0x80) * 64 + (b2 as int - 0x80));
  }

  lemma Encode4(b0: byte, b1: byte, b2: byte, b3: byte)
    requires 0xF0 <= b0 < 0xF5 && IsCont(b1) && IsCont(b2) && IsCont(b3)
    requires (b0 == 0xF0 ==> b1 >= 0x90) && (b0 == 0xF4 ==> b1 < 0x90)
    ensures EncodeChar(Code4(b0 as int, b1, b2, b3) as char) == [b0, b1, b2, b3]
  {
    var n := Code4(b0 as int, b1, b2, b3);
    var top := (b0 as int - 0xF0) * 64 + (b1 as int - 0x80);
    var mid := top * 64 + (b2 as int - 0x80);
    assert n == mid * 64 + (b3 as int - 0x80);
    Split64(mid, b3 as int - 0x80);
    Split64(top, b2 as int - 0x80);
    Split64(b0 as int - 0xF0, b1 as int - 0x80);
    assert n == top * 4096 + ((b2 as int - 0x80) * 64 + (b3 as int - 0x80));
    Split4096(top, (b2 as int - 0x80) * 64 + (b3 as int - 0x80));
    assert n == (b0 as int - 0xF0) * 262144 + ((b1 as int - 0x80) * 4096 + (b2 as int - 0x80) * 64 + (b3 as int - 0x80));
    Split262144(b0 as int - 0xF0, (b1 as int - 0x80) * 4096 + (b2 as int - 0x80) * 64 + (b3 as int - 0x80));
  }

  /** UTF-8 round trip: decoding the encoding of a string gives the string back. */
  lemma {:induction false} Utf8DecodeEncode(s: string)
    ensures Utf8Decode(Utf8(s)) == Some(s)
    decreases |s|
  {
    if |s| > 0 {
      var e := EncodeChar(s[0]);
      DecodeEncodeChar(s[0], Utf8(s[1..]));
      assert (e + Utf8(s[1..]))[|e|..] == Utf8(s[1..]);
      Utf8DecodeEncode(s[1..]);
      assert s == [s[0]] + s[1..];
    }
  }

  /** ... and a decoded string encodes to exactly the bytes it came from. */
  lemma {:induction false} Utf8EncodeDecode(b: seq<byte>)
    requires Utf8Decode(b).Some?
    ensures Utf8(Utf8Decode(b).value) == b
    decreases |b|
  {
    if |b| > 0 {
      var (c, n) := DecodeChar(b).value;
      EncodeDecodeChar(b);
      Utf8EncodeDecode(b[n..]);
      Utf8Cons(c, Utf8Decode(b[n..]).value, b, n);
    }
  }

  lemma Utf8Cons(c: char, t: string, b: seq<byte>, n: nat)
    requires n <= |b| && b[..n] == EncodeChar(c) && Utf8(t) == b[n..]
    ensures Utf8([c] + t) == b
  {
    assert ([c] + t)[1..] == t;
    assert b == b[..n] + b[n..];
  }

  /** Bytes read as characters one for one (code points 0 to 255). */
  function Latin1(b: seq<byte>): (s: string)
    ensures |s| == |b|
    ensures forall i :: 0 <= i < |b| ==> s[i] as int == b[i]
  {
    if |b| == 0 then [] else [b[0] as char] + Latin1(b[1..])
  }

  /** ASCII decimal digits, what `\d` and `int()` accept here. */
  predicate IsDigit(c: char)
  {
    '0' <= c <= '9'
  }

  predicate AllDigits(s: string)
  {
    |s| == 0 || (IsDigit(s[0]) && AllDigits(s[1..]))
  }

  /** The recursive `AllDigits` says the same as "every character is a digit". */
  lemma {:induction false} AllDigitsIndex(s: string)
    ensures AllDigits(s) <==> forall i :: 0 <= i < |s| ==> IsDigit(s[i])
    decreases |s|
  {
    if |s| > 0 {
      AllDigitsIndex(s[1..]);
      assert forall i :: 1 <= i < |s| ==> s[i] == s[1..][i - 1];
    }
  }

  /** `int(d)` for a string of decimal digits. */
  function Value(d: string): nat
  {
    if |d| == 0 then 0
    else
      var last := d[|d| - 1] as int - '0' as int;
      10 * Value(d[..|d| - 1]) + (if 0 <= last then last else 0)
  }

  /** The decimal spelling of `n`, without leading zeros. */
  function Decimal(n: nat): (r: string)
    ensures |r| > 0 && AllDigits(r)
  {
    if n < 10 then [('0' as int + n) as char]
    else
      var r := Decimal(n / 10) + [('0' as int + n % 10) as char];
      AllDigitsIndex(Decimal(n / 10));
      AllDigitsIndex(r);
      r
  }

  /** `Value` reads digits as a decimal number. */
  lemma {:induction false} ValueDecimal(n: nat)
    ensures Value(Decimal(n)) == n
    decreases n
  {
    if n >= 10 {
      var d := Decimal(n);
      assert d[..|d| - 1] == Decimal(n / 10);
      ValueDecimal(n / 10);
    }
  }

  /** Leading zeros do not change the id (`int("007") == 7`). */
  lemma {:induction false} ValueLeadingZero(d: string)
    ensures Value("0" + d) == Value(d)
    decreases |d|
  {
    if |d| > 0 {
      var z := "0" + d;
      assert z[..|z| - 1] == "0" + d[..|d| - 1];
      ValueLeadingZero(d[..|d| - 1]);
    }
  }

  /** `str(n)` names different numbers differently. */
  lemma DecimalInjective(a: nat, b: nat)
    requires Decimal(a) == Decimal(b)
    ensures a == b
  {
    ValueDecimal(a);
    ValueDecimal(b);
  }
}
