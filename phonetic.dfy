/** Conversion of Merriam-Webster pronunciation symbols to Daniel Jones
    (IPA-style) symbols, as the `mw2dj.js` user script does it. Strings are
    sequences of Unicode scalar values; every pattern of the script lies in the
    Basic Multilingual Plane, so matching on them is the same as matching on
    the UTF-16 code units JavaScript uses. */
module Phonetic {
  import opened Util

  /** The script always shows the original transcription before the converted one. */
  const ShowWebster := true

  const PrimaryStress: char := '\U{2C8}'    // ˈ, code point 712
  const SecondaryStress: char := '\U{2CC}'  // ˌ, code point 716
  const NoBreakSpace: char := '\U{A0}'

  /** The ordered rewrite chain (lines 21 to 59 of the script), rule `i`
      being applied before rule `i + 1` to the whole text. */
  const RuleCount: nat := 25

  function Rule(i: nat): (r: (string, string))
    requires i < RuleCount
    ensures |r.0| > 0
  {
    match i
    case 0 => ("\U{259}r", "\U{25A}")              // ər -> ɚ
    case 1 => ("\U{22F}i", "\U{254}\U{26A}")       // ȯi -> ɔɪ
    case 2 => ("i", "\U{26A}")                     // i -> ɪ
    case 3 => ("e", "\U{25B}")                     // e -> ɛ
    case 4 => ("\U{14D}", "o\U{28A}")              // ō -> oʊ
    case 5 => ("\U{22F}", "\U{254}\U{2D0}")        // ȯ -> ɔː
    case 6 => ("u\U{307}", "\U{28A}")              // u̇ -> ʊ
    case 7 => ("\U{FC}", "u\U{2D0}")               // ü -> uː
    case 8 => ("a", "\U{E6}")                      // a -> æ
    case 9 => ("au\U{307}", "a\U{28A}")            // au̇ -> aʊ
    case 10 => ("\U{E6}\U{28A}", "a\U{28A}")       // æʊ -> aʊ
    case 11 => ("\U{12B}", "a\U{26A}")             // ī -> aɪ
    case 12 => ("\U{101}", "e\U{26A}")             // ā -> eɪ
    case 13 => ("\U{E4}", "\U{251}\U{2D0}")        // ä -> ɑː
    case 14 => ("sh", "\U{283}")                   // sh -> ʃ
    case 15 => ("zh", "\U{292}")                   // zh -> ʒ
    case 16 => ("j", "d\U{292}")                   // j -> dʒ
    case 17 => ("ch", "t\U{283}")                  // ch -> tʃ
    case 18 => ("th", "\U{3B8}")                   // th -> θ
    case 19 => ("t\U{35F}h", "\U{F0}")             // t͟h -> ð
    case 20 => ("y", "j")                          // y -> j
    case 21 => ("\U{1D4A}l", "l\U{329}")           // ᵊl -> l̩
    case 22 => ("\U{1D4A}m", "m\U{329}")           // ᵊm -> m̩
    case 23 => ("\U{1D4A}n", "n\U{329}")           // ᵊn -> n̩
    case _ => ("\U{1D4A}\U{14B}", "\U{14B}\U{30D}") // ᵊŋ -> ŋ̍
  }

  /** Rules `lo` to `hi - 1`, applied in order, each replacing every occurrence. */
  function Apply(t: string, lo: nat, hi: nat): string
    requires lo <= hi <= RuleCount
    decreases hi - lo
  {
    if lo == hi then t else Apply(ReplaceAll(t, Rule(lo).0, Rule(lo).1), lo + 1, hi)
  }

  /** The text after the whole replacement chain. */
  function Rewrite(t: string): string
  {
    Apply(t, 0, RuleCount)
  }

  /** `isStress`: the character is one of the two stress marks. */
  predicate IsStress(c: char)
    ensures IsStress(c) <==> (c as int == 712 || c as int == 716)
  {
    c == PrimaryStress || c == SecondaryStress
  }

  /** The per-syllable rewrite: in a syllable that starts with a stress mark,
      ē becomes iː and ə becomes ʌ; elsewhere ē becomes i. An empty syllable
      has no first character and counts as unstressed. */
  function StressSyllable(s: string): string
  {
    if |s| > 0 && IsStress(s[0]) then ReplaceAll(ReplaceAll(s, "\U{113}", "i\U{2D0}"), "\U{259}", "\U{28C}")
    else ReplaceAll(s, "\U{113}", "i")
  }

  function MapSyllables(ss: seq<string>): (r: seq<string>)
    ensures |r| == |ss|
    ensures forall i :: 0 <= i < |ss| ==> r[i] == StressSyllable(ss[i])
  {
    if |ss| == 0 then [] else MapSyllables(ss[..|ss| - 1]) + [StressSyllable(ss[|ss| - 1])]
  }

  /** The converted transcription of an already trimmed text. */
  function Converted(t: string): string
  {
    Join(MapSyllables(Split(Rewrite(t), '-')), "-")
  }

  /** Whitespace and line terminators as `String.prototype.trim` removes them. */
  predicate IsJsSpace(c: char)
  {
    c == '\t' || c == '\n' || c == '\U{B}' || c == '\U{C}' || c == '\r' || c == ' ' || c == '\U{A0}'
    || c == '\U{1680}' || ('\U{2000}' <= c <= '\U{200A}') || c == '\U{2028}' || c == '\U{2029}'
    || c == '\U{202F}' || c == '\U{205F}' || c == '\U{3000}' || c == '\U{FEFF}'
  }

  function TrimStart(s: string): (r: string)
    ensures |r| <= |s| && r == s[|s| - |r|..]
    ensures |r| > 0 ==> !IsJsSpace(r[0])
    ensures forall k :: 0 <= k < |s| - |r| ==> IsJsSpace(s[k])
  {
    if |s| > 0 && IsJsSpace(s[0]) then TrimStart(s[1..]) else s
  }

  function TrimEnd(s: string): (r: string)
    ensures |r| <= |s| && r == s[..|r|]
    ensures |r| > 0 ==> !IsJsSpace(r[|r| - 1])
    ensures forall k :: |r| <= k < |s| ==> IsJsSpace(s[k])
  {
    if |s| > 0 && IsJsSpace(s[|s| - 1]) then TrimEnd(s[..|s| - 1]) else s
  }

  /** `String.prototype.trim`. */
  function Trim(s: string): string
  {
    TrimEnd(TrimStart(s))
  }

  /** `convertPhoneticSymbol`: the trimmed input, a bar, the conversion and a
      no-break space. */
  method ConvertPhoneticSymbol(mw: string) returns (r: string)
    ensures r == Trim(mw) + " | " + Converted(Trim(mw)) + [NoBreakSpace]
  {
    var nwt := Trim(mw);
    var t := Rewrite(nwt);
    var syllables := Split(t, '-');
    var newSyllables: seq<string> := [];
    for i := 0 to |syllables|
      invariant newSyllables == MapSyllables(syllables[..i])
    {
      var s := syllables[i];
      if |s| > 0 && IsStress(s[0]) {
        s := ReplaceAll(s, "\U{113}", "i\U{2D0}");
        s := ReplaceAll(s, "\U{259}", "\U{28C}");
      } else {
        s := ReplaceAll(s, "\U{113}", "i");
      }
      assert syllables[..i + 1][..i] == syllables[..i];
      newSyllables := newSyllables + [s];
    }
    assert syllables[..|syllables|] == syllables;
    t := Join(newSyllables, "-");
    r := if ShowWebster then nwt + " | " + t + [NoBreakSpace] else t + [NoBreakSpace];
  }

  // ---------------------------------------------------------------------
  // Properties of the rule chain

  lemma {:induction false} ApplySplit(t: string, lo: nat, mid: nat, hi: nat)
    requires lo <= mid <= hi <= RuleCount
    ensures Apply(t, lo, hi) == Apply(Apply(t, lo, mid), mid, hi)
    decreases mid - lo
  {
    if lo < mid {
      ApplySplit(ReplaceAll(t, Rule(lo).0, Rule(lo).1), lo + 1, mid, hi);
    }
  }

  lemma Step(t: string, i: nat, hi: nat, u: string)
    requires i < hi <= RuleCount && ReplaceAll(t, Rule(i).0, Rule(i).1) == u
    ensures Apply(t, i, hi) == Apply(u, i + 1, hi)
  {
  }

  /** Rules whose patterns cannot start anywhere in the text change nothing. */
  lemma {:induction false} ApplyAbsent(t: string, lo: nat, hi: nat)
    requires lo <= hi <= RuleCount
    requires forall i :: lo <= i < hi ==> Rule(i).0[0] !in t
    ensures Apply(t, lo, hi) == t
    decreases hi - lo
  {
    if lo < hi {
      ReplaceAllAbsent(t, Rule(lo).0, Rule(lo).1);
      ApplyAbsent(t, lo + 1, hi);
    }
  }

  /** A character that none of the rules mentions keeps its number of occurrences. */
  lemma {:induction false} ApplyCount(x: char, t: string, lo: nat, hi: nat)
    requires lo <= hi <= RuleCount
    requires forall i :: lo <= i < hi ==> x !in Rule(i).0 && x !in Rule(i).1
    ensures Count(x, Apply(t, lo, hi)) == Count(x, t)
    decreases hi - lo
  {
    if lo < hi {
      ReplaceAllCount(x, t, Rule(lo).0, Rule(lo).1);
      ApplyCount(x, ReplaceAll(t, Rule(lo).0, Rule(lo).1), lo + 1, hi);
    }
  }

  /** Rules free of `a` and `b`, with non-empty replacements, create no `a b` pair. */
  lemma {:induction false} ApplyNoNewPair(t: string, lo: nat, hi: nat, a: char, b: char)
    requires lo <= hi <= RuleCount
    requires forall i :: lo <= i < hi ==> |Rule(i).1| > 0
    requires forall i :: lo <= i < hi ==>
      a !in Rule(i).0 && b !in Rule(i).0 && a !in Rule(i).1 && b !in Rule(i).1
    requires NoPair(t, a, b)
    ensures NoPair(Apply(t, lo, hi), a, b)
    decreases hi - lo
  {
    if lo < hi {
      ReplaceAllNoNewPair(t, Rule(lo).0, Rule(lo).1, a, b);
      ApplyNoNewPair(ReplaceAll(t, Rule(lo).0, Rule(lo).1), lo + 1, hi, a, b);
    }
  }

  /** No rule pattern or replacement contains a hyphen, so the chain keeps
      the number of hyphens. */
  lemma RewriteKeepsHyphens(t: string)
    ensures Count('-', Rewrite(t)) == Count('-', t)
  {
    ApplyCount('-', t, 0, RuleCount);
  }

  /** `y` becomes `j` after `j` has become `dʒ`, and no later rule brings a
      `y` back: the rewritten text never contains `y`. */
  lemma RewriteRemovesY(t: string)
    ensures 'y' !in Rewrite(t)
  {
    ApplySplit(t, 0, 20, RuleCount);
    var u := Apply(t, 0, 20);
    RuleY();
    var v := ReplaceAll(u, "y", "j");
    Step(u, 20, RuleCount, v);
    ReplaceAllRemoves(u, 'y', "j");
    NoYAfter();
    ApplyCount('y', v, 21, RuleCount);
    CountZero('y', v);
    CountZero('y', Apply(v, 21, RuleCount));
  }

  lemma RuleY()
    ensures Rule(20) == ("y", "j")
  {
  }

  /** Rules 21 onwards neither match nor produce `y`. */
  lemma NoYAfter()
    ensures forall i :: 21 <= i < RuleCount ==> 'y' !in Rule(i).0 && 'y' !in Rule(i).1
  {
  }

  /** The `æʊ -> aʊ` repair (line 39) leaves no `æʊ`, and no later rule
      creates one: the rewritten text never contains `æʊ`. */
  lemma RewriteNoAeUpsilon(t: string)
    ensures NoPair(Rewrite(t), '\U{E6}', '\U{28A}')
  {
    ApplySplit(t, 0, 10, RuleCount);
    var u := Apply(t, 0, 10);
    var v := ReplaceAll(u, Rule(10).0, Rule(10).1);
    Step(u, 10, RuleCount, v);
    ReplaceAllPairGone(u, '\U{E6}', '\U{28A}', 'a');
    RulesAfterRepair();
    ApplyNoNewPair(v, 11, RuleCount, '\U{E6}', '\U{28A}');
  }

  /** Rules 11 onwards neither mention æ nor ʊ, and none of them deletes. */
  lemma RulesAfterRepair()
    ensures forall i :: 11 <= i < RuleCount ==> |Rule(i).1| > 0
    ensures forall i :: 11 <= i < RuleCount ==>
      '\U{E6}' !in Rule(i).0 && '\U{28A}' !in Rule(i).0 && '\U{E6}' !in Rule(i).1 && '\U{28A}' !in Rule(i).1
  {
  }

  /** A text that only rule `k` changes, into `u`, is rewritten to `u`. */
  lemma OnlyRule(t: string, k: nat, u: string)
    requires k < RuleCount && Apply(t, 0, k) == t
    requires ReplaceAll(t, Rule(k).0, Rule(k).1) == u && Apply(u, k + 1, RuleCount) == u
    ensures Rewrite(t) == u
  {
    ApplySplit(t, 0, k, RuleCount);
    Step(t, k, RuleCount, u);
  }

  lemma SchwaRSteps(t: string, u: string)
    requires t == "\U{259}r" && u == "\U{25A}"
    ensures Rewrite(t) == u
  {
    ReplaceAllWhole(t, u);
    SchwaRTail(u);
    OnlyRule(t, 0, u);
  }

  lemma SchwaRTail(u: string)
    requires u == "\U{25A}"
    ensures Apply(u, 1, RuleCount) == u
  {
    assert forall i :: 1 <= i < RuleCount ==> Rule(i).0[0] !in u by {
      SchwaRHeads(u);
    }
    ApplyAbsent(u, 1, RuleCount);
  }

  lemma SchwaRHeads(u: string)
    requires u == "\U{25A}"
    ensures forall i :: 1 <= i < RuleCount ==> Rule(i).0[0] !in u
  {
  }

  /** `ər` is rewritten to `ɚ` before any other rule can touch the `r`. */
  lemma RewriteSchwaR()
    ensures Rewrite("\U{259}r") == "\U{25A}"
  {
    SchwaRSteps("\U{259}r", "\U{25A}");
  }

  lemma OiSteps(t: string, u: string)
    requires t == "\U{22F}i" && u == "\U{254}\U{26A}"
    ensures Rewrite(t) == u
  {
    ReplaceAllAbsent(t, Rule(0).0, Rule(0).1);
    Step(t, 0, 1, t);
    ReplaceAllWhole(t, u);
    OiTail(u);
    OnlyRule(t, 1, u);
  }

  lemma OiTail(u: string)
    requires u == "\U{254}\U{26A}"
    ensures Apply(u, 2, RuleCount) == u
  {
    assert forall i :: 2 <= i < RuleCount ==> Rule(i).0[0] !in u by {
      OiHeads(u);
    }
    ApplyAbsent(u, 2, RuleCount);
  }

  lemma OiHeads(u: string)
    requires u == "\U{254}\U{26A}"
    ensures forall i :: 2 <= i < RuleCount ==> Rule(i).0[0] !in u
  {
  }

  /** `ȯi` becomes `ɔɪ` before plain `i` becomes `ɪ` and before `ȯ` becomes `ɔː`. */
  lemma RewriteOi()
    ensures Rewrite("\U{22F}i") == "\U{254}\U{26A}"
  {
    OiSteps("\U{22F}i", "\U{254}\U{26A}");
  }

  lemma JSteps(t: string, u: string)
    requires t == "j" && u == "d\U{292}"
    ensures Rewrite(t) == u
  {
    JHead(t);
    RuleJ();
    ReplaceAllWhole(t, u);
    JTail(u);
    OnlyRule(t, 16, u);
  }

  lemma RuleJ()
    ensures Rule(16) == ("j", "d\U{292}")
  {
  }

  lemma JHead(t: string)
    requires t == "j"
    ensures Apply(t, 0, 16) == t
  {
    assert forall i :: 0 <= i < 16 ==> Rule(i).0[0] !in t by {
      JHeads(t);
    }
    ApplyAbsent(t, 0, 16);
  }

  lemma JHeads(t: string)
    requires t == "j"
    ensures forall i :: 0 <= i < 16 ==> Rule(i).0[0] !in t
  {
  }

  lemma JTail(u: string)
    requires u == "d\U{292}"
    ensures Apply(u, 17, RuleCount) == u
  {
    assert forall i :: 17 <= i < RuleCount ==> Rule(i).0[0] !in u by {
      JTailHeads(u);
    }
    ApplyAbsent(u, 17, RuleCount);
  }

  lemma JTailHeads(u: string)
    requires u == "d\U{292}"
    ensures forall i :: 17 <= i < RuleCount ==> Rule(i).0[0] !in u
  {
  }

  /** An input `j` becomes `dʒ`. */
  lemma RewriteJ()
    ensures Rewrite("j") == "d\U{292}"
  {
    JSteps("j", "d\U{292}");
  }

  lemma YSteps(t: string, u: string)
    requires t == "y" && u == "j"
    ensures Rewrite(t) == u
  {
    YHead(t);
    RuleY();
    ReplaceAllWhole(t, u);
    YTail(u);
    OnlyRule(t, 20, u);
  }

  lemma YHead(t: string)
    requires t == "y"
    ensures Apply(t, 0, 20) == t
  {
    assert forall i :: 0 <= i < 20 ==> Rule(i).0[0] !in t by {
      YHeads(t);
    }
    ApplyAbsent(t, 0, 20);
  }

  lemma YHeads(t: string)
    requires t == "y"
    ensures forall i :: 0 <= i < 20 ==> Rule(i).0[0] !in t
  {
  }

  lemma YTail(u: string)
    requires u == "j"
    ensures Apply(u, 21, RuleCount) == u
  {
    assert forall i :: 21 <= i < RuleCount ==> Rule(i).0[0] !in u by {
      YTailHeads(u);
    }
    ApplyAbsent(u, 21, RuleCount);
  }

  lemma YTailHeads(u: string)
    requires u == "j"
    ensures forall i :: 21 <= i < RuleCount ==> Rule(i).0[0] !in u
  {
  }

  /** An input `y` becomes `j`, not `dʒ`: the `y` rule runs after the `j` rule. */
  lemma RewriteY()
    ensures Rewrite("y") == "j"
  {
    YSteps("y", "j");
  }

  lemma AuSteps(t: string, t1: string, t2: string)
    requires t == "au\U{307}" && t1 == "a\U{28A}" && t2 == "\U{E6}\U{28A}"
    ensures Rewrite(t) == t1
  {
    ApplySplit(t, 0, 6, RuleCount);
    AuHead(t);
    var tail := t[1..];
    assert t == [t[0]] + tail;
    ReplaceAllCons(t[0], tail, Rule(6).0, Rule(6).1);
    ReplaceAllWhole(tail, t1[1..]);
    assert t1 == [t[0]] + t1[1..];
    Step(t, 6, RuleCount, t1);
    ReplaceAllAbsent(t1, Rule(7).0, Rule(7).1);
    Step(t1, 7, RuleCount, t1);
    assert t1 == Rule(8).0 + t1[1..];
    ReplaceAllFront(t1[1..], Rule(8).0, Rule(8).1);
    ReplaceAllAbsent(t1[1..], Rule(8).0, Rule(8).1);
    assert t2 == Rule(8).1 + t1[1..];
    Step(t1, 8, RuleCount, t2);
    ReplaceAllAbsent(t2, Rule(9).0, Rule(9).1);
    Step(t2, 9, RuleCount, t2);
    ReplaceAllWhole(t2, t1);
    Step(t2, 10, RuleCount, t1);
    AuTail(t1);
  }

  lemma AuHead(t: string)
    requires t == "au\U{307}"
    ensures Apply(t, 0, 6) == t
  {
    assert forall i :: 0 <= i < 6 ==> Rule(i).0[0] !in t by {
      AuHeads(t);
    }
    ApplyAbsent(t, 0, 6);
  }

  lemma AuHeads(t: string)
    requires t == "au\U{307}"
    ensures forall i :: 0 <= i < 6 ==> Rule(i).0[0] !in t
  {
  }

  lemma AuTail(t1: string)
    requires t1 == "a\U{28A}"
    ensures Apply(t1, 11, RuleCount) == t1
  {
    assert forall i :: 11 <= i < RuleCount ==> Rule(i).0[0] !in t1 by {
      AuTailHeads(t1);
    }
    ApplyAbsent(t1, 11, RuleCount);
  }

  lemma AuTailHeads(t1: string)
    requires t1 == "a\U{28A}"
    ensures forall i :: 11 <= i < RuleCount ==> Rule(i).0[0] !in t1
  {
  }

  /** `au̇` cannot match its own rule (u̇ and a are rewritten first), and still
      ends as `aʊ` through the `æʊ -> aʊ` repair. */
  lemma RewriteAu()
    ensures Rewrite("au\U{307}") == "a\U{28A}"
  {
    AuSteps("au\U{307}", "a\U{28A}", "\U{E6}\U{28A}");
  }

  // ---------------------------------------------------------------------
  // Properties of the syllable pass

  lemma StressSyllableNoHyphen(s: string)
    requires '-' !in s
    ensures '-' !in StressSyllable(s)
  {
    CountZero('-', s);
    if |s| > 0 && IsStress(s[0]) {
      var u := ReplaceAll(s, "\U{113}", "i\U{2D0}");
      ReplaceAllCount('-', s, "\U{113}", "i\U{2D0}");
      ReplaceAllCount('-', u, "\U{259}", "\U{28C}");
      CountZero('-', ReplaceAll(u, "\U{259}", "\U{28C}"));
    } else {
      ReplaceAllCount('-', s, "\U{113}", "i");
      CountZero('-', ReplaceAll(s, "\U{113}", "i"));
    }
  }

  /** The syllables of the conversion are, one for one, the stress-rewritten
      syllables of the rule chain's output. */
  lemma ConvertedSyllables(t: string)
    ensures Split(Converted(t), '-') == MapSyllables(Split(Rewrite(t), '-'))
  {
    var ss := Split(Rewrite(t), '-');
    SplitPiecesFree(Rewrite(t), '-');
    var ms := MapSyllables(ss);
    forall i | 0 <= i < |ms| ensures '-' !in ms[i] {
      StressSyllableNoHyphen(ss[i]);
    }
    SplitJoin(ms, '-');
  }

  /** The conversion has exactly as many `-`-separated syllables as its input. */
  lemma SyllableCount(t: string)
    ensures |Split(Converted(t), '-')| == |Split(t, '-')|
  {
    ConvertedSyllables(t);
    SplitCount(Rewrite(t), '-');
    SplitCount(t, '-');
    RewriteKeepsHyphens(t);
  }

  /** A syllable that starts with a stress mark keeps it and loses every ē and ə. */
  lemma StressedSyllable(s: string)
    requires |s| > 0 && IsStress(s[0])
    ensures |StressSyllable(s)| > 0 && StressSyllable(s)[0] == s[0]
    ensures '\U{113}' !in StressSyllable(s) && '\U{259}' !in StressSyllable(s)
  {
    var u := ReplaceAll(s, "\U{113}", "i\U{2D0}");
    ReplaceAllRemoves(s, '\U{113}', "i\U{2D0}");
    ReplaceAllCount('\U{113}', u, "\U{259}", "\U{28C}");
    CountZero('\U{113}', u);
    CountZero('\U{113}', ReplaceAll(u, "\U{259}", "\U{28C}"));
    ReplaceAllRemoves(u, '\U{259}', "\U{28C}");
    assert s == [s[0]] + s[1..];
    ReplaceAllCons(s[0], s[1..], "\U{113}", "i\U{2D0}");
    ReplaceAllCons(s[0], ReplaceAll(s[1..], "\U{113}", "i\U{2D0}"), "\U{259}", "\U{28C}");
  }

  /** Any other syllable loses every ē and keeps every ə. */
  lemma UnstressedSyllable(s: string)
    requires !(|s| > 0 && IsStress(s[0]))
    ensures '\U{113}' !in StressSyllable(s)
    ensures Count('\U{259}', StressSyllable(s)) == Count('\U{259}', s)
  {
    ReplaceAllRemoves(s, '\U{113}', "i");
    ReplaceAllCount('\U{259}', s, "\U{113}", "i");
  }

  /** The syllable rewrite neither adds nor removes stress marks. */
  lemma StressSyllableCount(c: char, s: string)
    requires IsStress(c)
    ensures Count(c, StressSyllable(s)) == Count(c, s)
  {
    if |s| > 0 && IsStress(s[0]) {
      ReplaceAllCount(c, s, "\U{113}", "i\U{2D0}");
      ReplaceAllCount(c, ReplaceAll(s, "\U{113}", "i\U{2D0}"), "\U{259}", "\U{28C}");
    } else {
      ReplaceAllCount(c, s, "\U{113}", "i");
    }
  }

  /** No rule mentions a stress mark, so the chain keeps every one of them. */
  lemma RewriteKeepsStress(c: char, t: string)
    requires IsStress(c)
    ensures Count(c, Rewrite(t)) == Count(c, t)
  {
    if c == PrimaryStress {
      ApplyCount(PrimaryStress, t, 0, RuleCount);
    } else {
      ApplyCount(SecondaryStress, t, 0, RuleCount);
    }
  }

  /** The converted transcription has exactly the stress marks of the
      original, each of the two kinds as often as before. */
  lemma ConvertKeepsStress(c: char, t: string)
    requires IsStress(c)
    ensures Count(c, Converted(t)) == Count(c, t)
  {
    var ss := Split(Rewrite(t), '-');
    var ms := MapSyllables(ss);
    forall i | 0 <= i < |ms|
      ensures Count(c, ms[i]) == Count(c, ss[i])
    {
      StressSyllableCount(c, ss[i]);
    }
    JoinCountSame(c, ms, ss, "-");
    JoinSplit(Rewrite(t), '-');
    RewriteKeepsStress(c, t);
  }
}
