/** Domain names as strings: the string operations the engine uses on them, and the
    label walk from a name up to its parents.
 */
module Names {

  // ----- ASCII case and space -----

  function LowerChar(c: char): char {
    if 'A' <= c <= 'Z' then c + 32 as char else c
  }

  function Lower(s: string): (r: string)
    ensures |r| == |s|
    ensures forall i :: 0 <= i < |s| ==> r[i] == LowerChar(s[i])
  {
    if s == "" then "" else [LowerChar(s[0])] + Lower(s[1..])
  }

  /** The same letter, or the same character of another kind: a capital is 32 below its letter. */
  predicate SameLetter(c: char, d: char) {
    || c == d
    || ('a' <= c <= 'z' && 'A' <= d <= 'Z' && c as int == d as int + 32)
    || ('A' <= c <= 'Z' && 'a' <= d <= 'z' && c as int + 32 == d as int)
  }

  predicate SameIgnoringCase(a: string, b: string) {
    |a| == |b| && forall i :: 0 <= i < |a| ==> SameLetter(a[i], b[i])
  }

  predicate HasNoCapital(s: string) {
    forall i :: 0 <= i < |s| ==> !('A' <= s[i] <= 'Z')
  }

  /** Lower-casing gives t exactly when t has no capital and is the string up to case. */
  lemma LowerIgnoresCase(s: string, t: string)
    ensures Lower(s) == t <==> HasNoCapital(t) && SameIgnoringCase(s, t)
  {
    if HasNoCapital(t) && SameIgnoringCase(s, t) {
      assert forall i :: 0 <= i < |s| ==> Lower(s)[i] == t[i];
    }
  }

  predicate IsSpace(c: char) {
    c == ' ' || c == '\t' || c == '\n' || c == '\r' || c == 11 as char || c == 12 as char
  }

  function TrimLeft(s: string): string {
    if s != "" && IsSpace(s[0]) then TrimLeft(s[1..]) else s
  }

  function TrimRight(s: string): string {
    if s != "" && IsSpace(s[|s| - 1]) then TrimRight(s[..|s| - 1]) else s
  }

  function TrimSpace(s: string): string {
    TrimRight(TrimLeft(s))
  }

  function DropTrailingDot(s: string): string {
    if s != "" && s[|s| - 1] == '.' then s[..|s| - 1] else s
  }

  /** The form in which policy entries, feed entries and looked-up names are compared. */
  function Normalize(s: string): string {
    DropTrailingDot(Lower(TrimSpace(s)))
  }

  lemma {:induction false} TrimLeftStarts(s: string)
    ensures var t := TrimLeft(s); (t == s || |t| < |s|) && (t != "" ==> !IsSpace(t[0]) && t[|t| - 1] == s[|s| - 1])
  {
    if s != "" && IsSpace(s[0]) {
      TrimLeftStarts(s[1..]);
    }
  }

  lemma {:induction false} TrimRightEnds(s: string)
    ensures var t := TrimRight(s); (t == s || |t| < |s|) && (t != "" ==> !IsSpace(t[|t| - 1]) && t[0] == s[0])
  {
    if s != "" && IsSpace(s[|s| - 1]) {
      TrimRightEnds(s[..|s| - 1]);
    }
  }

  /** Neither end is white space. */
  predicate IsTrimmed(s: string) {
    s != "" ==> !IsSpace(s[0]) && !IsSpace(s[|s| - 1])
  }

  /** Trimming trims, and leaves alone exactly what is trimmed. */
  lemma TrimSpaceTrims(s: string)
    ensures IsTrimmed(TrimSpace(s)) && (TrimSpace(s) == s || |TrimSpace(s)| < |s|)
    ensures TrimSpace(s) == s <==> IsTrimmed(s)
  {
    TrimLeftStarts(s);
    TrimRightEnds(TrimLeft(s));
    if IsTrimmed(s) {
      assert TrimLeft(s) == s;
    }
  }

  predicate IsLower(s: string) {
    forall i :: 0 <= i < |s| ==> LowerChar(s[i]) == s[i]
  }

  lemma {:induction false} LowerKeepsLower(s: string)
    requires IsLower(s)
    ensures Lower(s) == s
  {
    if s != "" {
      assert LowerChar(s[0]) == s[0];
      LowerKeepsLower(s[1..]);
    }
  }

  lemma LowerKeepsSpace(c: char)
    ensures IsSpace(LowerChar(c)) <==> IsSpace(c)
    ensures LowerChar(LowerChar(c)) == LowerChar(c) && (LowerChar(c) == '.' <==> c == '.')
  {
  }

  lemma LowerIsLower(s: string)
    ensures IsLower(Lower(s)) && (IsTrimmed(s) ==> IsTrimmed(Lower(s)))
  {
    forall i | 0 <= i < |s|
      ensures LowerChar(Lower(s)[i]) == Lower(s)[i] && (IsSpace(Lower(s)[i]) <==> IsSpace(s[i]))
    {
      LowerKeepsSpace(s[i]);
    }
  }

  // ----- what is dropped of a name -----

  /** The text is the name, which has no capitals, in any case and with or without the root's
      dot. */
  predicate Spells(text: string, name: string) {
    && HasNoCapital(name)
    && ( || (SameIgnoringCase(text, name) && (name == "" || name[|name| - 1] != '.'))
         || SameIgnoringCase(text, name + "."))
  }

  lemma SpelledName(text: string, name: string)
    ensures DropTrailingDot(Lower(text)) == name <==> Spells(text, name)
  {
    LowerIgnoresCase(text, name);
    LowerIgnoresCase(text, name + ".");
    DotDropped(Lower(text), name);
    NoCapitalWithDot(name);
  }

  lemma DotDropped(l: string, name: string)
    ensures DropTrailingDot(l) == name <==>
            (l == name && (name == "" || name[|name| - 1] != '.')) || l == name + "."
  {
    if l != "" && l[|l| - 1] == '.' {
      assert l == l[..|l| - 1] + ".";
    }
    assert (name + ".")[..|name|] == name;
  }

  lemma NoCapitalWithDot(name: string)
    ensures HasNoCapital(name + ".") <==> HasNoCapital(name)
  {
    assert forall i :: 0 <= i < |name| ==> (name + ".")[i] == name[i];
  }

  predicate IsBlank(s: string) {
    forall i :: 0 <= i < |s| ==> IsSpace(s[i])
  }

  lemma {:induction false} TrimLeftDrops(blank: string, s: string)
    requires IsBlank(blank) && (s != "" ==> !IsSpace(s[0]))
    ensures TrimLeft(blank + s) == s
  {
    if blank == "" {
      assert blank + s == s;
    } else {
      assert (blank + s)[1..] == blank[1..] + s;
      TrimLeftDrops(blank[1..], s);
    }
  }

  lemma {:induction false} TrimRightDrops(s: string, blank: string)
    requires IsBlank(blank) && (s != "" ==> !IsSpace(s[|s| - 1]))
    ensures TrimRight(s + blank) == s
  {
    if blank == "" {
      assert s + blank == s;
    } else {
      var init := blank[..|blank| - 1];
      assert (s + blank)[..|s + blank| - 1] == s + init;
      TrimRightDrops(s, init);
    }
  }

  /** Normalising drops the white space around a text, its case, and the root's dot, and
      nothing else. */
  lemma NormalizeIff(before: string, text: string, after: string, name: string)
    requires IsBlank(before) && IsBlank(after) && IsTrimmed(text)
    ensures Normalize(before + text + after) == name <==> Spells(text, name)
  {
    if text == "" {
      TrimLeftDrops(before + after, "");
      assert before + text + after == before + after + "";
    } else {
      TrimLeftDrops(before, text + after);
      assert before + text + after == before + (text + after);
      TrimRightDrops(text, after);
    }
    SpelledName(text, name);
  }

  // ----- normalising twice -----

  /** Normalising a second time drops another dot or the space before the first one. */
  predicate EndsOddly(t: string) {
    |t| > 1 && t[|t| - 1] == '.' && (t[|t| - 2] == '.' || IsSpace(t[|t| - 2]))
  }

  /** Only one dot is dropped, and only after trimming: normalising twice is the same as once
      exactly for names whose trimmed text does not end in a dot after a dot or a space. */
  lemma NormalizeIsIdempotentIff(s: string)
    ensures Normalize(Normalize(s)) == Normalize(s) <==> !EndsOddly(TrimSpace(s))
  {
    var t := TrimSpace(s);
    TrimSpaceTrims(s);
    LowerIsLower(t);
    NormalizeAgain(Lower(t));
    if |t| > 1 {
      LowerKeepsSpace(t[|t| - 1]);
      LowerKeepsSpace(t[|t| - 2]);
    }
  }

  lemma NormalizeAgain(l: string)
    requires IsLower(l) && IsTrimmed(l)
    ensures Normalize(DropTrailingDot(l)) == DropTrailingDot(l) <==> !EndsOddly(l)
  {
    var n := DropTrailingDot(l);
    TrimSpaceTrims(n);
    if IsTrimmed(n) {
      LowerKeepsLower(n);
    } else {
      assert |Normalize(n)| < |n|;
    }
  }

  /** Such a name: "a.." normalises to "a.", and that to "a". */
  lemma NormalizeIsNotIdempotent()
    ensures Normalize("a..") == "a." && Normalize("a.") == "a"
  {
    TrimSpaceTrims("a..");
    TrimSpaceTrims("a.");
    assert Lower("a..") == "a.." && Lower("a.") == "a.";
    assert "a.."[..2] == "a." && "a."[..1] == "a";
  }

  // ----- split and join -----

  function Split(s: string, c: char): (parts: seq<string>)
    ensures |parts| >= 1
  {
    if s == "" then [""]
    else
      var rest := Split(s[1..], c);
      if s[0] == c then [""] + rest else [[s[0]] + rest[0]] + rest[1..]
  }

  function Join(parts: seq<string>, c: char): string {
    if |parts| == 0 then ""
    else if |parts| == 1 then parts[0]
    else parts[0] + [c] + Join(parts[1..], c)
  }

  predicate HasPrefix(s: string, p: string) {
    p <= s
  }

  predicate HasSuffix(s: string, t: string) {
    |t| <= |s| && s[|s| - |t|..] == t
  }

  lemma {:induction false} JoinOfSplit(s: string, c: char)
    ensures Join(Split(s, c), c) == s
  {
    if s != "" {
      var rest := Split(s[1..], c);
      JoinOfSplit(s[1..], c);
      var parts := Split(s, c);
      if s[0] == c {
        assert parts[1..] == rest;
      } else {
        assert parts[1..] == rest[1..];
      }
    }
  }

  lemma {:induction false} SplitAtFirst(a: string, c: char, b: string)
    requires c !in a
    ensures Split(a, c) == [a]
    ensures Split(a + [c] + b, c) == [a] + Split(b, c)
  {
    var s := a + [c] + b;
    if a == "" {
      assert s[1..] == b;
    } else {
      SplitAtFirst(a[1..], c, b);
      assert s[1..] == a[1..] + [c] + b;
      assert a == [a[0]] + a[1..];
    }
  }

  /** Splitting a text put together at a separator splits its two sides. */
  lemma {:induction false} SplitConcat(a: string, c: char, b: string)
    ensures Split(a + [c] + b, c) == Split(a, c) + Split(b, c)
  {
    var s := a + [c] + b;
    if a == "" {
      assert s[1..] == b;
    } else {
      SplitConcat(a[1..], c, b);
      assert s[1..] == a[1..] + [c] + b;
      PrependConcat([a[0]], Split(a[1..], c), Split(b, c));
    }
  }

  lemma PrependConcat(x: string, parts: seq<string>, more: seq<string>)
    requires |parts| > 0
    ensures [""] + (parts + more) == [""] + parts + more
    ensures [x + (parts + more)[0]] + (parts + more)[1..] == [x + parts[0]] + parts[1..] + more
  {
    assert (parts + more)[1..] == parts[1..] + more;
  }

  lemma {:induction false} JoinConcat(xs: seq<string>, ys: seq<string>, c: char)
    requires |xs| > 0 && |ys| > 0
    ensures Join(xs + ys, c) == Join(xs, c) + [c] + Join(ys, c)
  {
    if |xs| == 1 {
      assert (xs + ys)[1..] == ys;
    } else {
      assert (xs + ys)[1..] == xs[1..] + ys;
      JoinConcat(xs[1..], ys, c);
    }
  }

  lemma {:induction false} SplitMembersHaveNone(s: string, c: char)
    ensures forall i :: 0 <= i < |Split(s, c)| ==> c !in Split(s, c)[i]
  {
    if s != "" {
      SplitMembersHaveNone(s[1..], c);
    }
  }

  // ----- the label walk -----

  function Labels(d: string): seq<string> {
    Split(d, '.')
  }

  /** The name the walk looks up at step i: the labels of d from i on. */
  function Candidate(d: string, i: nat): string
    requires i < |Labels(d)|
  {
    Join(Labels(d)[i..], '.')
  }

  predicate MultiLabel(e: string) {
    '.' in e
  }

  /** e has at least two labels and is d itself or a name d lies under. */
  predicate IsAncestor(d: string, e: string) {
    MultiLabel(e) && (d == e || HasSuffix(d, "." + e))
  }

  /** The walk stops before the last label. */
  ghost predicate Visited(d: string, e: string, from: nat) {
    exists i :: from <= i < |Labels(d)| - 1 && Candidate(d, i) == e
  }

  lemma {:induction false} SplitCount(s: string, c: char)
    ensures |Split(s, c)| > 1 <==> c in s
  {
    if s != "" {
      SplitCount(s[1..], c);
      assert s == [s[0]] + s[1..];
    }
  }

  /** From step 1 on the walk of d is the walk of d without its first character, except
      that the latter's own step 0 counts when that character was a dot. */
  lemma WalkOfTail(d: string, i: nat)
    requires d != "" && i < |Labels(d[1..])|
    ensures d[0] == '.' ==> |Labels(d)| == |Labels(d[1..])| + 1 && Candidate(d, i + 1) == Candidate(d[1..], i)
    ensures d[0] != '.' ==> |Labels(d)| == |Labels(d[1..])| && (i > 0 ==> Candidate(d, i) == Candidate(d[1..], i))
  {
    var rest := Labels(d[1..]);
    if d[0] == '.' {
      assert Labels(d)[i + 1..] == rest[i..];
    } else if i > 0 {
      assert Labels(d)[i..] == rest[i..];
    }
  }

  lemma HasSuffixOfTail(d: string, t: string)
    requires d != ""
    ensures HasSuffix(d, t) <==> d == t || HasSuffix(d[1..], t)
  {
    if |t| <= |d| - 1 {
      assert d[1..][|d| - 1 - |t|..] == d[|d| - |t|..];
    }
  }

  lemma {:induction false} WalkBelowFirstStep(d: string, e: string)
    ensures Visited(d, e, 1) <==> MultiLabel(e) && HasSuffix(d, "." + e)
  {
    if d != "" {
      var r := d[1..];
      WalkBelowFirstStep(r, e);
      HasSuffixOfTail(d, "." + e);
      JoinOfSplit(r, '.');
      SplitCount(r, '.');
      assert Labels(r)[0..] == Labels(r);
      if d[0] == '.' {
        assert d == "." + e <==> r == e;
        if i :| 1 <= i < |Labels(d)| - 1 && Candidate(d, i) == e {
          WalkOfTail(d, i - 1);
        }
        if i :| 0 <= i < |Labels(r)| - 1 && Candidate(r, i) == e {
          WalkOfTail(d, i);
        }
        WalkOfTail(d, 0);
        assert r == e && MultiLabel(e) ==> Candidate(r, 0) == e;
      } else {
        assert d != "." + e;
        WalkOfTail(d, 0);
        forall i | 1 <= i < |Labels(d)|
          ensures Candidate(d, i) == Candidate(r, i)
        {
          WalkOfTail(d, i);
        }
      }
    }
  }

  /** The walk looks up exactly d and its parents, each with at least two labels. */
  lemma WalkVisitsAncestors(d: string, e: string)
    ensures Visited(d, e, 0) <==> IsAncestor(d, e)
  {
    WalkBelowFirstStep(d, e);
    JoinOfSplit(d, '.');
    SplitCount(d, '.');
    assert Labels(d)[0..] == Labels(d);
    if Visited(d, e, 1) {
      assert Visited(d, e, 0);
    }
    if d == e && MultiLabel(e) {
      assert Candidate(d, 0) == e;
    }
  }

  lemma CandidateStep(d: string, i: nat)
    requires i + 1 < |Labels(d)|
    ensures |Candidate(d, i + 1)| < |Candidate(d, i)|
  {
    assert Labels(d)[i..][1..] == Labels(d)[i + 1..];
  }

  /** The walk goes from longer names to shorter ones. */
  lemma {:induction false} WalkShortens(d: string, i: nat, j: nat)
    requires i < j < |Labels(d)|
    ensures |Candidate(d, j)| < |Candidate(d, i)|
    decreases j
  {
    CandidateStep(d, j - 1);
    if i < j - 1 {
      WalkShortens(d, i, j - 1);
    }
  }
}
