/** The typosquat check: a queried name is compared with each protected brand by confusable
    skeleton and edit distance, and the first brand it resembles is reported.
 */
module Typosquat {
  import opened Names
  import opened EditDistance

  /** A protected brand: registrable domain, its label, and the public suffix. */
  datatype Brand = Brand(domain: string, sld: string, tld: string)

  /** Tables and decoders outside the model: the infrastructure allowlist, punycode decoding,
      and the confusable skeleton of a label. */
  datatype Tables = Tables(
    isInfra: string -> bool, decode: string -> string, skeleton: string -> string, isTwoLevelTld: string -> bool)

  datatype Verdict = Clean | Homoglyph(brand: string) | Near(brand: string, distance: nat)

  /** The registrable label, in its own case, and the lower-cased suffix; empty without one. */
  function RegistrableParts(t: Tables, domain: string): (string, string) {
    var parts := Labels(DropTrailingDot(domain));
    var n := |parts|;
    if n < 2 then ("", "")
    else if n >= 3 && t.isTwoLevelTld(Lower(parts[n - 2] + "." + parts[n - 1])) then
      (parts[n - 3], Lower(parts[n - 2] + "." + parts[n - 1]))
    else (parts[n - 2], Lower(parts[n - 1]))
  }

  /** Watchlist entries as brands; blanks and names without a registrable label are dropped. */
  function NormalizeBrands(t: Tables, raw: seq<string>): seq<Brand> {
    if |raw| == 0 then []
    else
      var b := DropTrailingDot(TrimSpace(Lower(raw[0])));
      var (sld, tld) := RegistrableParts(t, b);
      var rest := NormalizeBrands(t, raw[1..]);
      if b == "" || sld == "" || tld == "" then rest else [Brand(sld + "." + tld, sld, tld)] + rest
  }

  lemma {:induction false} BrandsAreRegistrable(t: Tables, raw: seq<string>, i: nat)
    requires i < |NormalizeBrands(t, raw)|
    ensures var b := NormalizeBrands(t, raw)[i]; b.sld != "" && b.tld != "" && b.domain == b.sld + "." + b.tld
  {
    var b := DropTrailingDot(TrimSpace(Lower(raw[0])));
    var (sld, tld) := RegistrableParts(t, b);
    if b == "" || sld == "" || tld == "" {
      BrandsAreRegistrable(t, raw[1..], i);
    } else if i > 0 {
      BrandsAreRegistrable(t, raw[1..], i - 1);
    }
  }

  /** What the check looks at in a queried name. */
  datatype Subject = Subject(registrable: string, sld: string, skeleton: string)

  function SubjectOf(t: Tables, domain: string): Subject {
    var (sld, tld) := RegistrableParts(t, t.decode(domain));
    Subject(Lower(sld) + "." + tld, Lower(sld), t.skeleton(sld))
  }

  /** The labels of the decoded name, lower-cased; only the skeleton sees its own case. */
  lemma SubjectIsLowered(t: Tables, domain: string)
    ensures var s, parts := SubjectOf(t, domain), RegistrableParts(t, t.decode(domain));
            && HasNoCapital(s.sld) && SameIgnoringCase(parts.0, s.sld) && s.skeleton == t.skeleton(parts.0)
            && s.registrable == s.sld + "." + parts.1
  {
    var sld := RegistrableParts(t, t.decode(domain)).0;
    LowerIgnoresCase(sld, Lower(sld));
  }

  /** The name is comparable at all. */
  predicate InQuestion(t: Tables, domain: string) {
    && !t.isInfra(domain)
    && RegistrableParts(t, t.decode(domain)).0 != "" && SubjectOf(t, domain).skeleton != ""
  }

  /** A lookalike of b: not b itself; either it collapses onto b's label without being it, or
      it is within the distance of it. */
  predicate Resembles(s: Subject, b: Brand, maxDistance: nat) {
    && s.registrable != b.domain
    && (if s.skeleton == b.sld then s.sld != b.sld else Osa(s.skeleton, b.sld) <= maxDistance)
  }

  ghost predicate Reports(v: Verdict, s: Subject, b: Brand) {
    if s.skeleton == b.sld then v == Homoglyph(b.domain) else v == Near(b.domain, Osa(s.skeleton, b.sld))
  }

  /** Reports the first brand that the name resembles, and only such a brand. */
  method CheckTyposquat(t: Tables, brands: seq<Brand>, maxDistance: nat, domain: string) returns (v: Verdict)
    ensures v == Clean <==> !InQuestion(t, domain) || forall b :: b in brands ==>
              !Resembles(SubjectOf(t, domain), b, maxDistance)
    ensures v != Clean ==>
              exists i :: 0 <= i < |brands| && Resembles(SubjectOf(t, domain), brands[i], maxDistance)
                && Reports(v, SubjectOf(t, domain), brands[i])
                && forall j :: 0 <= j < i ==> !Resembles(SubjectOf(t, domain), brands[j], maxDistance)
  {
    if |brands| == 0 || !InQuestion(t, domain) {
      return Clean;
    }
    var s := SubjectOf(t, domain);
    for i := 0 to |brands|
      invariant forall j :: 0 <= j < i ==> !Resembles(s, brands[j], maxDistance)
    {
      var b := brands[i];
      assert b in brands;
      if s.registrable == b.domain {
        continue;
      }
      if s.skeleton == b.sld {
        if s.sld != b.sld {
          return Homoglyph(b.domain);
        }
        continue;
      }
      var dist := DamerauLevenshtein(s.skeleton, b.sld);
      OsaZeroIffEqual(s.skeleton, b.sld);
      if 1 <= dist <= maxDistance {
        return Near(b.domain, dist);
      }
    }
    return Clean;
  }

  /** A protected brand queried as it is written; its skeleton may differ from its label. */
  predicate IsExactly(s: Subject, b: Brand) {
    s.registrable == b.domain && s.sld == b.sld
  }

  /** An exact brand is never reported as a lookalike of itself, but the watchlist may hold
      another brand close to it: it is reported if and only if its skeleton lies within the
      distance of the label of a brand of another domain, a brand that merely carries the
      same plain label under another suffix excepted. */
  lemma ExactBrandIsFlaggedIff(brands: seq<Brand>, s: Subject, b: Brand, maxDistance: nat)
    requires b in brands && IsExactly(s, b)
    ensures !Resembles(s, b, maxDistance)
    ensures (exists c :: c in brands && Resembles(s, c, maxDistance)) <==>
            exists c :: c in brands && c.domain != b.domain && Osa(s.skeleton, c.sld) <= maxDistance
                     && !(s.skeleton == c.sld && c.sld == b.sld)
  {
    forall c | c in brands
      ensures Resembles(s, c, maxDistance) <==>
                c.domain != b.domain && Osa(s.skeleton, c.sld) <= maxDistance
                    && !(s.skeleton == c.sld && c.sld == b.sld)
    {
      OsaZeroIffEqual(s.skeleton, c.sld);
    }
  }

  lemma OneMoreCharacter(a: string, c: char)
    ensures Osa(a, a + [c]) == 1
  {
    OsaZeroIffEqual(a, a);
    var cs := OsaIsAttained(a, a);
    AppendColumn(cs, Add(c));
    assert Source(cs + [Add(c)]) == a && Target(cs + [Add(c)]) == a + [c];
    OsaIsLowerBound(cs + [Add(c)]);
    OsaZeroIffEqual(a, a + [c]);
  }

  // ----- registrable parts -----

  /** The root's dot does not matter. */
  lemma RootDotIsIgnored(t: Tables, d: string)
    requires d != "" && d[|d| - 1] != '.'
    ensures RegistrableParts(t, d + ".") == RegistrableParts(t, d)
  {
    assert (d + ".")[..|d|] == d;
  }

  /** A name of one label has no registrable part. */
  lemma OneLabelHasNone(t: Tables, d: string)
    requires '.' !in d
    ensures RegistrableParts(t, d) == ("", "")
  {
    SplitAtFirst(d, '.', "");
  }

  /** Of two labels the first is registrable under the second. */
  lemma PartsOfTwo(t: Tables, sld: string, tld: string)
    requires '.' !in sld && '.' !in tld && tld != ""
    ensures RegistrableParts(t, sld + "." + tld) == (sld, Lower(tld))
  {
    LabelsOfTwo(sld, tld);
    var d := sld + ['.'] + tld;
    assert d == sld + "." + tld && d[|d| - 1] == tld[|tld| - 1];
  }

  lemma LabelsOfMore(front: string, y: string, tld: string)
    requires '.' !in y && '.' !in tld
    ensures Labels(front + "." + y + "." + tld) == Labels(front) + [y, tld]
  {
    var end := y + ['.'] + tld;
    LabelsOfTwo(y, tld);
    SplitConcat(front, '.', end);
    assert front + ['.'] + end == front + "." + y + "." + tld;
  }

  /** With more labels before them, the last but one is registrable under the last, unless the
      two are a known suffix: then the label before them is registrable under both. */
  lemma PartsOfMore(t: Tables, front: string, y: string, tld: string)
    requires '.' !in y && '.' !in tld && tld != ""
    ensures RegistrableParts(t, front + "." + y + "." + tld) ==
            if !t.isTwoLevelTld(Lower(y + "." + tld)) then (y, Lower(tld))
            else (LastLabel(front), Lower(y + "." + tld))
  {
    var d := front + "." + y + "." + tld;
    assert d[|d| - 1] == tld[|tld| - 1];
    LabelsOfMore(front, y, tld);
    var parts := Labels(front) + [y, tld];
    assert parts[|parts| - 3] == LastLabel(front) && parts[|parts| - 2] == y && parts[|parts| - 1] == tld;
  }

  function LastLabel(d: string): string {
    Labels(d)[|Labels(d)| - 1]
  }

  lemma LastLabelIsAfterLastDot(front: string, x: string)
    requires '.' !in x
    ensures LastLabel(x) == x && LastLabel(front + "." + x) == x
  {
    SplitAtFirst(x, '.', "");
    SplitConcat(front, '.', x);
    assert front + ['.'] + x == front + "." + x;
  }

  predicate LowerLetters(s: string) {
    forall i :: 0 <= i < |s| ==> 'a' <= s[i] <= 'z'
  }

  lemma LabelsOfTwo(a: string, b: string)
    requires '.' !in a && '.' !in b
    ensures Labels(a + ['.'] + b) == [a, b]
  {
    SplitAtFirst(a, '.', b);
    SplitAtFirst(b, '.', "");
  }

  lemma LettersStay(s: string)
    requires LowerLetters(s)
    ensures '.' !in s && Lower(s) == s
  {
    assert IsLower(s);
    LowerKeepsLower(s);
  }

  lemma PlainNameCharacters(a: string, b: string)
    requires LowerLetters(a) && LowerLetters(b) && a != "" && b != ""
    ensures var d := a + ['.'] + b; IsLower(d) && IsTrimmed(d) && d[|d| - 1] != '.'
  {
    var d := a + ['.'] + b;
    assert forall i :: 0 <= i < |d| ==> d[i] == '.' || 'a' <= d[i] <= 'z';
    assert d[0] == a[0] && d[|d| - 1] == b[|b| - 1];
  }

  lemma PlainNameStays(a: string, b: string)
    requires LowerLetters(a) && LowerLetters(b) && a != "" && b != ""
    ensures var d := a + ['.'] + b; Lower(d) == d && TrimSpace(d) == d && DropTrailingDot(d) == d
  {
    var d := a + ['.'] + b;
    PlainNameCharacters(a, b);
    LowerKeepsLower(d);
    TrimSpaceTrims(d);
  }

  function PlainBrand(sld: string, tld: string): Brand {
    Brand(sld + "." + tld, sld, tld)
  }

  /** A two-label watchlist entry in lower-case letters is the brand it names. */
  lemma BrandOfPlainName(t: Tables, sld: string, tld: string, rest: seq<string>)
    requires LowerLetters(sld) && LowerLetters(tld) && sld != "" && tld != ""
    ensures var d := sld + ['.'] + tld;
            && RegistrableParts(t, d) == (sld, tld)
            && NormalizeBrands(t, [d] + rest) == [PlainBrand(sld, tld)] + NormalizeBrands(t, rest)
  {
    LettersStay(sld);
    LettersStay(tld);
    LabelsOfTwo(sld, tld);
    PlainNameStays(sld, tld);
    assert ([sld + ['.'] + tld] + rest)[1..] == rest;
  }

  lemma PlainSubject(t: Tables, sld: string, tld: string)
    requires LowerLetters(sld) && LowerLetters(tld) && sld != "" && tld != ""
    requires var d := sld + ['.'] + tld; !t.isInfra(d) && t.decode(d) == d && t.skeleton(sld) == sld
    ensures var d := sld + ['.'] + tld;
            InQuestion(t, d) && SubjectOf(t, d) == Subject(sld + "." + tld, sld, sld)
  {
    BrandOfPlainName(t, sld, tld, []);
    LettersStay(sld);
  }

  /** So whenever the watchlist protects a name and the same name with one more letter, say
      "paypal.com" and "paypall.com", the check finds the exact shorter brand a lookalike of
      the longer one; the tables need only leave the plain name alone. */
  lemma ExactBrandCanBeFlagged(t: Tables, sld: string, c: char, tld: string)
    requires LowerLetters(sld) && 'a' <= c <= 'z' && LowerLetters(tld) && sld != "" && tld != ""
    requires var d := sld + ['.'] + tld; !t.isInfra(d) && t.decode(d) == d && t.skeleton(sld) == sld
    ensures var d := sld + ['.'] + tld;
            var brands := NormalizeBrands(t, [d] + [sld + [c] + ['.'] + tld]);
            && InQuestion(t, d)
            && (exists b :: b in brands && IsExactly(SubjectOf(t, d), b))
            && (exists b :: b in brands && Resembles(SubjectOf(t, d), b, 2))
  {
    var exact, near := PlainBrand(sld, tld), PlainBrand(sld + [c], tld);
    PlainSubject(t, sld, tld);
    TwoBrands(t, sld, sld + [c], tld);
    LongerBrandIsNear(sld, c, tld);
    assert [exact, near][0] == exact && [exact, near][1] == near;
    assert exact in [exact, near] && near in [exact, near];
  }

  lemma TwoBrands(t: Tables, a: string, b: string, tld: string)
    requires LowerLetters(a) && LowerLetters(b) && LowerLetters(tld) && a != "" && b != "" && tld != ""
    ensures NormalizeBrands(t, [a + ['.'] + tld] + [b + ['.'] + tld]) == [PlainBrand(a, tld), PlainBrand(b, tld)]
  {
    var rest := [b + ['.'] + tld];
    assert rest + [] == rest && NormalizeBrands(t, []) == [];
    BrandOfPlainName(t, b, tld, []);
    assert NormalizeBrands(t, rest) == [PlainBrand(b, tld)];
    BrandOfPlainName(t, a, tld, rest);
  }

  lemma LongerBrandIsNear(sld: string, c: char, tld: string)
    ensures Resembles(Subject(sld + "." + tld, sld, sld), PlainBrand(sld + [c], tld), 2)
  {
    OneMoreCharacter(sld, c);
    assert |sld + [c]| == |sld| + 1;
    assert |sld + [c] + "." + tld| == |sld + "." + tld| + 1;
  }
}
