/** The typosquat detector's edit distance: optimal string alignment, where an
    insertion, a deletion, a substitution and a swap of two neighbours cost one each.

    `Osa` is the recurrence, `Column` and `Cost` give its meaning as the cheapest
    alignment of the two strings, and `DamerauLevenshtein` is the rolling three-row loop.
 */
module EditDistance {
  import opened Options

  function Min(x: nat, y: nat): nat {
    if x < y then x else y
  }

  function Min3(x: nat, y: nat, z: nat): nat {
    Min(Min(x, y), z)
  }

  /** The last two characters of a[..i] are those of b[..j] in the other order. */
  predicate SwappedAt(a: string, b: string, i: nat, j: nat)
    requires i <= |a| && j <= |b|
  {
    i > 1 && j > 1 && a[i - 1] == b[j - 2] && a[i - 2] == b[j - 1]
  }

  /** One table cell from its neighbours; corner is two steps up and two to the left. */
  function Cell(a: string, b: string, i: nat, j: nat, up: nat, left: nat, diagonal: nat, corner: nat): nat
    requires 1 <= i <= |a| && 1 <= j <= |b|
  {
    var best := Min3(up + 1, left + 1, diagonal + if a[i - 1] == b[j - 1] then 0 else 1);
    if SwappedAt(a, b, i, j) then Min(best, corner + 1) else best
  }

  /** The recurrence, on the first i characters of a and the first j of b. */
  function Dist(a: string, b: string, i: nat, j: nat): nat
    requires i <= |a| && j <= |b|
    decreases i + j
  {
    if i == 0 then j
    else if j == 0 then i
    else
      var corner := if i > 1 && j > 1 then Dist(a, b, i - 2, j - 2) else 0;
      Cell(a, b, i, j, Dist(a, b, i - 1, j), Dist(a, b, i, j - 1), Dist(a, b, i - 1, j - 1), corner)
  }

  function Osa(a: string, b: string): nat {
    Dist(a, b, |a|, |b|)
  }

  // ----- the meaning: alignments -----

  /** One column of an alignment of a source string with a target string. */
  datatype Column = Keep(x: char) | Change(x: char, y: char) | Add(y: char) | Drop(x: char) | Swap(x: char, y: char)
  {
    function Source(): string {
      match this
      case Keep(x) => [x]
      case Change(x, _) => [x]
      case Add(_) => []
      case Drop(x) => [x]
      case Swap(x, y) => [x, y]
    }

    function Target(): string {
      match this
      case Keep(x) => [x]
      case Change(_, y) => [y]
      case Add(y) => [y]
      case Drop(_) => []
      case Swap(x, y) => [y, x]
    }

    function Cost(): nat {
      if Keep? then 0 else 1
    }

    /** How many source characters and target characters the column covers. */
    function Rows(): nat {
      if Add? then 0 else if Swap? then 2 else 1
    }

    function Cols(): nat {
      if Drop? then 0 else if Swap? then 2 else 1
    }

    function Flip(): Column {
      match this
      case Keep(x) => Keep(x)
      case Change(x, y) => Change(y, x)
      case Add(y) => Drop(y)
      case Drop(x) => Add(x)
      case Swap(x, y) => Swap(y, x)
    }
  }

  type Alignment = seq<Column>

  function Source(cs: Alignment): string {
    if |cs| == 0 then [] else Source(cs[..|cs| - 1]) + cs[|cs| - 1].Source()
  }

  function Target(cs: Alignment): string {
    if |cs| == 0 then [] else Target(cs[..|cs| - 1]) + cs[|cs| - 1].Target()
  }

  function Cost(cs: Alignment): nat {
    if |cs| == 0 then 0 else Cost(cs[..|cs| - 1]) + cs[|cs| - 1].Cost()
  }

  function Swaps(cs: Alignment): nat {
    if |cs| == 0 then 0 else Swaps(cs[..|cs| - 1]) + if cs[|cs| - 1].Swap? then 1 else 0
  }

  predicate Aligns(cs: Alignment, a: string, b: string) {
    Source(cs) == a && Target(cs) == b
  }

  /** Column c can end an alignment of a[..i] with b[..j]. */
  predicate Fits(c: Column, a: string, b: string, i: nat, j: nat)
    requires i <= |a| && j <= |b|
  {
    match c
    case Keep(x) => i > 0 && j > 0 && a[i - 1] == x && b[j - 1] == x
    case Change(x, y) => i > 0 && j > 0 && a[i - 1] == x && b[j - 1] == y
    case Add(y) => j > 0 && b[j - 1] == y
    case Drop(x) => i > 0 && a[i - 1] == x
    case Swap(x, y) => SwappedAt(a, b, i, j) && a[i - 2] == x && a[i - 1] == y
  }

  lemma FitsMeansEndsWith(c: Column, a: string, b: string, i: nat, j: nat)
    requires i <= |a| && j <= |b|
    ensures Fits(c, a, b, i, j) <==>
            && c.Rows() <= i && c.Cols() <= j
            && a[..i] == a[..i - c.Rows()] + c.Source() && b[..j] == b[..j - c.Cols()] + c.Target()
  {
    if c.Rows() <= i && c.Cols() <= j {
      var i1, j1 := i - c.Rows(), j - c.Cols();
      var s, t := a[..i1] + c.Source(), b[..j1] + c.Target();
      assert |s| == i && |t| == j;
      if Fits(c, a, b, i, j) {
        assert a[..i] == s && b[..j] == t;
      }
      if a[..i] == s && b[..j] == t {
        assert forall k :: i1 <= k < i ==> a[..i][k] == c.Source()[k - i1];
        assert forall k :: j1 <= k < j ==> b[..j][k] == c.Target()[k - j1];
      }
    }
  }

  /** Ending with any fitting column is at least as dear as the recurrence. */
  lemma FittingColumnBound(c: Column, a: string, b: string, i: nat, j: nat)
    requires i <= |a| && j <= |b| && Fits(c, a, b, i, j)
    ensures Dist(a, b, i, j) <= Dist(a, b, i - c.Rows(), j - c.Cols()) + c.Cost()
  {
    if i > 0 && j > 0 {
      var corner := if i > 1 && j > 1 then Dist(a, b, i - 2, j - 2) else 0;
      var d := Cell(a, b, i, j, Dist(a, b, i - 1, j), Dist(a, b, i, j - 1), Dist(a, b, i - 1, j - 1), corner);
      assert Dist(a, b, i, j) == d;
    }
  }

  /** Swapping equal neighbours is never cheaper than keeping them. */
  lemma SwapOfEquals(a: string, b: string, i: nat, j: nat)
    requires 2 <= i <= |a| && 2 <= j <= |b| && SwappedAt(a, b, i, j)
    ensures a[i - 1] == b[j - 1] ==> Dist(a, b, i - 1, j - 1) <= Dist(a, b, i - 2, j - 2)
  {
    if a[i - 1] == b[j - 1] {
      FittingColumnBound(Keep(a[i - 2]), a, b, i - 1, j - 1);
    }
  }

  /** Some fitting column meets the recurrence; a swap does so only of distinct characters. */
  lemma CheapestLastColumn(a: string, b: string, i: nat, j: nat) returns (c: Column)
    requires i <= |a| && j <= |b| && i + j > 0
    ensures Fits(c, a, b, i, j) && (c.Swap? ==> a[i - 1] != b[j - 1])
    ensures Dist(a, b, i, j) == Dist(a, b, i - c.Rows(), j - c.Cols()) + c.Cost()
  {
    if i == 0 {
      c := Add(b[j - 1]);
    } else if j == 0 {
      c := Drop(a[i - 1]);
    } else {
      c := CheapestCorner(a, b, i, j);
    }
  }

  lemma CheapestCorner(a: string, b: string, i: nat, j: nat) returns (c: Column)
    requires 0 < i <= |a| && 0 < j <= |b|
    ensures Fits(c, a, b, i, j) && (c.Swap? ==> a[i - 1] != b[j - 1])
    ensures Dist(a, b, i, j) == Dist(a, b, i - c.Rows(), j - c.Cols()) + c.Cost()
  {
    var up, left, diagonal := Dist(a, b, i - 1, j), Dist(a, b, i, j - 1), Dist(a, b, i - 1, j - 1);
    var corner := if i > 1 && j > 1 then Dist(a, b, i - 2, j - 2) else 0;
    var d := Cell(a, b, i, j, up, left, diagonal, corner);
    assert d == Dist(a, b, i, j);
    if d == up + 1 {
      c := Drop(a[i - 1]);
    } else if d == left + 1 {
      c := Add(b[j - 1]);
    } else if d == diagonal + if a[i - 1] == b[j - 1] then 0 else 1 {
      c := if a[i - 1] == b[j - 1] then Keep(a[i - 1]) else Change(a[i - 1], b[j - 1]);
    } else {
      c := Swap(a[i - 2], a[i - 1]);
      SwapOfEquals(a, b, i, j);
    }
  }

  lemma AppendColumn(cs: Alignment, c: Column)
    ensures Source(cs + [c]) == Source(cs) + c.Source()
    ensures Target(cs + [c]) == Target(cs) + c.Target()
    ensures Cost(cs + [c]) == Cost(cs) + c.Cost() && Swaps(cs + [c]) == Swaps(cs) + if c.Swap? then 1 else 0
  {
    assert (cs + [c])[..|cs|] == cs;
  }

  lemma LastColumnFits(init: Alignment, c: Column, a: string, b: string, i: nat, j: nat)
    requires i <= |a| && j <= |b|
    requires a[..i] == Source(init) + c.Source() && b[..j] == Target(init) + c.Target()
    ensures Fits(c, a, b, i, j) && c.Rows() <= i && c.Cols() <= j
    ensures Aligns(init, a[..i - c.Rows()], b[..j - c.Cols()])
  {
    assert |c.Source()| == c.Rows() && |c.Target()| == c.Cols();
    var i1, j1 := i - c.Rows(), j - c.Cols();
    assert a[..i1] == a[..i][..i1] == Source(init);
    assert b[..j1] == b[..j][..j1] == Target(init);
    FitsMeansEndsWith(c, a, b, i, j);
  }

  /** No alignment is cheaper than the recurrence. */
  lemma {:induction false} DistIsLowerBound(cs: Alignment, a: string, b: string, i: nat, j: nat)
    requires i <= |a| && j <= |b| && Aligns(cs, a[..i], b[..j])
    ensures Dist(a, b, i, j) <= Cost(cs)
  {
    if |cs| > 0 {
      var init, c := cs[..|cs| - 1], cs[|cs| - 1];
      LastColumnFits(init, c, a, b, i, j);
      DistIsLowerBound(init, a, b, i - c.Rows(), j - c.Cols());
      FittingColumnBound(c, a, b, i, j);
    }
  }

  /** Two distinct neighbours of a are neighbours of b in the other order. */
  predicate ReversesPair(a: string, b: string) {
    exists i, j :: 0 <= i <= |a| && 0 <= j <= |b| && SwappedAt(a, b, i, j) && a[i - 1] != b[j - 1]
  }

  /** Some alignment costs exactly what the recurrence says, and swaps only if a pair is reversed. */
  lemma {:induction false} DistIsAttained(a: string, b: string, i: nat, j: nat) returns (cs: Alignment)
    requires i <= |a| && j <= |b|
    ensures Aligns(cs, a[..i], b[..j]) && Cost(cs) == Dist(a, b, i, j) && (Swaps(cs) > 0 ==> ReversesPair(a, b))
    decreases i + j
  {
    if i + j == 0 {
      cs := [];
    } else {
      var c := CheapestLastColumn(a, b, i, j);
      FitsMeansEndsWith(c, a, b, i, j);
      var init := DistIsAttained(a, b, i - c.Rows(), j - c.Cols());
      AppendColumn(init, c);
      assert c.Swap? ==> SwappedAt(a, b, i, j) && a[i - 1] != b[j - 1];
      cs := init + [c];
    }
  }

  lemma OsaIsLowerBound(cs: Alignment)
    ensures Osa(Source(cs), Target(cs)) <= Cost(cs)
  {
    var a, b := Source(cs), Target(cs);
    assert a[..|a|] == a && b[..|b|] == b;
    DistIsLowerBound(cs, a, b, |a|, |b|);
  }

  lemma OsaIsAttained(a: string, b: string) returns (cs: Alignment)
    ensures Aligns(cs, a, b) && Cost(cs) == Osa(a, b) && (Swaps(cs) > 0 ==> ReversesPair(a, b))
  {
    cs := DistIsAttained(a, b, |a|, |b|);
    assert a[..|a|] == a && b[..|b|] == b;
  }

  /** Main result: the recurrence is the minimum cost over all alignments. */
  lemma OsaIsMinimumAlignmentCost(a: string, b: string)
    ensures exists cs :: Aligns(cs, a, b) && Cost(cs) == Osa(a, b)
    ensures forall cs :: Aligns(cs, a, b) ==> Osa(a, b) <= Cost(cs)
  {
    var best := OsaIsAttained(a, b);
    forall cs | Aligns(cs, a, b)
      ensures Osa(a, b) <= Cost(cs)
    {
      OsaIsLowerBound(cs);
    }
  }

  // ----- consequences -----

  function FlipAll(cs: Alignment): Alignment {
    if |cs| == 0 then [] else FlipAll(cs[..|cs| - 1]) + [cs[|cs| - 1].Flip()]
  }

  lemma {:induction false} FlipSwapsRoles(cs: Alignment)
    ensures Aligns(FlipAll(cs), Target(cs), Source(cs)) && Cost(FlipAll(cs)) == Cost(cs)
  {
    if |cs| > 0 {
      var init, c := cs[..|cs| - 1], cs[|cs| - 1];
      FlipSwapsRoles(init);
      AppendColumn(FlipAll(init), c.Flip());
      FlippedColumn(c);
    }
  }

  lemma FlippedColumn(c: Column)
    ensures c.Flip().Source() == c.Target() && c.Flip().Target() == c.Source() && c.Flip().Cost() == c.Cost()
  {
  }

  lemma OsaFlipBound(a: string, b: string)
    ensures Osa(b, a) <= Osa(a, b)
  {
    var cs := OsaIsAttained(a, b);
    FlipSwapsRoles(cs);
    OsaIsLowerBound(FlipAll(cs));
  }

  lemma OsaSymmetric(a: string, b: string)
    ensures Osa(a, b) == Osa(b, a)
  {
    OsaFlipBound(a, b);
    OsaFlipBound(b, a);
  }

  lemma {:induction false} FreeAlignmentIsIdentity(cs: Alignment)
    requires Cost(cs) == 0
    ensures Source(cs) == Target(cs)
  {
    if |cs| > 0 {
      FreeAlignmentIsIdentity(cs[..|cs| - 1]);
    }
  }

  lemma {:induction false} DistReflexive(a: string, i: nat)
    requires i <= |a|
    ensures Dist(a, a, i, i) == 0
  {
    if i > 0 {
      DistReflexive(a, i - 1);
    }
  }

  lemma OsaZeroIffEqual(a: string, b: string)
    ensures Osa(a, b) == 0 <==> a == b
  {
    DistReflexive(a, |a|);
    var cs := OsaIsAttained(a, b);
    if Osa(a, b) == 0 {
      FreeAlignmentIsIdentity(cs);
    }
  }

  lemma {:induction false} LengthsDifferByAtMostCost(cs: Alignment)
    ensures |Source(cs)| <= |Target(cs)| + Cost(cs)
    ensures |Target(cs)| <= |Source(cs)| + Cost(cs)
  {
    if |cs| > 0 {
      LengthsDifferByAtMostCost(cs[..|cs| - 1]);
    }
  }

  lemma {:induction false} DistUpperBound(a: string, b: string, i: nat, j: nat)
    requires i <= |a| && j <= |b|
    ensures Dist(a, b, i, j) <= if i < j then j else i
  {
    if i > 0 && j > 0 {
      DistUpperBound(a, b, i - 1, j - 1);
      FittingColumnBound(Change(a[i - 1], b[j - 1]), a, b, i, j);
    }
  }

  /** The distance lies between the length difference and the longer length. */
  lemma OsaLengthBounds(a: string, b: string)
    ensures |a| - |b| <= Osa(a, b) && |b| - |a| <= Osa(a, b)
    ensures Osa(a, b) <= if |a| < |b| then |b| else |a|
  {
    DistUpperBound(a, b, |a|, |b|);
    var cs := OsaIsAttained(a, b);
    LengthsDifferByAtMostCost(cs);
  }

  lemma SwappedPairDistance(x: char, y: char, a: string, b: string)
    requires x != y && a == [x, y] && b == [y, x]
    ensures Osa(a, b) == 1
  {
    assert Dist(a, b, 1, 1) == 1;
    assert Dist(a, b, 2, 1) == 1;
    assert Dist(a, b, 1, 2) == 1;
  }

  lemma SplitPairDistance(x: char, y: char, z: char, a: string, b: string)
    requires x != y && y != z && x != z && b == [x, y, z]
    ensures a == [x, z] ==> Osa(a, b) == 1
    ensures a == [z, x] ==> Osa(a, b) == 3
  {
    if a == [x, z] {
      assert Dist(a, b, 1, 1) == 0;
      assert Dist(a, b, 1, 2) == 1;
      assert Dist(a, b, 1, 3) == 2;
      assert Dist(a, b, 2, 1) == 1;
      assert Dist(a, b, 2, 2) == 1;
    } else if a == [z, x] {
      assert Dist(a, b, 1, 1) == 1;
      assert Dist(a, b, 1, 2) == 2;
      assert Dist(a, b, 1, 3) == 2;
      assert Dist(a, b, 2, 1) == 1;
      assert Dist(a, b, 2, 2) == 2;
    }
  }

  /** Optimal string alignment is not a metric: the triangle inequality fails. */
  lemma OsaTriangleFails()
    ensures Osa("ca", "abc") > Osa("ca", "ac") + Osa("ac", "abc")
  {
    SwappedPairDistance('c', 'a', "ca", "ac");
    SplitPairDistance('a', 'b', 'c', "ac", "abc");
    SplitPairDistance('a', 'b', 'c', "ca", "abc");
  }

  // ----- how far the triangle inequality fails -----

  /** The same alignment with two changes for every swap. */
  lemma {:induction false} WithoutSwaps(cs: Alignment) returns (r: Alignment)
    ensures Aligns(r, Source(cs), Target(cs)) && Cost(r) == Cost(cs) + Swaps(cs) && Swaps(r) == 0
  {
    if |cs| == 0 {
      r := [];
    } else {
      var init, c := cs[..|cs| - 1], cs[|cs| - 1];
      r := WithoutSwaps(init);
      if c.Swap? {
        r := AppendChanges(r, c.x, c.y);
      } else {
        AppendColumn(r, c);
        r := r + [c];
      }
    }
  }

  lemma AppendChanges(cs: Alignment, x: char, y: char) returns (r: Alignment)
    ensures Source(r) == Source(cs) + [x, y] && Target(r) == Target(cs) + [y, x]
    ensures Cost(r) == Cost(cs) + 2 && Swaps(r) == Swaps(cs)
  {
    AppendColumn(cs, Change(x, y));
    AppendColumn(cs + [Change(x, y)], Change(y, x));
    r := cs + [Change(x, y)] + [Change(y, x)];
  }

  /** Two columns that meet in one character, as one column or none. */
  function Met(p: Column, q: Column): (m: Option<Column>)
    requires !p.Swap? && !p.Drop? && !q.Swap? && !q.Add? && p.Target() == q.Source()
    ensures m.None? ==> p.Source() == [] && q.Target() == []
    ensures m.Some? ==> !m.value.Swap? && m.value.Source() == p.Source() && m.value.Target() == q.Target()
    ensures m.Some? ==> m.value.Cost() <= p.Cost() + q.Cost()
  {
    if p.Add? then (if q.Drop? then None else Some(Add(q.Target()[0])))
    else if q.Drop? then Some(Drop(p.x))
    else if p.x == q.Target()[0] then Some(Keep(p.x))
    else Some(Change(p.x, q.Target()[0]))
  }

  /** Alignments without swaps compose, and the costs add up at most. */
  lemma {:induction false} Composed(p: Alignment, q: Alignment) returns (r: Alignment)
    requires Target(p) == Source(q) && Swaps(p) == 0 && Swaps(q) == 0
    ensures Aligns(r, Source(p), Target(q)) && Cost(r) <= Cost(p) + Cost(q)
    decreases |p| + |q|
  {
    if |p| > 0 && p[|p| - 1].Drop? {
      r := Composed(p[..|p| - 1], q);
      AppendColumn(r, p[|p| - 1]);
      r := r + [p[|p| - 1]];
    } else if |q| > 0 && q[|q| - 1].Add? {
      r := Composed(p, q[..|q| - 1]);
      AppendColumn(r, q[|q| - 1]);
      r := r + [q[|q| - 1]];
    } else if |p| > 0 && |q| > 0 {
      var p0, q0, c, d := p[..|p| - 1], q[..|q| - 1], p[|p| - 1], q[|q| - 1];
      LastCharacterMeets(Target(p0), c.Target(), Source(q0), d.Source());
      r := Composed(p0, q0);
      if Met(c, d).Some? {
        AppendColumn(r, Met(c, d).value);
        r := r + [Met(c, d).value];
      }
    } else {
      r := [];
    }
  }

  lemma LastCharacterMeets(s: string, x: string, t: string, y: string)
    requires s + x == t + y && |x| == 1 && |y| == 1
    ensures s == t && x == y
  {
    var u := s + x;
    assert u[..|u| - 1] == s && u[|u| - 1..] == x;
    assert u[..|u| - 1] == t && u[|u| - 1..] == y;
  }

  /** Main result: what the triangle inequality can fail by is at most the number of swaps of
      any two alignments by way of b. */
  lemma TriangleUpToSwaps(p: Alignment, q: Alignment)
    requires Target(p) == Source(q)
    ensures Osa(Source(p), Target(q)) <= Cost(p) + Cost(q) + Swaps(p) + Swaps(q)
  {
    var p1 := WithoutSwaps(p);
    var q1 := WithoutSwaps(q);
    var r := Composed(p1, q1);
    OsaIsLowerBound(r);
  }

  /** So it holds when neither step has a pair to reverse. */
  lemma TriangleWithoutReversedPairs(a: string, b: string, c: string)
    requires !ReversesPair(a, b) && !ReversesPair(b, c)
    ensures Osa(a, c) <= Osa(a, b) + Osa(b, c)
  {
    var p := OsaIsAttained(a, b);
    var q := OsaIsAttained(b, c);
    TriangleUpToSwaps(p, q);
  }

  lemma {:induction false} SwapsAreColumns(cs: Alignment)
    ensures Swaps(cs) <= Cost(cs)
  {
    if |cs| > 0 {
      SwapsAreColumns(cs[..|cs| - 1]);
    }
  }

  /** And a detour never saves more than half, whatever the strings. */
  lemma TriangleWithinTwice(a: string, b: string, c: string)
    ensures Osa(a, c) <= 2 * (Osa(a, b) + Osa(b, c))
  {
    var p := OsaIsAttained(a, b);
    var q := OsaIsAttained(b, c);
    SwapsAreColumns(p);
    SwapsAreColumns(q);
    TriangleUpToSwaps(p, q);
  }

  // ----- the rolling loop -----

  type Table = seq<seq<nat>>

  ghost predicate Shaped(t: Table, a: string, b: string) {
    |t| == |a| + 1 && forall i :: 0 <= i <= |a| ==> |t[i]| == |b| + 1
  }

  ghost predicate IsCell(t: Table, a: string, b: string, i: nat, j: nat)
    requires Shaped(t, a, b) && i <= |a| && j <= |b|
  {
    if i == 0 then t[i][j] == j
    else if j == 0 then t[i][j] == i
    else
      var corner := if i > 1 && j > 1 then t[i - 2][j - 2] else 0;
      t[i][j] == Cell(a, b, i, j, t[i - 1][j], t[i][j - 1], t[i - 1][j - 1], corner)
  }

  /** The full table the loop computes row by row. */
  ghost predicate IsTable(t: Table, a: string, b: string) {
    Shaped(t, a, b) && forall i, j :: 0 <= i <= |a| && 0 <= j <= |b| ==> IsCell(t, a, b, i, j)
  }

  /** The table of the recurrence ends in the distance of the whole strings. */
  lemma TableOf(a: string, b: string) returns (t: Table)
    ensures IsTable(t, a, b) && t[|a|][|b|] == Osa(a, b)
  {
    t := seq(|a| + 1, i requires 0 <= i <= |a| => seq(|b| + 1, j requires 0 <= j <= |b| => Dist(a, b, i, j)));
    forall i, j | 0 <= i <= |a| && 0 <= j <= |b|
      ensures IsCell(t, a, b, i, j)
    {
      assert t[i][j] == Dist(a, b, i, j);
    }
  }

  /** The inner loop: row i of the table from the two rows before it. */
  method FillRow(a: string, b: string, i: nat, prev2: array<nat>, prev: array<nat>, curr: array<nat>, ghost t: Table)
    requires IsTable(t, a, b) && 1 <= i <= |a|
    requires prev2.Length == prev.Length == curr.Length == |b| + 1 && prev2 != curr && prev != curr
    requires forall k :: 0 <= k <= |b| ==> prev[k] == t[i - 1][k]
    requires i > 1 ==> forall k :: 0 <= k <= |b| ==> prev2[k] == t[i - 2][k]
    requires curr[0] == t[i][0]
    modifies curr
    ensures forall k :: 0 <= k <= |b| ==> curr[k] == t[i][k]
  {
    for j := 1 to |b| + 1
      invariant forall k :: 0 <= k < j ==> curr[k] == t[i][k]
    {
      assert IsCell(t, a, b, i, j);
      ghost var corner := if i > 1 && j > 1 then prev2[j - 2] else 0;
      assert t[i][j] == Cell(a, b, i, j, prev[j], curr[j - 1], prev[j - 1], corner);
      var cost := if a[i - 1] == b[j - 1] then 0 else 1;
      curr[j] := Min3(prev[j] + 1, curr[j - 1] + 1, prev[j - 1] + cost);
      if i > 1 && j > 1 && a[i - 1] == b[j - 2] && a[i - 2] == b[j - 1] {
        var swapped := prev2[j - 2] + 1;
        if swapped < curr[j] {
          curr[j] := swapped;
        }
      }
    }
  }

  method DamerauLevenshtein(a: string, b: string) returns (d: nat)
    ensures d == Osa(a, b)
  {
    var la, lb := |a|, |b|;
    if la == 0 {
      return lb;
    }
    if lb == 0 {
      return la;
    }
    ghost var t := TableOf(a, b);
    var prev2 := new nat[lb + 1](_ => 0);
    var prev := new nat[lb + 1](_ => 0);
    var curr := new nat[lb + 1](_ => 0);
    for j := 0 to lb + 1
      invariant forall k :: 0 <= k < j ==> prev[k] == t[0][k]
    {
      assert IsCell(t, a, b, 0, j);
      prev[j] := j;
    }
    for i := 1 to la + 1
      invariant fresh(prev2) && fresh(prev) && fresh(curr)
      invariant prev2 != prev && prev2 != curr && prev != curr
      invariant prev2.Length == prev.Length == curr.Length == lb + 1
      invariant forall k :: 0 <= k <= lb ==> prev[k] == t[i - 1][k]
      invariant i > 1 ==> forall k :: 0 <= k <= lb ==> prev2[k] == t[i - 2][k]
    {
      assert IsCell(t, a, b, i, 0);
      curr[0] := i;
      FillRow(a, b, i, prev2, prev, curr, t);
      prev2, prev, curr := prev, curr, prev2;
    }
    return prev[lb];
  }
}
