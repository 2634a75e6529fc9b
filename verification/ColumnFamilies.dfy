/** getColumnFamilies: the column families a column predicate is confined to. */
module ColumnFamilies {
  import opened Bytes
  import opened Options
  import opened IntervalSet
  import opened Strings

  const COLON: byte := 58
  const SEMICOLON: byte := 59

  /** std::find */
  function Find(s: bytes, c: byte): (i: nat)
    ensures i <= |s| && c !in s[..i] && (i < |s| ==> s[i] == c)
  {
    if s == [] || s[0] == c then 0 else
      var i := 1 + Find(s[1..], c);
      assert s[..i] == [s[0]] + s[1..][..i - 1];
      i
  }

  lemma {:induction false} FindIs(s: bytes, c: byte, i: nat)
    requires i < |s| && s[i] == c && c !in s[..i]
    ensures Find(s, c) == i
  {
    if i > 0 {
      assert s[..i][0] == s[0];
      assert s[..i] == [s[0]] + s[1..][..i - 1];
      FindIs(s[1..], c, i - 1);
    }
  }

  /** getColumnFamily: the family an end point lies in, or the empty string. */
  function Family(p: Point<bytes>): (f: bytes) {
    if p.IsInfinite() then []
    else
      var s := p.value;
      var sep := Find(s, COLON);
      if p.IsLower() then (if sep < |s| then s[..sep] else [])
      else if sep == |s| - 1 && p.IsExclusive() then []
      else if sep < |s| then s[..sep]
      else if p.IsExclusive() && Find(s, SEMICOLON) == |s| - 1 then s[..|s| - 1]
      else []
  }

  /** The strings of family `f` are those that start with this. */
  function Prefix(f: bytes): bytes { f + [COLON] }

  /** A column belongs to family `f`. */
  predicate InFamily(f: bytes, column: bytes) { Prefix(f) <= column }

  lemma {:induction false} PrefixNext(f: bytes)
    ensures PrefixSuccessor(Prefix(f)) == Some(f + [SEMICOLON])
  {
    var p := Prefix(f);
    assert p[..|p| - 1] == f && p[|p| - 1] == COLON;
  }

  /** Families are convex: what lies between members of a family is a member. */
  lemma {:induction false} FamilyConvex(f: bytes, lo: bytes, v: bytes, up: bytes)
    requires !StrLess(v, lo) && InFamily(f, lo)
    requires (!StrLess(up, v) && InFamily(f, up)) || (StrLess(v, up) && up == f + [SEMICOLON])
    ensures InFamily(f, v)
  {
    hide StrLess;
    var p := Prefix(f);
    PrefixNext(f);
    PrefixBounds(p, lo);
    PrefixBounds(p, v);
    StrTotal(v, lo);
    if StrLess(v, p) && StrLess(lo, v) { StrTransitive(lo, v, p); }
    if InFamily(f, up) && !StrLess(up, v) {
      PrefixBounds(p, up);
      StrTotal(up, v);
      if StrLess(v, up) { StrTransitive(v, up, f + [SEMICOLON]); }
    }
  }

  lemma {:induction false} LowerInFamily(lo: Point<bytes>)
    requires lo.IsLower() && Family(lo) != []
    ensures !lo.IsInfinite() && InFamily(Family(lo), lo.value) && COLON !in Family(lo)
  {
    var sep := Find(lo.value, COLON);
    assert lo.value[..sep] + [COLON] == lo.value[..sep + 1];
  }

  lemma {:induction false} UpperInFamily(up: Point<bytes>)
    requires up.IsUpper() && Family(up) != []
    ensures !up.IsInfinite()
    ensures InFamily(Family(up), up.value) || (up.IsExclusive() && up.value == Family(up) + [SEMICOLON])
  {
    var s := up.value;
    var sep := Find(s, COLON);
    if sep < |s| {
      assert s[..sep] + [COLON] == s[..sep + 1];
    } else {
      assert s == s[..|s| - 1] + [s[|s| - 1]];
    }
  }

  /** An interval whose two end points give the same family holds only columns of that family. */
  lemma {:induction false} IntervalInFamily(lo: Point<bytes>, up: Point<bytes>, v: bytes)
    requires lo.IsLower() && up.IsUpper() && Family(lo) != [] && Family(up) == Family(lo)
    requires Within(StrLess, Interval(lo, up), v)
    ensures InFamily(Family(lo), v)
  {
    hide Family, InFamily, StrLess;
    LowerInFamily(lo);
    UpperInFamily(up);
    StrAsymmetric(lo.value, v);
    StrAsymmetric(v, up.value);
    StrTotal(lo.value, v);
    StrTotal(v, up.value);
    StrIrreflexive(v);
    FamilyConvex(Family(lo), lo.value, v, up.value);
  }

  lemma {:induction false} StrAsymmetric(a: bytes, b: bytes)
    ensures !(StrLess(a, b) && StrLess(b, a))
  {
    if StrLess(a, b) && StrLess(b, a) {
      StrTransitive(a, b, a);
      StrIrreflexive(a);
    }
  }

  // ------------------------------------------------------------ which intervals name a family

  /** The values between two bounds. */
  ghost predicate Holds(lo: Point<bytes>, up: Point<bytes>, v: bytes) { Above(StrLess, lo, v) && Below(StrLess, up, v) }

  ghost predicate HoldsSome(lo: Point<bytes>, up: Point<bytes>) { exists v :: Holds(lo, up, v) }

  /** The bound behind the last string of family `f`. */
  function AfterFamily(f: bytes): Point<bytes> { Point(f + [SEMICOLON], ExclusiveUpper) }

  /** All columns between the bounds are of family `f`, and the upper bound is not one that the code cannot read. */
  ghost predicate OneFamily(lo: Point<bytes>, up: Point<bytes>, f: bytes) {
    && f != [] && COLON !in f
    && (forall v :: Holds(lo, up, v) ==> InFamily(f, v))
    && (SEMICOLON in f ==> up != AfterFamily(f))
  }

  lemma {:induction false} HoldsIsWithin(lo: Point<bytes>, up: Point<bytes>, v: bytes)
    requires lo.IsLower() && up.IsUpper()
    ensures Holds(lo, up, v) <==> Within(StrLess, Interval(lo, up), v)
  {
    StrOrder();
    hide StrLess;
    WithinMeans(StrLess, lo, up, v);
  }

  /** The code recognises the family of every interval that is confined to one, except by an upper bound behind a
      family with a semicolon in its name. */
  lemma {:induction false} NamesExactly(lo: Point<bytes>, up: Point<bytes>, f: bytes)
    requires lo.IsLower() && up.IsUpper() && HoldsSome(lo, up)
    ensures OneFamily(lo, up, f) <==> f != [] && Family(lo) == f && Family(up) == f
  {
    hide Family, Holds, InFamily;
    if OneFamily(lo, up, f) {
      var v :| Holds(lo, up, v);
      LowerNamed(lo, up, f, v);
      UpperNamed(lo, up, f, v);
    } else if f != [] && Family(lo) == f && Family(up) == f {
      LowerInFamily(lo);
      forall v | Holds(lo, up, v) ensures InFamily(f, v) {
        HoldsIsWithin(lo, up, v);
        IntervalInFamily(lo, up, v);
      }
      AfterNamed(f);
    }
  }

  /** The least string above another one. */
  lemma {:induction false} NextString(s: bytes, v: bytes)
    requires StrLess(s, v)
    ensures StrLess(s, s + [0]) && !StrLess(v, s + [0])
  {
    if s == [] {
      assert [] + [0] == [0];
      assert !StrLess(v[1..], []);
    } else {
      assert (s + [0])[1..] == s[1..] + [0];
      if s[0] == v[0] { NextString(s[1..], v[1..]); } else { NextAbove(s); }
    }
  }

  lemma {:induction false} NextAbove(s: bytes)
    ensures StrLess(s, s + [0])
  {
    if s != [] {
      assert (s + [0])[1..] == s[1..] + [0];
      NextAbove(s[1..]);
    }
  }

  lemma {:induction false} NextInFamily(f: bytes, s: bytes)
    requires InFamily(f, s + [0])
    ensures InFamily(f, s)
  {
    var p := Prefix(f);
    assert p[|p| - 1] == COLON && p[|p| - 1] == (s + [0])[|p| - 1];
    assert (s + [0])[..|p|] == s[..|p|];
  }

  lemma {:induction false} LowerNamed(lo: Point<bytes>, up: Point<bytes>, f: bytes, v: bytes)
    requires lo.IsLower() && up.IsUpper() && OneFamily(lo, up, f) && Holds(lo, up, v)
    ensures Family(lo) == f && InFamily(f, v) && !lo.IsInfinite() && InFamily(f, lo.value) && !StrLess(v, lo.value)
  {
    hide Family, StrLess, InFamily;
    StrIrreflexive(v);
    if lo.IsInfinite() {
      EmptyIsLeast(v);
      BelowToo(up, [], v);
      NoFamilyOfEmpty(f);
    } else if lo.kind.InclusiveLower? {
      StrAsymmetric(lo.value, v);
      BelowToo(up, lo.value, v);
      FamilyOfLower(lo, f);
    } else {
      StrAsymmetric(lo.value, v);
      NextString(lo.value, v);
      BelowToo(up, lo.value + [0], v);
      NextInFamily(f, lo.value);
      FamilyOfLower(lo, f);
    }
  }

  lemma {:induction false} EmptyIsLeast(v: bytes)
    ensures !StrLess(v, [])
  {
  }

  lemma {:induction false} NoFamilyOfEmpty(f: bytes)
    ensures !InFamily(f, [])
  {
  }

  /** What is not above a value held lies below the upper bound too. */
  lemma {:induction false} BelowToo(up: Point<bytes>, u: bytes, v: bytes)
    requires Below(StrLess, up, v) && !StrLess(v, u)
    ensures Below(StrLess, up, u)
  {
    hide StrLess;
    StrTotal(u, v);
    if StrLess(u, v) && StrLess(v, up.value) { StrTransitive(u, v, up.value); }
  }

  lemma {:induction false} AboveToo(lo: Point<bytes>, u: bytes, v: bytes)
    requires Above(StrLess, lo, v) && !StrLess(u, v)
    ensures Above(StrLess, lo, u)
  {
    hide StrLess;
    StrTotal(u, v);
    if StrLess(lo.value, v) && StrLess(v, u) { StrTransitive(lo.value, v, u); }
  }

  lemma {:induction false} UpperNamed(lo: Point<bytes>, up: Point<bytes>, f: bytes, v: bytes)
    requires lo.IsLower() && up.IsUpper() && OneFamily(lo, up, f) && Holds(lo, up, v) && InFamily(f, v)
    ensures Family(up) == f
  {
    hide Family, StrLess, PrefixSuccessor;
    var p, after, u := Prefix(f), f + [SEMICOLON], up.value;
    PrefixNext(f);
    PrefixBounds(p, v);
    PrefixBounds(p, u);
    AfterIsOutside(lo, up, f, v);
    StrTotal(u, after);
    if up.kind.InclusiveUpper? {
      StrAsymmetric(v, u);
      StrIrreflexive(v);
      AboveToo(lo, u, v);
      assert Holds(lo, up, u);
      FamilyOfUpper(up, f);
    } else if u == after {
      AfterNamed(f);
    } else {
      NotBelow(v, u, p);
      FamilyOfUpper(up, f);
    }
  }

  lemma {:induction false} NotBelow(v: bytes, u: bytes, p: bytes)
    requires StrLess(v, u) && !StrLess(v, p)
    ensures !StrLess(u, p) && u != p
  {
    if StrLess(u, p) { StrTransitive(v, u, p); }
  }

  lemma {:induction false} AfterIsOutside(lo: Point<bytes>, up: Point<bytes>, f: bytes, v: bytes)
    requires lo.IsLower() && up.IsUpper() && OneFamily(lo, up, f) && Holds(lo, up, v) && InFamily(f, v)
    ensures !Below(StrLess, up, f + [SEMICOLON])
  {
    hide StrLess, PrefixSuccessor;
    var after := f + [SEMICOLON];
    PrefixNext(f);
    PrefixBounds(Prefix(f), v);
    PrefixBounds(Prefix(f), after);
    StrIrreflexive(after);
    StrAsymmetric(v, after);
    AboveToo(lo, after, v);
    assert !InFamily(f, after);
    assert Below(StrLess, up, after) ==> Holds(lo, up, after);
  }

  lemma {:induction false} FamilyOfUpper(up: Point<bytes>, f: bytes)
    requires up.IsUpper() && !up.IsInfinite() && COLON !in f && InFamily(f, up.value)
    requires up.IsExclusive() ==> up.value != Prefix(f)
    ensures Family(up) == f
  {
    var s := up.value;
    assert s[..|f|] == Prefix(f)[..|f|] == f;
    assert s[|f|] == Prefix(f)[|f|];
    FindIs(s, COLON, |f|);
    if |f| == |s| - 1 { assert s == s[..|f|] + [s[|f|]]; }
  }

  /** The bound behind a family is read as that family, unless the name has a semicolon. */
  lemma {:induction false} AfterNamed(f: bytes)
    requires f != [] && COLON !in f
    ensures Family(AfterFamily(f)) == if SEMICOLON in f then [] else f
  {
    var s := f + [SEMICOLON];
    assert COLON !in s;
    var k := Find(s, SEMICOLON);
    if SEMICOLON in f {
      assert s[..|f|] == f;
    } else {
      assert s[..|f|] == f;
      FindIs(s, SEMICOLON, |f|);
    }
  }

  /** A string of a family without a colon in its name has that family. */
  lemma {:induction false} FamilyOfLower(lo: Point<bytes>, f: bytes)
    requires lo.IsLower() && !lo.IsInfinite() && COLON !in f && InFamily(f, lo.value)
    ensures Family(lo) == f
  {
    var s := lo.value;
    assert s[..|f|] == Prefix(f)[..|f|] == f;
    assert s[|f|] == Prefix(f)[|f|];
    FindIs(s, COLON, |f|);
  }

  /** Three lower bounds in order: if the outer two share a family, the middle one has it too. */
  lemma {:induction false} FamilyBetween(a: Point<bytes>, b: Point<bytes>, c: Point<bytes>)
    requires a.IsLower() && b.IsLower() && c.IsLower() && Less(StrLess, a, b) && Less(StrLess, b, c)
    requires Family(a) != [] && Family(b) != [] && Family(c) == Family(a)
    ensures Family(b) == Family(a)
  {
    hide Family, InFamily, StrLess;
    LowerInFamily(a);
    LowerInFamily(b);
    LowerInFamily(c);
    StrAsymmetric(a.value, b.value);
    StrAsymmetric(b.value, c.value);
    FamilyConvex(Family(a), a.value, b.value, c.value);
    FamilyOfLower(b, Family(a));
  }

  /** The pairs of end points all name a family. */
  ghost predicate AllNamed(s: seq<Point<bytes>>) {
    forall i :: 0 <= i < |s| - 1 && i % 2 == 0 ==> NamedAt(s, i)
  }

  /** The interval from the end point at `i` names a family. */
  ghost predicate NamedAt(s: seq<Point<bytes>>, i: int)
    requires 0 <= i < |s| - 1
  {
    Family(s[i]) != [] && Family(s[i + 1]) == Family(s[i])
  }

  /** Every column of the predicate belongs to one of the families. */
  ghost predicate Confined(s: seq<Point<bytes>>, fams: seq<bytes>) {
    forall v :: Contains(StrLess, s, v) ==> exists k :: 0 <= k < |fams| && InFamily(fams[k], v)
  }

  /** Every family has an interval of the predicate in it. */
  ghost predicate Needed(s: seq<Point<bytes>>, fams: seq<bytes>) {
    forall k :: 0 <= k < |fams| ==> StartsIn(s, fams[k])
  }

  /** An interval starts inside the family. */
  ghost predicate StartsIn(s: seq<Point<bytes>>, f: bytes) {
    exists i :: 0 <= i < |s| && s[i].IsLower() && InFamily(f, s[i].value)
  }

  ghost predicate Distinct(fams: seq<bytes>) {
    forall j, k :: 0 <= j < k < |fams| ==> fams[j] != fams[k]
  }

  /** The loop's state before interval `i`: `src[k]` is where family `k` was first met. */
  ghost predicate Gathered(s: seq<Point<bytes>>, i: nat, src: seq<nat>, fams: seq<bytes>) {
    && i <= |s| && i % 2 == 0 && |src| == |fams|
    && (forall m :: 0 <= m < i - 1 && m % 2 == 0 ==>
          m < |s| - 1 && NamedAt(s, m) && Family(s[m]) in fams)
    && (forall k :: 0 <= k < |src| ==> src[k] < i && src[k] % 2 == 0 && fams[k] == Family(s[src[k]]))
    && (forall j, k :: 0 <= j < k < |src| ==> src[j] < src[k])
    && Distinct(fams)
  }

  lemma {:induction false} GatherSame(s: seq<Point<bytes>>, i: nat, src: seq<nat>, fams: seq<bytes>)
    requires Gathered(s, i, src, fams) && i + 1 < |s|
    requires NamedAt(s, i) && Family(s[i]) in fams
    ensures Gathered(s, i + 2, src, fams)
  {
    hide Family, Distinct;
  }

  /** A family different from the last one is different from all. */
  lemma {:induction false} NewFamily(s: seq<Point<bytes>>, i: nat, src: seq<nat>, fams: seq<bytes>)
    requires WellFormed(StrLess, s) && Gathered(s, i, src, fams) && i + 1 < |s| && Family(s[i]) != []
    requires fams == [] || fams[|fams| - 1] != Family(s[i])
    ensures Family(s[i]) !in fams
  {
    hide Family, Less, Minimal, Distinct;
    forall k | 0 <= k < |fams| ensures fams[k] != Family(s[i]) {
      var last := |fams| - 1;
      if fams[k] == Family(s[i]) {
        FamilyBetween(s[src[k]], s[src[last]], s[i]);
      }
    }
  }

  lemma {:induction false} GatherNew(s: seq<Point<bytes>>, i: nat, src: seq<nat>, fams: seq<bytes>)
    requires WellFormed(StrLess, s) && Gathered(s, i, src, fams) && i + 1 < |s|
    requires NamedAt(s, i)
    requires fams == [] || fams[|fams| - 1] != Family(s[i])
    ensures Gathered(s, i + 2, src + [i], fams + [Family(s[i])])
  {
    hide Family, Less, Sorted, Alternating, Minimal;
    var f := Family(s[i]);
    NewFamily(s, i, src, fams);
    var src', fams' := src + [i], fams + [f];
    assert Distinct(fams');
    assert forall m :: 0 <= m < i - 1 && m % 2 == 0 ==> Family(s[m]) in fams';
    assert fams'[|fams|] == f;
  }

  lemma {:induction false} GatherDone(s: seq<Point<bytes>>, src: seq<nat>, fams: seq<bytes>)
    requires WellFormed(StrLess, s) && Gathered(s, |s|, src, fams)
    ensures AllNamed(s) && Confined(s, fams) && Needed(s, fams) && Distinct(fams)
  {
    hide Family, InFamily, Contains, Less, Touch, Needed;
    forall v | Contains(StrLess, s, v) ensures exists k :: 0 <= k < |fams| && InFamily(fams[k], v) {
      var k := Covering(s, fams, v);
    }
    assert Confined(s, fams);
    EachIsNeeded(s, src, fams);
  }

  lemma {:induction false} EachIsNeeded(s: seq<Point<bytes>>, src: seq<nat>, fams: seq<bytes>)
    requires WellFormed(StrLess, s) && Gathered(s, |s|, src, fams)
    ensures Needed(s, fams)
  {
    hide Family, InFamily, Less, Touch, Sorted, Minimal, Distinct;
    forall k | 0 <= k < |fams| ensures StartsIn(s, fams[k]) {
      var i := src[k];
      assert i < |s| - 1 && Family(s[i]) != [];
      LowerInFamily(s[i]);
      assert s[i].IsLower() && InFamily(fams[k], s[i].value);
    }
  }

  lemma {:induction false} Covering(s: seq<Point<bytes>>, fams: seq<bytes>, v: bytes) returns (k: nat)
    requires WellFormed(StrLess, s) && AllNamed(s) && Contains(StrLess, s, v)
    requires forall m :: 0 <= m < |s| - 1 && m % 2 == 0 ==> Family(s[m]) in fams
    ensures k < |fams| && InFamily(fams[k], v)
  {
    hide Family, InFamily, Less, StrictOrder, Contains, Sorted, Minimal;
    StrOrder();
    ContainsMeansSomeInterval(StrLess, s, v);
    var i :| 0 <= i < |s| - 1 && i % 2 == 0 && Within(StrLess, Interval(s[i], s[i + 1]), v);
    assert NamedAt(s, i);
    IntervalInFamily(s[i], s[i + 1], v);
    k :| 0 <= k < |fams| && fams[k] == Family(s[i]);
  }

  /** No two intervals start in the same family. */
  ghost predicate Diverse(s: seq<Point<bytes>>) {
    forall j, k :: 0 <= j < k < |s| && j % 2 == 0 && k % 2 == 0 ==> Family(s[j]) != Family(s[k])
  }

  /** Then every interval before `i` is the one a family was first met in. */
  ghost predicate Every(s: seq<Point<bytes>>, i: nat, src: seq<nat>) {
    Diverse(s) ==> 2 * |src| == i && forall k :: 0 <= k < |src| ==> src[k] == 2 * k
  }

  lemma {:induction false} EverySame(s: seq<Point<bytes>>, i: nat, src: seq<nat>, fams: seq<bytes>)
    requires Gathered(s, i, src, fams) && i < |s| && Family(s[i]) in fams
    ensures !Diverse(s)
  {
    hide Family, Distinct;
    var k :| 0 <= k < |fams| && fams[k] == Family(s[i]);
    assert Family(s[src[k]]) == Family(s[i]);
  }

  /** The set of all columns of some families: the prefix intervals of their names. */
  ghost predicate AreFamilies(s: seq<Point<bytes>>, names: seq<bytes>) {
    && |s| == 2 * |names|
    && forall k :: 0 <= k < |names| ==>
         && names[k] != [] && COLON !in names[k]
         && Interval(s[2 * k], s[2 * k + 1]) == PrefixInterval(names[k] + [COLON])
  }

  lemma {:induction false} FamilyEnds(f: bytes)
    requires f != [] && COLON !in f
    ensures var x := PrefixInterval(f + [COLON]);
      Family(x.lo) == f && Family(x.up) == if SEMICOLON in f then [] else f
  {
    hide Family, PrefixSuccessor;
    PrefixNext(f);
    FamilyOfLower(PrefixInterval(f + [COLON]).lo, f);
    AfterNamed(f);
  }

  lemma {:induction false} FamiliesDiverse(s: seq<Point<bytes>>, names: seq<bytes>)
    requires WellFormed(StrLess, s) && AreFamilies(s, names)
    ensures Diverse(s)
    ensures forall k :: 0 <= k < |names| ==>
      Family(s[2 * k]) == names[k] && Family(s[2 * k + 1]) == if SEMICOLON in names[k] then [] else names[k]
  {
    hide Family, Less, StrLess, PrefixInterval, Touch;
    forall k | 0 <= k < |names|
      ensures Family(s[2 * k]) == names[k] && Family(s[2 * k + 1]) == if SEMICOLON in names[k] then [] else names[k]
    {
      FamilyEnds(names[k]);
    }
    forall j, k | 0 <= j < k < |s| && j % 2 == 0 && k % 2 == 0 ensures Family(s[j]) != Family(s[k]) {
      assert Less(StrLess, s[j], s[k]);
      assert Interval(s[j], s[j + 1]) == PrefixInterval(names[j / 2] + [COLON]);
      assert Interval(s[k], s[k + 1]) == PrefixInterval(names[k / 2] + [COLON]);
      if names[j / 2] == names[k / 2] { NotLessThanItself(s[k]); }
    }
  }

  lemma {:induction false} NotLessThanItself(p: Point<bytes>)
    requires p.IsLower()
    ensures !Less(StrLess, p, p)
  {
    StrIrreflexive(p.value);
  }

  lemma {:induction false} FamilyNamed(s: seq<Point<bytes>>, names: seq<bytes>, i: nat, k: nat)
    requires AreFamilies(s, names) && k < |names| && i == 2 * k
    ensures i + 1 < |s| && (NamedAt(s, i) <==> SEMICOLON !in names[k])
  {
    hide Family, PrefixInterval;
    FamilyEnds(names[k]);
    assert Interval(s[2 * k], s[2 * k + 1]) == PrefixInterval(names[k] + [COLON]);
  }

  lemma {:induction false} FamiliesCount(s: seq<Point<bytes>>, names: seq<bytes>)
    requires AreFamilies(s, names)
    ensures |s| == 2 * |names|
  {
  }

  lemma {:induction false} FamiliesNamed(s: seq<Point<bytes>>, names: seq<bytes>)
    requires AreFamilies(s, names)
    ensures AllNamed(s) <==> forall k :: 0 <= k < |names| ==> SEMICOLON !in names[k]
  {
    hide Family, AreFamilies, NamedAt;
    FamiliesCount(s, names);
    if forall k :: 0 <= k < |names| ==> SEMICOLON !in names[k] {
      forall i | 0 <= i < |s| - 1 && i % 2 == 0 ensures NamedAt(s, i) {
        FamilyNamed(s, names, i, i / 2);
      }
    } else {
      var k :| 0 <= k < |names| && SEMICOLON in names[k];
      FamilyNamed(s, names, 2 * k, k);
    }
  }

  /** What success means for such sets. */
  lemma {:induction false} FamiliesListed(s: seq<Point<bytes>>, names: seq<bytes>, src: seq<nat>, fams: seq<bytes>)
    requires WellFormed(StrLess, s) && AreFamilies(s, names)
    requires Gathered(s, |s|, src, fams) && Every(s, |s|, src)
    ensures fams == names
  {
    FamiliesDiverse(s, names);
    hide Family, Diverse, WellFormed, AreFamilies, Distinct;
    assert |s| == 2 * |names|;
    forall k | 0 <= k < |names| ensures fams[k] == names[k] { assert src[k] == 2 * k; }
  }

  /** Every interval holds some column. */
  ghost predicate NoneEmpty(s: seq<Point<bytes>>) {
    forall i :: 0 <= i < |s| - 1 && i % 2 == 0 ==> SomeAt(s, i)
  }

  ghost predicate SomeAt(s: seq<Point<bytes>>, i: int)
    requires 0 <= i < |s| - 1
  {
    HoldsSome(s[i], s[i + 1])
  }

  /** Every interval is confined to one family. */
  ghost predicate EachInOne(s: seq<Point<bytes>>) {
    forall i :: 0 <= i < |s| - 1 && i % 2 == 0 ==> OneAt(s, i)
  }

  ghost predicate OneAt(s: seq<Point<bytes>>, i: int)
    requires 0 <= i < |s| - 1
  {
    InOne(s[i], s[i + 1])
  }

  ghost predicate InOne(lo: Point<bytes>, up: Point<bytes>) { exists f :: OneFamily(lo, up, f) }

  lemma {:induction false} NamedMeans(s: seq<Point<bytes>>)
    requires WellFormed(StrLess, s) && NoneEmpty(s)
    ensures AllNamed(s) <==> EachInOne(s)
  {
    forall i | 0 <= i < |s| - 1 && i % 2 == 0 ensures NamedAt(s, i) <==> OneAt(s, i) {
      assert SomeAt(s, i);
      InOneNamed(s[i], s[i + 1]);
    }
    hide NamedAt, OneAt, WellFormed;
  }

  lemma {:induction false} InOneNamed(lo: Point<bytes>, up: Point<bytes>)
    requires lo.IsLower() && up.IsUpper() && HoldsSome(lo, up)
    ensures (Family(lo) != [] && Family(up) == Family(lo)) <==> InOne(lo, up)
  {
    hide Family, OneFamily, HoldsSome;
    NamesExactly(lo, up, Family(lo));
    if f :| OneFamily(lo, up, f) { NamesExactly(lo, up, f); }
  }

  /** getColumnFamilies. It succeeds exactly when every interval names a family; then every column
      of the predicate belongs to a returned family, each family is needed, and no two are equal
      although only neighbours are compared. When no interval is empty of columns, an interval names a family
      exactly if all its columns are of it and its upper bound can be read; of the prefix intervals
      of whole families, in any number, it gives the families, unless a name has a semicolon in it. */
  method GetColumnFamilies(columns: Option<seq<Point<bytes>>>) returns (ok: bool, fams: seq<bytes>)
    requires columns.Some? ==> WellFormed(StrLess, columns.value)
    ensures ok <==> columns.Some? && AllNamed(columns.value)
    ensures !ok ==> fams == []
    ensures ok ==> Confined(columns.value, fams) && Needed(columns.value, fams) && Distinct(fams)
    ensures columns.Some? && NoneEmpty(columns.value) ==> (ok <==> EachInOne(columns.value))
    ensures forall names :: columns.Some? && AreFamilies(columns.value, names) ==>
      (ok <==> forall k :: 0 <= k < |names| ==> SEMICOLON !in names[k]) && (ok ==> fams == names)
  {
    hide Family, Gathered, Confined, Needed, Distinct, Less, Touch, Sorted, Alternating, Minimal, NoneEmpty, EachInOne,
         AreFamilies, Diverse;
    if columns.None? { return false, []; }
    var s := columns.value;
    fams := [];
    ghost var src: seq<nat> := [];
    GatherStart(s);
    if NoneEmpty(s) { NamedMeans(s); }
    forall names | AreFamilies(s, names) ensures AllNamed(s) <==> forall k :: 0 <= k < |names| ==> SEMICOLON !in names[k] {
      FamiliesNamed(s, names);
    }
    var i := 0;
    while i < |s|
      invariant i <= |s| && i % 2 == 0
      invariant Gathered(s, i, src, fams) && Every(s, i, src)
    {
      var lower := Family(s[i]);
      assert NamedAt(s, i) <==> lower != [] && Family(s[i + 1]) == lower;
      if lower == [] { return false, []; }
      var upper := Family(s[i + 1]);
      if upper != lower { return false, []; }
      if fams == [] || fams[|fams| - 1] != upper {
        GatherNew(s, i, src, fams);
        fams, src := fams + [upper], src + [i];
      } else {
        GatherSame(s, i, src, fams);
        EverySame(s, i, src, fams);
      }
      i := i + 2;
    }
    GatherDone(s, src, fams);
    forall names | AreFamilies(s, names) ensures fams == names { FamiliesListed(s, names, src, fams); }
    ok := true;
  }

  lemma {:induction false} GatherStart(s: seq<Point<bytes>>)
    ensures Gathered(s, 0, [], [])
  {
  }
}
