/** warp::IntervalSet: a sorted vector of interval end points. */
module IntervalSet {

  // ------------------------------------------------------------ points

  /** Point types, in the order the source compares them at equal values. */
  datatype Kind =
    | InfiniteLower
    | ExclusiveUpper
    | InclusiveLower
    | Value
    | InclusiveUpper
    | ExclusiveLower
    | InfiniteUpper
  {
    function Order(): nat {
      match this
      case InfiniteLower => 0
      case ExclusiveUpper => 1
      case InclusiveLower => 2
      case Value => 3
      case InclusiveUpper => 4
      case ExclusiveLower => 5
      case InfiniteUpper => 6
    }
  }

  datatype Point<T> = Point(value: T, kind: Kind) {
    predicate IsLower() { kind.InfiniteLower? || kind.ExclusiveLower? || kind.InclusiveLower? }
    predicate IsUpper() { kind.InfiniteUpper? || kind.ExclusiveUpper? || kind.InclusiveUpper? }
    predicate IsInfinite() { kind.InfiniteLower? || kind.InfiniteUpper? }
    predicate IsExclusive() { kind.ExclusiveLower? || kind.ExclusiveUpper? }
    predicate IsInclusive() { kind.InclusiveLower? || kind.InclusiveUpper? }
  }

  datatype Interval<T> = Interval(lo: Point<T>, up: Point<T>)

  /** The value order is a strict total order. */
  ghost predicate StrictOrder<T(!new)>(lt: (T, T) -> bool) {
    && (forall a :: !lt(a, a))
    && (forall a, b, c :: lt(a, b) && lt(b, c) ==> lt(a, c))
    && (forall a, b :: a == b || lt(a, b) || lt(b, a))
  }

  /** IntervalPointOrder::isLess */
  predicate Less<T>(lt: (T, T) -> bool, a: Point<T>, b: Point<T>) {
    if a.IsInfinite() then
      a.IsLower() && (!b.IsInfinite() || b.IsUpper())
    else if b.IsInfinite() then b.IsUpper()
    else if lt(a.value, b.value) then true
    else if lt(b.value, a.value) then false
    else a.kind.Order() < b.kind.Order()
  }

  lemma {:induction false} LessTransitive<T(!new)>(lt: (T, T) -> bool, a: Point<T>, b: Point<T>, c: Point<T>)
    requires StrictOrder(lt)
    ensures Less(lt, a, b) && Less(lt, b, c) ==> Less(lt, a, c)
    ensures Less(lt, a, b) && !Less(lt, c, b) ==> Less(lt, a, c)
    ensures !Less(lt, b, a) && Less(lt, b, c) ==> Less(lt, a, c)
    ensures Less(lt, a, b) ==> !Less(lt, b, a)
  {
  }

  /** Points that neither precedes the other are the same point, up to the value of an infinite one. */
  lemma {:induction false} LessTotal<T(!new)>(lt: (T, T) -> bool, a: Point<T>, b: Point<T>)
    requires StrictOrder(lt) && !Less(lt, a, b) && !Less(lt, b, a)
    ensures a.kind == b.kind && (a.IsInfinite() || a == b)
  {
  }

  // ------------------------------------------------------------ sets

  /** An upper bound and the next lower bound with nothing between them. */
  predicate Touch<T>(lt: (T, T) -> bool, u: Point<T>, l: Point<T>) {
    !(u.IsExclusive() && l.IsExclusive()) && !lt(u.value, l.value)
  }

  ghost predicate Sorted<T>(lt: (T, T) -> bool, s: seq<Point<T>>) {
    forall i, j :: 0 <= i < j < |s| ==> Less(lt, s[i], s[j])
  }

  ghost predicate Alternating<T>(s: seq<Point<T>>) {
    forall i :: 0 <= i < |s| ==> if i % 2 == 0 then s[i].IsLower() else s[i].IsUpper()
  }

  ghost predicate Minimal<T>(lt: (T, T) -> bool, s: seq<Point<T>>) {
    forall i :: 0 < i < |s| ==> s[i - 1].IsUpper() ==> !Touch(lt, s[i - 1], s[i])
  }

  /** The class invariant: sorted, lower and upper bounds alternate in pairs, no meaningless division. */
  ghost predicate WellFormed<T>(lt: (T, T) -> bool, s: seq<Point<T>>) {
    |s| % 2 == 0 && Sorted(lt, s) && Alternating(s) && Minimal(lt, s)
  }

  /** std::lower_bound and std::upper_bound. */
  function LowerBound<T>(lt: (T, T) -> bool, s: seq<Point<T>>, x: Point<T>): (n: nat)
    ensures n <= |s|
  {
    if s == [] || !Less(lt, s[0], x) then 0 else 1 + LowerBound(lt, s[1..], x)
  }

  function UpperBound<T>(lt: (T, T) -> bool, s: seq<Point<T>>, x: Point<T>): (n: nat)
    ensures n <= |s|
  {
    if s == [] || Less(lt, x, s[0]) then 0 else 1 + UpperBound(lt, s[1..], x)
  }

  /** `n` splits `s` into what precedes `x` and what does not. */
  ghost predicate SplitsAt<T>(lt: (T, T) -> bool, s: seq<Point<T>>, x: Point<T>, n: nat) {
    && n <= |s|
    && (forall i :: 0 <= i < n ==> Less(lt, s[i], x))
    && (forall i :: n <= i < |s| ==> !Less(lt, s[i], x))
  }

  lemma {:induction false} LowerBoundSplits<T(!new)>(lt: (T, T) -> bool, s: seq<Point<T>>, x: Point<T>)
    requires StrictOrder(lt) && Sorted(lt, s)
    ensures SplitsAt(lt, s, x, LowerBound(lt, s, x))
  {
    hide StrictOrder, Less;
    if s == [] {
    } else if !Less(lt, s[0], x) {
      forall i | 0 <= i < |s| ensures !Less(lt, s[i], x) { LessTransitive(lt, s[0], s[i], x); }
    } else {
      LowerBoundSplits(lt, s[1..], x);
      var n := LowerBound(lt, s[1..], x);
      forall i | 0 <= i < n + 1 ensures Less(lt, s[i], x) { if i > 0 { assert s[i] == s[1..][i - 1]; } }
      forall i | n + 1 <= i < |s| ensures !Less(lt, s[i], x) { assert s[i] == s[1..][i - 1]; }
    }
  }

  lemma {:induction false} SplitIsLowerBound<T>(lt: (T, T) -> bool, s: seq<Point<T>>, x: Point<T>, n: nat)
    requires SplitsAt(lt, s, x, n)
    ensures LowerBound(lt, s, x) == n
  {
    hide Less;
    if n > 0 { SplitIsLowerBound(lt, s[1..], x, n - 1); }
  }

  lemma {:induction false} UpperBoundSplits<T(!new)>(lt: (T, T) -> bool, s: seq<Point<T>>, x: Point<T>)
    requires StrictOrder(lt) && Sorted(lt, s)
    ensures var n := UpperBound(lt, s, x);
      && (forall i :: 0 <= i < n ==> !Less(lt, x, s[i]))
      && (forall i :: n <= i < |s| ==> Less(lt, x, s[i]))
  {
    hide StrictOrder, Less;
    if s == [] {
    } else if Less(lt, x, s[0]) {
      forall i | 0 <= i < |s| ensures Less(lt, x, s[i]) { LessTransitive(lt, x, s[0], s[i]); }
    } else {
      UpperBoundSplits(lt, s[1..], x);
      var n := UpperBound(lt, s[1..], x);
      forall i | 0 <= i < n + 1 ensures !Less(lt, x, s[i]) { if i > 0 { assert s[i] == s[1..][i - 1]; } }
      forall i | n + 1 <= i < |s| ensures Less(lt, x, s[i]) { assert s[i] == s[1..][i - 1]; }
    }
  }

  /** IntervalSet::contains */
  predicate Contains<T>(lt: (T, T) -> bool, s: seq<Point<T>>, v: T) {
    var n := LowerBound(lt, s, Point(v, Value));
    n < |s| && s[n].IsUpper()
  }

  /** Interval::contains */
  predicate Within<T>(lt: (T, T) -> bool, x: Interval<T>, v: T) {
    Less(lt, x.lo, Point(v, Value)) && Less(lt, Point(v, Value), x.up)
  }

  predicate NonEmpty<T>(lt: (T, T) -> bool, x: Interval<T>) {
    Less(lt, x.lo, x.up)
  }

  /** In a well-formed set a value is contained exactly when an odd number of end points precede it. */
  lemma {:induction false} ContainsIsOdd<T>(lt: (T, T) -> bool, s: seq<Point<T>>, v: T, n: nat)
    requires |s| % 2 == 0 && Alternating(s) && SplitsAt(lt, s, Point(v, Value), n)
    ensures Contains(lt, s, v) <==> n % 2 == 1
  {
    SplitIsLowerBound(lt, s, Point(v, Value), n);
  }

  /** ... that is, exactly when some interval of the set holds it. */
  lemma {:induction false} ContainsMeansSomeInterval<T(!new)>(lt: (T, T) -> bool, s: seq<Point<T>>, v: T)
    requires StrictOrder(lt) && WellFormed(lt, s)
    ensures Contains(lt, s, v) <==>
            exists i :: 0 <= i < |s| - 1 && i % 2 == 0 && Within(lt, Interval(s[i], s[i + 1]), v)
  {
    hide StrictOrder, Less, LowerBound, Contains;
    var x := Point(v, Value);
    LowerBoundSplits(lt, s, x);
    var n := LowerBound(lt, s, x);
    ContainsIsOdd(lt, s, v, n);
    if n % 2 == 1 {
      ValueIsNoBound(lt, v, s[n]);
      assert Within(lt, Interval(s[n - 1], s[n - 1 + 1]), v);
    }
    if i :| 0 <= i < |s| - 1 && i % 2 == 0 && Within(lt, Interval(s[i], s[i + 1]), v) {
      ValueIsNoBound(lt, v, s[i + 1]);
    }
  }

  /** What a lower and an upper bound say of a value. */
  predicate Above<T(==)>(lt: (T, T) -> bool, lo: Point<T>, v: T) {
    lo.kind.InfiniteLower? || lt(lo.value, v) || (lo.kind.InclusiveLower? && lo.value == v)
  }

  predicate Below<T(==)>(lt: (T, T) -> bool, up: Point<T>, v: T) {
    up.kind.InfiniteUpper? || lt(v, up.value) || (up.kind.InclusiveUpper? && up.value == v)
  }

  /** The order of points makes an inclusive bound hold its value and an exclusive one not. */
  lemma {:induction false} WithinMeans<T(!new)>(lt: (T, T) -> bool, lo: Point<T>, up: Point<T>, v: T)
    requires StrictOrder(lt) && lo.IsLower() && up.IsUpper()
    ensures Within(lt, Interval(lo, up), v) <==> Above(lt, lo, v) && Below(lt, up, v)
  {
  }

  /** Some pair of end points has the value between them. */
  ghost predicate InSome<T>(lt: (T, T) -> bool, s: seq<Point<T>>, v: T) {
    exists i :: 0 <= i < |s| - 1 && i % 2 == 0 && Above(lt, s[i], v) && Below(lt, s[i + 1], v)
  }

  /** Membership by one binary search, in terms of the value order alone. */
  lemma {:induction false} ContainsMeans<T(!new)>(lt: (T, T) -> bool, s: seq<Point<T>>, v: T)
    requires StrictOrder(lt) && WellFormed(lt, s)
    ensures Contains(lt, s, v) <==> InSome(lt, s, v)
  {
    ContainsMeansSomeInterval(lt, s, v);
    hide StrictOrder, Contains, Within, Above, Below, Sorted, Minimal;
    forall i | 0 <= i < |s| - 1 && i % 2 == 0
      ensures Within(lt, Interval(s[i], s[i + 1]), v) <==> Above(lt, s[i], v) && Below(lt, s[i + 1], v)
    {
      WithinMeans(lt, s[i], s[i + 1], v);
    }
  }

  /** No meaningless division: between two intervals of a set there is a value that it does not hold, or the
      end points are apart. */
  lemma {:induction false} GapIsReal<T(!new)>(lt: (T, T) -> bool, s: seq<Point<T>>, i: nat)
    requires StrictOrder(lt) && WellFormed(lt, s) && i % 2 == 1 && i + 1 < |s|
    ensures lt(s[i].value, s[i + 1].value) || (s[i].value == s[i + 1].value && !Contains(lt, s, s[i].value))
  {
    var u, l := s[i], s[i + 1];
    assert Less(lt, u, l) && u.IsUpper() && l.IsLower() && !Touch(lt, u, l);
    assert i > 0 && Less(lt, s[i - 1], u) && Less(lt, l, s[i + 2]);
    if !lt(u.value, l.value) {
      var v := Point(u.value, Value);
      ExclusiveAround(lt, u, l);
      hide StrictOrder, Less, Minimal, Touch;
      forall k | 0 <= k < i + 1 ensures Less(lt, s[k], v) { LessTransitive(lt, s[k], u, v); }
      forall k | i + 1 <= k < |s| ensures !Less(lt, s[k], v) {
        LessTransitive(lt, v, l, s[k]);
        LessTransitive(lt, v, s[k], v);
      }
      ContainsIsOdd(lt, s, u.value, i + 1);
    }
  }

  lemma {:induction false} ExclusiveAround<T(!new)>(lt: (T, T) -> bool, u: Point<T>, l: Point<T>)
    requires StrictOrder(lt) && u.IsUpper() && l.IsLower() && !u.IsInfinite() && !l.IsInfinite()
    requires Less(lt, u, l) && !Touch(lt, u, l) && !lt(u.value, l.value)
    ensures u.value == l.value && Less(lt, u, Point(u.value, Value)) && Less(lt, Point(u.value, Value), l)
  {
  }

  /** A value lies strictly on one side of every bound. */
  lemma {:induction false} ValueIsNoBound<T(!new)>(lt: (T, T) -> bool, v: T, b: Point<T>)
    requires StrictOrder(lt) && (b.IsLower() || b.IsUpper())
    ensures Less(lt, Point(v, Value), b) <==> !Less(lt, b, Point(v, Value))
  {
  }

  // ------------------------------------------------------------ add

  /** pickLowerBound, for the bound at `it`. */
  function PickLower<T>(lt: (T, T) -> bool, s: seq<Point<T>>, it: nat): (r: int)
    requires it < |s|
  {
    if it == 0 then it
    else if s[it - 1].IsLower() then it - 1
    else if s[it].IsExclusive() && s[it - 1].IsExclusive() then it
    else if !lt(s[it - 1].value, s[it].value) then it - 2
    else it
  }

  /** pickUpperBound, for the bound at `it`. */
  function PickUpper<T>(lt: (T, T) -> bool, s: seq<Point<T>>, it: nat): (r: nat)
    requires it < |s|
    ensures it <= r <= it + 2
  {
    if it + 1 == |s| then it
    else if s[it + 1].IsUpper() then it + 1
    else if s[it].IsExclusive() && s[it + 1].IsExclusive() then it
    else if !lt(s[it].value, s[it + 1].value) then it + 2
    else it
  }

  function Insert<T>(s: seq<T>, at: nat, x: T): (r: seq<T>)
    requires at <= |s|
    ensures |r| == |s| + 1
  {
    s[..at] + [x] + s[at..]
  }

  /** The part of the result up to and including the merged interval's lower bound. */
  function Left<T>(lt: (T, T) -> bool, s: seq<Point<T>>, lo: Point<T>): (r: seq<Point<T>>) {
    var i := LowerBound(lt, s, lo);
    if i < |s| && !Less(lt, lo, s[i]) then s[..i + 1]
    else if i > 0 && s[i - 1].IsLower() then s[..i]
    else if i > 0 && Touch(lt, s[i - 1], lo) then s[..i - 1]
    else s[..i] + [lo]
  }

  /** The part from the merged interval's upper bound on. */
  function Right<T>(lt: (T, T) -> bool, s: seq<Point<T>>, up: Point<T>): (r: seq<Point<T>>) {
    var w := UpperBound(lt, s, up);
    if Duplicates(lt, s, up) then s[w..]
    else if w < |s| && s[w].IsUpper() then s[w..]
    else if w < |s| && Touch(lt, up, s[w]) then s[w + 1..]
    else [up] + s[w..]
  }

  /** `up` is already an end point, and not the last one. */
  predicate Duplicates<T>(lt: (T, T) -> bool, s: seq<Point<T>>, up: Point<T>) {
    var w := UpperBound(lt, s, up);
    0 < w < |s| && !Less(lt, s[w - 1], up)
  }

  /** The vector after the lower bound went in. */
  function WithLower<T>(lt: (T, T) -> bool, s: seq<Point<T>>, lo: Point<T>): (r: seq<Point<T>>) {
    var i := LowerBound(lt, s, lo);
    if i == |s| || Less(lt, lo, s[i]) then Insert(s, i, lo) else s
  }

  /** Where the merged interval starts in that vector. */
  function LowerIndex<T>(lt: (T, T) -> bool, s: seq<Point<T>>, lo: Point<T>): (r: int) {
    var i := LowerBound(lt, s, lo);
    if i == |s| || Less(lt, lo, s[i]) then PickLower(lt, Insert(s, i, lo), i) else i
  }

  lemma {:induction false} LeftDone<T(!new)>(lt: (T, T) -> bool, s: seq<Point<T>>, lo: Point<T>)
    requires WellFormed(lt, s) && lo.IsLower()
    ensures 0 <= LowerIndex(lt, s, lo) <= LowerBound(lt, s, lo) < |WithLower(lt, s, lo)|
    ensures WithLower(lt, s, lo)[..LowerIndex(lt, s, lo) + 1] == Left(lt, s, lo)
  {
    hide Less, LowerBound, Sorted, Minimal;
    var i := LowerBound(lt, s, lo);
    if i > 0 { assert s[i - 1].IsLower() || (s[i - 1].IsUpper() && i >= 2); }
    if i == |s| || Less(lt, lo, s[i]) {
      var s1 := Insert(s, i, lo);
      assert s1[i] == lo && s1[..i] == s[..i] && s1[..i + 1] == s[..i] + [lo];
      if i > 0 { assert s1[i - 1] == s[i - 1] && s1[..i - 1] == s[..i - 1]; }
      assert PickLower(lt, s1, i) == i || PickLower(lt, s1, i) == i - 1 || PickLower(lt, s1, i) == i - 2;
    }
  }

  /** The upper bound's insertion point sees the same suffix as in the original vector. */
  lemma {:induction false} SuffixKept<T(!new)>(lt: (T, T) -> bool, s: seq<Point<T>>, lo: Point<T>, up: Point<T>)
    requires StrictOrder(lt) && Sorted(lt, s) && Less(lt, lo, up)
    ensures var s1, w := WithLower(lt, s, lo), UpperBound(lt, s, up);
      var u := UpperBound(lt, s1, up);
      && LowerBound(lt, s, lo) < u
      && s1[u..] == s[w..]
      && (u < |s1| && !Less(lt, s1[u - 1], up) <==> Duplicates(lt, s, up))
  {
    hide StrictOrder, Less, LowerBound, UpperBound, Sorted;
    var s1 := WithLower(lt, s, lo);
    var i, w := LowerBound(lt, s, lo), UpperBound(lt, s, up);
    LowerBoundSplits(lt, s, lo);
    UpperBoundSplits(lt, s, up);
    forall k | 0 <= k < i ensures !Less(lt, up, s[k]) { LessTransitive(lt, s[k], lo, up); LessTransitive(lt, s[k], up, up); }
    assert w < |s| ==> Less(lt, up, s[w]);
    assert i <= w;
    if i == |s| || Less(lt, lo, s[i]) {
      LessTransitive(lt, lo, up, up);
      UpperBoundOf(lt, s1, up, w + 1) by {
        forall k | 0 <= k < |s1| ensures if k < w + 1 then !Less(lt, up, s1[k]) else Less(lt, up, s1[k]) {
          assert s1[k] == if k < i then s[k] else if k == i then lo else s[k - 1];
        }
      }
      assert s1[w + 1..] == s[w..];
      assert s1[w] == if w == i then lo else s[w - 1];
      if w == i && 0 < w < |s| { LessTransitive(lt, s[w - 1], lo, up); }
    } else {
      LessTransitive(lt, s[i], lo, up);
      LessTransitive(lt, up, s[i], lo);
      LessTransitive(lt, lo, up, s[i]);
      assert i < w;
    }
  }

  lemma {:induction false} UpperBoundOf<T>(lt: (T, T) -> bool, s: seq<Point<T>>, x: Point<T>, n: nat)
    requires n <= |s|
    requires forall k :: 0 <= k < |s| ==> if k < n then !Less(lt, x, s[k]) else Less(lt, x, s[k])
    ensures UpperBound(lt, s, x) == n
  {
    hide Less;
    if n > 0 { UpperBoundOf(lt, s[1..], x, n - 1); }
  }

  class IntervalSet<T(!new)> {
    const lt: (T, T) -> bool
    var points: seq<Point<T>>

    constructor (lt: (T, T) -> bool)
      ensures this.lt == lt && points == []
    {
      this.lt, points := lt, [];
    }

    /** Insert the lower bound unless it is there, and move to the least constrained one. */
    method InsertLower(lo: Point<T>) returns (lower: int)
      modifies this
      ensures points == WithLower(lt, old(points), lo) && lower == LowerIndex(lt, old(points), lo)
    {
      lower := LowerBound(lt, points, lo);
      if lower == |points| || Less(lt, lo, points[lower]) {
        points := Insert(points, lower, lo);
        lower := PickLower(lt, points, lower);
      }
    }

    /** The same for the upper bound. */
    method InsertUpper(up: Point<T>) returns (upper: nat)
      requires UpperBound(lt, points, up) > 0
      modifies this
      ensures points == WithUpper(lt, old(points), up) && upper == UpperIndex(lt, old(points), up)
    {
      upper := UpperBound(lt, points, up);
      if upper == |points| || Less(lt, points[upper - 1], up) {
        points := Insert(points, upper, up);
        upper := PickUpper(lt, points, upper);
      }
    }

    /** IntervalSet::add */
    method Add(x: Interval<T>)
      requires StrictOrder(lt) && WellFormed(lt, points) && x.lo.IsLower() && x.up.IsUpper()
      modifies this
      ensures points == if NonEmpty(lt, x) then Added(lt, old(points), x) else old(points)
    {
      hide StrictOrder, Less, LowerBound, UpperBound, WithLower, LowerIndex, WithUpper, UpperIndex, Left, Right;
      ghost var s := points;
      if !Less(lt, x.lo, x.up) { return; }
      LeftDone(lt, s, x.lo);
      SuffixKept(lt, s, x.lo, x.up);
      var lower := InsertLower(x.lo);
      ghost var s1 := points;
      RightDone(lt, s, x.up, s1);
      var upper := InsertUpper(x.up);
      assert points[..lower + 1] == s1[..lower + 1];
      points := points[..lower + 1] + points[upper..];
    }
  }

  /** The vector after the upper bound went in, and where the merged interval ends in it. */
  function WithUpper<T>(lt: (T, T) -> bool, s: seq<Point<T>>, up: Point<T>): (r: seq<Point<T>>)
    requires UpperBound(lt, s, up) > 0
  {
    var u := UpperBound(lt, s, up);
    if u == |s| || Less(lt, s[u - 1], up) then Insert(s, u, up) else s
  }

  function UpperIndex<T>(lt: (T, T) -> bool, s: seq<Point<T>>, up: Point<T>): (r: nat)
    requires UpperBound(lt, s, up) > 0
  {
    var u := UpperBound(lt, s, up);
    if u == |s| || Less(lt, s[u - 1], up) then PickUpper(lt, Insert(s, u, up), u) else u
  }

  lemma {:induction false} RightDone<T(!new)>(lt: (T, T) -> bool, s: seq<Point<T>>, up: Point<T>, s1: seq<Point<T>>)
    requires WellFormed(lt, s) && up.IsUpper()
    requires var u := UpperBound(lt, s1, up);
      && u > 0 && s1[u..] == s[UpperBound(lt, s, up)..]
      && (u < |s1| && !Less(lt, s1[u - 1], up) <==> Duplicates(lt, s, up))
    ensures var s2, upper := WithUpper(lt, s1, up), UpperIndex(lt, s1, up);
      && upper <= |s2| && s2[upper..] == Right(lt, s, up)
      && |s1| <= |s2| && UpperBound(lt, s1, up) <= |s2|
      && s2[..UpperBound(lt, s1, up)] == s1[..UpperBound(lt, s1, up)]
  {
    hide Less, UpperBound, Sorted, Minimal;
    var w, u := UpperBound(lt, s, up), UpperBound(lt, s1, up);
    if !Duplicates(lt, s, up) {
      var s2 := Insert(s1, u, up);
      assert s2[u] == up && s2[u + 1..] == s1[u..] && s2[u..] == [up] + s[w..];
      if w < |s| {
        assert s2[u + 1] == s2[u + 1..][0] == s[w];
        assert s[w].IsUpper() || (s[w].IsLower() && w + 1 < |s|);
        assert s2[u + 2..] == s[w + 1..];
      }
    }
  }

  // ------------------------------------------------------------ what add does

  /** The result of a non-empty update. */
  function Added<T>(lt: (T, T) -> bool, s: seq<Point<T>>, x: Interval<T>): (r: seq<Point<T>>) {
    Left(lt, s, x.lo) + Right(lt, s, x.up)
  }

  /** The left part ends in a lower bound at or below `lo`, and up to `lo` holds what `s` held. */
  lemma {:induction false} LeftPart<T(!new)>(lt: (T, T) -> bool, s: seq<Point<T>>, lo: Point<T>)
    requires StrictOrder(lt) && WellFormed(lt, s) && lo.IsLower()
    ensures var l := Left(lt, s, lo);
      && |l| % 2 == 1 && Sorted(lt, l) && Alternating(l) && Minimal(lt, l)
      && (forall i :: 0 <= i < |l| ==> !Less(lt, lo, l[i]))
  {
    hide StrictOrder, LowerBound, Less;
    var i := LowerBound(lt, s, lo);
    var l := Left(lt, s, lo);
    LowerBoundSplits(lt, s, lo);
    forall k | 0 <= k < i ensures !Less(lt, lo, s[k]) { LessTransitive(lt, s[k], lo, lo); }
    LessTransitive(lt, lo, lo, lo);
    if i < |s| && !Less(lt, lo, s[i]) {
      LessTotal(lt, lo, s[i]);
    } else if i > 0 && s[i - 1].IsLower() {
    } else if i > 0 && Touch(lt, s[i - 1], lo) {
    } else {
      assert l == s[..i] + [lo];
      if i > 0 { assert s[i - 1].IsUpper(); }
    }
  }

  lemma {:induction false} RightPart<T(!new)>(lt: (T, T) -> bool, s: seq<Point<T>>, up: Point<T>)
    requires StrictOrder(lt) && WellFormed(lt, s) && up.IsUpper() && !Duplicates(lt, s, up)
    ensures var r := Right(lt, s, up);
      && |r| % 2 == 1 && Sorted(lt, r) && Minimal(lt, r)
      && (forall i :: 0 <= i < |r| ==> if i % 2 == 0 then r[i].IsUpper() else r[i].IsLower())
      && (forall i :: 0 <= i < |r| ==> !Less(lt, r[i], up))
  {
    RightShape(lt, s, up);
    RightOrder(lt, s, up);
  }

  lemma {:induction false} RightShape<T(!new)>(lt: (T, T) -> bool, s: seq<Point<T>>, up: Point<T>)
    requires WellFormed(lt, s) && up.IsUpper() && !Duplicates(lt, s, up)
    ensures var r := Right(lt, s, up);
      |r| % 2 == 1 && forall i :: 0 <= i < |r| ==> if i % 2 == 0 then r[i].IsUpper() else r[i].IsLower()
  {
    hide UpperBound, Less, Sorted, Minimal, Touch, Duplicates;
    var w := UpperBound(lt, s, up);
    assert w < |s| ==> (s[w].IsUpper() <==> w % 2 == 1);
  }

  lemma {:induction false} RightOrder<T(!new)>(lt: (T, T) -> bool, s: seq<Point<T>>, up: Point<T>)
    requires StrictOrder(lt) && WellFormed(lt, s) && up.IsUpper() && !Duplicates(lt, s, up)
    ensures var r := Right(lt, s, up);
      Sorted(lt, r) && Minimal(lt, r) && forall i :: 0 <= i < |r| ==> !Less(lt, r[i], up)
  {
    hide StrictOrder, UpperBound, Less, Duplicates, Touch;
    var w := UpperBound(lt, s, up);
    UpperBoundSplits(lt, s, up);
    forall k | w <= k < |s| ensures !Less(lt, s[k], up) { LessTransitive(lt, up, s[k], up); }
    LessTransitive(lt, up, up, up);
  }

  /** add keeps the class invariant exactly when the new upper bound is not already an end point
      before the last one: in that case the code erases the bound it meant to keep. */
  lemma {:induction false} AddWellFormed<T(!new)>(lt: (T, T) -> bool, s: seq<Point<T>>, x: Interval<T>)
    requires StrictOrder(lt) && WellFormed(lt, s) && x.lo.IsLower() && x.up.IsUpper() && NonEmpty(lt, x)
    ensures WellFormed(lt, Added(lt, s, x)) <==> !Duplicates(lt, s, x.up)
  {
    LeftPart(lt, s, x.lo);
    var l, r := Left(lt, s, x.lo), Right(lt, s, x.up);
    if Duplicates(lt, s, x.up) {
      DuplicateDropsBound(lt, s, x.up);
      hide StrictOrder, Left, Right, Sorted, Alternating, Minimal;
      assert |Added(lt, s, x)| == |l| + |r|;
    } else {
      RightPart(lt, s, x.up);
      hide StrictOrder, Left, Right, Less;
      forall i, j | 0 <= i < |l| && 0 <= j < |r| ensures Less(lt, l[i], r[j]) {
        LessTransitive(lt, l[i], x.lo, x.up);
        LessTransitive(lt, l[i], x.up, r[j]);
      }
      ConcatWellFormed(lt, l, r);
    }
  }

  lemma {:induction false} ConcatWellFormed<T>(lt: (T, T) -> bool, l: seq<Point<T>>, r: seq<Point<T>>)
    requires |l| % 2 == 1 && Sorted(lt, l) && Alternating(l) && Minimal(lt, l)
    requires |r| % 2 == 1 && Sorted(lt, r) && Minimal(lt, r)
    requires forall i :: 0 <= i < |r| ==> if i % 2 == 0 then r[i].IsUpper() else r[i].IsLower()
    requires forall i, j :: 0 <= i < |l| && 0 <= j < |r| ==> Less(lt, l[i], r[j])
    ensures WellFormed(lt, l + r)
  {
    hide Less, Touch, Sorted, Alternating, Minimal;
    ConcatSorted(lt, l, r);
    ConcatAlternates(l, r);
    ConcatMinimal(lt, l, r);
  }

  lemma {:induction false} ConcatSorted<T>(lt: (T, T) -> bool, l: seq<Point<T>>, r: seq<Point<T>>)
    requires Sorted(lt, l) && Sorted(lt, r) && forall i, j :: 0 <= i < |l| && 0 <= j < |r| ==> Less(lt, l[i], r[j])
    ensures Sorted(lt, l + r)
  {
    hide Less;
  }

  lemma {:induction false} ConcatAlternates<T>(l: seq<Point<T>>, r: seq<Point<T>>)
    requires |l| % 2 == 1 && Alternating(l)
    requires forall i :: 0 <= i < |r| ==> if i % 2 == 0 then r[i].IsUpper() else r[i].IsLower()
    ensures Alternating(l + r)
  {
    var s := l + r;
    forall i | 0 <= i < |s| ensures if i % 2 == 0 then s[i].IsLower() else s[i].IsUpper() {
      if i < |l| {
        assert s[i] == l[i];
      } else {
        assert s[i] == r[i - |l|];
        OddShift(i - |l|, |l|);
      }
    }
  }

  lemma {:induction false} OddShift(k: int, n: int)
    requires n % 2 == 1
    ensures (k + n) % 2 != k % 2
  {
  }

  lemma {:induction false} ConcatMinimal<T>(lt: (T, T) -> bool, l: seq<Point<T>>, r: seq<Point<T>>)
    requires |l| % 2 == 1 && Alternating(l) && Minimal(lt, l) && Minimal(lt, r)
    ensures Minimal(lt, l + r)
  {
    hide Touch;
    var s, n := l + r, |l|;
    assert s[n - 1].IsLower();
    hide Alternating;
    forall i | 0 < i < |s| && s[i - 1].IsUpper() ensures !Touch(lt, s[i - 1], s[i]) {
      if i > n { assert s[i] == r[i - n] && s[i - 1] == r[i - n - 1]; }
    }
  }

  lemma {:induction false} DuplicateDropsBound<T(!new)>(lt: (T, T) -> bool, s: seq<Point<T>>, up: Point<T>)
    requires StrictOrder(lt) && WellFormed(lt, s) && up.IsUpper() && Duplicates(lt, s, up)
    ensures |Right(lt, s, up)| % 2 == 0
  {
    hide StrictOrder, UpperBound, Less;
    var w := UpperBound(lt, s, up);
    UpperBoundSplits(lt, s, up);
    assert !Less(lt, up, s[w - 1]);
    LessTotal(lt, up, s[w - 1]);
    assert (w - 1) % 2 == 1;
  }

  /** No value lies between touching bounds. */
  lemma {:induction false} NothingBetween<T(!new)>(lt: (T, T) -> bool, u: Point<T>, l: Point<T>, v: T)
    requires StrictOrder(lt) && u.IsUpper() && l.IsLower() && Less(lt, u, l) && Touch(lt, u, l)
    ensures Less(lt, Point(v, Value), l) <==> Less(lt, Point(v, Value), u)
    ensures Less(lt, l, Point(v, Value)) <==> Less(lt, u, Point(v, Value))
  {
  }

  /** Below the new interval the left part splits where `s` does. */
  lemma {:induction false} LeftBelow<T(!new)>(lt: (T, T) -> bool, s: seq<Point<T>>, lo: Point<T>, v: T, c: nat)
    requires StrictOrder(lt) && WellFormed(lt, s) && lo.IsLower()
    requires Less(lt, Point(v, Value), lo) && SplitsAt(lt, s, Point(v, Value), c)
    ensures SplitsAt(lt, Left(lt, s, lo), Point(v, Value), c)
  {
    hide StrictOrder, LowerBound, Less, Touch;
    var x := Point(v, Value);
    var i := LowerBound(lt, s, lo);
    LowerBoundSplits(lt, s, lo);
    LessTransitive(lt, x, lo, x);
    forall k | 0 <= k < c ensures Less(lt, s[k], lo) { LessTransitive(lt, s[k], x, lo); }
    assert c < |s| ==> !Less(lt, s[c], x);
    assert i < |s| ==> !Less(lt, s[i], lo);
    assert c <= i;
    if i > 0 && s[i - 1].IsUpper() && Touch(lt, s[i - 1], lo) {
      NothingBetween(lt, s[i - 1], lo, v);
      LessTransitive(lt, x, s[i - 1], x);
      assert c <= i - 1;
    }
  }

  /** Bounds up to `up` lie below what lies above `up`, and a bound below it is counted by the split. */
  lemma {:induction false} BoundsBelow<T(!new)>(lt: (T, T) -> bool, s: seq<Point<T>>, up: Point<T>, x: Point<T>, c: nat)
    requires StrictOrder(lt) && Sorted(lt, s) && Less(lt, up, x) && SplitsAt(lt, s, x, c)
    ensures UpperBound(lt, s, up) <= c <= |s| && SplitsAt(lt, [up], x, 1)
    ensures forall k :: 0 <= k < |s| && Less(lt, s[k], x) ==> k < c
    ensures forall k :: UpperBound(lt, s, up) <= k < |s| ==> Less(lt, up, s[k])
  {
    hide StrictOrder, UpperBound, Less;
    var w := UpperBound(lt, s, up);
    UpperBoundSplits(lt, s, up);
    hide Sorted;
    forall k | 0 <= k < w ensures Less(lt, s[k], x) { LessTransitive(lt, s[k], up, x); }
    assert c < |s| ==> !Less(lt, s[c], x);
  }

  /** Above the new interval the right part splits with the parity that `s` has. */
  lemma {:induction false} RightAbove<T(!new)>(lt: (T, T) -> bool, s: seq<Point<T>>, up: Point<T>, v: T, c: nat)
    returns (d: nat)
    requires StrictOrder(lt) && WellFormed(lt, s) && up.IsUpper() && !Duplicates(lt, s, up)
    requires Less(lt, up, Point(v, Value)) && SplitsAt(lt, s, Point(v, Value), c)
    ensures SplitsAt(lt, Right(lt, s, up), Point(v, Value), d) && d % 2 != c % 2
  {
    hide StrictOrder, UpperBound, Less, Touch, Minimal, Duplicates, Sorted, SplitsAt;
    var x := Point(v, Value);
    var w := UpperBound(lt, s, up);
    BoundsBelow(lt, s, up, x, c);
    assert w < |s| ==> (s[w].IsUpper() <==> w % 2 == 1);
    hide Alternating;
    SplitsTail(lt, s, x, c, w);
    if w < |s| && s[w].IsUpper() {
      d := c - w;
      OddShift(d, w);
    } else if w < |s| && Touch(lt, up, s[w]) {
      NothingBetween(lt, up, s[w], v);
      assert w < c;
      SplitsTail(lt, s, x, c, w + 1);
      d := c - w - 1;
      OddShift(d, w + 1);
    } else {
      d := 1 + (c - w);
      OddShift(d, w - 1);
      SplitsConcat(lt, [up], s[w..], x, 1, c - w);
    }
  }

  lemma {:induction false} SplitsTail<T>(lt: (T, T) -> bool, s: seq<Point<T>>, x: Point<T>, c: nat, w: nat)
    requires SplitsAt(lt, s, x, c) && w <= c
    ensures SplitsAt(lt, s[w..], x, c - w)
  {
    hide Less;
  }

  lemma {:induction false} SplitsConcat<T>(lt: (T, T) -> bool, l: seq<Point<T>>, r: seq<Point<T>>, x: Point<T>, a: nat, b: nat)
    requires SplitsAt(lt, l, x, a) && SplitsAt(lt, r, x, b) && (a == |l| || b == 0)
    ensures SplitsAt(lt, l + r, x, a + b)
  {
    hide Less;
    var s := l + r;
    forall i | 0 <= i < |s| ensures Less(lt, s[i], x) <==> i < a + b {
      if i >= |l| { assert s[i] == r[i - |l|]; }
    }
  }

  /** Whenever the invariant is kept, the result holds exactly the old values and the interval's. */
  lemma {:induction false} AddIsUnion<T(!new)>(lt: (T, T) -> bool, s: seq<Point<T>>, x: Interval<T>, v: T)
    requires StrictOrder(lt) && WellFormed(lt, s) && x.lo.IsLower() && x.up.IsUpper() && NonEmpty(lt, x)
    requires !Duplicates(lt, s, x.up)
    ensures Contains(lt, Added(lt, s, x), v) <==> Contains(lt, s, v) || Within(lt, x, v)
  {
    hide StrictOrder, Less, Left, Right, Sorted, Minimal, Duplicates, Contains, LowerBound;
    var pt := Point(v, Value);
    var l, r := Left(lt, s, x.lo), Right(lt, s, x.up);
    var c := LowerBound(lt, s, pt);
    LowerBoundSplits(lt, s, pt);
    ContainsIsOdd(lt, s, v, c);
    AddWellFormed(lt, s, x);
    LeftPart(lt, s, x.lo);
    RightPart(lt, s, x.up);
    ValueIsNoBound(lt, v, x.lo);
    ValueIsNoBound(lt, v, x.up);
    var n;
    if Less(lt, pt, x.lo) {
      LeftBelow(lt, s, x.lo, v, c);
      LessTransitive(lt, pt, x.lo, x.up);
      RightAfter(lt, r, x.up, v);
      SplitsConcat(lt, l, r, pt, c, 0);
      n := c;
    } else if Less(lt, pt, x.up) {
      LeftBefore(lt, l, x.lo, v);
      RightAfter(lt, r, x.up, v);
      SplitsConcat(lt, l, r, pt, |l|, 0);
      n := |l|;
    } else {
      LeftBefore(lt, l, x.lo, v);
      var d := RightAbove(lt, s, x.up, v, c);
      SplitsConcat(lt, l, r, pt, |l|, d);
      n := |l| + d;
    }
    ContainsIsOdd(lt, l + r, v, n);
  }

  lemma {:induction false} LeftBefore<T(!new)>(lt: (T, T) -> bool, l: seq<Point<T>>, lo: Point<T>, v: T)
    requires StrictOrder(lt) && Less(lt, lo, Point(v, Value))
    requires forall i :: 0 <= i < |l| ==> !Less(lt, lo, l[i])
    ensures SplitsAt(lt, l, Point(v, Value), |l|)
  {
    hide StrictOrder, Less;
    forall i | 0 <= i < |l| ensures Less(lt, l[i], Point(v, Value)) { LessTransitive(lt, l[i], lo, Point(v, Value)); }
  }

  lemma {:induction false} RightAfter<T(!new)>(lt: (T, T) -> bool, r: seq<Point<T>>, up: Point<T>, v: T)
    requires StrictOrder(lt) && Less(lt, Point(v, Value), up)
    requires forall i :: 0 <= i < |r| ==> !Less(lt, r[i], up)
    ensures SplitsAt(lt, r, Point(v, Value), 0)
  {
    hide StrictOrder, Less;
    var pt := Point(v, Value);
    forall i | 0 <= i < |r| ensures !Less(lt, r[i], pt) {
      LessTransitive(lt, pt, up, r[i]);
      LessTransitive(lt, pt, r[i], pt);
    }
  }

  /** Otherwise the update loses every value of the interval it was to add. */
  lemma {:induction false} AddLosesInterval<T(!new)>(lt: (T, T) -> bool, s: seq<Point<T>>, x: Interval<T>, v: T)
    requires StrictOrder(lt) && WellFormed(lt, s) && x.lo.IsLower() && x.up.IsUpper()
    requires Duplicates(lt, s, x.up) && Within(lt, x, v)
    ensures !Contains(lt, Added(lt, s, x), v)
  {
    hide StrictOrder, Less, Left, LowerBound, UpperBound, Sorted, Minimal;
    var pt := Point(v, Value);
    var l, r := Left(lt, s, x.lo), Right(lt, s, x.up);
    var w := UpperBound(lt, s, x.up);
    LeftPart(lt, s, x.lo);
    LeftBefore(lt, l, x.lo, v);
    UpperBoundSplits(lt, s, x.up);
    DuplicateDropsBound(lt, s, x.up);
    forall i | 0 <= i < |r| ensures !Less(lt, r[i], x.up) {
      assert r[i] == s[w + i];
      LessTransitive(lt, x.up, s[w + i], x.up);
    }
    RightAfter(lt, r, x.up, v);
    SplitsConcat(lt, l, r, pt, |l|, 0);
    SplitIsLowerBound(lt, l + r, pt, |l|);
    assert (l + r)[|l|] == r[0] == s[w] && w % 2 == 0;
  }

  predicate IntLess(a: int, b: int) { a < b }

  /** [1, 3) [5, 7) */
  ghost function ExampleSet(): seq<Point<int>> {
    [Point(1, InclusiveLower), Point(3, ExclusiveUpper), Point(5, InclusiveLower), Point(7, ExclusiveUpper)]
  }

  lemma {:induction false} ExampleWellFormed()
    ensures StrictOrder(IntLess) && WellFormed(IntLess, ExampleSet())
  {
  }

  /** Such sets exist: adding [2, 3) to [1, 3) [5, 7) loses the value 2 that was there before. */
  lemma {:induction false} AddLosesDuplicate()
    ensures var s, x := ExampleSet(), Interval(Point(2, InclusiveLower), Point(3, ExclusiveUpper));
      && WellFormed(IntLess, s) && Duplicates(IntLess, s, x.up)
      && Contains(IntLess, s, 2) && !Contains(IntLess, Added(IntLess, s, x), 2)
  {
    var s := ExampleSet();
    var x := Interval(Point(2, InclusiveLower), Point(3, ExclusiveUpper));
    ExampleWellFormed();
    hide WellFormed, StrictOrder, Added, LowerBound, UpperBound;
    SplitIsLowerBound(IntLess, s, Point(2, Value), 1);
    UpperBoundOf(IntLess, s, x.up, 2);
    AddLosesInterval(IntLess, s, x, 2);
  }

  /** Adding an interval that lies beyond the set and does not touch it appends its two bounds. */
  lemma {:induction false} AddAppends<T(!new)>(lt: (T, T) -> bool, s: seq<Point<T>>, x: Interval<T>)
    requires StrictOrder(lt) && NonEmpty(lt, x) && x.lo.IsLower() && x.up.IsUpper()
    requires WellFormed(lt, s + [x.lo, x.up])
    ensures WellFormed(lt, s) && !Duplicates(lt, s, x.up) && Added(lt, s, x) == s + [x.lo, x.up]
  {
    hide StrictOrder, Less, Touch;
    var t := s + [x.lo, x.up];
    assert forall i :: 0 <= i < |s| ==> s[i] == t[i];
    assert t[|s|] == x.lo && t[|s| + 1] == x.up;
    SplitIsLowerBound(lt, s, x.lo, |s|);
    forall k | 0 <= k < |s| ensures !Less(lt, x.up, s[k]) {
      assert Less(lt, t[k], t[|s| + 1]);
      LessTransitive(lt, s[k], x.up, s[k]);
    }
    UpperBoundOf(lt, s, x.up, |s|);
    if |s| > 0 { assert t[|s| - 1].IsUpper(); }
  }
}
