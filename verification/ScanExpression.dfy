/** What the expressions of the predicate language mean, and when the parser makes that of them. */
module ScanExpression {
  import opened Options
  import opened IntervalSet
  import opened Strings
  import opened ScanPredicate
  import opened ScanPredicateRoundTrip

  // ------------------------------------------------------------ comparisons

  /** `field op v`, and `v1 op1 field op2 v2`. */
  datatype Comparison<T> = Is(op: Op, v: T) | Between(v1: T, op1: Op, op2: Op, v2: T)

  /** `a op b`, by the order of values. */
  predicate Compare<T(==)>(lt: (T, T) -> bool, op: Op, a: T, b: T)
    requires !op.StartsWith?
  {
    match op
    case Lt => lt(a, b)
    case Lte => lt(a, b) || a == b
    case Gt => lt(b, a)
    case Gte => lt(b, a) || a == b
    case Eq => a == b
  }

  /** What a field type adds to its lexicon: which values start with which. */
  type Starts<!T> = (T, T) -> bool

  ghost predicate ValidStarts<T(!new)>(lx: Lexicon<T>, starts: Starts<T>) {
    forall p, x :: lx.prefix(p).Some? ==> (Within(lx.lt, lx.prefix(p).value, x) <==> starts(p, x))
  }

  predicate Begins(p: bytes, x: bytes) { p <= x }
  predicate NoPrefix(p: int, x: int) { false }

  lemma {:induction false} StartsValid()
    ensures ValidStarts(StringLexicon(), Begins) && ValidStarts(TimeLexicon(), NoPrefix)
  {
    hide Within, PrefixInterval;
    forall p, x ensures Within(StrLess, PrefixInterval(p), x) <==> p <= x { PrefixIntervalMeaning(p, x); }
  }

  /** The grammar has it: a prefix only of strings, and inequalities on both sides. */
  predicate Legal<T>(lx: Lexicon<T>, c: Comparison<T>) {
    match c
    case Is(op, v) => op.StartsWith? ==> lx.prefix(v).Some?
    case Between(_, op1, op2, _) => op1.IsInequality() && op2.IsInequality()
  }

  /** Both sides point the same way. */
  predicate Directed<T>(c: Comparison<T>) { c.Between? ==> c.op1.IsUpward() == c.op2.IsUpward() }

  /** The comparison holds of a value. */
  predicate Meets<T(==)>(lx: Lexicon<T>, starts: Starts<T>, c: Comparison<T>, x: T)
    requires Legal(lx, c)
  {
    match c
    case Is(op, v) => if op.StartsWith? then starts(v, x) else Compare(lx.lt, op, x, v)
    case Between(v1, op1, op2, v2) => Compare(lx.lt, op1, v1, x) && Compare(lx.lt, op2, x, v2)
  }

  function Write<T>(lx: Lexicon<T>, field: Field, c: Comparison<T>): (r: seq<Token>)
    ensures r != []
  {
    match c
    case Is(op, v) => [FieldTok(field), OpTok(op), lx.lit(v)]
    case Between(v1, op1, op2, v2) => [lx.lit(v1), OpTok(op1), FieldTok(field), OpTok(op2), lx.lit(v2)]
  }

  /** The end points that a comparison stands for. */
  function Bounds<T>(lx: Lexicon<T>, c: Comparison<T>): (x: Interval<T>)
    requires Legal(lx, c) && Directed(c)
  {
    match c
    case Is(Eq, v) => Interval(Point(v, InclusiveLower), Point(v, InclusiveUpper))
    case Is(StartsWith, v) => lx.prefix(v).value
    case Is(op, v) => OneSided(lx, op, v)
    case Between(v1, op1, op2, v2) => TwoSided(v1, op1, op2, v2).value
  }

  lemma {:induction false} BoundsShape<T(!new)>(lx: Lexicon<T>, c: Comparison<T>)
    requires ValidLexicon(lx) && Legal(lx, c) && Directed(c)
    ensures Bounds(lx, c).lo.IsLower() && Bounds(lx, c).up.IsUpper()
  {
  }

  /** A comparison holds of exactly the values between its end points. */
  lemma {:induction false} BoundsMean<T(!new)>(lx: Lexicon<T>, starts: Starts<T>, c: Comparison<T>, x: T)
    requires ValidLexicon(lx) && ValidStarts(lx, starts) && Legal(lx, c) && Directed(c)
    ensures Within(lx.lt, Bounds(lx, c), x) <==> Meets(lx, starts, c, x)
  {
    hide Within, Contains;
    BoundsShape(lx, c);
    var b := Bounds(lx, c);
    WithinMeans(lx.lt, b.lo, b.up, x);
    assert b == Interval(b.lo, b.up);
    if c.Is? && c.op.StartsWith? {
      assert Within(lx.lt, lx.prefix(c.v).value, x) <==> starts(c.v, x);
    }
  }

  /** The comparison is parsed to its end points; one whose sides point both ways is an error. */
  lemma {:induction false} ParsedComparison<T(!new)>(lx: Lexicon<T>, field: Field, c: Comparison<T>, rest: seq<Token>)
    requires ValidLexicon(lx) && lx.isField(field) && Legal(lx, c)
    ensures ParseInterval(lx, Write(lx, field, c) + rest)
      == if Directed(c) then Parsed((field, Bounds(lx, c)), rest) else Error
  {
    var ts := Write(lx, field, c) + rest;
    assert ts[|Write(lx, field, c)|..] == rest;
  }

  // ------------------------------------------------------------ disjunctions

  ghost predicate AllLegal<T(!new)>(lx: Lexicon<T>, cs: seq<Comparison<T>>) {
    forall i :: 0 <= i < |cs| ==> Legal(lx, cs[i])
  }

  ghost predicate AllDirected<T(!new)>(cs: seq<Comparison<T>>) {
    forall i :: 0 <= i < |cs| ==> Directed(cs[i])
  }

  /** Some comparison of the list holds of the value. */
  ghost predicate SomeMeets<T(!new)>(lx: Lexicon<T>, starts: Starts<T>, cs: seq<Comparison<T>>, x: T)
    requires AllLegal(lx, cs)
  {
    exists i :: 0 <= i < |cs| && Meets(lx, starts, cs[i], x)
  }

  function WriteMore<T>(lx: Lexicon<T>, field: Field, cs: seq<Comparison<T>>): seq<Token> {
    if cs == [] then [] else [OrTok] + Write(lx, field, cs[0]) + WriteMore(lx, field, cs[1..])
  }

  /** The comparisons of one field, joined by `or`. */
  function WriteSet<T>(lx: Lexicon<T>, field: Field, cs: seq<Comparison<T>>): (r: seq<Token>)
    requires cs != []
  {
    Write(lx, field, cs[0]) + WriteMore(lx, field, cs[1..])
  }

  /** The sum of a set and the intervals of a list of comparisons, as IntervalSet::add makes it. */
  ghost function Sum<T(!new)>(lx: Lexicon<T>, s: seq<Point<T>>, cs: seq<Comparison<T>>): seq<Point<T>>
    requires AllLegal(lx, cs) && AllDirected(cs)
    decreases |cs|
  {
    if cs == [] then s else Sum(lx, AddTo(lx, s, Bounds(lx, cs[0])), cs[1..])
  }

  /** No upper bound is added that is already an end point before the last one. */
  ghost predicate Summable<T(!new)>(lx: Lexicon<T>, s: seq<Point<T>>, cs: seq<Comparison<T>>)
    requires AllLegal(lx, cs) && AllDirected(cs)
    decreases |cs|
  {
    cs == [] ||
    (var x := Bounds(lx, cs[0]);
     && (NonEmpty(lx.lt, x) ==> !Duplicates(lx.lt, s, x.up))
     && Summable(lx, AddTo(lx, s, x), cs[1..]))
  }

  /** Of such a list the set holds exactly the values that some comparison holds of, whatever the order. */
  lemma {:induction false} SumMeans<T(!new)>(lx: Lexicon<T>, starts: Starts<T>, s: seq<Point<T>>, cs: seq<Comparison<T>>, v: T)
    requires ValidLexicon(lx) && ValidStarts(lx, starts) && AllLegal(lx, cs) && AllDirected(cs)
    requires WellFormed(lx.lt, s) && Summable(lx, s, cs)
    ensures WellFormed(lx.lt, Sum(lx, s, cs))
    ensures Contains(lx.lt, Sum(lx, s, cs), v) <==> Contains(lx.lt, s, v) || SomeMeets(lx, starts, cs, v)
    decreases |cs|
  {
    hide WellFormed, Contains, ValidLexicon, ValidStarts, Bounds, Legal, Meets, AddTo, NonEmpty, Duplicates, Directed;
    if cs != [] {
      var c, rest := cs[0], cs[1..];
      AddMeans(lx, starts, s, c, v);
      SumMeans(lx, starts, AddTo(lx, s, Bounds(lx, c)), rest, v);
      SomeSplits(lx, starts, cs, v);
    }
  }

  lemma {:induction false} SomeSplits<T(!new)>(lx: Lexicon<T>, starts: Starts<T>, cs: seq<Comparison<T>>, v: T)
    requires AllLegal(lx, cs) && cs != []
    ensures SomeMeets(lx, starts, cs, v) <==> Meets(lx, starts, cs[0], v) || SomeMeets(lx, starts, cs[1..], v)
  {
    hide Legal, Meets;
    if i :| 0 <= i < |cs| && Meets(lx, starts, cs[i], v) && i > 0 { assert Meets(lx, starts, cs[1..][i - 1], v); }
  }

  lemma {:induction false} AddMeans<T(!new)>(lx: Lexicon<T>, starts: Starts<T>, s: seq<Point<T>>, c: Comparison<T>, v: T)
    requires ValidLexicon(lx) && ValidStarts(lx, starts) && Legal(lx, c) && Directed(c) && WellFormed(lx.lt, s)
    requires NonEmpty(lx.lt, Bounds(lx, c)) ==> !Duplicates(lx.lt, s, Bounds(lx, c).up)
    ensures WellFormed(lx.lt, AddTo(lx, s, Bounds(lx, c)))
    ensures Contains(lx.lt, AddTo(lx, s, Bounds(lx, c)), v) <==> Contains(lx.lt, s, v) || Meets(lx, starts, c, v)
  {
    hide WellFormed, Contains, Bounds, Legal, Meets, Added, Duplicates, ValidStarts, StrictOrder, Less, Within;
    var x := Bounds(lx, c);
    BoundsShape(lx, c);
    BoundsMean(lx, starts, c, v);
    if NonEmpty(lx.lt, x) {
      AddWellFormed(lx.lt, s, x);
      AddIsUnion(lx.lt, s, x, v);
    } else {
      EmptyHoldsNone(lx.lt, x, v);
    }
  }

  lemma {:induction false} EmptyHoldsNone<T(!new)>(lt: (T, T) -> bool, x: Interval<T>, v: T)
    requires StrictOrder(lt) && !NonEmpty(lt, x)
    ensures !Within(lt, x, v)
  {
    hide StrictOrder, Less;
    LessTransitive(lt, x.lo, Point(v, Value), x.up);
  }

  // ------------------------------------------------------------ parsing a disjunction

  lemma {:induction false} ParsedMore<T(!new)>(lx: Lexicon<T>, field: Field, s: seq<Point<T>>, cs: seq<Comparison<T>>, rest: seq<Token>)
    requires ValidLexicon(lx) && lx.isField(field) && AllLegal(lx, cs) && EndsSet(rest)
    ensures ParseMore(lx, field, s, WriteMore(lx, field, cs) + rest)
      == if AllDirected(cs) then Parsed((field, Sum(lx, s, cs)), rest) else Error
    decreases |cs|
  {
    hide ParseInterval, AddTo, ValidLexicon, Bounds, Write, Legal, Directed;
    var ts := WriteMore(lx, field, cs) + rest;
    if cs == [] {
      assert ts == rest;
    } else {
      var c, more := cs[0], cs[1..];
      var tail := WriteMore(lx, field, more) + rest;
      assert ts == [OrTok] + (Write(lx, field, c) + tail);
      assert ts[1..] == Write(lx, field, c) + tail;
      ParsedComparison(lx, field, c, tail);
      if Directed(c) {
        DirectedSplits(cs);
        ParsedMore(lx, field, AddTo(lx, s, Bounds(lx, c)), more, rest);
      }
    }
  }

  lemma {:induction false} DirectedSplits<T(!new)>(cs: seq<Comparison<T>>)
    requires cs != []
    ensures AllDirected(cs) <==> Directed(cs[0]) && AllDirected(cs[1..])
  {
    hide Directed;
    if Directed(cs[0]) && AllDirected(cs[1..]) {
      forall i | 0 <= i < |cs| ensures Directed(cs[i]) { if i > 0 { assert Directed(cs[1..][i - 1]); } }
    }
  }

  /** A disjunction of comparisons of one field, in any order and direction, is parsed to the sum of them. */
  lemma {:induction false} ParsedSet<T(!new)>(lx: Lexicon<T>, field: Field, cs: seq<Comparison<T>>, rest: seq<Token>)
    requires ValidLexicon(lx) && lx.isField(field) && cs != [] && AllLegal(lx, cs) && EndsSet(rest)
    ensures ParseSet(lx, WriteSet(lx, field, cs) + rest)
      == if AllDirected(cs) then Parsed((field, Sum(lx, [], cs)), rest) else Error
  {
    hide ParseInterval, AddTo, ValidLexicon, Bounds, Write, Legal, Directed, ParseMore, WriteMore;
    var c, more := cs[0], cs[1..];
    var tail := WriteMore(lx, field, more) + rest;
    assert WriteSet(lx, field, cs) + rest == Write(lx, field, c) + tail;
    ParsedComparison(lx, field, c, tail);
    DirectedSplits(cs);
    if Directed(c) { ParsedMore(lx, field, AddTo(lx, [], Bounds(lx, c)), more, rest); }
  }

  // ------------------------------------------------------------ which disjunctions can be summed

  /** The upper end point of a comparison: the literal it stays below, if there is one. */
  function Upper<T>(lx: Lexicon<T>, c: Comparison<T>): Point<T>
    requires Legal(lx, c) && Directed(c)
  {
    Bounds(lx, c).up
  }

  /** No two comparisons of the list have the same finite upper bound. */
  ghost predicate FreshUppers<T(!new)>(lx: Lexicon<T>, cs: seq<Comparison<T>>)
    requires AllLegal(lx, cs) && AllDirected(cs)
  {
    forall j, k :: 0 <= j < k < |cs| && Upper(lx, cs[j]) == Upper(lx, cs[k]) ==> Upper(lx, cs[k]).IsInfinite()
  }

  lemma {:induction false} NoDuplicate<T(!new)>(lt: (T, T) -> bool, s: seq<Point<T>>, up: Point<T>)
    requires StrictOrder(lt) && Sorted(lt, s) && up.IsUpper() && (up.IsInfinite() || up !in s)
    ensures !Duplicates(lt, s, up)
  {
    hide StrictOrder, UpperBound;
    UpperBoundSplits(lt, s, up);
    var w := UpperBound(lt, s, up);
    assert w < |s| ==> Less(lt, up, s[w]);
    if w > 0 {
      assert s[w - 1] in s && !Less(lt, up, s[w - 1]);
      if !Less(lt, s[w - 1], up) { LessTotal(lt, s[w - 1], up); }
    }
  }

  /** Adding brings in no end points but its own. */
  lemma {:induction false} AddedPoints<T(!new)>(lx: Lexicon<T>, s: seq<Point<T>>, x: Interval<T>, p: Point<T>)
    requires p in AddTo(lx, s, x)
    ensures p in s || p == x.lo || p == x.up
  {
    hide Less, LowerBound, UpperBound, Duplicates, Touch;
    if NonEmpty(lx.lt, x) {
      var l, r := Left(lx.lt, s, x.lo), Right(lx.lt, s, x.up);
      assert p in l || p in r;
    }
  }

  /** `s` has no upper bound that a comparison of the list has. */
  ghost predicate Unused<T(!new)>(lx: Lexicon<T>, s: seq<Point<T>>, cs: seq<Comparison<T>>)
    requires AllLegal(lx, cs) && AllDirected(cs)
  {
    forall k :: 0 <= k < |cs| && Upper(lx, cs[k]) in s ==> Upper(lx, cs[k]).IsInfinite()
  }

  /** Lists in which no finite upper bound occurs twice can be summed, in any order. */
  lemma {:induction false} FreshIsSummable<T(!new)>(lx: Lexicon<T>, s: seq<Point<T>>, cs: seq<Comparison<T>>)
    requires ValidLexicon(lx) && AllLegal(lx, cs) && AllDirected(cs) && FreshUppers(lx, cs) && Unused(lx, s, cs)
    requires WellFormed(lx.lt, s)
    ensures Summable(lx, s, cs)
    decreases |cs|
  {
    hide ValidLexicon, Bounds, Legal, Directed, AddTo, WellFormed, Duplicates, NonEmpty;
    if cs != [] {
      var c, rest := cs[0], cs[1..];
      FreshStep(lx, s, c);
      var s' := AddTo(lx, s, Bounds(lx, c));
      forall k | 0 <= k < |rest| && Upper(lx, rest[k]) in s' ensures Upper(lx, rest[k]).IsInfinite() {
        AddedPoints(lx, s, Bounds(lx, c), Upper(lx, rest[k]));
        BoundsShape(lx, c);
        BoundsShape(lx, rest[k]);
        assert rest[k] == cs[k + 1];
      }
      assert FreshUppers(lx, rest);
      FreshIsSummable(lx, s', rest);
    }
  }

  lemma {:induction false} FreshStep<T(!new)>(lx: Lexicon<T>, s: seq<Point<T>>, c: Comparison<T>)
    requires ValidLexicon(lx) && Legal(lx, c) && Directed(c) && WellFormed(lx.lt, s)
    requires Upper(lx, c) in s ==> Upper(lx, c).IsInfinite()
    ensures !Duplicates(lx.lt, s, Bounds(lx, c).up) && WellFormed(lx.lt, AddTo(lx, s, Bounds(lx, c)))
  {
    hide Bounds, Duplicates, Sorted, Alternating, Minimal, Legal, Directed, Added, StrictOrder, NonEmpty;
    BoundsShape(lx, c);
    NoDuplicate(lx.lt, s, Bounds(lx, c).up);
    if NonEmpty(lx.lt, Bounds(lx, c)) { AddWellFormed(lx.lt, s, Bounds(lx, c)); }
  }

  lemma {:induction false} SumSnoc<T(!new)>(lx: Lexicon<T>, s: seq<Point<T>>, cs: seq<Comparison<T>>, c: Comparison<T>)
    requires AllLegal(lx, cs) && AllDirected(cs) && Legal(lx, c) && Directed(c)
    ensures AllLegal(lx, cs + [c]) && AllDirected(cs + [c])
    ensures Sum(lx, s, cs + [c]) == AddTo(lx, Sum(lx, s, cs), Bounds(lx, c))
    decreases |cs|
  {
    hide Bounds, Legal, Directed, AddTo;
    assert AllLegal(lx, cs + [c]) && AllDirected(cs + [c]);
    if cs == [] {
      assert cs + [c] == [c] && [c][1..] == [];
    } else {
      assert (cs + [c])[1..] == cs[1..] + [c];
      SumSnoc(lx, AddTo(lx, s, Bounds(lx, cs[0])), cs[1..], c);
    }
  }

  /** The set holds what some comparison holds of. */
  ghost predicate IsUnion<T(!new)>(lx: Lexicon<T>, starts: Starts<T>, s: seq<Point<T>>, cs: seq<Comparison<T>>)
    requires AllLegal(lx, cs)
  {
    forall v :: Contains(lx.lt, s, v) <==> SomeMeets(lx, starts, cs, v)
  }

  /** Behind a list that can be summed, one comparison more is added rightly if and only if its upper bound is not an
      end point of the sum before the last one; otherwise every value it holds of is lost. */
  lemma {:induction false} OneMoreExactly<T(!new)>(lx: Lexicon<T>, starts: Starts<T>, cs: seq<Comparison<T>>, c: Comparison<T>, x: T)
    requires ValidLexicon(lx) && ValidStarts(lx, starts) && AllLegal(lx, cs) && AllDirected(cs) && Summable(lx, [], cs)
    requires Legal(lx, c) && Directed(c) && Meets(lx, starts, c, x)
    ensures AllLegal(lx, cs + [c]) && AllDirected(cs + [c])
    ensures IsUnion(lx, starts, Sum(lx, [], cs + [c]), cs + [c]) <==> !Duplicates(lx.lt, Sum(lx, [], cs), Upper(lx, c))
    ensures Duplicates(lx.lt, Sum(lx, [], cs), Upper(lx, c)) ==> !Contains(lx.lt, Sum(lx, [], cs + [c]), x)
  {
    hide ValidLexicon, ValidStarts, Bounds, Legal, Directed, AddTo, Duplicates, NonEmpty, Meets, Contains, SomeMeets, Added, WellFormed;
    var s := Sum(lx, [], cs);
    SumSnoc(lx, [], cs, c);
    EmptyWellFormed(lx.lt);
    SumMeans(lx, starts, [], cs, x);
    BoundsShape(lx, c);
    if Duplicates(lx.lt, s, Upper(lx, c)) {
      LastLost(lx, starts, s, c, x);
      SomeMeetsLast(lx, starts, cs, c, x);
    } else {
      forall v ensures Contains(lx.lt, Sum(lx, [], cs + [c]), v) <==> SomeMeets(lx, starts, cs + [c], v) {
        SumMeans(lx, starts, [], cs, v);
        NothingIn(lx.lt, v);
        AddMeans(lx, starts, s, c, v);
        SomeMeetsLast(lx, starts, cs, c, v);
      }
    }
  }

  lemma {:induction false} EmptyWellFormed<T(!new)>(lt: (T, T) -> bool)
    ensures WellFormed(lt, [])
  {
  }

  lemma {:induction false} NothingIn<T(!new)>(lt: (T, T) -> bool, v: T)
    ensures !Contains(lt, [], v)
  {
  }

  lemma {:induction false} SomeMeetsLast<T(!new)>(lx: Lexicon<T>, starts: Starts<T>, cs: seq<Comparison<T>>, c: Comparison<T>, v: T)
    requires AllLegal(lx, cs) && Legal(lx, c) && AllLegal(lx, cs + [c])
    ensures SomeMeets(lx, starts, cs + [c], v) <==> SomeMeets(lx, starts, cs, v) || Meets(lx, starts, c, v)
  {
    hide Legal, Meets;
    var all := cs + [c];
    assert all[|cs|] == c;
    if i :| 0 <= i < |cs| && Meets(lx, starts, cs[i], v) { assert all[i] == cs[i]; }
  }

  lemma {:induction false} LastLost<T(!new)>(lx: Lexicon<T>, starts: Starts<T>, s: seq<Point<T>>, c: Comparison<T>, x: T)
    requires ValidLexicon(lx) && ValidStarts(lx, starts) && Legal(lx, c) && Directed(c) && WellFormed(lx.lt, s)
    requires Meets(lx, starts, c, x) && Duplicates(lx.lt, s, Upper(lx, c))
    ensures !Contains(lx.lt, AddTo(lx, s, Bounds(lx, c)), x)
  {
    hide Bounds, Legal, Directed, Duplicates, Meets, Contains, WellFormed, Added, StrictOrder, NonEmpty, Within, ValidStarts;
    BoundsShape(lx, c);
    BoundsMean(lx, starts, c, x);
    if !NonEmpty(lx.lt, Bounds(lx, c)) { EmptyHoldsNone(lx.lt, Bounds(lx, c), x); }
    AddLosesInterval(lx.lt, s, Bounds(lx, c), x);
  }

  /** Comparisons of two fields cannot be joined by `or`. */
  lemma {:induction false} MixedFields<T(!new)>(lx: Lexicon<T>, f: Field, g: Field, c: Comparison<T>, d: Comparison<T>, rest: seq<Token>)
    requires ValidLexicon(lx) && lx.isField(f) && lx.isField(g) && f != g && Legal(lx, c) && Legal(lx, d)
    ensures ParseSet(lx, Write(lx, f, c) + ([OrTok] + (Write(lx, g, d) + rest))) == Error
  {
    hide ParseInterval, AddTo, ValidLexicon, Bounds, Write, Legal, Directed;
    var more := [OrTok] + (Write(lx, g, d) + rest);
    ParsedComparison(lx, f, c, more);
    assert more[1..] == Write(lx, g, d) + rest;
    ParsedComparison(lx, g, d, rest);
  }

  // ------------------------------------------------------------ conjunctions

  /** One conjunct: a disjunction of comparisons of one field, or a history. */
  datatype Conjunct =
    | OnRow(strs: seq<Comparison<bytes>>)
    | OnColumn(strs: seq<Comparison<bytes>>)
    | OnTime(times: seq<Comparison<int>>)
    | OnHistory(k: int)

  ghost predicate InGrammar(c: Conjunct) {
    match c
    case OnRow(cs) => cs != [] && AllLegal(StringLexicon(), cs)
    case OnColumn(cs) => cs != [] && AllLegal(StringLexicon(), cs)
    case OnTime(cs) => cs != [] && AllLegal(TimeLexicon(), cs)
    case OnHistory(_) => true
  }

  /** No comparison points both ways, and a history is not zero. */
  ghost predicate Sound(c: Conjunct) {
    match c
    case OnRow(cs) => AllDirected(cs)
    case OnColumn(cs) => AllDirected(cs)
    case OnTime(cs) => AllDirected(cs)
    case OnHistory(k) => k != 0
  }

  /** The conjunct's intervals can be summed. */
  ghost predicate CanBeSummed(c: Conjunct)
    requires InGrammar(c) && Sound(c)
  {
    match c
    case OnRow(cs) => Summable(StringLexicon(), [], cs)
    case OnColumn(cs) => Summable(StringLexicon(), [], cs)
    case OnTime(cs) => Summable(TimeLexicon(), [], cs)
    case OnHistory(_) => true
  }

  /** The conjunct holds of a cell: some comparison holds of its row, column or time. */
  ghost predicate HoldsOf(c: Conjunct, row: bytes, column: bytes, time: int)
    requires InGrammar(c)
  {
    match c
    case OnRow(cs) => SomeMeets(StringLexicon(), Begins, cs, row)
    case OnColumn(cs) => SomeMeets(StringLexicon(), Begins, cs, column)
    case OnTime(cs) => SomeMeets(TimeLexicon(), NoPrefix, cs, time)
    case OnHistory(_) => true
  }

  ghost predicate SameField(c: Conjunct, d: Conjunct) {
    (c.OnRow? && d.OnRow?) || (c.OnColumn? && d.OnColumn?) || (c.OnTime? && d.OnTime?) || (c.OnHistory? && d.OnHistory?)
  }

  ghost function WriteConjunct(c: Conjunct): (r: seq<Token>)
    requires InGrammar(c)
  {
    match c
    case OnRow(cs) => WriteSet(StringLexicon(), Row, cs)
    case OnColumn(cs) => WriteSet(StringLexicon(), Column, cs)
    case OnTime(cs) => WriteSet(TimeLexicon(), Time, cs)
    case OnHistory(k) => [HistoryTok, OpTok(Eq), IntTok(k)]
  }

  /** The field is constrained already. */
  predicate Constrained(p: Pred, c: Conjunct) {
    match c
    case OnRow(_) => p.rows.Some?
    case OnColumn(_) => p.columns.Some?
    case OnTime(_) => p.times.Some?
    case OnHistory(_) => p.maxHistory != 0
  }

  ghost function Stored(p: Pred, c: Conjunct): Pred
    requires InGrammar(c) && Sound(c)
  {
    match c
    case OnRow(cs) => p.(rows := Some(Sum(StringLexicon(), [], cs)))
    case OnColumn(cs) => p.(columns := Some(Sum(StringLexicon(), [], cs)))
    case OnTime(cs) => p.(times := Some(Sum(TimeLexicon(), [], cs)))
    case OnHistory(k) => p.(maxHistory := k)
  }

  lemma {:induction false} ParsedConjunct(p: Pred, c: Conjunct, rest: seq<Token>)
    requires InGrammar(c) && EndsSet(rest)
    ensures ParsePart(p, WriteConjunct(c) + rest)
      == if Sound(c) && !Constrained(p, c) then Parsed(Stored(p, c), rest) else Error
  {
    hide ParseSet, WriteSet, Sum, AllLegal, AllDirected, ValidLexicon;
    LexiconsValid();
    match c
    case OnRow(cs) => ParsedSet(StringLexicon(), Row, cs, rest);
    case OnColumn(cs) => ParsedSet(StringLexicon(), Column, cs, rest);
    case OnTime(cs) =>
      TimeStart(cs, rest);
      NotAString(WriteConjunct(c) + rest);
      ParsedSet(TimeLexicon(), Time, cs, rest);
    case OnHistory(k) =>
      var ts := [HistoryTok, OpTok(Eq), IntTok(k)] + rest;
      NotAString(ts);
      NotATime(ts);
      assert ts[3..] == rest;
  }

  lemma {:induction false} TimeStart(cs: seq<Comparison<int>>, rest: seq<Token>)
    requires cs != []
    ensures var ts := WriteSet(TimeLexicon(), Time, cs) + rest;
      ts != [] && ts[0] != FieldTok(Row) && ts[0] != FieldTok(Column) && !ts[0].StrTok?
  {
    hide WriteMore;
    assert (WriteSet(TimeLexicon(), Time, cs) + rest)[0] == Write(TimeLexicon(), Time, cs[0])[0];
  }

  ghost predicate AllInGrammar(es: seq<Conjunct>) { forall i :: 0 <= i < |es| ==> InGrammar(es[i]) }

  /** The conjuncts, joined by `and`. */
  ghost function WriteAll(es: seq<Conjunct>): seq<Token>
    requires AllInGrammar(es)
    decreases |es|
  {
    if es == [] then []
    else if |es| == 1 then WriteConjunct(es[0])
    else WriteConjunct(es[0]) + ([AndTok] + WriteAll(es[1..]))
  }

  /** Every conjunct is sound and constrains what is not constrained yet. */
  ghost predicate Acceptable(p: Pred, es: seq<Conjunct>)
    requires AllInGrammar(es)
    decreases |es|
  {
    es == [] || (Sound(es[0]) && !Constrained(p, es[0]) && Acceptable(Stored(p, es[0]), es[1..]))
  }

  ghost function StoredAll(p: Pred, es: seq<Conjunct>): Pred
    requires AllInGrammar(es) && Acceptable(p, es)
    decreases |es|
  {
    if es == [] then p else StoredAll(Stored(p, es[0]), es[1..])
  }

  lemma {:induction false} AndEndsSet(ts: seq<Token>)
    ensures EndsSet([AndTok] + ts) && ([AndTok] + ts)[1..] == ts
  {
  }

  lemma {:induction false} ParsedRest(p: Pred, es: seq<Conjunct>)
    requires AllInGrammar(es) && es != []
    ensures ParseParts(p, [AndTok] + WriteAll(es)) == if Acceptable(p, es) then Parsed(StoredAll(p, es), []) else Error
    decreases |es|
  {
    hide ParsePart, WriteConjunct, InGrammar, Sound, Constrained, Stored;
    var c, more := es[0], es[1..];
    AndEndsSet(WriteAll(es));
    if |es| == 1 {
      ParsedConjunct(p, c, []);
      assert WriteConjunct(c) + [] == WriteAll(es);
      assert more == [];
      assert forall q: Pred :: ParseParts(q, []) == Parsed(q, []);
    } else {
      var rest := [AndTok] + WriteAll(more);
      AndEndsSet(WriteAll(more));
      ParsedConjunct(p, c, rest);
      assert WriteConjunct(c) + rest == WriteAll(es);
      if Sound(c) && !Constrained(p, c) { ParsedRest(Stored(p, c), more); }
    }
  }

  lemma {:induction false} ParsedAll(es: seq<Conjunct>)
    requires AllInGrammar(es)
    ensures ParsePred(WriteAll(es)) == if Acceptable(DefaultPred, es) then Some(StoredAll(DefaultPred, es)) else None
  {
    hide ParsePart, WriteConjunct, InGrammar, Sound, Constrained, Stored, ParseParts;
    var p := DefaultPred;
    if es == [] {
      NothingToParse();
    } else if |es| == 1 {
      ParsedConjunct(p, es[0], []);
      assert WriteConjunct(es[0]) + [] == WriteAll(es);
      assert es[1..] == [];
      NoMoreParts();
    } else {
      var rest := [AndTok] + WriteAll(es[1..]);
      AndEndsSet(WriteAll(es[1..]));
      ParsedConjunct(p, es[0], rest);
      if Sound(es[0]) && !Constrained(p, es[0]) { ParsedRest(Stored(p, es[0]), es[1..]); }
    }
  }

  lemma {:induction false} NoMoreParts()
    ensures forall q: Pred :: ParseParts(q, []) == Parsed(q, [])
  {
  }

  // ------------------------------------------------------------ what an expression means

  ghost predicate AllSound(es: seq<Conjunct>) { forall i :: 0 <= i < |es| ==> Sound(es[i]) }

  /** No field is constrained twice. */
  ghost predicate FieldsDiffer(es: seq<Conjunct>) {
    forall i, j :: 0 <= i < j < |es| ==> !SameField(es[i], es[j])
  }

  ghost predicate NoneConstrained(p: Pred, es: seq<Conjunct>) {
    forall i :: 0 <= i < |es| ==> !Constrained(p, es[i])
  }

  lemma {:induction false} StoredConstrains(p: Pred, c: Conjunct, d: Conjunct)
    requires InGrammar(c) && Sound(c)
    ensures Constrained(Stored(p, c), d) <==> Constrained(p, d) || SameField(c, d)
  {
    hide Sum;
  }

  lemma {:induction false} AcceptableMeans(p: Pred, es: seq<Conjunct>)
    requires AllInGrammar(es)
    ensures Acceptable(p, es) <==> AllSound(es) && FieldsDiffer(es) && NoneConstrained(p, es)
    decreases |es|
  {
    hide InGrammar, Sound, Constrained, Stored, SameField;
    if es != [] {
      var c, more := es[0], es[1..];
      if Sound(c) {
        AcceptableMeans(Stored(p, c), more);
        forall i | 0 <= i < |more| ensures Constrained(Stored(p, c), more[i]) <==> Constrained(p, es[i + 1]) || SameField(c, es[i + 1]) {
          StoredConstrains(p, c, more[i]);
        }
        ListSplits(p, es);
      }
    }
  }

  lemma {:induction false} ListSplits(p: Pred, es: seq<Conjunct>)
    requires es != []
    ensures AllSound(es) <==> Sound(es[0]) && AllSound(es[1..])
    ensures FieldsDiffer(es) <==> FieldsDiffer(es[1..]) && forall i :: 0 < i < |es| ==> !SameField(es[0], es[i])
    ensures NoneConstrained(p, es) <==> !Constrained(p, es[0]) && forall i :: 0 < i < |es| ==> !Constrained(p, es[i])
  {
    hide Sound, Constrained, SameField;
    var more := es[1..];
    assert forall i :: 0 < i < |es| ==> es[i] == more[i - 1];
    assert forall i :: 0 <= i < |more| ==> more[i] == es[i + 1];
  }

  ghost predicate AllSummed(es: seq<Conjunct>)
    requires AllInGrammar(es) && AllSound(es)
  {
    forall i :: 0 <= i < |es| ==> CanBeSummed(es[i])
  }

  /** All conjuncts hold of a cell. */
  ghost predicate AllHold(es: seq<Conjunct>, row: bytes, column: bytes, time: int)
    requires AllInGrammar(es)
  {
    forall i :: 0 <= i < |es| ==> HoldsOf(es[i], row, column, time)
  }

  /** The history that is asked for, or zero. */
  ghost function HistoryOf(es: seq<Conjunct>): int {
    if es == [] then 0 else if es[0].OnHistory? then es[0].k else HistoryOf(es[1..])
  }

  lemma {:induction false} StoredSelects(p: Pred, c: Conjunct, row: bytes, column: bytes, time: int)
    requires InGrammar(c) && Sound(c) && CanBeSummed(c) && !Constrained(p, c) && ValidPred(p)
    ensures ValidPred(Stored(p, c))
    ensures Selects(Stored(p, c), row, column, time) <==> Selects(p, row, column, time) && HoldsOf(c, row, column, time)
  {
    hide Sum, Summable, WellFormed, Contains, AllLegal, AllDirected, ValidLexicon, ValidStarts, SomeMeets;
    LexiconsValid();
    StartsValid();
    match c
    case OnRow(cs) => SumFromNothing(StringLexicon(), Begins, cs, row);
    case OnColumn(cs) => SumFromNothing(StringLexicon(), Begins, cs, column);
    case OnTime(cs) => SumFromNothing(TimeLexicon(), NoPrefix, cs, time);
    case OnHistory(_) =>
  }

  lemma {:induction false} SumFromNothing<T(!new)>(lx: Lexicon<T>, starts: Starts<T>, cs: seq<Comparison<T>>, v: T)
    requires ValidLexicon(lx) && ValidStarts(lx, starts) && AllLegal(lx, cs) && AllDirected(cs) && Summable(lx, [], cs)
    ensures WellFormed(lx.lt, Sum(lx, [], cs))
    ensures Contains(lx.lt, Sum(lx, [], cs), v) <==> SomeMeets(lx, starts, cs, v)
  {
    EmptyWellFormed(lx.lt);
    NothingIn(lx.lt, v);
    hide *;
    SumMeans(lx, starts, [], cs, v);
  }

  lemma {:induction false} StoredAllSelects(p: Pred, es: seq<Conjunct>, row: bytes, column: bytes, time: int)
    requires AllInGrammar(es) && Acceptable(p, es) && AllSound(es) && AllSummed(es) && ValidPred(p)
    ensures ValidPred(StoredAll(p, es))
    ensures Selects(StoredAll(p, es), row, column, time) <==> Selects(p, row, column, time) && AllHold(es, row, column, time)
    decreases |es|
  {
    hide InGrammar, Sound, Constrained, Stored, Selects, HoldsOf, CanBeSummed, ValidPred;
    if es != [] {
      var c, more := es[0], es[1..];
      assert CanBeSummed(c);
      assert forall i :: 0 <= i < |more| ==> more[i] == es[i + 1];
      StoredSelects(p, c, row, column, time);
      StoredAllSelects(Stored(p, c), more, row, column, time);
      assert AllHold(es, row, column, time) <==> HoldsOf(c, row, column, time) && AllHold(more, row, column, time) by {
        assert forall i :: 0 < i < |es| ==> es[i] == more[i - 1];
      }
    }
  }

  lemma {:induction false} StoredAllHistory(p: Pred, es: seq<Conjunct>)
    requires AllInGrammar(es) && Acceptable(p, es)
    ensures StoredAll(p, es).maxHistory == if p.maxHistory != 0 then p.maxHistory else HistoryOf(es)
    decreases |es|
  {
    hide InGrammar, Sum;
    if es != [] { StoredAllHistory(Stored(p, es[0]), es[1..]); }
  }

  /** An expression of conjuncts, each a disjunction of comparisons of one field in any order and direction, is accepted
      if and only if no comparison points both ways, no history is zero and no field is constrained twice. If the
      intervals of each conjunct can be summed, it then selects exactly the cells of which every conjunct has a
      comparison that holds. */
  lemma {:induction false} ExpressionMeans(es: seq<Conjunct>)
    requires AllInGrammar(es)
    ensures var r := ParsePred(WriteAll(es));
      && (r.Some? <==> AllSound(es) && FieldsDiffer(es))
      && (r.Some? ==> r.value.maxHistory == HistoryOf(es))
      && (r.Some? && AllSummed(es) ==>
            && ValidPred(r.value)
            && forall row, column, time :: Selects(r.value, row, column, time) <==> AllHold(es, row, column, time))
  {
    hide InGrammar, Sound, Selects, HoldsOf, CanBeSummed, Acceptable, WriteAll, ParsePred, StoredAll, ValidPred, HistoryOf, SameField;
    var p := DefaultPred;
    ParsedAll(es);
    NothingConstrained(es);
    AcceptableMeans(p, es);
    if Acceptable(p, es) {
      StoredAllHistory(p, es);
      if AllSummed(es) {
        AnySelected();
        StoredAllSelects(p, es, [], [], 0);
        forall row, column, time ensures Selects(StoredAll(p, es), row, column, time) <==> AllHold(es, row, column, time) {
          StoredAllSelects(p, es, row, column, time);
        }
      }
    }
  }

  lemma {:induction false} NothingConstrained(es: seq<Conjunct>)
    ensures NoneConstrained(DefaultPred, es)
  {
  }

  lemma {:induction false} AnySelected()
    ensures ValidPred(DefaultPred) && forall row, column, time :: Selects(DefaultPred, row, column, time)
  {
  }

  ghost predicate FreshConjunct(c: Conjunct)
    requires InGrammar(c) && Sound(c)
  {
    match c
    case OnRow(cs) => FreshUppers(StringLexicon(), cs)
    case OnColumn(cs) => FreshUppers(StringLexicon(), cs)
    case OnTime(cs) => FreshUppers(TimeLexicon(), cs)
    case OnHistory(_) => true
  }

  /** A condition on the literals: no two comparisons of a conjunct have the same finite upper bound. */
  lemma {:induction false} FreshCanBeSummed(c: Conjunct)
    requires InGrammar(c) && Sound(c) && FreshConjunct(c)
    ensures CanBeSummed(c)
  {
    hide FreshUppers, Summable, ValidLexicon, AllLegal, AllDirected;
    LexiconsValid();
    match c
    case OnRow(cs) => FreshFromNothing(StringLexicon(), cs);
    case OnColumn(cs) => FreshFromNothing(StringLexicon(), cs);
    case OnTime(cs) => FreshFromNothing(TimeLexicon(), cs);
    case OnHistory(_) =>
  }

  lemma {:induction false} FreshFromNothing<T(!new)>(lx: Lexicon<T>, cs: seq<Comparison<T>>)
    requires ValidLexicon(lx) && AllLegal(lx, cs) && AllDirected(cs) && FreshUppers(lx, cs)
    ensures Summable(lx, [], cs)
  {
    EmptyWellFormed(lx.lt);
    NoneUsed(lx, cs);
    hide *;
    FreshIsSummable(lx, [], cs);
  }

  lemma {:induction false} NoneUsed<T(!new)>(lx: Lexicon<T>, cs: seq<Comparison<T>>)
    requires AllLegal(lx, cs) && AllDirected(cs)
    ensures Unused(lx, [], cs)
  {
  }

  // ------------------------------------------------------------ what is printed

  /** An interval is printed by the shortest comparison that has its end points. */
  lemma {:induction false} PrintIsShortest<T(!new)>(lx: Lexicon<T>, field: Field, c: Comparison<T>)
    requires ValidLexicon(lx) && Legal(lx, c) && Directed(c)
    ensures |PrintInterval(lx, field, Bounds(lx, c).lo, Bounds(lx, c).up)| <= |Write(lx, field, c)|
  {
  }

  // ------------------------------------------------------------ an expression that loses a value

  /** 1 <= time < 3 or 5 <= time < 7 */
  function TwoTimes(): (cs: seq<Comparison<int>>) { [Between(1, Lte, Lt, 3), Between(5, Lte, Lt, 7)] }

  /** or 2 <= time < 3 */
  function ThirdTime(): Comparison<int> { Between(2, Lte, Lt, 3) }

  lemma {:induction false} TimesLegal()
    ensures AllLegal(TimeLexicon(), TwoTimes()) && AllDirected(TwoTimes())
    ensures Legal(TimeLexicon(), ThirdTime()) && Directed(ThirdTime())
    ensures AllLegal(TimeLexicon(), TwoTimes() + [ThirdTime()]) && AllDirected(TwoTimes() + [ThirdTime()])
  {
  }

  lemma {:induction false} TwoTimesWellFormed()
    ensures WellFormed(TimeLess, ExampleSet())
  {
  }

  lemma {:induction false} TwoTimesSum()
    ensures AllLegal(TimeLexicon(), TwoTimes()) && AllDirected(TwoTimes())
    ensures Summable(TimeLexicon(), [], TwoTimes()) && Sum(TimeLexicon(), [], TwoTimes()) == ExampleSet()
  {
    TimesLegal();
    LexiconsValid();
    TwoTimesWellFormed();
    hide WellFormed, Added, Duplicates, StrictOrder;
    var lx, cs := TimeLexicon(), TwoTimes();
    var x, y := Bounds(lx, cs[0]), Bounds(lx, cs[1]);
    assert x == Interval(Point(1, InclusiveLower), Point(3, ExclusiveUpper));
    assert y == Interval(Point(5, InclusiveLower), Point(7, ExclusiveUpper));
    var s1 := [x.lo, x.up];
    assert s1 + [y.lo, y.up] == ExampleSet() && [] + [x.lo, x.up] == s1;
    AddAppends(TimeLess, s1, y);
    AddAppends(TimeLess, [], x);
    assert cs[1..] == [cs[1]] && [cs[1]][1..] == [];
    SumOfTwo(lx, cs, s1, ExampleSet());
  }

  lemma {:induction false} SumOfTwo<T(!new)>(lx: Lexicon<T>, cs: seq<Comparison<T>>, s1: seq<Point<T>>, s2: seq<Point<T>>)
    requires |cs| == 2 && AllLegal(lx, cs) && AllDirected(cs)
    requires AddTo(lx, [], Bounds(lx, cs[0])) == s1 && AddTo(lx, s1, Bounds(lx, cs[1])) == s2
    requires !Duplicates(lx.lt, [], Bounds(lx, cs[0]).up) && !Duplicates(lx.lt, s1, Bounds(lx, cs[1]).up)
    ensures Sum(lx, [], cs) == s2 && Summable(lx, [], cs)
  {
    hide AddTo, Bounds, Duplicates, Legal, Directed, NonEmpty;
    var rest := cs[1..];
    assert rest[0] == cs[1] && rest[1..] == [];
    assert Sum(lx, s2, []) == s2 && Summable(lx, s2, []);
    assert Sum(lx, s1, rest) == s2 && Summable(lx, s1, rest);
  }

  lemma {:induction false} ThirdDuplicates()
    ensures Legal(TimeLexicon(), ThirdTime()) && Directed(ThirdTime())
    ensures Duplicates(TimeLess, ExampleSet(), Upper(TimeLexicon(), ThirdTime()))
  {
    UpperBoundOf(TimeLess, ExampleSet(), Point(3, ExclusiveUpper), 2);
  }

  /** The parser accepts the three comparisons and the result does not select time 2, of which two of them hold. */
  lemma {:induction false} ExpressionLosesTime()
    ensures var es := [OnTime(TwoTimes() + [ThirdTime()])];
      && AllInGrammar(es) && AllHold(es, [], [], 2)
      && ParsePred(WriteAll(es)).Some? && !Selects(ParsePred(WriteAll(es)).value, [], [], 2)
  {
    hide Sum, Summable, Duplicates, ValidLexicon, ValidStarts, WriteAll, Contains, AllDirected, AllLegal, Meets, Legal, Directed,
         TwoTimes, ThirdTime, ExampleSet, Upper;
    var lx, cs, c := TimeLexicon(), TwoTimes(), ThirdTime();
    TimesLegal();
    LexiconsValid();
    StartsValid();
    TwoTimesSum();
    ThirdDuplicates();
    ThirdMeets();
    OneMoreExactly(lx, NoPrefix, cs, c, 2);
    SomeMeetsLast(lx, NoPrefix, cs, c, 2);
    ParsedTimes(cs + [c]);
  }

  lemma {:induction false} ThirdMeets()
    ensures Legal(TimeLexicon(), ThirdTime()) && Meets(TimeLexicon(), NoPrefix, ThirdTime(), 2)
  {
  }

  lemma {:induction false} ParsedTimes(cs: seq<Comparison<int>>)
    requires cs != [] && AllLegal(TimeLexicon(), cs) && AllDirected(cs)
    ensures AllInGrammar([OnTime(cs)])
    ensures ParsePred(WriteAll([OnTime(cs)])) == Some(DefaultPred.(times := Some(Sum(TimeLexicon(), [], cs))))
  {
    hide Sum, WriteConjunct, AllDirected, AllLegal, ParsePred;
    var es := [OnTime(cs)];
    ParsedAll(es);
    assert es[1..] == [];
  }
}
