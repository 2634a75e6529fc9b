/** Printing a scan predicate and parsing the result selects the same cells. */
module ScanPredicateRoundTrip {
  import opened Options
  import opened IntervalSet
  import opened Strings
  import opened ScanPredicate

  // ------------------------------------------------------------ infinite bounds

  /** An infinite bound's value means nothing and is not printed. */
  function NormPoint<T>(zero: T, p: Point<T>): Point<T> {
    if p.IsInfinite() then Point(zero, p.kind) else p
  }

  function Norm<T>(zero: T, s: seq<Point<T>>): (r: seq<Point<T>>)
    ensures |r| == |s| && forall i :: 0 <= i < |s| ==> r[i] == NormPoint(zero, s[i])
  {
    if s == [] then [] else [NormPoint(zero, s[0])] + Norm(zero, s[1..])
  }

  lemma {:induction false} NormConcat<T>(zero: T, a: seq<Point<T>>, b: seq<Point<T>>)
    ensures Norm(zero, a + b) == Norm(zero, a) + Norm(zero, b)
  {
    hide NormPoint, Norm;
    var l, r := Norm(zero, a + b), Norm(zero, a) + Norm(zero, b);
    forall i | 0 <= i < |l| ensures l[i] == r[i] {
      if i >= |a| { assert (a + b)[i] == b[i - |a|]; }
    }
  }

  lemma {:induction false} NormLess<T>(lt: (T, T) -> bool, zero: T, a: Point<T>, b: Point<T>)
    ensures Less(lt, NormPoint(zero, a), NormPoint(zero, b)) <==> Less(lt, a, b)
  {
  }

  /** Within a set only the outermost bounds can be infinite. */
  lemma {:induction false} InfiniteAtEnds<T(!new)>(lt: (T, T) -> bool, s: seq<Point<T>>, i: nat)
    requires Sorted(lt, s) && i < |s|
    ensures s[i].kind.InfiniteLower? ==> i == 0
    ensures s[i].kind.InfiniteUpper? ==> i == |s| - 1
  {
    if i > 0 { assert Less(lt, s[0], s[i]); }
    if i < |s| - 1 { assert Less(lt, s[i], s[|s| - 1]); }
  }

  lemma {:induction false} NormWellFormed<T(!new)>(lt: (T, T) -> bool, zero: T, s: seq<Point<T>>)
    requires WellFormed(lt, s)
    ensures WellFormed(lt, Norm(zero, s))
  {
    hide Less, Touch;
    var r := Norm(zero, s);
    forall i, j | 0 <= i < j < |r| ensures Less(lt, r[i], r[j]) { NormLess(lt, zero, s[i], s[j]); }
    forall i | 0 < i < |r| && r[i - 1].IsUpper() ensures !Touch(lt, r[i - 1], r[i]) {
      InfiniteAtEnds(lt, s, i - 1);
      InfiniteAtEnds(lt, s, i);
    }
  }

  lemma {:induction false} NormContains<T(!new)>(lt: (T, T) -> bool, zero: T, s: seq<Point<T>>, v: T)
    requires StrictOrder(lt) && Sorted(lt, s)
    ensures Contains(lt, Norm(zero, s), v) <==> Contains(lt, s, v)
  {
    hide Less, StrictOrder, LowerBound;
    var x := Point(v, Value);
    var n := LowerBound(lt, s, x);
    LowerBoundSplits(lt, s, x);
    var r := Norm(zero, s);
    forall i | 0 <= i < |s| ensures Less(lt, r[i], x) <==> Less(lt, s[i], x) {
      NormLess(lt, zero, s[i], x);
      assert NormPoint(zero, x) == x;
    }
    SplitIsLowerBound(lt, r, x, n);
  }

  lemma {:induction false} EvenPrefixWellFormed<T>(lt: (T, T) -> bool, a: seq<Point<T>>, b: seq<Point<T>>)
    requires WellFormed(lt, a + b) && |a| % 2 == 0
    ensures WellFormed(lt, a)
  {
    hide Less, Touch;
    var s := a + b;
    assert forall i :: 0 <= i < |a| ==> a[i] == s[i];
    forall i | 0 < i < |a| && a[i - 1].IsUpper() ensures !Touch(lt, a[i - 1], a[i]) { assert s[i] == a[i]; }
  }

  /** An infinite interval is the whole set. */
  lemma {:induction false} InfinitePairIsAll<T(!new)>(lt: (T, T) -> bool, s: seq<Point<T>>, i: nat)
    requires WellFormed(lt, s) && i % 2 == 0 && i + 1 < |s| && s[i].IsInfinite() && s[i + 1].IsInfinite()
    ensures IsInfinite(s) && |s| == 2
  {
    hide Less;
    InfiniteAtEnds(lt, s, i);
    InfiniteAtEnds(lt, s, i + 1);
  }

  // ------------------------------------------------------------ intervals

  lemma {:induction false} PrintedInterval<T(!new)>(lx: Lexicon<T>, field: Field, lo: Point<T>, up: Point<T>, rest: seq<Token>)
    requires ValidLexicon(lx) && lx.isField(field)
    requires lo.IsLower() && up.IsUpper() && !(lo.IsInfinite() && up.IsInfinite())
    ensures PrintInterval(lx, field, lo, up) != []
    ensures ParseInterval(lx, PrintInterval(lx, field, lo, up) + rest)
            == Parsed((field, Interval(NormPoint(lx.zero, lo), NormPoint(lx.zero, up))), rest)
  {
    hide StrictOrder;
    var out := PrintInterval(lx, field, lo, up);
    var ts := out + rest;
    assert ts[|out|..] == rest;
    assert forall i :: 0 <= i < |out| ==> ts[i] == out[i];
  }

  /** What a printed interval starts with. */
  lemma {:induction false} PrintedStart<T(!new)>(lx: Lexicon<T>, field: Field, lo: Point<T>, up: Point<T>)
    requires !(lo.IsInfinite() && up.IsInfinite())
    ensures var out := PrintInterval(lx, field, lo, up);
      out != [] && (out[0] == FieldTok(field) || out[0] == lx.lit(lo.value))
  {
  }

  lemma {:induction false} PairsHead<T>(lx: Lexicon<T>, field: Field, s: seq<Point<T>>)
    requires |s| % 2 == 0 && s != [] && PrintInterval(lx, field, s[0], s[1]) != []
    ensures PrintPairs(lx, field, s, false) == PrintInterval(lx, field, s[0], s[1]) + PrintPairs(lx, field, s[2..], true)
  {
    hide PrintInterval;
    PairsUnfold(lx, field, s, false);
    hide PrintPairs;
    assert [] + PrintInterval(lx, field, s[0], s[1]) == PrintInterval(lx, field, s[0], s[1]);
  }

  lemma {:induction false} PairsUnfold<T>(lx: Lexicon<T>, field: Field, s: seq<Point<T>>, needOr: bool)
    requires |s| % 2 == 0 && s != []
    ensures var out := PrintInterval(lx, field, s[0], s[1]);
      PrintPairs(lx, field, s, needOr) == (if needOr then [OrTok] else []) + out + PrintPairs(lx, field, s[2..], needOr || out != [])
  {
    hide PrintInterval;
  }

  /** The first interval in front of the rest of a printed set. */
  lemma {:induction false} FirstTokens<T>(lx: Lexicon<T>, field: Field, s: seq<Point<T>>, rest: seq<Token>)
    requires |s| % 2 == 0 && s != [] && PrintInterval(lx, field, s[0], s[1]) != []
    ensures PrintSet(lx, field, s) + rest
            == PrintInterval(lx, field, s[0], s[1]) + (PrintPairs(lx, field, s[2..], true) + rest)
  {
    hide PrintInterval, PrintPairs;
    PairsHead(lx, field, s);
    var first, more := PrintInterval(lx, field, s[0], s[1]), PrintPairs(lx, field, s[2..], true);
    assert first + more + rest == first + (more + rest);
  }

  lemma {:induction false} NextTokens<T>(lx: Lexicon<T>, field: Field, s: seq<Point<T>>, rest: seq<Token>)
    requires |s| % 2 == 0 && s != []
    ensures PrintPairs(lx, field, s, true) + rest
            == [OrTok] + (PrintInterval(lx, field, s[0], s[1]) + (PrintPairs(lx, field, s[2..], true) + rest))
  {
    hide PrintInterval;
  }

  /** What a printed set starts with. */
  lemma {:induction false} PrintedSetStart<T(!new)>(lx: Lexicon<T>, field: Field, s: seq<Point<T>>, rest: seq<Token>)
    requires |s| % 2 == 0 && !IsInfinite(s)
    ensures var ts := PrintSet(lx, field, s) + rest;
      ts != [] && (ts[0] == FieldTok(field) || exists v :: ts[0] == lx.lit(v))
  {
    hide PrintInterval;
    if s == [] {
      PrintedStart(lx, field, Point(lx.zero, ExclusiveLower), Point(lx.zero, ExclusiveUpper));
    } else {
      PrintedStart(lx, field, s[0], s[1]);
      FirstTokens(lx, field, s, rest);
    }
  }

  // ------------------------------------------------------------ sets

  ghost predicate EndsSet(rest: seq<Token>) { rest == [] || rest[0] != OrTok }

  /** Adding the next printed interval appends its bounds. */
  lemma {:induction false} AddNext<T(!new)>(lx: Lexicon<T>, done: seq<Point<T>>, lo: Point<T>, up: Point<T>, more: seq<Point<T>>)
    requires ValidLexicon(lx) && WellFormed(lx.lt, done + [lo, up] + more) && |done| % 2 == 0
    ensures lo.IsLower() && up.IsUpper()
    ensures AddTo(lx, Norm(lx.zero, done), Interval(NormPoint(lx.zero, lo), NormPoint(lx.zero, up)))
            == Norm(lx.zero, done + [lo, up])
  {
    hide Less, Touch, StrictOrder, Added;
    var s := done + [lo, up];
    EvenPrefixWellFormed(lx.lt, s, more);
    assert s[|done|] == lo && s[|done| + 1] == up;
    assert Less(lx.lt, lo, up);
    NormWellFormed(lx.lt, lx.zero, s);
    NormConcat(lx.zero, done, [lo, up]);
    assert Norm(lx.zero, [lo, up]) == [NormPoint(lx.zero, lo), NormPoint(lx.zero, up)];
    NormLess(lx.lt, lx.zero, lo, up);
    AddAppends(lx.lt, Norm(lx.zero, done), Interval(NormPoint(lx.zero, lo), NormPoint(lx.zero, up)));
  }

  lemma {:induction false} NoPairs<T>(lx: Lexicon<T>, field: Field)
    ensures PrintPairs(lx, field, [], true) == []
  {
  }

  /** The intervals after the first are parsed and added one by one. */
  lemma {:induction false} PrintedPairs<T(!new)>(lx: Lexicon<T>, field: Field, done: seq<Point<T>>, s: seq<Point<T>>, rest: seq<Token>)
    requires ValidLexicon(lx) && lx.isField(field) && |s| % 2 == 0 && |done| % 2 == 0
    requires WellFormed(lx.lt, done + s) && |done| > 0 && EndsSet(rest)
    ensures ParseMore(lx, field, Norm(lx.zero, done), PrintPairs(lx, field, s, true) + rest)
            == Parsed((field, Norm(lx.zero, done + s)), rest)
    decreases |s|
  {
    hide ParseInterval, AddTo, ValidLexicon, WellFormed, PrintInterval, Norm, PrintPairs;
    if s == [] {
      assert done + s == done;
      assert PrintPairs(lx, field, s, true) + rest == rest by { NoPairs(lx, field); }
    } else {
      var lo, up, more := s[0], s[1], s[2..];
      assert s == [lo, up] + more;
      assert done + s == done + [lo, up] + more;
      AddNext(lx, done, lo, up, more);
      if lo.IsInfinite() && up.IsInfinite() {
        assert (done + s)[|done|] == lo && (done + s)[|done| + 1] == up;
        InfinitePairIsAll(lx.lt, done + s, |done|);
      }
      var out := PrintInterval(lx, field, lo, up);
      var tail := PrintPairs(lx, field, more, true) + rest;
      PrintedInterval(lx, field, lo, up, tail);
      NextTokens(lx, field, s, rest);
      var ts := PrintPairs(lx, field, s, true) + rest;
      assert ts[1..] == out + tail;
      PrintedPairs(lx, field, done + [lo, up], more, rest);
    }
  }

  /** A printed set parses to the set, up to the values of infinite bounds. */
  lemma {:induction false} PrintedSet<T(!new)>(lx: Lexicon<T>, field: Field, s: seq<Point<T>>, rest: seq<Token>)
    requires ValidLexicon(lx) && lx.isField(field) && WellFormed(lx.lt, s) && !IsInfinite(s) && EndsSet(rest)
    ensures ParseSet(lx, PrintSet(lx, field, s) + rest) == Parsed((field, Norm(lx.zero, s)), rest)
  {
    if s == [] {
      var lo, up := Point(lx.zero, ExclusiveLower), Point(lx.zero, ExclusiveUpper);
      PrintedInterval(lx, field, lo, up, rest);
      EmptyIntervalIgnored(lx);
      hide ParseInterval, AddTo, ValidLexicon, PrintInterval;
    } else {
      PrintedNonEmptySet(lx, field, s, rest);
    }
  }

  lemma {:induction false} EmptyIntervalIgnored<T(!new)>(lx: Lexicon<T>)
    requires ValidLexicon(lx)
    ensures AddTo(lx, [], Interval(Point(lx.zero, ExclusiveLower), Point(lx.zero, ExclusiveUpper))) == []
  {
  }

  lemma {:induction false} PrintedNonEmptySet<T(!new)>(lx: Lexicon<T>, field: Field, s: seq<Point<T>>, rest: seq<Token>)
    requires ValidLexicon(lx) && lx.isField(field) && WellFormed(lx.lt, s) && !IsInfinite(s) && EndsSet(rest)
    requires s != []
    ensures ParseSet(lx, PrintSet(lx, field, s) + rest) == Parsed((field, Norm(lx.zero, s)), rest)
  {
    hide ParseInterval, AddTo, ValidLexicon, PrintInterval, PrintPairs, PrintSet, ParseMore, Less, Touch;
    assert |s| >= 2;
    hide WellFormed;
    var lo, up, more := s[0], s[1], s[2..];
    assert s == [] + [lo, up] + more && s == [lo, up] + more && [] + [lo, up] == [lo, up];
    AddNext(lx, [], lo, up, more);
    assert Norm(lx.zero, []) == [];
    var out := PrintInterval(lx, field, lo, up);
    var tail := PrintPairs(lx, field, more, true) + rest;
    PrintedInterval(lx, field, lo, up, tail);
    FirstTokens(lx, field, s, rest);
    PrintedPairs(lx, field, [lo, up], more, rest);
  }

  // ------------------------------------------------------------ conjuncts

  /** A conjunct as the parser stores it. */
  function ApplyPart(p: Pred, part: Part): Pred {
    match part
    case RowPart(s) => p.(rows := Some(Norm([], s)))
    case ColumnPart(s) => p.(columns := Some(Norm([], s)))
    case TimePart(t) => p.(times := Some(Norm(0, t)))
    case HistoryPart(k) => p.(maxHistory := k)
  }

  predicate Conflicts(p: Pred, part: Part) {
    match part
    case RowPart(_) => p.rows.Some?
    case ColumnPart(_) => p.columns.Some?
    case TimePart(_) => p.times.Some?
    case HistoryPart(_) => p.maxHistory != 0
  }

  lemma {:induction false} NotAString(ts: seq<Token>)
    requires ts != [] && ts[0] != FieldTok(Row) && ts[0] != FieldTok(Column) && !ts[0].StrTok?
    ensures ParseSet(StringLexicon(), ts) == NoMatch
  {
  }

  lemma {:induction false} NotATime(ts: seq<Token>)
    requires ts != [] && ts[0] != FieldTok(Time) && !ts[0].TimeTok?
    ensures ParseSet(TimeLexicon(), ts) == NoMatch
  {
  }

  lemma {:induction false} PrintedPart(p: Pred, part: Part, rest: seq<Token>)
    requires ValidPart(part) && !Conflicts(p, part) && EndsSet(rest)
    ensures ParsePart(p, PrintPart(part) + rest) == Parsed(ApplyPart(p, part), rest)
  {
    hide Less, Touch, Sorted, Alternating, Minimal, PrintSet, ParseSet, IsInfinite;
    LexiconsValid();
    match part
    case RowPart(s) =>
      PrintedSet(StringLexicon(), Row, s, rest);
    case ColumnPart(s) =>
      PrintedSet(StringLexicon(), Column, s, rest);
    case TimePart(t) =>
      var ts := PrintSet(TimeLexicon(), Time, t) + rest;
      PrintedSetStart(TimeLexicon(), Time, t, rest);
      NotAString(ts);
      PrintedSet(TimeLexicon(), Time, t, rest);
    case HistoryPart(k) =>
      var ts := [HistoryTok, OpTok(Eq), IntTok(k)] + rest;
      NotAString(ts);
      NotATime(ts);
      assert ts[3..] == rest;
  }

  function ApplyAll(p: Pred, parts: seq<Part>): Pred
    decreases |parts|
  {
    if parts == [] then p else ApplyAll(ApplyPart(p, parts[0]), parts[1..])
  }

  /** The parts are valid, constrain different things and nothing constrained already. */
  ghost predicate Fresh(p: Pred, parts: seq<Part>)
    decreases |parts|
  {
    parts == [] ||
    (ValidPart(parts[0]) && !Conflicts(p, parts[0]) && Fresh(ApplyPart(p, parts[0]), parts[1..]))
  }

  lemma {:induction false} FreshValid(p: Pred, parts: seq<Part>)
    requires Fresh(p, parts)
    ensures forall i :: 0 <= i < |parts| ==> ValidPart(parts[i])
    decreases |parts|
  {
    hide ValidPart, Conflicts, ApplyPart;
    if parts != [] {
      FreshValid(ApplyPart(p, parts[0]), parts[1..]);
      forall i | 0 <= i < |parts| ensures ValidPart(parts[i]) { if i > 0 { assert parts[i] == parts[1..][i - 1]; } }
    }
  }

  /** Conjuncts after the first. */
  lemma {:induction false} PrintedRest(p: Pred, parts: seq<Part>)
    requires Fresh(p, parts) && parts != []
    requires forall i :: 0 <= i < |parts| ==> ValidPart(parts[i])
    ensures ParseParts(p, [AndTok] + Join(parts)) == Parsed(ApplyAll(p, parts), [])
    decreases |parts|
  {
    hide ValidPart, Conflicts, ApplyPart, ParsePart, PrintPart;
    var ts := [AndTok] + Join(parts);
    var p' := ApplyPart(p, parts[0]);
    assert ts[1..] == Join(parts);
    if |parts| == 1 {
      PrintedPart(p, parts[0], []);
      assert PrintPart(parts[0]) + [] == Join(parts);
      assert parts[1..] == [];
      assert ParseParts(p', []) == Parsed(p', []);
    } else {
      var rest := [AndTok] + Join(parts[1..]);
      PrintedPart(p, parts[0], rest);
      assert PrintPart(parts[0]) + rest == Join(parts);
      PrintedRest(p', parts[1..]);
    }
  }

  lemma {:induction false} NothingToParse()
    ensures ParsePart(DefaultPred, []) == NoMatch
  {
  }

  lemma {:induction false} PrintedParts(parts: seq<Part>)
    requires Fresh(DefaultPred, parts)
    requires forall i :: 0 <= i < |parts| ==> ValidPart(parts[i])
    ensures ParsePred(Join(parts)) == Some(ApplyAll(DefaultPred, parts))
  {
    hide ValidPart, Conflicts, ApplyPart, PrintPart, ParsePart;
    if parts == [] {
      NothingToParse();
    } else if |parts| == 1 {
      PrintedPart(DefaultPred, parts[0], []);
      assert PrintPart(parts[0]) + [] == Join(parts);
      assert parts[1..] == [];
    } else {
      var rest := [AndTok] + Join(parts[1..]);
      PrintedPart(DefaultPred, parts[0], rest);
      assert PrintPart(parts[0]) + rest == Join(parts);
      PrintedRest(ApplyPart(DefaultPred, parts[0]), parts[1..]);
    }
  }

  // ------------------------------------------------------------ predicates

  function Normal(p: Pred): Pred {
    Pred(if p.rows.Some? && !IsInfinite(p.rows.value) then Some(Norm([], p.rows.value)) else None,
         if p.columns.Some? && !IsInfinite(p.columns.value) then Some(Norm([], p.columns.value)) else None,
         if p.times.Some? && !IsInfinite(p.times.value) then Some(Norm(0, p.times.value)) else None,
         p.maxHistory)
  }

  /** A fold over optional parts. */
  lemma {:induction false} ApplyConcat(p: Pred, a: seq<Part>, b: seq<Part>)
    ensures ApplyAll(p, a + b) == ApplyAll(ApplyAll(p, a), b)
    ensures Fresh(p, a) && Fresh(ApplyAll(p, a), b) ==> Fresh(p, a + b)
    decreases |a|
  {
    hide ValidPart, Conflicts, ApplyPart;
    if a == [] {
      assert a + b == b;
    } else {
      assert (a + b)[1..] == a[1..] + b;
      ApplyConcat(ApplyPart(p, a[0]), a[1..], b);
    }
  }

  lemma {:induction false} OnePart(p: Pred, part: Part, on: bool)
    requires on ==> ValidPart(part) && !Conflicts(p, part)
    ensures var parts := if on then [part] else [];
      Fresh(p, parts) && ApplyAll(p, parts) == if on then ApplyPart(p, part) else p
  {
    hide ValidPart, Conflicts, ApplyPart;
    if on { assert [part][1..] == []; }
  }

  lemma {:induction false} PartsApply(p: Pred)
    requires ValidPred(p)
    ensures Fresh(DefaultPred, Parts(p)) && ApplyAll(DefaultPred, Parts(p)) == Normal(p)
  {
    hide WellFormed, IsInfinite, Norm, Fresh, ApplyAll;
    var r := p.rows.Some? && !IsInfinite(p.rows.value);
    var c := p.columns.Some? && !IsInfinite(p.columns.value);
    var t := p.times.Some? && !IsInfinite(p.times.value);
    var h := p.maxHistory != 0;
    var rp := if r then RowPart(p.rows.value) else HistoryPart(1);
    var cp := if c then ColumnPart(p.columns.value) else HistoryPart(1);
    var tp := if t then TimePart(p.times.value) else HistoryPart(1);
    var hp := HistoryPart(p.maxHistory);
    var a := if r then [rp] else [];
    var b := if c then [cp] else [];
    var d := if t then [tp] else [];
    var e := if h then [hp] else [];
    assert Parts(p) == a + b + d + e;
    OnePart(DefaultPred, rp, r);
    var p1 := if r then ApplyPart(DefaultPred, rp) else DefaultPred;
    OnePart(p1, cp, c);
    var p2 := if c then ApplyPart(p1, cp) else p1;
    OnePart(p2, tp, t);
    var p3 := if t then ApplyPart(p2, tp) else p2;
    OnePart(p3, hp, h);
    ApplyConcat(DefaultPred, a, b);
    ApplyConcat(DefaultPred, a + b, d);
    ApplyConcat(DefaultPred, a + b + d, e);
  }

  lemma {:induction false} InfiniteHoldsAll<T(!new)>(lt: (T, T) -> bool, s: seq<Point<T>>, v: T)
    requires StrictOrder(lt) && WellFormed(lt, s) && IsInfinite(s)
    ensures Contains(lt, s, v)
  {
    hide StrictOrder;
    InfinitePairIsAll(lt, s, 0);
    SplitIsLowerBound(lt, s, Point(v, Value), 1);
  }

  lemma {:induction false} NormalSet<T(!new)>(lt: (T, T) -> bool, zero: T, s: seq<Point<T>>, v: T)
    requires StrictOrder(lt) && WellFormed(lt, s)
    ensures IsInfinite(s) ==> Contains(lt, s, v)
    ensures Contains(lt, Norm(zero, s), v) <==> Contains(lt, s, v)
  {
    hide StrictOrder, Contains, Less, Touch;
    NormContains(lt, zero, s, v);
    if IsInfinite(s) { InfiniteHoldsAll(lt, s, v); }
  }

  lemma {:induction false} NormalSelects(p: Pred, row: bytes, column: bytes, time: int)
    requires ValidPred(p)
    ensures Selects(Normal(p), row, column, time) <==> Selects(p, row, column, time)
  {
    hide WellFormed, Contains, IsInfinite, Norm;
    LexiconsValid();
    if p.rows.Some? { NormalSet(StrLess, [], p.rows.value, row); }
    if p.columns.Some? { NormalSet(StrLess, [], p.columns.value, column); }
    if p.times.Some? { NormalSet(TimeLess, 0, p.times.value, time); }
  }

  /** Every predicate survives printing and parsing: the result selects exactly the same cells and
      asks for the same history. */
  lemma {:induction false} PrintParse(p: Pred)
    requires ValidPred(p)
    ensures var r := ParsePred(Print(p));
      && r.Some? && r.value.maxHistory == p.maxHistory
      && forall row, column, time :: Selects(r.value, row, column, time) <==> Selects(p, row, column, time)
  {
    hide ParsePred, Parts, Join, Selects, WellFormed, IsInfinite;
    PartsValid(p);
    PartsApply(p);
    PrintedParts(Parts(p));
    forall row, column, time ensures Selects(Normal(p), row, column, time) <==> Selects(p, row, column, time) {
      NormalSelects(p, row, column, time);
    }
  }
}
