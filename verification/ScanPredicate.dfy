/** Scan predicates: the expression language at token level, printed and parsed. */
module ScanPredicate {
  import opened Options
  import opened IntervalSet
  import opened Strings

  datatype Field = Row | Column | Time

  datatype Op = Lt | Lte | Gt | Gte | Eq | StartsWith {
    predicate IsInequality() { Lt? || Lte? || Gt? || Gte? }
    predicate IsUpward() { Gt? || Gte? }
  }

  datatype Token =
    | FieldTok(field: Field)
    | OpTok(op: Op)
    | StrTok(str: bytes)
    | TimeTok(time: int)
    | IntTok(n: int)
    | OrTok
    | AndTok
    | HistoryTok

  /** What a parser returns: no match, a raised error, or a value and the tokens left. */
  datatype Parse<T> = NoMatch | Error | Parsed(value: T, rest: seq<Token>)

  /** What differs between string and time fields. `prefix` is the `~=` operator, if there is one. */
  datatype Lexicon<!T> = Lexicon(
    lt: (T, T) -> bool, zero: T, isField: Field -> bool,
    lit: T -> Token, read: Token -> Option<T>, prefix: T -> Option<Interval<T>>)

  ghost predicate ValidLexicon<T(!new)>(lx: Lexicon<T>) {
    && StrictOrder(lx.lt)
    && (forall v :: lx.read(lx.lit(v)) == Some(v) && !lx.lit(v).FieldTok?)
    && (forall f :: lx.read(FieldTok(f)) == None)
    && (forall v :: lx.prefix(v).Some? ==>
          lx.prefix(v).value.lo == Point(v, InclusiveLower) && lx.prefix(v).value.up.IsUpper() && !lx.prefix(v).value.up.IsInclusive())
  }

  function StringLexicon(): Lexicon<bytes> {
    Lexicon(StrLess, [], f => f != Time, v => StrTok(v),
            (t: Token) => if t.StrTok? then Some(t.str) else None, v => Some(PrefixInterval(v)))
  }

  predicate TimeLess(a: int, b: int) { a < b }

  function TimeLexicon(): Lexicon<int> {
    Lexicon(TimeLess, 0, f => f == Time, v => TimeTok(v),
            (t: Token) => if t.TimeTok? then Some(t.time) else None, v => None)
  }

  lemma {:induction false} LexiconsValid()
    ensures ValidLexicon(StringLexicon()) && ValidLexicon(TimeLexicon())
  {
    StrOrder();
  }

  // ------------------------------------------------------------ printing

  /** isPrefixBound */
  predicate IsPrefixBound<T(==)>(lx: Lexicon<T>, lo: Point<T>, up: Point<T>) {
    && lo.IsInclusive() && up.IsExclusive()
    && lx.prefix(lo.value).Some? && lx.prefix(lo.value).value.up == up
  }

  function LowerOp<T>(p: Point<T>): Op { if p.IsExclusive() then Gt else Gte }
  function UpperOp<T>(p: Point<T>): Op { if p.IsExclusive() then Lt else Lte }

  /** outputInterval; nothing is printed for an unbounded interval. */
  function PrintInterval<T(==)>(lx: Lexicon<T>, field: Field, lo: Point<T>, up: Point<T>): seq<Token> {
    if up.IsInfinite() then
      if lo.IsInfinite() then []
      else [FieldTok(field), OpTok(LowerOp(lo)), lx.lit(lo.value)]
    else if lo.IsInfinite() then
      [FieldTok(field), OpTok(UpperOp(up)), lx.lit(up.value)]
    else if lo.value == up.value && lo.IsInclusive() && up.IsInclusive() then
      [FieldTok(field), OpTok(Eq), lx.lit(lo.value)]
    else if IsPrefixBound(lx, lo, up) then
      [FieldTok(field), OpTok(StartsWith), lx.lit(lo.value)]
    else
      [lx.lit(lo.value), OpTok(UpperOp(lo)), FieldTok(field), OpTok(UpperOp(up)), lx.lit(up.value)]
  }

  function PrintPairs<T(==)>(lx: Lexicon<T>, field: Field, s: seq<Point<T>>, needOr: bool): seq<Token>
    requires |s| % 2 == 0
  {
    if s == [] then []
    else
      var out := PrintInterval(lx, field, s[0], s[1]);
      (if needOr then [OrTok] else []) + out + PrintPairs(lx, field, s[2..], needOr || out != [])
  }

  /** outputIntervalSet; the empty set is printed as an interval open around one value. */
  function PrintSet<T(==)>(lx: Lexicon<T>, field: Field, s: seq<Point<T>>): seq<Token>
    requires |s| % 2 == 0
  {
    if s == [] then PrintInterval(lx, field, Point(lx.zero, ExclusiveLower), Point(lx.zero, ExclusiveUpper))
    else PrintPairs(lx, field, s, false)
  }

  lemma {:induction false} PrintPairsStep<T>(lx: Lexicon<T>, field: Field, s: seq<Point<T>>, i: nat, needOr: bool, out: seq<Token>)
    requires |s| % 2 == 0 && i % 2 == 0 && i < |s|
    ensures var piece := PrintInterval(lx, field, s[i], s[i + 1]);
      out + PrintPairs(lx, field, s[i..], needOr)
      == (if needOr then out + [OrTok] else out) + piece + PrintPairs(lx, field, s[i + 2..], needOr || piece != [])
  {
    hide PrintInterval;
    assert s[i..][2..] == s[i + 2..];
  }

  /** The printer's loop over the end points. */
  method OutputIntervalSet<T(==)>(lx: Lexicon<T>, field: Field, s: seq<Point<T>>) returns (out: seq<Token>)
    requires |s| % 2 == 0
    ensures out == PrintSet(lx, field, s)
  {
    hide PrintInterval;
    if s == [] {
      return PrintInterval(lx, field, Point(lx.zero, ExclusiveLower), Point(lx.zero, ExclusiveUpper));
    }
    out := [];
    var i, needOr := 0, false;
    ghost var whole := PrintPairs(lx, field, s, false);
    assert s[0..] == s;
    while i < |s|
      invariant i <= |s| && i % 2 == 0
      invariant out + PrintPairs(lx, field, s[i..], needOr) == whole
    {
      PrintPairsStep(lx, field, s, i, needOr, out);
      var piece := PrintInterval(lx, field, s[i], s[i + 1]);
      if needOr { out := out + [OrTok]; }
      out := out + piece;
      if piece != [] { needOr := true; }
      i := i + 2;
    }
  }

  type StrSet = seq<Point<bytes>>
  type TimeSet = seq<Point<int>>

  datatype Pred = Pred(rows: Option<StrSet>, columns: Option<StrSet>, times: Option<TimeSet>, maxHistory: int)

  const DefaultPred := Pred(None, None, None, 0)

  predicate IsInfinite<T>(s: seq<Point<T>>) {
    |s| >= 2 && s[0].IsInfinite() && s[1].IsInfinite()
  }

  /** A cell is selected when every constraint that is set holds it. */
  predicate Selects(p: Pred, row: bytes, column: bytes, time: int) {
    && (p.rows.Some? ==> Contains(StrLess, p.rows.value, row))
    && (p.columns.Some? ==> Contains(StrLess, p.columns.value, column))
    && (p.times.Some? ==> Contains(TimeLess, p.times.value, time))
  }

  /** One conjunct of a printed predicate. */
  datatype Part = RowPart(s: StrSet) | ColumnPart(s: StrSet) | TimePart(t: TimeSet) | HistoryPart(k: int)

  /** The conjuncts operator<< prints: constraints that are set and not infinite. */
  function Parts(p: Pred): seq<Part> {
    (if p.rows.Some? && !IsInfinite(p.rows.value) then [RowPart(p.rows.value)] else [])
    + (if p.columns.Some? && !IsInfinite(p.columns.value) then [ColumnPart(p.columns.value)] else [])
    + (if p.times.Some? && !IsInfinite(p.times.value) then [TimePart(p.times.value)] else [])
    + (if p.maxHistory != 0 then [HistoryPart(p.maxHistory)] else [])
  }

  ghost predicate ValidPart(part: Part) {
    match part
    case RowPart(s) => WellFormed(StrLess, s) && !IsInfinite(s)
    case ColumnPart(s) => WellFormed(StrLess, s) && !IsInfinite(s)
    case TimePart(t) => WellFormed(TimeLess, t) && !IsInfinite(t)
    case HistoryPart(k) => k != 0
  }

  function PrintPart(part: Part): seq<Token>
    requires ValidPart(part)
  {
    match part
    case RowPart(s) => PrintSet(StringLexicon(), Row, s)
    case ColumnPart(s) => PrintSet(StringLexicon(), Column, s)
    case TimePart(t) => PrintSet(TimeLexicon(), Time, t)
    case HistoryPart(k) => [HistoryTok, OpTok(Eq), IntTok(k)]
  }

  function Join(parts: seq<Part>): seq<Token>
    requires forall i :: 0 <= i < |parts| ==> ValidPart(parts[i])
  {
    if parts == [] then []
    else if |parts| == 1 then PrintPart(parts[0])
    else PrintPart(parts[0]) + [AndTok] + Join(parts[1..])
  }

  ghost predicate ValidPred(p: Pred) {
    && (p.rows.Some? ==> WellFormed(StrLess, p.rows.value))
    && (p.columns.Some? ==> WellFormed(StrLess, p.columns.value))
    && (p.times.Some? ==> WellFormed(TimeLess, p.times.value))
  }

  lemma {:induction false} PartsValid(p: Pred)
    requires ValidPred(p)
    ensures forall i :: 0 <= i < |Parts(p)| ==> ValidPart(Parts(p)[i])
  {
    hide WellFormed, IsInfinite;
  }

  function Print(p: Pred): seq<Token>
    requires ValidPred(p)
  {
    PartsValid(p);
    Join(Parts(p))
  }

  /** A cell is described by a predicate when its row, column and time lie between end points of the sets
      that are given. */
  ghost predicate Described(p: Pred, row: bytes, column: bytes, time: int) {
    && (p.rows.Some? ==> InSome(StrLess, p.rows.value, row))
    && (p.columns.Some? ==> InSome(StrLess, p.columns.value, column))
    && (p.times.Some? ==> InSome(TimeLess, p.times.value, time))
  }

  lemma {:induction false} SelectsMeans(p: Pred, row: bytes, column: bytes, time: int)
    requires ValidPred(p)
    ensures Selects(p, row, column, time) <==> Described(p, row, column, time)
  {
    hide WellFormed, Contains, InSome, StrictOrder;
    LexiconsValid();
    if p.rows.Some? { ContainsMeans(StrLess, p.rows.value, row); }
    if p.columns.Some? { ContainsMeans(StrLess, p.columns.value, column); }
    if p.times.Some? { ContainsMeans(TimeLess, p.times.value, time); }
  }

  // ------------------------------------------------------------ parsing

  predicate Ineq(t: Token) { t.OpTok? && t.op.IsInequality() }

  /** Assign1 */
  function OneSided<T>(lx: Lexicon<T>, op: Op, v: T): Interval<T>
    requires op.IsInequality()
  {
    match op
    case Gt => Interval(Point(v, ExclusiveLower), Point(lx.zero, InfiniteUpper))
    case Gte => Interval(Point(v, InclusiveLower), Point(lx.zero, InfiniteUpper))
    case Lt => Interval(Point(lx.zero, InfiniteLower), Point(v, ExclusiveUpper))
    case Lte => Interval(Point(lx.zero, InfiniteLower), Point(v, InclusiveUpper))
  }

  function LowerPoint<T>(v: T, strict: bool): Point<T> { Point(v, if strict then ExclusiveLower else InclusiveLower) }
  function UpperPoint<T>(v: T, strict: bool): Point<T> { Point(v, if strict then ExclusiveUpper else InclusiveUpper) }

  /** Assign2: both inequalities must point the same way. */
  function TwoSided<T>(v1: T, op1: Op, op2: Op, v2: T): Option<Interval<T>>
    requires op1.IsInequality() && op2.IsInequality()
  {
    if op1.IsUpward() != op2.IsUpward() then None
    else if op1.IsUpward() then Some(Interval(LowerPoint(v2, op2.Gt?), UpperPoint(v1, op1.Gt?)))
    else Some(Interval(LowerPoint(v1, op1.Lt?), UpperPoint(v2, op2.Lt?)))
  }

  predicate IsField<T>(lx: Lexicon<T>, t: Token) { t.FieldTok? && lx.isField(t.field) }

  /** StringIntervalParser and TimeIntervalParser: the first alternative that matches. */
  function ParseInterval<T>(lx: Lexicon<T>, ts: seq<Token>): (r: Parse<(Field, Interval<T>)>)
    ensures r.Parsed? ==> |r.rest| < |ts|
  {
    if |ts| >= 3 && IsField(lx, ts[0]) && Ineq(ts[1]) && lx.read(ts[2]).Some? then
      Parsed((ts[0].field, OneSided(lx, ts[1].op, lx.read(ts[2]).value)), ts[3..])
    else if |ts| >= 5 && lx.read(ts[0]).Some? && Ineq(ts[1]) && IsField(lx, ts[2]) && Ineq(ts[3]) && lx.read(ts[4]).Some? then
      var x := TwoSided(lx.read(ts[0]).value, ts[1].op, ts[3].op, lx.read(ts[4]).value);
      if x.None? then Error else Parsed((ts[2].field, x.value), ts[5..])
    else if |ts| >= 3 && IsField(lx, ts[0]) && ts[1] == OpTok(Eq) && lx.read(ts[2]).Some? then
      var v := lx.read(ts[2]).value;
      Parsed((ts[0].field, Interval(Point(v, InclusiveLower), Point(v, InclusiveUpper))), ts[3..])
    else if |ts| >= 3 && IsField(lx, ts[0]) && ts[1] == OpTok(StartsWith) && lx.read(ts[2]).Some?
         && lx.prefix(lx.read(ts[2]).value).Some? then
      Parsed((ts[0].field, lx.prefix(lx.read(ts[2]).value).value), ts[3..])
    else NoMatch
  }

  /** IntervalSet::add, which ignores an empty interval. */
  function AddTo<T>(lx: Lexicon<T>, s: seq<Point<T>>, x: Interval<T>): seq<Point<T>> {
    if NonEmpty(lx.lt, x) then Added(lx.lt, s, x) else s
  }

  /** The rest of `interval % "or"`. An `or` that no interval follows is left unread. */
  function ParseMore<T>(lx: Lexicon<T>, field: Field, acc: seq<Point<T>>, ts: seq<Token>): (r: Parse<(Field, seq<Point<T>>)>)
    ensures r.Parsed? ==> |r.rest| <= |ts|
    decreases |ts|
  {
    if ts == [] || ts[0] != OrTok then Parsed((field, acc), ts)
    else
      match ParseInterval(lx, ts[1..])
      case NoMatch => Parsed((field, acc), ts)
      case Error => Error
      case Parsed((f, x), rest) =>
        if f != field then Error else ParseMore(lx, field, AddTo(lx, acc, x), rest)
  }

  /** IntervalSetParser */
  function ParseSet<T>(lx: Lexicon<T>, ts: seq<Token>): (r: Parse<(Field, seq<Point<T>>)>)
    ensures r.Parsed? ==> |r.rest| < |ts|
  {
    match ParseInterval(lx, ts)
    case NoMatch => NoMatch
    case Error => Error
    case Parsed((f, x), rest) => ParseMore(lx, f, AddTo(lx, [], x), rest)
  }

  /** One conjunct, with the updates that refuse a second constraint on the same field. */
  function ParsePart(p: Pred, ts: seq<Token>): (r: Parse<Pred>)
    ensures r.Parsed? ==> |r.rest| < |ts|
  {
    match ParseSet(StringLexicon(), ts)
    case Error => Error
    case Parsed((f, s), rest) =>
      if f == Row then (if p.rows.Some? then Error else Parsed(p.(rows := Some(s)), rest))
      else if f == Column then (if p.columns.Some? then Error else Parsed(p.(columns := Some(s)), rest))
      else Error
    case NoMatch =>
      match ParseSet(TimeLexicon(), ts)
      case Error => Error
      case Parsed((f, t), rest) =>
        if f == Time then (if p.times.Some? then Error else Parsed(p.(times := Some(t)), rest)) else Error
      case NoMatch =>
        if |ts| >= 3 && ts[0] == HistoryTok && ts[1] == OpTok(Eq) && ts[2].IntTok? then
          if p.maxHistory != 0 || ts[2].n == 0 then Error
          else Parsed(p.(maxHistory := ts[2].n), ts[3..])
        else NoMatch
  }

  function ParseParts(p: Pred, ts: seq<Token>): Parse<Pred>
    decreases |ts|
  {
    if ts == [] || ts[0] != AndTok then Parsed(p, ts)
    else
      match ParsePart(p, ts[1..])
      case NoMatch => Parsed(p, ts)
      case Error => Error
      case Parsed(p', rest) => ParseParts(p', rest)
  }

  /** ScanPredicate(expr): the whole expression must be consumed; None is a ValueError. */
  function ParsePred(ts: seq<Token>): Option<Pred> {
    var r := match ParsePart(DefaultPred, ts)
             case NoMatch => Parsed(DefaultPred, ts)
             case Error => Error
             case Parsed(p, rest) => ParseParts(p, rest);
    if r.Parsed? && r.rest == [] then Some(r.value) else None
  }
}
