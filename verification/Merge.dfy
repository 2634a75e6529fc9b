/** flux::Merge: an ordered merge of any number of sorted inputs, with or without duplicates. */
module Merge {
  import opened Options

  /** The value comparison is a strict weak order: different values may compare equal. */
  ghost predicate WeakOrder<T(!new)>(lt: (T, T) -> bool) {
    && (forall a :: !lt(a, a))
    && (forall a, b, c :: lt(a, b) && lt(b, c) ==> lt(a, c))
    && (forall a, b, c :: lt(a, c) ==> lt(a, b) || lt(b, c))
  }

  predicate Same<T>(lt: (T, T) -> bool, a: T, b: T) { !lt(a, b) && !lt(b, a) }

  ghost predicate Sorted<T>(lt: (T, T) -> bool, s: seq<T>) {
    forall i, j :: 0 <= i < j < |s| ==> !lt(s[j], s[i])
  }

  ghost predicate StrictlySorted<T>(lt: (T, T) -> bool, s: seq<T>) {
    forall i, j :: 0 <= i < j < |s| ==> lt(s[i], s[j])
  }

  /** The items of `s` that compare equal to `k`, in order. */
  ghost function Only<T>(lt: (T, T) -> bool, k: T, s: seq<T>): seq<T> {
    if s == [] then []
    else (if Same(lt, k, s[0]) then [s[0]] else []) + Only(lt, k, s[1..])
  }

  /** The same over all inputs, earlier inputs first. */
  ghost function OnlyAll<T>(lt: (T, T) -> bool, k: T, ins: seq<seq<T>>): seq<T> {
    if ins == [] then [] else Only(lt, k, ins[0]) + OnlyAll(lt, k, ins[1..])
  }

  /** What was taken and what is left is what was piped in, and items that compare equal keep their order:
      earlier inputs first, and within an input as it has them. */
  ghost predicate Conserves<T(!new)>(lt: (T, T) -> bool, ins: seq<seq<T>>, full: seq<T>, pend: seq<seq<T>>) {
    && |pend| == |ins|
    && (forall i :: 0 <= i < |pend| ==> Sorted(lt, pend[i]))
    && (forall k :: Only(lt, k, full) + OnlyAll(lt, k, pend) == OnlyAll(lt, k, ins))
  }

  /** What was taken is sorted, and nothing left goes before it. */
  ghost predicate Rises<T>(lt: (T, T) -> bool, full: seq<T>, pend: seq<seq<T>>) {
    && Sorted(lt, full)
    && (forall i, j, m :: 0 <= i < |pend| && 0 <= j < |pend[i]| && 0 <= m < |full| ==> !lt(pend[i][j], full[m]))
  }

  /** `full` is a stable sorted merge of what was taken from `ins`, `pend` is what is left. */
  ghost predicate Stable<T(!new)>(lt: (T, T) -> bool, ins: seq<seq<T>>, full: seq<T>, pend: seq<seq<T>>) {
    Conserves(lt, ins, full, pend) && Rises(lt, full, pend)
  }

  /** InputOrder: the least head, the lowest index among equals. */
  ghost predicate IsTop<T>(lt: (T, T) -> bool, pend: seq<seq<T>>, i: nat) {
    && i < |pend| && pend[i] != []
    && forall j :: 0 <= j < |pend| && pend[j] != [] ==>
         !lt(pend[j][0], pend[i][0]) && (j < i ==> lt(pend[i][0], pend[j][0]))
  }

  // ------------------------------------------------------------ one pop

  lemma {:induction false} OnlyConcat<T>(lt: (T, T) -> bool, k: T, a: seq<T>, b: seq<T>)
    ensures Only(lt, k, a + b) == Only(lt, k, a) + Only(lt, k, b)
  {
    if a == [] {
      assert a + b == b;
    } else {
      var h := if Same(lt, k, a[0]) then [a[0]] else [];
      assert (a + b)[1..] == a[1..] + b;
      OnlyConcat(lt, k, a[1..], b);
      hide Same;
      assert h + (Only(lt, k, a[1..]) + Only(lt, k, b)) == h + Only(lt, k, a[1..]) + Only(lt, k, b);
    }
  }

  lemma {:induction false} OnlyNone<T>(lt: (T, T) -> bool, k: T, s: seq<T>)
    requires forall i :: 0 <= i < |s| ==> !Same(lt, k, s[i])
    ensures Only(lt, k, s) == []
  {
    if s != [] { OnlyNone(lt, k, s[1..]); }
  }

  lemma {:induction false} OnlyOne<T>(lt: (T, T) -> bool, k: T, x: T)
    ensures Only(lt, k, [x]) == if Same(lt, k, x) then [x] else []
  {
    assert [x][1..] == [];
  }

  lemma {:induction false} OnlyHead<T>(lt: (T, T) -> bool, k: T, s: seq<T>)
    requires s != []
    ensures Only(lt, k, s) == Only(lt, k, [s[0]]) + Only(lt, k, s[1..])
  {
    OnlyOne(lt, k, s[0]);
  }

  lemma {:induction false} AroundNone<T>(a: seq<T>, b: seq<T>, c: seq<T>)
    requires a == [] || b == []
    ensures a + (b + c) == b + (a + c)
  {
    if a == [] { assert a + (b + c) == b + c && a + c == c; } else { assert b + c == c && b + (a + c) == a + c; }
  }

  /** Removing the head of input `i` removes the front of what is equal to it, if nothing before
      input `i` is. */
  lemma {:induction false} OnlyAllPop<T>(lt: (T, T) -> bool, k: T, pend: seq<seq<T>>, i: nat)
    requires i < |pend| && pend[i] != []
    requires Same(lt, k, pend[i][0]) ==> forall j :: 0 <= j < i ==> Only(lt, k, pend[j]) == []
    ensures OnlyAll(lt, k, pend) == Only(lt, k, [pend[i][0]]) + OnlyAll(lt, k, pend[i := pend[i][1..]])
  {
    var x, p' := pend[i][0], pend[i := pend[i][1..]];
    OnlyOne(lt, k, x);
    if i == 0 {
      OnlyHead(lt, k, pend[0]);
      hide Only, Same;
      assert p'[1..] == pend[1..];
      assert Only(lt, k, [x]) + Only(lt, k, p'[0]) + OnlyAll(lt, k, pend[1..])
          == Only(lt, k, [x]) + (Only(lt, k, p'[0]) + OnlyAll(lt, k, pend[1..]));
    } else {
      hide Only, Same;
      assert p'[1..] == pend[1..][i - 1 := pend[i][1..]] && p'[0] == pend[0];
      OnlyAllPop(lt, k, pend[1..], i - 1);
      AroundNone(Only(lt, k, pend[0]), Only(lt, k, [x]), OnlyAll(lt, k, p'[1..]));
    }
  }

  /** Nothing in an earlier input equals the top. */
  lemma {:induction false} NothingEarlier<T(!new)>(lt: (T, T) -> bool, pend: seq<seq<T>>, i: nat, k: T, j: nat)
    requires WeakOrder(lt) && IsTop(lt, pend, i) && Same(lt, k, pend[i][0]) && j < i && Sorted(lt, pend[j])
    ensures Only(lt, k, pend[j]) == []
  {
    hide Only;
    var x, s := pend[i][0], pend[j];
    forall m | 0 <= m < |s| ensures !Same(lt, k, s[m]) {
      assert lt(x, s[0]);
      assert m > 0 ==> !lt(s[m], s[0]);
      assert lt(x, s[m]);
    }
    OnlyNone(lt, k, s);
  }

  /** Taking the top keeps items and the order of equal ones. */
  lemma {:induction false} PopConserves<T(!new)>(lt: (T, T) -> bool, ins: seq<seq<T>>, full: seq<T>, pend: seq<seq<T>>, i: nat)
    requires WeakOrder(lt) && Conserves(lt, ins, full, pend) && IsTop(lt, pend, i)
    ensures Conserves(lt, ins, full + [pend[i][0]], pend[i := pend[i][1..]])
  {
    var x, p' := pend[i][0], pend[i := pend[i][1..]];
    forall k ensures Only(lt, k, full + [x]) + OnlyAll(lt, k, p') == OnlyAll(lt, k, ins) {
      PopKeepsOnly(lt, ins, full, pend, i, k);
    }
    hide WeakOrder, Only, OnlyAll;
    forall j | 0 <= j < |p'| ensures Sorted(lt, p'[j]) {
      assert Sorted(lt, pend[j]);
    }
  }

  /** Taking the top keeps the merge stable and sorted. */
  lemma {:induction false} PopStable<T(!new)>(lt: (T, T) -> bool, ins: seq<seq<T>>, full: seq<T>, pend: seq<seq<T>>, i: nat)
    requires WeakOrder(lt) && Stable(lt, ins, full, pend) && IsTop(lt, pend, i)
    ensures Stable(lt, ins, full + [pend[i][0]], pend[i := pend[i][1..]])
  {
    hide Only, OnlyAll;
    PopConserves(lt, ins, full, pend, i);
    PopKeepsOrder(lt, full, pend, i);
  }

  lemma {:induction false} PopKeepsOnly<T(!new)>(lt: (T, T) -> bool, ins: seq<seq<T>>, full: seq<T>, pend: seq<seq<T>>, i: nat, k: T)
    requires WeakOrder(lt) && IsTop(lt, pend, i)
    requires forall j :: 0 <= j < |pend| ==> Sorted(lt, pend[j])
    requires Only(lt, k, full) + OnlyAll(lt, k, pend) == OnlyAll(lt, k, ins)
    ensures Only(lt, k, full + [pend[i][0]]) + OnlyAll(lt, k, pend[i := pend[i][1..]]) == OnlyAll(lt, k, ins)
  {
    hide Only, OnlyAll, WeakOrder, Sorted;
    var x, p' := pend[i][0], pend[i := pend[i][1..]];
    if Same(lt, k, x) {
      forall j | 0 <= j < i ensures Only(lt, k, pend[j]) == [] { NothingEarlier(lt, pend, i, k, j); }
    }
    OnlyAllPop(lt, k, pend, i);
    OnlyConcat(lt, k, full, [x]);
    assert Only(lt, k, full) + Only(lt, k, [x]) + OnlyAll(lt, k, p')
        == Only(lt, k, full) + (Only(lt, k, [x]) + OnlyAll(lt, k, p'));
  }

  lemma {:induction false} PopKeepsOrder<T(!new)>(lt: (T, T) -> bool, full: seq<T>, pend: seq<seq<T>>, i: nat)
    requires WeakOrder(lt) && IsTop(lt, pend, i) && Sorted(lt, full)
    requires forall j :: 0 <= j < |pend| ==> Sorted(lt, pend[j])
    requires forall i, j, m :: 0 <= i < |pend| && 0 <= j < |pend[i]| && 0 <= m < |full| ==> !lt(pend[i][j], full[m])
    ensures var x, p' := pend[i][0], pend[i := pend[i][1..]];
      && Sorted(lt, full + [x])
      && (forall j :: 0 <= j < |p'| ==> Sorted(lt, p'[j]))
      && (forall a, b, m :: 0 <= a < |p'| && 0 <= b < |p'[a]| && 0 <= m < |full + [x]| ==> !lt(p'[a][b], (full + [x])[m]))
  {
    var x, p' := pend[i][0], pend[i := pend[i][1..]];
    forall a, b | 0 <= a < |pend| && 0 <= b < |pend[a]| ensures !lt(pend[a][b], x) {
      assert !lt(pend[a][0], x);
      assert b > 0 ==> !lt(pend[a][b], pend[a][0]);
    }
    hide WeakOrder;
    var full' := full + [x];
    forall a, b, m | 0 <= a < |p'| && 0 <= b < |p'[a]| && 0 <= m < |full'| ensures !lt(p'[a][b], full'[m]) {
      assert p'[a][b] == pend[a][if a == i then b + 1 else b];
    }
    forall j | 0 <= j < |p'| ensures Sorted(lt, p'[j]) {
      assert Sorted(lt, pend[j]);
    }
  }

  // ------------------------------------------------------------ dropping duplicates

  /** The first of each group of neighbours that compare equal. */
  ghost function Dedup<T>(lt: (T, T) -> bool, s: seq<T>): seq<T> {
    if s == [] then []
    else
      var init, x := Dedup(lt, s[..|s| - 1]), s[|s| - 1];
      if init != [] && !lt(init[|init| - 1], x) then init else init + [x]
  }

  ghost function First<T>(s: seq<T>): seq<T> { if s == [] then [] else [s[0]] }

  lemma {:induction false} StrictSnoc<T(!new)>(lt: (T, T) -> bool, d: seq<T>, x: T)
    requires WeakOrder(lt) && StrictlySorted(lt, d) && (d != [] ==> lt(d[|d| - 1], x))
    ensures StrictlySorted(lt, d + [x])
  {
    forall i | 0 <= i < |d| ensures lt(d[i], x) {
      assert i < |d| - 1 ==> lt(d[i], d[|d| - 1]);
    }
  }

  /** On a sorted sequence deduplication leaves one item per key, the first one. */
  lemma {:induction false} DedupSorted<T(!new)>(lt: (T, T) -> bool, s: seq<T>)
    requires WeakOrder(lt) && Sorted(lt, s)
    ensures StrictlySorted(lt, Dedup(lt, s))
    ensures s != [] ==> Dedup(lt, s) != [] && Same(lt, Dedup(lt, s)[|Dedup(lt, s)| - 1], s[|s| - 1])
  {
    if s != [] {
      var p, x := s[..|s| - 1], s[|s| - 1];
      assert !lt(x, x);
      assert p != [] ==> !lt(x, p[|p| - 1]);
      hide WeakOrder, Same;
      assert Sorted(lt, p);
      DedupSorted(lt, p);
      var d := Dedup(lt, p);
      SameLast(lt, p, d, x);
      hide Sorted, StrictlySorted;
      if d == [] || lt(d[|d| - 1], x) { StrictSnoc(lt, d, x); }
    }
  }

  lemma {:induction false} SameLast<T(!new)>(lt: (T, T) -> bool, p: seq<T>, d: seq<T>, x: T)
    requires WeakOrder(lt) && (p != [] ==> d != [] && Same(lt, d[|d| - 1], p[|p| - 1]) && !lt(x, p[|p| - 1]))
    ensures Same(lt, x, x) && (p != [] && !lt(d[|d| - 1], x) ==> Same(lt, d[|d| - 1], x))
  {
  }

  lemma {:induction false} DedupOnly<T(!new)>(lt: (T, T) -> bool, s: seq<T>, k: T)
    requires WeakOrder(lt) && Sorted(lt, s)
    ensures Only(lt, k, Dedup(lt, s)) == First(Only(lt, k, s))
  {
    if s != [] {
      var p, x := s[..|s| - 1], s[|s| - 1];
      assert s == p + [x];
      DedupOnly(lt, p, k);
      DedupSorted(lt, p);
      DedupStep(lt, p, x, k);
    }
  }

  lemma {:induction false} DedupSnoc<T>(lt: (T, T) -> bool, p: seq<T>, x: T)
    ensures var d := Dedup(lt, p);
      Dedup(lt, p + [x]) == if d != [] && !lt(d[|d| - 1], x) then d else d + [x]
  {
    assert (p + [x])[..|p|] == p;
  }

  /** A value after an equal one is dropped, and is not the first of its key. */
  lemma {:induction false} OnlyEndsWith<T>(lt: (T, T) -> bool, k: T, p: seq<T>)
    requires p != [] && Same(lt, k, p[|p| - 1])
    ensures Only(lt, k, p) != []
  {
    var last := p[|p| - 1];
    assert p == p[..|p| - 1] + [last];
    OnlyConcat(lt, k, p[..|p| - 1], [last]);
    OnlyOne(lt, k, last);
  }

  lemma {:induction false} DedupStep<T(!new)>(lt: (T, T) -> bool, p: seq<T>, x: T, k: T)
    requires WeakOrder(lt) && Sorted(lt, p + [x])
    requires Only(lt, k, Dedup(lt, p)) == First(Only(lt, k, p))
    requires StrictlySorted(lt, Dedup(lt, p))
    requires p != [] ==> Dedup(lt, p) != [] && Same(lt, Dedup(lt, p)[|Dedup(lt, p)| - 1], p[|p| - 1])
    ensures Only(lt, k, Dedup(lt, p + [x])) == First(Only(lt, k, p + [x]))
  {
    var d := Dedup(lt, p);
    DedupSnoc(lt, p, x);
    OnlyOne(lt, k, x);
    OnlyConcat(lt, k, p, [x]);
    if p == [] {
      assert d == [];
      assert p + [x] == [x] && d + [x] == [x];
    } else {
      var last := p[|p| - 1];
      assert (p + [x])[|p| - 1] == last && (p + [x])[|p|] == x;
      assert !lt(x, last);
      hide Only, Dedup;
      if !lt(d[|d| - 1], x) {
        if Same(lt, k, x) { OnlyEndsWith(lt, k, p); }
      } else {
        OnlyConcat(lt, k, d, [x]);
        if Same(lt, k, x) {
          NoneBefore(lt, d, x, k);
        }
      }
    }
  }

  lemma {:induction false} NoneBefore<T(!new)>(lt: (T, T) -> bool, d: seq<T>, x: T, k: T)
    requires WeakOrder(lt) && StrictlySorted(lt, d) && d != [] && lt(d[|d| - 1], x) && Same(lt, k, x)
    ensures Only(lt, k, d) == []
  {
    forall i | 0 <= i < |d| ensures !Same(lt, k, d[i]) {
      assert i < |d| - 1 ==> lt(d[i], d[|d| - 1]);
      assert lt(d[i], x);
    }
    OnlyNone(lt, k, d);
  }

  // ------------------------------------------------------------ the merge

  lemma {:induction false} SameSide<T(!new)>(lt: (T, T) -> bool, a: T, b: T, x: T)
    requires WeakOrder(lt) && Same(lt, a, b)
    ensures lt(a, x) <==> lt(b, x)
  {
  }

  /** Heads equal to the last item taken are duplicates of it. */
  lemma {:induction false} DedupSkips<T(!new)>(lt: (T, T) -> bool, full: seq<T>, x: T)
    requires WeakOrder(lt) && Sorted(lt, full + [x]) && full != [] && !lt(full[|full| - 1], x)
    ensures Dedup(lt, full + [x]) == Dedup(lt, full)
  {
    hide WeakOrder, Sorted, Dedup, Same;
    SortedFront(lt, full, x);
    DedupSorted(lt, full);
    DedupSnoc(lt, full, x);
    var d := Dedup(lt, full);
    SameSide(lt, d[|d| - 1], full[|full| - 1], x);
  }

  lemma {:induction false} DedupTakes<T(!new)>(lt: (T, T) -> bool, full: seq<T>, x: T)
    requires WeakOrder(lt) && Sorted(lt, full) && (full == [] || lt(full[|full| - 1], x))
    ensures Dedup(lt, full + [x]) == Dedup(lt, full) + [x]
  {
    hide WeakOrder, Sorted, Dedup, Same;
    DedupSorted(lt, full);
    DedupSnoc(lt, full, x);
    if full == [] {
      DedupEmpty(lt);
    } else {
      var d := Dedup(lt, full);
      SameSide(lt, d[|d| - 1], full[|full| - 1], x);
    }
  }

  lemma {:induction false} DedupEmpty<T>(lt: (T, T) -> bool)
    ensures Dedup(lt, []) == []
  {
  }

  /** Nothing left to take: what was taken is the whole merge. */
  ghost predicate Exhausted<T>(pend: seq<seq<T>>) {
    forall i :: 0 <= i < |pend| ==> pend[i] == []
  }

  lemma {:induction false} ExhaustedOnly<T>(lt: (T, T) -> bool, k: T, pend: seq<seq<T>>)
    requires Exhausted(pend)
    ensures OnlyAll(lt, k, pend) == []
  {
    if pend != [] { ExhaustedOnly(lt, k, pend[1..]); }
  }

  lemma {:induction false} StableStart<T(!new)>(lt: (T, T) -> bool, ins: seq<seq<T>>)
    requires forall i :: 0 <= i < |ins| ==> Sorted(lt, ins[i])
    ensures Stable(lt, ins, [], ins)
  {
    forall k ensures Only(lt, k, []) + OnlyAll(lt, k, ins) == OnlyAll(lt, k, ins) { assert Only(lt, k, []) == []; }
  }

  /** The inputs with an item read ahead. */
  ghost function Filled<T>(values: seq<Option<T>>): (h: set<nat>)
    ensures forall i :: i in h <==> 0 <= i < |values| && values[i].Some?
  {
    set i | 0 <= i < |values| && values[i].Some?
  }

  lemma {:induction false} FilledUpdate<T>(values: seq<Option<T>>, k: nat, v: Option<T>)
    requires k < |values|
    ensures Filled(values[k := v]) == if v.Some? then Filled(values) + {k} else Filled(values) - {k}
  {
  }

  /** The item read ahead from each input, in front of what its stream has left. */
  ghost function PendingOf<T>(values: seq<Option<T>>, streams: seq<seq<T>>): (p: seq<seq<T>>)
    requires |values| == |streams|
    ensures |p| == |streams|
  {
    seq(|streams|, i requires 0 <= i < |streams| => if values[i].Some? then [values[i].value] + streams[i] else streams[i])
  }

  lemma {:induction false} PendingLate<T>(values: seq<Option<T>>, streams: seq<seq<T>>, s: seq<T>)
    requires |values| == |streams|
    ensures PendingOf(values + [None], streams + [s]) == PendingOf(values, streams) + [s]
  {
  }

  lemma {:induction false} FilledLate<T>(values: seq<Option<T>>)
    ensures Filled(values + [None]) == Filled(values)
  {
  }

  /** readNext into an empty slot changes nothing pending. */
  lemma {:induction false} ReadIntoEmpty<T>(values: seq<Option<T>>, streams: seq<seq<T>>, k: nat)
    requires |values| == |streams| && k < |values| && values[k].None? && streams[k] != []
    ensures PendingOf(values[k := Some(streams[k][0])], streams[k := streams[k][1..]]) == PendingOf(values, streams)
  {
    assert [streams[k][0]] + streams[k][1..] == streams[k];
  }

  /** Every input that has an item has one read ahead. */
  ghost predicate ReadAhead<T>(values: seq<Option<T>>, streams: seq<seq<T>>)
    requires |values| == |streams|
  {
    forall i :: 0 <= i < |values| && values[i].None? ==> streams[i] == []
  }

  /** readNext over a value drops that value. */
  lemma {:induction false} ReadOver<T>(values: seq<Option<T>>, streams: seq<seq<T>>, k: nat)
    requires |values| == |streams| && k < |values| && values[k].Some?
    ensures var p := PendingOf(values, streams);
      && p[k] != [] && p[k][0] == values[k].value
      && (if streams[k] == [] then PendingOf(values[k := None], streams)
          else PendingOf(values[k := Some(streams[k][0])], streams[k := streams[k][1..]])) == p[k := p[k][1..]]
  {
    var p := PendingOf(values, streams);
    assert p[k][1..] == streams[k];
    if streams[k] != [] { assert [streams[k][0]] + streams[k][1..] == streams[k]; }
  }

  /** readNext keeps every other input read ahead. */
  lemma {:induction false} ReadKeepsAhead<T>(values: seq<Option<T>>, streams: seq<seq<T>>, k: nat)
    requires |values| == |streams| && k < |values| && values[k].Some? && ReadAhead(values, streams)
    ensures streams[k] == [] ==> ReadAhead(values[k := None], streams)
    ensures streams[k] != [] ==> ReadAhead(values[k := Some(streams[k][0])], streams[k := streams[k][1..]])
  {
  }

  lemma {:induction false} SomeFilled<T>(values: seq<Option<T>>)
    requires Filled(values) != {}
    ensures exists i :: 0 <= i < |values| && values[i].Some?
  {
    var i :| i in Filled(values);
  }

  lemma {:induction false} NoneFilled<T>(values: seq<Option<T>>, streams: seq<seq<T>>)
    requires |values| == |streams| && ReadAhead(values, streams) && Filled(values) == {}
    ensures Exhausted(PendingOf(values, streams))
  {
    forall i | 0 <= i < |values| ensures values[i].None? { assert values[i].Some? ==> i in Filled(values); }
  }

  ghost predicate HeadsAbove<T>(lt: (T, T) -> bool, x: T, pend: seq<seq<T>>) {
    forall i :: 0 <= i < |pend| && pend[i] != [] ==> lt(x, pend[i][0])
  }

  lemma {:induction false} TopAbove<T(!new)>(lt: (T, T) -> bool, last: T, x: T, pend: seq<seq<T>>, top: nat)
    requires WeakOrder(lt) && IsTop(lt, pend, top) && Same(lt, last, x) && lt(x, pend[top][0])
    ensures HeadsAbove(lt, last, pend)
  {
    forall i | 0 <= i < |pend| && pend[i] != [] ensures lt(last, pend[i][0]) {
      assert lt(x, pend[i][0]);
    }
  }

  lemma {:induction false} AboveTop<T(!new)>(lt: (T, T) -> bool, x: T, pend: seq<seq<T>>, top: nat)
    requires WeakOrder(lt) && IsTop(lt, pend, top) && lt(x, pend[top][0])
    ensures HeadsAbove(lt, x, pend)
  {
  }

  /** No item left goes before `x`. */
  ghost predicate NoneBelow<T>(lt: (T, T) -> bool, x: T, pend: seq<seq<T>>) {
    forall i :: 0 <= i < |pend| && pend[i] != [] ==> !lt(pend[i][0], x)
  }

  lemma {:induction false} TopIsBelowNone<T(!new)>(lt: (T, T) -> bool, pend: seq<seq<T>>, t: nat)
    requires WeakOrder(lt) && IsTop(lt, pend, t) && Sorted(lt, pend[t])
    ensures NoneBelow(lt, pend[t][0], pend[t := pend[t][1..]])
  {
  }

  /** An item taken while the top does not exceed the last one equals it, and leaves none below. */
  lemma {:induction false} TopsAgree<T(!new)>(lt: (T, T) -> bool, x: T, pend: seq<seq<T>>, top: nat, t: nat)
    requires WeakOrder(lt) && IsTop(lt, pend, top) && IsTop(lt, pend, t) && Sorted(lt, pend[t])
    requires !lt(x, pend[top][0]) && NoneBelow(lt, x, pend)
    ensures Same(lt, pend[t][0], x) && NoneBelow(lt, x, pend[t := pend[t][1..]])
  {
    hide Sorted;
    var y := pend[t][0];
    assert !lt(y, x) && !lt(pend[top][0], y);
    assert !lt(x, y);
    TopIsBelowNone(lt, pend, t);
    var p' := pend[t := pend[t][1..]];
    forall i | 0 <= i < |p'| && p'[i] != [] ensures !lt(p'[i][0], x) {
      assert !lt(p'[i][0], y);
    }
  }

  /** Among the first `k` inputs `top` comes first in InputOrder. */
  ghost predicate LeastOf<T>(lt: (T, T) -> bool, values: seq<Option<T>>, top: nat, k: nat) {
    && top < k <= |values| && values[top].Some?
    && forall j :: 0 <= j < k && values[j].Some? ==>
         !lt(values[j].value, values[top].value) && (j < top ==> lt(values[top].value, values[j].value))
  }

  lemma {:induction false} LeastStart<T(!new)>(lt: (T, T) -> bool, values: seq<Option<T>>, k: nat)
    requires WeakOrder(lt) && k < |values| && values[k].Some? && forall j :: 0 <= j < k ==> values[j].None?
    ensures LeastOf(lt, values, k, k + 1)
  {
  }

  lemma {:induction false} LeastNext<T(!new)>(lt: (T, T) -> bool, values: seq<Option<T>>, top: nat, k: nat)
    requires WeakOrder(lt) && LeastOf(lt, values, top, k) && k < |values|
    ensures values[top].Some?
    ensures LeastOf(lt, values, if values[k].Some? && lt(values[k].value, values[top].value) then k else top, k + 1)
  {
    if values[k].Some? && lt(values[k].value, values[top].value) {
      forall j | 0 <= j < k && values[j].Some?
        ensures lt(values[k].value, values[j].value) && !lt(values[j].value, values[k].value)
      {
        Overtakes(lt, values[k].value, values[top].value, values[j].value);
      }
      assert !lt(values[k].value, values[k].value);
    }
  }

  /** What the heap's top means for the pending items. */
  lemma {:induction false} LeastIsTop<T>(lt: (T, T) -> bool, values: seq<Option<T>>, streams: seq<seq<T>>, top: nat)
    requires |values| == |streams| && ReadAhead(values, streams) && LeastOf(lt, values, top, |values|)
    ensures IsTop(lt, PendingOf(values, streams), top)
    ensures top < |values| && values[top].Some? && PendingOf(values, streams)[top][0] == values[top].value
  {
    var p := PendingOf(values, streams);
    forall j | 0 <= j < |p| && p[j] != [] ensures !lt(p[j][0], p[top][0]) && (j < top ==> lt(p[top][0], p[j][0])) {
      assert values[j].Some?;
    }
  }

  /** What is less than the best so far is less than all that the best is not greater than. */
  lemma {:induction false} Overtakes<T(!new)>(lt: (T, T) -> bool, a: T, best: T, c: T)
    requires WeakOrder(lt) && lt(a, best) && !lt(c, best)
    ensures lt(a, c) && !lt(c, a)
  {
  }

  // ------------------------------------------------------------ an input that comes late

  /** The input can still be merged in order: it starts no lower than what was taken last, and higher if
      duplicates of that were already dropped. */
  ghost predicate InTime<T>(lt: (T, T) -> bool, strictly: bool, full: seq<T>, s: seq<T>) {
    full != [] && s != [] ==> if strictly then lt(full[|full| - 1], s[0]) else !lt(s[0], full[|full| - 1])
  }

  lemma {:induction false} InTimeAbove<T>(lt: (T, T) -> bool, x: T, pend: seq<seq<T>>, s: seq<T>)
    requires HeadsAbove(lt, x, pend) && (s != [] ==> lt(x, s[0]))
    ensures HeadsAbove(lt, x, pend + [s])
  {
  }

  lemma {:induction false} OnlyAllSnoc<T>(lt: (T, T) -> bool, k: T, ins: seq<seq<T>>, s: seq<T>)
    ensures OnlyAll(lt, k, ins + [s]) == OnlyAll(lt, k, ins) + Only(lt, k, s)
  {
    hide Only;
    if ins == [] {
      assert ins + [s] == [s] && [s][1..] == [];
      assert OnlyAll(lt, k, [s]) == Only(lt, k, s) + OnlyAll(lt, k, [s][1..]);
    } else {
      assert (ins + [s])[1..] == ins[1..] + [s];
      OnlyAllSnoc(lt, k, ins[1..], s);
      assert Only(lt, k, ins[0]) + (OnlyAll(lt, k, ins[1..]) + Only(lt, k, s))
          == Only(lt, k, ins[0]) + OnlyAll(lt, k, ins[1..]) + Only(lt, k, s);
    }
  }

  lemma {:induction false} LateConserves<T(!new)>(lt: (T, T) -> bool, ins: seq<seq<T>>, full: seq<T>, pend: seq<seq<T>>, s: seq<T>)
    requires Conserves(lt, ins, full, pend) && Sorted(lt, s)
    ensures Conserves(lt, ins + [s], full, pend + [s])
  {
    hide Only, OnlyAll, Sorted;
    forall k ensures Only(lt, k, full) + OnlyAll(lt, k, pend + [s]) == OnlyAll(lt, k, ins + [s]) {
      OnlyAllSnoc(lt, k, pend, s);
      OnlyAllSnoc(lt, k, ins, s);
      assert Only(lt, k, full) + (OnlyAll(lt, k, pend) + Only(lt, k, s)) == Only(lt, k, full) + OnlyAll(lt, k, pend) + Only(lt, k, s);
    }
  }

  lemma {:induction false} LateRises<T(!new)>(lt: (T, T) -> bool, strictly: bool, full: seq<T>, pend: seq<seq<T>>, s: seq<T>)
    requires WeakOrder(lt) && Rises(lt, full, pend) && Sorted(lt, s) && InTime(lt, strictly, full, s)
    ensures Rises(lt, full, pend + [s])
  {
    if full != [] && s != [] {
      var last := full[|full| - 1];
      assert !lt(s[0], last);
      forall j, m | 0 <= j < |s| && 0 <= m < |full| ensures !lt(s[j], full[m]) {
        assert j > 0 ==> !lt(s[j], s[0]);
        assert m < |full| - 1 ==> !lt(last, full[m]);
        assert !lt(s[j], last);
      }
    }
  }

  /** Merge. A stream is the items it has left; `values` holds the item read ahead from each input,
      and `heap` the inputs that have one. `ins` and `full` record what was piped in and taken out. */
  class Merge<T(!new)> {
    const lt: (T, T) -> bool
    const mergeUnique: bool
    var streams: seq<seq<T>>
    var values: seq<Option<T>>
    var heap: set<nat>
    var inputChanged: bool
    ghost var ins: seq<seq<T>>
    ghost var full: seq<T>

    /** Every input came before the first read, or in time. */
    ghost var onTime: bool

    ghost predicate Valid()
      reads this
    {
      Consistent() && (mergeUnique && onTime ==> Beyond())
    }

    ghost predicate Consistent()
      reads this
    {
      && WeakOrder(lt) && |values| == |streams|
      && heap == Filled(values)
      && (!inputChanged ==> ReadAhead(values, streams))
      && Conserves(lt, ins, full, Pending()) && (onTime ==> Rises(lt, full, Pending()))
    }

    /** In a unique merge nothing left equals what was returned last. */
    ghost predicate Beyond()
      requires |values| == |streams|
      reads this
    {
      full != [] ==> HeadsAbove(lt, full[|full| - 1], Pending())
    }

    /** What each input still has to give. */
    ghost function Pending(): (p: seq<seq<T>>)
      reads this
      requires |values| == |streams|
    {
      PendingOf(values, streams)
    }

    /** What the caller has received. */
    ghost function Returned(): seq<T>
      reads this
    {
      if mergeUnique then Dedup(lt, full) else full
    }

    constructor (lt: (T, T) -> bool, mergeUnique: bool)
      requires WeakOrder(lt)
      ensures Valid() && this.lt == lt && this.mergeUnique == mergeUnique
      ensures onTime && ins == [] && full == [] && Pending() == []
    {
      this.lt, this.mergeUnique := lt, mergeUnique;
      streams, values, heap, inputChanged := [], [], {}, false;
      ins, full, onTime := [], [], true;
      new;
      assert PendingOf<T>([], []) == [];
      StableStart(lt, []);
    }

    /** Add an input, at any time. */
    method PipeFrom(s: seq<T>)
      requires Valid() && Sorted(lt, s)
      modifies this
      ensures Valid() && ins == old(ins) + [s] && full == old(full) && Pending() == old(Pending()) + [s]
      ensures onTime <==> old(onTime) && InTime(lt, mergeUnique, full, s)
    {
      hide Conserves, Rises, WeakOrder, Sorted, PendingOf, Filled, HeadsAbove;
      ghost var p := Pending();
      PendingLate(values, streams, s);
      FilledLate(values);
      LateConserves(lt, ins, full, p, s);
      if onTime && InTime(lt, mergeUnique, full, s) { LateRises(lt, mergeUnique, full, p, s); }
      onTime := onTime && InTime(lt, mergeUnique, full, s);
      streams, values, inputChanged := streams + [s], values + [None], true;
      ins := ins + [s];
      if mergeUnique && onTime && full != [] { InTimeAbove(lt, full[|full| - 1], p, s); }
    }

    /** MinHeap::top: the input first in InputOrder among those in the heap. */
    method Top() returns (top: nat)
      requires WeakOrder(lt) && heap == Filled(values) && heap != {}
      ensures LeastOf(lt, values, top, |values|)
    {
      hide WeakOrder, LeastOf, Filled;
      SomeFilled(values);
      var best: Option<nat> := None;
      var k := 0;
      while k < |values|
        invariant k <= |values| && (best.None? ==> forall j :: 0 <= j < k ==> values[j].None?)
        invariant best.Some? ==> best.value < k && values[best.value].Some? && LeastOf(lt, values, best.value, k)
      {
        if best.None? {
          if k in heap {
            LeastStart(lt, values, k);
            best := Some(k);
          }
        } else {
          LeastNext(lt, values, best.value, k);
          if k in heap && lt(values[k].value, values[best.value].value) { best := Some(k); }
        }
        k := k + 1;
      }
      top := best.value;
    }

    /** Take the top item and read the next one from its input. */
    method Advance() returns (x: T, ghost top: nat)
      requires Consistent() && !inputChanged && heap != {}
      modifies this`streams, this`values, this`heap, this`full
      ensures Consistent() && full == old(full) + [x]
      ensures IsTop(lt, old(Pending()), top) && x == old(Pending())[top][0]
      ensures top < |old(Pending())| && Pending() == old(Pending())[top := old(Pending())[top][1..]]
      ensures Size(Pending()) < old(Size(Pending()))
    {
      hide Conserves, Rises, WeakOrder, PendingOf, Size, IsTop, ReadAhead, LeastOf, Filled;
      var t := Top();
      LeastIsTop(lt, values, streams, t);
      top := t;
      x := values[t].value;
      ghost var p := Pending();
      assert p[t] != [] && p[t][0] == x by { ReadOver(values, streams, t); }
      PopConserves(lt, ins, full, p, t);
      if onTime { PopStable(lt, ins, full, p, t); }
      PopSize(p, t);
      ReadNext(t);
      full := full + [x];
    }

    /** Input::readNext for an input in the heap, and the heap update that follows it. */
    method ReadNext(t: nat)
      requires |values| == |streams| && t < |values| && values[t].Some?
      requires heap == Filled(values) && ReadAhead(values, streams)
      modifies this`streams, this`values, this`heap
      ensures |values| == |streams| == old(|streams|)
      ensures heap == Filled(values) && ReadAhead(values, streams)
      ensures old(Pending())[t] != [] && Pending() == old(Pending())[t := old(Pending())[t][1..]]
    {
      hide PendingOf, Filled, ReadAhead;
      ReadOver(values, streams, t);
      ReadKeepsAhead(values, streams, t);
      if streams[t] != [] {
        FilledUpdate(values, t, Some(streams[t][0]));
        assert t in heap;
        values, streams := values[t := Some(streams[t][0])], streams[t := streams[t][1..]];
      } else {
        FilledUpdate(values, t, None);
        values := values[t := None];
        heap := heap - {t};
      }
    }

    /** Read a first item from every input that has none. */
    method Fetch()
      requires Valid()
      modifies this`streams, this`values, this`heap, this`inputChanged
      ensures Valid() && !inputChanged && Pending() == old(Pending())
    {
      hide Conserves, Rises, WeakOrder, PendingOf, HeadsAbove, Filled;
      var k := 0;
      inputChanged := true;
      while k < |streams|
        invariant k <= |streams| && inputChanged
        invariant |values| == |streams| == old(|streams|)
        invariant heap == Filled(values)
        invariant Pending() == old(Pending())
        invariant forall i :: 0 <= i < k && values[i].None? ==> streams[i] == []
      {
        if values[k].None? && streams[k] != [] {
          ReadIntoEmpty(values, streams, k);
          FilledUpdate(values, k, Some(streams[k][0]));
          values, streams := values[k := Some(streams[k][0])], streams[k := streams[k][1..]];
          heap := heap + {k};
        }
        k := k + 1;
      }
      inputChanged := false;
    }

    /** The next item, or None at the end: whenever inputs were added, the least one left, of the first
        input that has it. In a unique merge its duplicates are consumed with it. */
    method Get() returns (r: Option<T>)
      requires Valid()
      modifies this
      ensures Valid() && ins == old(ins) && onTime == old(onTime)
      ensures r.None? ==> Exhausted(Pending()) && full == old(full) && Pending() == old(Pending())
      ensures r.Some? ==> exists top: nat :: IsTop(lt, old(Pending()), top) && r.value == old(Pending())[top][0]
      ensures r.Some? ==> Taken(lt, r.value, old(full), full) && (!mergeUnique ==> full == old(full) + [r.value])
      ensures r.Some? && mergeUnique ==> HeadsAbove(lt, r.value, Pending())
      ensures r.Some? && onTime ==> Returned() == old(Returned()) + [r.value]
      ensures r.Some? ==> Size(Pending()) < old(Size(Pending()))
    {
      hide Conserves, Rises, WeakOrder, Dedup, Size, PendingOf, IsTop, Sorted, HeadsAbove, ReadAhead, Filled, Exhausted;
      if inputChanged { Fetch(); }
      if heap == {} {
        NoneFilled(values, streams);
        return None;
      }
      ghost var taken, p := full, Pending();
      var x, top := Advance();
      TopLeaves(lt, ins, taken, full, p, Pending(), top, x, onTime, mergeUnique);
      if mergeUnique { SkipEqual(x); }
      r := Some(x);
    }

    /** Consume inputs while their value is not greater than the one just returned. */
    method SkipEqual(x: T)
      requires Consistent() && !inputChanged && full != [] && Same(lt, full[|full| - 1], x) && NoneBelow(lt, x, Pending())
      modifies this`streams, this`values, this`heap, this`full
      ensures Consistent() && !inputChanged && full != [] && Beyond() && HeadsAbove(lt, x, Pending())
      ensures Skipped(lt, x, old(full), full) && (onTime ==> Dedup(lt, full) == old(Dedup(lt, full)))
      ensures Size(Pending()) <= old(Size(Pending()))
    {
      hide Conserves, Rises, Dedup, Size, PendingOf, HeadsAbove, WeakOrder, IsTop, Sorted, Same, Filled, ReadAhead, LeastOf, NoneBelow, Skipped;
      SkippedNone(lt, x, full);
      while true
        invariant Consistent() && !inputChanged && full != [] && Same(lt, full[|full| - 1], x) && NoneBelow(lt, x, Pending())
        invariant Skipped(lt, x, old(full), full) && (onTime ==> Dedup(lt, full) == old(Dedup(lt, full)))
        invariant Size(Pending()) <= old(Size(Pending()))
        decreases Size(Pending())
      {
        if heap == {} {
          NoneFilled(values, streams);
          NoneAbove(lt, x, Pending());
          NoneAbove(lt, full[|full| - 1], Pending());
          break;
        }
        var top := Top();
        LeastIsTop(lt, values, streams, top);
        if lt(x, values[top].value) {
          TopAbove(lt, full[|full| - 1], x, Pending(), top);
          AboveTop(lt, x, Pending(), top);
          break;
        }
        SkipOne(x, top, old(full));
      }
    }

    /** Consume one item equal to the one just returned. */
    method SkipOne(x: T, ghost top: nat, ghost before: seq<T>)
      requires Consistent() && !inputChanged && full != [] && Same(lt, full[|full| - 1], x) && NoneBelow(lt, x, Pending())
      requires heap != {} && IsTop(lt, Pending(), top) && !lt(x, Pending()[top][0]) && Skipped(lt, x, before, full)
      modifies this`streams, this`values, this`heap, this`full
      ensures Consistent() && full != [] && Same(lt, full[|full| - 1], x) && NoneBelow(lt, x, Pending())
      ensures Skipped(lt, x, before, full) && (onTime ==> Dedup(lt, full) == old(Dedup(lt, full)))
      ensures Size(Pending()) < old(Size(Pending()))
    {
      hide Conserves, Rises, Dedup, Size, PendingOf, WeakOrder, IsTop, Sorted, Same, Filled, ReadAhead, LeastOf, NoneBelow, Skipped;
      ghost var f, p := full, Pending();
      PendingSorted(lt, ins, full, p);
      var y, t := Advance();
      TopsAgree(lt, x, p, top, t);
      SkippedOne(lt, x, before, f, y);
      if onTime { SkippedKeepsDedup(lt, f, y, x, Pending()); }
    }
  }

  /** After `before` only items that compare equal to `x` were taken. */
  ghost predicate Skipped<T>(lt: (T, T) -> bool, x: T, before: seq<T>, full: seq<T>) {
    before <= full && forall i :: |before| <= i < |full| ==> Same(lt, full[i], x)
  }

  /** `x` was taken, and after it only duplicates of it. */
  ghost predicate Taken<T>(lt: (T, T) -> bool, x: T, before: seq<T>, full: seq<T>) {
    Skipped(lt, x, before + [x], full)
  }

  lemma {:induction false} SkippedNone<T>(lt: (T, T) -> bool, x: T, full: seq<T>)
    ensures Skipped(lt, x, full, full)
  {
  }

  lemma {:induction false} SkippedOne<T>(lt: (T, T) -> bool, x: T, before: seq<T>, full: seq<T>, y: T)
    requires Skipped(lt, x, before, full) && Same(lt, y, x)
    ensures Skipped(lt, x, before, full + [y])
  {
  }

  lemma {:induction false} SkippedKeepsDedup<T(!new)>(lt: (T, T) -> bool, full: seq<T>, y: T, x: T, pend: seq<seq<T>>)
    requires WeakOrder(lt) && Rises(lt, full + [y], pend) && full != [] && Same(lt, full[|full| - 1], x) && Same(lt, y, x)
    ensures Dedup(lt, full + [y]) == Dedup(lt, full)
  {
    assert !lt(full[|full| - 1], y);
    hide WeakOrder, Dedup;
    DedupSkips(lt, full, y);
  }

  lemma {:induction false} NoneAbove<T>(lt: (T, T) -> bool, x: T, pend: seq<seq<T>>)
    requires Exhausted(pend)
    ensures HeadsAbove(lt, x, pend)
  {
  }

  lemma {:induction false} PendingSorted<T(!new)>(lt: (T, T) -> bool, ins: seq<seq<T>>, full: seq<T>, pend: seq<seq<T>>)
    requires Conserves(lt, ins, full, pend)
    ensures forall i :: 0 <= i < |pend| ==> Sorted(lt, pend[i])
  {
  }

  /** The state behind an item just taken. */
  lemma {:induction false} TopLeaves<T(!new)>(lt: (T, T) -> bool, ins: seq<seq<T>>, taken: seq<T>, full: seq<T>, p: seq<seq<T>>,
                                              pend: seq<seq<T>>, top: nat, x: T, onTime: bool, unique: bool)
    requires WeakOrder(lt) && Conserves(lt, ins, taken, p) && IsTop(lt, p, top) && x == p[top][0]
    requires full == taken + [x] && pend == p[top := p[top][1..]]
    requires onTime ==> Rises(lt, full, pend) && (unique && taken != [] ==> HeadsAbove(lt, taken[|taken| - 1], p))
    ensures Same(lt, full[|full| - 1], x) && NoneBelow(lt, x, pend) && Skipped(lt, x, taken + [x], full)
    ensures onTime && unique ==> Dedup(lt, full) == Dedup(lt, taken) + [x]
  {
    hide Dedup;
    PendingSorted(lt, ins, taken, p);
    TopIsBelowNone(lt, p, top);
    if onTime && unique {
      SortedFront(lt, taken, x);
      DedupTakes(lt, taken, x);
    }
  }

  ghost function Size<T>(pend: seq<seq<T>>): nat {
    if pend == [] then 0 else |pend[0]| + Size(pend[1..])
  }

  lemma {:induction false} PopSize<T>(pend: seq<seq<T>>, i: nat)
    requires i < |pend| && pend[i] != []
    ensures Size(pend[i := pend[i][1..]]) == Size(pend) - 1
  {
    var p' := pend[i := pend[i][1..]];
    if i == 0 {
      assert p'[1..] == pend[1..];
    } else {
      assert p'[1..] == pend[1..][i - 1 := pend[i][1..]];
      PopSize(pend[1..], i - 1);
    }
  }

  lemma {:induction false} SortedFront<T>(lt: (T, T) -> bool, s: seq<T>, x: T)
    requires Sorted(lt, s + [x])
    ensures Sorted(lt, s)
  {
    forall i, j | 0 <= i < j < |s| ensures !lt(s[j], s[i]) { assert (s + [x])[i] == s[i] && (s + [x])[j] == s[j]; }
  }

  // ------------------------------------------------------------ whole merges

  /** A stable sorted permutation: sorted, and for every key its items of all inputs, in input order. */
  ghost predicate IsStableMerge<T(!new)>(lt: (T, T) -> bool, ins: seq<seq<T>>, out: seq<T>) {
    Sorted(lt, out) && forall k :: Only(lt, k, out) == OnlyAll(lt, k, ins)
  }

  /** The key-ordered overlay: one item per key, the first one of the first input that has the key. */
  ghost predicate IsOverlay<T(!new)>(lt: (T, T) -> bool, ins: seq<seq<T>>, out: seq<T>) {
    StrictlySorted(lt, out) && forall k :: Only(lt, k, out) == First(OnlyAll(lt, k, ins))
  }

  lemma {:induction false} MergeComplete<T(!new)>(lt: (T, T) -> bool, ins: seq<seq<T>>, full: seq<T>, pend: seq<seq<T>>)
    requires WeakOrder(lt) && Stable(lt, ins, full, pend) && Exhausted(pend)
    ensures IsStableMerge(lt, ins, full) && IsOverlay(lt, ins, Dedup(lt, full))
  {
    hide WeakOrder, Dedup, First, Exhausted;
    forall k ensures Only(lt, k, full) == OnlyAll(lt, k, ins) {
      ExhaustedOnly(lt, k, pend);
      assert Only(lt, k, full) + [] == Only(lt, k, full);
    }
    DedupSorted(lt, full);
    forall k ensures Only(lt, k, Dedup(lt, full)) == First(OnlyAll(lt, k, ins)) {
      DedupOnly(lt, full, k);
    }
  }

  /** Pipe in all inputs, then read to the end. */
  method MergeAll<T(!new)>(lt: (T, T) -> bool, mergeUnique: bool, ins: seq<seq<T>>) returns (out: seq<T>)
    requires WeakOrder(lt) && forall i :: 0 <= i < |ins| ==> Sorted(lt, ins[i])
    ensures mergeUnique ==> IsOverlay(lt, ins, out)
    ensures !mergeUnique ==> IsStableMerge(lt, ins, out)
  {
    hide WeakOrder, Conserves, Rises, Sorted, Dedup, PendingOf, Size, IsOverlay, IsStableMerge;
    var m := new Merge(lt, mergeUnique);
    for k := 0 to |ins|
      invariant m.Valid() && fresh(m) && m.lt == lt && m.mergeUnique == mergeUnique
      invariant m.onTime && m.full == [] && m.ins == ins[..k] && m.ins == m.Pending()
    {
      m.PipeFrom(ins[k]);
      assert ins[..k + 1] == ins[..k] + [ins[k]];
    }
    assert ins[..|ins|] == ins;
    out := [];
    assert m.Returned() == [] by { DedupEmpty(lt); }
    while true
      invariant m.Valid() && fresh(m) && m.lt == lt && m.mergeUnique == mergeUnique && m.onTime && m.ins == ins
      invariant out == m.Returned()
      decreases Size(m.Pending())
    {
      var r := m.Get();
      if r.None? {
        MergeComplete(lt, ins, m.full, m.Pending());
        return;
      }
      out := out + [r.value];
    }
  }

  // ------------------------------------------------------------ counting

  ghost function Bag<T>(ins: seq<seq<T>>): multiset<T> {
    if ins == [] then multiset{} else multiset(ins[0]) + Bag(ins[1..])
  }

  lemma {:induction false} BagOnly<T(!new)>(lt: (T, T) -> bool, s: seq<T>, x: T)
    requires WeakOrder(lt)
    ensures multiset(Only(lt, x, s))[x] == multiset(s)[x]
  {
    if s != [] {
      assert Same(lt, x, x);
      hide WeakOrder, Same;
      var head, rest := if Same(lt, x, s[0]) then [s[0]] else [], Only(lt, x, s[1..]);
      assert Only(lt, x, s) == head + rest;
      hide Only;
      BagOnly(lt, s[1..], x);
      CountConcat([s[0]], s[1..], x);
      CountConcat(head, rest, x);
      assert s == [s[0]] + s[1..];
    }
  }

  lemma {:induction false} CountConcat<T>(a: seq<T>, b: seq<T>, x: T)
    ensures multiset(a + b)[x] == multiset(a)[x] + multiset(b)[x]
  {
  }

  lemma {:induction false} BagOnlyAll<T(!new)>(lt: (T, T) -> bool, ins: seq<seq<T>>, x: T)
    requires WeakOrder(lt)
    ensures multiset(OnlyAll(lt, x, ins))[x] == Bag(ins)[x]
  {
    hide Only, WeakOrder;
    if ins != [] {
      BagOnly(lt, ins[0], x);
      BagOnlyAll(lt, ins[1..], x);
    }
  }

  /** A stable merge holds exactly the items of its inputs, with multiplicity. */
  lemma {:induction false} StableMergeIsPermutation<T(!new)>(lt: (T, T) -> bool, ins: seq<seq<T>>, out: seq<T>)
    requires WeakOrder(lt) && IsStableMerge(lt, ins, out)
    ensures multiset(out) == Bag(ins)
  {
    hide Only, OnlyAll, WeakOrder, Sorted, Bag;
    forall x ensures multiset(out)[x] == Bag(ins)[x] {
      BagOnly(lt, out, x);
      BagOnlyAll(lt, ins, x);
    }
  }

  /** The two results determine each other: the overlay is the stable merge without duplicates. */
  lemma {:induction false} OverlayOfMerge<T(!new)>(lt: (T, T) -> bool, ins: seq<seq<T>>, full: seq<T>)
    requires WeakOrder(lt) && IsStableMerge(lt, ins, full)
    ensures IsOverlay(lt, ins, Dedup(lt, full))
  {
    hide WeakOrder, Dedup, First, Only;
    DedupSorted(lt, full);
    forall k ensures Only(lt, k, Dedup(lt, full)) == First(OnlyAll(lt, k, ins)) { DedupOnly(lt, full, k); }
  }
}
