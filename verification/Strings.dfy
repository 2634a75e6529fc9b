/** Byte strings in memcmp order, and the interval of strings that share a prefix. */
module Strings {
  import opened Bytes
  import opened Options
  import opened IntervalSet

  type bytes = seq<byte>

  /** Unsigned lexicographic order, as memcmp and std::less<std::string> give it. */
  predicate StrLess(a: bytes, b: bytes) {
    b != [] && (a == [] || a[0] < b[0] || (a[0] == b[0] && StrLess(a[1..], b[1..])))
  }

  /** The strings agree before `k`, and there the first one ends or has the smaller byte. */
  ghost predicate DiffersAt(a: bytes, b: bytes, k: nat) {
    k <= |a| && k < |b| && a[..k] == b[..k] && (k == |a| || a[k] < b[k])
  }

  lemma {:induction false} DiffersHere(a: bytes, b: bytes, k: nat)
    requires (a == [] || b == [] || a[0] != b[0]) && k > 0
    ensures !DiffersAt(a, b, k)
  {
    if k <= |a| && k < |b| { assert a[..k][0] == a[0] && b[..k][0] == b[0]; }
  }

  lemma {:induction false} DiffersLater(a: bytes, b: bytes, k: nat)
    requires a != [] && b != [] && a[0] == b[0]
    ensures !DiffersAt(a, b, 0) && (DiffersAt(a, b, k + 1) <==> DiffersAt(a[1..], b[1..], k))
  {
    if k + 1 <= |a| && k + 1 < |b| {
      assert a[..k + 1] == [a[0]] + a[1..][..k] && b[..k + 1] == [b[0]] + b[1..][..k];
      assert a[..k + 1][1..] == a[1..][..k] && b[..k + 1][1..] == b[1..][..k];
    }
  }

  /** The first place of difference decides, and a proper prefix comes first. */
  lemma {:induction false} StrLessMeans(a: bytes, b: bytes)
    ensures StrLess(a, b) <==> exists k: nat :: DiffersAt(a, b, k)
  {
    if a == [] || b == [] || a[0] != b[0] {
      assert DiffersAt(a, b, 0) <==> StrLess(a, b);
      hide StrLess;
      forall k: nat | k > 0 ensures !DiffersAt(a, b, k) { DiffersHere(a, b, k); }
    } else {
      StrLessMeans(a[1..], b[1..]);
      assert StrLess(a, b) <==> StrLess(a[1..], b[1..]);
      hide StrLess, DiffersAt;
      if k: nat :| DiffersAt(a[1..], b[1..], k) { DiffersLater(a, b, k); }
      if k: nat :| DiffersAt(a, b, k) { DiffersLater(a, b, if k > 0 then k - 1 else 0); }
    }
  }

  lemma {:induction false} StrIrreflexive(a: bytes)
    ensures !StrLess(a, a)
  {
    if a != [] { StrIrreflexive(a[1..]); }
  }

  lemma {:induction false} StrTransitive(a: bytes, b: bytes, c: bytes)
    requires StrLess(a, b) && StrLess(b, c)
    ensures StrLess(a, c)
  {
    if a != [] && a[0] == b[0] == c[0] { StrTransitive(a[1..], b[1..], c[1..]); }
  }

  lemma {:induction false} StrTotal(a: bytes, b: bytes)
    ensures a == b || StrLess(a, b) || StrLess(b, a)
  {
    if a != [] && b != [] && a[0] == b[0] {
      StrTotal(a[1..], b[1..]);
      assert a == [a[0]] + a[1..] && b == [b[0]] + b[1..];
    }
  }

  /** The string order is a strict total order, so sets of strings behave. */
  lemma {:induction false} StrOrder()
    ensures StrictOrder(StrLess)
  {
    forall a ensures !StrLess(a, a) { StrIrreflexive(a); }
    forall a, b, c | StrLess(a, b) && StrLess(b, c) ensures StrLess(a, c) { StrTransitive(a, b, c); }
    forall a, b ensures a == b || StrLess(a, b) || StrLess(b, a) { StrTotal(a, b); }
  }

  /** getPrefixSuccessor: drop trailing 0xff bytes and increment the last one left. */
  function PrefixSuccessor(p: bytes): (r: Option<bytes>) {
    if p == [] then None
    else
      var last := p[|p| - 1];
      if last != 0xff then Some(p[..|p| - 1] + [last + 1]) else PrefixSuccessor(p[..|p| - 1])
  }

  /** makePrefixInterval */
  function PrefixInterval(p: bytes): (r: Interval<bytes>)
    ensures r.lo.IsLower() && r.up.IsUpper()
  {
    var s := PrefixSuccessor(p);
    Interval(Point(p, InclusiveLower),
             if s.Some? then Point(s.value, ExclusiveUpper) else Point([], InfiniteUpper))
  }

  /** The successor, read from the front. */
  lemma {:induction false} SuccessorFront(c: byte, q: bytes)
    ensures PrefixSuccessor([c] + q)
            == var s := PrefixSuccessor(q);
               if s.Some? then Some([c] + s.value) else if c != 0xff then Some([c + 1]) else None
    decreases |q|
  {
    var p := [c] + q;
    if q == [] {
      assert p == [c] && p[..0] == [];
      if c != 0xff { assert p[..0] + [c + 1] == [c + 1]; }
    } else {
      var last := q[|q| - 1];
      assert p[|p| - 1] == last && p[..|p| - 1] == [c] + q[..|q| - 1];
      if last == 0xff {
        SuccessorFront(c, q[..|q| - 1]);
      } else {
        assert [c] + q[..|q| - 1] + [last + 1] == [c] + (q[..|q| - 1] + [last + 1]);
      }
    }
  }

  /** Strings from `p` up to its successor are exactly the strings that start with `p`. */
  lemma {:induction false} PrefixBounds(p: bytes, v: bytes)
    ensures p <= v <==> !StrLess(v, p) && (PrefixSuccessor(p).Some? ==> StrLess(v, PrefixSuccessor(p).value))
  {
    if p != [] {
      var c, q := p[0], p[1..];
      assert p == [c] + q;
      SuccessorFront(c, q);
      if v != [] {
        PrefixBounds(q, v[1..]);
        var s := PrefixSuccessor(q);
        if s.Some? { assert ([c] + s.value)[1..] == s.value; }
        assert p <= v <==> v[0] == c && q <= v[1..] by {
          if v[0] == c && q <= v[1..] { assert v == [c] + v[1..]; }
        }
      }
    }
  }

  /** `field ~= p` selects the values that start with `p`. */
  lemma {:induction false} PrefixIntervalMeaning(p: bytes, v: bytes)
    ensures Within(StrLess, PrefixInterval(p), v) <==> p <= v
  {
    PrefixBounds(p, v);
    StrTotal(p, v);
    StrIrreflexive(p);
    if StrLess(p, v) && StrLess(v, p) { StrTransitive(p, v, p); }
    var s := PrefixSuccessor(p);
    if s.Some? {
      StrTotal(v, s.value);
      StrIrreflexive(v);
      if StrLess(v, s.value) && StrLess(s.value, v) { StrTransitive(v, s.value, v); }
    }
  }
}
