/** The two Adler-32 loops: the table library's and the compression library's. */
module Adler {
  import opened Bytes

  newtype uint32 = x: int | 0 <= x < 0x1_0000_0000

  const BASE: nat := 65521
  const BLOCK: nat := 5552

  datatype Sums = Sums(a: nat, b: nat)

  // ------------------------------------------------------------ the definition

  function Mod(n: nat): nat { n % BASE }

  /** Both sums are kept modulo 65521 after every byte (section 2.2 of RFC 1950). */
  function Update(s: Sums, x: byte): Sums {
    var a := Mod(s.a + x);
    Sums(a, Mod(s.b + a))
  }

  function Checksum(s: Sums, data: seq<byte>): Sums {
    if data == [] then s else Update(Checksum(s, data[..|data| - 1]), data[|data| - 1])
  }

  function Pack(s: Sums): nat { s.b * 65536 + s.a }

  function Unpack(adler: uint32): Sums { Sums(adler as nat % 65536, adler as nat / 65536) }

  // ------------------------------------------------------------ deferred reduction

  /** The sums without any reduction. */
  function Raw(s: Sums, data: seq<byte>): Sums {
    if data == [] then s
    else
      var t := Raw(s, data[..|data| - 1]);
      Sums(t.a + data[|data| - 1], t.b + t.a + data[|data| - 1])
  }

  function Reduce(s: Sums): Sums { Sums(Mod(s.a), Mod(s.b)) }

  lemma {:induction false} ChecksumConcat(s: Sums, p: seq<byte>, q: seq<byte>)
    ensures Checksum(s, p + q) == Checksum(Checksum(s, p), q)
  {
    if q == [] {
      assert p + q == p;
    } else {
      var q' := q[..|q| - 1];
      assert (p + q)[..|p + q| - 1] == p + q';
      ChecksumConcat(s, p, q');
    }
  }

  lemma {:induction false} RawConcat(s: Sums, p: seq<byte>, q: seq<byte>)
    ensures Raw(s, p + q) == Raw(Raw(s, p), q)
  {
    if q == [] {
      assert p + q == p;
    } else {
      var q' := q[..|q| - 1];
      assert (p + q)[..|p + q| - 1] == p + q';
      RawConcat(s, p, q');
    }
  }

  lemma {:induction false} CongruentSum(a: nat, a': nat, b: nat, b': nat)
    requires Mod(a) == Mod(a') && Mod(b) == Mod(b')
    ensures Mod(a + b) == Mod(a' + b')
  {
    var d, e := a / BASE - a' / BASE, b / BASE - b' / BASE;
    assert a + b == a' + b' + BASE * (d + e);
  }

  lemma {:induction false} ModTwice(n: nat)
    ensures Mod(Mod(n)) == Mod(n)
  {
  }

  lemma {:induction false} RawCongruent(s: Sums, data: seq<byte>)
    ensures Reduce(Checksum(s, data)) == Reduce(Raw(s, data))
  {
    hide Mod;
    if data != [] {
      var front, x := data[..|data| - 1], data[|data| - 1];
      RawCongruent(s, front);
      var c, t := Checksum(s, front), Raw(s, front);
      CongruentSum(c.a, t.a, x, x);
      ModTwice(c.a + x);
      CongruentSum(c.b, t.b, Mod(c.a + x), t.a + x);
      ModTwice(c.b + Mod(c.a + x));
    }
  }

  /** Reducing once at the end of a block gives what reducing after every byte gives. */
  lemma {:induction false} ReduceOnce(s: Sums, block: seq<byte>)
    requires block != []
    ensures Checksum(s, block) == Reduce(Raw(s, block))
  {
    hide Mod;
    RawCongruent(s, block);
    var front := Checksum(s, block[..|block| - 1]);
    var a := front.a + block[|block| - 1];
    ModTwice(a);
    ModTwice(front.b + Mod(a));
  }

  function Triangle(n: nat): nat { n * (n + 1) / 2 }

  /** How large the sums get over `n` bytes. */
  function Most(s: Sums, n: nat): Sums { Sums(s.a + 255 * n, s.b + n * s.a + 255 * Triangle(n)) }

  lemma {:induction false} TriangleStep(n: nat)
    requires n > 0
    ensures Triangle(n) == Triangle(n - 1) + n
  {
    assert n * (n + 1) == (n - 1) * n + 2 * n;
  }

  lemma {:induction false} MostStep(s: Sums, n: nat)
    requires n > 0
    ensures Most(s, n).a == Most(s, n - 1).a + 255
    ensures Most(s, n).b == Most(s, n - 1).b + Most(s, n).a
  {
    hide Triangle;
    TriangleStep(n);
    assert n * s.a == (n - 1) * s.a + s.a;
  }

  lemma {:induction false} RawAtMost(s: Sums, data: seq<byte>)
    ensures Raw(s, data).a <= Most(s, |data|).a && Raw(s, data).b <= Most(s, |data|).b
  {
    hide Most;
    if data == [] {
      MostOfNone(s);
    } else {
      RawAtMost(s, data[..|data| - 1]);
      MostStep(s, |data|);
    }
  }

  lemma {:induction false} MostOfNone(s: Sums)
    ensures Most(s, 0) == s
  {
  }

  /** The bound is met, by bytes of 255. */
  lemma {:induction false} RawOfOnes(s: Sums, data: seq<byte>)
    requires forall i :: 0 <= i < |data| ==> data[i] == 255
    ensures Raw(s, data) == Most(s, |data|)
  {
    hide Most;
    if data == [] {
      MostOfNone(s);
    } else {
      RawOfOnes(s, data[..|data| - 1]);
      MostStep(s, |data|);
    }
  }

  lemma {:induction false} MostGrows(s: Sums, n: nat, bound: nat)
    requires n <= bound
    ensures Most(s, n).a <= Most(s, bound).a && Most(s, n).b <= Most(s, bound).b
    decreases bound
  {
    hide Most;
    if n < bound {
      MostGrows(s, n, bound - 1);
      MostStep(s, bound);
    }
  }

  /** Within a block no sum of two 16-bit starts leaves 32 bits, whatever the bytes. */
  lemma {:induction false} BlockFits(s: Sums, data: seq<byte>)
    requires s.a < 65536 && s.b < 65536 && |data| <= BLOCK
    ensures Raw(s, data).a < 0x1_0000_0000 && Raw(s, data).b < 0x1_0000_0000
  {
    RawAtMost(s, data);
    MostGrows(s, |data|, BLOCK);
    assert Triangle(BLOCK) == 15415128;
  }

  /** A block of one byte more can overflow, even from reduced sums. */
  lemma {:induction false} BlockIsLargest(data: seq<byte>)
    requires |data| == BLOCK + 1 && forall i :: 0 <= i < |data| ==> data[i] == 255
    ensures Raw(Sums(BASE - 1, BASE - 1), data).b >= 0x1_0000_0000
  {
    RawOfOnes(Sums(BASE - 1, BASE - 1), data);
  }

  // ------------------------------------------------------------ bounds and laws of the result

  lemma {:induction false} ChecksumReduced(s: Sums, data: seq<byte>)
    requires s.a < 65536 && s.b < 65536
    ensures Checksum(s, data).a < 65536 && Checksum(s, data).b < 65536
    ensures Pack(Checksum(s, data)) < 0x1_0000_0000
  {
    if data == [] { } else { ReduceOnce(s, data); }
  }

  lemma {:induction false} PackUnpack(s: Sums)
    requires s.a < 65536 && s.b < 65536
    ensures Pack(s) < 0x1_0000_0000 && Unpack(Pack(s) as uint32) == s
  {
  }

  // ------------------------------------------------------------ the loops

  /** The loop that ends a block: `n` bytes at `pos`, one at a time. The block began at `from` with the
      sums `start`. */
  method AddBytes(data: seq<byte>, pos: nat, n: nat, a: uint32, b: uint32, ghost start: Sums, ghost from: nat)
    returns (a': uint32, b': uint32)
    requires start.a < 65536 && start.b < 65536
    requires from <= pos && pos + n <= |data| && pos + n - from <= BLOCK
    requires Sums(a as nat, b as nat) == Raw(start, data[from..pos])
    ensures Sums(a' as nat, b' as nat) == Raw(start, data[from..pos + n])
  {
    a', b' := a, b;
    var i := pos;
    while i < pos + n
      invariant pos <= i <= pos + n
      invariant Sums(a' as nat, b' as nat) == Raw(start, data[from..i])
    {
      a', b' := AddByte(data, i, a', b', start, from);
      i := i + 1;
    }
  }

  method AddByte(data: seq<byte>, i: nat, a: uint32, b: uint32, ghost start: Sums, ghost from: nat)
    returns (a': uint32, b': uint32)
    requires start.a < 65536 && start.b < 65536 && from <= i < |data| && i + 1 - from <= BLOCK
    requires Sums(a as nat, b as nat) == Raw(start, data[from..i])
    ensures Sums(a' as nat, b' as nat) == Raw(start, data[from..i + 1])
  {
    assert data[from..i + 1][..i - from] == data[from..i];
    BlockFits(start, data[from..i + 1]);
    a' := a + data[i] as uint32;
    b' := b + a';
  }

  /** The end of a block: one reduction. */
  lemma {:induction false} BlockDone(s: Sums, data: seq<byte>, from: nat, upto: nat)
    requires from < upto <= |data|
    ensures Reduce(Raw(Checksum(s, data[..from]), data[from..upto])) == Checksum(s, data[..upto])
  {
    ReduceOnce(Checksum(s, data[..from]), data[from..upto]);
    ChecksumConcat(s, data[..from], data[from..upto]);
    assert data[..from] + data[from..upto] == data[..upto];
  }

  method Adler(data: seq<byte>) returns (r: uint32)
    ensures r as nat == Pack(Checksum(Sums(1, 0), data))
  {
    hide Checksum, Raw;
    var a: uint32, b: uint32 := 1, 0;
    var pos: nat, len: nat := 0, |data|;
    ChecksumOfNone(Sums(1, 0), data);
    while len > 0
      invariant pos + len == |data| && a < 65521 && b < 65521
      invariant Sums(a as nat, b as nat) == Checksum(Sums(1, 0), data[..pos])
    {
      var tlen := if len > 5552 then 5552 else len;
      len := len - tlen;
      RawOfNone(Sums(a as nat, b as nat), data, pos);
      a, b := AddBytes(data, pos, tlen, a, b, Sums(a as nat, b as nat), pos);
      BlockDone(Sums(1, 0), data, pos, pos + tlen);
      a := a % 65521;
      b := b % 65521;
      pos := pos + tlen;
    }
    assert data[..pos] == data;
    r := b * 65536 + a;
  }

  lemma {:induction false} RawOfNone(s: Sums, data: seq<byte>, pos: nat)
    requires pos <= |data|
    ensures Raw(s, data[pos..pos]) == s
  {
  }

  lemma {:induction false} ChecksumOfNone(s: Sums, data: seq<byte>)
    ensures Checksum(s, data[..0]) == s
  {
  }

  method AddFour(data: seq<byte>, i: nat, a: uint32, b: uint32, ghost start: Sums, ghost from: nat)
    returns (a': uint32, b': uint32)
    requires start.a < 65536 && start.b < 65536 && from <= i && i + 4 <= |data| && i + 4 - from <= BLOCK
    requires Sums(a as nat, b as nat) == Raw(start, data[from..i])
    ensures Sums(a' as nat, b' as nat) == Raw(start, data[from..i + 4])
  {
    hide Raw;
    a', b' := AddByte(data, i, a, b, start, from);
    a', b' := AddByte(data, i + 1, a', b', start, from);
    a', b' := AddByte(data, i + 2, a', b', start, from);
    a', b' := AddByte(data, i + 3, a', b', start, from);
  }

  method AddSixteen(data: seq<byte>, i: nat, a: uint32, b: uint32, ghost start: Sums, ghost from: nat)
    returns (a': uint32, b': uint32)
    requires start.a < 65536 && start.b < 65536 && from <= i && i + 16 <= |data| && i + 16 - from <= BLOCK
    requires Sums(a as nat, b as nat) == Raw(start, data[from..i])
    ensures Sums(a' as nat, b' as nat) == Raw(start, data[from..i + 16])
  {
    hide Raw;
    a', b' := AddFour(data, i, a, b, start, from);
    a', b' := AddFour(data, i + 4, a', b', start, from);
    a', b' := AddFour(data, i + 8, a', b', start, from);
    a', b' := AddFour(data, i + 12, a', b', start, from);
  }

  datatype Buffer = Null | Bytes(data: seq<byte>)

  /** What the compression library's checksum is, for any starting value. Over no bytes the starting
      value comes back as it is, reduced or not. */
  ghost function LzoChecksum(adler: uint32, buf: Buffer): nat {
    match buf
    case Null => 1
    case Bytes(data) => Pack(Checksum(Unpack(adler), data))
  }

  method LzoAdler32(adler: uint32, buf: Buffer) returns (r: uint32)
    ensures r as nat == LzoChecksum(adler, buf)
  {
    hide Checksum, Raw;
    if buf == Null { return 1; }
    var data := buf.data;
    var s1, s2 := adler % 65536, adler / 65536;
    ghost var start := Unpack(adler);
    var pos: nat, len: nat := 0, |data|;
    ChecksumOfNone(start, data);
    while len > 0
      invariant pos + len == |data| && s1 < 65536 && s2 < 65536
      invariant Sums(s1 as nat, s2 as nat) == Checksum(start, data[..pos])
    {
      var k := if len < 5552 then len else 5552;
      len := len - k;
      ghost var from, upto := pos, pos + k;
      ghost var at := Sums(s1 as nat, s2 as nat);
      RawOfNone(at, data, pos);
      while k >= 16
        invariant from <= pos && pos + k == upto
        invariant Sums(s1 as nat, s2 as nat) == Raw(at, data[from..pos])
      {
        s1, s2 := AddSixteen(data, pos, s1, s2, at, from);
        pos := pos + 16;
        k := k - 16;
      }
      s1, s2 := AddBytes(data, pos, k, s1, s2, at, from);
      BlockDone(start, data, from, upto);
      pos := pos + k;
      s1 := s1 % 65521;
      s2 := s2 % 65521;
    }
    assert data[..pos] == data;
    r := s2 * 65536 + s1;
  }

  /** From the starting value 1 both loops compute the same number. */
  lemma {:induction false} LoopsAgree(data: seq<byte>)
    ensures LzoChecksum(1, Bytes(data)) == Pack(Checksum(Sums(1, 0), data))
  {
    assert Unpack(1) == Sums(1, 0);
  }

  /** A checksum continued over a second piece is the checksum of both, from any starting value. */
  lemma {:induction false} LzoComposes(adler: uint32, p: seq<byte>, q: seq<byte>)
    ensures LzoChecksum(adler, Bytes(p)) < 0x1_0000_0000
    ensures LzoChecksum(LzoChecksum(adler, Bytes(p)) as uint32, Bytes(q)) == LzoChecksum(adler, Bytes(p + q))
  {
    ChecksumReduced(Unpack(adler), p);
    PackUnpack(Checksum(Unpack(adler), p));
    ChecksumConcat(Unpack(adler), p, q);
  }

  /** Changing one byte always changes the checksum. */
  lemma {:induction false} OneByteDetected(s: Sums, p: seq<byte>, x: byte, y: byte, q: seq<byte>)
    requires x != y
    ensures Checksum(s, p + [x] + q).a != Checksum(s, p + [y] + q).a
  {
    hide Mod;
    var c := Checksum(s, p);
    ChecksumConcat(s, p + [x], q);
    ChecksumConcat(s, p + [y], q);
    ChecksumConcat(s, p, [x]);
    ChecksumConcat(s, p, [y]);
    assert Checksum(c, [x]) == Update(Checksum(c, [x][..0]), x) && Checksum(c, [y]) == Update(Checksum(c, [y][..0]), y);
    SmallDifference(c.a, x, y);
    ModTwice(c.a + x);
    ModTwice(c.a + y);
    DifferenceKept(Update(c, x), Update(c, y), q);
  }

  lemma {:induction false} SmallDifference(a: nat, x: byte, y: byte)
    requires x != y
    ensures Mod(a + x) != Mod(a + y)
  {
    var d := (a + x) / BASE - (a + y) / BASE;
    assert (a + x) % BASE - (a + y) % BASE == x - y - BASE * d;
  }

  lemma {:induction false} DifferenceKept(s: Sums, t: Sums, q: seq<byte>)
    requires Mod(s.a) != Mod(t.a)
    ensures Mod(Checksum(s, q).a) != Mod(Checksum(t, q).a)
  {
    hide Mod;
    if q != [] {
      DifferenceKept(s, t, q[..|q| - 1]);
      var a, b, x := Checksum(s, q[..|q| - 1]).a, Checksum(t, q[..|q| - 1]).a, q[|q| - 1];
      SameAdded(a, b, x);
      ModTwice(a + x);
      ModTwice(b + x);
    }
  }

  lemma {:induction false} SameAdded(a: nat, b: nat, x: nat)
    requires Mod(a) != Mod(b)
    ensures Mod(a + x) != Mod(b + x)
  {
    var d := (a + x) / BASE - (b + x) / BASE;
    assert a - b == BASE * d + Mod(a + x) - Mod(b + x);
  }
}
