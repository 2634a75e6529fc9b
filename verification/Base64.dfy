/** Unpadded Base64 over a caller's alphabet: tables, encoder, decoder. */
module Base64 {
  import opened Bytes
  import opened Options
  import opened Strings

  // ------------------------------------------------------------ alphabets

  ghost predicate IsAlphabet(alphabet: bytes) {
    |alphabet| == 64 && forall i, j :: 0 <= i < j < 64 ==> alphabet[i] != alphabet[j]
  }

  ghost predicate Increasing(alphabet: bytes) {
    |alphabet| == 64 && forall i, j :: 0 <= i < j < 64 ==> alphabet[i] < alphabet[j]
  }

  /** The PEM alphabet: capitals, small letters, decimal digits, plus, slash. */
  function PemAlphabet(): bytes {
    seq(64, i => if i < 26 then 65 + i else if i < 52 then 71 + i else if i < 62 then i - 4 else if i == 62 then 43 else 47)
  }

  lemma {:induction false} PemIsAlphabet()
    ensures IsAlphabet(PemAlphabet()) && !Increasing(PemAlphabet())
    ensures var pem := PemAlphabet();
      && (forall i :: 0 <= i < 26 ==> pem[i] == 'A' as int + i)
      && (forall i :: 26 <= i < 52 ==> pem[i] == 'a' as int + i - 26)
      && (forall i :: 52 <= i < 62 ==> pem[i] == '0' as int + i - 52)
      && pem[62] == '+' as int && pem[63] == '/' as int
  {
    assert PemAlphabet()[0] == 65 && PemAlphabet()[63] == 47;
  }

  /** checkAlphabet: accepts exactly 64 distinct characters. */
  method CheckAlphabet(alphabet: bytes) returns (ok: bool)
    ensures ok <==> IsAlphabet(alphabet)
  {
    if |alphabet| != 64 { return false; }
    var uniq := new bool[256](_ => false);
    var p := 0;
    while p != |alphabet|
      invariant 0 <= p <= 64
      invariant forall c: byte :: uniq[c] <==> c in alphabet[..p]
      invariant forall i, j :: 0 <= i < j < p ==> alphabet[i] != alphabet[j]
    {
      if uniq[alphabet[p]] {
        assert alphabet[p] in alphabet[..p];
        return false;
      }
      uniq[alphabet[p]] := true;
      assert alphabet[..p + 1] == alphabet[..p] + [alphabet[p]];
      p := p + 1;
    }
    return true;
  }

  /** What the decoder's table says: the position of every alphabet character, 255 for the others. */
  ghost predicate IsTable(number: bytes, alphabet: bytes) {
    && |number| == 256 && |alphabet| == 64
    && (forall i :: 0 <= i < 64 ==> number[alphabet[i]] == i)
    && (forall c: byte :: c !in alphabet ==> number[c] == 255)
  }

  method MakeTable(alphabet: bytes) returns (table: Option<bytes>)
    ensures table.Some? <==> IsAlphabet(alphabet)
    ensures table.Some? ==> IsTable(table.value, alphabet)
  {
    var ok := CheckAlphabet(alphabet);
    if !ok { return None; }
    var number := new byte[256](_ => 255);
    var i := 0;
    while i < 64
      invariant 0 <= i <= 64
      invariant forall k :: 0 <= k < i ==> number[alphabet[k]] == k
      invariant forall c: byte :: c !in alphabet[..i] ==> number[c] == 255
    {
      number[alphabet[i]] := i;
      assert alphabet[..i + 1] == alphabet[..i] + [alphabet[i]];
      i := i + 1;
    }
    assert alphabet[..64] == alphabet;
    return Some(number[..]);
  }

  // ------------------------------------------------------------ six-bit digits

  type digit = x: byte | x < 64

  /** The four digits of three bytes. The or-ed fields of the source do not overlap, so they are sums; its
      shifts with a mask are the low bits moved up (`ShiftedFields`). */
  function Digit0(s0: byte): digit { s0 / 4 }
  function Digit1(s0: byte, s1: byte): digit { s0 as int % 4 * 16 + s1 / 16 }
  function Digit2(s1: byte, s2: byte): digit { s1 as int % 16 * 4 + s2 / 64 }
  function Digit3(s2: byte): digit { s2 % 64 }

  /** The three bytes of four digits; a byte keeps the low eight bits of what is shifted into it. */
  function Byte0(d0: digit, d1: digit): byte { d0 as int * 4 + d1 / 16 }
  function Byte1(d1: digit, d2: digit): byte { d1 as int % 16 * 16 + d2 / 4 }
  function Byte2(d2: digit, d3: digit): byte { d2 as int % 4 * 64 + d3 }

  /** The digits of a byte string, three bytes at a time. */
  function Digits(src: bytes): (r: seq<digit>)
    ensures |r| == (|src| * 4 + 2) / 3
  {
    if |src| == 0 then []
    else if |src| == 1 then [Digit0(src[0]), Digit1(src[0], 0)]
    else if |src| == 2 then [Digit0(src[0]), Digit1(src[0], src[1]), Digit2(src[1], 0)]
    else [Digit0(src[0]), Digit1(src[0], src[1]), Digit2(src[1], src[2]), Digit3(src[2])] + Digits(src[3..])
  }

  /** The bytes of a digit string; a lone last digit is dropped. */
  function Undigits(d: seq<digit>): (r: bytes)
    ensures |r| == |d| * 3 / 4
  {
    if |d| < 2 then []
    else if |d| == 2 then [Byte0(d[0], d[1])]
    else if |d| == 3 then [Byte0(d[0], d[1]), Byte1(d[1], d[2])]
    else [Byte0(d[0], d[1]), Byte1(d[1], d[2]), Byte2(d[2], d[3])] + Undigits(d[4..])
  }

  /** The source's shifts: a mask of six bits, or a byte's own width, keeps the low bits of what is moved up. */
  lemma {:induction false} ShiftedFields(s0: byte, s1: byte, d1: digit, d2: digit)
    ensures Digit1(s0, s1) == s0 as int * 16 % 64 + s1 / 16
    ensures forall s2: byte :: Digit2(s1, s2) == s1 as int * 4 % 64 + s2 / 64
    ensures Byte1(d1, d2) == d1 as int * 16 % 256 + d2 / 4
    ensures forall d3: digit :: Byte2(d2, d3) == d2 as int * 64 % 256 + d3
  {
    LowSix(s0 as int * 16, s0 as int / 4, s0 as int % 4 * 16);
    LowSix(s1 as int * 4, s1 as int / 16, s1 as int % 16 * 4);
    LowEight(d1 as int * 16, d1 as int / 16, d1 as int % 16 * 16);
    LowEight(d2 as int * 64, d2 as int / 4, d2 as int % 4 * 64);
  }

  lemma {:induction false} LowTwo(x: nat, high: nat, low: nat)
    requires x == high * 4 + low && low < 4
    ensures x % 4 == low
  {
  }

  lemma {:induction false} LowFour(x: nat, high: nat, low: nat)
    requires x == high * 16 + low && low < 16
    ensures x % 16 == low
  {
  }

  lemma {:induction false} LowSix(x: nat, high: nat, low: nat)
    requires x == high * 64 + low && low < 64
    ensures x % 64 == low
  {
  }

  lemma {:induction false} LowEight(x: nat, high: nat, low: nat)
    requires x == high * 256 + low && low < 256
    ensures x % 256 == low
  {
  }

  lemma {:induction false} Fields(s0: byte, s1: byte, s2: byte)
    ensures Digit1(s0, s1) == s0 % 4 * 16 + s1 / 16 && Digit2(s1, s2) == s1 % 16 * 4 + s2 / 64
  {
  }

  lemma {:induction false} ByteFields(d0: digit, d1: digit, d2: digit, d3: digit)
    ensures Byte0(d0, d1) == d0 * 4 + d1 / 16 && Byte1(d1, d2) == d1 % 16 * 16 + d2 / 4 && Byte2(d2, d3) == d2 % 4 * 64 + d3
  {
  }

  lemma {:induction false} BytesBack(s0: byte, s1: byte, s2: byte)
    ensures Byte0(Digit0(s0), Digit1(s0, s1)) == s0
    ensures Byte1(Digit1(s0, s1), Digit2(s1, s2)) == s1
    ensures Byte2(Digit2(s1, s2), Digit3(s2)) == s2
  {
    hide Digit1, Digit2, Byte0, Byte1, Byte2;
    Fields(s0, s1, s2);
    ByteFields(Digit0(s0), Digit1(s0, s1), Digit2(s1, s2), Digit3(s2));
  }

  /** Encoding then decoding, on digits. */
  lemma {:induction false} DigitsRoundTrip(src: bytes)
    ensures Undigits(Digits(src)) == src
  {
    hide Digit0, Digit1, Digit2, Digit3, Byte0, Byte1, Byte2;
    BytesBack(Peek(src, 0), Peek(src, 1), Peek(src, 2));
    if |src| >= 3 {
      DigitsRoundTrip(src[3..]);
      assert Digits(src)[4..] == Digits(src[3..]);
    }
  }

  /** No lone digit at the end, and the bits that carry nothing are zero. */
  ghost predicate Canonical(d: seq<digit>) {
    && |d| % 4 != 1
    && (|d| % 4 == 2 ==> d[|d| - 1] % 16 == 0)
    && (|d| % 4 == 3 ==> d[|d| - 1] % 4 == 0)
  }

  lemma {:induction false} DigitsBack(d0: digit, d1: digit, d2: digit, d3: digit)
    ensures Digit0(Byte0(d0, d1)) == d0
    ensures Digit1(Byte0(d0, d1), Byte1(d1, d2)) == d1
    ensures Digit2(Byte1(d1, d2), Byte2(d2, d3)) == d2
    ensures Digit3(Byte2(d2, d3)) == d3
  {
    hide Digit1, Digit2, Byte0, Byte1, Byte2;
    ByteFields(d0, d1, d2, d3);
    Fields(Byte0(d0, d1), Byte1(d1, d2), Byte2(d2, d3));
  }

  lemma {:induction false} TailDigitsBack(d0: digit, d1: digit, d2: digit)
    ensures Digit1(Byte0(d0, d1), 0) == d1 / 16 * 16 && Digit2(Byte1(d1, d2), 0) == d2 / 4 * 4
  {
    hide Digit1, Digit2, Byte0, Byte1;
    ByteFields(d0, d1, d2, 0);
    Fields(Byte0(d0, d1), 0, 0);
    Fields(0, Byte1(d1, d2), 0);
    LowTwo(Byte0(d0, d1), d0, d1 / 16);
    LowFour(Byte1(d1, d2), d1 % 16, d2 / 4);
  }

  lemma {:induction false} FourDigitsFirst(d: seq<digit>)
    requires |d| >= 4
    ensures Undigits(d) == [Byte0(d[0], d[1]), Byte1(d[1], d[2]), Byte2(d[2], d[3])] + Undigits(d[4..])
  {
    hide Byte0, Byte1, Byte2;
  }

  lemma {:induction false} ThreeBytesFirst(s0: byte, s1: byte, s2: byte, rest: bytes)
    ensures Digits([s0, s1, s2] + rest) == [Digit0(s0), Digit1(s0, s1), Digit2(s1, s2), Digit3(s2)] + Digits(rest)
  {
    hide Digit0, Digit1, Digit2, Digit3;
    assert ([s0, s1, s2] + rest)[3..] == rest;
  }

  lemma {:induction false} LastGroupBack(d: seq<digit>)
    requires |d| < 4
    ensures Digits(Undigits(d)) == d <==> Canonical(d)
  {
    hide Digit0, Digit1, Digit2, Digit3, Byte0, Byte1, Byte2;
    if |d| >= 2 {
      var d2: digit := if |d| == 3 then d[2] else 0;
      DigitsBack(d[0], d[1], d2, 0);
      TailDigitsBack(d[0], d[1], d2);
      assert Digits(Undigits(d)) == d <==> Digits(Undigits(d))[|d| - 1] == d[|d| - 1];
    }
  }

  lemma {:induction false} CanonicalRest(d: seq<digit>)
    requires |d| >= 4
    ensures Canonical(d) == Canonical(d[4..])
  {
    assert |d[4..]| % 4 == |d| % 4;
    assert |d| > 4 ==> d[4..][|d| - 5] == d[|d| - 1];
  }

  /** Decoding then encoding gives the digits back exactly when they are canonical. */
  lemma {:induction false} UndigitsRoundTrip(d: seq<digit>)
    ensures Digits(Undigits(d)) == d <==> Canonical(d)
  {
    hide Digits, Undigits, Canonical, Digit0, Digit1, Digit2, Digit3, Byte0, Byte1, Byte2;
    if |d| >= 4 {
      UndigitsRoundTrip(d[4..]);
      FourDigitsFirst(d);
      ThreeBytesFirst(Byte0(d[0], d[1]), Byte1(d[1], d[2]), Byte2(d[2], d[3]), Undigits(d[4..]));
      DigitsBack(d[0], d[1], d[2], d[3]);
      assert d[..4] == [d[0], d[1], d[2], d[3]];
      CanonicalRest(d);
      assert Digits(Undigits(d))[4..] == Digits(Undigits(d[4..]));
      assert d == d[..4] + d[4..];
    } else {
      LastGroupBack(d);
    }
  }

  lemma {:induction false} DigitsConcat(p: bytes, q: bytes)
    requires |p| % 3 == 0
    ensures Digits(p + q) == Digits(p) + Digits(q)
  {
    if p == [] {
      assert p + q == q;
    } else {
      assert (p + q)[3..] == p[3..] + q;
      DigitsConcat(p[3..], q);
    }
  }

  // ------------------------------------------------------------ the bits

  /** The low `width` bits of a number, most significant first. */
  function Bits(x: nat, width: nat): (r: seq<nat>)
    ensures |r| == width
  {
    if width == 0 then [] else Bits(x / 2, width - 1) + [x % 2]
  }

  function BitString(s: bytes, width: nat): (r: seq<nat>) {
    if s == [] then [] else Bits(s[0], width) + BitString(s[1..], width)
  }

  function Shifted(x: nat, k: nat): nat {
    if k == 0 then x else 2 * Shifted(x, k - 1)
  }

  /** The bits of a number split at any place. */
  lemma {:induction false} BitsSplit(hi: nat, lo: nat, width: nat, k: nat)
    requires lo < Shifted(1, k) && k <= width
    ensures Bits(Shifted(hi, k) + lo, width) == Bits(hi, width - k) + Bits(lo, k)
  {
    if k == 0 {
      assert Bits(lo, k) == [];
    } else {
      assert Shifted(hi, k) + lo == 2 * (Shifted(hi, k - 1) + lo / 2) + lo % 2;
      BitsSplit(hi, lo / 2, width - 1, k - 1);
    }
  }

  lemma {:induction false} Shifts(x: nat)
    ensures Shifted(x, 2) == x * 4 && Shifted(x, 4) == x * 16 && Shifted(x, 6) == x * 64
  {
    assert Shifted(x, 0) == x;
    assert Shifted(x, 1) == x * 2;
    assert Shifted(x, 2) == x * 4;
    assert Shifted(x, 3) == x * 8;
    assert Shifted(x, 4) == x * 16;
    assert Shifted(x, 5) == x * 32;
  }

  /** Where the bits of three bytes go. */
  lemma {:induction false} GroupBits(s0: byte, s1: byte, s2: byte)
    ensures Bits(s0, 8) == Bits(Digit0(s0), 6) + Bits(s0 % 4, 2)
    ensures Bits(Digit1(s0, s1), 6) == Bits(s0 % 4, 2) + Bits(s1 / 16, 4)
    ensures Bits(s1, 8) == Bits(s1 / 16, 4) + Bits(s1 % 16, 4)
    ensures Bits(Digit2(s1, s2), 6) == Bits(s1 % 16, 4) + Bits(s2 / 64, 2)
    ensures Bits(s2, 8) == Bits(s2 / 64, 2) + Bits(Digit3(s2), 6)
  {
    hide Bits, Shifted, Digit1, Digit2;
    Shifts(1);
    Shifts(s0 / 4);
    Shifts(s0 % 4);
    Shifts(s1 / 16);
    Shifts(s1 % 16);
    Shifts(s2 / 64);
    Fields(s0, s1, s2);
    BitsSplit(s0 / 4, s0 % 4, 8, 2);
    BitsSplit(s0 % 4, s1 / 16, 6, 4);
    BitsSplit(s1 / 16, s1 % 16, 8, 4);
    BitsSplit(s1 % 16, s2 / 64, 6, 2);
    BitsSplit(s2 / 64, s2 % 64, 8, 6);
  }

  /** The digits are the bits of the input cut in sixes, with zero bits to fill the last digit
      (section 4 of RFC 4648). */
  lemma {:induction false} DigitsAreBits(src: bytes)
    ensures BitString(Digits(src), 6) == BitString(src, 8) + Bits(0, if |src| % 3 == 0 then 0 else if |src| % 3 == 1 then 4 else 2)
  {
    hide Bits, Digits, BitString;
    if |src| >= 3 {
      DigitsAreBits(src[3..]);
      assert |src[3..]| % 3 == |src| % 3;
      FirstGroupIsBits(src, Bits(0, if |src| % 3 == 0 then 0 else if |src| % 3 == 1 then 4 else 2));
    } else {
      ShortBits(src);
    }
  }

  lemma {:induction false} FirstGroupIsBits(src: bytes, pad: seq<nat>)
    requires |src| >= 3 && BitString(Digits(src[3..]), 6) == BitString(src[3..], 8) + pad
    ensures BitString(Digits(src), 6) == BitString(src, 8) + pad
  {
    hide Bits, Digit0, Digit1, Digit2, Digit3, BitString;
    var s0, s1, s2 := src[0], src[1], src[2];
    var d := Digits(src);
    assert d[0] == Digit0(s0) && d[1] == Digit1(s0, s1) && d[2] == Digit2(s1, s2) && d[3] == Digit3(s2);
    assert d[4..] == Digits(src[3..]);
    hide Digits;
    GroupBits(s0, s1, s2);
    BitStringFour(d);
    BitStringThree(src);
    Regroup(Bits(Digit0(s0), 6), Bits(s0 % 4, 2), Bits(s1 / 16, 4), Bits(s1 % 16, 4), Bits(s2 / 64, 2),
            Bits(Digit3(s2), 6), BitString(src[3..], 8), pad);
  }

  lemma {:induction false} Regroup(a: seq<nat>, b: seq<nat>, c: seq<nat>, d: seq<nat>, e: seq<nat>, f: seq<nat>, rest: seq<nat>, pad: seq<nat>)
    ensures a + ((b + c) + ((d + e) + (f + (rest + pad)))) == ((a + b) + ((c + d) + ((e + f) + rest))) + pad
  {
  }

  lemma {:induction false} BitStringHead(s: bytes, i: nat, width: nat)
    requires i < |s|
    ensures BitString(s[i..], width) == Bits(s[i], width) + BitString(s[i + 1..], width)
  {
    hide Bits;
    assert s[i..][1..] == s[i + 1..];
  }

  lemma {:induction false} BitStringThree(s: bytes)
    requires |s| >= 3
    ensures BitString(s, 8) == Bits(s[0], 8) + (Bits(s[1], 8) + (Bits(s[2], 8) + BitString(s[3..], 8)))
  {
    hide Bits, BitString;
    assert s[0..] == s;
    BitStringHead(s, 0, 8);
    BitStringHead(s, 1, 8);
    BitStringHead(s, 2, 8);
  }

  lemma {:induction false} BitStringFour(d: bytes)
    requires |d| >= 4
    ensures BitString(d, 6) == Bits(d[0], 6) + (Bits(d[1], 6) + (Bits(d[2], 6) + (Bits(d[3], 6) + BitString(d[4..], 6))))
  {
    hide Bits, BitString;
    assert d[0..] == d;
    BitStringHead(d, 0, 6);
    BitStringHead(d, 1, 6);
    BitStringHead(d, 2, 6);
    BitStringHead(d, 3, 6);
  }

  lemma {:induction false} ShortBits(src: bytes)
    requires |src| < 3
    ensures BitString(Digits(src), 6) == BitString(src, 8) + Bits(0, if |src| == 0 then 0 else if |src| == 1 then 4 else 2)
  {
    hide Bits, Digit0, Digit1, Digit2, Digit3;
    GroupBits(Peek(src, 0), Peek(src, 1), 0);
    var d := Digits(src);
    assert src[0..] == src && d[0..] == d;
    if |src| == 0 {
      assert |Bits(0, 0)| == 0;
    } else {
      BitStringHead(src, 0, 8);
      BitStringHead(d, 0, 6);
      BitStringHead(d, 1, 6);
      if |src| == 2 {
        BitStringHead(src, 1, 8);
        BitStringHead(d, 2, 6);
      }
    }
  }

  // ------------------------------------------------------------ order

  lemma {:induction false} LessAt(x: bytes, y: bytes, p: nat)
    requires p <= |x| && p < |y| && (forall i :: 0 <= i < p ==> x[i] == y[i])
    requires p < |x| ==> x[p] < y[p]
    ensures StrLess(x, y)
  {
    if p > 0 { LessAt(x[1..], y[1..], p - 1); }
  }

  lemma {:induction false} LessSuffix(p: bytes, x: bytes, y: bytes)
    requires StrLess(x, y)
    ensures StrLess(p + x, p + y)
  {
    if p == [] {
      assert p + x == x && p + y == y;
    } else {
      LessSuffix(p[1..], x, y);
      assert (p + x)[1..] == p[1..] + x && (p + y)[1..] == p[1..] + y;
    }
  }

  /** The first four digits, where they exist, with bytes past the end read as zero. */
  lemma {:induction false} FirstDigits(src: bytes)
    requires src != []
    ensures var d, s1, s2 := Digits(src), Peek(src, 1), Peek(src, 2);
      && |d| >= 2 && d[0] == Digit0(src[0]) && d[1] == Digit1(src[0], s1)
      && (|d| == 2 <==> |src| == 1) && (|d| == 3 <==> |src| == 2)
      && (|d| > 2 ==> d[2] == Digit2(s1, s2))
      && (|d| > 3 ==> d[3] == Digit3(s2))
  {
    hide Digit0, Digit1, Digit2, Digit3;
  }

  /** Which digit of the first group decides. */
  lemma {:induction false} DigitOrder(a: byte, b: byte)
    requires a < b
    ensures a / 4 <= b / 4 && (a / 4 == b / 4 ==> a % 4 < b % 4)
    ensures a / 16 <= b / 16 && (a / 16 == b / 16 ==> a % 16 < b % 16)
    ensures a / 64 <= b / 64 && (a / 64 == b / 64 ==> a % 64 < b % 64)
  {
  }

  lemma {:induction false} FirstByteDecides(a: bytes, b: bytes)
    requires a != [] && b != [] && a[0] < b[0]
    ensures StrLess(Digits(a), Digits(b))
  {
    hide Digits, StrLess, Digit1, Digit2, Digit3;
    FirstDigits(a);
    FirstDigits(b);
    DigitOrder(a[0], b[0]);
    Fields(a[0], Peek(a, 1), 0);
    Fields(b[0], Peek(b, 1), 0);
    LessAt(Digits(a), Digits(b), if a[0] / 4 == b[0] / 4 then 1 else 0);
  }

  lemma {:induction false} SecondDigits(s: byte, x: byte, y: byte, x2: byte, y2: byte)
    requires x < y
    ensures if x / 16 == y / 16 then Digit1(s, x) == Digit1(s, y) && Digit2(x, x2) < Digit2(y, y2)
            else Digit1(s, x) < Digit1(s, y)
  {
    hide Digit1, Digit2;
    DigitOrder(x, y);
    Fields(s, x, x2);
    Fields(s, y, y2);
  }

  lemma {:induction false} SecondByteDecides(a: bytes, b: bytes)
    requires a != [] && |b| > 1 && a[0] == b[0] && (|a| > 1 ==> a[1] < b[1])
    ensures StrLess(Digits(a), Digits(b))
  {
    hide Digits, StrLess, Digit1, Digit2, Digit3;
    FirstDigits(a);
    FirstDigits(b);
    var x, y := Peek(a, 1), b[1];
    if x < y { SecondDigits(a[0], x, y, Peek(a, 2), Peek(b, 2)); }
    hide Peek;
    LessAt(Digits(a), Digits(b), if x / 16 == y / 16 then 2 else 1);
  }

  lemma {:induction false} ThirdByteDecides(a: bytes, b: bytes)
    requires |a| > 1 && |b| > 2 && a[0] == b[0] && a[1] == b[1] && (|a| > 2 ==> a[2] < b[2])
    ensures StrLess(Digits(a), Digits(b))
  {
    hide Digits, StrLess, Digit1, Digit2;
    FirstDigits(a);
    FirstDigits(b);
    var x, y := Peek(a, 2), b[2];
    if x < y { DigitOrder(x, y); }
    Fields(a[0], a[1], x);
    Fields(b[0], b[1], y);
    LessAt(Digits(a), Digits(b), if x / 64 == y / 64 then 3 else 2);
  }

  /** The digits of a smaller string are smaller. */
  lemma {:induction false} DigitsKeepOrder(a: bytes, b: bytes)
    requires StrLess(a, b)
    ensures StrLess(Digits(a), Digits(b))
  {
    hide Digit0, Digit1, Digit2, Digit3;
    if a == [] {
    } else if a[0] < b[0] {
      FirstByteDecides(a, b);
    } else if |a| == 1 || a[1] < b[1] {
      SecondByteDecides(a, b);
    } else {
      LessTail(a, b);
      LessTail(a[1..], b[1..]);
      assert a[1..][1..] == a[2..] && b[1..][1..] == b[2..];
      if |a| == 2 || a[2] < b[2] {
        ThirdByteDecides(a, b);
      } else {
        LessTail(a[2..], b[2..]);
        assert a[2..][1..] == a[3..] && b[2..][1..] == b[3..];
        DigitsKeepOrder(a[3..], b[3..]);
        LessSuffix(Digits(a)[..4], Digits(a[3..]), Digits(b[3..]));
      }
    }
  }

  lemma {:induction false} LessTail(a: bytes, b: bytes)
    requires StrLess(a, b) && a != [] && !(a[0] < b[0])
    ensures a[0] == b[0] && StrLess(a[1..], b[1..])
  {
  }

  // ------------------------------------------------------------ characters

  /** Digits written in the alphabet. */
  function Spell(alphabet: bytes, d: seq<digit>): (r: bytes)
    requires |alphabet| == 64
    ensures |r| == |d| && forall i :: 0 <= i < |d| ==> r[i] == alphabet[d[i]]
  {
    seq(|d|, i requires 0 <= i < |d| => alphabet[d[i]])
  }

  function Encoded(alphabet: bytes, src: bytes): (r: bytes)
    requires |alphabet| == 64
    ensures |r| == (|src| * 4 + 2) / 3
  {
    Spell(alphabet, Digits(src))
  }

  /** The values of the characters the decoder's table knows; the others are skipped. */
  function Numbers(number: bytes, s: bytes): (r: seq<digit>)
    requires |number| == 256
    ensures |r| <= |s|
  {
    if s == [] then []
    else if number[s[0]] < 64 then [number[s[0]]] + Numbers(number, s[1..])
    else Numbers(number, s[1..])
  }

  function Decoded(number: bytes, s: bytes): (r: bytes)
    requires |number| == 256
    ensures |r| <= |s| * 3 / 4
  {
    Undigits(Numbers(number, s))
  }

  /** The alphabet characters of a string, in order. */
  function Letters(alphabet: bytes, s: bytes): bytes {
    if s == [] then [] else (if s[0] in alphabet then [s[0]] else []) + Letters(alphabet, s[1..])
  }

  lemma {:induction false} NumbersOfLetters(number: bytes, alphabet: bytes, s: bytes)
    requires IsTable(number, alphabet)
    ensures Spell(alphabet, Numbers(number, s)) == Letters(alphabet, s)
  {
    if s != [] {
      TableFinds(number, alphabet, s[0]);
      hide IsTable, Spell;
      NumbersOfLetters(number, alphabet, s[1..]);
      if s[0] in alphabet { SpellHead(alphabet, number[s[0]], Numbers(number, s[1..])); }
    }
  }

  lemma {:induction false} TableFinds(number: bytes, alphabet: bytes, c: byte)
    requires IsTable(number, alphabet)
    ensures c in alphabet <==> number[c] < 64
    ensures c in alphabet ==> alphabet[number[c]] == c
  {
    if c in alphabet {
      var k :| 0 <= k < 64 && alphabet[k] == c;
      assert number[c] == k;
    }
  }

  lemma {:induction false} SpellHead(alphabet: bytes, x: digit, d: seq<digit>)
    requires |alphabet| == 64
    ensures Spell(alphabet, [x] + d) == [alphabet[x]] + Spell(alphabet, d)
  {
  }

  lemma {:induction false} SpellInjective(number: bytes, alphabet: bytes, d: seq<digit>, e: seq<digit>)
    requires IsTable(number, alphabet) && Spell(alphabet, d) == Spell(alphabet, e)
    ensures d == e
  {
    assert |d| == |e|;
    forall i | 0 <= i < |d| ensures d[i] == e[i] {
      assert number[Spell(alphabet, d)[i]] == d[i] && number[Spell(alphabet, e)[i]] == e[i];
    }
  }

  /** Whatever characters from outside the alphabet are put into an encoding, decoding it gives the
      input back, in the space the decoder reserves. */
  lemma {:induction false} RoundTrip(alphabet: bytes, number: bytes, src: bytes, s: bytes)
    requires IsTable(number, alphabet) && Letters(alphabet, s) == Encoded(alphabet, src)
    ensures Decoded(number, s) == src && |src| <= |s| * 3 / 4
  {
    NumbersOfLetters(number, alphabet, s);
    SpellInjective(number, alphabet, Numbers(number, s), Digits(src));
    DigitsRoundTrip(src);
  }

  lemma {:induction false} EncodedIsLetters(alphabet: bytes, d: seq<digit>)
    requires |alphabet| == 64
    ensures Letters(alphabet, Spell(alphabet, d)) == Spell(alphabet, d)
  {
    if d != [] {
      var s := Spell(alphabet, d);
      assert s[0] in alphabet;
      assert s[1..] == Spell(alphabet, d[1..]);
      hide Spell;
      EncodedIsLetters(alphabet, d[1..]);
      assert s == [s[0]] + s[1..];
    }
  }

  lemma {:induction false} PlainRoundTrip(alphabet: bytes, number: bytes, src: bytes)
    requires IsTable(number, alphabet)
    ensures Decoded(number, Encoded(alphabet, src)) == src
  {
    EncodedIsLetters(alphabet, Digits(src));
    RoundTrip(alphabet, number, src, Encoded(alphabet, src));
  }

  // ------------------------------------------------------------ order of encodings

  lemma {:induction false} SpellKeepsOrder(alphabet: bytes, d: seq<digit>, e: seq<digit>)
    requires Increasing(alphabet) && StrLess(d, e)
    ensures StrLess(Spell(alphabet, d), Spell(alphabet, e))
  {
    if d != [] && d[0] == e[0] {
      SpellKeepsOrder(alphabet, d[1..], e[1..]);
      assert Spell(alphabet, d)[1..] == Spell(alphabet, d[1..]) && Spell(alphabet, e)[1..] == Spell(alphabet, e[1..]);
    } else if d != [] {
      assert alphabet[d[0]] < alphabet[e[0]];
    }
  }

  lemma {:induction false} EncodedLess(alphabet: bytes, a: bytes, b: bytes)
    requires Increasing(alphabet) && StrLess(a, b)
    ensures StrLess(Encoded(alphabet, a), Encoded(alphabet, b))
  {
    DigitsKeepOrder(a, b);
    SpellKeepsOrder(alphabet, Digits(a), Digits(b));
  }

  lemma {:induction false} EncodedOrder(alphabet: bytes, a: bytes, b: bytes)
    requires Increasing(alphabet)
    ensures StrLess(a, b) <==> StrLess(Encoded(alphabet, a), Encoded(alphabet, b))
  {
    hide Encoded, StrLess;
    StrTotal(a, b);
    var x, y := Encoded(alphabet, a), Encoded(alphabet, b);
    StrIrreflexive(x);
    if StrLess(a, b) {
      EncodedLess(alphabet, a, b);
    } else if StrLess(b, a) {
      EncodedLess(alphabet, b, a);
      if StrLess(x, y) { StrTransitive(x, y, x); }
    }
  }

  /** Encoding keeps the order of all strings exactly when the alphabet is increasing. */
  lemma {:induction false} OrderKeptExactly(alphabet: bytes)
    requires IsAlphabet(alphabet)
    ensures (forall a, b :: StrLess(a, b) <==> StrLess(Encoded(alphabet, a), Encoded(alphabet, b))) <==> Increasing(alphabet)
  {
    if Increasing(alphabet) {
      forall a, b ensures StrLess(a, b) <==> StrLess(Encoded(alphabet, a), Encoded(alphabet, b)) {
        EncodedOrder(alphabet, a, b);
      }
    } else {
      var i, j :| 0 <= i < j < 64 && !(alphabet[i] < alphabet[j]);
      var a, b := [4 * i as byte], [4 * j as byte];
      assert StrLess(a, b);
      assert Encoded(alphabet, a)[0] == alphabet[i] && Encoded(alphabet, b)[0] == alphabet[j];
      assert !StrLess(Encoded(alphabet, a), Encoded(alphabet, b));
    }
  }

  // ------------------------------------------------------------ the encoder and decoder loops

  method Encode(alphabet: bytes, src: bytes) returns (dst: array<byte>)
    requires |alphabet| == 64
    ensures fresh(dst) && dst[..] == Encoded(alphabet, src)
  {
    hide Encoded;
    var sz := (|src| * 4 + 2) / 3;
    dst := new byte[sz];
    ghost var groups, rest := |src| / 3, |src| % 3;
    var tail := sz % 4;
    SizeIs(|src|, groups, rest);
    var s: nat, o: nat, i := 0, 0, tail;
    ghost var done := 0;
    EncodedEmpty(alphabet, src);
    while i < sz
      invariant done <= groups && s == 3 * done && o == 4 * done && i == tail + 4 * done
      invariant dst[..o] == Encoded(alphabet, src[..s])
    {
      o := PutThree(alphabet, src[s..s + 3], dst, o);
      AppendEncoded(alphabet, src, done, s + 3);
      s, i, done := s + 3, i + 4, done + 1;
    }
    if tail != 0 {
      o := PutLast(alphabet, src[s..], dst, o);
      assert src[s..] == src[s..|src|];
      AppendEncoded(alphabet, src, done, |src|);
    }
    assert src[..|src|] == src && dst[..] == dst[..o];
  }

  /** Whole groups of three bytes become four characters each; one byte more two, two more three. */
  lemma {:induction false} SizeIs(n: nat, groups: nat, rest: nat)
    requires groups == n / 3 && rest == n % 3
    ensures var sz, tail := (n * 4 + 2) / 3, if rest == 0 then 0 else rest + 1;
      n == 3 * groups + rest && sz == 4 * groups + tail && sz % 4 == tail
  {
    var tail := if rest == 0 then 0 else rest + 1;
    Thirds(n * 4 + 2, 4 * groups + tail, 4 * rest + 2 - 3 * tail);
    LowTwo(4 * groups + tail, groups, tail);
  }

  lemma {:induction false} Thirds(x: nat, third: nat, rest: nat)
    requires x == 3 * third + rest && rest < 3
    ensures x / 3 == third
  {
  }

  lemma {:induction false} AppendEncoded(alphabet: bytes, src: bytes, done: nat, t: nat)
    requires |alphabet| == 64 && 3 * done <= t <= |src|
    ensures Encoded(alphabet, src[..t]) == Encoded(alphabet, src[..3 * done]) + Encoded(alphabet, src[3 * done..t])
  {
    hide Encoded;
    assert (3 * done) % 3 == 0;
    EncodedConcat(alphabet, src, 3 * done, t);
  }

  /** Three bytes of input to four of output. */
  method PutThree(alphabet: bytes, s: bytes, dst: array<byte>, o: nat) returns (next: nat)
    requires |alphabet| == 64 && |s| == 3 && o + 4 <= dst.Length
    modifies dst
    ensures next == o + 4 && dst[..next] == old(dst[..o]) + Encoded(alphabet, s)
  {
    hide Digit0, Digit1, Digit2, Digit3;
    next := Put(dst, o, alphabet[Digit0(s[0])]);
    next := Put(dst, next, alphabet[Digit1(s[0], s[1])]);
    next := Put(dst, next, alphabet[Digit2(s[1], s[2])]);
    next := Put(dst, next, alphabet[Digit3(s[2])]);
    assert s[3..] == [];
  }

  /** One or two bytes of input to two or three of output. */
  method PutLast(alphabet: bytes, s: bytes, dst: array<byte>, o: nat) returns (next: nat)
    requires |alphabet| == 64 && 1 <= |s| <= 2 && o + |s| + 1 <= dst.Length
    modifies dst
    ensures next == o + |s| + 1 && dst[..next] == old(dst[..o]) + Encoded(alphabet, s)
  {
    hide Digit0, Digit1, Digit2, Digit3;
    next := Put(dst, o, alphabet[Digit0(s[0])]);
    if |s| == 1 {
      next := Put(dst, next, alphabet[Digit1(s[0], 0)]);
    } else {
      next := Put(dst, next, alphabet[Digit1(s[0], s[1])]);
      next := Put(dst, next, alphabet[Digit2(s[1], 0)]);
    }
  }

  /** Write one character and advance. */
  method Put(dst: array<byte>, o: nat, x: byte) returns (next: nat)
    requires o < dst.Length
    modifies dst
    ensures next == o + 1 && dst[..next] == old(dst[..o]) + [x]
  {
    dst[o] := x;
    next := o + 1;
  }

  lemma {:induction false} EncodedEmpty(alphabet: bytes, src: bytes)
    requires |alphabet| == 64
    ensures Encoded(alphabet, src[..0]) == []
  {
  }

  lemma {:induction false} EncodedConcat(alphabet: bytes, src: bytes, s: nat, t: nat)
    requires |alphabet| == 64 && s % 3 == 0 && s <= t <= |src|
    ensures Encoded(alphabet, src[..t]) == Encoded(alphabet, src[..s]) + Encoded(alphabet, src[s..t])
  {
    hide Digits;
    DigitsConcat(src[..s], src[s..t]);
    assert src[..s] + src[s..t] == src[..t];
  }

  method FindAlphabet(number: bytes, src: bytes, from: nat) returns (p: nat)
    requires |number| == 256 && from <= |src|
    ensures from <= p <= |src| && (p < |src| ==> number[src[p]] < 64)
    ensures Numbers(number, src[from..]) == Numbers(number, src[p..])
  {
    p := from;
    while p != |src| && number[src[p]] >= 64
      invariant from <= p <= |src|
      invariant Numbers(number, src[from..]) == Numbers(number, src[p..])
    {
      assert src[p..][1..] == src[p + 1..];
      p := p + 1;
    }
  }

  /** One digit read and the next alphabet character found. */
  method NextDigit(number: bytes, src: bytes, at: nat) returns (d: digit, p: nat)
    requires |number| == 256 && at < |src| && number[src[at]] < 64
    ensures at < p <= |src| && (p < |src| ==> number[src[p]] < 64)
    ensures d == number[src[at]]
    ensures Numbers(number, src[at..]) == [d] + Numbers(number, src[p..])
  {
    d := number[src[at]];
    assert src[at..][1..] == src[at + 1..];
    p := FindAlphabet(number, src, at + 1);
  }

  /** Up to four digits; fewer only at the end of the input. */
  method ReadGroup(number: bytes, src: bytes, at: nat) returns (d: seq<digit>, p: nat)
    requires |number| == 256 && at < |src| && number[src[at]] < 64
    ensures at < p <= |src| && (p < |src| ==> number[src[p]] < 64)
    ensures 1 <= |d| <= 4 && (|d| < 4 ==> p == |src|)
    ensures Numbers(number, src[at..]) == d + Numbers(number, src[p..])
  {
    hide Numbers;
    var s0, s1, s2, s3;
    s0, p := NextDigit(number, src, at);
    if p == |src| { return [s0], p; }
    s1, p := NextDigit(number, src, p);
    if p == |src| { return [s0, s1], p; }
    s2, p := NextDigit(number, src, p);
    if p == |src| { return [s0, s1, s2], p; }
    s3, p := NextDigit(number, src, p);
    return [s0, s1, s2, s3], p;
  }

  /** Four digits to three bytes, three to two, two to one; one digit alone is ignored. */
  method PutBytes(d: seq<digit>, out: array<byte>, o: nat) returns (next: nat)
    requires 1 <= |d| <= 4 && o + |d| - 1 <= out.Length
    modifies out
    ensures next == o + |d| - 1 && out[..next] == old(out[..o]) + Undigits(d)
  {
    hide Byte0, Byte1, Byte2;
    next := o;
    if |d| >= 2 { next := Put(out, next, Byte0(d[0], d[1])); }
    if |d| >= 3 { next := Put(out, next, Byte1(d[1], d[2])); }
    if |d| == 4 {
      next := Put(out, next, Byte2(d[2], d[3]));
      assert d[4..] == [];
    }
  }

  lemma {:induction false} UndigitsGroup(d: seq<digit>, rest: seq<digit>)
    requires 1 <= |d| <= 4 && (|d| < 4 ==> rest == [])
    ensures Undigits(d + rest) == Undigits(d) + Undigits(rest)
  {
    hide Byte0, Byte1, Byte2;
    if |d| == 4 {
      assert (d + rest)[4..] == rest && d[4..] == [];
    } else {
      assert d + rest == d;
    }
  }

  lemma {:induction false} NothingLeft(number: bytes, src: bytes)
    requires |number| == 256
    ensures Numbers(number, src[|src|..]) == [] && Undigits([]) == []
  {
  }

  method Decode(number: bytes, src: bytes) returns (dst: bytes)
    requires |number| == 256
    ensures dst == Decoded(number, src)
  {
    hide Numbers, Undigits, Byte0, Byte1, Byte2;
    var sz := |src| * 3 / 4;
    var out := new byte[sz];
    var o: nat := 0;
    assert src[0..] == src;
    ghost var all := Decoded(number, src);
    var p := FindAlphabet(number, src, 0);
    NothingLeft(number, src);
    while p != |src|
      invariant p <= |src| && (p < |src| ==> number[src[p]] < 64) && o <= sz
      invariant all == out[..o] + Undigits(Numbers(number, src[p..]))
      decreases |src| - p
    {
      var d;
      d, p := ReadGroup(number, src, p);
      UndigitsGroup(d, Numbers(number, src[p..]));
      o := PutBytes(d, out, o);
    }
    assert all == out[..o];
    dst := out[..o];
  }
}
