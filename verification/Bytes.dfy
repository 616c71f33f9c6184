/** Octets, their exclusive or, and the two byte orders the sources convert between. */
module Bytes {
  type byte = x: int | 0 <= x < 256

  datatype Option<+T> = None | Some(value: T) {
    function GetOr(default: T): T {
      if Some? then value else default
    }
  }

  function Pow2(n: nat): (r: nat)
    ensures r > 0
  {
    if n == 0 then 1 else 2 * Pow2(n - 1)
  }

  /** Exclusive or of the low n bits of a and b, least significant bit first. */
  function XorLow(a: nat, b: nat, n: nat): nat {
    if n == 0 then 0 else (a + b) % 2 + 2 * XorLow(a / 2, b / 2, n - 1)
  }

  lemma {:induction false} XorLowBound(a: nat, b: nat, n: nat)
    ensures XorLow(a, b, n) < Pow2(n)
  {
    if n != 0 {
      XorLowBound(a / 2, b / 2, n - 1);
    }
  }

  lemma Halves(low: nat, high: nat)
    requires low < 2
    ensures (low + 2 * high) / 2 == high
  {
  }

  lemma Parity(a: nat, b: nat, high: nat)
    ensures ((a + b) % 2 + 2 * high + b) % 2 == a % 2
  {
  }

  lemma {:induction false} XorLowInvolution(a: nat, b: nat, n: nat)
    requires a < Pow2(n)
    ensures XorLow(XorLow(a, b, n), b, n) == a
  {
    if n != 0 {
      XorLowInvolution(a / 2, b / 2, n - 1);
      Halves((a + b) % 2, XorLow(a / 2, b / 2, n - 1));
      Parity(a, b, XorLow(a / 2, b / 2, n - 1));
    }
  }

  lemma Pow2Of8()
    ensures Pow2(8) == 256
  {
    assert Pow2(4) == 16;
  }

  function Xor(a: byte, b: byte): byte {
    XorLowBound(a, b, 8);
    Pow2Of8();
    XorLow(a, b, 8)
  }

  lemma XorInvolution(a: byte, b: byte)
    ensures Xor(Xor(a, b), b) == a
  {
    Pow2Of8();
    XorLowInvolution(a, b, 8);
  }

  /** Bit k of x, counted from the low end. */
  function BitAt(x: nat, k: nat): nat {
    if k == 0 then x % 2 else BitAt(x / 2, k - 1)
  }

  lemma LowBitOfXor(a: nat, b: nat, high: nat)
    ensures ((a + b) % 2 + 2 * high) % 2 == 1 <==> a % 2 != b % 2
  {
  }

  lemma {:induction false} BitOfXorLow(a: nat, b: nat, n: nat, k: nat)
    requires k < n
    ensures BitAt(XorLow(a, b, n), k) == 1 <==> BitAt(a, k) != BitAt(b, k)
  {
    Halves((a + b) % 2, XorLow(a / 2, b / 2, n - 1));
    if k == 0 {
      LowBitOfXor(a, b, XorLow(a / 2, b / 2, n - 1));
    } else {
      BitOfXorLow(a / 2, b / 2, n - 1, k - 1);
    }
  }

  /** A bit of the exclusive or is set exactly where the bits of the operands differ. */
  lemma BitOfXor(a: byte, b: byte, k: nat)
    requires k < 8
    ensures BitAt(Xor(a, b), k) == 1 <==> BitAt(a, k) != BitAt(b, k)
  {
    BitOfXorLow(a, b, 8, k);
  }

  /** The last four bits of three numbers add up to even numbers. */
  predicate BitsAddEven(a: nat, b: nat, c: nat) {
    && (a + b + c) % 2 == 0 && (a / 2 + b / 2 + c / 2) % 2 == 0
    && (a / 4 + b / 4 + c / 4) % 2 == 0 && (a / 8 + b / 8 + c / 8) % 2 == 0
  }

  lemma Quarters(a: nat)
    ensures a / 2 / 2 == a / 4 && a / 4 / 2 == a / 8 && a / 4 / 4 == a / 16
  {
  }

  lemma Rebuilt(a: nat, b: nat, c: nat)
    requires (a + b + c) % 2 == 0
    ensures (a + b) % 2 + 2 * (c / 2) == c
  {
    assert (a + b) % 2 == c % 2;
  }

  lemma OneBit(a: nat, b: nat, c: nat, n: nat, x: nat, y: nat, z: nat)
    requires x == a / 2 && y == b / 2 && z == c / 2
    requires XorLow(x, y, n) == z && (a + b + c) % 2 == 0
    ensures XorLow(a, b, n + 1) == c
  {
    Rebuilt(a, b, c);
  }

  lemma TwoBits(a: nat, b: nat, c: nat, n: nat)
    requires XorLow(a / 2 / 2, b / 2 / 2, n) == c / 2 / 2 && (a + b + c) % 2 == 0 && (a / 2 + b / 2 + c / 2) % 2 == 0
    ensures XorLow(a, b, n + 2) == c
  {
    OneBit(a / 2, b / 2, c / 2, n, a / 2 / 2, b / 2 / 2, c / 2 / 2);
    OneBit(a, b, c, n + 1, a / 2, b / 2, c / 2);
  }

  lemma TwoBitsAt(a: nat, b: nat, c: nat, n: nat, x: nat, y: nat, z: nat)
    requires x == a / 4 && y == b / 4 && z == c / 4 && XorLow(x, y, n) == z
    requires (a + b + c) % 2 == 0 && (a / 2 + b / 2 + c / 2) % 2 == 0
    ensures XorLow(a, b, n + 2) == c
  {
    Quarters(a);
    Quarters(b);
    Quarters(c);
    TwoBits(a, b, c, n);
  }

  lemma FourBits(a: nat, b: nat, c: nat, n: nat, x: nat, y: nat, z: nat)
    requires x == a / 16 && y == b / 16 && z == c / 16 && XorLow(x, y, n) == z && BitsAddEven(a, b, c)
    ensures XorLow(a, b, n + 4) == c
  {
    Quarters(a);
    Quarters(b);
    Quarters(c);
    TwoBitsAt(a / 4, b / 4, c / 4, n, x, y, z);
    TwoBitsAt(a, b, c, n + 2, a / 4, b / 4, c / 4);
  }

  /** The exclusive or of two octets is the octet whose bits make all sums even. */
  lemma XorIs(a: byte, b: byte, c: byte)
    requires BitsAddEven(a, b, c) && BitsAddEven(a / 16, b / 16, c / 16)
    ensures Xor(a, b) == c
  {
    FourBits(a / 16, b / 16, c / 16, 0, 0, 0, 0);
    FourBits(a, b, c, 4, a / 16, b / 16, c / 16);
  }

  function Pow256(n: nat): (r: nat)
    ensures r > 0
  {
    if n == 0 then 1 else 256 * Pow256(n - 1)
  }

  /** The w low-order octets of n, most significant first (network byte order). */
  function BigEndian(n: nat, w: nat): (s: seq<byte>)
    ensures |s| == w
  {
    if w == 0 then [] else BigEndian(n / 256, w - 1) + [n % 256]
  }

  function BigEndianValue(s: seq<byte>): nat {
    if s == [] then 0 else 256 * BigEndianValue(s[..|s| - 1]) + s[|s| - 1]
  }

  /** The octets of a w-octet integer in the memory of a little-endian machine. */
  function LittleEndian(n: nat, w: nat): (s: seq<byte>)
    ensures |s| == w
  {
    if w == 0 then [] else [n % 256] + LittleEndian(n / 256, w - 1)
  }

  function Reversed<T>(s: seq<T>): (r: seq<T>)
    ensures |r| == |s| && forall i :: 0 <= i < |s| ==> r[i] == s[|s| - 1 - i]
  {
    seq(|s|, i requires 0 <= i < |s| => s[|s| - 1 - i])
  }

  lemma {:induction false} ReversedLittleEndian(n: nat, w: nat)
    ensures Reversed(LittleEndian(n, w)) == BigEndian(n, w)
  {
    if w != 0 {
      ReversedLittleEndian(n / 256, w - 1);
      assert Reversed(LittleEndian(n, w)) == Reversed(LittleEndian(n / 256, w - 1)) + [n % 256];
    }
  }

  /** What reinterpreting an octet array as an integer yields on a little-endian machine. */
  function LittleEndianValue(s: seq<byte>): nat {
    if s == [] then 0 else s[0] + 256 * LittleEndianValue(s[1..])
  }

  lemma {:induction false} BigEndianValueOf(n: nat, w: nat)
    requires n < Pow256(w)
    ensures BigEndianValue(BigEndian(n, w)) == n
  {
    if w != 0 {
      BigEndianValueOf(n / 256, w - 1);
      assert BigEndian(n, w)[..w - 1] == BigEndian(n / 256, w - 1);
    }
  }

  lemma {:induction false} BigEndianOfValue(s: seq<byte>)
    ensures BigEndianValue(s) < Pow256(|s|)
    ensures BigEndian(BigEndianValue(s), |s|) == s
  {
    if s != [] {
      var high, low := s[..|s| - 1], s[|s| - 1];
      BigEndianOfValue(high);
      var v := 256 * BigEndianValue(high) + low;
      assert v / 256 == BigEndianValue(high) && v % 256 == low;
    }
  }

  /** Storing octets back to front and reading the array as little-endian is big-endian reading. */
  lemma {:induction false} LittleEndianOfReversed(s: seq<byte>)
    ensures LittleEndianValue(Reversed(s)) == BigEndianValue(s)
  {
    if s != [] {
      LittleEndianOfReversed(s[..|s| - 1]);
      assert Reversed(s)[1..] == Reversed(s[..|s| - 1]);
    }
  }

  lemma Associative<T>(a: seq<T>, b: seq<T>, c: seq<T>)
    ensures a + (b + c) == a + b + c
  {
  }

  /** Concatenation of a list of strings. */
  function Concat<T>(parts: seq<seq<T>>): seq<T> {
    if parts == [] then [] else parts[0] + Concat(parts[1..])
  }

  lemma {:induction false} ConcatAppend<T>(a: seq<seq<T>>, b: seq<seq<T>>)
    ensures Concat(a + b) == Concat(a) + Concat(b)
  {
    if a == [] {
      assert a + b == b;
    } else {
      assert (a + b)[1..] == a[1..] + b;
      ConcatAppend(a[1..], b);
    }
  }

  lemma ConcatSnoc<T>(a: seq<seq<T>>, x: seq<T>)
    ensures Concat(a + [x]) == Concat(a) + x
  {
    ConcatAppend(a, [x]);
    assert Concat([x]) == x;
  }
}
