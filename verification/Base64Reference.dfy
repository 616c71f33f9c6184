/** Base64 as a statement about bits: character i stands for bits 6i to 6i+5 of the input, most
    significant first and continued with zeros, and padding fills the last quad. */
module Base64Reference {
  import opened Bytes
  import opened Base64

  function Weight(k: nat): nat
    requires k < 8
  {
    match k
    case 0 => 128
    case 1 => 64
    case 2 => 32
    case 3 => 16
    case 4 => 8
    case 5 => 4
    case 6 => 2
    case 7 => 1
  }

  /** Bit j of the octet string s; zero after its end. */
  function Bit(s: seq<byte>, j: nat): (r: nat)
    ensures r < 2
  {
    if j / 8 < |s| then s[j / 8] / Weight(j % 8) % 2 else 0
  }

  function Sextet(s: seq<byte>, i: nat): digit {
    var j := 6 * i;
    32 * Bit(s, j) + 16 * Bit(s, j + 1) + 8 * Bit(s, j + 2) + 4 * Bit(s, j + 3) + 2 * Bit(s, j + 4) + Bit(s, j + 5)
  }

  function CharAt(a: Alphabet, s: seq<byte>, i: nat): char {
    if 6 * i < 8 * |s| then EncodeDigit(a, Sextet(s, i)) else PADDING
  }

  function Reference(a: Alphabet, s: seq<byte>): (r: string)
    ensures |r| == 4 * ((|s| + 2) / 3)
  {
    seq(4 * ((|s| + 2) / 3), i requires 0 <= i => CharAt(a, s, i))
  }

  lemma ReferenceAt(a: Alphabet, s: seq<byte>, i: nat)
    requires i < |Reference(a, s)|
    ensures Reference(a, s)[i] == CharAt(a, s, i)
  {
  }

  /** Padding stands exactly where no bit of s is left. */
  lemma PaddingAfterBits(a: Alphabet, s: seq<byte>, i: nat)
    requires i < |Reference(a, s)|
    ensures Reference(a, s)[i] == PADDING <==> 6 * i >= 8 * |s|
  {
    DigitRoundTrip(a, Sextet(s, i));
  }

  lemma ShiftedBit(s: seq<byte>, j: nat)
    requires |s| >= 3
    ensures Bit(s, j + 24) == Bit(s[3..], j)
  {
    assert (j + 24) / 8 == j / 8 + 3 && (j + 24) % 8 == j % 8;
  }

  lemma ShiftedSextet(s: seq<byte>, i: nat)
    requires |s| >= 3
    ensures Sextet(s, i + 4) == Sextet(s[3..], i)
  {
    var j := 6 * i;
    assert 6 * (i + 4) == j + 24;
    ShiftedBit(s, j);
    ShiftedBit(s, j + 1);
    ShiftedBit(s, j + 2);
    ShiftedBit(s, j + 3);
    ShiftedBit(s, j + 4);
    ShiftedBit(s, j + 5);
  }

  lemma LowHalves(x: byte)
    ensures x == 2 * (x / 2) + x % 2 && x / 2 == 2 * (x / 4) + x / 2 % 2 && x / 4 == 2 * (x / 8) + x / 4 % 2
  {
  }

  lemma MiddleHalves(x: byte)
    ensures x / 8 == 2 * (x / 16) + x / 8 % 2 && x / 16 == 2 * (x / 32) + x / 16 % 2
  {
  }

  lemma HighHalves(x: byte)
    ensures x / 32 == 2 * (x / 64) + x / 32 % 2 && x / 64 == 2 * (x / 128) + x / 64 % 2 && x / 128 == x / 128 % 2
  {
  }

  /** The bits of an octet, collected from the high end. */
  lemma HighBits(x: byte)
    ensures 2 * (x / 128 % 2) + x / 64 % 2 == x / 64
    ensures 8 * (x / 128 % 2) + 4 * (x / 64 % 2) + 2 * (x / 32 % 2) + x / 16 % 2 == x / 16
    ensures 32 * (x / 128 % 2) + 16 * (x / 64 % 2) + 8 * (x / 32 % 2) + 4 * (x / 16 % 2) + 2 * (x / 8 % 2) + x / 4 % 2
            == x / 4
  {
    LowHalves(x);
    MiddleHalves(x);
    HighHalves(x);
  }

  /** The bits of an octet, collected at the low end. */
  lemma LowBits(x: byte)
    ensures 2 * (x / 2 % 2) + x / 1 % 2 == x % 4
    ensures 8 * (x / 8 % 2) + 4 * (x / 4 % 2) + 2 * (x / 2 % 2) + x / 1 % 2 == x % 16
    ensures 32 * (x / 32 % 2) + 16 * (x / 16 % 2) + 8 * (x / 8 % 2) + 4 * (x / 4 % 2) + 2 * (x / 2 % 2) + x / 1 % 2
            == x % 64
  {
    LowHalves(x);
    MiddleHalves(x);
    HighHalves(x);
    assert x % 4 == x - 4 * (x / 4) && x % 16 == x - 16 * (x / 16) && x % 64 == x - 64 * (x / 64);
  }

  /** The octet at i, zero after the end. */
  function At(s: seq<byte>, i: nat): byte {
    if i < |s| then s[i] else 0
  }

  lemma FirstSextet(s: seq<byte>)
    ensures Sextet(s, 0) == At(s, 0) / 4
  {
    var x := At(s, 0);
    HighBits(x);
    assert Bit(s, 0) == x / 128 % 2 && Bit(s, 1) == x / 64 % 2 && Bit(s, 2) == x / 32 % 2;
    assert Bit(s, 3) == x / 16 % 2 && Bit(s, 4) == x / 8 % 2 && Bit(s, 5) == x / 4 % 2;
  }

  /** Bits j to j+5 of s, when they straddle an octet boundary. */
  lemma SecondSextet(s: seq<byte>)
    ensures Sextet(s, 1) == At(s, 0) % 4 * 16 + At(s, 1) / 16
  {
    var x, y := At(s, 0), At(s, 1);
    LowBits(x);
    HighBits(y);
    assert Bit(s, 6) == x / 2 % 2 && Bit(s, 7) == x / 1 % 2;
    assert Bit(s, 8) == y / 128 % 2 && Bit(s, 9) == y / 64 % 2 && Bit(s, 10) == y / 32 % 2 && Bit(s, 11) == y / 16 % 2;
  }

  lemma ThirdSextet(s: seq<byte>)
    ensures Sextet(s, 2) == At(s, 1) % 16 * 4 + At(s, 2) / 64
  {
    var y, z := At(s, 1), At(s, 2);
    LowBits(y);
    HighBits(z);
    assert Bit(s, 12) == y / 8 % 2 && Bit(s, 13) == y / 4 % 2 && Bit(s, 14) == y / 2 % 2 && Bit(s, 15) == y / 1 % 2;
    assert Bit(s, 16) == z / 128 % 2 && Bit(s, 17) == z / 64 % 2;
  }

  lemma FourthSextet(s: seq<byte>)
    ensures Sextet(s, 3) == At(s, 2) % 64
  {
    var z := At(s, 2);
    LowBits(z);
    assert Bit(s, 18) == z / 32 % 2 && Bit(s, 19) == z / 16 % 2 && Bit(s, 20) == z / 8 % 2;
    assert Bit(s, 21) == z / 4 % 2 && Bit(s, 22) == z / 2 % 2 && Bit(s, 23) == z / 1 % 2;
  }

  /** The quad of the first group, zero-filled when s is shorter. */
  lemma FirstQuad(a: Alphabet, s: seq<byte>)
    ensures EncodeGroup(a, Group(At(s, 0), At(s, 1), At(s, 2))) ==
            [EncodeDigit(a, Sextet(s, 0)), EncodeDigit(a, Sextet(s, 1)), EncodeDigit(a, Sextet(s, 2)),
             EncodeDigit(a, Sextet(s, 3))]
  {
    GroupSextets(At(s, 0), At(s, 1), At(s, 2));
    FirstSextet(s);
    SecondSextet(s);
    ThirdSextet(s);
    FourthSextet(s);
  }

  lemma CharShift(a: Alphabet, s: seq<byte>, i: nat)
    requires |s| >= 3
    ensures CharAt(a, s, i + 4) == CharAt(a, s[3..], i)
  {
    ShiftedSextet(s, i);
  }

  lemma FrontAndRest<T>(r: seq<T>, rest: seq<T>)
    requires |r| == 4 + |rest| && forall i :: 0 <= i < |rest| ==> r[i + 4] == rest[i]
    ensures r == [r[0], r[1], r[2], r[3]] + rest
  {
    assert r[4..] == rest && r == r[..4] + r[4..];
  }

  lemma ReferenceFront(a: Alphabet, s: seq<byte>)
    requires |s| >= 3
    ensures Reference(a, s) ==
            [CharAt(a, s, 0), CharAt(a, s, 1), CharAt(a, s, 2), CharAt(a, s, 3)] + Reference(a, s[3..])
  {
    var r, rest := Reference(a, s), Reference(a, s[3..]);
    QuadCount(|s|);
    forall i | 0 <= i < |rest| ensures r[i + 4] == rest[i] {
      ReferenceAt(a, s, i + 4);
      ReferenceAt(a, s[3..], i);
      CharShift(a, s, i);
    }
    FrontAndRest(r, rest);
    ReferenceAt(a, s, 0);
    ReferenceAt(a, s, 1);
    ReferenceAt(a, s, 2);
    ReferenceAt(a, s, 3);
  }

  lemma ReferenceShort(a: Alphabet, s: seq<byte>)
    requires 0 < |s| < 3
    ensures Reference(a, s) == [CharAt(a, s, 0), CharAt(a, s, 1), CharAt(a, s, 2), CharAt(a, s, 3)]
  {
  }

  /** The quad-wise encoder computes the bit-wise definition. */
  lemma {:induction false} EncodeIsReference(a: Alphabet, s: seq<byte>)
    ensures Encode(a, s) == Reference(a, s)
  {
    if |s| >= 3 {
      EncodeIsReference(a, s[3..]);
      FirstQuad(a, s);
      ReferenceFront(a, s);
      assert At(s, 0) == s[0] && At(s, 1) == s[1] && At(s, 2) == s[2];
    } else if |s| > 0 {
      FirstQuad(a, s);
      ReferenceShort(a, s);
    }
  }

  lemma DropThree(n: nat)
    requires n % 3 == 0 && n > 0
    ensures n >= 3 && (n - 3) % 3 == 0
  {
  }

  lemma {:induction false} EncodeOfBlocks(a: Alphabet, whole: seq<byte>, rest: seq<byte>)
    requires |whole| % 3 == 0 && |rest| < 3
    ensures Encode(a, whole + rest) == EncodeBlocks(a, whole) + Flush(a, rest)
  {
    if whole == [] {
      assert whole + rest == rest && [] + Flush(a, rest) == Flush(a, rest);
    } else {
      DropThree(|whole|);
      EncodeOfBlocks(a, whole[3..], rest);
      EncodeCons(a, whole[..3], whole[3..] + rest);
      Associative(whole[..3], whole[3..], rest);
      assert whole[..3] + whole[3..] == whole;
      Associative(EncodeGroup(a, Group(whole[0], whole[1], whole[2])), EncodeBlocks(a, whole[3..]), Flush(a, rest));
    }
  }
}
