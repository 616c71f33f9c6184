/** The Base64 codec: the two alphabets, one quad, and whole texts, against section 4 of RFC 4648. */
module Base64 {
  import opened Bytes

  datatype Alphabet = Standard | UrlSafe

  const PADDING := '='

  type digit = d: int | 0 <= d < 64

  function EncodeDigit(a: Alphabet, n: digit): char {
    if n < 26 then (n + 'A' as int) as char
    else if n < 52 then (n - 26 + 'a' as int) as char
    else if n < 62 then (n - 52 + '0' as int) as char
    else if n == 62 then (if a == Standard then '+' else '-')
    else (if a == Standard then '/' else '_')
  }

  /** None is the exception for a character outside the alphabet; the padding character is outside. */
  function DecodeDigit(a: Alphabet, c: char): Option<digit> {
    if 'A' <= c <= 'Z' then Some(c as int - 'A' as int)
    else if 'a' <= c <= 'z' then Some(c as int - 'a' as int + 26)
    else if '0' <= c <= '9' then Some(c as int - '0' as int + 52)
    else if c == (if a == Standard then '+' else '-') then Some(62)
    else if c == (if a == Standard then '/' else '_') then Some(63)
    else None
  }

  lemma DigitRoundTrip(a: Alphabet, n: digit)
    ensures DecodeDigit(a, EncodeDigit(a, n)) == Some(n) && EncodeDigit(a, n) != PADDING
  {
  }

  lemma CharRoundTrip(a: Alphabet, c: char)
    requires DecodeDigit(a, c).Some?
    ensures EncodeDigit(a, DecodeDigit(a, c).value) == c && c != PADDING
  {
  }

  /** The characters for the digits from n up to m. */
  function Characters(a: Alphabet, n: nat, m: nat): (r: string)
    requires n <= m <= 64
    ensures |r| == m - n && forall k :: 0 <= k < m - n ==> r[k] == EncodeDigit(a, n + k)
    decreases m - n
  {
    if n == m then "" else [EncodeDigit(a, n)] + Characters(a, n + 1, m)
  }

  lemma CharactersJoin(a: Alphabet, n: nat, m: nat, k: nat)
    requires n <= m <= k <= 64
    ensures Characters(a, n, k) == Characters(a, n, m) + Characters(a, m, k)
  {
  }

  lemma FirstCapitals(a: Alphabet)
    ensures Characters(a, 0, 13) == "ABCDEFGHIJKLM"
  {
  }

  lemma LastCapitals(a: Alphabet)
    ensures Characters(a, 13, 26) == "NOPQRSTUVWXYZ"
  {
  }

  lemma FirstLetters(a: Alphabet)
    ensures Characters(a, 26, 39) == "abcdefghijklm"
  {
  }

  lemma LastLetters(a: Alphabet)
    ensures Characters(a, 39, 52) == "nopqrstuvwxyz"
  {
  }

  lemma DigitsAndMarks()
    ensures Characters(Standard, 52, 64) == "0123456789+/" && Characters(UrlSafe, 52, 64) == "0123456789-_"
  {
  }

  lemma LettersFirst(a: Alphabet)
    ensures Characters(a, 0, 64) ==
            "ABCDEFGHIJKLM" + "NOPQRSTUVWXYZ" + "abcdefghijklm" + "nopqrstuvwxyz" + Characters(a, 52, 64)
  {
    FirstCapitals(a);
    LastCapitals(a);
    FirstLetters(a);
    LastLetters(a);
    CharactersJoin(a, 0, 13, 26);
    CharactersJoin(a, 0, 26, 39);
    CharactersJoin(a, 0, 39, 52);
    CharactersJoin(a, 0, 52, 64);
  }

  /** The alphabets of sections 4 and 5 of RFC 4648. */
  lemma Alphabets()
    ensures Characters(Standard, 0, 64) ==
            "ABCDEFGHIJKLM" + "NOPQRSTUVWXYZ" + "abcdefghijklm" + "nopqrstuvwxyz" + "0123456789+/"
    ensures Characters(UrlSafe, 0, 64) ==
            "ABCDEFGHIJKLM" + "NOPQRSTUVWXYZ" + "abcdefghijklm" + "nopqrstuvwxyz" + "0123456789-_"
  {
    LettersFirst(Standard);
    LettersFirst(UrlSafe);
    DigitsAndMarks();
  }

  /** A character is read as the place it has in the alphabet; one that has none, '=' among them, is not read. */
  lemma PlaceInAlphabet(a: Alphabet, c: char)
    ensures forall n :: DecodeDigit(a, c) == Some(n) <==> 0 <= n < 64 && Characters(a, 0, 64)[n] == c
    ensures DecodeDigit(a, c).Some? <==> c in Characters(a, 0, 64)
    ensures '=' !in Characters(a, 0, 64)
  {
    forall n | 0 <= n < 64 ensures DecodeDigit(a, EncodeDigit(a, n)) == Some(n) && EncodeDigit(a, n) != '=' {
      DigitRoundTrip(a, n);
    }
    if DecodeDigit(a, c).Some? {
      CharRoundTrip(a, c);
      assert Characters(a, 0, 64)[DecodeDigit(a, c).value] == c;
    }
  }

  // ----- One quad

  type group = t: int | 0 <= t < 0x1000000

  function Group(x: byte, y: byte, z: byte): group {
    x * 0x10000 + y * 0x100 + z
  }

  function GroupOfDigits(d0: digit, d1: digit, d2: digit, d3: digit): group {
    d0 * 0x40000 + d1 * 0x1000 + d2 * 0x40 + d3
  }

  function EncodeGroup(a: Alphabet, t: group): (q: string)
    ensures |q| == 4
  {
    [EncodeDigit(a, t / 0x40000 % 64), EncodeDigit(a, t / 0x1000 % 64), EncodeDigit(a, t / 0x40 % 64),
     EncodeDigit(a, t % 64)]
  }

  /** The last quad, for one or two octets. */
  function Flush(a: Alphabet, s: seq<byte>): string {
    if |s| == 1 then EncodeGroup(a, Group(s[0], 0, 0))[..2] + [PADDING, PADDING]
    else if |s| == 2 then EncodeGroup(a, Group(s[0], s[1], 0))[..3] + [PADDING]
    else []
  }

  function Octets(t: group): (o: seq<byte>)
    ensures |o| == 3
  {
    [t / 0x10000 % 256, t / 0x100 % 256, t % 256]
  }

  /** A padding character counts as the digit zero, but only where padding may stand. */
  function DigitAt(a: Alphabet, q: string, i: nat): Option<digit>
    requires i < |q| == 4
  {
    if q[3] == PADDING && (i == 3 || (i == 2 && q[2] == PADDING)) then
      DecodeDigit(a, EncodeDigit(a, 0))
    else
      DecodeDigit(a, q[i])
  }

  function Kept(o: seq<byte>, second: bool, third: bool): (r: seq<byte>)
    requires |o| == 3
    ensures 1 <= |r| <= 3
  {
    [o[0]] + (if second then [o[1]] else []) + (if third then [o[2]] else [])
  }

  lemma KeptIsPrefix(o: seq<byte>)
    requires |o| == 3
    ensures Kept(o, true, true) == o && Kept(o, true, false) == o[..2] && Kept(o, false, false) == o[..1]
  {
  }

  function DecodeQuad(a: Alphabet, q: string): (r: Option<seq<byte>>)
    requires |q| == 4
    ensures r.Some? ==> 1 <= |r.value| <= 3
  {
    var d0, d1, d2, d3 := DigitAt(a, q, 0), DigitAt(a, q, 1), DigitAt(a, q, 2), DigitAt(a, q, 3);
    if d0.None? || d1.None? || d2.None? || d3.None? then
      None
    else
      var o := Octets(GroupOfDigits(d0.value, d1.value, d2.value, d3.value));
      Some(Kept(o, q[2] != PADDING, q[3] != PADDING))
  }

  lemma TwoDigits(t: nat)
    ensures t == t / 0x1000 * 0x1000 + t / 0x40 % 64 * 0x40 + t % 64
  {
    var q := t / 0x40;
    assert t == q / 64 * 0x1000 + q % 64 * 0x40 + t % 64;
    assert t / 0x1000 == q / 64;
  }

  lemma ThreeDigits(t: nat)
    ensures t / 0x1000 == t / 0x40000 * 64 + t / 0x1000 % 64
  {
    var q := t / 0x1000;
    assert t / 0x40000 == q / 64;
  }

  lemma FirstDigit(t: group)
    ensures t / 0x40000 % 64 == t / 0x40000
  {
  }

  lemma Composed(t: nat, two: nat, three: nat, d1: digit, d2: digit, d3: digit)
    requires t == two * 0x1000 + d2 * 0x40 + d3 && two == three * 64 + d1
    ensures t == three * 0x40000 + d1 * 0x1000 + d2 * 0x40 + d3
  {
  }

  lemma GroupDigits(t: group)
    ensures GroupOfDigits(t / 0x40000 % 64, t / 0x1000 % 64, t / 0x40 % 64, t % 64) == t
  {
    TwoDigits(t);
    ThreeDigits(t);
    FirstDigit(t);
    Composed(t, t / 0x1000, t / 0x40000, t / 0x1000 % 64, t / 0x40 % 64, t % 64);
  }

  lemma DigitsOfGroup(d0: digit, d1: digit, d2: digit, d3: digit)
    ensures var t := GroupOfDigits(d0, d1, d2, d3);
      t / 0x40000 % 64 == d0 && t / 0x1000 % 64 == d1 && t / 0x40 % 64 == d2 && t % 64 == d3
  {
    var t := GroupOfDigits(d0, d1, d2, d3);
    assert t / 0x40 == d0 * 0x1000 + d1 * 0x40 + d2;
    assert t / 0x1000 == d0 * 0x40 + d1;
  }

  lemma OctetsOfGroup(x: byte, y: byte, z: byte)
    ensures var t := Group(x, y, z); t / 0x10000 % 256 == x && t / 0x100 % 256 == y && t % 256 == z
  {
    assert Group(x, y, z) / 0x100 == x * 0x100 + y;
    assert Group(x, y, z) / 0x10000 == x;
  }

  lemma GroupOctets(t: group)
    ensures Group(t / 0x10000 % 256, t / 0x100 % 256, t % 256) == t
  {
    assert t == t / 0x100 * 0x100 + t % 256;
    assert t / 0x100 == t / 0x10000 * 256 + t / 0x100 % 256;
  }

  lemma DecodeFour(a: Alphabet, q: string, d0: digit, d1: digit, d2: digit, d3: digit)
    requires |q| == 4 && DecodeDigit(a, q[0]) == Some(d0) && DecodeDigit(a, q[1]) == Some(d1)
    requires DecodeDigit(a, q[2]) == Some(d2) && DecodeDigit(a, q[3]) == Some(d3)
    ensures DecodeQuad(a, q) == Some(Octets(GroupOfDigits(d0, d1, d2, d3)))
  {
    CharRoundTrip(a, q[2]);
    CharRoundTrip(a, q[3]);
    KeptIsPrefix(Octets(GroupOfDigits(d0, d1, d2, d3)));
  }

  lemma DecodeThree(a: Alphabet, q: string, d0: digit, d1: digit, d2: digit)
    requires |q| == 4 && DecodeDigit(a, q[0]) == Some(d0) && DecodeDigit(a, q[1]) == Some(d1)
    requires DecodeDigit(a, q[2]) == Some(d2) && q[3] == PADDING
    ensures DecodeQuad(a, q) == Some(Octets(GroupOfDigits(d0, d1, d2, 0))[..2])
  {
    CharRoundTrip(a, q[2]);
    DigitRoundTrip(a, 0);
    KeptIsPrefix(Octets(GroupOfDigits(d0, d1, d2, 0)));
  }

  lemma DecodeTwo(a: Alphabet, q: string, d0: digit, d1: digit)
    requires |q| == 4 && DecodeDigit(a, q[0]) == Some(d0) && DecodeDigit(a, q[1]) == Some(d1)
    requires q[2] == PADDING && q[3] == PADDING
    ensures DecodeQuad(a, q) == Some(Octets(GroupOfDigits(d0, d1, 0, 0))[..1])
  {
    DigitRoundTrip(a, 0);
    KeptIsPrefix(Octets(GroupOfDigits(d0, d1, 0, 0)));
  }

  /** Which quads are accepted: four characters of the alphabet, or three or two of them before padding. */
  lemma QuadAccepted(a: Alphabet, q: string)
    requires |q| == 4
    ensures DecodeQuad(a, q).Some? <==>
      var known := Characters(a, 0, 64);
      && q[0] in known && q[1] in known
      && ((q[2] in known && (q[3] in known || q[3] == '=')) || (q[2] == '=' && q[3] == '='))
  {
    PlaceInAlphabet(a, q[0]);
    PlaceInAlphabet(a, q[1]);
    PlaceInAlphabet(a, q[2]);
    PlaceInAlphabet(a, q[3]);
    DigitRoundTrip(a, 0);
  }

  lemma OctetsOfDigits(d0: digit, d1: digit, d2: digit, d3: digit)
    ensures Octets(GroupOfDigits(d0, d1, d2, d3)) == [d0 * 4 + d1 / 16, d1 % 16 * 16 + d2 / 4, d2 % 4 * 64 + d3]
  {
    var x, y, z := d0 * 4 + d1 / 16, d1 % 16 * 16 + d2 / 4, d2 % 4 * 64 + d3;
    OctetsOfGroup(x, y, z);
    assert Group(x, y, z) == GroupOfDigits(d0, d1, d2, d3);
  }

  /** What an accepted quad decodes to: the bits of its digits in a row, in octets, one less for each padding
      character; bits that are left over are ignored. */
  lemma QuadDecoded(a: Alphabet, q: string, d0: digit, d1: digit, d2: digit, d3: digit)
    requires |q| == 4
    requires q[0] == Characters(a, 0, 64)[d0] && q[1] == Characters(a, 0, 64)[d1]
    requires (q[2] == '=' && q[3] == '=' && d2 == 0) || q[2] == Characters(a, 0, 64)[d2]
    requires (q[3] == '=' && d3 == 0) || q[3] == Characters(a, 0, 64)[d3]
    ensures var octets: seq<byte> := [d0 * 4 + d1 / 16, d1 % 16 * 16 + d2 / 4, d2 % 4 * 64 + d3];
      DecodeQuad(a, q) == Some(octets[..if q[2] == '=' then 1 else if q[3] == '=' then 2 else 3])
  {
    DigitRoundTrip(a, d0);
    DigitRoundTrip(a, d1);
    DigitRoundTrip(a, d2);
    DigitRoundTrip(a, d3);
    OctetsOfDigits(d0, d1, d2, d3);
    KeptIsPrefix(Octets(GroupOfDigits(d0, d1, d2, d3)));
    if q[2] == '=' {
      DecodeTwo(a, q, d0, d1);
    } else if q[3] == '=' {
      DecodeThree(a, q, d0, d1, d2);
    } else {
      DecodeFour(a, q, d0, d1, d2, d3);
      var o := Octets(GroupOfDigits(d0, d1, d2, d3));
      assert o[..3] == o;
    }
  }

  /** The digits of an encoded group, read back. */
  lemma GroupChars(a: Alphabet, t: group)
    ensures var q := EncodeGroup(a, t);
      && DecodeDigit(a, q[0]) == Some(t / 0x40000 % 64) && DecodeDigit(a, q[1]) == Some(t / 0x1000 % 64)
      && DecodeDigit(a, q[2]) == Some(t / 0x40 % 64) && DecodeDigit(a, q[3]) == Some(t % 64)
      && PADDING !in q
  {
    DigitRoundTrip(a, t / 0x40000 % 64);
    DigitRoundTrip(a, t / 0x1000 % 64);
    DigitRoundTrip(a, t / 0x40 % 64);
    DigitRoundTrip(a, t % 64);
  }

  lemma DecodeFullQuad(a: Alphabet, x: byte, y: byte, z: byte)
    ensures DecodeQuad(a, EncodeGroup(a, Group(x, y, z))) == Some([x, y, z])
  {
    var t := Group(x, y, z);
    GroupChars(a, t);
    DecodeFour(a, EncodeGroup(a, t), t / 0x40000 % 64, t / 0x1000 % 64, t / 0x40 % 64, t % 64);
    GroupDigits(t);
    OctetsOfGroup(x, y, z);
  }

  lemma GroupSextets(x: byte, y: byte, z: byte)
    ensures var t := Group(x, y, z);
      && t / 0x40000 % 64 == x / 4
      && t / 0x1000 % 64 == x % 4 * 16 + y / 16
      && t / 0x40 % 64 == y % 16 * 4 + z / 64
      && t % 64 == z % 64
  {
    DigitsOfGroup(x / 4, x % 4 * 16 + y / 16, y % 16 * 4 + z / 64, z % 64);
    assert Group(x, y, z) == GroupOfDigits(x / 4, x % 4 * 16 + y / 16, y % 16 * 4 + z / 64, z % 64);
  }

  /** Two octets fill the first three digits up to their last two bits, one octet two up to four. */
  lemma FlushDigits(x: byte, y: byte)
    ensures Group(x, y, 0) % 64 == 0 && Group(x, y, 0) / 0x40 % 64 % 4 == 0
    ensures y == 0 ==> Group(x, y, 0) / 0x40 % 64 == 0 && Group(x, y, 0) / 0x1000 % 64 % 16 == 0
  {
    GroupSextets(x, y, 0);
  }

  lemma FlushChars(a: Alphabet, s: seq<byte>)
    requires |s| == 1 || |s| == 2
    ensures var q := Flush(a, s); var t := Group(s[0], if |s| == 2 then s[1] else 0, 0);
      && |q| == 4 && q[3] == PADDING && (q[2] == PADDING <==> |s| == 1)
      && DecodeDigit(a, q[0]) == Some(t / 0x40000 % 64) && DecodeDigit(a, q[1]) == Some(t / 0x1000 % 64)
      && (|s| == 2 ==> DecodeDigit(a, q[2]) == Some(t / 0x40 % 64))
  {
    GroupChars(a, Group(s[0], if |s| == 2 then s[1] else 0, 0));
  }

  lemma FlushGroup(x: byte, y: byte)
    ensures var t := Group(x, y, 0);
      && GroupOfDigits(t / 0x40000 % 64, t / 0x1000 % 64, t / 0x40 % 64, 0) == t
      && (y == 0 ==> GroupOfDigits(t / 0x40000 % 64, t / 0x1000 % 64, 0, 0) == t)
      && Octets(t) == [x, y, 0]
  {
    GroupDigits(Group(x, y, 0));
    FlushDigits(x, y);
    OctetsOfGroup(x, y, 0);
  }

  lemma DecodeFlush(a: Alphabet, s: seq<byte>)
    requires |s| == 1 || |s| == 2
    ensures DecodeQuad(a, Flush(a, s)) == Some(s)
  {
    var y := if |s| == 2 then s[1] else 0;
    var t := Group(s[0], y, 0);
    var d0, d1, d2 := t / 0x40000 % 64, t / 0x1000 % 64, t / 0x40 % 64;
    FlushChars(a, s);
    FlushGroup(s[0], y);
    if |s| == 2 {
      DecodeThree(a, Flush(a, s), d0, d1, d2);
      assert s == [s[0], y, 0][..2];
    } else {
      DecodeTwo(a, Flush(a, s), d0, d1);
      assert s == [s[0], y, 0][..1];
    }
  }

  // ----- Whole texts

  /** The quads of whole groups of three octets; what write_blocks emits. */
  function EncodeBlocks(a: Alphabet, s: seq<byte>): string {
    if |s| < 3 then [] else EncodeGroup(a, Group(s[0], s[1], s[2])) + EncodeBlocks(a, s[3..])
  }

  function Encode(a: Alphabet, s: seq<byte>): string {
    if |s| < 3 then Flush(a, s) else EncodeGroup(a, Group(s[0], s[1], s[2])) + Encode(a, s[3..])
  }

  /** Every quad decoded in turn; None as soon as one is bad. */
  function Decode(a: Alphabet, t: string): Option<seq<byte>> {
    if |t| < 4 then
      Some([])
    else
      var first, rest := DecodeQuad(a, t[..4]), Decode(a, t[4..]);
      if first.None? || rest.None? then None else Some(first.value + rest.value)
  }

  lemma QuadCount(n: nat)
    requires n >= 3
    ensures 4 * ((n + 2) / 3) == 4 + 4 * ((n - 3 + 2) / 3)
  {
  }

  lemma FlushLength(a: Alphabet, s: seq<byte>)
    requires |s| < 3
    ensures |Flush(a, s)| == 4 * ((|s| + 2) / 3)
  {
  }

  lemma {:induction false} EncodeLength(a: Alphabet, s: seq<byte>)
    ensures |Encode(a, s)| == 4 * ((|s| + 2) / 3)
  {
    if |s| >= 3 {
      EncodeLength(a, s[3..]);
      QuadCount(|s|);
    } else {
      FlushLength(a, s);
    }
  }

  lemma {:induction false} DecodeEncode(a: Alphabet, s: seq<byte>)
    ensures Decode(a, Encode(a, s)) == Some(s)
  {
    if |s| >= 3 {
      var first, rest := EncodeGroup(a, Group(s[0], s[1], s[2])), Encode(a, s[3..]);
      DecodeFullQuad(a, s[0], s[1], s[2]);
      DecodeEncode(a, s[3..]);
      assert (first + rest)[..4] == first && (first + rest)[4..] == rest;
      assert s == [s[0], s[1], s[2]] + s[3..];
    } else if |s| > 0 {
      DecodeFlush(a, s);
      var q := Flush(a, s);
      assert q[..4] == q && q[4..] == [];
      assert s + [] == s;
    }
  }

  // ----- Which texts re-encode to themselves

  /** The last quad of section 3.5: the bits its padding leaves unused are zero. */
  ghost predicate UnusedBitsZero(a: Alphabet, q: string)
    requires |q| == 4
  {
    if q[3] != PADDING then true
    else if q[2] != PADDING then DecodeDigit(a, q[2]).Some? && DecodeDigit(a, q[2]).value % 4 == 0
    else DecodeDigit(a, q[1]).Some? && DecodeDigit(a, q[1]).value % 16 == 0
  }

  /** Padding only in the last quad, and zero in the unused bits there. */
  ghost predicate Canonical(a: Alphabet, t: string)
    requires |t| % 4 == 0
  {
    && (forall i :: 0 <= i < |t| - 4 ==> t[i] != PADDING)
    && (t != [] ==> UnusedBitsZero(a, t[|t| - 4..]))
  }

  lemma FlushIsCanonical(a: Alphabet, s: seq<byte>)
    requires |s| == 1 || |s| == 2
    ensures |Flush(a, s)| == 4 && UnusedBitsZero(a, Flush(a, s))
  {
    FlushChars(a, s);
    FlushDigits(s[0], if |s| == 2 then s[1] else 0);
  }

  lemma CanonicalCons(a: Alphabet, first: string, rest: string)
    requires |first| == 4 && PADDING !in first && |rest| % 4 == 0 && Canonical(a, rest)
    ensures |first + rest| % 4 == 0 && Canonical(a, first + rest)
  {
    var t := first + rest;
    if rest == [] {
      assert t[|t| - 4..] == first;
    } else {
      assert t[|t| - 4..] == rest[|rest| - 4..];
    }
  }

  lemma OneQuadCanonical(a: Alphabet, q: string)
    requires |q| == 4
    ensures Canonical(a, q) <==> UnusedBitsZero(a, q)
  {
    assert q[|q| - 4..] == q;
  }

  lemma {:induction false} EncodeIsCanonical(a: Alphabet, s: seq<byte>)
    ensures |Encode(a, s)| % 4 == 0 && Canonical(a, Encode(a, s))
  {
    if |s| >= 3 {
      EncodeIsCanonical(a, s[3..]);
      var t := Group(s[0], s[1], s[2]);
      GroupChars(a, t);
      CanonicalCons(a, EncodeGroup(a, t), Encode(a, s[3..]));
    } else if |s| > 0 {
      FlushIsCanonical(a, s);
      OneQuadCanonical(a, Flush(a, s));
    }
  }

  /** A quad without padding is re-encoded from the three octets it decodes to. */
  lemma FullQuadReencodes(a: Alphabet, q: string)
    requires |q| == 4 && DecodeQuad(a, q).Some? && q[3] != PADDING
    ensures var s := DecodeQuad(a, q).value; |s| == 3 && EncodeGroup(a, Group(s[0], s[1], s[2])) == q
  {
    var d0, d1, d2, d3 := DecodeDigit(a, q[0]).value, DecodeDigit(a, q[1]).value, DecodeDigit(a, q[2]).value,
      DecodeDigit(a, q[3]).value;
    CharRoundTrip(a, q[0]);
    CharRoundTrip(a, q[1]);
    CharRoundTrip(a, q[2]);
    CharRoundTrip(a, q[3]);
    GroupOctets(GroupOfDigits(d0, d1, d2, d3));
    DigitsOfGroup(d0, d1, d2, d3);
  }

  lemma PaddedGroup(d0: digit, d1: digit, d2: digit)
    requires d2 % 4 == 0
    ensures GroupOfDigits(d0, d1, d2, 0) % 256 == 0
    ensures d2 == 0 && d1 % 16 == 0 ==> GroupOfDigits(d0, d1, d2, 0) / 0x100 % 256 == 0
  {
    var m := d0 * 0x400 + d1 * 0x10 + d2 / 4;
    assert GroupOfDigits(d0, d1, d2, 0) == 256 * m;
    if d2 == 0 && d1 % 16 == 0 {
      var n := d0 * 4 + d1 / 16;
      assert m == 256 * n;
      assert GroupOfDigits(d0, d1, d2, 0) / 0x100 == m;
    }
  }

  lemma PaddedQuadReencodes(a: Alphabet, q: string)
    requires |q| == 4 && DecodeQuad(a, q).Some? && q[3] == PADDING && UnusedBitsZero(a, q)
    ensures var s := DecodeQuad(a, q).value; |s| < 3 && Flush(a, s) == q
  {
    var d0, d1 := DecodeDigit(a, q[0]).value, DecodeDigit(a, q[1]).value;
    var d2 := if q[2] == PADDING then 0 else DecodeDigit(a, q[2]).value;
    CharRoundTrip(a, q[0]);
    CharRoundTrip(a, q[1]);
    DigitRoundTrip(a, 0);
    if q[2] != PADDING {
      CharRoundTrip(a, q[2]);
    }
    var t := GroupOfDigits(d0, d1, d2, 0);
    GroupOctets(t);
    DigitsOfGroup(d0, d1, d2, 0);
    PaddedGroup(d0, d1, d2);
  }

  lemma EncodeCons(a: Alphabet, s: seq<byte>, more: seq<byte>)
    requires |s| == 3
    ensures Encode(a, s + more) == EncodeGroup(a, Group(s[0], s[1], s[2])) + Encode(a, more)
  {
    assert (s + more)[3..] == more;
  }

  lemma LastQuadReencodes(a: Alphabet, q: string)
    requires |q| == 4 && DecodeQuad(a, q).Some? && UnusedBitsZero(a, q)
    ensures Encode(a, DecodeQuad(a, q).value) == q
  {
    var s := DecodeQuad(a, q).value;
    if q[3] != PADDING {
      FullQuadReencodes(a, q);
      EncodeCons(a, s, []);
      assert s + [] == s && q + [] == q && Encode(a, []) == [];
    } else {
      PaddedQuadReencodes(a, q);
    }
  }

  lemma ReencodesCons(a: Alphabet, t: string)
    requires |t| >= 4 && Decode(a, t).Some?
    requires var s := DecodeQuad(a, t[..4]).value; |s| == 3 && EncodeGroup(a, Group(s[0], s[1], s[2])) == t[..4]
    requires Encode(a, Decode(a, t[4..]).value) == t[4..]
    ensures Encode(a, Decode(a, t).value) == t
  {
    EncodeCons(a, DecodeQuad(a, t[..4]).value, Decode(a, t[4..]).value);
    assert t == t[..4] + t[4..];
  }

  lemma DecodeOneQuad(a: Alphabet, q: string)
    requires |q| == 4 && Decode(a, q).Some?
    ensures DecodeQuad(a, q) == Decode(a, q)
  {
    assert q[..4] == q && Decode(a, q[4..]) == Some([]);
    assert DecodeQuad(a, q).value + [] == DecodeQuad(a, q).value;
  }

  lemma DropFour(n: nat)
    requires n % 4 == 0 && n > 4
    ensures n >= 8 && (n - 4) % 4 == 0
  {
  }

  lemma CanonicalTail(a: Alphabet, t: string)
    requires |t| % 4 == 0 && |t| > 4 && Canonical(a, t)
    ensures t[..4][3] != PADDING && |t[4..]| % 4 == 0 && Canonical(a, t[4..])
  {
    var rest := t[4..];
    DropFour(|t|);
    assert forall i :: 0 <= i < |rest| ==> rest[i] == t[i + 4];
    assert rest[|rest| - 4..] == t[|t| - 4..];
  }

  lemma DecodeTail(a: Alphabet, t: string)
    requires |t| >= 4 && Decode(a, t).Some?
    ensures DecodeQuad(a, t[..4]).Some? && Decode(a, t[4..]).Some?
    ensures Decode(a, t).value == DecodeQuad(a, t[..4]).value + Decode(a, t[4..]).value
  {
  }

  lemma {:induction false} CanonicalReencodes(a: Alphabet, t: string)
    requires |t| % 4 == 0 && Decode(a, t).Some? && Canonical(a, t)
    ensures Encode(a, Decode(a, t).value) == t
  {
    if |t| == 4 {
      OneQuadCanonical(a, t);
      LastQuadReencodes(a, t);
      DecodeOneQuad(a, t);
    } else if t != [] {
      CanonicalTail(a, t);
      DecodeTail(a, t);
      FullQuadReencodes(a, t[..4]);
      CanonicalReencodes(a, t[4..]);
      ReencodesCons(a, t);
    }
  }

  /** A text the decoder accepts re-encodes to itself exactly when it is canonical. */
  lemma ReencodesIffCanonical(a: Alphabet, t: string)
    requires |t| % 4 == 0 && Decode(a, t).Some?
    ensures Encode(a, Decode(a, t).value) == t <==> Canonical(a, t)
  {
    EncodeIsCanonical(a, Decode(a, t).value);
    if Canonical(a, t) {
      CanonicalReencodes(a, t);
    }
  }
}
