/** The ICMP header and its Internet checksum: a 32-bit accumulator folded twice. */
module IcmpChecksum {
  import opened Bytes

  const WORD: nat := 0x1_0000
  const UINT: nat := 0x1_0000_0000

  // ----- RFC 1071, section 1

  type word = w: int | 0 <= w < 0x1_0000

  function Word(high: byte, low: byte): word {
    high * 256 + low
  }

  /** The 16-bit words of an octet string, the last one zero-padded when its length is odd. */
  function WordsOf(s: seq<byte>): seq<word> {
    if s == [] then []
    else if |s| == 1 then [Word(s[0], 0)]
    else [Word(s[0], s[1])] + WordsOf(s[2..])
  }

  /** One's-complement addition: the carry comes back in at the low end. */
  function OnesAdd(a: word, b: word): word {
    if a + b < WORD then a + b else a + b - WORD + 1
  }

  function OnesSum(words: seq<word>): word {
    if words == [] then 0 else OnesAdd(words[0], OnesSum(words[1..]))
  }

  /** A receiver accepts a message whose one's-complement sum, checksum included, is all ones. */
  predicate Accepts(message: seq<byte>) {
    OnesSum(WordsOf(message)) == 0xFFFF
  }

  function Sum(words: seq<word>): nat {
    if words == [] then 0 else words[0] + Sum(words[1..])
  }

  /** The one's-complement value of a plain sum. */
  function Folded(sum: nat): word {
    if sum == 0 then 0 else (sum - 1) % 0xFFFF + 1
  }

  lemma FoldedAdd(a: word, sum: nat)
    ensures OnesAdd(a, Folded(sum)) == Folded(a + sum)
  {
    if sum != 0 {
      var k, r := (sum - 1) / 0xFFFF, (sum - 1) % 0xFFFF;
      assert sum - 1 == 0xFFFF * k + r;
      var low := if r + a < 0xFFFF then r + a else r + a - 0xFFFF;
      if r + a < 0xFFFF {
        assert (a + sum - 1) % 0xFFFF == low;
      } else if r + a < 2 * 0xFFFF {
        assert a + sum - 1 == 0xFFFF * (k + 1) + low;
        assert (a + sum - 1) % 0xFFFF == low;
      }
    }
  }

  lemma {:induction false} OnesSumIsFolded(words: seq<word>)
    ensures OnesSum(words) == Folded(Sum(words))
  {
    if words != [] {
      OnesSumIsFolded(words[1..]);
      FoldedAdd(words[0], Sum(words[1..]));
    }
  }

  // ----- The header

  class IcmpHeader {
    const rep: array<byte>

    ghost predicate Valid() {
      rep.Length == 8
    }

    constructor ()
      ensures Valid() && fresh(rep) && rep[..] == [0, 0, 0, 0, 0, 0, 0, 0]
    {
      rep := new byte[8](_ => 0);
    }

    function Decode(a: nat, b: nat): word
      requires Valid() && a < 8 && b < 8
      reads rep
    {
      Word(rep[a], rep[b])
    }

    method Encode(a: nat, b: nat, n: word)
      requires Valid() && a < 8 && b < 8 && a != b
      modifies rep
      ensures Decode(a, b) == n && rep[a] == n / 0x100 && rep[b] == n % 0x100
      ensures forall i :: 0 <= i < 8 && i != a && i != b ==> rep[i] == old(rep[i])
    {
      rep[a] := n / 256;
      rep[b] := n % 256;
    }
  }

  /** The fields summed before the body: type and code, identifier, sequence number. */
  function HeaderSum(rep: seq<byte>): nat
    requires |rep| == 8
  {
    Word(rep[0], rep[1]) + Word(rep[4], rep[5]) + Word(rep[6], rep[7])
  }

  /** The accumulator after both folds, inverted, as an unsigned short. */
  function Inverted(accumulator: nat): word {
    var once := accumulator / WORD + accumulator % WORD;
    var twice := once + once / WORD;
    0xFFFF - twice % WORD
  }

  lemma FoldedAt(sum: nat, k: nat, r: nat)
    requires sum == 0xFFFF * k + r && 1 <= r <= 0xFFFF
    ensures Folded(sum) == r
  {
    assert (0xFFFF * k + (r - 1)) % 0xFFFF == r - 1;
  }

  lemma SecondFold(once: nat)
    requires once <= 2 * 0xFFFF
    ensures (once + once / WORD) % WORD == if once < WORD then once else once - 0xFFFF
  {
    assert once / WORD == if once < WORD then 0 else 1;
  }

  lemma TwoFoldsSuffice(accumulator: nat)
    requires accumulator < UINT
    ensures Inverted(accumulator) == 0xFFFF - Folded(accumulator)
  {
    var high, low := accumulator / WORD, accumulator % WORD;
    var once := high + low;
    assert accumulator == 0xFFFF * high + once;
    SecondFold(once);
    if once >= WORD {
      FoldedAt(accumulator, high + 1, once - 0xFFFF);
    } else if once > 0 {
      FoldedAt(accumulator, high, once);
    }
  }

  lemma FoldedDecomposes(sum: nat) returns (k: nat)
    ensures sum == 0xFFFF * k + Folded(sum)
  {
    k := if sum == 0 then 0 else (sum - 1) / 0xFFFF;
  }

  lemma FoldedAllOnes(total: nat, q: nat, r: nat)
    requires total == 0xFFFF * q + r && q > 0
    ensures Folded(total) == 0xFFFF <==> r % 0xFFFF == 0
  {
    assert total % 0xFFFF == r % 0xFFFF;
    var k := FoldedDecomposes(total);
  }

  /** What a sum carried past 32 bits does to the stored checksum: it is right exactly when the number of
      lost carries is a multiple of 65535. */
  lemma ChecksumRightIff(sum: nat)
    ensures Folded(sum + Inverted(sum % UINT)) == 0xFFFF <==> sum / UINT % 0xFFFF == 0
  {
    var lost, kept := sum / UINT, sum % UINT;
    TwoFoldsSuffice(kept);
    var k := FoldedDecomposes(kept);
    var total := sum + Inverted(kept);
    assert UINT == 0xFFFF * 0x10001 + 1;
    assert total == 0xFFFF * (lost * 0x10001 + k + 1) + lost;
    FoldedAllOnes(total, lost * 0x10001 + k + 1, lost);
  }

  /** The sum the accumulator should hold: header fields and zero-padded body words. */
  function FullSum(rep: seq<byte>, body: seq<byte>): nat
    requires |rep| == 8
  {
    HeaderSum(rep) + Sum(WordsOf(body))
  }

  lemma PacketSum(rep: seq<byte>, body: seq<byte>)
    requires |rep| == 8
    ensures Sum(WordsOf(rep + body)) == FullSum(rep, body) + Word(rep[2], rep[3])
  {
    var m := rep + body;
    assert m[2..][2..][2..][2..] == body;
    assert Sum(WordsOf(m)) == Word(rep[0], rep[1]) + Sum(WordsOf(m[2..]));
    assert Sum(WordsOf(m[2..])) == Word(rep[2], rep[3]) + Sum(WordsOf(m[2..][2..]));
    assert Sum(WordsOf(m[2..][2..])) == Word(rep[4], rep[5]) + Sum(WordsOf(m[2..][2..][2..]));
    assert Sum(WordsOf(m[2..][2..][2..])) == Word(rep[6], rep[7]) + Sum(WordsOf(m[2..][2..][2..][2..]));
  }

  lemma {:induction false} SumBound(s: seq<byte>)
    ensures Sum(WordsOf(s)) <= 0xFFFF * ((|s| + 1) / 2)
  {
    if |s| >= 2 {
      SumBound(s[2..]);
    }
  }

  /** A body of at most 131068 octets cannot overflow the accumulator. */
  lemma ShortBodiesFit(rep: seq<byte>, body: seq<byte>)
    requires |rep| == 8 && |body| <= 131068
    ensures FullSum(rep, body) < UINT
  {
    SumBound(body);
  }

  lemma NothingLost(sum: nat)
    requires sum < UINT
    ensures sum / UINT % 0xFFFF == 0
  {
    assert sum / UINT == 0;
  }

  lemma AcceptedSum(message: seq<byte>, sum: nat)
    requires Sum(WordsOf(message)) == sum + Inverted(sum % UINT)
    ensures Accepts(message) <==> sum / UINT % 0xFFFF == 0
  {
    OnesSumIsFolded(WordsOf(message));
    ChecksumRightIff(sum);
  }

  /** Any header whose checksum field is the inverted accumulator is accepted by a receiver exactly when
      no carry, or a multiple of 65535 of them, was lost from the 32-bit accumulator. */
  lemma AcceptedIff(rep: seq<byte>, body: seq<byte>)
    requires |rep| == 8 && Word(rep[2], rep[3]) == Inverted(FullSum(rep, body) % UINT)
    ensures Accepts(rep + body) <==> FullSum(rep, body) / UINT % 0xFFFF == 0
    ensures |body| <= 131068 ==> Accepts(rep + body)
  {
    PacketSum(rep, body);
    AcceptedSum(rep + body, FullSum(rep, body));
    if |body| <= 131068 {
      ShortBodiesFit(rep, body);
      NothingLost(FullSum(rep, body));
    }
  }

  method FoldAndInvert(accumulator: nat) returns (checksum: word)
    requires accumulator < UINT
    ensures checksum == Inverted(accumulator)
  {
    var sum := accumulator / WORD + accumulator % WORD;
    sum := (sum + sum / WORD) % UINT;
    checksum := 0xFFFF - sum % WORD;
  }

  /** The accumulator, reduced after every octet. */
  ghost function Accumulated(sum: nat, s: seq<byte>): nat
    decreases |s|
  {
    if s == [] then sum
    else
      var half := (sum + Word(s[0], 0)) % UINT;
      if |s| == 1 then half else Accumulated((half + s[1]) % UINT, s[2..])
  }

  lemma FirstWord(s: seq<byte>)
    requires s != []
    ensures |s| == 1 ==> Sum(WordsOf(s)) == Word(s[0], 0)
    ensures |s| > 1 ==> Sum(WordsOf(s)) == Word(s[0], 0) + s[1] + Sum(WordsOf(s[2..]))
  {
    if |s| == 1 {
      assert WordsOf(s)[1..] == [];
    }
  }

  lemma ModAbsorb(a: nat, b: nat)
    ensures (a % UINT + b) % UINT == (a + b) % UINT
  {
    assert a == UINT * (a / UINT) + a % UINT;
  }

  lemma TwoAbsorbed(a: nat, b: nat, c: nat, total: nat)
    requires total == a + b + c
    ensures ((a % UINT + b) % UINT + c) % UINT == total % UINT
  {
    ModAbsorb(a % UINT + b, c);
    ModAbsorb(a, b + c);
  }

  /** Reducing after every octet or once at the end is the same. */
  lemma {:induction false} AccumulatedIsSum(sum: nat, s: seq<byte>)
    requires sum < UINT
    ensures Accumulated(sum, s) == (sum + Sum(WordsOf(s))) % UINT
    decreases |s|
  {
    if s != [] {
      FirstWord(s);
      if |s| > 1 {
        AccumulatedIsSum(((sum + Word(s[0], 0)) % UINT + s[1]) % UINT, s[2..]);
        TwoAbsorbed(sum + Word(s[0], 0), s[1], Sum(WordsOf(s[2..])), sum + Sum(WordsOf(s)));
      }
    }
  }

  /** The body loop: two octets at a time, the last one alone when their number is odd. */
  method Accumulate(start: nat, body: seq<byte>) returns (sum: nat)
    requires start < UINT
    ensures sum == (start + Sum(WordsOf(body))) % UINT
  {
    sum := start;
    var bodyIter := 0;
    assert body[0..] == body;
    while bodyIter != |body|
      invariant bodyIter <= |body| && sum < UINT
      invariant Accumulated(sum, body[bodyIter..]) == Accumulated(start, body)
    {
      ghost var rest := body[bodyIter..];
      sum := (sum + Word(body[bodyIter], 0)) % UINT;
      bodyIter := bodyIter + 1;
      if bodyIter != |body| {
        sum := (sum + body[bodyIter]) % UINT;
        bodyIter := bodyIter + 1;
        assert rest[2..] == body[bodyIter..];
      } else {
        assert body[bodyIter..] == [];
      }
    }
    AccumulatedIsSum(start, body);
  }

  method ComputeChecksum(header: IcmpHeader, body: seq<byte>)
    requires header.Valid()
    modifies header.rep
    ensures forall i :: 0 <= i < 8 && i != 2 && i != 3 ==> header.rep[i] == old(header.rep[i])
    ensures header.Decode(2, 3) == Inverted(FullSum(header.rep[..], body) % UINT)
    ensures Accepts(header.rep[..] + body) <==> FullSum(header.rep[..], body) / UINT % 0xFFFF == 0
    ensures |body| <= 131068 ==> Accepts(header.rep[..] + body)
  {
    ghost var before := header.rep[..];
    var sum := Word(header.rep[0], header.rep[1]) + header.Decode(4, 5) + header.Decode(6, 7);
    assert sum == HeaderSum(before);
    sum := Accumulate(sum, body);
    var checksum := FoldAndInvert(sum);
    header.Encode(2, 3, checksum);
    assert HeaderSum(header.rep[..]) == HeaderSum(before);
    AcceptedIff(header.rep[..], body);
  }

  lemma {:induction false} SumOfAllOnes(n: nat)
    ensures Sum(WordsOf(seq(n, _ => 255))) == 0xFFFF * (n / 2) + if n % 2 == 1 then 0xFF00 else 0
  {
    var s: seq<byte> := seq(n, _ => 255);
    if n >= 2 {
      SumOfAllOnes(n - 2);
      assert s[2..] == seq(n - 2, _ => 255);
    }
  }

  /** One octet more can overflow it, and then the receiver rejects the packet. */
  lemma LongerBodyRejected(rep: seq<byte>)
    requires |rep| == 8 && HeaderSum(rep) == 3 * 0xFFFF
    requires Word(rep[2], rep[3]) == Inverted(FullSum(rep, seq(131069, _ => 255)) % UINT)
    ensures !Accepts(rep + seq(131069, _ => 255))
  {
    SumOfAllOnes(131069);
    AcceptedIff(rep, seq(131069, _ => 255));
  }
}
