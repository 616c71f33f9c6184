/** The base framing protocol of section 5.2 of RFC 6455: an abstract frame, its octets, and a
    one-shot parser. It knows nothing of the incremental machine in TcpConnection, and is the
    reference for both directions of the connection. */
module WebSocketWire {
  import opened Bytes

  datatype LengthForm = Bits7 | Bits16 | Bits64

  /** payload is the application data, before masking. */
  datatype Frame = Frame(fin: bool, rsv: nat, opcode: nat, maskingKey: Option<seq<byte>>, form: LengthForm,
                         payload: seq<byte>)

  datatype ParseResult = Parsed(frame: Frame, rest: seq<byte>) | Incomplete

  ghost predicate Valid(f: Frame) {
    && f.rsv < 8
    && f.opcode < 16
    && (f.maskingKey.Some? ==> |f.maskingKey.value| == 4)
    && match f.form {
         case Bits7 => |f.payload| < 126
         case Bits16 => |f.payload| < Pow256(2)
         case Bits64 => |f.payload| < Pow256(8)
       }
  }

  /** Section 5.3: octet i is combined with octet i modulo 4 of the masking key. */
  function Masked(data: seq<byte>, key: seq<byte>): (r: seq<byte>)
    requires |key| == 4
    ensures |r| == |data|
  {
    seq(|data|, i requires 0 <= i < |data| => Xor(data[i], key[i % 4]))
  }

  /** Every bit of octet i is flipped where octet i modulo 4 of the key has a one, and only there. */
  lemma MaskedBits(data: seq<byte>, key: seq<byte>, i: nat, k: nat)
    requires |key| == 4 && i < |data| && k < 8
    ensures BitAt(Masked(data, key)[i], k) == 1 <==> BitAt(data[i], k) != BitAt(key[i % 4], k)
  {
    BitOfXor(data[i], key[i % 4], k);
  }

  lemma MaskedTwice(data: seq<byte>, key: seq<byte>)
    requires |key| == 4
    ensures Masked(Masked(data, key), key) == data
  {
    forall i | 0 <= i < |data| ensures Masked(Masked(data, key), key)[i] == data[i] {
      XorInvolution(data[i], key[i % 4]);
    }
  }

  function FirstOctet(f: Frame): byte
    requires f.rsv < 8 && f.opcode < 16
  {
    (if f.fin then 128 else 0) + 16 * f.rsv + f.opcode
  }

  function ExtendedSize(form: LengthForm): nat {
    match form
    case Bits7 => 0
    case Bits16 => 2
    case Bits64 => 8
  }

  function LengthCode(f: Frame): (r: nat)
    requires f.form == Bits7 ==> |f.payload| < 126
    ensures r < 128
  {
    match f.form
    case Bits7 => |f.payload|
    case Bits16 => 126
    case Bits64 => 127
  }

  function SecondOctet(f: Frame): byte
    requires f.form == Bits7 ==> |f.payload| < 126
  {
    (if f.maskingKey.Some? then 128 else 0) + LengthCode(f)
  }

  function KeyOctets(f: Frame): seq<byte> {
    match f.maskingKey
    case None => []
    case Some(key) => key
  }

  function PayloadOctets(f: Frame): (r: seq<byte>)
    requires f.maskingKey.Some? ==> |f.maskingKey.value| == 4
    ensures |r| == |f.payload|
  {
    match f.maskingKey
    case None => f.payload
    case Some(key) => Masked(f.payload, key)
  }

  ghost function Serialise(f: Frame): seq<byte>
    requires Valid(f)
  {
    [FirstOctet(f), SecondOctet(f)] + BigEndian(|f.payload|, ExtendedSize(f.form)) + KeyOctets(f) + PayloadOctets(f)
  }

  function FormOf(code: nat): LengthForm {
    if code == 126 then Bits16 else if code == 127 then Bits64 else Bits7
  }

  /** Where the payload of a frame with these first two octets starts. */
  function KeyStart(second: byte): nat {
    2 + ExtendedSize(FormOf(second % 128))
  }

  function PayloadStart(second: byte): nat {
    KeyStart(second) + if second >= 128 then 4 else 0
  }

  function PayloadLength(s: seq<byte>): nat
    requires |s| >= 2 && |s| >= KeyStart(s[1])
  {
    if FormOf(s[1] % 128) == Bits7 then s[1] % 128 else BigEndianValue(s[2..KeyStart(s[1])])
  }

  /** The first frame of s, or Incomplete when s ends before that frame does. */
  function Parse(s: seq<byte>): ParseResult {
    if |s| < 2 || |s| < PayloadStart(s[1]) then
      Incomplete
    else
      var start := PayloadStart(s[1]);
      var n := PayloadLength(s);
      if |s| < start + n then
        Incomplete
      else
        var octets := s[start..start + n];
        var key := if s[1] >= 128 then Some(s[start - 4..start]) else None;
        var payload := if key.Some? then Masked(octets, key.value) else octets;
        Parsed(Frame(s[0] >= 128, s[0] / 16 % 8, s[0] % 16, key, FormOf(s[1] % 128), payload), s[start + n..])
  }

  lemma ParseShrinks(s: seq<byte>)
    ensures Parse(s).Parsed? ==> |Parse(s).rest| < |s|
  {
  }

  /** Every complete frame of s in order, and the octets after them. */
  function ParseAll(s: seq<byte>): (seq<Frame>, seq<byte>)
    decreases |s|
  {
    match Parse(s)
    case Incomplete => ([], s)
    case Parsed(f, rest) =>
      ParseShrinks(s);
      var (frames, tail) := ParseAll(rest);
      ([f] + frames, tail)
  }

  ghost function SerialiseAll(frames: seq<Frame>): seq<byte>
    requires forall f :: f in frames ==> Valid(f)
  {
    if frames == [] then [] else Serialise(frames[0]) + SerialiseAll(frames[1..])
  }

  // ----- Parse and Serialise are inverse to each other

  /** What the second octet alone reveals. */
  lemma SecondOctetReveals(f: Frame)
    requires Valid(f)
    ensures var b := SecondOctet(f);
      && (b >= 128 <==> f.maskingKey.Some?)
      && b % 128 == LengthCode(f)
      && FormOf(b % 128) == f.form
      && KeyStart(b) == 2 + ExtendedSize(f.form)
      && PayloadStart(b) == KeyStart(b) + |KeyOctets(f)|
  {
    var b, code := SecondOctet(f), LengthCode(f);
    assert b == code || b == 128 + code;
    assert b % 128 == code;
  }

  lemma FirstOctetReveals(f: Frame)
    requires Valid(f)
    ensures var b := FirstOctet(f); (b >= 128 <==> f.fin) && b / 16 % 8 == f.rsv && b % 16 == f.opcode
  {
  }

  lemma Slices<T>(a: seq<T>, b: seq<T>, c: seq<T>, d: seq<T>, t: seq<T>)
    ensures var s := a + b + c + d + t; var i := |a|; var j := i + |b|; var k := j + |c|; var l := k + |d|;
      s[..i] == a && s[i..j] == b && s[j..k] == c && s[k..l] == d && s[l..] == t
  {
  }

  lemma PartsOfSerialised(f: Frame, t: seq<byte>)
    requires Valid(f)
    ensures var s := Serialise(f) + t; var k := 2 + ExtendedSize(f.form); var p := k + |KeyOctets(f)|;
      && |s| == p + |f.payload| + |t|
      && s[0] == FirstOctet(f) && s[1] == SecondOctet(f)
      && s[2..k] == BigEndian(|f.payload|, ExtendedSize(f.form))
      && s[k..p] == KeyOctets(f)
      && s[p..p + |f.payload|] == PayloadOctets(f)
      && s[p + |f.payload|..] == t
  {
    Slices([FirstOctet(f), SecondOctet(f)], BigEndian(|f.payload|, ExtendedSize(f.form)), KeyOctets(f),
           PayloadOctets(f), t);
  }

  function Pair(high: int, low: int): int {
    0x100 * high + low
  }

  /** Four octets from position i as a number, most significant first. */
  function Quad(s: seq<byte>, i: nat): int
    requires i + 4 <= |s|
  {
    Pair(Pair(Pair(s[i], s[i + 1]), s[i + 2]), s[i + 3])
  }

  lemma TwoOctets(s: seq<byte>)
    requires |s| == 2
    ensures BigEndianValue(s) == Pair(s[0], s[1])
  {
    assert s[..1][..0] == [] && s[..1] == [s[0]];
    assert BigEndianValue(s[..1]) == s[0];
  }

  lemma FourMore(s: seq<byte>)
    requires |s| >= 4
    ensures BigEndianValue(s) == 0x1_0000_0000 * BigEndianValue(s[..|s| - 4]) + Quad(s, |s| - 4)
  {
    var a, b, c := s[..|s| - 1], s[..|s| - 2], s[..|s| - 3];
    assert a[..|a| - 1] == b && b[..|b| - 1] == c && c[..|c| - 1] == s[..|s| - 4];
    assert BigEndianValue(c) == 0x100 * BigEndianValue(s[..|s| - 4]) + s[|s| - 4];
    assert BigEndianValue(b) == 0x100 * BigEndianValue(c) + s[|s| - 3];
    assert BigEndianValue(a) == 0x100 * BigEndianValue(b) + s[|s| - 2];
  }

  lemma EightOctets(s: seq<byte>)
    requires |s| == 8
    ensures BigEndianValue(s) == 0x1_0000_0000 * Quad(s, 0) + Quad(s, 4)
  {
    FourMore(s);
    FourMore(s[..4]);
    assert s[..4][..0] == [];
  }

  /** The octets of a frame, as section 5.2 draws them: FIN, reserved bits and opcode, then the mask bit with
      the length or its code, the extended length most significant octet first, the key and the payload. */
  lemma SerialisedLayout(f: Frame)
    requires Valid(f)
    ensures var s, n := Serialise(f), |f.payload|;
      var k := match f.form case Bits7 => 2 case Bits16 => 4 case Bits64 => 10;
      var p := k + if f.maskingKey.Some? then 4 else 0;
      && |s| == p + n
      && s[0] == (if f.fin then 0x80 else 0) + 0x10 * f.rsv + f.opcode
      && s[1] == (if f.maskingKey.Some? then 0x80 else 0) +
                 (match f.form case Bits7 => n case Bits16 => 126 case Bits64 => 127)
      && (f.form == Bits16 ==> Pair(s[2], s[3]) == n)
      && (f.form == Bits64 ==> 0x1_0000_0000 * Quad(s, 2) + Quad(s, 6) == n)
      && (f.maskingKey.Some? ==> s[k..p] == f.maskingKey.value && s[p..] == Masked(f.payload, f.maskingKey.value))
      && (f.maskingKey.None? ==> s[p..] == f.payload)
  {
    var s, n := Serialise(f), |f.payload|;
    PartsOfSerialised(f, []);
    assert s + [] == s;
    var w := ExtendedSize(f.form);
    if f.form != Bits7 {
      BigEndianValueOf(n, w);
    }
    match f.form {
      case Bits7 =>
      case Bits16 => TwoOctets(s[2..4]);
      case Bits64 =>
        EightOctets(s[2..10]);
    }
  }

  lemma ParseSerialise(f: Frame, t: seq<byte>)
    requires Valid(f)
    ensures Parse(Serialise(f) + t) == Parsed(f, t)
  {
    FirstOctetReveals(f);
    SecondOctetReveals(f);
    PartsOfSerialised(f, t);
    var s := Serialise(f) + t;
    var p := PayloadStart(s[1]);
    if f.form != Bits7 {
      BigEndianValueOf(|f.payload|, ExtendedSize(f.form));
    }
    assert PayloadLength(s) == |f.payload|;
    match f.maskingKey {
      case None =>
      case Some(key) =>
        assert s[p - 4..p] == key;
        MaskedTwice(f.payload, key);
    }
  }

  lemma BitFields(b: byte)
    ensures b == (if b >= 128 then 128 else 0) + 16 * (b / 16 % 8) + b % 16
    ensures b == (if b >= 128 then 128 else 0) + b % 128
  {
  }

  lemma LengthInRange(s: seq<byte>)
    requires |s| >= 2 && |s| >= KeyStart(s[1])
    ensures match FormOf(s[1] % 128)
            case Bits7 => PayloadLength(s) < 126
            case Bits16 => PayloadLength(s) < Pow256(2)
            case Bits64 => PayloadLength(s) < Pow256(8)
  {
    BigEndianOfValue(s[2..KeyStart(s[1])]);
  }

  lemma KeyAndPayloadRestored(s: seq<byte>)
    requires Parse(s).Parsed?
    ensures var f := Parse(s).frame; var p, n := PayloadStart(s[1]), PayloadLength(s);
      && (f.maskingKey.Some? ==> |f.maskingKey.value| == 4)
      && |f.payload| == n
      && PayloadOctets(f) == s[p..p + n] && KeyOctets(f) == s[KeyStart(s[1])..p]
  {
    var p, n := PayloadStart(s[1]), PayloadLength(s);
    if s[1] >= 128 {
      MaskedTwice(s[p..p + n], s[p - 4..p]);
    }
  }

  lemma OctetsRestored(s: seq<byte>)
    requires Parse(s).Parsed?
    ensures var f := Parse(s).frame;
      Valid(f) && FirstOctet(f) == s[0] && SecondOctet(f) == s[1]
  {
    BitFields(s[0]);
    BitFields(s[1]);
    LengthInRange(s);
    KeyAndPayloadRestored(s);
  }

  lemma LengthRestored(s: seq<byte>)
    requires |s| >= 2 && |s| >= KeyStart(s[1])
    ensures BigEndian(PayloadLength(s), ExtendedSize(FormOf(s[1] % 128))) == s[2..KeyStart(s[1])]
  {
    if FormOf(s[1] % 128) != Bits7 {
      BigEndianOfValue(s[2..KeyStart(s[1])]);
    }
  }

  lemma Reassemble<T>(s: seq<T>, i: nat, j: nat, k: nat, l: nat)
    requires i <= j <= k <= l <= |s|
    ensures s == s[..i] + s[i..j] + s[j..k] + s[k..l] + s[l..]
  {
  }

  lemma SerialiseParse(s: seq<byte>)
    requires Parse(s).Parsed?
    ensures var r := Parse(s); Valid(r.frame) && s == Serialise(r.frame) + r.rest
  {
    OctetsRestored(s);
    KeyAndPayloadRestored(s);
    LengthRestored(s);
    var p, n := PayloadStart(s[1]), PayloadLength(s);
    Reassemble(s, 2, KeyStart(s[1]), p, p + n);
    assert s[..2] == [s[0], s[1]];
  }

  lemma ParseAllFirst(f: Frame, more: seq<byte>)
    requires Valid(f)
    ensures ParseAll(Serialise(f) + more) == ([f] + ParseAll(more).0, ParseAll(more).1)
  {
    ParseSerialise(f, more);
  }

  lemma FirstThenRest(f: Frame, frames: seq<Frame>, tail: seq<byte>)
    requires Valid(f) && forall g :: g in frames ==> Valid(g)
    ensures SerialiseAll([f] + frames) + tail == Serialise(f) + (SerialiseAll(frames) + tail)
  {
    assert ([f] + frames)[1..] == frames;
  }

  /** Parsing returns exactly the frames that were serialised, in order, whatever incomplete tail follows. */
  lemma {:induction false} ParseAllSerialiseAll(frames: seq<Frame>, t: seq<byte>)
    requires forall f :: f in frames ==> Valid(f)
    requires Parse(t).Incomplete?
    ensures ParseAll(SerialiseAll(frames) + t) == (frames, t)
  {
    if frames == [] {
      assert SerialiseAll(frames) + t == t;
    } else {
      assert [frames[0]] + frames[1..] == frames;
      FirstThenRest(frames[0], frames[1..], t);
      ParseAllFirst(frames[0], SerialiseAll(frames[1..]) + t);
      ParseAllSerialiseAll(frames[1..], t);
    }
  }

  /** Every octet string is the serialisation of its frames followed by an incomplete frame. */
  lemma {:induction false} SerialiseAllParseAll(s: seq<byte>)
    ensures var (frames, tail) := ParseAll(s);
      && (forall f :: f in frames ==> Valid(f))
      && s == SerialiseAll(frames) + tail
      && Parse(tail).Incomplete?
    decreases |s|
  {
    var r := Parse(s);
    if r.Incomplete? {
      assert s == [] + s;
    } else {
      SerialiseParse(s);
      ParseShrinks(s);
      SerialiseAllParseAll(r.rest);
      FirstThenRest(r.frame, ParseAll(r.rest).0, ParseAll(r.rest).1);
    }
  }
}
