/** The examples that the standards publish, with their literal octets and texts. They hold the definitions that
    both sides of a proof share to what the standards mean. */
module StandardExamples {
  import opened Bytes
  import opened Base64
  import opened Base64Reference
  import opened FrameReceiver
  import opened FramingRefinement
  import Streams = Base64Streams
  import Connection = TcpConnection
  import Handshake
  import IcmpChecksum
  import Wire = WebSocketWire

  // ----- RFC 4648, section 10

  lemma QuadIs(x: byte, y: byte, z: byte, d0: digit, d1: digit, d2: digit, d3: digit)
    requires Group(x, y, z) == GroupOfDigits(d0, d1, d2, d3)
    ensures EncodeGroup(Standard, Group(x, y, z)) ==
            [EncodeDigit(Standard, d0), EncodeDigit(Standard, d1), EncodeDigit(Standard, d2), EncodeDigit(Standard, d3)]
  {
    DigitsOfGroup(d0, d1, d2, d3);
    var t := GroupOfDigits(d0, d1, d2, d3);
    assert EncodeGroup(Standard, t) ==
           [EncodeDigit(Standard, t / 0x40000 % 64), EncodeDigit(Standard, t / 0x1000 % 64),
            EncodeDigit(Standard, t / 0x40 % 64), EncodeDigit(Standard, t % 64)];
  }

  /** A group in front of a text: its digits are given. */
  lemma GroupThen(s: seq<byte>, d0: digit, d1: digit, d2: digit, d3: digit, rest: string)
    requires |s| >= 3 && Group(s[0], s[1], s[2]) == GroupOfDigits(d0, d1, d2, d3)
    requires Encode(Standard, s[3..]) == rest
    ensures Encode(Standard, s) ==
            [EncodeDigit(Standard, d0), EncodeDigit(Standard, d1), EncodeDigit(Standard, d2), EncodeDigit(Standard, d3)]
            + rest
  {
    QuadIs(s[0], s[1], s[2], d0, d1, d2, d3);
  }

  /** One octet or two at the end: padding takes the place of the digits that are missing. */
  lemma OneLeft(s: seq<byte>, d0: digit, d1: digit)
    requires |s| == 1 && Group(s[0], 0, 0) == GroupOfDigits(d0, d1, 0, 0)
    ensures Encode(Standard, s) == [EncodeDigit(Standard, d0), EncodeDigit(Standard, d1), '=', '=']
  {
    QuadIs(s[0], 0, 0, d0, d1, 0, 0);
  }

  lemma TwoLeft(s: seq<byte>, d0: digit, d1: digit, d2: digit)
    requires |s| == 2 && Group(s[0], s[1], 0) == GroupOfDigits(d0, d1, d2, 0)
    ensures Encode(Standard, s) ==
            [EncodeDigit(Standard, d0), EncodeDigit(Standard, d1), EncodeDigit(Standard, d2), '=']
  {
    QuadIs(s[0], s[1], 0, d0, d1, d2, 0);
  }

  lemma FirstVectors(s: seq<byte>)
    requires s == [0x66, 0x6F, 0x6F]
    ensures Encode(Standard, []) == "" && Encode(Standard, s[..1]) == "Zg==" && Encode(Standard, s[..2]) == "Zm8="
    ensures Encode(Standard, s) == "Zm9v"
  {
    OneLeft(s[..1], 25, 32);
    TwoLeft(s[..2], 25, 38, 60);
    GroupThen(s, 25, 38, 61, 47, "");
  }

  lemma LastVectors(s: seq<byte>)
    requires s == [0x66, 0x6F, 0x6F, 0x62, 0x61, 0x72]
    ensures Encode(Standard, s[..4]) == "Zm9vYg==" && Encode(Standard, s[..5]) == "Zm9vYmE="
    ensures Encode(Standard, s) == "Zm9vYmFy"
  {
    OneLeft(s[3..4], 24, 32);
    TwoLeft(s[3..5], 24, 38, 4);
    GroupThen(s[3..], 24, 38, 5, 50, "");
    assert s[..4][3..] == s[3..4] && s[..5][3..] == s[3..5];
    GroupThen(s[..4], 25, 38, 61, 47, "Yg==");
    GroupThen(s[..5], 25, 38, 61, 47, "YmE=");
    GroupThen(s, 25, 38, 61, 47, "YmFy");
  }

  function Vector(n: nat): string
    requires n <= 6
  {
    match n
    case 0 => ""
    case 1 => "Zg=="
    case 2 => "Zm8="
    case 3 => "Zm9v"
    case 4 => "Zm9vYg=="
    case 5 => "Zm9vYmE="
    case 6 => "Zm9vYmFy"
  }

  lemma VectorOf(foobar: seq<byte>, n: nat)
    requires foobar == [0x66, 0x6F, 0x6F, 0x62, 0x61, 0x72] && n <= 6
    ensures Encode(Standard, foobar[..n]) == Vector(n)
  {
    if n <= 3 {
      var foo := foobar[..3];
      FirstVectors(foo);
      assert foo[..n] == foobar[..n] && foo[..0] == [] && foo[..3] == foo;
    } else {
      LastVectors(foobar);
      assert foobar[..6] == foobar;
    }
  }

  lemma CutInTwo<T>(s: seq<T>, cut: nat, n: nat)
    requires cut <= n <= |s|
    ensures Concat([s[..cut], s[cut..n]]) == s[..n]
  {
    var parts := [s[..cut], s[cut..n]];
    assert parts[1..] == [s[cut..n]] && parts[1..][1..] == [];
    assert Concat(parts[1..]) == s[cut..n] + [];
    assert s[..cut] + s[cut..n] == s[..n];
  }

  /** The test vectors, "foobar" and its beginnings, through the streaming encoder, cut anywhere. */
  method TestVectors(foobar: seq<byte>, cut: nat, n: nat) returns (text: string)
    requires foobar == [0x66, 0x6F, 0x6F, 0x62, 0x61, 0x72] && cut <= n <= 6
    ensures text == Vector(n)
  {
    text := Streams.StreamEncode(Standard, [foobar[..cut], foobar[cut..n]]);
    CutInTwo(foobar, cut, n);
    EncodeIsReference(Standard, foobar[..n]);
    VectorOf(foobar, n);
  }

  // ----- RFC 6455, section 5.7

  ghost predicate IsHello(d: seq<byte>, k: seq<byte>) {
    d == [0x7F, 0x9F, 0x4D, 0x51, 0x58] && k == [0x37, 0xFA, 0x21, 0x3D]
  }

  lemma HelloFirst(d: seq<byte>, k: seq<byte>)
    requires IsHello(d, k)
    ensures Xor(d[0], k[0]) == 0x48 && Xor(d[1], k[1]) == 0x65
  {
    XorIs(d[0], k[0], 0x48);
    XorIs(d[1], k[1], 0x65);
  }

  lemma HelloThird(d: seq<byte>, k: seq<byte>)
    requires IsHello(d, k)
    ensures Xor(d[2], k[2]) == 0x6C
  {
    XorIs(d[2], k[2], 0x6C);
  }

  lemma HelloFourth(d: seq<byte>, k: seq<byte>)
    requires IsHello(d, k)
    ensures Xor(d[3], k[3]) == 0x6C
  {
    XorIs(d[3], k[3], 0x6C);
  }

  lemma HelloLast(d: seq<byte>, k: seq<byte>)
    requires IsHello(d, k)
    ensures Xor(d[4], k[0]) == 0x6F
  {
    XorIs(d[4], k[0], 0x6F);
  }

  lemma HelloUnmasked(d: seq<byte>, k: seq<byte>)
    requires IsHello(d, k)
    ensures Wire.Masked(d, k) == [0x48, 0x65, 0x6C, 0x6C, 0x6F]
  {
    HelloFirst(d, k);
    HelloThird(d, k);
    HelloFourth(d, k);
    HelloLast(d, k);
  }

  /** A masked frame of fewer than 126 octets, with nothing after it. */
  lemma ShortFrameParsed(s: seq<byte>, n: nat)
    requires |s| == 6 + n && n < 126 && s[1] == 0x80 + n
    ensures Wire.Parse(s).Parsed? && Wire.Parse(s).rest == []
    ensures var f := Wire.Parse(s).frame;
      && (f.fin <==> s[0] >= 0x80) && f.opcode == s[0] % 0x10 && f.maskingKey.Some?
      && f.payload == Wire.Masked(s[6..6 + n], s[2..6])
  {
    assert s[1] % 128 == n;
  }

  lemma MaskedHelloParsed(s: seq<byte>) returns (f: Wire.Frame)
    requires s == [0x81, 0x85, 0x37, 0xFA, 0x21, 0x3D, 0x7F, 0x9F, 0x4D, 0x51, 0x58]
    ensures Wire.Parse(s) == Wire.Parsed(f, []) && f.fin && f.opcode == 1 && f.maskingKey.Some?
    ensures f.payload == [0x48, 0x65, 0x6C, 0x6C, 0x6F]
  {
    ShortFrameParsed(s, 5);
    HelloUnmasked(s[6..11], s[2..6]);
    f := Wire.Parse(s).frame;
  }

  lemma OneFrameDelivered(r: Receiver, s: seq<byte>, f: Wire.Frame)
    requires Fresh(r) && Wire.Parse(s) == Wire.Parsed(f, []) && f.opcode in {1, 2} && f.fin && f.maskingKey.Some?
    ensures Run(r, s).0.delivered == r.delivered + [f.payload]
  {
    Wire.SerialiseParse(s);
    var frames := [f];
    assert Wire.SerialiseAll(frames[1..]) == [] && Wire.SerialiseAll(frames) == Wire.Serialise(f) + [] == s;
    SerialisedFramesDelivered(r, frames);
    DeliveriesFront(r.inbound, f, []);
    assert frames == [f] + [] && Assembled(r.inbound, f) == f.payload;
  }

  /** The single-frame masked text message of section 5.7. */
  lemma MaskedHelloReceived(r: Receiver)
    requires Fresh(r)
    ensures Run(r, [0x81, 0x85, 0x37, 0xFA, 0x21, 0x3D, 0x7F, 0x9F, 0x4D, 0x51, 0x58]).0.delivered ==
            r.delivered + [[0x48, 0x65, 0x6C, 0x6C, 0x6F]]
  {
    var s: seq<byte> := [0x81, 0x85, 0x37, 0xFA, 0x21, 0x3D, 0x7F, 0x9F, 0x4D, 0x51, 0x58];
    var f := MaskedHelloParsed(s);
    OneFrameDelivered(r, s, f);
  }

  /** The single-frame unmasked text message of section 5.7, as a connection sends it. */
  method HelloSent() returns (octets: seq<byte>)
    ensures octets == [0x81, 0x05, 0x48, 0x65, 0x6C, 0x6C, 0x6F]
  {
    var connection := new Connection.TcpConnection([]);
    connection.Send([0x48, 0x65, 0x6C, 0x6C, 0x6F], Connection.TEXT);
    octets := connection.mSocket;
    Wire.SerialisedLayout(Connection.ServerFrame([0x48, 0x65, 0x6C, 0x6C, 0x6F], Connection.TEXT));
    assert octets[2..] == [0x48, 0x65, 0x6C, 0x6C, 0x6F];
  }

  // ----- RFC 6455, section 1.3

  lemma DigestWord(words: seq<Handshake.word32>, octets: seq<byte>, rest: seq<byte>)
    requires words != [] && |octets| == 4 && Wire.Quad(octets, 0) == words[0]
    requires Handshake.DigestOctets(words[1..]) == rest
    ensures Handshake.DigestOctets(words) == octets + rest
  {
    Wire.FourMore(octets);
    BigEndianOfValue(octets);
  }

  lemma LastWords(words: seq<Handshake.word32>)
    requires words == [0x90F64606, 0xCF385945, 0xB2BEC4EA]
    ensures Handshake.DigestOctets(words) ==
            [0x90, 0xF6, 0x46, 0x06] + ([0xCF, 0x38, 0x59, 0x45] + ([0xB2, 0xBE, 0xC4, 0xEA] + []))
  {
    var two, one := words[1..], words[2..];
    assert two[1..] == one && one[1..] == [];
    DigestWord(one, [0xB2, 0xBE, 0xC4, 0xEA], []);
    DigestWord(two, [0xCF, 0x38, 0x59, 0x45], [0xB2, 0xBE, 0xC4, 0xEA] + []);
    DigestWord(words, [0x90, 0xF6, 0x46, 0x06], [0xCF, 0x38, 0x59, 0x45] + ([0xB2, 0xBE, 0xC4, 0xEA] + []));
  }

  lemma SampleWords(words: Handshake.Digest)
    requires words == [0xB37A4F2C, 0xC0624F16, 0x90F64606, 0xCF385945, 0xB2BEC4EA]
    ensures Handshake.DigestOctets(words) ==
            [0xB3, 0x7A, 0x4F, 0x2C] + ([0xC0, 0x62, 0x4F, 0x16] + Handshake.DigestOctets(words[2..]))
  {
    var four: seq<Handshake.word32> := words[1..];
    assert four[1..] == words[2..];
    DigestWord(four, [0xC0, 0x62, 0x4F, 0x16], Handshake.DigestOctets(words[2..]));
    DigestWord(words, [0xB3, 0x7A, 0x4F, 0x2C], [0xC0, 0x62, 0x4F, 0x16] + Handshake.DigestOctets(words[2..]));
  }

  lemma SampleOctets(s: seq<byte>)
    requires s == [0xB3, 0x7A, 0x4F, 0x2C] + ([0xC0, 0x62, 0x4F, 0x16] +
                  ([0x90, 0xF6, 0x46, 0x06] + ([0xCF, 0x38, 0x59, 0x45] + ([0xB2, 0xBE, 0xC4, 0xEA] + []))))
    ensures s == [0xB3, 0x7A, 0x4F, 0x2C, 0xC0, 0x62, 0x4F, 0x16, 0x90] +
                 [0xF6, 0x46, 0x06, 0xCF, 0x38, 0x59, 0x45, 0xB2, 0xBE, 0xC4, 0xEA]
  {
  }

  lemma SampleDigest(words: Handshake.Digest)
    requires words == [0xB37A4F2C, 0xC0624F16, 0x90F64606, 0xCF385945, 0xB2BEC4EA]
    ensures Handshake.DigestOctets(words) ==
            [0xB3, 0x7A, 0x4F, 0x2C, 0xC0, 0x62, 0x4F, 0x16, 0x90] +
            [0xF6, 0x46, 0x06, 0xCF, 0x38, 0x59, 0x45, 0xB2, 0xBE, 0xC4, 0xEA]
  {
    SampleWords(words);
    LastWords(words[2..]);
    SampleOctets(Handshake.DigestOctets(words));
  }

  lemma SampleTail(s: seq<byte>)
    requires s == [0xF6, 0x46, 0x06, 0xCF, 0x38, 0x59, 0x45, 0xB2, 0xBE, 0xC4, 0xEA]
    ensures Encode(Standard, s) == "9kYG" + ("zzhZ" + ("RbK+" + "xOo="))
  {
    TwoLeft(s[9..], 49, 14, 40);
    assert s[6..][3..] == s[9..] && s[3..][3..] == s[6..];
    GroupThen(s[6..], 17, 27, 10, 62, "xOo=");
    GroupThen(s[3..], 51, 51, 33, 25, "RbK+" + "xOo=");
    GroupThen(s, 61, 36, 24, 6, "zzhZ" + ("RbK+" + "xOo="));
  }

  lemma SampleText(s: seq<byte>)
    requires s == [0xB3, 0x7A, 0x4F, 0x2C, 0xC0, 0x62, 0x4F, 0x16, 0x90] +
                  [0xF6, 0x46, 0x06, 0xCF, 0x38, 0x59, 0x45, 0xB2, 0xBE, 0xC4, 0xEA]
    ensures Encode(Standard, s) == "s3pP" + ("LMBi" + ("TxaQ" + ("9kYG" + ("zzhZ" + ("RbK+" + "xOo=")))))
  {
    var tail := "9kYG" + ("zzhZ" + ("RbK+" + "xOo="));
    SampleTail(s[9..]);
    assert s[6..][3..] == s[9..] && s[3..][3..] == s[6..];
    GroupThen(s[6..], 19, 49, 26, 16, tail);
    GroupThen(s[3..], 11, 12, 1, 34, "TxaQ" + tail);
    GroupThen(s, 44, 55, 41, 15, "LMBi" + ("TxaQ" + tail));
  }

  /** The sample handshake: the key of section 1.3, whose digest is given there, is answered with the text given
      there, wherever the line stands. */
  lemma SampleAccepted(sha1: Handshake.Sha1, before: string)
    requires sha1("dGhlIHNhbXBsZSBub25jZQ==" + "258EAFA5-E914-47DA-95CA-C5AB0DC85B11") ==
             [0xB37A4F2C, 0xC0624F16, 0x90F64606, 0xCF385945, 0xB2BEC4EA]
    requires !("Sec-WebSocket-Key: " <= before)
    ensures Handshake.Accepts(sha1, [before, "Sec-WebSocket-Key: " + "dGhlIHNhbXBsZSBub25jZQ==" + "\r"]) ==
            "s3pP" + ("LMBi" + ("TxaQ" + ("9kYG" + ("zzhZ" + ("RbK+" + "xOo=")))))
  {
    var key := "dGhlIHNhbXBsZSBub25jZQ==";
    var digest := sha1(key + "258EAFA5-E914-47DA-95CA-C5AB0DC85B11");
    Handshake.OneKeyLine(sha1, [before, "Sec-WebSocket-Key: " + key + "\r"], 1, key);
    SampleDigest(digest);
    SampleText(Handshake.DigestOctets(digest));
    EncodeIsReference(Standard, Handshake.DigestOctets(digest));
  }

  // ----- RFC 1071, section 3

  lemma PairAdded(s: seq<byte>, pair: IcmpChecksum.word, rest: IcmpChecksum.word)
    requires |s| >= 2 && 0x100 * (s[0] as int) + s[1] as int == pair
    requires IcmpChecksum.OnesSum(IcmpChecksum.WordsOf(s[2..])) == rest
    ensures IcmpChecksum.OnesSum(IcmpChecksum.WordsOf(s)) == IcmpChecksum.OnesAdd(pair, rest)
  {
    var words := IcmpChecksum.WordsOf(s);
    assert words[1..] == IcmpChecksum.WordsOf(s[2..]);
  }

  /** The octets of the numerical example and their sum. */
  lemma SampleSum(s: seq<byte>)
    requires s == [0x00, 0x01, 0xF2, 0x03, 0xF4, 0xF5, 0xF6, 0xF7]
    ensures IcmpChecksum.OnesSum(IcmpChecksum.WordsOf(s)) == 0xDDF2
  {
    assert s[2..][2..] == s[4..] && s[4..][2..] == s[6..] && s[6..][2..] == [];
    PairAdded(s[6..], 0xF6F7, 0);
    PairAdded(s[4..], 0xF4F5, 0xF6F7);
    PairAdded(s[2..], 0xF203, 0xEBED);
    PairAdded(s, 0x0001, 0xDDF1);
  }

  /** An octet at the end counts as the high half of a word. */
  lemma OddOctet(x: byte)
    ensures IcmpChecksum.OnesSum(IcmpChecksum.WordsOf([x])) == 0x100 * (x as int)
  {
    assert IcmpChecksum.WordsOf([x])[1..] == [];
  }
}
