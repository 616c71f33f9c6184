/** The opening handshake: header lines in, the 101 response of section 4.2.2 of RFC 6455 out. The
    SHA-1 digest is a parameter, as the five words the library returns. */
module Handshake {
  import opened Bytes
  import opened Base64
  import Base64Reference
  import Base64Streams

  type word32 = x: int | 0 <= x < 0x1_0000_0000
  type Digest = d: seq<word32> | |d| == 5 witness [0, 0, 0, 0, 0]
  type Sha1 = string -> Digest

  const KEY_FIELD := "Sec-WebSocket-Key: "
  const GUID := "258EAFA5-E914-47DA-95CA-C5AB0DC85B11"
  const RESPONSE_HEAD :=
    "HTTP/1.1 101 Switching Protocols\r\nUpgrade: websocket\r\nConnection: Upgrade\r\n" +
    "Sec-WebSocket-Accept: "
  const RESPONSE_END := "\r\n\r\n"

  /** A line as getline returns it, without the carriage return before the line feed. */
  function Stripped(line: string): string {
    if line != [] && line[|line| - 1] == '\r' then line[..|line| - 1] else line
  }

  predicate IsKeyLine(line: string) {
    KEY_FIELD <= Stripped(line)
  }

  function KeyOf(line: string): string
    requires IsKeyLine(line)
  {
    Stripped(line)[|KEY_FIELD|..]
  }

  /** The 20 octets of a digest: each word most significant octet first. */
  function DigestOctets(words: seq<word32>): (r: seq<byte>)
    ensures |r| == 4 * |words|
  {
    if words == [] then [] else BigEndian(words[0], 4) + DigestOctets(words[1..])
  }

  /** The digest in the memory of a little-endian machine. */
  function DigestMemory(words: seq<word32>): (r: seq<byte>)
    ensures |r| == 4 * |words|
  {
    if words == [] then [] else LittleEndian(words[0], 4) + DigestMemory(words[1..])
  }

  /** Section 4.2.2, item 5.4: Base64 of the digest of the key followed by the GUID. */
  function AcceptToken(sha1: Sha1, key: string): string {
    Base64Reference.Reference(Standard, DigestOctets(sha1(key + GUID)))
  }

  lemma AcceptTokenForm(sha1: Sha1, key: string)
    ensures var token := AcceptToken(sha1, key);
      |token| == 28 && forall i :: 0 <= i < 28 ==> (token[i] == PADDING <==> i == 27)
  {
    var octets := DigestOctets(sha1(key + GUID));
    forall i | 0 <= i < 28 ensures AcceptToken(sha1, key)[i] == PADDING <==> i == 27 {
      Base64Reference.ReferenceAt(Standard, octets, i);
      DigitRoundTrip(Standard, Base64Reference.Sextet(octets, i));
    }
  }

  /** What the key lines contribute to the accept field, one token each. */
  function Accepts(sha1: Sha1, lines: seq<string>): string {
    if lines == [] then []
    else
      var last := lines[|lines| - 1];
      Accepts(sha1, lines[..|lines| - 1]) + if IsKeyLine(last) then AcceptToken(sha1, KeyOf(last)) else []
  }

  function KeyLines(lines: seq<string>): nat {
    if lines == [] then 0
    else KeyLines(lines[..|lines| - 1]) + if IsKeyLine(lines[|lines| - 1]) then 1 else 0
  }

  function Response(accept: string): string {
    RESPONSE_HEAD + accept + RESPONSE_END
  }

  lemma {:induction false} AcceptsLength(sha1: Sha1, lines: seq<string>)
    ensures |Accepts(sha1, lines)| == 28 * KeyLines(lines)
  {
    if lines != [] {
      AcceptsLength(sha1, lines[..|lines| - 1]);
      if IsKeyLine(lines[|lines| - 1]) {
        AcceptTokenForm(sha1, KeyOf(lines[|lines| - 1]));
      }
    }
  }

  lemma {:induction false} NoKeyNoAccept(sha1: Sha1, lines: seq<string>)
    requires forall j :: 0 <= j < |lines| ==> !IsKeyLine(lines[j])
    ensures Accepts(sha1, lines) == []
  {
    if lines != [] {
      NoKeyNoAccept(sha1, lines[..|lines| - 1]);
    }
  }

  lemma {:induction false} OneToken(sha1: Sha1, lines: seq<string>, i: nat)
    requires i < |lines| && IsKeyLine(lines[i]) && forall j :: 0 <= j < |lines| && j != i ==> !IsKeyLine(lines[j])
    ensures Accepts(sha1, lines) == AcceptToken(sha1, KeyOf(lines[i]))
  {
    var init := lines[..|lines| - 1];
    if i == |lines| - 1 {
      NoKeyNoAccept(sha1, init);
    } else {
      OneToken(sha1, init, i);
    }
  }

  /** A key line is one that starts with the field name as the standard writes it, a colon and a space. */
  lemma KeyLineIff(line: string)
    ensures IsKeyLine(line) <==> "Sec-WebSocket-Key: " <= line
  {
    if "Sec-WebSocket-Key: " <= line && |line| == 19 {
      assert line == "Sec-WebSocket-Key: ";
    }
  }

  lemma KeyOfLine(line: string, key: string)
    requires line == "Sec-WebSocket-Key: " + key || line == "Sec-WebSocket-Key: " + key + "\r"
    requires key != [] ==> key[|key| - 1] != '\r'
    ensures IsKeyLine(line) && KeyOf(line) == key
  {
    var whole := "Sec-WebSocket-Key: " + key;
    assert Stripped(line) == whole;
    assert whole[..19] == "Sec-WebSocket-Key: " && whole[19..] == key;
  }

  /** With one key line, wherever it stands and with or without a carriage return, the accept field is the
      Base64 of the digest of its key followed by the GUID of section 1.3. */
  lemma OneKeyLine(sha1: Sha1, lines: seq<string>, i: nat, key: string)
    requires i < |lines| && forall j :: 0 <= j < |lines| && j != i ==> !("Sec-WebSocket-Key: " <= lines[j])
    requires lines[i] == "Sec-WebSocket-Key: " + key || lines[i] == "Sec-WebSocket-Key: " + key + "\r"
    requires key != [] ==> key[|key| - 1] != '\r'
    ensures Accepts(sha1, lines) ==
            Base64Reference.Reference(Standard, DigestOctets(sha1(key + "258EAFA5-E914-47DA-95CA-C5AB0DC85B11")))
  {
    KeyOfLine(lines[i], key);
    forall j | 0 <= j < |lines| && j != i ensures !IsKeyLine(lines[j]) {
      KeyLineIff(lines[j]);
    }
    OneToken(sha1, lines, i);
  }

  /** The text of the response around the accept field. */
  lemma ResponseText(accept: string)
    ensures Response(accept) ==
            "HTTP/1.1 101 Switching Protocols\r\nUpgrade: websocket\r\nConnection: Upgrade\r\n" +
            "Sec-WebSocket-Accept: " + accept + "\r\n\r\n"
  {
  }

  /** The header ends at a line that is empty but for a carriage return. */
  lemma EmptyLineIff(line: string)
    ensures Stripped(line) == [] <==> line == "" || line == "\r"
  {
  }

  /** The accept field has the form of a token exactly when the request had one key line. */
  lemma TokenFormIffOneKeyLine(sha1: Sha1, lines: seq<string>)
    ensures |Accepts(sha1, lines)| == 28 <==> KeyLines(lines) == 1
  {
    AcceptsLength(sha1, lines);
  }

  /** Without a key line the accept field is empty, and two key lines make it twice as long as a token. */
  lemma NoneOrTwo(sha1: Sha1)
    ensures Accepts(sha1, ["Host: pi"]) == []
    ensures |Accepts(sha1, ["Sec-WebSocket-Key: a", "Sec-WebSocket-Key: b"])| == 56
  {
    var host, two := ["Host: pi"], ["Sec-WebSocket-Key: a", "Sec-WebSocket-Key: b"];
    assert host[..0] == [] && host[0][0] != KEY_FIELD[0] && KeyLines(host) == 0;
    assert two[0][..19] == KEY_FIELD && two[1][..19] == KEY_FIELD;
    assert two[..1][..0] == [] && KeyLines(two[..1]) == 1 && KeyLines(two) == 2;
    AcceptsLength(sha1, host);
    AcceptsLength(sha1, two);
  }

  // ----- The word swap

  lemma FirstWord(words: seq<word32>)
    requires words != []
    ensures DigestMemory(words)[..4] == LittleEndian(words[0], 4)
    ensures DigestMemory(words)[4..] == DigestMemory(words[1..])
    ensures DigestOctets(words)[..4] == BigEndian(words[0], 4)
    ensures DigestOctets(words)[4..] == DigestOctets(words[1..])
  {
  }

  lemma WordOfTail(s: seq<byte>, tail: seq<byte>, i: nat)
    requires 1 <= i && 4 * i + 4 <= |s| && tail == s[4..]
    ensures s[4 * i..4 * i + 4] == tail[4 * (i - 1)..4 * (i - 1) + 4]
  {
  }

  lemma {:induction false} MemoryWord(words: seq<word32>, i: nat)
    requires i < |words|
    ensures DigestMemory(words)[4 * i..4 * i + 4] == LittleEndian(words[i], 4)
    ensures DigestOctets(words)[4 * i..4 * i + 4] == BigEndian(words[i], 4)
  {
    if i > 0 {
      MemoryWord(words[1..], i - 1);
      FirstWord(words);
      WordOfTail(DigestMemory(words), DigestMemory(words[1..]), i);
      WordOfTail(DigestOctets(words), DigestOctets(words[1..]), i);
    } else {
      FirstWord(words);
    }
  }

  method SwapWord(wDigest: array<byte>, at: nat)
    requires at + 4 <= wDigest.Length
    modifies wDigest
    ensures wDigest[..] == old(wDigest[..at]) + Reversed(old(wDigest[at..at + 4])) + old(wDigest[at + 4..])
  {
    wDigest[at], wDigest[at + 3] := wDigest[at + 3], wDigest[at];
    wDigest[at + 1], wDigest[at + 2] := wDigest[at + 2], wDigest[at + 1];
  }

  lemma WordSwapped(words: Digest, i: nat)
    requires i < 5
    ensures var memory, octets := DigestMemory(words), DigestOctets(words);
      octets[..4 * i] + Reversed(memory[4 * i..4 * i + 4]) == octets[..4 * i + 4]
  {
    MemoryWord(words, i);
    ReversedLittleEndian(words[i], 4);
  }

  lemma SwappedSoFar(octets: seq<byte>, memory: seq<byte>, before: seq<byte>, after: seq<byte>, i: nat)
    requires |octets| == |memory| && i + 4 <= |memory| && before == octets[..i] + memory[i..]
    requires octets[..i] + Reversed(memory[i..i + 4]) == octets[..i + 4]
    requires after == before[..i] + Reversed(before[i..i + 4]) + before[i + 4..]
    ensures after == octets[..i + 4] + memory[i + 4..]
  {
    assert before[..i] == octets[..i] && before[i..i + 4] == memory[i..i + 4] && before[i + 4..] == memory[i + 4..];
  }

  /** Reversing each word of the digest in place gives the octets of the standard. */
  method SwapWords(wDigest: array<byte>, ghost words: Digest)
    requires wDigest.Length == 20 && wDigest[..] == DigestMemory(words)
    modifies wDigest
    ensures wDigest[..] == DigestOctets(words)
  {
    var wIndex := 0;
    ghost var memory, octets, k := DigestMemory(words), DigestOctets(words), 0;
    while wIndex < 20
      invariant wIndex == 4 * k && k <= 5
      invariant wDigest[..] == octets[..wIndex] + memory[wIndex..]
    {
      WordSwapped(words, k);
      ghost var before := wDigest[..];
      SwapWord(wDigest, wIndex);
      SwappedSoFar(octets, memory, before, wDigest[..], wIndex);
      wIndex, k := wIndex + 4, k + 1;
    }
  }

  lemma ConcatOne<T>(x: seq<T>)
    ensures Concat([x]) == x
  {
  }

  /** The digest as the library leaves it in memory, swapped and sent through the streaming encoder. */
  method EncodeDigest(words: Digest) returns (token: string)
    ensures token == Base64Reference.Reference(Standard, DigestOctets(words))
  {
    var memory := DigestMemory(words);
    var wDigest := new byte[|memory|](i requires 0 <= i < |memory| => memory[i]);
    assert wDigest[..] == memory;
    SwapWords(wDigest, words);
    ConcatOne(wDigest[..]);
    token := Base64Streams.StreamEncode(Standard, [wDigest[..]]);
  }

  // ----- The connection's part

  class Negotiation {
    const sha1: Sha1
    var mSecWebSocketKey: string
    var mResponse: Option<string>   // what is written to the socket, once it is

    constructor (digest: Sha1)
      ensures sha1 == digest && mSecWebSocketKey == [] && mResponse == None
    {
      sha1, mSecWebSocketKey, mResponse := digest, [], None;
    }

    /** One header line; true when the connection waits for another. */
    method HandleReadHandshake(line: string) returns (listening: bool)
      modifies this
      ensures listening <==> Stripped(line) != []
      ensures Stripped(line) == [] ==>
                mSecWebSocketKey == old(mSecWebSocketKey) && mResponse == Some(Response(mSecWebSocketKey))
      ensures Stripped(line) != [] ==>
                && mSecWebSocketKey ==
                   old(mSecWebSocketKey) + (if IsKeyLine(line) then AcceptToken(sha1, KeyOf(line)) else [])
                && mResponse == old(mResponse)
    {
      var wLine := line;
      if wLine != [] && wLine[|wLine| - 1] == '\r' {
        wLine := wLine[..|wLine| - 1];
      }
      if wLine == [] {
        mResponse := Some(RESPONSE_HEAD + mSecWebSocketKey + RESPONSE_END);
        listening := false;
      } else {
        if KEY_FIELD <= wLine {
          var wSecWebSocketKey := wLine[|KEY_FIELD|..] + GUID;
          var encoded := EncodeDigest(sha1(wSecWebSocketKey));
          mSecWebSocketKey := mSecWebSocketKey + encoded;
        }
        listening := true;
      }
    }
  }

  /** A request header: lines up to an empty one. */
  method Negotiate(sha1: Sha1, header: seq<string>) returns (response: string)
    requires forall i :: 0 <= i < |header| ==> Stripped(header[i]) != []
    ensures response == Response(Accepts(sha1, header))
  {
    var negotiation := new Negotiation(sha1);
    for i := 0 to |header|
      invariant fresh(negotiation) && negotiation.sha1 == sha1
      invariant negotiation.mSecWebSocketKey == Accepts(sha1, header[..i])
    {
      var listening := negotiation.HandleReadHandshake(header[i]);
      assert listening;
      assert header[..i + 1][..i] == header[..i];
    }
    assert header[..|header|] == header;
    var listening := negotiation.HandleReadHandshake("\r");
    assert Stripped("\r") == [];
    response := negotiation.mResponse.value;
  }
}
