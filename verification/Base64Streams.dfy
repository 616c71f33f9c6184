/** The Base64 filters: the block operations of base64.hpp, and the facade instantiated with them at a
    block size of three octets. */
module Base64Streams {
  import opened Bytes
  import opened Base64
  import opened PositionalFacade
  import opened Base64Reference

  // ----- The block operations, in the source's form

  method EncodeInto(a: Alphabet, dst: array<char>, src: seq<byte>)
    requires dst.Length == 4 && |src| == 3
    modifies dst
    ensures dst[..] == EncodeGroup(a, Group(src[0], src[1], src[2]))
  {
    var tmp := Group(src[0], src[1], src[2]);
    dst[0] := EncodeDigit(a, tmp / 0x40000 % 64);
    dst[1] := EncodeDigit(a, tmp / 0x1000 % 64);
    dst[2] := EncodeDigit(a, tmp / 0x40 % 64);
    dst[3] := EncodeDigit(a, tmp % 64);
  }

  method WriteBlocks(a: Alphabet, s: seq<byte>, n: nat) returns (sink: string)
    requires |s| == 3 * n
    ensures sink == EncodeBlocks(a, s)
  {
    sink := [];
    var rest := s;
    for i := 0 to n
      invariant |rest| == 3 * (n - i)
      invariant sink + EncodeBlocks(a, rest) == EncodeBlocks(a, s)
    {
      var buf := new char[4];
      EncodeInto(a, buf, rest[..3]);
      Associative(sink, buf[..], EncodeBlocks(a, rest[3..]));
      sink := sink + buf[..];
      rest := rest[3..];
    }
  }

  method CloseWithFlush(a: Alphabet, s: seq<byte>) returns (sink: string)
    requires |s| < 3
    ensures sink == Flush(a, s)
  {
    sink := [];
    if |s| != 0 {
      var src := s + seq(3 - |s|, _ => 0);
      var buf := new char[4];
      EncodeInto(a, buf, src);
      ghost var q := buf[..];
      if |s| == 1 {
        buf[2] := PADDING;
      }
      buf[3] := PADDING;
      sink := buf[..];
      assert |s| == 1 ==> sink == q[..2] + [PADDING, PADDING];
      assert |s| == 2 ==> sink == q[..3] + [PADDING];
    }
  }

  type QuadText = t: string | |t| % 4 == 0

  function Tail(t: QuadText): (rest: QuadText)
    requires t != []
    ensures rest == t[4..] && |rest| == |t| - 4
  {
    t[4..]
  }

  function Prepend(first: Option<seq<byte>>, more: BlockOutcome<QuadText>): BlockOutcome<QuadText> {
    if first.None? || more.BadSequence? then BadSequence else Blocks(first.value + more.bytes, more.rest)
  }

  /** Up to k quads from the front of t; any undecodable quad among them is an exception. */
  function ReadQuads(a: Alphabet, t: QuadText, k: nat): BlockOutcome<QuadText> {
    if k == 0 || t == [] then
      Blocks([], t)
    else
      Prepend(DecodeQuad(a, t[..4]), ReadQuads(a, Tail(t), k - 1))
  }

  predicate BadQuad(a: Alphabet, t: QuadText, i: nat) {
    4 * i + 4 <= |t| && DecodeQuad(a, t[4 * i..4 * i + 4]).None?
  }

  lemma QuadOfTail(t: string, tail: string, i: nat)
    requires 4 * i + 8 <= |t| && tail == t[4..]
    ensures tail[4 * i..4 * i + 4] == t[4 * (i + 1)..4 * (i + 1) + 4]
  {
  }

  lemma BadQuadShifts(a: Alphabet, t: QuadText, i: nat)
    requires t != []
    ensures BadQuad(a, Tail(t), i) <==> BadQuad(a, t, i + 1)
  {
    if 4 * i + 8 <= |t| {
      QuadOfTail(t, Tail(t), i);
    }
  }

  lemma BadQuadIn(a: Alphabet, t: QuadText, k: nat)
    requires t != [] && k > 0
    ensures (exists i: nat :: i < k && BadQuad(a, t, i)) <==>
            DecodeQuad(a, t[..4]).None? || exists i: nat :: i < k - 1 && BadQuad(a, Tail(t), i)
  {
    assert BadQuad(a, t, 0) <==> DecodeQuad(a, t[..4]).None?;
    if i: nat :| i < k - 1 && BadQuad(a, Tail(t), i) {
      BadQuadShifts(a, t, i);
    }
    if i: nat :| 0 < i < k && BadQuad(a, t, i) {
      BadQuadShifts(a, t, i - 1);
    }
  }

  /** Reading fails exactly when one of the quads asked for does not decode. */
  lemma {:induction false} ReadQuadsFails(a: Alphabet, t: QuadText, k: nat)
    ensures ReadQuads(a, t, k).BadSequence? <==> exists i: nat :: i < k && BadQuad(a, t, i)
  {
    if k != 0 && t != [] {
      ReadQuadsFails(a, Tail(t), k - 1);
      BadQuadIn(a, t, k);
    }
  }

  lemma PrependTwice(s: seq<byte>, x: seq<byte>, more: BlockOutcome<QuadText>)
    ensures Prepend(Some(s), Prepend(Some(x), more)) == Prepend(Some(s + x), more)
  {
    if more.Blocks? {
      Associative(s, x, more.bytes);
    }
  }

  /** What the local buffer of a quad holds before it is read into. */
  type Fill = f: string | |f| == 4 witness "AAAA"

  /** A text that ends inside a quad, as the decoder sees it: what is missing comes from the buffer. */
  function Completed(t: string, fill: Fill): (q: QuadText) {
    if |t| % 4 == 0 then t else t + fill[|t| % 4..]
  }

  lemma SameRemainder(n: nat)
    requires n >= 4
    ensures (n - 4) % 4 == n % 4
  {
  }

  lemma CompletedStep(t: string, fill: Fill)
    requires t != []
    ensures var n := if |t| < 4 then |t| else 4;
      && Completed(t, fill) != []
      && Completed(t, fill)[..4] == t[..n] + fill[n..]
      && Tail(Completed(t, fill)) == Completed(t[n..], fill)
  {
    if |t| >= 4 {
      SameRemainder(|t|);
      assert t[..4] + fill[4..] == t[..4];
      if |t| % 4 != 0 {
        assert (t + fill[|t| % 4..])[4..] == t[4..] + fill[|t| % 4..];
      }
    } else {
      assert t[|t|..] == [];
    }
  }

  lemma ReadQuadsStep(a: Alphabet, t: string, fill: Fill, k: nat, buf: string, rest: string)
    requires t != [] && k > 0
    requires var n := if |t| < 4 then |t| else 4; buf == t[..n] + fill[n..] && rest == t[n..]
    ensures |buf| == 4
    ensures ReadQuads(a, Completed(t, fill), k) ==
            Prepend(DecodeQuad(a, buf), ReadQuads(a, Completed(rest, fill), k - 1))
  {
    CompletedStep(t, fill);
  }

  /** rest is an end of t. */
  ghost predicate Suffix(rest: string, t: string) {
    rest == t || (t != [] && Suffix(rest, t[1..]))
  }

  lemma {:induction false} SuffixOfSuffix(left: string, rest: string, t: string)
    requires Suffix(left, rest) && Suffix(rest, t)
    ensures Suffix(left, t)
  {
    if rest != t {
      SuffixOfSuffix(left, rest, t[1..]);
    }
  }

  lemma {:induction false} EndIsSuffix(t: string, n: nat)
    requires n <= |t|
    ensures Suffix(t[n..], t)
  {
    if n > 0 {
      assert t[n..] == t[1..][n - 1..];
      EndIsSuffix(t[1..], n - 1);
    } else {
      assert t[0..] == t;
    }
  }

  /** What is read of rest, put after s, is what is read of the whole text. */
  ghost predicate ReadsOn(whole: BlockOutcome<QuadText>, a: Alphabet, s: seq<byte>, rest: string, fill: Fill, k: nat) {
    whole == Prepend(Some(s), ReadQuads(a, Completed(rest, fill), k))
  }

  /** One read of up to four characters. */
  method ReadQuad(a: Alphabet, t: string, fill: Fill, ghost whole: BlockOutcome<QuadText>, s: seq<byte>, ghost k: nat)
      returns (amt: Option<seq<byte>>, rest: string)
    requires t != [] && k > 0 && ReadsOn(whole, a, s, t, fill, k)
    ensures amt.None? ==> whole.BadSequence?
    ensures amt.Some? ==> ReadsOn(whole, a, s + amt.value, rest, fill, k - 1)
    ensures |rest| < |t| && Suffix(rest, t)
  {
    var res := if |t| < 4 then |t| else 4;
    var buf := t[..res] + fill[res..];
    rest := t[res..];
    EndIsSuffix(t, res);
    ReadQuadsStep(a, t, fill, k, buf, rest);
    amt := DecodeQuad(a, buf);
    if amt.Some? {
      PrependTwice(s, amt.value, ReadQuads(a, Completed(rest, fill), k - 1));
    }
  }

  lemma PrependNothing(r: BlockOutcome<QuadText>)
    ensures Prepend(Some([]), r) == r
  {
    if r.Blocks? {
      assert [] + r.bytes == r.bytes;
    }
  }

  lemma NothingMore(whole: BlockOutcome<QuadText>, a: Alphabet, s: seq<byte>, rest: string, fill: Fill, k: nat)
    requires ReadsOn(whole, a, s, rest, fill, k) && (k == 0 || rest == [])
    ensures whole == Blocks(s, Completed(rest, fill))
  {
    assert s + [] == s;
  }

  method ReadLoop(a: Alphabet, t: string, n: nat, fill: Fill, ghost whole: BlockOutcome<QuadText>)
      returns (r: BlockOutcome<string>)
    requires ReadsOn(whole, a, [], t, fill, n)
    ensures r.BadSequence? <==> whole.BadSequence?
    ensures r.Blocks? ==> whole == Blocks(r.bytes, Completed(r.rest, fill)) && Suffix(r.rest, t)
  {
    var s: seq<byte> := [];
    var rest := t;
    var i := 0;
    while i < n && rest != []
      invariant i <= n && Suffix(rest, t) && ReadsOn(whole, a, s, rest, fill, n - i)
    {
      var amt, left := ReadQuad(a, rest, fill, whole, s, n - i);
      if amt.None? {
        return BadSequence;
      }
      SuffixOfSuffix(left, rest, t);
      s := s + amt.value;
      rest := left;
      i := i + 1;
    }
    NothingMore(whole, a, s, rest, fill, n - i);
    r := Blocks(s, rest);
  }

  /** Any text, read up to n quads: as ReadQuads reads the completed text, and what remains is its end. */
  method ReadBlocks(a: Alphabet, t: string, n: nat, fill: Fill) returns (r: BlockOutcome<string>)
    ensures r.BadSequence? <==> ReadQuads(a, Completed(t, fill), n).BadSequence?
    ensures r.Blocks? ==>
      ReadQuads(a, Completed(t, fill), n) == Blocks(r.bytes, Completed(r.rest, fill)) && Suffix(r.rest, t)
  {
    PrependNothing(ReadQuads(a, Completed(t, fill), n));
    r := ReadLoop(a, t, n, fill, ReadQuads(a, Completed(t, fill), n));
  }

  // ----- Writing: every chunking gives the one-shot text

  lemma {:induction false} WholeOfThree(n: nat)
    ensures Whole(n, 3) <==> n % 3 == 0
  {
    if n >= 3 {
      WholeOfThree(n - 3);
    }
  }

  lemma {:induction false} EncodeBlocksConcat(a: Alphabet, x: seq<byte>, y: seq<byte>)
    requires |x| % 3 == 0
    ensures EncodeBlocks(a, x + y) == EncodeBlocks(a, x) + EncodeBlocks(a, y)
    decreases |x|
  {
    if x == [] {
      assert x + y == y;
    } else {
      assert (x + y)[3..] == x[3..] + y;
      EncodeBlocksConcat(a, x[3..], y);
    }
  }

  lemma EncodeIsBlockwise(a: Alphabet)
    ensures Blockwise(s => EncodeBlocks(a, s), 3)
  {
    var f := s => EncodeBlocks(a, s);
    forall x, y | Whole(|x|, 3) && Whole(|y|, 3) ensures f(x + y) == f(x) + f(y) {
      WholeOfThree(|x|);
      EncodeBlocksConcat(a, x, y);
    }
  }

  /** A base64_encoder given these writes and closed. */
  method StreamEncode(a: Alphabet, writes: seq<seq<byte>>) returns (text: string)
    ensures text == Reference(a, Concat(writes))
  {
    EncodeIsBlockwise(a);
    var encoder := new OutputFacade(3, 3, s => EncodeBlocks(a, s), s => Flush(a, s));
    for i := 0 to |writes|
      invariant encoder.Valid() && encoder.blockSize == 3 && fresh(encoder) && fresh(encoder.buffer)
      invariant encoder.writeBlocks == (s => EncodeBlocks(a, s)) && encoder.closeWithFlush == (s => Flush(a, s))
      invariant encoder.Contents() == Concat(writes[..i])
    {
      ConcatSnoc(writes[..i], writes[i]);
      assert writes[..i + 1] == writes[..i] + [writes[i]];
      var _ := encoder.Write(writes[i]);
    }
    assert writes[..|writes|] == writes;
    encoder.Close();
    WholeOfThree(|encoder.handed|);
    EncodeOfBlocks(a, encoder.handed, encoder.buffer[..encoder.count]);
    EncodeIsReference(a, Concat(writes));
    text := encoder.sink;
  }

  // ----- Reading: what a decoder makes of encoded text

  /** Every quad decodes, and only the last one may be padded. */
  ghost predicate Sound(a: Alphabet, t: QuadText) {
    t != [] ==>
      && DecodeQuad(a, t[..4]).Some?
      && (|t| > 4 ==> |DecodeQuad(a, t[..4]).value| == 3)
      && Sound(a, Tail(t))
  }

  ghost function Contents(a: Alphabet, t: QuadText): seq<byte> {
    Decode(a, t).GetOr([])
  }

  lemma {:induction false} SoundDecodes(a: Alphabet, t: QuadText)
    requires Sound(a, t)
    ensures Decode(a, t).Some?
    ensures t == [] ==> Contents(a, t) == []
    ensures t != [] ==> Contents(a, t) == DecodeQuad(a, t[..4]).value + Contents(a, Tail(t))
    ensures |t| == 4 ==> Contents(a, t) == DecodeQuad(a, t[..4]).value
  {
    if t != [] {
      SoundDecodes(a, Tail(t));
      if |t| == 4 {
        assert Contents(a, Tail(t)) == [];
      }
    }
  }

  lemma {:induction false} ReadQuadsBound(a: Alphabet, t: QuadText, k: nat)
    ensures ReadQuads(a, t, k).Blocks? ==> |ReadQuads(a, t, k).bytes| <= 3 * k
  {
    if k != 0 && t != [] {
      ReadQuadsBound(a, Tail(t), k - 1);
    }
  }

  lemma FrontBack(first: seq<byte>, more: seq<byte>, n: nat, m: nat)
    requires |first| <= n && (|first| == n || more == [])
    ensures Front(first + more, n + m) == first + Front(more, m)
    ensures Back(first + more, n + m) == Back(more, m)
  {
  }

  lemma DeliversMore(a: Alphabet, first: Option<seq<byte>>, left: seq<byte>, more: BlockOutcome<QuadText>, k: nat)
    requires first.Some? && |first.value| <= 3 && (|first.value| == 3 || left == [])
    requires more.Blocks? && more.bytes == Front(left, 3 * k) && Contents(a, more.rest) == Back(left, 3 * k)
    ensures var r := Prepend(first, more);
      && r.Blocks? && r.rest == more.rest
      && r.bytes == Front(first.value + left, 3 * (k + 1))
      && Contents(a, r.rest) == Back(first.value + left, 3 * (k + 1))
  {
    FrontBack(first.value, left, 3, 3 * k);
    assert 3 + 3 * k == 3 * (k + 1);
  }

  lemma {:induction false} ReadQuadsDelivers(a: Alphabet, t: QuadText, k: nat)
    requires Sound(a, t)
    ensures var r := ReadQuads(a, t, k);
      && r.Blocks? && Sound(a, r.rest)
      && r.bytes == Front(Contents(a, t), 3 * k)
      && Contents(a, r.rest) == Back(Contents(a, t), 3 * k)
  {
    SoundDecodes(a, t);
    if k != 0 && t != [] {
      ReadQuadsDelivers(a, Tail(t), k - 1);
      SoundDecodes(a, Tail(t));
      DeliversMore(a, DecodeQuad(a, t[..4]), Contents(a, Tail(t)), ReadQuads(a, Tail(t), k - 1), k - 1);
    }
  }

  lemma DecoderDelivers(a: Alphabet)
    ensures DeliversBlocks((t, k) => ReadQuads(a, t, k), t => Sound(a, t), t => Contents(a, t), 3)
  {
    forall t: QuadText, k: nat
      ensures ReadQuads(a, t, k).Blocks? ==> |ReadQuads(a, t, k).bytes| <= k * 3
    {
      ReadQuadsBound(a, t, k);
    }
    forall t: QuadText, k: nat | Sound(a, t)
      ensures var r := ReadQuads(a, t, k);
        && r.Blocks? && Sound(a, r.rest)
        && r.bytes == Front(Contents(a, t), k * 3)
        && Contents(a, r.rest) == Back(Contents(a, t), k * 3)
    {
      ReadQuadsDelivers(a, t, k);
    }
  }

  lemma SoundFront(a: Alphabet, t: QuadText, first: seq<byte>)
    requires t != [] && DecodeQuad(a, t[..4]) == Some(first) && (|t| == 4 || |first| == 3) && Sound(a, Tail(t))
    ensures Sound(a, t)
  {
  }

  lemma QuadsAreFour(k: nat)
    ensures (4 * k) % 4 == 0
  {
  }

  lemma EncodedText(a: Alphabet, s: seq<byte>)
    ensures |Encode(a, s)| % 4 == 0 && (Encode(a, s) == [] <==> s == [])
  {
    EncodeLength(a, s);
    QuadsAreFour((|s| + 2) / 3);
  }

  lemma EncodeParts(a: Alphabet, s: seq<byte>)
    requires |s| >= 3
    ensures var t := Encode(a, s);
      |t| >= 4 && t[..4] == EncodeGroup(a, Group(s[0], s[1], s[2])) && t[4..] == Encode(a, s[3..])
  {
  }

  lemma {:induction false} EncodedIsSound(a: Alphabet, s: seq<byte>)
    ensures |Encode(a, s)| % 4 == 0 && Sound(a, Encode(a, s))
  {
    EncodedText(a, s);
    var t: QuadText := Encode(a, s);
    if |s| >= 3 {
      EncodedIsSound(a, s[3..]);
      DecodeFullQuad(a, s[0], s[1], s[2]);
      EncodeParts(a, s);
      SoundFront(a, t, [s[0], s[1], s[2]]);
    } else if |s| > 0 {
      DecodeFlush(a, s);
      assert t == Flush(a, s) && t[..4] == t && Tail(t) == [];
      SoundFront(a, t, s);
    }
  }

  lemma EncodedContents(a: Alphabet, s: seq<byte>)
    ensures |Encode(a, s)| % 4 == 0 && Contents(a, Encode(a, s)) == s
  {
    EncodedText(a, s);
    DecodeEncode(a, s);
  }

  // ----- Reading: exactly when no loss and no invention

  function Sum(sizes: seq<nat>): nat {
    if sizes == [] then 0 else Sum(sizes[..|sizes| - 1]) + sizes[|sizes| - 1]
  }

  /** Strictly inside the group of one or two octets that padding stands for. */
  predicate InsideShortGroup(n: nat, position: nat) {
    n % 3 != 0 && n / 3 * 3 < position < n / 3 * 3 + 3
  }

  /** No request ends inside the short group: the caller can tell from the number of octets encoded and the
      sizes requested. */
  ghost predicate CutsBetweenGroups(n: nat, sizes: seq<nat>) {
    sizes == [] || (CutsBetweenGroups(n, sizes[..|sizes| - 1]) && !InsideShortGroup(n, Sum(sizes)))
  }

  lemma {:induction false} MultiplesOfThreeSum(sizes: seq<nat>)
    requires forall j :: 0 <= j < |sizes| ==> sizes[j] % 3 == 0
    ensures Sum(sizes) % 3 == 0
  {
    if sizes != [] {
      MultiplesOfThreeSum(sizes[..|sizes| - 1]);
    }
  }

  /** Reads in multiples of three octets are always safe. */
  lemma {:induction false} MultiplesOfThreeAreSafe(n: nat, sizes: seq<nat>)
    requires forall j :: 0 <= j < |sizes| ==> sizes[j] % 3 == 0
    ensures CutsBetweenGroups(n, sizes)
  {
    if sizes != [] {
      MultiplesOfThreeSum(sizes);
      MultiplesOfThreeAreSafe(n, sizes[..|sizes| - 1]);
    }
  }

  /** Without a short group every sequence of requests is safe. */
  lemma {:induction false} WholeGroupsAreSafe(n: nat, sizes: seq<nat>)
    requires n % 3 == 0
    ensures CutsBetweenGroups(n, sizes)
  {
    if sizes != [] {
      WholeGroupsAreSafe(n, sizes[..|sizes| - 1]);
    }
  }

  /** Where a decoder stands after reading in order: carried octets complete a group, or nothing is left. */
  ghost predicate AtGroup(n: nat, carried: nat, left: nat) {
    && carried < 3
    && carried + left <= n
    && (left == 0 || (n - left) % 3 == 0)
    && (carried != 0 ==> (n - left) % 3 == 0)
  }

  lemma InsideShifts(g: nat, n: nat, position: nat)
    ensures InsideShortGroup(3 * g + n, 3 * g + position) <==> InsideShortGroup(n, position)
  {
    assert (3 * g + n) / 3 == g + n / 3 && (3 * g + n) % 3 == n % 3;
  }

  lemma MeetsAtStart(size: nat, n: nat)
    requires size > 0 && n > 0
    ensures MeetsShortBlock(size, 0, n, 3) <==> InsideShortGroup(n, size)
  {
    assert WholePart(size, 3) == size / 3 * 3;
  }

  /** After in-order reading up to position (capped at n), the next request meets the short group exactly
      when it ends strictly inside it. */
  lemma MeetsWhenInside(n: nat, carried: nat, left: nat, position: nat, size: nat)
    requires AtGroup(n, carried, left) && !InsideShortGroup(n, position)
    requires carried + left == if position <= n then n - position else 0
    ensures MeetsShortBlock(size, carried, left, 3) <==> InsideShortGroup(n, position + size)
  {
    if left == 0 {
      assert !MeetsShortBlock(size, carried, left, 3);
    } else {
      var g := (n - left) / 3;
      assert n == 3 * g + left && n / 3 * 3 >= 3 * g;
      if size > carried {
        assert position + size == 3 * g + (size - carried);
        InsideShifts(g, left, size - carried);
        MeetsAtStart(size - carried, left);
      }
    }
  }

  lemma AtGroupAfter(n: nat, carried: nat, left: seq<byte>, size: nat, after: nat)
    requires AtGroup(n, carried, |left|) && !MeetsShortBlock(size, carried, |left|, 3)
    requires var more := |AfterRequest(carried, left, size, 3)|;
      after + more == if size <= carried + |left| then carried + |left| - size else 0
    ensures AtGroup(n, after, |AfterRequest(carried, left, size, 3)|)
  {
    if size > carried {
      assert WholePart(size - carried, 3) == (size - carried) / 3 * 3;
    }
  }

  /** The octets in a short group completed. */
  function Rounded(n: nat): nat {
    n / 3 * 3 + 3
  }

  /** A short group and the filler make a whole one, and then nothing is left. */
  lemma FillerAtGroup(n: nat, carried: nat, left: seq<byte>, size: nat)
    requires AtGroup(n, carried, |left|) && MeetsShortBlock(size, carried, |left|, 3)
    ensures n % 3 != 0 && n + Filler(size, carried, |left|, 3) == Rounded(n)
    ensures AfterRequest(carried, left, size, 3) == []
  {
    var q := WholePart(size - carried, 3);
    assert q == (size - carried) / 3 * 3;
    var g := (n - |left|) / 3;
    assert n == 3 * g + |left| && q == |left| / 3 * 3;
    assert n / 3 * 3 == 3 * g + q;
  }

  function Min(m: nat, n: nat): nat {
    if m < n then m else n
  }

  /** What the requests can get out of a decoder: the octets encoded, and once a request has ended inside the
      short group also the filler. */
  function Total(n: nat, inStep: bool): nat {
    if inStep then n else Rounded(n)
  }

  /** A decoder that has been asked for position octets of data: what it has returned and what remains are
      the data, followed by the filler once it is out of step. */
  ghost predicate Decoded(data: seq<byte>, position: nat, inStep: bool, bytes: seq<byte>, carried: nat, left: seq<byte>,
                          remaining: seq<byte>) {
    && |remaining| == carried + |left|
    && data <= bytes + remaining
    && |bytes| + |remaining| == Total(|data|, inStep)
    && |bytes| == Min(position, Total(|data|, inStep))
    && (if inStep then AtGroup(|data|, carried, |left|) && !InsideShortGroup(|data|, position)
        else left == [] && |data| % 3 != 0)
  }

  lemma DecodedAtStart(data: seq<byte>)
    ensures Decoded(data, 0, true, [], 0, data, data)
  {
  }

  lemma DecodedAtEnd(data: seq<byte>, position: nat, inStep: bool, bytes: seq<byte>, carried: nat, left: seq<byte>,
                     remaining: seq<byte>)
    requires Decoded(data, position, inStep, bytes, carried, left, remaining)
    ensures |bytes| == Min(position, Total(|data|, inStep)) && Front(bytes, |data|) == Front(data, position)
    ensures bytes == Front(data, position) <==> inStep || position <= |data|
    ensures position <= |data| ==> bytes == data[..position]
    ensures position >= |data| ==> |bytes| >= |data| && bytes[..|data|] == data
  {
    var all := bytes + remaining;
    assert all[..|data|] == data;
    assert all[..|bytes|] == bytes;
  }

  lemma SumSnoc(n: nat, asked: seq<nat>, size: nat)
    ensures Sum(asked + [size]) == Sum(asked) + size
    ensures CutsBetweenGroups(n, asked + [size]) <==>
            CutsBetweenGroups(n, asked) && !InsideShortGroup(n, Sum(asked) + size)
  {
    assert (asked + [size])[..|asked|] == asked;
  }

  lemma DecodedAfter(data: seq<byte>, position: nat, inStep: bool, bytes: seq<byte>, carried: nat, left: seq<byte>,
                     remaining: seq<byte>, size: nat, position': nat, inStep': bool, returned: seq<byte>,
                     carried': nat, left': seq<byte>, remaining': seq<byte>)
    requires position' == position + size && inStep' == (inStep && !InsideShortGroup(|data|, position'))
    requires Decoded(data, position, inStep, bytes, carried, left, remaining)
    requires Accounts(remaining, carried, size, 3, returned, remaining')
    requires left' == AfterRequest(carried, left, size, 3) && |remaining'| == carried' + |left'|
    ensures Decoded(data, position', inStep', bytes + returned, carried', left', remaining')
  {
    assert bytes + returned + remaining' == bytes + (returned + remaining');
    if inStep {
      MeetsWhenInside(|data|, carried, |left|, position, size);
      if inStep' {
        AtGroupAfter(|data|, carried, left, size, carried');
      } else {
        FillerAtGroup(|data|, carried, left, size);
      }
    }
  }

  method Decoder(a: Alphabet, ghost data: seq<byte>, text: QuadText) returns (decoder: InputFacade<QuadText>)
    requires text == Encode(a, data)
    ensures fresh(decoder) && fresh(decoder.buffer) && decoder.Valid() && decoder.blockSize == 3
    ensures decoder.sound(decoder.source) && decoder.count == 0 && decoder.contents(decoder.source) == data
    ensures decoder.Remaining() == data
  {
    DecoderDelivers(a);
    EncodedIsSound(a, data);
    EncodedContents(a, data);
    decoder := new InputFacade(3, 3, (t, k) => ReadQuads(a, t, k), text, t => Sound(a, t), t => Contents(a, t));
    assert decoder.Remaining() == [] + data;
  }

  /** A decoder over encoded data that has been asked for requests of these sizes and has returned bytes. */
  ghost predicate InUse(decoder: InputFacade<QuadText>, data: seq<byte>, asked: seq<nat>, bytes: seq<byte>)
    reads decoder, decoder.buffer
  {
    && decoder.Valid() && decoder.blockSize == 3 && decoder.sound(decoder.source)
    && Decoded(data, Sum(asked), CutsBetweenGroups(|data|, asked), bytes, decoder.count,
               decoder.contents(decoder.source), decoder.Remaining())
  }

  lemma DecodedNext(data: seq<byte>, asked: seq<nat>, bytes: seq<byte>, carried: nat, left: seq<byte>,
                    remaining: seq<byte>, size: nat, returned: seq<byte>, carried': nat, left': seq<byte>,
                    remaining': seq<byte>)
    requires Decoded(data, Sum(asked), CutsBetweenGroups(|data|, asked), bytes, carried, left, remaining)
    requires Accounts(remaining, carried, size, 3, returned, remaining')
    requires left' == AfterRequest(carried, left, size, 3) && |remaining'| == carried' + |left'|
    ensures Decoded(data, Sum(asked + [size]), CutsBetweenGroups(|data|, asked + [size]), bytes + returned, carried',
                    left', remaining')
  {
    SumSnoc(|data|, asked, size);
    DecodedAfter(data, Sum(asked), CutsBetweenGroups(|data|, asked), bytes, carried, left, remaining, size,
                 Sum(asked + [size]), CutsBetweenGroups(|data|, asked + [size]), returned, carried', left', remaining');
  }

  method ReadNext(decoder: InputFacade<QuadText>, ghost data: seq<byte>, ghost asked: seq<nat>, before: seq<byte>,
                  size: nat) returns (bytes: seq<byte>)
    requires InUse(decoder, data, asked, before)
    modifies decoder, decoder.buffer
    ensures InUse(decoder, data, asked + [size], bytes)
  {
    ghost var carried, left, remaining := decoder.count, decoder.contents(decoder.source), decoder.Remaining();
    var r := decoder.Read(size);
    bytes := before + Returned(r);
    DecodedNext(data, asked, before, carried, left, remaining, size,
                Returned(r), decoder.count, decoder.contents(decoder.source), decoder.Remaining());
  }

  /** A base64_decoder over encoded data, read in requests of these sizes: the octets come back in order,
      each once. Nothing else is returned exactly when no request ends inside the short group, or the
      requests stop before the end of the data. */
  method StreamDecode(a: Alphabet, ghost data: seq<byte>, text: QuadText, sizes: seq<nat>) returns (bytes: seq<byte>)
    requires text == Encode(a, data)
    ensures Sum(sizes) <= |data| ==> bytes == data[..Sum(sizes)]
    ensures Sum(sizes) >= |data| ==> |bytes| >= |data| && bytes[..|data|] == data
    ensures |bytes| == Min(Sum(sizes), Total(|data|, CutsBetweenGroups(|data|, sizes)))
    ensures Front(bytes, |data|) == Front(data, Sum(sizes))
    ensures bytes == Front(data, Sum(sizes)) <==> CutsBetweenGroups(|data|, sizes) || Sum(sizes) <= |data|
  {
    var decoder := Decoder(a, data, text);
    bytes := [];
    DecodedAtStart(data);
    assert sizes[..0] == [];
    for i := 0 to |sizes|
      invariant fresh(decoder) && fresh(decoder.buffer) && InUse(decoder, data, sizes[..i], bytes)
    {
      assert sizes[..i + 1] == sizes[..i] + [sizes[i]];
      bytes := ReadNext(decoder, data, sizes[..i], bytes, sizes[i]);
    }
    assert sizes[..|sizes|] == sizes;
    DecodedAtEnd(data, Sum(sizes), CutsBetweenGroups(|data|, sizes), bytes, decoder.count,
                 decoder.contents(decoder.source), decoder.Remaining());
  }

  /** Writing, encoding, decoding and reading return the octets written, whatever the writes, exactly when no
      request ends inside a short last group or the requests stop before the end. */
  method RoundTrip(a: Alphabet, writes: seq<seq<byte>>, sizes: seq<nat>) returns (bytes: seq<byte>)
    ensures var data := Concat(writes); Sum(sizes) <= |data| ==> bytes == data[..Sum(sizes)]
    ensures var data := Concat(writes);
      Sum(sizes) > |data| ==> (bytes == data <==> CutsBetweenGroups(|data|, sizes))
  {
    var text := StreamEncode(a, writes);
    EncodeIsReference(a, Concat(writes));
    EncodedText(a, Concat(writes));
    bytes := StreamDecode(a, Concat(writes), text, sizes);
  }

  /** The shortest failing run: one octet encoded, two requested, two returned. */
  method OneOctetReadAsTwo(a: Alphabet, x: byte) returns (bytes: seq<byte>)
    ensures |bytes| == 2 && bytes[0] == x && bytes != [x]
  {
    assert [2][..0] == [] && Sum([2]) == 2 && Front([x], 2) == [x];
    var text := StreamEncode(a, [[x]]);
    EncodeIsReference(a, [x]);
    EncodedText(a, [x]);
    assert Concat([[x]]) == [x];
    bytes := StreamDecode(a, [x], text, [2]);
    assert Front(bytes, 1)[0] == bytes[0];
  }
}
