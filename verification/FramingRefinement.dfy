/** The octet-driven machine of FrameReceiver refines "parse the frames, unmask, concatenate". */
module FramingRefinement {
  import opened Bytes
  import opened FrameReceiver
  import Wire = WebSocketWire

  // ----- What should be delivered

  /** The frames the machine acts on: continuation, text or binary, from a masking client. */
  predicate Acceptable(f: Wire.Frame) {
    f.opcode <= 2 && f.maskingKey.Some? && |f.maskingKey.value| == 4
  }

  /** The frames before the first one the machine refuses. */
  function Accepted(frames: seq<Wire.Frame>): (r: seq<Wire.Frame>)
    ensures r <= frames
    ensures forall i :: 0 <= i < |r| ==> r[i].opcode in {0, 1, 2} && r[i].maskingKey.Some?
    ensures |r| < |frames| ==>
      var f := frames[|r|]; f.opcode > 2 || f.maskingKey.None? || |f.maskingKey.value| != 4
  {
    if frames == [] || !Acceptable(frames[0]) then [] else [frames[0]] + Accepted(frames[1..])
  }

  /** The message under assembly after frame f: a non-zero opcode starts afresh. */
  function Assembled(inbound: seq<byte>, f: Wire.Frame): seq<byte> {
    (if f.opcode != 0 then [] else inbound) + f.payload
  }

  /** At each FIN frame, and only there, the payloads since the latest non-zero opcode. */
  function Deliveries(inbound: seq<byte>, frames: seq<Wire.Frame>): seq<seq<byte>>
    decreases frames
  {
    if frames == [] then
      []
    else
      var message := Assembled(inbound, frames[0]);
      (if frames[0].fin then [message] else []) + Deliveries(message, frames[1..])
  }

  /** An unsupported opcode shows in the first octet, a missing mask in the second. */
  predicate RefusesStart(s: seq<byte>) {
    (|s| >= 1 && s[0] % 16 > 2) || (|s| >= 2 && s[1] < 128)
  }

  // ----- One frame

  function AfterHead(r: Receiver, first: byte, second: byte): Receiver {
    var head := r.(opcode := first, masked := true);
    match Wire.FormOf(second % 128)
    case Bits7 => head.(state := MASKING_KEY, payloadLength := second % 128, request := Some(4))
    case Bits16 => head.(state := LENGTH_X1, request := Some(2))
    case Bits64 => head.(state := LENGTH_X2, request := Some(8))
  }

  function AtKey(r: Receiver, first: byte, n: nat): Receiver {
    r.(opcode := first, masked := true, state := MASKING_KEY, payloadLength := n, request := Some(4))
  }

  function AtPayload(r: Receiver, first: byte, n: nat, key: seq<byte>): Receiver {
    AtKey(r, first, n).(mask := key, state := PAYLOAD, request := Some(n))
  }

  ghost predicate Fresh(r: Receiver) {
    r.AwaitsFrame() && r.buffer == []
  }

  /** The outstanding request, filled by x, is one step. */
  lemma OneRead(r: Receiver, x: seq<byte>, t: seq<byte>)
    requires r.Valid() && r.request == Some(|x|) && r.buffer == []
    ensures Step(r.(buffer := x)).Valid() && Step(r.(buffer := x)).buffer == []
    ensures Run(r, x + t) == Run(Step(r.(buffer := x)), t)
  {
    RunFront(r, x, t);
    assert [] + x == x;
    StepIsLocal(r, x, []);
  }

  lemma StepAtStart(r: Receiver, first: byte)
    requires r.Valid() && r.state == START && r.request.Some? && r.buffer == []
    ensures Step(r.(buffer := [first])) ==
            if first % 16 > 2 then r.(opcode := first, request := None) else r.(opcode := first, state := LENGTH)
  {
  }

  lemma StepAtLength(r: Receiver, first: byte, second: byte)
    requires Fresh(r)
    ensures Step(r.(opcode := first, state := LENGTH, buffer := [second])) ==
            if second < 128 then r.(opcode := first, state := LENGTH, masked := false, request := None)
            else AfterHead(r, first, second)
  {
  }

  lemma FirstOctetRead(r: Receiver, s: seq<byte>)
    requires Fresh(r) && |s| >= 1
    ensures s[0] % 16 > 2 ==> Run(r, s) == (r.(opcode := s[0], request := None), s[1..])
    ensures s[0] % 16 <= 2 ==> Run(r, s) == Run(r.(opcode := s[0], state := LENGTH), s[1..])
  {
    assert s == s[..1] + s[1..] && s[..1] == [s[0]];
    OneRead(r, [s[0]], s[1..]);
    StepAtStart(r, s[0]);
  }

  lemma TakenOff(s: seq<byte>, i: nat, x: seq<byte>)
    requires i + |x| <= |s| && x == s[i..i + |x|]
    ensures s[i..] == x + s[i + |x|..]
  {
  }

  lemma SecondOctetRead(r: Receiver, first: byte, second: byte, t: seq<byte>)
    requires Fresh(r) && first % 16 <= 2
    ensures var run := Run(r.(opcode := first, state := LENGTH), [second] + t);
      if second < 128 then run == (r.(opcode := first, state := LENGTH, masked := false, request := None), t)
      else AfterHead(r, first, second).Valid() && run == Run(AfterHead(r, first, second), t)
  {
    OneRead(r.(opcode := first, state := LENGTH), [second], t);
    StepAtLength(r, first, second);
  }

  lemma HeadRead(r: Receiver, s: seq<byte>)
    requires Fresh(r) && |s| >= 2 && s[0] % 16 <= 2
    ensures s[1] < 128 ==> Run(r, s) == (r.(opcode := s[0], state := LENGTH, masked := false, request := None), s[2..])
    ensures s[1] >= 128 ==> AfterHead(r, s[0], s[1]).Valid()
    ensures s[1] >= 128 ==> Run(r, s) == Run(AfterHead(r, s[0], s[1]), s[2..])
  {
    FirstOctetRead(r, s);
    TakenOff(s, 1, [s[1]]);
    SecondOctetRead(r, s[0], s[1], s[2..]);
  }

  /** The run from r on s goes on as the run from next on t. */
  ghost predicate GoesOn(r: Receiver, s: seq<byte>, next: Receiver, t: seq<byte>)
    requires r.Valid()
  {
    next.Valid() && next.buffer == [] && Run(r, s) == Run(next, t)
  }

  /** The request at position i of a stream is filled by x, the octets there. */
  lemma ReadOn(r: Receiver, s: seq<byte>, at: Receiver, i: nat, x: seq<byte>, after: Receiver)
    requires r.Valid() && i + |x| <= |s| && x == s[i..i + |x|] && GoesOn(r, s, at, s[i..])
    requires at.request == Some(|x|) && Step(at.(buffer := x)) == after
    ensures GoesOn(r, s, after, s[i + |x|..])
  {
    TakenOff(s, i, x);
    OneRead(at, x, s[i + |x|..]);
  }

  lemma StepAtExtendedLength(r: Receiver, first: byte, second: byte, x: seq<byte>)
    requires Fresh(r) && second >= 128 && |x| == Wire.KeyStart(second) - 2 > 0
    ensures AfterHead(r, first, second).request == Some(|x|)
    ensures Step(AfterHead(r, first, second).(buffer := x)) == AtKey(r, first, BigEndianValue(x))
  {
    assert Got(x, |x|) == x;
  }

  lemma LengthRead(r: Receiver, s: seq<byte>, k: nat, n: nat)
    requires Fresh(r) && |s| >= 2 && s[0] % 16 <= 2 && s[1] >= 128
    requires k == Wire.KeyStart(s[1]) && |s| >= k && n == Wire.PayloadLength(s)
    ensures GoesOn(r, s, AtKey(r, s[0], n), s[k..])
  {
    HeadRead(r, s);
    if k > 2 {
      StepAtExtendedLength(r, s[0], s[1], s[2..k]);
      ReadOn(r, s, AfterHead(r, s[0], s[1]), 2, s[2..k], AtKey(r, s[0], n));
    }
  }

  lemma StepAtKey(r: Receiver, first: byte, n: nat, key: seq<byte>)
    requires Fresh(r) && |key| == 4
    ensures Step(AtKey(r, first, n).(buffer := key)) == AtPayload(r, first, n, key)
  {
    assert Got(key, 4) == key;
  }

  lemma KeyReadAt(r: Receiver, s: seq<byte>, k: nat, n: nat, key: seq<byte>)
    requires Fresh(r) && |s| >= 2 && |key| == 4 && |s| >= k + |key| && key == s[k..k + |key|]
    requires GoesOn(r, s, AtKey(r, s[0], n), s[k..])
    ensures GoesOn(r, s, AtPayload(r, s[0], n, key), s[k + |key|..])
  {
    StepAtKey(r, s[0], n, key);
    ReadOn(r, s, AtKey(r, s[0], n), k, key, AtPayload(r, s[0], n, key));
  }

  lemma KeyRead(r: Receiver, s: seq<byte>, k: nat, n: nat)
    requires Fresh(r) && |s| >= 2 && s[0] % 16 <= 2 && s[1] >= 128
    requires k == Wire.KeyStart(s[1]) && |s| >= k + 4 && n == Wire.PayloadLength(s)
    ensures GoesOn(r, s, AtPayload(r, s[0], n, s[k..k + 4]), s[k + 4..])
  {
    LengthRead(r, s, k, n);
    KeyReadAt(r, s, k, n, s[k..k + 4]);
  }

  /** The machine after frame f: ready for the next one, with f's payload on the message. */
  function AfterFrame(r: Receiver, first: byte, key: seq<byte>, f: Wire.Frame): Receiver {
    var message := Assembled(r.inbound, f);
    AtPayload(r, first, |f.payload|, key).(
      state := START, inbound := message, request := Some(1),
      delivered := r.delivered + if f.fin then [message] else [])
  }

  lemma StepAtPayload(r: Receiver, first: byte, key: seq<byte>, octets: seq<byte>, f: Wire.Frame)
    requires Fresh(r) && |key| == 4
    requires f.opcode == first % 16 && (f.fin <==> first >= 128) && f.payload == Wire.Masked(octets, key)
    ensures Step(AtPayload(r, first, |octets|, key).(buffer := octets)) == AfterFrame(r, first, key, f)
  {
    assert Got(octets, |octets|) == octets;
    StepFromPayload(AtPayload(r, first, |octets|, key).(buffer := octets));
  }

  lemma PayloadRead(r: Receiver, s: seq<byte>, p: nat, key: seq<byte>, octets: seq<byte>, f: Wire.Frame)
    requires Fresh(r) && |s| >= 2 && |key| == 4 && |s| >= p + |octets| && octets == s[p..p + |octets|]
    requires GoesOn(r, s, AtPayload(r, s[0], |octets|, key), s[p..])
    requires f.opcode == s[0] % 16 && (f.fin <==> s[0] >= 128) && f.payload == Wire.Masked(octets, key)
    ensures GoesOn(r, s, AfterFrame(r, s[0], key, f), s[p + |octets|..])
  {
    StepAtPayload(r, s[0], key, octets, f);
    ReadOn(r, s, AtPayload(r, s[0], |octets|, key), p, octets, AfterFrame(r, s[0], key, f));
  }

  lemma FrameReadWith(r: Receiver, s: seq<byte>, p: nat, key: seq<byte>, octets: seq<byte>, f: Wire.Frame)
      returns (next: Receiver)
    requires Fresh(r) && |s| >= 2 && |key| == 4 && |s| >= p + |octets| && octets == s[p..p + |octets|]
    requires GoesOn(r, s, AtPayload(r, s[0], |octets|, key), s[p..])
    requires f.opcode == s[0] % 16 && (f.fin <==> s[0] >= 128) && f.payload == Wire.Masked(octets, key)
    ensures Fresh(next) && GoesOn(r, s, next, s[p + |octets|..])
    ensures next.inbound == Assembled(r.inbound, f)
    ensures next.delivered == r.delivered + if f.fin then [next.inbound] else []
  {
    next := AfterFrame(r, s[0], key, f);
    PayloadRead(r, s, p, key, octets, f);
  }

  /** Where the parts of the first frame are. */
  ghost predicate Layout(s: seq<byte>, k: nat, key: seq<byte>, octets: seq<byte>) {
    && |s| >= 2 && k == Wire.KeyStart(s[1]) && |key| == 4 && |s| >= k + 4 + |octets|
    && |octets| == Wire.PayloadLength(s) && key == s[k..k + 4] && octets == s[k + 4..k + 4 + |octets|]
  }

  lemma ParsePlaces(s: seq<byte>) returns (k: nat, n: nat)
    requires Wire.Parse(s).Parsed? && s[1] >= 128
    ensures k == Wire.KeyStart(s[1]) && k + 4 == Wire.PayloadStart(s[1]) && n == Wire.PayloadLength(s)
    ensures |s| >= k + 4 + n && Wire.Parse(s).rest == s[k + 4 + n..]
  {
    k, n := Wire.KeyStart(s[1]), Wire.PayloadLength(s);
  }

  lemma ParseFields(s: seq<byte>, k: nat, n: nat)
    requires Wire.Parse(s).Parsed? && s[1] >= 128
    requires k + 4 == Wire.PayloadStart(s[1]) && n == Wire.PayloadLength(s) && |s| >= k + 4 + n
    ensures var f := Wire.Parse(s).frame;
      && f.opcode == s[0] % 16 && (f.fin <==> s[0] >= 128)
      && f.payload == Wire.Masked(s[k + 4..k + 4 + n], s[k..k + 4])
  {
  }

  lemma ParseLayout(s: seq<byte>) returns (k: nat, key: seq<byte>, octets: seq<byte>)
    requires Wire.Parse(s).Parsed? && s[1] >= 128
    ensures Layout(s, k, key, octets) && Wire.Parse(s).rest == s[k + 4 + |octets|..]
    ensures var f := Wire.Parse(s).frame;
      f.opcode == s[0] % 16 && (f.fin <==> s[0] >= 128) && f.payload == Wire.Masked(octets, key)
  {
    var n;
    k, n := ParsePlaces(s);
    ParseFields(s, k, n);
    key, octets := s[k..k + 4], s[k + 4..k + 4 + n];
  }

  lemma LayoutRead(r: Receiver, s: seq<byte>, k: nat, key: seq<byte>, octets: seq<byte>)
    requires Fresh(r) && Layout(s, k, key, octets) && s[0] % 16 <= 2 && s[1] >= 128
    ensures GoesOn(r, s, AtPayload(r, s[0], |octets|, key), s[k + 4..])
  {
    KeyRead(r, s, k, |octets|);
  }

  lemma LayoutOctets(s: seq<byte>, k: nat, key: seq<byte>, octets: seq<byte>, p: nat)
    requires Layout(s, k, key, octets) && p == k + 4
    ensures |key| == 4 && |s| >= 2 && |s| >= p + |octets| && octets == s[p..p + |octets|]
  {
  }

  /** A complete frame that need not be refused is read in full. */
  lemma FrameRead(r: Receiver, s: seq<byte>) returns (next: Receiver)
    requires Fresh(r) && Wire.Parse(s).Parsed? && s[0] % 16 <= 2 && s[1] >= 128
    ensures Fresh(next) && GoesOn(r, s, next, Wire.Parse(s).rest)
    ensures next.inbound == Assembled(r.inbound, Wire.Parse(s).frame)
    ensures next.delivered == r.delivered + if Wire.Parse(s).frame.fin then [next.inbound] else []
  {
    var k, key, octets := ParseLayout(s);
    LayoutRead(r, s, k, key, octets);
    LayoutOctets(s, k, key, octets, k + 4);
    next := FrameReadWith(r, s, k + 4, key, octets, Wire.Parse(s).frame);
  }

  lemma RunWaits(r: Receiver, s: seq<byte>)
    requires r.Valid() && (r.request.None? || |s| < r.request.value)
    ensures Run(r, s) == (r, s)
  {
  }

  /** A frame that goes on as it has to, but is not there in full. */
  lemma IncompleteRead(r: Receiver, s: seq<byte>)
    requires Fresh(r) && |s| >= 2 && s[0] % 16 <= 2 && s[1] >= 128 && Wire.Parse(s).Incomplete?
    ensures Run(r, s).0.delivered == r.delivered && Run(r, s).0.request.Some?
  {
    var k := Wire.KeyStart(s[1]);
    if |s| < k {
      HeadRead(r, s);
      RunWaits(AfterHead(r, s[0], s[1]), s[2..]);
    } else {
      var n := Wire.PayloadLength(s);
      if |s| < k + 4 {
        LengthRead(r, s, k, n);
        RunWaits(AtKey(r, s[0], n), s[k..]);
      } else {
        KeyRead(r, s, k, n);
        RunWaits(AtPayload(r, s[0], n, s[k..k + 4]), s[k + 4..]);
      }
    }
  }

  lemma NoFrameRead(r: Receiver, s: seq<byte>)
    requires Fresh(r) && (Wire.Parse(s).Incomplete? || RefusesStart(s))
    ensures Run(r, s).0.delivered == r.delivered
    ensures Run(r, s).0.request.None? <==> RefusesStart(s)
  {
    if s == [] {
      RunWaits(r, s);
    } else if s[0] % 16 > 2 {
      FirstOctetRead(r, s);
    } else if |s| == 1 {
      FirstOctetRead(r, s);
      RunWaits(r.(opcode := s[0], state := LENGTH), s[1..]);
    } else if s[1] < 128 {
      HeadRead(r, s);
    } else {
      IncompleteRead(r, s);
    }
  }

  // ----- Every stream

  /** A complete frame at the front of s is acceptable exactly when its first two octets are. */
  lemma AcceptableFront(s: seq<byte>)
    requires Wire.Parse(s).Parsed?
    ensures Acceptable(Wire.Parse(s).frame) <==> !RefusesStart(s)
  {
  }

  lemma ParseAllFront(s: seq<byte>)
    requires Wire.Parse(s).Parsed?
    ensures var Parsed(f, rest) := Wire.Parse(s);
      && |rest| < |s|
      && Wire.ParseAll(s) == ([f] + Wire.ParseAll(rest).0, Wire.ParseAll(rest).1)
      && Accepted(Wire.ParseAll(s).0) == if Acceptable(f) then [f] + Accepted(Wire.ParseAll(rest).0) else []
  {
    Wire.ParseShrinks(s);
    var Parsed(f, rest) := Wire.Parse(s);
    assert ([f] + Wire.ParseAll(rest).0)[1..] == Wire.ParseAll(rest).0;
  }

  lemma DeliveriesFront(inbound: seq<byte>, f: Wire.Frame, frames: seq<Wire.Frame>)
    ensures Deliveries(inbound, [f] + frames) ==
            (if f.fin then [Assembled(inbound, f)] else []) + Deliveries(Assembled(inbound, f), frames)
  {
    assert ([f] + frames)[1..] == frames;
  }

  /** The deliveries of a run are those its acceptable frames spell out, and it stops reading exactly
      when a frame, or the start of one, has to be refused. */
  ghost predicate RefinesParse(r: Receiver, end: Receiver, frames: seq<Wire.Frame>, tail: seq<byte>) {
    && end.delivered == r.delivered + Deliveries(r.inbound, Accepted(frames))
    && (end.request.None? <==> |Accepted(frames)| < |frames| || RefusesStart(tail))
  }

  lemma RefinesCons(r: Receiver, next: Receiver, end: Receiver, f: Wire.Frame, frames: seq<Wire.Frame>,
                    tail: seq<byte>)
    requires Acceptable(f) && RefinesParse(next, end, frames, tail)
    requires next.inbound == Assembled(r.inbound, f)
    requires next.delivered == r.delivered + if f.fin then [next.inbound] else []
    ensures RefinesParse(r, end, [f] + frames, tail)
  {
    DeliveriesFront(r.inbound, f, Accepted(frames));
    assert ([f] + frames)[1..] == frames;
  }

  lemma RefinesFront(r: Receiver, s: seq<byte>, next: Receiver, end: Receiver)
    requires Wire.Parse(s).Parsed? && !RefusesStart(s)
    requires var f := Wire.Parse(s).frame;
      && next.inbound == Assembled(r.inbound, f)
      && next.delivered == r.delivered + if f.fin then [next.inbound] else []
    requires var (frames, tail) := Wire.ParseAll(Wire.Parse(s).rest); RefinesParse(next, end, frames, tail)
    ensures var (frames, tail) := Wire.ParseAll(s); RefinesParse(r, end, frames, tail)
  {
    AcceptableFront(s);
    ParseAllFront(s);
    var (frames, tail) := Wire.ParseAll(Wire.Parse(s).rest);
    RefinesCons(r, next, end, Wire.Parse(s).frame, frames, tail);
  }

  lemma RefinesNone(r: Receiver, s: seq<byte>)
    requires Fresh(r) && (Wire.Parse(s).Incomplete? || RefusesStart(s))
    ensures var (frames, tail) := Wire.ParseAll(s); RefinesParse(r, Run(r, s).0, frames, tail)
  {
    NoFrameRead(r, s);
    if Wire.Parse(s).Parsed? {
      AcceptableFront(s);
      ParseAllFront(s);
    }
  }

  /** On every octet string the machine refines the one-shot parser. */
  lemma {:induction false} RunRefinesParse(r: Receiver, s: seq<byte>)
    requires Fresh(r)
    ensures var (frames, tail) := Wire.ParseAll(s); RefinesParse(r, Run(r, s).0, frames, tail)
    decreases |s|
  {
    if Wire.Parse(s).Incomplete? || RefusesStart(s) {
      RefinesNone(r, s);
    } else {
      Wire.ParseShrinks(s);
      var next := FrameRead(r, s);
      RunRefinesParse(next, Wire.Parse(s).rest);
      RefinesFront(r, s, next, Run(r, s).0);
    }
  }

  /** The same from a connection whose handshake left octets in the stream buffer: the stream that
      counts is the residue followed by what arrives, and the last |residue| octets wait. */
  lemma DeliveriesWithResidue(r: Receiver, s: seq<byte>)
    requires r.AwaitsFrame()
    ensures var end := Run(r, s).0; var (frames, tail) := Wire.ParseAll((r.buffer + s)[..|s|]);
      RefinesParse(r, end, frames, tail) && |end.buffer| == |r.buffer|
  {
    RunWithResidue(r, s);
    RunRefinesParse(r.(buffer := []), (r.buffer + s)[..|s|]);
  }

  lemma {:induction false} AllAccepted(frames: seq<Wire.Frame>)
    requires forall f :: f in frames ==> Acceptable(f)
    ensures Accepted(frames) == frames
  {
    if frames != [] {
      AllAccepted(frames[1..]);
      assert [frames[0]] + frames[1..] == frames;
    }
  }

  /** Every sequence of masked data frames, with any length form that fits, is delivered, and the
      connection keeps reading. */
  lemma SerialisedFramesDelivered(r: Receiver, frames: seq<Wire.Frame>)
    requires Fresh(r)
    requires forall f :: f in frames ==> Wire.Valid(f) && f.opcode in {0, 1, 2} && f.maskingKey.Some?
    ensures var end := Run(r, Wire.SerialiseAll(frames)).0;
      end.delivered == r.delivered + Deliveries(r.inbound, frames) && end.request.Some?
  {
    var s := Wire.SerialiseAll(frames);
    Wire.ParseAllSerialiseAll(frames, []);
    assert s + [] == s;
    AllAccepted(frames);
    RunRefinesParse(r, s);
  }

  // ----- Section 5.4: fragmentation

  ghost function Payloads(fs: seq<Wire.Frame>): seq<byte> {
    Concat(seq(|fs|, i requires 0 <= i < |fs| => fs[i].payload))
  }

  /** fs is a message cut into fragments: an initial text or binary frame, then continuations, with FIN
      on the last frame only. */
  ghost predicate IsFragmentation(fs: seq<Wire.Frame>, message: seq<byte>) {
    && fs != []
    && fs[0].opcode in {1, 2}
    && (forall i :: 0 < i < |fs| ==> fs[i].opcode == 0)
    && (forall i :: 0 <= i < |fs| ==> (fs[i].fin <==> i == |fs| - 1))
    && message == Payloads(fs)
  }

  lemma PayloadsFront(f: Wire.Frame, fs: seq<Wire.Frame>)
    ensures Payloads([f] + fs) == f.payload + Payloads(fs)
  {
    var all := [f] + fs;
    var parts := seq(|all|, i requires 0 <= i < |all| => all[i].payload);
    assert parts[1..] == seq(|fs|, i requires 0 <= i < |fs| => fs[i].payload);
  }

  lemma {:induction false} ContinuationsDelivered(inbound: seq<byte>, fs: seq<Wire.Frame>, rest: seq<Wire.Frame>)
    requires fs != [] && forall i :: 0 < i < |fs| ==> fs[i].opcode == 0
    requires forall i :: 0 <= i < |fs| ==> (fs[i].fin <==> i == |fs| - 1)
    ensures var message := (if fs[0].opcode != 0 then [] else inbound) + Payloads(fs);
      Deliveries(inbound, fs + rest) == [message] + Deliveries(message, rest)
    decreases |fs|
  {
    var f := fs[0];
    assert fs == [f] + fs[1..];
    assert fs + rest == [f] + (fs[1..] + rest);
    PayloadsFront(f, fs[1..]);
    DeliveriesFront(inbound, f, fs[1..] + rest);
    if |fs| == 1 {
      assert fs[1..] + rest == rest;
      assert fs[0].fin && fs[1..] == [] && f.payload + Payloads([]) == f.payload;
    } else {
      assert fs[0].fin <==> 0 == |fs| - 1;
      forall i | 0 <= i < |fs[1..]| ensures fs[1..][i].fin <==> i == |fs[1..]| - 1 {
        assert fs[i + 1].fin <==> i + 1 == |fs| - 1;
      }
      ContinuationsDelivered(Assembled(inbound, f), fs[1..], rest);
      var start := if f.opcode != 0 then [] else inbound;
      assert start + f.payload + Payloads(fs[1..]) == start + (f.payload + Payloads(fs[1..]));
      assert !f.fin && fs[1..][0].opcode == 0;
    }
  }

  /** Messages of section 5.4, each fragmented in any way, arrive as those messages in order. */
  lemma {:induction false} FragmentedMessagesDelivered(inbound: seq<byte>, fragments: seq<seq<Wire.Frame>>,
                                                       messages: seq<seq<byte>>)
    requires |fragments| == |messages|
    requires forall i :: 0 <= i < |fragments| ==> IsFragmentation(fragments[i], messages[i])
    ensures Deliveries(inbound, Concat(fragments)) == messages
    decreases |fragments|
  {
    if fragments != [] {
      ContinuationsDelivered(inbound, fragments[0], Concat(fragments[1..]));
      assert [] + messages[0] == messages[0];
      FragmentedMessagesDelivered(messages[0], fragments[1..], messages[1..]);
      assert [messages[0]] + messages[1..] == messages;
    }
  }

  lemma {:induction false} InSomeFragment(fragments: seq<seq<Wire.Frame>>, f: Wire.Frame) returns (i: nat)
    requires f in Concat(fragments)
    ensures i < |fragments| && f in fragments[i]
  {
    if f in fragments[0] {
      i := 0;
    } else {
      i := InSomeFragment(fragments[1..], f);
      i := i + 1;
    }
  }

  /** The machine delivers messages that arrive in masked data frames, each fragmented in any way. */
  lemma FragmentedMessagesArrive(r: Receiver, fragments: seq<seq<Wire.Frame>>, messages: seq<seq<byte>>)
    requires Fresh(r) && |fragments| == |messages|
    requires forall i :: 0 <= i < |fragments| ==> IsFragmentation(fragments[i], messages[i])
    requires forall i, f :: 0 <= i < |fragments| && f in fragments[i] ==>
      Wire.Valid(f) && f.opcode in {0, 1, 2} && f.maskingKey.Some?
    ensures forall f :: f in Concat(fragments) ==> Wire.Valid(f)
    ensures var end := Run(r, Wire.SerialiseAll(Concat(fragments))).0;
      end.delivered == r.delivered + messages && end.request.Some?
  {
    forall f | f in Concat(fragments) ensures Wire.Valid(f) && f.opcode in {0, 1, 2} && f.maskingKey.Some? {
      var i := InSomeFragment(fragments, f);
    }
    SerialisedFramesDelivered(r, Concat(fragments));
    FragmentedMessagesDelivered(r.inbound, fragments, messages);
  }

  // ----- What ends a conversation

  lemma {:induction false} ParseAllPrefix(frames: seq<Wire.Frame>, more: seq<byte>)
    requires forall f :: f in frames ==> Wire.Valid(f)
    ensures Wire.ParseAll(Wire.SerialiseAll(frames) + more) ==
            (frames + Wire.ParseAll(more).0, Wire.ParseAll(more).1)
  {
    if frames == [] {
      assert Wire.SerialiseAll(frames) + more == more && frames + Wire.ParseAll(more).0 == Wire.ParseAll(more).0;
    } else {
      var first, rest := frames[0], frames[1..];
      assert [first] + rest == frames;
      Wire.FirstThenRest(first, rest, more);
      Wire.ParseAllFirst(first, Wire.SerialiseAll(rest) + more);
      ParseAllPrefix(rest, more);
      Associative([first], rest, Wire.ParseAll(more).0);
    }
  }

  lemma {:induction false} AcceptedUpTo(frames: seq<Wire.Frame>, refused: Wire.Frame, more: seq<Wire.Frame>)
    requires (forall f :: f in frames ==> Acceptable(f)) && !Acceptable(refused)
    ensures Accepted(frames + ([refused] + more)) == frames
  {
    if frames != [] {
      assert (frames + ([refused] + more))[1..] == frames[1..] + ([refused] + more);
      AcceptedUpTo(frames[1..], refused, more);
      assert [frames[0]] + frames[1..] == frames;
    }
  }

  /** A control frame, say between two fragments of a message, or any other frame that has to be refused ends
      the conversation: what came before it is delivered, and nothing that follows ever is. */
  lemma RefusedFrameEnds(r: Receiver, frames: seq<Wire.Frame>, refused: Wire.Frame, more: seq<byte>)
    requires Fresh(r)
    requires forall f :: f in frames ==> Wire.Valid(f) && f.opcode in {0, 1, 2} && f.maskingKey.Some?
    requires Wire.Valid(refused) && (refused.opcode > 2 || refused.maskingKey.None?)
    ensures var end := Run(r, Wire.SerialiseAll(frames) + (Wire.Serialise(refused) + more)).0;
      end.delivered == r.delivered + Deliveries(r.inbound, frames) && end.request.None?
  {
    ParseAllPrefix(frames, Wire.Serialise(refused) + more);
    Wire.ParseAllFirst(refused, more);
    AcceptedUpTo(frames, refused, Wire.ParseAll(more).0);
    RunRefinesParse(r, Wire.SerialiseAll(frames) + (Wire.Serialise(refused) + more));
  }

  /** No frame is the beginning of another. */
  lemma PrefixIncomplete(f: Wire.Frame, k: nat)
    requires Wire.Valid(f) && k < |Wire.Serialise(f)|
    ensures Wire.Parse(Wire.Serialise(f)[..k]).Incomplete?
  {
    var s := Wire.Serialise(f);
    assert s == s[..k] + s[k..] && s == s + [] && |s[k..]| > 0;
    if Wire.Parse(s[..k]).Parsed? {
      var Parsed(g, rest) := Wire.Parse(s[..k]);
      Wire.SerialiseParse(s[..k]);
      Associative(Wire.Serialise(g), rest, s[k..]);
      Wire.ParseSerialise(g, rest + s[k..]);
      Wire.ParseSerialise(f, []);
    }
  }

  lemma ResidueParse(f: Wire.Frame, s: seq<byte>)
    requires Wire.Valid(f) && |s| <= |Wire.Serialise(f)|
    ensures var octets := Wire.Serialise(f);
      Wire.ParseAll((octets + s)[..|s|]) == if |s| < |octets| then ([], octets[..|s|]) else ([f], [])
  {
    var octets := Wire.Serialise(f);
    assert (octets + s)[..|s|] == octets[..|s|];
    if |s| < |octets| {
      PrefixIncomplete(f, |s|);
    } else {
      assert octets[..|s|] == octets + [];
      Wire.ParseAllFirst(f, []);
      assert Wire.ParseAll([]) == ([], []) && [f] + [] == [f];
    }
  }

  /** A complete frame that arrives with the handshake is held back: what follows delivers nothing until it is
      as long as the frame. */
  lemma ResidueHeldBack(r: Receiver, f: Wire.Frame, s: seq<byte>)
    requires Fresh(r) && Wire.Valid(f) && f.opcode in {0, 1, 2} && f.maskingKey.Some? && |s| <= |Wire.Serialise(f)|
    ensures Run(r.(buffer := Wire.Serialise(f)), s).0.delivered ==
            r.delivered + if |s| < |Wire.Serialise(f)| then [] else Deliveries(r.inbound, [f])
  {
    ResidueParse(f, s);
    AllAccepted([f]);
    DeliveriesWithResidue(r.(buffer := Wire.Serialise(f)), s);
  }

  // ----- What the residue holds back

  /** The messages that a stream contains. */
  ghost function MessagesIn(inbound: seq<byte>, s: seq<byte>): seq<seq<byte>> {
    Deliveries(inbound, Accepted(Wire.ParseAll(s).0))
  }

  ghost function EndOf(frames: seq<Wire.Frame>, j: nat): nat
    requires j < |frames| && forall f :: f in frames ==> Wire.Valid(f)
  {
    |Wire.SerialiseAll(frames[..j + 1])|
  }

  /** No FIN frame among these ends after position k. */
  ghost predicate FinsEndBy(frames: seq<Wire.Frame>, k: nat)
    requires forall f :: f in frames ==> Wire.Valid(f)
  {
    forall j :: 0 <= j < |frames| && frames[j].fin ==> EndOf(frames, j) <= k
  }

  lemma {:induction false} AcceptedAreFrames(frames: seq<Wire.Frame>)
    ensures forall f :: f in Accepted(frames) ==> f in frames
  {
    if frames != [] && Acceptable(frames[0]) {
      AcceptedAreFrames(frames[1..]);
    }
  }

  lemma AcceptedValid(s: seq<byte>)
    ensures forall f :: f in Accepted(Wire.ParseAll(s).0) ==> Wire.Valid(f)
  {
    Wire.SerialiseAllParseAll(s);
    AcceptedAreFrames(Wire.ParseAll(s).0);
  }

  lemma {:induction false} NoMessageIff(inbound: seq<byte>, frames: seq<Wire.Frame>)
    ensures Deliveries(inbound, frames) == [] <==> forall j :: 0 <= j < |frames| ==> !frames[j].fin
    decreases |frames|
  {
    if frames != [] {
      NoMessageIff(Assembled(inbound, frames[0]), frames[1..]);
      assert forall j :: 0 < j < |frames| ==> frames[j] == frames[1..][j - 1];
    }
  }

  /** Ends move by the size of a frame put in front. */
  lemma EndsAfter(f: Wire.Frame, frames: seq<Wire.Frame>, j: nat)
    requires Wire.Valid(f) && (forall g :: g in frames ==> Wire.Valid(g)) && j < 1 + |frames|
    ensures forall g :: g in [f] + frames ==> Wire.Valid(g)
    ensures EndOf([f] + frames, j) == |Wire.Serialise(f)| + if j == 0 then 0 else EndOf(frames, j - 1)
  {
    var all := [f] + frames;
    assert all[..j + 1] == [f] + frames[..j];
    assert all[..j + 1][1..] == frames[..j];
  }

  lemma EndsShift(f: Wire.Frame, frames: seq<Wire.Frame>, j: nat)
    requires Wire.Valid(f) && (forall g :: g in frames ==> Wire.Valid(g)) && j < |frames|
    ensures forall g :: g in [f] + frames ==> Wire.Valid(g)
    ensures ([f] + frames)[j + 1] == frames[j] && EndOf([f] + frames, j + 1) == |Wire.Serialise(f)| + EndOf(frames, j)
  {
    EndsAfter(f, frames, j + 1);
  }

  lemma FinsBefore(f: Wire.Frame, frames: seq<Wire.Frame>, k: nat)
    requires Wire.Valid(f) && (forall g :: g in frames ==> Wire.Valid(g)) && k >= |Wire.Serialise(f)|
    requires forall g :: g in [f] + frames ==> Wire.Valid(g)
    requires FinsEndBy([f] + frames, k)
    ensures FinsEndBy(frames, k - |Wire.Serialise(f)|)
  {
    forall j | 0 <= j < |frames| && frames[j].fin ensures EndOf(frames, j) <= k - |Wire.Serialise(f)| {
      EndsShift(f, frames, j);
      assert ([f] + frames)[j + 1].fin;
    }
  }

  lemma FinsAfter(f: Wire.Frame, frames: seq<Wire.Frame>, k: nat)
    requires Wire.Valid(f) && (forall g :: g in frames ==> Wire.Valid(g)) && k >= |Wire.Serialise(f)|
    ensures forall g :: g in [f] + frames ==> Wire.Valid(g)
    ensures FinsEndBy([f] + frames, k) <==> FinsEndBy(frames, k - |Wire.Serialise(f)|)
  {
    EndsAfter(f, frames, 0);
    if FinsEndBy([f] + frames, k) {
      FinsBefore(f, frames, k);
    }
    if FinsEndBy(frames, k - |Wire.Serialise(f)|) {
      forall j | 0 <= j < |[f] + frames| && ([f] + frames)[j].fin ensures EndOf([f] + frames, j) <= k {
        if j > 0 {
          EndsShift(f, frames, j - 1);
        }
      }
    }
  }

  /** Where the first frame is not there in full, every FIN frame ends too late. */
  lemma FinsTooLate(f: Wire.Frame, frames: seq<Wire.Frame>, k: nat)
    requires Wire.Valid(f) && (forall g :: g in frames ==> Wire.Valid(g)) && k < |Wire.Serialise(f)|
    ensures forall g :: g in [f] + frames ==> Wire.Valid(g)
    ensures FinsEndBy([f] + frames, k) <==> forall j :: 0 <= j < |[f] + frames| ==> !([f] + frames)[j].fin
  {
    var all := [f] + frames;
    forall j | 0 <= j < |all| ensures EndOf(all, j) > k {
      EndsAfter(f, frames, j);
    }
  }

  /** A stream cut inside its first frame, and after it. */
  lemma CutParse(s: seq<byte>, k: nat)
    requires k <= |s| && Wire.Parse(s).Parsed?
    ensures var Parsed(f, rest) := Wire.Parse(s); Wire.Valid(f) && |s| == |Wire.Serialise(f)| + |rest|
    ensures var Parsed(f, rest) := Wire.Parse(s); var m := |Wire.Serialise(f)|;
      if k < m then Wire.ParseAll(s[..k]).0 == []
      else Wire.ParseAll(s[..k]).0 == [f] + Wire.ParseAll(rest[..k - m]).0
  {
    Wire.SerialiseParse(s);
    var Parsed(f, rest) := Wire.Parse(s);
    var octets := Wire.Serialise(f);
    if k < |octets| {
      assert s[..k] == octets[..k];
      PrefixIncomplete(f, k);
    } else {
      assert s[..k] == octets + rest[..k - |octets|];
      Wire.ParseAllFirst(f, rest[..k - |octets|]);
    }
  }

  lemma StillParses(s: seq<byte>, more: seq<byte>)
    requires Wire.Parse(s).Parsed?
    ensures Wire.Parse(s + more).Parsed?
  {
    var Parsed(g, rest) := Wire.Parse(s);
    Wire.SerialiseParse(s);
    Associative(Wire.Serialise(g), rest, more);
    Wire.ParseSerialise(g, rest + more);
  }

  lemma CutIncomplete(s: seq<byte>, k: nat)
    requires k <= |s| && Wire.Parse(s).Incomplete?
    ensures Wire.Parse(s[..k]).Incomplete?
  {
    assert s[..k] + s[k..] == s;
    if Wire.Parse(s[..k]).Parsed? {
      StillParses(s[..k], s[k..]);
    }
  }

  lemma AcceptedCons(f: Wire.Frame, frames: seq<Wire.Frame>)
    requires Acceptable(f)
    ensures Accepted([f] + frames) == [f] + Accepted(frames)
  {
    assert ([f] + frames)[1..] == frames;
  }

  lemma SamePrefix<T>(a: seq<T>, b: seq<T>, c: seq<T>)
    ensures a + b == a + c <==> b == c
  {
    assert (a + b)[|a|..] == b && (a + c)[|a|..] == c;
  }

  lemma CutAfterFirst(inbound: seq<byte>, f: Wire.Frame, cut: seq<Wire.Frame>, more: seq<Wire.Frame>, k: nat)
    requires Wire.Valid(f) && (forall g :: g in more ==> Wire.Valid(g)) && k >= |Wire.Serialise(f)|
    requires var message := Assembled(inbound, f);
      Deliveries(message, cut) == Deliveries(message, more) <==> FinsEndBy(more, k - |Wire.Serialise(f)|)
    ensures forall g :: g in [f] + more ==> Wire.Valid(g)
    ensures Deliveries(inbound, [f] + cut) == Deliveries(inbound, [f] + more) <==> FinsEndBy([f] + more, k)
  {
    FinsAfter(f, more, k);
    DeliveriesFront(inbound, f, more);
    DeliveriesFront(inbound, f, cut);
    var message := Assembled(inbound, f);
    SamePrefix(if f.fin then [message] else [], Deliveries(message, cut), Deliveries(message, more));
  }

  lemma CutInFirst(inbound: seq<byte>, f: Wire.Frame, more: seq<Wire.Frame>, k: nat)
    requires Wire.Valid(f) && (forall g :: g in more ==> Wire.Valid(g)) && k < |Wire.Serialise(f)|
    ensures forall g :: g in [f] + more ==> Wire.Valid(g)
    ensures Deliveries(inbound, []) == Deliveries(inbound, [f] + more) <==> FinsEndBy([f] + more, k)
  {
    FinsTooLate(f, more, k);
    NoMessageIff(inbound, [f] + more);
  }

  /** The stream s, cut at k, contains all its messages exactly when none of its FIN frames ends later. */
  ghost predicate CutIff(inbound: seq<byte>, s: seq<byte>, k: nat)
    requires k <= |s|
  {
    && (forall f :: f in Accepted(Wire.ParseAll(s).0) ==> Wire.Valid(f))
    && (MessagesIn(inbound, s[..k]) == MessagesIn(inbound, s) <==> FinsEndBy(Accepted(Wire.ParseAll(s).0), k))
  }

  lemma CutIffNone(inbound: seq<byte>, s: seq<byte>, k: nat)
    requires k <= |s| && (Wire.Parse(s).Incomplete? || !Acceptable(Wire.Parse(s).frame))
    ensures CutIff(inbound, s, k)
  {
    if Wire.Parse(s).Incomplete? {
      CutIncomplete(s, k);
    } else {
      CutParse(s, k);
      ParseAllFront(s);
    }
  }

  lemma CutIffShort(inbound: seq<byte>, s: seq<byte>, k: nat)
    requires k <= |s| && Wire.Parse(s).Parsed? && Acceptable(Wire.Parse(s).frame)
    requires Wire.Valid(Wire.Parse(s).frame) && k < |Wire.Serialise(Wire.Parse(s).frame)|
    ensures CutIff(inbound, s, k)
  {
    var Parsed(f, rest) := Wire.Parse(s);
    CutParse(s, k);
    ParseAllFront(s);
    AcceptedValid(rest);
    CutInFirst(inbound, f, Accepted(Wire.ParseAll(rest).0), k);
  }

  lemma CutIffOf(inbound: seq<byte>, s: seq<byte>, k: nat, cut: seq<Wire.Frame>, all: seq<Wire.Frame>)
    requires k <= |s| && cut == Accepted(Wire.ParseAll(s[..k]).0) && all == Accepted(Wire.ParseAll(s).0)
    requires forall f :: f in all ==> Wire.Valid(f)
    requires Deliveries(inbound, cut) == Deliveries(inbound, all) <==> FinsEndBy(all, k)
    ensures CutIff(inbound, s, k)
  {
  }

  lemma CutFrames(s: seq<byte>, k: nat, m: nat, rest: seq<byte>) returns (cut: seq<Wire.Frame>, more: seq<Wire.Frame>)
    requires k <= |s| && Wire.Parse(s).Parsed? && Acceptable(Wire.Parse(s).frame) && rest == Wire.Parse(s).rest
    requires Wire.Valid(Wire.Parse(s).frame) && m == |Wire.Serialise(Wire.Parse(s).frame)| <= k && k - m <= |rest|
    ensures cut == Accepted(Wire.ParseAll(rest[..k - m]).0) && more == Accepted(Wire.ParseAll(rest).0)
    ensures Accepted(Wire.ParseAll(s[..k]).0) == [Wire.Parse(s).frame] + cut
    ensures Accepted(Wire.ParseAll(s).0) == [Wire.Parse(s).frame] + more
  {
    CutParse(s, k);
    ParseAllFront(s);
    AcceptedCons(Wire.Parse(s).frame, Wire.ParseAll(rest[..k - m]).0);
    cut, more := Accepted(Wire.ParseAll(rest[..k - m]).0), Accepted(Wire.ParseAll(rest).0);
  }

  lemma CutIffLong(inbound: seq<byte>, s: seq<byte>, k: nat, m: nat)
    requires k <= |s| && Wire.Parse(s).Parsed? && Acceptable(Wire.Parse(s).frame)
    requires Wire.Valid(Wire.Parse(s).frame) && m == |Wire.Serialise(Wire.Parse(s).frame)| <= k
    requires k - m <= |Wire.Parse(s).rest|
    requires CutIff(Assembled(inbound, Wire.Parse(s).frame), Wire.Parse(s).rest, k - m)
    ensures CutIff(inbound, s, k)
  {
    var f := Wire.Parse(s).frame;
    var cut, more := CutFrames(s, k, m, Wire.Parse(s).rest);
    CutAfterFirst(inbound, f, cut, more, k);
    CutIffOf(inbound, s, k, [f] + cut, [f] + more);
  }

  lemma {:induction false} CutLosesNothingIff(inbound: seq<byte>, s: seq<byte>, k: nat)
    requires k <= |s|
    ensures CutIff(inbound, s, k)
    decreases |s|
  {
    if Wire.Parse(s).Incomplete? || !Acceptable(Wire.Parse(s).frame) {
      CutIffNone(inbound, s, k);
    } else {
      CutParse(s, k);
      Wire.ParseShrinks(s);
      var f, m := Wire.Parse(s).frame, |Wire.Serialise(Wire.Parse(s).frame)|;
      if k < m {
        CutIffShort(inbound, s, k);
      } else {
        CutLosesNothingIff(Assembled(inbound, f), Wire.Parse(s).rest, k - m);
        CutIffLong(inbound, s, k, m);
      }
    }
  }

  /** All messages of the residue and what followed it have been delivered if and only if none of their
      accepted FIN frames ends within the last octets, as many as the residue has. */
  lemma NothingHeldBackIff(r: Receiver, s: seq<byte>)
    requires r.AwaitsFrame()
    ensures var whole := r.buffer + s;
      && (forall f :: f in Accepted(Wire.ParseAll(whole).0) ==> Wire.Valid(f))
      && (Run(r, s).0.delivered == r.delivered + MessagesIn(r.inbound, whole) <==>
            FinsEndBy(Accepted(Wire.ParseAll(whole).0), |s|))
  {
    DeliveriesWithResidue(r, s);
    CutLosesNothingIff(r.inbound, r.buffer + s, |s|);
    var cut, all := MessagesIn(r.inbound, (r.buffer + s)[..|s|]), MessagesIn(r.inbound, r.buffer + s);
    assert Run(r, s).0.delivered == r.delivered + cut;
    SamePrefix(r.delivered, cut, all);
  }

  /** A text frame without FIN that carries "a". */
  function FirstHalf(key: seq<byte>): (f: Wire.Frame)
    requires |key| == 4
    ensures Wire.Valid(f) && Acceptable(f)
  {
    Wire.Frame(false, 0, 1, Some(key), Wire.Bits7, [97])
  }

  /** A ping between the two fragments of "ab": the message never arrives. */
  lemma PingEndsMessage(r: Receiver, key: seq<byte>, more: seq<byte>)
    requires Fresh(r) && |key| == 4
    ensures var ping := Wire.Frame(true, 0, 9, Some(key), Wire.Bits7, []);
      && Wire.Valid(ping)
      && var s := Wire.SerialiseAll([FirstHalf(key)]) + (Wire.Serialise(ping) + more);
         Run(r, s).0.delivered == r.delivered
  {
    var ping := Wire.Frame(true, 0, 9, Some(key), Wire.Bits7, []);
    RefusedFrameEnds(r, [FirstHalf(key)], ping, more);
    DeliveriesFront(r.inbound, FirstHalf(key), []);
    assert Deliveries(r.inbound, [FirstHalf(key)] + []) == [];
    assert [FirstHalf(key)] + [] == [FirstHalf(key)];
  }
}
