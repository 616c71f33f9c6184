/** The receiving side of TcpConnection as a value: the fields handleFragment reads and writes, one
    invocation of it as a function (Step), and its reaction to a stream of octets (Run). */
module FrameReceiver {
  import opened Bytes
  import Wire = WebSocketWire

  datatype ReceiveState = START | LENGTH | LENGTH_X1 | LENGTH_X2 | MASKING_KEY | PAYLOAD

  /** buffer is what the stream buffer holds; request is the outstanding asynchronous read, if any;
      delivered lists the messages given to the payload handler so far. */
  datatype Receiver = Receiver(
    state: ReceiveState,
    opcode: byte,
    masked: bool,
    payloadLength: nat,
    mask: seq<byte>,
    inbound: seq<byte>,
    buffer: seq<byte>,
    request: Option<nat>,
    delivered: seq<seq<byte>>)
  {
    /** The octets one invocation in this state reads. */
    function Needed(): nat {
      match state
      case START => 1
      case LENGTH => 1
      case LENGTH_X1 => 2
      case LENGTH_X2 => 8
      case MASKING_KEY => 4
      case PAYLOAD => payloadLength
    }

    /** What the source keeps between invocations: the request is the one the state needs. */
    predicate Valid() {
      && |mask| == 4
      && (state in {LENGTH_X1, LENGTH_X2, MASKING_KEY, PAYLOAD} ==> masked)
      && (request.Some? ==> request.value == Needed())
    }

    /** A connection whose handshake has just been answered: waiting for the first octet of a frame. */
    predicate AwaitsFrame() {
      Valid() && state == START && request.Some?
    }
  }

  /** What n calls of get return: octets of the buffer, then 0xFF, the octet value of end-of-file. */
  function Got(buffer: seq<byte>, n: nat): (r: seq<byte>)
    ensures |r| == n
  {
    if n <= |buffer| then buffer[..n] else buffer + seq(n - |buffer|, _ => 255)
  }

  /** Octets come in the order of the buffer, and past its end as the end-of-file octet. */
  lemma GotExamples(x: byte, y: byte)
    ensures Got([x, y], 1) == [x] && Got([x, y], 2) == [x, y] && Got([x, y], 3) == [x, y, 0xFF]
  {
  }

  function Left(buffer: seq<byte>, n: nat): seq<byte> {
    if n <= |buffer| then buffer[n..] else []
  }

  function SetPayloadLengthAndNextStep(r: Receiver, length: nat): Receiver {
    if r.masked then
      r.(payloadLength := length, state := MASKING_KEY, request := Some(4))
    else
      r.(payloadLength := length, state := PAYLOAD, request := Some(length))
  }

  /** One invocation of handleFragment without error, once its read has completed. */
  function Step(r: Receiver): Receiver
    requires |r.mask| == 4
  {
    var n := r.Needed();
    var got := Got(r.buffer, n);
    var idle := r.(request := None, buffer := Left(r.buffer, n));
    match r.state
    case START =>
      if got[0] % 16 <= 2 then
        idle.(opcode := got[0], state := LENGTH, request := Some(1))
      else
        idle.(opcode := got[0])
    case LENGTH =>
      var next := idle.(masked := got[0] >= 128);
      if got[0] < 128 then next
      else if got[0] == 254 then next.(state := LENGTH_X1, request := Some(2))
      else if got[0] == 255 then next.(state := LENGTH_X2, request := Some(8))
      else SetPayloadLengthAndNextStep(next, got[0] - 128)
    case LENGTH_X1 => SetPayloadLengthAndNextStep(idle, BigEndianValue(got))
    case LENGTH_X2 => SetPayloadLengthAndNextStep(idle, BigEndianValue(got))
    case MASKING_KEY => idle.(mask := got, state := PAYLOAD, request := Some(r.payloadLength))
    case PAYLOAD =>
      var message := (if r.opcode % 16 != 0 then [] else r.inbound) + Wire.Masked(got, r.mask);
      idle.(state := START, inbound := message, request := Some(1),
            delivered := if r.opcode >= 128 then r.delivered + [message] else r.delivered)
  }

  lemma StepFromPayload(r: Receiver)
    requires |r.mask| == 4 && r.state == PAYLOAD
    ensures var n := r.payloadLength;
      var message := (if r.opcode % 16 != 0 then [] else r.inbound) + Wire.Masked(Got(r.buffer, n), r.mask);
      Step(r) == r.(state := START, inbound := message, request := Some(1), buffer := Left(r.buffer, n),
                    delivered := if r.opcode >= 128 then r.delivered + [message] else r.delivered)
  {
  }

  lemma StepKeepsValid(r: Receiver)
    requires r.Valid()
    ensures Step(r).Valid()
    ensures r.request == Some(0) ==> Step(r).request == Some(1)
  {
  }

  lemma GotFront(x: seq<byte>, y: seq<byte>)
    ensures Got(x + y, |x|) == x && Left(x + y, |x|) == y
  {
  }

  /** A step leaves whatever follows the octets it asked for untouched and is blind to it. */
  lemma StepIsLocal(r: Receiver, x: seq<byte>, y: seq<byte>)
    requires |r.mask| == 4 && |x| == r.Needed()
    ensures Step(r.(buffer := x + y)) == Step(r.(buffer := x)).(buffer := y)
    ensures Step(r.(buffer := x)).buffer == []
  {
    GotFront(x, y);
    GotFront(x, []);
    assert x + [] == x;
    match r.state
    case START =>
    case LENGTH =>
    case LENGTH_X1 =>
    case LENGTH_X2 =>
    case MASKING_KEY =>
    case PAYLOAD =>
  }

  /** The stream buffer once the outstanding request has been filled from s in one transfer. */
  function Filled(r: Receiver, s: seq<byte>): (f: Receiver)
    requires r.Valid() && r.request.Some? && |s| >= r.request.value
    ensures f.Valid() && f == r.(buffer := f.buffer)
  {
    r.(buffer := r.buffer + s[..r.request.value])
  }

  /** The reaction to a stream s, and the octets of s not read: fewer than the outstanding request,
      or everything after the connection stopped reading. */
  function Run(r: Receiver, s: seq<byte>): (end: (Receiver, seq<byte>))
    requires r.Valid()
    ensures end.0.Valid() && |end.1| <= |s|
    decreases |s|, if r.request == Some(0) then 1 else 0
  {
    if r.request.None? || |s| < r.request.value then
      (r, s)
    else
      StepKeepsValid(Filled(r, s));
      Run(Step(Filled(r, s)), s[r.request.value..])
  }

  lemma RunUnfolds(r: Receiver, s: seq<byte>)
    requires r.Valid() && r.request.Some? && |s| >= r.request.value
    ensures Step(Filled(r, s)).Valid()
    ensures Run(r, s) == Run(Step(Filled(r, s)), s[r.request.value..])
    ensures r.request.value == 0 ==> Step(Filled(r, s)).request == Some(1)
  {
    StepKeepsValid(Filled(r, s));
  }

  /** Incremental parsing is one-shot parsing: cutting the stream anywhere changes nothing. */
  lemma {:induction false} RunSplit(r: Receiver, s1: seq<byte>, s2: seq<byte>)
    requires r.Valid()
    ensures Run(r, s1 + s2) == Run(Run(r, s1).0, Run(r, s1).1 + s2)
    decreases |s1|, if r.request == Some(0) then 1 else 0
  {
    if r.request.None? || |s1| < r.request.value {
      assert Run(r, s1) == (r, s1);
    } else {
      var n := r.request.value;
      assert (s1 + s2)[..n] == s1[..n] && (s1 + s2)[n..] == s1[n..] + s2;
      RunUnfolds(r, s1);
      RunUnfolds(r, s1 + s2);
      assert Filled(r, s1) == Filled(r, s1 + s2);
      RunSplit(Step(Filled(r, s1)), s1[n..], s2);
    }
  }

  /** Nothing more is consumed or delivered once the connection has stopped asking. */
  lemma StoppedForGood(r: Receiver, s1: seq<byte>, s2: seq<byte>)
    requires r.Valid() && Run(r, s1).0.request.None?
    ensures Run(r, s1 + s2) == (Run(r, s1).0, Run(r, s1).1 + s2)
  {
    RunSplit(r, s1, s2);
  }

  // ----- The residue of the handshake

  /** A read of n octets from s, with b in the buffer in front of s: x is taken and y stays. */
  lemma ResidueSlices(b: seq<byte>, s: seq<byte>, n: nat)
      returns (front: seq<byte>, t: seq<byte>, x: seq<byte>, y: seq<byte>, v: seq<byte>)
    requires n <= |s|
    ensures s == front + t && b + front == x + y && |front| == |x| == n && |y| == |b|
    ensures (b + s)[..|s|] == x + v && (b + s)[n..] == y + t && v == (y + t)[..|t|]
  {
    var whole := b + s;
    front, t, x, y := s[..n], s[n..], whole[..n], whole[n..n + |b|];
    v := (y + t)[..|t|];
    assert whole[..n + |b|] == b + front && whole[..n + |b|] == x + y;
    assert whole[n + |b|..] == t && whole[n..] == y + whole[n + |b|..];
    assert whole[..|s|] == x + whole[n..][..|t|];
  }

  lemma RunFront(r: Receiver, x: seq<byte>, t: seq<byte>)
    requires r.Valid() && r.request == Some(|x|)
    ensures var next := Step(r.(buffer := r.buffer + x));
      next.Valid() && Run(r, x + t) == Run(next, t) && (x == [] ==> next.request == Some(1))
  {
    RunUnfolds(r, x + t);
    assert (x + t)[..|x|] == x && (x + t)[|x|..] == t;
  }

  /** The first read with y left over afterwards, and with nothing left over. */
  lemma FrontLate(r: Receiver, b: seq<byte>, front: seq<byte>, t: seq<byte>, x: seq<byte>, y: seq<byte>, v: seq<byte>)
      returns (next: Receiver)
    requires r.Valid() && r.request == Some(|x|) && r.buffer == []
    requires b + front == x + y && |front| == |x|
    ensures next.Valid() && next.buffer == [] && (x == [] ==> next.request == Some(1))
    ensures Run(r.(buffer := b), front + t) == Run(next.(buffer := y), t)
    ensures Run(r, x + v) == Run(next, v)
  {
    next := Step(r.(buffer := x));
    RunFront(r.(buffer := b), front, t);
    RunFront(r, x, v);
    assert [] + x == x;
    StepIsLocal(r, x, y);
  }

  /** Outcome a, reached with k octets still in the buffer, is outcome b reached with none: same
      fields, as many octets unread, and the buffer holds the k octets that come next in whole. */
  ghost predicate SameButLate(whole: seq<byte>, k: nat, a: (Receiver, seq<byte>), b: (Receiver, seq<byte>)) {
    && a.0.(buffer := []) == b.0
    && |a.1| == |b.1|
    && |a.1| + k <= |whole|
    && a.0.buffer == whole[|whole| - k - |a.1|..|whole| - |a.1|]
  }

  lemma SameButLateLonger(whole: seq<byte>, n: nat, k: nat, a: (Receiver, seq<byte>), b: (Receiver, seq<byte>))
    requires n <= |whole| && SameButLate(whole[n..], k, a, b)
    ensures SameButLate(whole, k, a, b)
  {
    var j := |whole| - n - k - |a.1|;
    assert whole[n..][j..j + k] == whole[n + j..n + j + k];
  }

  lemma LateAtRest(r: Receiver, b: seq<byte>, s: seq<byte>)
    requires r.Valid() && r.buffer == [] && (r.request.None? || |s| < r.request.value)
    ensures SameButLate(b + s, |b|, Run(r.(buffer := b), s), Run(r, (b + s)[..|s|]))
  {
    assert (b + s)[..|b|] == b;
  }

  lemma {:induction false} RunLate(r: Receiver, b: seq<byte>, s: seq<byte>)
    requires r.Valid() && r.buffer == []
    ensures SameButLate(b + s, |b|, Run(r.(buffer := b), s), Run(r, (b + s)[..|s|]))
    decreases |s|, if r.request == Some(0) then 1 else 0
  {
    if r.request.Some? && |s| >= r.request.value {
      var n := r.request.value;
      var front, t, x, y, v := ResidueSlices(b, s, n);
      var next := FrontLate(r, b, front, t, x, y, v);
      RunLate(next, y, t);
      SameButLateLonger(b + s, n, |b|, Run(next.(buffer := y), t), Run(next, v));
    } else {
      LateAtRest(r, b, s);
    }
  }

  /** Octets that arrived with the handshake stay in the stream buffer: the machine reads residue + s
      exactly as if nothing had been left over, only |residue| octets late, and the lag is constant. */
  lemma RunWithResidue(r: Receiver, s: seq<byte>)
    requires r.Valid()
    ensures var whole := r.buffer + s;
      SameButLate(whole, |r.buffer|, Run(r, s), Run(r.(buffer := []), whole[..|s|]))
  {
    RunLate(r.(buffer := []), r.buffer, s);
  }
}
