/** The WebSocket connection object: handleFragment and send, with the source's fields updated in place. */
module TcpConnection {
  import opened Bytes
  import opened FrameReceiver
  import Refinement = FramingRefinement
  import Wire = WebSocketWire

  datatype MessageType = TEXT | BINARY

  /** The unmasked, unfragmented frame of a server message, in the shortest form (section 5.2 of RFC 6455). */
  function ServerFrame(message: seq<byte>, messageType: MessageType): Wire.Frame {
    var form := if |message| < 126 then Wire.Bits7 else if |message| < 65536 then Wire.Bits16 else Wire.Bits64;
    Wire.Frame(true, 0, if messageType == TEXT then 1 else 2, None, form, message)
  }

  const SIZE_LIMIT: nat := 0x1_0000_0000_0000_0000

  lemma SizeLimits()
    ensures Pow256(2) == 65536 && Pow256(8) == SIZE_LIMIT
  {
    assert Pow256(3) == 256 * Pow256(2);
    assert Pow256(4) == 256 * Pow256(3);
    assert Pow256(5) == 256 * Pow256(4);
    assert Pow256(6) == 256 * Pow256(5);
    assert Pow256(7) == 256 * Pow256(6);
  }

  lemma ServerFrameValid(message: seq<byte>, messageType: MessageType)
    requires |message| < SIZE_LIMIT
    ensures Wire.Valid(ServerFrame(message, messageType))
  {
    SizeLimits();
  }

  datatype Message = Message(text: seq<byte>, messageType: MessageType)

  ghost predicate Sendable(messages: seq<Message>) {
    forall m :: m in messages ==> |m.text| < SIZE_LIMIT
  }

  /** What a connection has written after sending these messages: Send appends one frame each time. */
  ghost function SentStream(messages: seq<Message>): seq<byte>
    requires Sendable(messages)
  {
    if messages == [] then
      []
    else
      var last := messages[|messages| - 1];
      ServerFrameValid(last.text, last.messageType);
      SentStream(messages[..|messages| - 1]) + Wire.Serialise(ServerFrame(last.text, last.messageType))
  }

  function ServerFrames(messages: seq<Message>): (frames: seq<Wire.Frame>)
    ensures |frames| == |messages|
    ensures forall i :: 0 <= i < |messages| ==>
      && frames[i].fin && frames[i].maskingKey.None? && frames[i].payload == messages[i].text
      && frames[i].rsv == 0 && frames[i].opcode == (if messages[i].messageType == TEXT then 1 else 2)
  {
    seq(|messages|, i requires 0 <= i < |messages| => ServerFrame(messages[i].text, messages[i].messageType))
  }

  lemma ServerFramesValid(messages: seq<Message>)
    requires Sendable(messages)
    ensures forall f :: f in ServerFrames(messages) ==> Wire.Valid(f)
  {
    forall i | 0 <= i < |messages| ensures Wire.Valid(ServerFrames(messages)[i]) {
      assert messages[i] in messages;
      ServerFrameValid(messages[i].text, messages[i].messageType);
    }
  }

  lemma {:induction false} SerialiseAllAppend(frames: seq<Wire.Frame>, f: Wire.Frame)
    requires Wire.Valid(f) && forall g :: g in frames ==> Wire.Valid(g)
    ensures Wire.SerialiseAll(frames + [f]) == Wire.SerialiseAll(frames) + Wire.Serialise(f)
  {
    if frames == [] {
      assert frames + [f] == [f];
    } else {
      SerialiseAllAppend(frames[1..], f);
      assert (frames + [f])[1..] == frames[1..] + [f];
      Associative(Wire.Serialise(frames[0]), Wire.SerialiseAll(frames[1..]), Wire.Serialise(f));
    }
  }

  lemma ServerFramesSnoc(messages: seq<Message>)
    requires messages != []
    ensures var init, last := messages[..|messages| - 1], messages[|messages| - 1];
      ServerFrames(messages) == ServerFrames(init) + [ServerFrame(last.text, last.messageType)]
  {
  }

  lemma {:induction false} SentStreamIsSerialised(messages: seq<Message>)
    requires Sendable(messages)
    ensures (forall f :: f in ServerFrames(messages) ==> Wire.Valid(f))
    ensures SentStream(messages) == Wire.SerialiseAll(ServerFrames(messages))
  {
    ServerFramesValid(messages);
    if messages != [] {
      var init, last := messages[..|messages| - 1], messages[|messages| - 1];
      SentStreamIsSerialised(init);
      ServerFrameValid(last.text, last.messageType);
      SerialiseAllAppend(ServerFrames(init), ServerFrame(last.text, last.messageType));
      ServerFramesSnoc(messages);
    }
  }

  /** A conforming client reads back exactly the messages sent, in order: final, unmasked, right opcode. */
  lemma SendsParseBack(messages: seq<Message>)
    requires Sendable(messages)
    ensures Wire.ParseAll(SentStream(messages)) == (ServerFrames(messages), [])
  {
    SentStreamIsSerialised(messages);
    Wire.ParseAllSerialiseAll(ServerFrames(messages), []);
    assert SentStream(messages) + [] == SentStream(messages);
  }

  /** The first octet of what Send writes. */
  lemma FirstOctetSent(message: seq<byte>, messageType: MessageType)
    requires |message| < SIZE_LIMIT
    ensures Wire.Valid(ServerFrame(message, messageType))
    ensures Wire.Serialise(ServerFrame(message, messageType))[0] == if messageType == TEXT then 0x81 else 0x82
  {
    ServerFrameValid(message, messageType);
  }

  /** No valid frame carries the same payload in fewer length octets. */
  lemma ShortestForm(message: seq<byte>, messageType: MessageType, other: Wire.Frame)
    requires Wire.Valid(other) && |other.payload| == |message|
    ensures Wire.ExtendedSize(ServerFrame(message, messageType).form) <= Wire.ExtendedSize(other.form)
  {
    SizeLimits();
  }

  lemma GotOneMore(buffer: seq<byte>, n: nat)
    ensures Got(buffer, n + 1) == Got(buffer, n) + Got(Left(buffer, n), 1)
    ensures Left(buffer, n + 1) == Left(Left(buffer, n), 1)
  {
  }

  lemma MaskedOneMore(data: seq<byte>, b: byte, key: seq<byte>)
    requires |key| == 4
    ensures Wire.Masked(data + [b], key) == Wire.Masked(data, key) + [Xor(b, key[|data| % 4])]
  {
  }

  class TcpConnection {
    var mCurrentMessageSize: nat
    var mListening: bool                // an asynchronous read of mCurrentMessageSize octets is outstanding
    var mPayloadBuffer: seq<byte>
    var mReceiveState: ReceiveState
    var mOpcode: byte
    var mMasked: bool
    var mPayloadLength: nat
    const mMask: array<byte>
    var mInboundMessage: seq<byte>
    var mHandled: seq<seq<byte>>        // the calls of mPayloadHandler
    var mSocket: seq<byte>              // octets written to the socket

    ghost predicate Allocated() {
      mMask.Length == 4
    }

    ghost function Snapshot(): Receiver
      reads this, mMask
    {
      Receiver(mReceiveState, mOpcode, mMasked, mPayloadLength, mMask[..], mInboundMessage, mPayloadBuffer,
                        if mListening then Some(mCurrentMessageSize) else None, mHandled)
    }

    constructor (residue: seq<byte>)
      ensures Allocated() && fresh(mMask)
      ensures !mListening && Snapshot().(request := Some(1)).AwaitsFrame()
      ensures mPayloadBuffer == residue && mHandled == [] && mInboundMessage == [] && mSocket == []
    {
      mCurrentMessageSize, mListening := 0, false;
      mPayloadBuffer := residue;
      mReceiveState, mOpcode, mMasked, mPayloadLength := START, 0, false, 0;
      mMask := new byte[4];
      mInboundMessage, mHandled, mSocket := [], [], [];
    }

    method ListenForPayload(iNumberOfBytes: nat)
      modifies this`mListening, this`mCurrentMessageSize
      ensures mListening && mCurrentMessageSize == iNumberOfBytes
    {
      mCurrentMessageSize := iNumberOfBytes;
      mListening := true;
    }

    method HandleWriteHandshake(iError: bool)
      requires Allocated()
      modifies this`mListening, this`mCurrentMessageSize
      ensures Snapshot() == old(Snapshot()).(request := if iError then old(Snapshot()).request else Some(1))
    {
      if !iError {
        ListenForPayload(1);
      }
    }

    /** istream::get on the stream buffer, the result cast to char. */
    method Get() returns (b: byte)
      modifies this`mPayloadBuffer
      ensures [b] == Got(old(mPayloadBuffer), 1)
      ensures mPayloadBuffer == Left(old(mPayloadBuffer), 1)
    {
      if mPayloadBuffer == [] {
        b := 255;
      } else {
        b := mPayloadBuffer[0];
        mPayloadBuffer := mPayloadBuffer[1..];
      }
    }

    /** Octets stored from the last array element to the first, then read as a little-endian integer. */
    method GetReversed(size: nat) returns (value: nat)
      modifies this`mPayloadBuffer
      ensures value == BigEndianValue(Got(old(mPayloadBuffer), size))
      ensures mPayloadBuffer == Left(old(mPayloadBuffer), size)
    {
      var wLength := new byte[size];
      ghost var got := [];
      for wIndex := size downto 0
        invariant got == Got(old(mPayloadBuffer), size - wIndex)
        invariant mPayloadBuffer == Left(old(mPayloadBuffer), size - wIndex)
        invariant wLength[wIndex..] == Reversed(got)
      {
        wLength[wIndex] := Get();
        got := got + [wLength[wIndex]];
      }
      assert wLength[..] == wLength[0..];
      LittleEndianOfReversed(got);
      value := LittleEndianValue(wLength[..]);
    }

    method SetPayloadLengthAndNextStep(iLength: nat)
      requires Allocated()
      modifies this`mPayloadLength, this`mReceiveState, this`mListening, this`mCurrentMessageSize
      ensures Snapshot() == FrameReceiver.SetPayloadLengthAndNextStep(old(Snapshot()), iLength)
    {
      mPayloadLength := iLength;
      if mMasked {
        mReceiveState := MASKING_KEY;
        ListenForPayload(4);
      } else {
        mReceiveState := PAYLOAD;
        ListenForPayload(mPayloadLength);
      }
    }

    /** The octets of the payload, unmasked one at a time onto the message. */
    method ReadPayload()
      requires Allocated()
      modifies this`mPayloadBuffer, this`mInboundMessage
      ensures mPayloadBuffer == Left(old(mPayloadBuffer), mPayloadLength)
      ensures mInboundMessage ==
              old(mInboundMessage) + Wire.Masked(Got(old(mPayloadBuffer), mPayloadLength), mMask[..])
    {
      ghost var start, buffer, key := mInboundMessage, mPayloadBuffer, mMask[..];
      ghost var plain := [];
      assert Wire.Masked(Got(buffer, 0), key) == [];
      for wIndex := 0 to mPayloadLength
        invariant mPayloadBuffer == Left(buffer, wIndex)
        invariant plain == Wire.Masked(Got(buffer, wIndex), key)
        invariant mInboundMessage == start + plain
      {
        GotOneMore(buffer, wIndex);
        var wByte := Get();
        MaskedOneMore(Got(buffer, wIndex), wByte, key);
        mInboundMessage := mInboundMessage + [Xor(wByte, mMask[wIndex % 4])];
        plain := plain + [Xor(wByte, mMask[wIndex % 4])];
      }
    }

    method HandleStart()
      requires Allocated() && mReceiveState == START
      modifies this`mPayloadBuffer, this`mListening, this`mCurrentMessageSize, this`mReceiveState, this`mOpcode
      ensures Snapshot() == Step(old(Snapshot()))
    {
      mListening := false;
      mOpcode := Get();
      if mOpcode % 16 in {0, 1, 2} {
        mReceiveState := LENGTH;
        ListenForPayload(1);
      }
    }

    method HandleLength()
      requires Allocated() && mReceiveState == LENGTH
      modifies this`mPayloadBuffer, this`mListening, this`mCurrentMessageSize, this`mReceiveState, this`mMasked,
               this`mPayloadLength
      ensures Snapshot() == Step(old(Snapshot()))
    {
      mListening := false;
      var wLength := Get();
      mMasked := wLength >= 128;
      if mMasked {
        wLength := wLength % 128;
        if wLength == 126 {
          mReceiveState := LENGTH_X1;
          ListenForPayload(2);
        } else if wLength == 127 {
          mReceiveState := LENGTH_X2;
          ListenForPayload(8);
        } else {
          SetPayloadLengthAndNextStep(wLength);
        }
      }
    }

    method HandleExtendedLength()
      requires Allocated() && mReceiveState in {LENGTH_X1, LENGTH_X2}
      modifies this`mPayloadBuffer, this`mListening, this`mCurrentMessageSize, this`mReceiveState, this`mPayloadLength
      ensures Snapshot() == Step(old(Snapshot()))
    {
      mListening := false;
      var wLength := GetReversed(if mReceiveState == LENGTH_X1 then 2 else 8);
      SetPayloadLengthAndNextStep(wLength);
    }

    method ReadMask()
      requires Allocated()
      modifies this`mPayloadBuffer, mMask
      ensures mMask[..] == Got(old(mPayloadBuffer), 4)
      ensures mPayloadBuffer == Left(old(mPayloadBuffer), 4)
    {
      for wIndex := 0 to 4
        invariant mMask[..wIndex] == Got(old(mPayloadBuffer), wIndex)
        invariant mPayloadBuffer == Left(old(mPayloadBuffer), wIndex)
      {
        mMask[wIndex] := Get();
        assert mMask[..wIndex + 1] == mMask[..wIndex] + [mMask[wIndex]];
      }
      assert mMask[..] == mMask[..4];
    }

    method HandleMaskingKey()
      requires Allocated() && mReceiveState == MASKING_KEY
      modifies this`mPayloadBuffer, this`mListening, this`mCurrentMessageSize, this`mReceiveState, mMask
      ensures Snapshot() == Step(old(Snapshot()))
    {
      mListening := false;
      ReadMask();
      mReceiveState := PAYLOAD;
      ListenForPayload(mPayloadLength);
    }

    method HandlePayload()
      requires Allocated() && mReceiveState == PAYLOAD
      modifies this`mPayloadBuffer, this`mListening, this`mCurrentMessageSize, this`mReceiveState,
               this`mInboundMessage, this`mHandled
      ensures Snapshot() == Step(old(Snapshot()))
    {
      StepFromPayload(Snapshot());
      mReceiveState := START;
      if mOpcode % 16 != 0 {
        mInboundMessage := [];
      }
      ReadPayload();
      if mOpcode >= 128 {
        mHandled := mHandled + [mInboundMessage];
      }
      ListenForPayload(1);
    }

    /** A read has completed: one step of the reference machine, or the end of the conversation. */
    method HandleFragment(iError: bool)
      requires Allocated()
      modifies this, mMask
      ensures mSocket == old(mSocket)
      ensures Snapshot() == if iError then old(Snapshot()).(request := None) else Step(old(Snapshot()))
    {
      if iError {
        mListening := false;
      } else {
        match mReceiveState {
          case START => HandleStart();
          case LENGTH => HandleLength();
          case LENGTH_X1 => HandleExtendedLength();
          case LENGTH_X2 => HandleExtendedLength();
          case MASKING_KEY => HandleMaskingKey();
          case PAYLOAD => HandlePayload();
        }
      }
    }

    /** The message leaves as one frame, serialised as section 5.2 of RFC 6455 prescribes. */
    method Send(iMessage: seq<byte>, iMessageType: MessageType)
      requires |iMessage| < SIZE_LIMIT
      modifies this`mSocket
      ensures Wire.Valid(ServerFrame(iMessage, iMessageType))
      ensures mSocket == old(mSocket) + Wire.Serialise(ServerFrame(iMessage, iMessageType))
    {
      ServerFrameValid(iMessage, iMessageType);
      var wResponseHeader: seq<byte> := [128 + if iMessageType == TEXT then 1 else 2];
      if |iMessage| < 126 {
        wResponseHeader := wResponseHeader + [|iMessage|];
      } else if |iMessage| < 65536 {
        var wSizeArray := LittleEndian(|iMessage|, 2);
        wResponseHeader := wResponseHeader + [126];
        wResponseHeader := wResponseHeader + [wSizeArray[1]];
        wResponseHeader := wResponseHeader + [wSizeArray[0]];
        ReversedLittleEndian(|iMessage|, 2);
        assert [wSizeArray[1]] + [wSizeArray[0]] == BigEndian(|iMessage|, 2);
      } else {
        var wSizeArray := LittleEndian(|iMessage|, 8);
        wResponseHeader := wResponseHeader + [127];
        wResponseHeader := wResponseHeader + Reversed(wSizeArray);
        ReversedLittleEndian(|iMessage|, 8);
      }
      ghost var frame := ServerFrame(iMessage, iMessageType);
      assert wResponseHeader ==
             [Wire.FirstOctet(frame), Wire.SecondOctet(frame)] + BigEndian(|iMessage|, Wire.ExtendedSize(frame.form));
      mSocket := mSocket + wResponseHeader;
      mSocket := mSocket + iMessage;
    }
  }

  /** A whole conversation: the handshake left residue in the stream buffer, then s arrives and every
      request is filled by one transfer. The payload handler gets the messages of the acceptable frames. */
  method Converse(residue: seq<byte>, s: seq<byte>) returns (handled: seq<seq<byte>>, stopped: bool)
    ensures var (frames, tail) := Wire.ParseAll((residue + s)[..|s|]);
      && handled == Refinement.Deliveries([], Refinement.Accepted(frames))
      && (stopped <==> |Refinement.Accepted(frames)| < |frames| || Refinement.RefusesStart(tail))
  {
    var connection := new TcpConnection(residue);
    connection.HandleWriteHandshake(false);
    ghost var start := connection.Snapshot();
    var arriving := s;
    while connection.mListening && |arriving| >= connection.mCurrentMessageSize
      invariant connection.Allocated() && fresh(connection) && fresh(connection.mMask)
      invariant connection.Snapshot().Valid() && start.AwaitsFrame()
      invariant Run(connection.Snapshot(), arriving) == Run(start, s)
      decreases |arriving|, if connection.Snapshot().request == Some(0) then 1 else 0
    {
      var n := connection.mCurrentMessageSize;
      RunUnfolds(connection.Snapshot(), arriving);
      ghost var filled := Filled(connection.Snapshot(), arriving);
      connection.mPayloadBuffer := connection.mPayloadBuffer + arriving[..n];
      assert connection.Snapshot() == filled;
      arriving := arriving[n..];
      connection.HandleFragment(false);
    }
    Refinement.DeliveriesWithResidue(start, s);
    assert start.delivered == [] && start.inbound == [];
    handled := connection.mHandled;
    stopped := !connection.mListening;
  }
}
