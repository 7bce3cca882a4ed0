/** Opening a tunnel: the order of steps inside Dial, and the ConnOpen frame at both ends. */
module Dialing {
  import opened Bytes
  import opened Frames
  import opened Envelope
  import opened Sealing
  import opened Channels
  import opened Streams
  import opened FrameIO
  import opened Endpoints
  import opened Adapters
  import opened Targets
  import opened Handshake

  /** The frame the client waits for. */
  predicate IsAck(f: Result<Frame, FrameError>)
  {
    f.Ok? && f.value.typ == AUTH_SUCCESS
  }

  /**
    * authenticate: the proof goes out, and nothing else before the ack has come in. It succeeds if and
    * only if the proof could be written and the frame that came back is an ack.
    */
  method Authenticate(r: Reader, w: Writer, proof: Bytes) returns (ok: bool, ghost ack: Result<Frame, FrameError>)
    requires r.Valid()
    modifies r, r.conn, w
    ensures r.Valid()
    ensures Writable(AuthFrame(proof)) ==> old(w.sent) <= w.sent <= old(w.sent) + EncodeFrame(AuthFrame(proof))
    ensures !Writable(AuthFrame(proof)) ==> w.sent == old(w.sent)
    ensures Writable(AuthFrame(proof)) && w.Sound() ==>
      && w.sent == old(w.sent) + EncodeFrame(AuthFrame(proof))
      && if ack == Err(Faulted) then !r.NoFault() else ParseFrame(old(r.Stream())) == Parse(ack, r.Stream())
    ensures !Writable(AuthFrame(proof)) || !w.Sound() ==> r.Stream() == old(r.Stream())
    ensures ok <==> Writable(AuthFrame(proof)) && w.Sound() && IsAck(ack)
    ensures ok <==> IsAck(ack)
    ensures w.reliable ==> w.Sound()
  {
    hide EncodeFrame, ParseFrame;
    ack := Err(Faulted);
    var sent := WriteFrame(w, AuthFrame(proof));
    if sent.Err? {
      return false, ack;
    }
    var f;
    ghost var consumed;
    f, consumed := ReadFrame(r);
    ack := f;
    ok := f.Ok? && f.value.typ == AUTH_SUCCESS;
  }

  /** WriteConnectFrame: an invalid target takes no nonce; a valid one always fits a frame. */
  method WriteConnectFrame(channel: DataChannel, w: Writer, target: Bytes, filler: nat -> Byte)
      returns (r: Result<(), SendError>)
    requires channel.Valid()
    modifies channel`sent, channel.send, channel.nonces, w
    ensures channel.Valid()
    ensures ValidateTarget(target).Err? ==>
      && r == Err(BadTarget) && channel.sent == old(channel.sent) && channel.send.log == old(channel.send.log)
      && channel.nonces.issued == old(channel.nonces.issued) && w.sent == old(w.sent)
    ensures ValidateTarget(target).Ok? ==>
      && Appended(old(channel.send.log), channel.send.log, old(channel.sent), channel.sent, Msg(CONN_OPEN, target),
                  channel.padding)
      && Transmitted(old(w.sent), w.sent, FrameOf(Msg(CONN_OPEN, target), channel.send.log[|channel.send.log| - 1]),
                     r.Ok?)
    ensures ValidateTarget(target).Ok? ==>
      Wrap(target, channel.padding, filler) == Ok(channel.send.log[|channel.send.log| - 1].plain)
    ensures r.Ok? <==> ValidateTarget(target).Ok? && w.Sound()
    ensures w.reliable ==> (r.Ok? <==> ValidateTarget(target).Ok?)
  {
    ValidTargetsAreShort(target);
    hide ValidateTarget, Wrap, Honest, EncodeFrame;
    if ValidateTarget(target).Err? {
      return Err(BadTarget);
    }
    SmallChunkWraps(target, channel.padding, filler);
    r := channel.Send(w, CONN_OPEN, target, filler);
    TargetIsWritable(target, channel.send.log[|channel.send.log| - 1], channel.padding);
  }

  lemma TargetIsWritable(target: Bytes, e: Sealed, padding: bool)
    requires |target| <= MAX_TARGET && |e.cipher| == CipherLength(|target|, padding)
    ensures Writable(FrameOf(Msg(CONN_OPEN, target), e))
  {
  }

  lemma ValidTargetsAreShort(target: Bytes)
    ensures ValidateTarget(target).Ok? ==> |target| <= MAX_TARGET
  {
  }

  datatype ConnectError = NotRead(receiveError: ReceiveError) | InvalidTarget(targetError: TargetError)

  /** readConnect: one ConnOpen frame, whose payload must be a valid target. */
  method ReadConnect(channel: TunnelChannel, r: Reader)
      returns (res: Result<Bytes, ConnectError>, ghost consumed: Bytes)
    requires channel.Valid() && r.Valid()
    modifies channel`received, r, r.conn
    ensures channel.Valid() && r.Valid() && r.Took(consumed)
    ensures res != Err(NotRead(Framing(Faulted))) ==>
      && r.Stream() == ParseFrame(old(r.Stream())).rest
      && var v := Receive(Gateway, channel.receive.log, CLIENT_TO_SERVER, old(channel.received), CONN_OPEN,
                          old(r.Stream()));
        && channel.received == v.next
        && res == match v.result {
             case Err(e) => Err(NotRead(e))
             case Ok(target) =>
               var valid := ValidateTunnelTarget(target);
               if valid.Ok? then Ok(target) else Err(InvalidTarget(valid.error))
           }
    ensures res == Err(NotRead(Framing(Faulted))) ==> !r.NoFault() && channel.received == old(channel.received)
  {
    hide ParseFrame, Channels.Receive, ValidateTunnelTarget, Honest;
    var payload;
    payload, consumed := channel.Read(r, CONN_OPEN);
    if payload.Err? {
      return Err(NotRead(payload.error)), consumed;
    }
    var valid := ValidateTunnelTarget(payload.value);
    res := if valid.Ok? then Ok(payload.value) else Err(InvalidTarget(valid.error));
  }

  /** The numbers of a client's first frame, byte by byte. */
  lemma FirstFrameBytes(log: seq<Sealed>, salt: Salt, sent: seq<Msg>, target: Bytes)
    requires Honest(log, salt, CLIENT_TO_SERVER, sent) && |log| == 1 && sent == [Msg(CONN_OPEN, target)]
    ensures log[0].nonce == salt + [0, 0, 0, 0, 0, 0, 0, 0] && log[0].aad == [5, 1, 0, 0, 0, 0, 0, 0, 0, 0]
  {
    hide U64, Unwrap;
    assert SealsMessage(log[0], salt, CLIENT_TO_SERVER, 0, sent[0]);
    U64Layout(0);
  }

  lemma FirstFrameOpens(log: seq<Sealed>, salt: Salt, sent: seq<Msg>, target: Bytes)
    requires Honest(log, salt, CLIENT_TO_SERVER, sent) && |log| == 1 && sent == [Msg(CONN_OPEN, target)]
    requires Writable(FrameOf(sent[0], log[0]))
    ensures OpensTunnel(log, FrameOf(Msg(CONN_OPEN, target), log[0]), target)
  {
    hide Honest, EncodeFrame, Channels.Receive;
    forall rest: Bytes
      ensures Channels.Receive(Gateway, log, CLIENT_TO_SERVER, 0, CONN_OPEN,
                               EncodeFrame(FrameOf(sent[0], log[0])) + rest) == Verdict(Ok(target), 1)
    {
      TargetReachesGateway(log, salt, sent, target, rest);
    }
  }

  datatype DialError = AuthenticationFailed | ChannelFailed(sendError: SendError)

  /** The gateway's first read of what this frame starts gives the target, whatever follows. */
  ghost predicate OpensTunnel(log: seq<Sealed>, open: Frame, target: Bytes)
  {
    Writable(open) && forall rest: Bytes {:trigger EncodeFrame(open) + rest} ::
      Receive(Gateway, log, CLIENT_TO_SERVER, 0, CONN_OPEN, EncodeFrame(open) + rest) == Verdict(Ok(target), 1)
  }

  /**
    * Dial once the TLS connection stands. Only the proof is written before the ack is read; then the
    * channel is made and the ConnOpen frame for the target goes out. On success the connection has
    * carried exactly those two frames, and the second gives the gateway the target. It succeeds if and
    * only if both frames could be written, the answer was an ack and the target is valid.
    */
  method Dial(r: Reader, w: Writer, send: Aead, receive: Aead, salt: Salt, padding: bool, proof: Bytes, target: Bytes,
              filler: nat -> Byte)
      returns (res: Result<DataConn, DialError>, ghost ack: Result<Frame, FrameError>)
    requires r.Valid() && send != receive && send.log == []
    modifies r, r.conn, w, send
    ensures res.Ok? <==> Writable(AuthFrame(proof)) && w.Sound() && IsAck(ack) && ValidateTarget(target).Ok?
    ensures Writable(AuthFrame(proof)) || (res == Err(AuthenticationFailed) && w.sent == old(w.sent))
    ensures res == Err(AuthenticationFailed) ==> send.log == [] && !IsAck(ack)
    ensures res == Err(AuthenticationFailed) && Writable(AuthFrame(proof)) ==>
      old(w.sent) <= w.sent <= old(w.sent) + EncodeFrame(AuthFrame(proof))
    ensures res != Err(AuthenticationFailed) ==> IsAck(ack)
    ensures w.Sound() && Writable(AuthFrame(proof)) ==>
      if ack == Err(Faulted) then !r.NoFault() else ParseFrame(old(r.Stream())) == Parse(ack, r.Stream())
    ensures IsAck(ack) ==> ParseFrame(old(r.Stream())) == Parse(ack, r.Stream())
    ensures res.Err? && res.error.ChannelFailed? && ValidateTarget(target).Err? ==>
      && res.error.sendError == BadTarget && send.log == []
      && w.sent == old(w.sent) + EncodeFrame(AuthFrame(proof))
    ensures res.Err? && res.error.ChannelFailed? && ValidateTarget(target).Ok? ==>
      && |send.log| == 1
      && Transmitted(old(w.sent) + EncodeFrame(AuthFrame(proof)), w.sent,
                     FrameOf(Msg(CONN_OPEN, target), send.log[0]), false)
    ensures res.Ok? ==>
      && |send.log| == 1 && Wrap(target, padding, filler) == Ok(send.log[0].plain)
      && var open := FrameOf(Msg(CONN_OPEN, target), send.log[0]);
        && OpensTunnel(send.log, open, target) && open.typ == 5
        && open.nonce == salt + [0, 0, 0, 0, 0, 0, 0, 0] && send.log[0].aad == [5, 1, 0, 0, 0, 0, 0, 0, 0, 0]
        && w.sent == old(w.sent) + EncodeFrame(AuthFrame(proof)) + EncodeFrame(open)
    ensures res.Ok? ==>
      && res.value.Valid() && res.value.readBuffer == [] && res.value.reader == r && res.value.writer == w
      && var channel := res.value.channel;
        && channel.send == send && channel.receive == receive && channel.padding == padding
        && channel.nonces.salt == salt && channel.nonces.issued == 1 && channel.sent == [Msg(CONN_OPEN, target)]
        && channel.sendDir == CLIENT_TO_SERVER && channel.receiveDir == SERVER_TO_CLIENT && channel.receiveSequence == 0
  {
    hide EncodeFrame, ParseFrame, ValidateTarget, Honest, CipherLength, OpensTunnel, Wrap;
    var ok;
    ok, ack := Authenticate(r, w, proof);
    if !ok {
      return Err(AuthenticationFailed), ack;
    }
    var channel := new DataChannel(send, receive, salt, CLIENT_TO_SERVER, SERVER_TO_CLIENT, padding);
    var open := WriteConnectFrame(channel, w, target, filler);
    if open.Err? {
      return Err(ChannelFailed(open.error)), ack;
    }
    assert channel.sent == [Msg(CONN_OPEN, target)];
    FirstFrameOpens(send.log, salt, channel.sent, target);
    FirstFrameBytes(send.log, salt, channel.sent, target);
    var conn := new DataConn(r, w, channel);
    res := Ok(conn);
  }

  /** The target in the client's first frame is the target the gateway reads, and valid at both ends or neither. */
  lemma TargetReachesGateway(log: seq<Sealed>, salt: Salt, sent: seq<Msg>, target: Bytes, rest: Bytes)
    requires Honest(log, salt, CLIENT_TO_SERVER, sent) && 0 < |log| < U64_SPAN
    requires sent[0] == Msg(CONN_OPEN, target)
    requires Writable(FrameOf(sent[0], log[0]))
    ensures var s := EncodeFrame(FrameOf(sent[0], log[0])) + rest;
      && Receive(Gateway, log, CLIENT_TO_SERVER, 0, CONN_OPEN, s) == Verdict(Ok(target), 1)
      && (ValidateTunnelTarget(target).Ok? <==> ValidateTarget(target).Ok?)
      && ParseFrame(s).rest == rest
  {
    hide Honest, EncodeFrame, ParseFrame, ValidateTarget, ValidateTunnelTarget, Accept;
    HonestLengths(log, salt, CLIENT_TO_SERVER, sent);
    ParseOfEncode(FrameOf(sent[0], log[0]), rest);
    AcceptsOnlyTheNextMessage(Gateway, log, salt, CLIENT_TO_SERVER, sent, 0, CONN_OPEN, FrameOf(sent[0], log[0]));
    ValidatorsAgree(target);
  }
}
