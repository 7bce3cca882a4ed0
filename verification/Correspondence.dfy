/**
  * The steps of the machines are the operations of the code: what a step of Pipes, Schedules, Handshake
  * or Receivers does to logs, wires, streams and counters is what the contract of the method it stands
  * for says, given the same outcome of the connection underneath.
  */
module Correspondence {
  import opened Bytes
  import opened Frames
  import opened Envelope
  import opened Sealing
  import opened Channels
  import opened Chunking
  import opened Endpoints
  import Pipes
  import Schedules
  import Handshake
  import Receivers
  import Targets
  import Gateway
  import Dialing

  // ---------------------------------------------------------------- Pipes

  /** Sealing in the pipe is what DataChannel.Send and TunnelChannel.Write do before they write the frame. */
  lemma PipeSeals(s: Pipes.Pipe, padding: bool, filler: nat -> Byte, cipher: Bytes)
    requires |s.log| == |s.sent| && Pipes.SealStep(s, padding, filler, cipher) != s
    ensures var t := Pipes.SealStep(s, padding, filler, cipher);
      && s.holder.Some? && s.holder.value in s.calls
      && var m := Msg(DATA_PAYLOAD, Chunk(s.calls[s.holder.value]));
        && Appended(s.log, t.log, s.sent, t.sent, m, padding)
        && Wrap(m.payload, padding, filler) == Ok(t.log[|s.log|].plain)
        && t.handed == Some(FrameOf(m, t.log[|s.log|]))
        && t.wire == s.wire && t.holder == s.holder
  {
    hide Wrap, NonceAt, AadOfSequence, Chunk;
    WrapDomain(Chunk(s.calls[s.holder.value]), padding, filler);
  }

  /** Its two ways to write are the two outcomes of WriteFrame. */
  lemma PipeWrites(s: Pipes.Pipe, count: nat)
    requires s.handed.Some? && Writable(s.handed.value) && s.log != [] && s.holder.Some? && s.order != []
    ensures Transmitted(s.wire, Pipes.EmitStep(s).wire, s.handed.value, true)
    ensures Transmitted(s.wire, Pipes.FailStep(s, count).wire, s.handed.value, false)
    ensures Pipes.EmitStep(s).holder == s.holder && Pipes.FailStep(s, count).holder.None?
  {
    hide EncodeFrame;
    assert s.wire + EncodeFrame(s.handed.value)[..0] == s.wire;
  }

  /** Its read is the receiver's rule on what has arrived. */
  lemma PipeReads(s: Pipes.Pipe)
    ensures var v := Receive(s.side, s.log, s.dir, s.next, DATA_PAYLOAD, s.inbox);
      Pipes.ReadStep(s) ==
        if s.buffer != [] || v.result == Err(Framing(Truncated)) then s
        else s.(inbox := ParseFrame(s.inbox).rest, next := v.next,
                buffer := if v.result.Ok? then v.result.value else [])
  {
    hide ParseFrame, Accept;
    NoFrame(s.inbox);
    if ParseFrame(s.inbox).result.Ok? {
      AcceptFails(s.side, s.log, s.dir, s.next, DATA_PAYLOAD, ParseFrame(s.inbox).result.value);
    }
  }

  lemma AcceptFails(side: Side, log: seq<Sealed>, dir: Byte, k: nat, typ: Byte, f: Frame)
    ensures Accept(side, log, dir, k, typ, f).result != Err(Framing(Truncated))
  {
    hide Lookup, Unwrap, SequenceOf, AadOfSequence, AadOfNonce;
  }

  // ---------------------------------------------------------------- Schedules

  /** A turn of the read loop is a TunnelChannel.Read and, if it gave a payload, a write of it. */
  lemma UpTurnReads(s: Schedules.Tunnel, cut: Option<nat>)
    requires Schedules.IsOpen(s) && !s.upDone
    ensures var v := Receive(Gateway, s.clientLog, CLIENT_TO_SERVER, s.received, DATA_PAYLOAD, s.fromClient);
      var t := Schedules.UpStep(s, cut);
      && t.received == v.next && t.fromClient == ParseFrame(s.fromClient).rest
      && t.toDestination == s.toDestination + (if v.result.Ok? then Taken(v.result.value, cut) else [])
      && (v.result.Err? ==> t.upDone)
      && (v.result.Ok? && v.result.value != [] ==> (t.upDone <==> cut.Some?))
  {
    hide Receive, ParseFrame;
  }

  /** A push is a TunnelChannel.Write of the next chunk in hand. */
  lemma PushTurnWrites(s: Schedules.Tunnel, sent: seq<Msg>, filler: nat -> Byte, cipher: Bytes, cut: Option<nat>)
    requires !s.tunnelClosed && Schedules.CanPush(s, filler, cipher)
    ensures var t, m := Schedules.PushStep(s, filler, cipher, cut), Msg(DATA_PAYLOAD, Chunk(s.pending));
      && Appended(s.log, t.log, sent, sent + [m], m, s.padding)
      && Wrap(m.payload, s.padding, filler) == Ok(t.log[|s.log|].plain)
      && Transmitted(s.toClient, t.toClient, FrameOf(m, t.log[|s.log|]), cut.None?)
      && (cut.Some? ==> t.downDone)
  {
    hide Wrap, NonceAt, AadOfSequence, SequenceOf, Chunk, EncodeFrame;
    WrapDomain(Chunk(s.pending), s.padding, filler);
  }

  // ---------------------------------------------------------------- Handshake

  /** The gateway's decision is that of AuthenticateReplay on what it has recorded. */
  lemma GatewayDecides(s: Handshake.Session, ackWritten: nat, ackOk: bool)
    requires s.gateway == Handshake.Reading && |s.seen| >= HEADER_SIZE && |s.seen| >= Handshake.Wanted(s.seen)
    ensures var t := Handshake.DecideStep(s, ackWritten, ackOk);
      var good := Gateway.IsProof(ParseFrame(s.seen).result, s.expected);
      && (t.gateway == Handshake.Serving <==> good && ackOk)
      && (t.gateway == Handshake.FallingBack <==> !(good && ackOk))
      && (!good ==> t.down == s.down)
      && (good ==> Transmitted(s.down, t.down, Handshake.ACK, ackOk))
  {
    hide ParseFrame, EncodeFrame, Handshake.Wanted;
    Handshake.AckIsWritable();
  }

  /** The client's wait is Authenticate's: it is connected exactly if the frame that came is an ack. */
  lemma ClientReceivesAck(s: Handshake.Session)
    requires s.client == Handshake.AwaitingAck && ParseFrame(s.down).result.Ok?
    ensures var t := Handshake.ReceiveAckStep(s);
      && (t.client == Handshake.Connected <==> Dialing.IsAck(ParseFrame(s.down).result))
      && (t.client == Handshake.GaveUp <==> !Dialing.IsAck(ParseFrame(s.down).result))
      && t.down == ParseFrame(s.down).rest
  {
    hide ParseFrame;
  }

  /** Its frames go out as WriteConnectFrame and DataConn.Write send them. */
  lemma ClientSends(s: Handshake.Session, data: Bytes, padding: bool, filler: nat -> Byte, cipher: Bytes,
                    cut: Option<nat>)
    requires |s.log| == |s.sent| && Handshake.SendFrameStep(s, data, padding, filler, cipher, cut).log != s.log
    ensures var t, m := Handshake.SendFrameStep(s, data, padding, filler, cipher, cut), Handshake.NextMsg(s, data);
      && Appended(s.log, t.log, s.sent, t.sent, m, padding)
      && Wrap(m.payload, padding, filler) == Ok(t.log[|s.log|].plain)
      && Transmitted(s.written, t.written, FrameOf(m, t.log[|s.log|]), cut.None?)
  {
    hide Wrap, NonceAt, AadOfSequence, Chunk, EncodeFrame, Targets.ValidateTarget;
    WrapDomain(Handshake.NextMsg(s, data).payload, padding, filler);
  }

  // ---------------------------------------------------------------- Receivers

  /** A send that gets as far as sealing is that of either channel. */
  lemma LinkSends(s: Receivers.Link, m: Msg, padding: bool, filler: nat -> Byte, cipher: Bytes)
    requires Receivers.SendStep(s, m, padding, filler, cipher) != s
    ensures var t := Receivers.SendStep(s, m, padding, filler, cipher);
      Appended(s.log, t.log, s.sent, t.sent, m, padding) && Wrap(m.payload, padding, filler) == Ok(t.log[|s.log|].plain)
  {
    hide Wrap, NonceAt, AadOfSequence;
    WrapDomain(m.payload, padding, filler);
  }

  /** A read is the receiver's rule. */
  lemma LinkReads(s: Receivers.Link, typ: Byte, wire: Bytes)
    ensures var v, t := Receive(s.side, s.log, s.dir, s.next, typ, wire), Receivers.ReadStep(s, typ, wire);
      && t.next == v.next && t.log == s.log && t.sent == s.sent
      && t.accepted == s.accepted + (if v.result.Ok? then [Msg(typ, v.result.value)] else [])
  {
    hide Receive;
  }
}
