/** The gateway's connection handling: TLS preparation, authentication with replay, fallback. */
module Gateway {
  import opened Bytes
  import opened Frames
  import opened Streams
  import opened FrameIO
  import opened Handshake

  const BUFIO_SIZE: nat := 4096
  const TLS_HANDSHAKE: Byte := 0x16

  datatype AuthOutcome = Authenticated | Refused(replay: Replay) | NoDeadline

  /** The frame that opens the gate: the right type and the right proof. */
  predicate IsProof(f: Result<Frame, FrameError>, proof: Bytes)
  {
    f.Ok? && f.value.typ == AUTH_RESPONSE && f.value.ciphertext == proof
  }

  /**
    * AuthenticateReplay. If it refuses, for whatever reason and however much had been read, teed or
    * buffered by then, the replay is the stream as it was, byte for byte. If it accepts, the stream
    * was a good proof frame, what the discarded reader still held, and what is left. It accepts
    * exactly if the frame in front is a good proof and the ack could be written, and it writes
    * nothing before it has seen the proof.
    */
  method AuthenticateReplay(conn: Conn, w: Writer, proof: Bytes, deadlineOk: bool)
      returns (outcome: AuthOutcome, ghost parsed: Result<Frame, FrameError>, ghost dropped: Bytes)
    requires !conn.capturing
    modifies conn, w
    ensures outcome.NoDeadline? <==> !deadlineOk
    ensures outcome.NoDeadline? ==> conn.incoming == old(conn.incoming)
    ensures outcome.Refused? ==>
      && fresh(outcome.replay) && fresh(outcome.replay.tail) && outcome.replay.tail.conn == conn
      && outcome.replay.Valid()
      && outcome.replay.Contents() == old(conn.incoming) && outcome.replay.tail.Faults() >= old(conn.faults)
    ensures outcome.Authenticated? ==>
      && parsed.Ok? && Writable(parsed.value)
      && old(conn.incoming) == EncodeFrame(parsed.value) + dropped + conn.incoming
      && w.sent == old(w.sent) + EncodeFrame(ACK)
    ensures outcome.Authenticated? <==> deadlineOk && IsProof(parsed, proof) && w.Sound()
    ensures deadlineOk && parsed != Err(Faulted) ==> parsed == ParseFrame(old(conn.incoming)).result
    ensures deadlineOk && parsed == Err(Faulted) ==> conn.faults > old(conn.faults)
    ensures !deadlineOk || !IsProof(parsed, proof) ==> w.sent == old(w.sent) && w.Sound()
    ensures old(w.sent) <= w.sent <= old(w.sent) + EncodeFrame(ACK)
    ensures w.reliable ==> w.Sound()
  {
    hide EncodeFrame, ParseFrame;
    parsed, dropped := Err(Faulted), [];
    if !deadlineOk {
      return NoDeadline, parsed, dropped;
    }
    var br := new Reader(conn, BUFIO_SIZE);
    var f;
    ghost var consumed;
    assert br.Stream() == conn.incoming;
    f, consumed := ReadFrame(br);
    parsed := f;
    assert br.seen == consumed;
    if f.Err? || f.value.typ != AUTH_RESPONSE || f.value.ciphertext != proof {
      var replay := new Replay(br.seen, br);
      return Refused(replay), parsed, dropped;
    }
    var ack := WriteFrame(w, ACK);
    if ack.Err? {
      var replay := new Replay(br.seen, br);
      return Refused(replay), parsed, dropped;
    }
    dropped := br.buffer;
    assert old(conn.incoming) == EncodeFrame(f.value) + (br.buffer + conn.incoming);
    return Authenticated, parsed, dropped;
  }

  predicate StartsTLS(stream: Bytes)
  {
    stream != [] && stream[0] == TLS_HANDSHAKE
  }

  /**
    * prepareGatewayTLS: peek at the first byte, then let the TLS server read through the buffered
    * reader, in reads of any sizes, until it is done or a read fails; handshakeOk is its verdict.
    * Whatever it does, what was captured and what is still to come make up the original stream.
    * Only the end of the stream, a failing read or a hundred empty ones keep the first byte unseen.
    */
  method PrepareGatewayTLS(raw: Conn, sizes: seq<nat>, handshakeOk: bool, deadlineOk: bool)
      returns (ok: bool, ghost peeked: bool)
    requires raw.capturing
    modifies raw
    ensures raw.capturing
    ensures raw.captured + raw.incoming == old(raw.captured + raw.incoming) && raw.faults >= old(raw.faults)
    ensures ok <==> deadlineOk && peeked && StartsTLS(old(raw.incoming)) && handshakeOk
    ensures deadlineOk && !peeked ==>
      old(raw.incoming) == [] || raw.faults > old(raw.faults) || raw.stalls + 100 <= old(raw.stalls)
  {
    peeked := false;
    if !deadlineOk {
      return false, peeked;
    }
    var reader := new Reader(raw, BUFIO_SIZE);
    assert reader.Stream() == raw.incoming;
    var first := reader.Peek();
    assert [] + reader.Stream() == old(raw.incoming);
    peeked := first.Some?;
    if first.None? || first.value != TLS_HANDSHAKE {
      return false, peeked;
    }
    for i := 0 to |sizes|
      invariant reader.Valid() && raw.capturing && reader.conn == raw
      invariant raw.captured + raw.incoming == old(raw.captured + raw.incoming)
      invariant reader.Faults() >= old(raw.faults)
    {
      if sizes[i] > 0 {
        var data, st := reader.Read(sizes[i]);
        if st != Fine {
          break;
        }
      }
    }
    return handshakeOk, peeked;
  }

  /** NoReplay: the fallback is called without a reader, because the read deadline could not be set. */
  datatype Outcome = Served | Closed | NoReplay | FellBack(total: nat, copied: Result<(), CopyError>)

  /**
    * What a fallback gave the decoy of a stream: at least the bytes it counted, never anything but a
    * prefix of the stream, and all of it if it reported success.
    */
  ghost predicate GivenToDecoy(stream: Bytes, before: Bytes, sent: Bytes, outcome: Outcome)
  {
    && outcome.FellBack? && outcome.total <= |stream|
    && before + stream[..outcome.total] <= sent <= before + stream
    && (outcome.copied.Ok? ==> outcome.total == |stream|)
    && (outcome.copied == Err(ReadFailed) ==> sent == before + stream[..outcome.total])
  }

  /** The OnFallback callback, on a replay of the stream from its first byte. */
  method FallBack(decoy: Writer, replay: Replay) returns (outcome: Outcome)
    requires replay.Valid()
    modifies decoy, replay, replay.tail, replay.tail.conn
    ensures GivenToDecoy(old(replay.Contents()), old(decoy.sent), decoy.sent, outcome)
    ensures old(replay.tail.Faults()) <= replay.tail.Faults()
    ensures old(replay.tail.conn.faults) <= replay.tail.conn.faults
    ensures replay.tail.conn.stalls <= old(replay.tail.conn.stalls)
    ensures outcome.copied == Err(ReadFailed) ==> replay.tail.Faults() > old(replay.tail.Faults())
    ensures decoy.reliable ==> outcome.copied.Ok? || outcome.copied.error == ReadFailed
    ensures replay.tail.conn.capturing == old(replay.tail.conn.capturing)
  {
    ghost var last;
    var total, copied;
    total, copied, last := RelayCopy(decoy, replay);
    outcome := FellBack(total, copied);
    ghost var whole := old(replay.Contents());
    assert whole == whole[..total] + last + replay.Contents();
    assert whole[..total] + last <= whole;
    if copied.Ok? {
      assert whole[..total] + [] + [] == whole;
    }
  }

  /** server.go after the exporter: authenticate, and serve or fall back. */
  method HandleSession(app: Conn, client: Writer, decoy: Writer, proof: Bytes, authDeadlineOk: bool)
      returns (outcome: Outcome, ghost parsed: Result<Frame, FrameError>)
    requires client != decoy && !app.capturing
    modifies app, client, decoy
    ensures outcome.NoReplay? <==> !authDeadlineOk
    ensures outcome.Served? <==> authDeadlineOk && IsProof(parsed, proof) && client.Sound()
    ensures !outcome.Closed?
    ensures authDeadlineOk ==>
      if parsed == Err(Faulted) then app.faults > old(app.faults) else parsed == ParseFrame(old(app.incoming)).result
    ensures outcome.Served? ==> client.sent == old(client.sent) + EncodeFrame(ACK)
    ensures !authDeadlineOk || !IsProof(parsed, proof) ==> client.sent == old(client.sent)
    ensures old(client.sent) <= client.sent <= old(client.sent) + EncodeFrame(ACK)
    ensures client.reliable ==> client.Sound()
    ensures !outcome.FellBack? ==> decoy.sent == old(decoy.sent)
    ensures outcome.FellBack? ==>
      && GivenToDecoy(old(app.incoming), old(decoy.sent), decoy.sent, outcome)
      && (outcome.copied == Err(ReadFailed) ==> app.faults > old(app.faults))
      && (decoy.reliable ==> outcome.copied.Ok? || outcome.copied.error == ReadFailed)
  {
    hide EncodeFrame, ParseFrame, GivenToDecoy, IsProof;
    ghost var dropped;
    var auth;
    auth, parsed, dropped := AuthenticateReplay(app, client, proof, authDeadlineOk);
    match auth {
      case Authenticated =>
        outcome := Served;
      case Refused(replay) =>
        outcome := FallBack(decoy, replay);
        FallingBack(old(app.incoming), old(decoy.sent), decoy.sent, outcome);
      case NoDeadline =>
        outcome := NoReplay;
    }
  }

  lemma FallingBack(stream: Bytes, before: Bytes, sent: Bytes, outcome: Outcome)
    requires GivenToDecoy(stream, before, sent, outcome)
    ensures outcome.FellBack?
  {
  }

  /**
    * Server.handle with the decoy relay behind it. raw is the accepted connection, app what the TLS
    * layer decrypts from it. Every outcome has its exact condition: a connection is served if and
    * only if its first frame is a good proof and the ack went out, and before that the client has
    * been sent nothing. If TLS preparation or authentication fails, the decoy is given the stream
    * from its first byte.
    */
  method Handle(raw: Conn, app: Conn, client: Writer, decoy: Writer, proof: Bytes,
                sizes: seq<nat>, handshakeOk: bool, tlsDeadlineOk: bool, exporterOk: bool, authDeadlineOk: bool)
      returns (outcome: Outcome, ghost prepared: bool, ghost peeked: bool, ghost parsed: Result<Frame, FrameError>)
    requires raw != app && client != decoy
    requires raw.capturing && raw.captured == [] && !app.capturing
    modifies raw, app, client, decoy
    // when which
    ensures prepared <==> tlsDeadlineOk && peeked && StartsTLS(old(raw.incoming)) && handshakeOk
    ensures tlsDeadlineOk && !peeked ==>
      old(raw.incoming) == [] || raw.faults > old(raw.faults) || raw.stalls + 100 <= old(raw.stalls)
    ensures outcome.Closed? <==> prepared && !exporterOk
    ensures outcome.NoReplay? <==> prepared && exporterOk && !authDeadlineOk
    ensures outcome.Served? <==> prepared && exporterOk && authDeadlineOk && IsProof(parsed, proof) && client.Sound()
    ensures prepared && exporterOk && authDeadlineOk ==>
      if parsed == Err(Faulted) then app.faults > old(app.faults) else parsed == ParseFrame(old(app.incoming)).result
    ensures raw.capturing <==> !prepared
    // what the client gets
    ensures outcome.Served? ==> client.sent == old(client.sent) + EncodeFrame(ACK)
    ensures !prepared || !exporterOk || !authDeadlineOk || !IsProof(parsed, proof) ==> client.sent == old(client.sent)
    ensures old(client.sent) <= client.sent <= old(client.sent) + EncodeFrame(ACK)
    ensures client.reliable ==> client.Sound()
    // what the decoy gets
    ensures !outcome.FellBack? ==> decoy.sent == old(decoy.sent)
    ensures outcome.FellBack? ==>
      && GivenToDecoy(if prepared then old(app.incoming) else old(raw.incoming), old(decoy.sent), decoy.sent, outcome)
      && (outcome.copied == Err(ReadFailed) ==>
            if prepared then app.faults > old(app.faults) else raw.faults > old(raw.faults))
      && (decoy.reliable ==> outcome.copied.Ok? || outcome.copied.error == ReadFailed)
  {
    hide EncodeFrame, ParseFrame, GivenToDecoy, IsProof, StartsTLS;
    parsed := Err(Faulted);
    var ready;
    ready, peeked := PrepareGatewayTLS(raw, sizes, handshakeOk, tlsDeadlineOk);
    prepared := ready;
    if !ready {
      assert raw.captured + raw.incoming == old(raw.incoming);
      var rest := new Reader(raw, 0);
      var replay := new Replay(raw.captured, rest);
      assert replay.Contents() == old(raw.incoming);
      outcome := FallBack(decoy, replay);
      FallingBack(old(raw.incoming), old(decoy.sent), decoy.sent, outcome);
      return;
    }
    raw.capturing := false;
    if !exporterOk {
      return Closed, prepared, peeked, parsed;
    }
    outcome, parsed := HandleSession(app, client, decoy, proof, authDeadlineOk);
  }
}
