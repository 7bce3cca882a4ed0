/**
  * The client-first handshake as one machine of two parties. The gateway reads the proof through a
  * buffered reader that may pull in more than it was asked for, and throws that reader away when the
  * proof is good. The client seals its frames under its key: the ConnOpen for its target, then data.
  * Any of its writes may fail after any part: dialing is then over, while a tunnel that stands may be
  * written to again. eager says whether the client may write frames before it has seen the ack; the
  * client of this system may not.
  */
module Handshake {
  import opened Bytes
  import opened Frames
  import opened Envelope
  import opened Sealing
  import opened Channels
  import opened Chunking
  import opened Targets

  datatype ClientPhase = Start | AwaitingAck | Connected | GaveUp
  datatype GatewayPhase = Reading | Serving | FallingBack

  datatype Session = Session(
    eager: bool,
    proof: Bytes,           // what the client sends
    expected: Bytes,        // what the gateway wants to see
    salt: Salt,
    target: Bytes,
    client: ClientPhase,
    gateway: GatewayPhase,
    log: seq<Sealed>,       // what the client has sealed
    sent: seq<Msg>,         // and meant by it
    frames: seq<Frame>,     // as frames
    written: Bytes,         // what the client's connection has taken in all
    up: Bytes,              // in flight to the gateway
    down: Bytes,            // in flight to the client
    buffer: Bytes,          // in the gateway's bufio.Reader
    seen: Bytes,            // what its TeeReader has recorded
    dropped: Bytes,         // what was in the bufio.Reader when it was thrown away
    served: Bytes           // what the tunnel has read from the connection since
  )

  datatype Event =
    | SendProof(cut: Option<nat>)
    | Fill(count: nat)
    | Take(count: nat)
    | Decide(ackWritten: nat, ackOk: bool)
    | TimeOut
    | ReceiveAck
    | SendFrame(data: Bytes, padding: bool, filler: nat -> Byte, cipher: Bytes, cut: Option<nat>)
    | Serve(count: nat)

  const NO_NONCE: Nonce := [0, 0, 0, 0, 0, 0, 0, 0, 0, 0, 0, 0]

  function AuthFrame(proof: Bytes): Frame
  {
    Frame(AUTH_RESPONSE, NO_NONCE, proof)
  }

  const ACK: Frame := Frame(AUTH_SUCCESS, NO_NONCE, [])

  function Initial(eager: bool, proof: Bytes, expected: Bytes, salt: Salt, target: Bytes): Session
  {
    Session(eager, proof, expected, salt, target, Start, Reading, [], [], [], [], [], [], [], [], [], [])
  }

  /** The two frames of the handshake byte by byte. */
  lemma HandshakeBytes(proof: Bytes)
    requires |proof| <= 65535
    ensures Writable(AuthFrame(proof)) && Writable(ACK)
    ensures EncodeFrame(AuthFrame(proof)) ==
      [2, |proof| / 256, |proof| % 256, 0, 0, 0, 0, 0, 0, 0, 0, 0, 0, 0, 0] + proof
    ensures EncodeFrame(ACK) == [6, 0, 0, 0, 0, 0, 0, 0, 0, 0, 0, 0, 0, 0, 0]
  {
    FrameLayout(AuthFrame(proof));
    FrameLayout(ACK);
  }

  /** How many bytes ReadFrame will have asked for, given what it has read so far. */
  function Wanted(seen: Bytes): nat
  {
    if |seen| < HEADER_SIZE || !ValidType(seen[0]) then HEADER_SIZE
    else HEADER_SIZE + FromBigEndian(seen[1..3])
  }

  function SendProofStep(s: Session, cut: Option<nat>): Session
  {
    if s.client != Start || !Writable(AuthFrame(s.proof)) then s
    else
      var bytes := Taken(EncodeFrame(AuthFrame(s.proof)), cut);
      s.(client := if cut.Some? then GaveUp else AwaitingAck, up := s.up + bytes, written := s.written + bytes)
  }

  function FillStep(s: Session, count: nat): Session
  {
    if s.gateway != Reading || count > |s.up| then s
    else s.(buffer := s.buffer + s.up[..count], up := s.up[count..])
  }

  function TakeStep(s: Session, count: nat): Session
  {
    if s.gateway != Reading || count > |s.buffer| || |s.seen| + count > Wanted(s.seen) then s
    else s.(seen := s.seen + s.buffer[..count], buffer := s.buffer[count..])
  }

  predicate GoodProof(s: Session)
  {
    var p := ParseFrame(s.seen);
    p.result.Ok? && p.result.value.typ == AUTH_RESPONSE && p.result.value.ciphertext == s.expected
  }

  /** ReadFrame has returned: check the proof, write the ack, keep or drop the reader. */
  function DecideStep(s: Session, ackWritten: nat, ackOk: bool): Session
  {
    if s.gateway != Reading || |s.seen| < HEADER_SIZE || |s.seen| < Wanted(s.seen) then s
    else if !GoodProof(s) then s.(gateway := FallingBack)
    else if ackOk then
      s.(gateway := Serving, down := s.down + EncodeFrame(ACK), dropped := s.buffer, buffer := [])
    else
      s.(gateway := FallingBack, down := s.down + Taken(EncodeFrame(ACK), Some(ackWritten)))
  }

  function TimeOutStep(s: Session): Session
  {
    if s.gateway != Reading then s else s.(gateway := FallingBack)
  }

  function ReceiveAckStep(s: Session): Session
  {
    var p := ParseFrame(s.down);
    if s.client != AwaitingAck || p.result.Err? then s
    else s.(client := if p.result.value.typ == AUTH_SUCCESS then Connected else GaveUp, down := p.rest)
  }

  /** The client may write frames now. */
  predicate MaySend(s: Session)
  {
    s.client == Connected || (s.eager && s.client == AwaitingAck)
  }

  /** What it writes next: the ConnOpen for its target, and after that chunks of data. */
  function NextMsg(s: Session, data: Bytes): Msg
  {
    if s.sent == [] then Msg(CONN_OPEN, s.target) else Msg(DATA_PAYLOAD, Chunk(data))
  }

  function SendFrameStep(s: Session, data: Bytes, padding: bool, filler: nat -> Byte, cipher: Bytes,
                         cut: Option<nat>): Session
  {
    var m := NextMsg(s, data);
    var wrapped := Wrap(m.payload, padding, filler);
    if !MaySend(s) then s
    else if s.sent == [] && ValidateTarget(s.target).Err? then s.(client := GaveUp)
    else if wrapped.Err? || |cipher| != |wrapped.value| + OVERHEAD then s
    else
      var k := |s.log|;
      var aad := AadOfSequence(m.typ, CLIENT_TO_SERVER, k % U64_SPAN);
      var e := Sealed(NonceAt(s.salt, k), aad, wrapped.value, cipher);
      var f := FrameOf(m, e);
      if !Writable(f) then s
      else
        var bytes := Taken(EncodeFrame(f), cut);
        s.(log := s.log + [e], sent := s.sent + [m], frames := s.frames + [f],
           client := if cut.Some? && s.sent == [] then GaveUp else s.client,
           up := s.up + bytes, written := s.written + bytes)
  }

  function ServeStep(s: Session, count: nat): Session
  {
    if s.gateway != Serving || count > |s.up| then s
    else s.(served := s.served + s.up[..count], up := s.up[count..])
  }

  function Step(s: Session, e: Event): Session
  {
    match e
    case SendProof(cut) => SendProofStep(s, cut)
    case Fill(count) => FillStep(s, count)
    case Take(count) => TakeStep(s, count)
    case Decide(ackWritten, ackOk) => DecideStep(s, ackWritten, ackOk)
    case TimeOut => TimeOutStep(s)
    case ReceiveAck => ReceiveAckStep(s)
    case SendFrame(data, padding, filler, cipher, cut) => SendFrameStep(s, data, padding, filler, cipher, cut)
    case Serve(count) => ServeStep(s, count)
  }

  function Run(s: Session, es: seq<Event>): Session
  {
    if es == [] then s else Step(Run(s, es[..|es| - 1]), es[|es| - 1])
  }

  // ---------------------------------------------------------------- what every step keeps

  /** The client's key, its messages and their frames go together, and the first message opens its target. */
  ghost predicate ClientSeals(salt: Salt, target: Bytes, log: seq<Sealed>, sent: seq<Msg>, frames: seq<Frame>)
  {
    && Honest(log, salt, CLIENT_TO_SERVER, sent)
    && |log| == |sent| && frames == FramesOf(sent, log) && AllWritable(frames)
    && (sent != [] ==> sent[0] == Msg(CONN_OPEN, target))
    && (forall i :: 0 < i < |sent| ==> sent[i].typ == DATA_PAYLOAD)
  }

  /** The bytes of the client's first frame, once it has one. */
  function Opening(frames: seq<Frame>): Bytes
    requires frames != [] ==> Writable(frames[0])
  {
    if frames == [] then [] else EncodeFrame(frames[0])
  }

  /** Neither has a byte where the other has a different one. */
  predicate Comparable(a: Bytes, b: Bytes)
  {
    a <= b || b <= a
  }

  /** What the client has written starts with its proof and its first frame, as far as it goes. */
  ghost predicate ClientWrites(proof: Bytes, client: ClientPhase, frames: seq<Frame>, written: Bytes)
  {
    && AllWritable(frames)
    && (client == Start ==> written == [] && frames == [])
    && (client != Start ==>
          && Writable(AuthFrame(proof))
          && var head := EncodeFrame(AuthFrame(proof)) + Opening(frames);
            && Comparable(written, head)
            && (frames == [] ==> written <= head)
            && (client != GaveUp ==> head <= written))
  }

  /** No byte is lost between the client and the gateway's reader, tunnel and dropped buffer. */
  ghost predicate Conserved(s: Session)
  {
    && s.seen + s.buffer + s.dropped + s.served + s.up == s.written
    && (s.gateway != Serving ==> s.dropped == [] && s.served == [])
    && (s.gateway == Serving ==> s.client != Start && Writable(AuthFrame(s.proof)))
    && (s.gateway == Serving ==> s.seen == EncodeFrame(AuthFrame(s.proof)) && s.buffer == [])
  }

  /** The ack is the only way past the proof: until the gateway has decided, the client has sent nothing else. */
  ghost predicate Waited(s: Session)
  {
    && (s.gateway == Reading ==> s.down == [] && s.client != Connected)
    && (!s.eager && s.gateway == Reading ==> s.frames == [])
    && (!s.eager ==> s.dropped == [])
  }

  /** Nothing has been answered to a wrong proof. */
  ghost predicate Answered(s: Session)
  {
    s.down != [] || s.client == Connected || s.gateway == Serving ==> s.proof == s.expected
  }

  ghost predicate Inv(s: Session)
  {
    && ClientSeals(s.salt, s.target, s.log, s.sent, s.frames)
    && ClientWrites(s.proof, s.client, s.frames, s.written)
    && Conserved(s)
    && Waited(s)
    && Answered(s)
  }

  /** Bytes that continue the same start agree from there on exactly when they agree. */
  lemma ComparableTails(a: Bytes, b: Bytes, c: Bytes)
    ensures Comparable(a + b, a + c) <==> Comparable(b, c)
    ensures a + b <= a + c <==> b <= c
    ensures a + c <= a + b <==> c <= b
  {
    assert (a + b)[|a|..] == b && (a + c)[|a|..] == c;
    if a + b <= a + c {
      assert b == (a + c)[|a|..|a| + |b|];
    }
    if a + c <= a + b {
      assert c == (a + b)[|a|..|a| + |c|];
    }
  }

  /** A good proof frame read off what this client wrote is its proof, and its first frame is all that can follow. */
  lemma ProofIsWhole(s: Session)
    requires ClientWrites(s.proof, s.client, s.frames, s.written) && Conserved(s) && s.gateway == Reading
    requires ParseFrame(s.seen).result.Ok?
    requires |s.seen| <= Wanted(s.seen)
    ensures Writable(AuthFrame(s.proof)) && s.client != Start
    ensures s.seen == EncodeFrame(AuthFrame(s.proof))
    ensures ParseFrame(s.seen) == Parse(Ok(AuthFrame(s.proof)), [])
    ensures Comparable(s.buffer + s.up, Opening(s.frames)) && (s.frames == [] ==> s.buffer + s.up == [])
  {
    hide FromBigEndian, U16;
    assert s.seen + s.buffer + s.dropped + s.served + s.up == s.seen + (s.buffer + s.up);
    assert ParseFrame(s.seen).rest == [];
    assert s.client != Start;
    hide EncodeFrame, ParseFrame;
    var auth, rest := AuthFrame(s.proof), s.buffer + s.up;
    var head := EncodeFrame(auth) + Opening(s.frames);
    EncodeOfParse(s.seen);
    assert s.seen + [] == s.seen;
    if s.written <= head {
      SameFront(s.seen, rest + head[|s.written|..], auth, Opening(s.frames));
    } else {
      SameFront(s.seen, rest, auth, Opening(s.frames) + s.written[|head|..]);
    }
    ComparableTails(s.seen, rest, Opening(s.frames));
  }

  /** Two ways to take a first frame off the same bytes take the same. */
  lemma SameFront(seen: Bytes, rest: Bytes, f: Frame, more: Bytes)
    requires ParseFrame(seen).result.Ok? && ParseFrame(seen).rest == [] && Writable(f)
    requires seen + rest == EncodeFrame(f) + more
    ensures seen == EncodeFrame(f) && ParseFrame(seen).result == Ok(f)
  {
    hide EncodeFrame, ParseFrame;
    ParseIsStable(seen, rest);
    ParseOfEncode(f, more);
    EncodeOfParse(seen);
  }

  lemma SendProofKeepsInv(s: Session, cut: Option<nat>)
    requires Inv(s)
    ensures Inv(SendProofStep(s, cut))
  {
    hide EncodeFrame, ClientSeals;
    var t := SendProofStep(s, cut);
    if t != s {
      assert t.written == s.written + Taken(EncodeFrame(AuthFrame(s.proof)), cut);
      assert t.seen + t.buffer + t.dropped + t.served + t.up ==
        s.seen + s.buffer + s.dropped + s.served + s.up + Taken(EncodeFrame(AuthFrame(s.proof)), cut);
    }
  }

  lemma ReceiveAckKeepsInv(s: Session)
    requires Inv(s)
    ensures Inv(ReceiveAckStep(s))
  {
    hide EncodeFrame, ParseFrame, ClientSeals;
    ParseOfNothing();
  }

  lemma ParseOfNothing()
    ensures ParseFrame([]).result == Err(Truncated)
  {
  }

  lemma FillKeepsInv(s: Session, count: nat)
    requires Inv(s)
    ensures Inv(FillStep(s, count))
  {
    hide EncodeFrame, ClientSeals, ClientWrites;
    var t := FillStep(s, count);
    assert t.seen + t.buffer + t.dropped + t.served + t.up == s.seen + s.buffer + s.dropped + s.served + s.up;
  }

  lemma TakeKeepsInv(s: Session, count: nat)
    requires Inv(s)
    ensures Inv(TakeStep(s, count))
  {
    hide EncodeFrame, ClientSeals, ClientWrites, Wanted;
    var t := TakeStep(s, count);
    assert t.seen + t.buffer + t.dropped + t.served + t.up == s.seen + s.buffer + s.dropped + s.served + s.up;
  }

  lemma ServeKeepsInv(s: Session, count: nat)
    requires Inv(s)
    ensures Inv(ServeStep(s, count))
  {
    hide EncodeFrame, ClientSeals, ClientWrites;
    var t := ServeStep(s, count);
    assert t.seen + t.buffer + t.dropped + t.served + t.up == s.seen + s.buffer + s.dropped + s.served + s.up;
  }

  lemma TimeOutKeepsInv(s: Session)
    requires Inv(s)
    ensures Inv(TimeOutStep(s))
  {
    hide EncodeFrame, ClientSeals, ClientWrites;
  }

  lemma DecideKeepsInv(s: Session, ackWritten: nat, ackOk: bool)
    requires Inv(s) && |s.seen| <= Wanted(s.seen)
    ensures Inv(DecideStep(s, ackWritten, ackOk))
  {
    hide EncodeFrame, ParseFrame, ClientSeals, ClientWrites, Wanted;
    var t := DecideStep(s, ackWritten, ackOk);
    if s.gateway == Reading && ParseFrame(s.seen).result.Ok? {
      ProofIsWhole(s);
    }
    if s.gateway == Reading && t.gateway == Serving {
      assert s.frames == [] ==> s.buffer == [];
      assert s.seen + s.buffer + [] + [] + s.up == s.seen + [] + s.buffer + [] + s.up;
    }
  }

  /** What a SendFrameStep that seals adds. */
  lemma SendFrameAdds(s: Session, data: Bytes, padding: bool, filler: nat -> Byte, cipher: Bytes, cut: Option<nat>)
    requires SendFrameStep(s, data, padding, filler, cipher, cut).log != s.log
    ensures MaySend(s)
    ensures var t, m := SendFrameStep(s, data, padding, filler, cipher, cut), NextMsg(s, data);
      && t.sent == s.sent + [m] && |t.log| == |s.log| + 1 && s.log <= t.log
      && SealsMessage(t.log[|s.log|], s.salt, CLIENT_TO_SERVER, |s.log|, m)
      && var f := FrameOf(m, t.log[|s.log|]);
        && Writable(f) && t.frames == s.frames + [f]
        && t == s.(log := t.log, sent := t.sent, frames := t.frames,
                   client := if cut.Some? && s.sent == [] then GaveUp else s.client,
                   up := s.up + Taken(EncodeFrame(f), cut), written := s.written + Taken(EncodeFrame(f), cut))
  {
    hide Wrap, NonceAt, AadOfSequence, Unwrap, Chunk, EncodeFrame, ValidateTarget;
    var m := NextMsg(s, data);
    UnwrapOfWrap(m.payload, padding, filler);
  }

  /** One that does not seal leaves everything but the client's phase. */
  lemma SendFrameElse(s: Session, data: Bytes, padding: bool, filler: nat -> Byte, cipher: Bytes, cut: Option<nat>)
    requires SendFrameStep(s, data, padding, filler, cipher, cut).log == s.log
    ensures var t := SendFrameStep(s, data, padding, filler, cipher, cut);
      t == s || (MaySend(s) && t == s.(client := GaveUp))
  {
    hide Wrap, NonceAt, AadOfSequence, Chunk, EncodeFrame, ValidateTarget;
  }

  lemma SealingKeepsSeals(salt: Salt, target: Bytes, log: seq<Sealed>, sent: seq<Msg>, frames: seq<Frame>, m: Msg,
                          e: Sealed)
    requires ClientSeals(salt, target, log, sent, frames)
    requires SealsMessage(e, salt, CLIENT_TO_SERVER, |log|, m) && Writable(FrameOf(m, e))
    requires if sent == [] then m == Msg(CONN_OPEN, target) else m.typ == DATA_PAYLOAD
    ensures ClientSeals(salt, target, log + [e], sent + [m], frames + [FrameOf(m, e)])
  {
    hide Honest, SealsMessage, FrameOf;
    HonestExtends(log, salt, CLIENT_TO_SERVER, sent, e, m);
    assert FramesOf(sent + [m], log + [e]) == FramesOf(sent, log) + [FrameOf(m, e)];
  }

  lemma WritingKeepsWrites(proof: Bytes, client: ClientPhase, frames: seq<Frame>, written: Bytes, f: Frame,
                           cut: Option<nat>)
    requires ClientWrites(proof, client, frames, written) && Writable(f)
    requires client == AwaitingAck || client == Connected
    ensures ClientWrites(proof, if cut.Some? && frames == [] then GaveUp else client, frames + [f],
                         written + Taken(EncodeFrame(f), cut))
  {
    hide EncodeFrame;
    var auth, bytes := EncodeFrame(AuthFrame(proof)), Taken(EncodeFrame(f), cut);
    if frames == [] {
      assert written == auth && (frames + [f])[0] == f;
      ComparableTails(auth, bytes, EncodeFrame(f));
    } else {
      assert (frames + [f])[0] == frames[0];
    }
  }

  lemma SameLengths(salt: Salt, target: Bytes, log: seq<Sealed>, sent: seq<Msg>, frames: seq<Frame>)
    requires ClientSeals(salt, target, log, sent, frames)
    ensures |log| == |sent| == |frames|
  {
    hide Honest;
  }

  lemma SendFrameKeepsInv(s: Session, data: Bytes, padding: bool, filler: nat -> Byte, cipher: Bytes, cut: Option<nat>)
    requires Inv(s)
    ensures Inv(SendFrameStep(s, data, padding, filler, cipher, cut))
  {
    hide ClientSeals, ClientWrites, SendFrameStep, SealsMessage, FrameOf, EncodeFrame, Writable, Taken, Chunk;
    var t := SendFrameStep(s, data, padding, filler, cipher, cut);
    SameLengths(s.salt, s.target, s.log, s.sent, s.frames);
    if t.log != s.log {
      SendFrameAdds(s, data, padding, filler, cipher, cut);
      var m, e := NextMsg(s, data), t.log[|s.log|];
      assert t.log == s.log + [e];
      SealingKeepsSeals(s.salt, s.target, s.log, s.sent, s.frames, m, e);
      WritingKeepsWrites(s.proof, s.client, s.frames, s.written, FrameOf(m, e), cut);
      assert t.seen + t.buffer + t.dropped + t.served + t.up ==
        s.seen + s.buffer + s.dropped + s.served + s.up + Taken(EncodeFrame(FrameOf(m, e)), cut);
    } else {
      SendFrameElse(s, data, padding, filler, cipher, cut);
      if t != s {
        GivingUpKeepsWrites(s.proof, s.client, s.frames, s.written);
      }
    }
  }

  lemma GivingUpKeepsWrites(proof: Bytes, client: ClientPhase, frames: seq<Frame>, written: Bytes)
    requires ClientWrites(proof, client, frames, written) && client != Start
    ensures ClientWrites(proof, GaveUp, frames, written)
  {
    hide EncodeFrame;
  }

  /** ReadFrame never asks for more than the frame in front of it. */
  lemma WantedGrows(s: Session, count: nat)
    requires |s.seen| <= Wanted(s.seen)
    ensures |TakeStep(s, count).seen| <= Wanted(TakeStep(s, count).seen)
  {
    hide FromBigEndian;
    var t := TakeStep(s, count);
    if |s.seen| >= HEADER_SIZE {
      assert t.seen[1..3] == s.seen[1..3];
    }
  }

  /** The parties do not change, and only Take changes what has been recorded. */
  lemma StepFrame(s: Session, e: Event)
    ensures !e.Take? ==> Step(s, e).seen == s.seen
    ensures var t := Step(s, e);
      && t.eager == s.eager && t.proof == s.proof && t.expected == s.expected
      && t.salt == s.salt && t.target == s.target && |s.sent| <= |t.sent|
  {
    hide ParseFrame, EncodeFrame, Wanted, GoodProof, Wrap, NonceAt, AadOfSequence, Chunk, ValidateTarget, Taken;
  }

  lemma StepKeepsInv(s: Session, e: Event)
    requires Inv(s) && |s.seen| <= Wanted(s.seen)
    ensures Inv(Step(s, e)) && |Step(s, e).seen| <= Wanted(Step(s, e).seen)
  {
    hide Inv, Wanted, SendProofStep, FillStep, TakeStep, DecideStep, TimeOutStep, ReceiveAckStep, SendFrameStep,
      ServeStep;
    StepFrame(s, e);
    match e
    case SendProof(cut) => SendProofKeepsInv(s, cut);
    case Fill(count) => FillKeepsInv(s, count);
    case Take(count) =>
      TakeKeepsInv(s, count);
      WantedGrows(s, count);
    case Decide(ackWritten, ackOk) => DecideKeepsInv(s, ackWritten, ackOk);
    case TimeOut => TimeOutKeepsInv(s);
    case ReceiveAck => ReceiveAckKeepsInv(s);
    case SendFrame(data, padding, filler, cipher, cut) => SendFrameKeepsInv(s, data, padding, filler, cipher, cut);
    case Serve(count) => ServeKeepsInv(s, count);
  }

  lemma {:induction false} RunKeepsInv(s: Session, es: seq<Event>)
    requires Inv(s) && |s.seen| <= Wanted(s.seen)
    ensures Inv(Run(s, es)) && |Run(s, es).seen| <= Wanted(Run(s, es).seen)
    ensures Run(s, es).eager == s.eager && Run(s, es).proof == s.proof
    ensures Run(s, es).expected == s.expected && Run(s, es).salt == s.salt && Run(s, es).target == s.target
    decreases |es|
  {
    if es != [] {
      hide Inv, Wanted, Step;
      RunKeepsInv(s, es[..|es| - 1]);
      StepKeepsInv(Run(s, es[..|es| - 1]), es[|es| - 1]);
      StepFrame(Run(s, es[..|es| - 1]), es[|es| - 1]);
    }
  }

  lemma InitialInv(eager: bool, proof: Bytes, expected: Bytes, salt: Salt, target: Bytes)
    ensures var s := Initial(eager, proof, expected, salt, target); Inv(s) && |s.seen| <= Wanted(s.seen)
  {
    hide EncodeFrame;
    assert FramesOf([], []) == [];
  }

  // ---------------------------------------------------------------- the theorems

  /** In every joint run of the client and the gateway, the reader thrown away held nothing. */
  lemma NothingIsDropped(proof: Bytes, expected: Bytes, salt: Salt, target: Bytes, es: seq<Event>)
    ensures Run(Initial(false, proof, expected, salt, target), es).dropped == []
  {
    InitialInv(false, proof, expected, salt, target);
    var s := Run(Initial(false, proof, expected, salt, target), es);
    hide Inv, Wanted, Run;
    RunKeepsInv(Initial(false, proof, expected, salt, target), es);
    InvWaited(s);
  }

  lemma InvWaited(s: Session)
    requires Inv(s)
    ensures !s.eager ==> s.dropped == []
  {
    hide ClientSeals, ClientWrites, Conserved;
  }

  /**
    * In every joint run, a client whose proof is not the expected one is sent nothing, is never
    * connected and is never served.
    */
  lemma OnlyTheRightProofIsAnswered(eager: bool, proof: Bytes, expected: Bytes, salt: Salt, target: Bytes,
                                    es: seq<Event>)
    requires proof != expected
    ensures var s := Run(Initial(eager, proof, expected, salt, target), es);
      s.down == [] && s.client != Connected && s.gateway != Serving && s.dropped == []
  {
    InitialInv(eager, proof, expected, salt, target);
    hide Inv, Wanted, Run;
    RunKeepsInv(Initial(eager, proof, expected, salt, target), es);
    InvAnswered(Run(Initial(eager, proof, expected, salt, target), es));
  }

  lemma InvAnswered(s: Session)
    requires Inv(s)
    ensures Answered(s) && (s.gateway != Serving ==> s.dropped == [])
  {
    hide ClientSeals, ClientWrites, Waited;
  }

  lemma ServingStream(s: Session)
    requires Inv(s) && s.gateway == Serving
    ensures AllWritable(s.frames)
    ensures var rest := s.dropped + s.served + s.up;
      && Comparable(rest, Opening(s.frames)) && (s.frames == [] ==> rest == [])
      && (s.client != GaveUp ==> Opening(s.frames) <= rest)
  {
    hide EncodeFrame, ClientSeals, Waited;
    var rest := s.dropped + s.served + s.up;
    assert s.written == s.seen + rest;
    ComparableTails(s.seen, rest, Opening(s.frames));
  }

  /**
    * In every joint run, once the gateway serves, the first read of its tunnel can give only one thing:
    * the client's own target, with the counter then at 1. Until the client's ConnOpen has arrived in full
    * there is nothing to read; and a client that has not given up and has written it is heard. All its
    * later messages are data.
    */
  lemma TunnelStartsWithOpen(proof: Bytes, expected: Bytes, salt: Salt, target: Bytes, es: seq<Event>)
    requires |Run(Initial(false, proof, expected, salt, target), es).sent| < U64_SPAN
    ensures var s := Run(Initial(false, proof, expected, salt, target), es);
      var v := Receive(Gateway, s.log, CLIENT_TO_SERVER, 0, CONN_OPEN, s.served + s.up);
      s.gateway == Serving ==>
        && (v == Verdict(Ok(target), 1) || v.result == Err(Framing(Truncated)))
        && (s.client == Connected && s.frames != [] ==> v == Verdict(Ok(target), 1))
        && (forall i :: 0 < i < |s.sent| ==> s.sent[i].typ == DATA_PAYLOAD)
  {
    InitialInv(false, proof, expected, salt, target);
    var s := Run(Initial(false, proof, expected, salt, target), es);
    hide Inv, Wanted, Run, Receive;
    RunKeepsInv(Initial(false, proof, expected, salt, target), es);
    if s.gateway == Serving {
      FirstReadIsOpen(s);
      InvSeals(s);
    }
  }

  lemma FirstReadIsOpen(s: Session)
    requires Inv(s) && !s.eager && s.gateway == Serving && |s.sent| < U64_SPAN
    ensures var v := Receive(Gateway, s.log, CLIENT_TO_SERVER, 0, CONN_OPEN, s.served + s.up);
      && (v == Verdict(Ok(s.target), 1) || v.result == Err(Framing(Truncated)))
      && (s.client == Connected && s.frames != [] ==> v == Verdict(Ok(s.target), 1))
  {
    hide Inv, Honest, ParseFrame, EncodeFrame, Accept, FramesOf;
    ServingStream(s);
    InvWaited(s);
    assert s.dropped + s.served + s.up == s.served + s.up;
    InvSeals(s);
    var rest := s.served + s.up;
    if s.frames == [] {
      ParseOfNothing();
    } else {
      AcceptsOnlyTheNextMessage(Gateway, s.log, s.salt, CLIENT_TO_SERVER, s.sent, 0, CONN_OPEN, s.frames[0]);
      FrontOfComparable(s.frames[0], rest);
    }
  }

  lemma FrontOfComparable(f: Frame, s: Bytes)
    requires Writable(f) && Comparable(s, EncodeFrame(f))
    ensures EncodeFrame(f) <= s ==> ParseFrame(s).result == Ok(f)
    ensures ParseFrame(s).result == Err(Truncated) || ParseFrame(s).result == Ok(f)
  {
    hide ParseFrame, EncodeFrame;
    if EncodeFrame(f) <= s {
      ParseOfEncode(f, s[|EncodeFrame(f)|..]);
      assert s == EncodeFrame(f) + s[|EncodeFrame(f)|..];
    } else {
      assert EncodeAll([f]) == EncodeFrame(f) + EncodeAll([]);
      FrontOfPartialArrival([f], s);
    }
  }

  lemma InvSeals(s: Session)
    requires Inv(s)
    ensures Honest(s.log, s.salt, CLIENT_TO_SERVER, s.sent) && |s.log| == |s.sent| == |s.frames|
    ensures AllWritable(s.frames)
    ensures s.sent != [] ==> s.sent[0] == Msg(CONN_OPEN, s.target) && s.frames[0] == FrameOf(s.sent[0], s.log[0])
    ensures forall i :: 0 < i < |s.sent| ==> s.sent[i].typ == DATA_PAYLOAD
  {
    hide Honest, ClientWrites, Conserved, Waited;
  }

  /**
    * While the gateway has not accepted the client, whatever has been buffered and recorded, the
    * replay (what was recorded, then the buffered reader) is all the client wrote, from its first byte.
    */
  lemma ReplayIsTheWholeStream(eager: bool, proof: Bytes, expected: Bytes, salt: Salt, target: Bytes, es: seq<Event>)
    ensures var s := Run(Initial(eager, proof, expected, salt, target), es);
      s.gateway != Serving ==> s.seen + (s.buffer + s.up) == s.written
  {
    InitialInv(eager, proof, expected, salt, target);
    hide Inv, Wanted, Run;
    RunKeepsInv(Initial(eager, proof, expected, salt, target), es);
    InvConserves(Run(Initial(eager, proof, expected, salt, target), es));
  }

  lemma InvConserves(s: Session)
    requires Inv(s)
    ensures s.gateway != Serving ==> s.seen + (s.buffer + s.up) == s.written
  {
    hide ClientSeals, ClientWrites, Waited;
    if s.gateway != Serving {
      assert s.seen + s.buffer + [] + [] + s.up == s.seen + (s.buffer + s.up);
    }
  }

  // ---------------------------------------------------------------- why the client must wait

  lemma RunOfSnoc(s: Session, es: seq<Event>, e: Event)
    ensures Run(s, es + [e]) == Step(Run(s, es), e)
  {
    assert (es + [e])[..|es|] == es;
  }

  /** The gateway reads the proof and all that lies behind it in one go. */
  lemma FillBoth(s: Session, more: Bytes)
    requires s.gateway == Reading && s.seen == [] && s.buffer == []
    requires Writable(AuthFrame(s.proof)) && s.up == EncodeFrame(AuthFrame(s.proof)) + more
    ensures var t := TakeStep(TakeStep(FillStep(s, |s.up|), HEADER_SIZE), |s.proof|);
      t == s.(up := [], seen := EncodeFrame(AuthFrame(s.proof)), buffer := more)
  {
    hide FromBigEndian, U16;
    var a := EncodeFrame(AuthFrame(s.proof));
    var t1 := FillStep(s, |s.up|);
    assert t1.buffer == a + more && t1.up == [];
    var t2 := TakeStep(t1, HEADER_SIZE);
    assert t2.seen == a[..HEADER_SIZE] && t2.buffer == a[HEADER_SIZE..] + more;
    assert t2.seen[1..3] == U16(|s.proof|);
    assert Wanted(t2.seen) == HEADER_SIZE + |s.proof|;
    var t3 := TakeStep(t2, |s.proof|);
    assert t3.seen == a[..HEADER_SIZE] + a[HEADER_SIZE..] == a;
    assert t3.buffer == more;
  }

  lemma DecideDropsBuffer(s: Session)
    requires s.gateway == Reading && Writable(AuthFrame(s.proof)) && s.expected == s.proof
    requires s.seen == EncodeFrame(AuthFrame(s.proof))
    ensures DecideStep(s, 0, true) ==
      s.(gateway := Serving, down := s.down + EncodeFrame(ACK), dropped := s.buffer, buffer := [])
  {
    hide FromBigEndian, U16;
    ParseOfEncode(AuthFrame(s.proof), []);
    assert EncodeFrame(AuthFrame(s.proof)) + [] == s.seen;
    assert s.seen[1..3] == U16(|s.proof|);
  }

  /** A client that does not wait writes its ConnOpen right behind its proof. */
  lemma EagerOpen(s: Session, filler: nat -> Byte, cipher: Bytes)
    requires MaySend(s) && s.log == [] && s.sent == [] && s.frames == []
    requires ValidateTarget(s.target).Ok? && |cipher| == |s.target| + 18
    ensures var t := SendFrameStep(s, [], false, filler, cipher, None);
      && |t.sent| == |t.frames| == 1 && Writable(t.frames[0])
      && t == s.(log := t.log, sent := t.sent, frames := t.frames,
                 up := s.up + EncodeFrame(t.frames[0]), written := s.written + EncodeFrame(t.frames[0]))
  {
    ShortTarget(s.target);
    hide NonceAt, AadOfSequence, EncodeFrame, ValidateTarget, Wrap;
    WrapDomain(s.target, false, filler);
  }

  lemma ShortTarget(target: Bytes)
    requires ValidateTarget(target).Ok?
    ensures |target| <= MAX_TARGET
  {
  }

  /** The run of six events in which such a client loses the very frame that opens its tunnel. */
  function EagerRun(proof: Bytes, filler: nat -> Byte, cipher: Bytes, n: nat): seq<Event>
  {
    [SendProof(None), SendFrame([], false, filler, cipher, None), Fill(n), Take(HEADER_SIZE), Take(|proof|),
     Decide(0, true)]
  }

  lemma RunOfSix(s: Session, a: Event, b: Event, c: Event, d: Event, e: Event, f: Event)
    ensures Run(s, [a, b, c, d, e, f]) == Step(Step(Step(Step(Step(Step(s, a), b), c), d), e), f)
  {
    hide Step;
    assert Run(s, []) == s;
    RunOfSnoc(s, [], a);
    RunOfSnoc(s, [a], b);
    RunOfSnoc(s, [a, b], c);
    RunOfSnoc(s, [a, b, c], d);
    RunOfSnoc(s, [a, b, c, d], e);
    RunOfSnoc(s, [a, b, c, d, e], f);
    assert [] + [a] == [a];
    assert [a] + [b] == [a, b];
    assert [a, b] + [c] == [a, b, c];
    assert [a, b, c] + [d] == [a, b, c, d];
    assert [a, b, c, d] + [e] == [a, b, c, d, e];
    assert [a, b, c, d, e] + [f] == [a, b, c, d, e, f];
  }

  /**
    * A client that does not wait can lose the very frame that opens its tunnel: the gateway serves, the
    * ConnOpen is the client's only frame, it has been thrown away whole and nothing is left to arrive.
    */
  lemma EagerClientLosesItsOpen(proof: Bytes, salt: Salt, target: Bytes, filler: nat -> Byte, cipher: Bytes)
      returns (es: seq<Event>)
    requires Writable(AuthFrame(proof))
    requires ValidateTarget(target).Ok? && |cipher| == |target| + 18
    ensures var s := Run(Initial(true, proof, proof, salt, target), es);
      && s.gateway == Serving && s.up == []
      && |s.frames| == 1 && Writable(s.frames[0]) && s.dropped == EncodeFrame(s.frames[0])
  {
    hide EncodeFrame, ParseFrame, ValidateTarget, Wanted, Run, Writable;
    hide Step, SendFrameStep, SendProofStep, FillStep, TakeStep, DecideStep, EagerRun;
    var s0 := Initial(true, proof, proof, salt, target);
    var n := EagerStates(s0, filler, cipher);
    es := EagerRun(proof, filler, cipher, n);
    EagerRunIs(s0, filler, cipher, n);
  }

  lemma EagerStates(s0: Session, filler: nat -> Byte, cipher: Bytes) returns (n: nat)
    requires s0 == Initial(true, s0.proof, s0.proof, s0.salt, s0.target) && Writable(AuthFrame(s0.proof))
    requires ValidateTarget(s0.target).Ok? && |cipher| == |s0.target| + 18
    ensures var s2 := SendFrameStep(SendProofStep(s0, None), [], false, filler, cipher, None);
      var s := DecideStep(TakeStep(TakeStep(FillStep(s2, n), HEADER_SIZE), |s0.proof|), 0, true);
      && s.gateway == Serving && s.up == []
      && |s.frames| == 1 && Writable(s.frames[0]) && s.dropped == EncodeFrame(s.frames[0])
  {
    hide EncodeFrame, ParseFrame, ValidateTarget, Wanted, Writable, SendFrameStep, FillStep, TakeStep, DecideStep;
    var s1 := SendProofStep(s0, None);
    EagerOpen(s1, filler, cipher);
    var s2 := SendFrameStep(s1, [], false, filler, cipher, None);
    n := |s2.up|;
    FillBoth(s2, EncodeFrame(s2.frames[0]));
    DecideDropsBuffer(TakeStep(TakeStep(FillStep(s2, n), HEADER_SIZE), |s0.proof|));
  }

  lemma EagerRunIs(s0: Session, filler: nat -> Byte, cipher: Bytes, n: nat)
    ensures var s2 := SendFrameStep(SendProofStep(s0, None), [], false, filler, cipher, None);
      Run(s0, EagerRun(s0.proof, filler, cipher, n)) ==
        DecideStep(TakeStep(TakeStep(FillStep(s2, n), HEADER_SIZE), |s0.proof|), 0, true)
  {
    hide Run, SendFrameStep, SendProofStep, FillStep, TakeStep, DecideStep;
    RunOfSix(s0, SendProof(None), SendFrame([], false, filler, cipher, None), Fill(n), Take(HEADER_SIZE),
             Take(|s0.proof|), Decide(0, true));
  }

  /**
    * Throwing the buffered reader away is lossless in all runs if and only if the client waits for the
    * ack, or its proof is wrong and it is never let in.
    */
  lemma LosslessIffClientWaits(eager: bool, proof: Bytes, expected: Bytes, salt: Salt, target: Bytes)
    requires Writable(AuthFrame(proof)) && ValidateTarget(target).Ok?
    ensures (forall es :: Run(Initial(eager, proof, expected, salt, target), es).dropped == []) <==>
            !eager || proof != expected
  {
    hide EncodeFrame, Run, ValidateTarget;
    if eager && proof == expected {
      var es := EagerClientLosesItsOpen(proof, salt, target, _ => 0, seq(|target| + 18, _ => 0));
      assert Run(Initial(eager, proof, expected, salt, target), es).dropped != [];
    } else {
      forall es ensures Run(Initial(eager, proof, expected, salt, target), es).dropped == [] {
        if eager {
          OnlyTheRightProofIsAnswered(eager, proof, expected, salt, target, es);
        } else {
          NothingIsDropped(proof, expected, salt, target, es);
        }
      }
    }
  }

  // ---------------------------------------------------------------- and that waiting succeeds

  /** The run of a client that waits: proof, ack, ConnOpen. */
  lemma SuccessStates(s0: Session, filler: nat -> Byte, cipher: Bytes) returns (n: nat, k: nat)
    requires s0 == Initial(false, s0.proof, s0.proof, s0.salt, s0.target) && Writable(AuthFrame(s0.proof))
    requires ValidateTarget(s0.target).Ok? && |cipher| == |s0.target| + 18
    ensures var s1 := TakeStep(TakeStep(FillStep(SendProofStep(s0, None), n), HEADER_SIZE), |s0.proof|);
      var s2 := ReceiveAckStep(DecideStep(s1, 0, true));
      var s := ServeStep(SendFrameStep(s2, [], false, filler, cipher, None), k);
      && s.gateway == Serving && s.client == Connected && |s.sent| == |s.frames| == 1 && s.up == []
  {
    hide EncodeFrame, ParseFrame, ValidateTarget, Wanted, Writable, SendFrameStep, FillStep, TakeStep, DecideStep;
    var a := SendProofStep(s0, None);
    n := |a.up|;
    var auth := EncodeFrame(AuthFrame(s0.proof));
    assert a.up == auth + [];
    FillBoth(a, []);
    var b := TakeStep(TakeStep(FillStep(a, n), HEADER_SIZE), |s0.proof|);
    DecideDropsBuffer(b);
    var c := DecideStep(b, 0, true);
    AckIsWritable();
    ParseOfEncode(ACK, []);
    assert c.down == EncodeFrame(ACK) + [];
    var d := ReceiveAckStep(c);
    EagerOpen(d, filler, cipher);
    k := |SendFrameStep(d, [], false, filler, cipher, None).up|;
  }

  lemma AckIsWritable()
    ensures Writable(ACK) && ACK.typ == AUTH_SUCCESS
  {
  }

  /**
    * A client that waits, with the right proof and a valid target, can open its tunnel: there is a run
    * in which it is connected, the gateway serves, and the tunnel's first read gives the target.
    */
  lemma WaitingClientGetsThrough(proof: Bytes, salt: Salt, target: Bytes, filler: nat -> Byte, cipher: Bytes)
      returns (es: seq<Event>)
    requires Writable(AuthFrame(proof))
    requires ValidateTarget(target).Ok? && |cipher| == |target| + 18
    ensures var s := Run(Initial(false, proof, proof, salt, target), es);
      && s.gateway == Serving && s.client == Connected && s.up == []
      && Receive(Gateway, s.log, CLIENT_TO_SERVER, 0, CONN_OPEN, s.served) == Verdict(Ok(target), 1)
  {
    hide EncodeFrame, ParseFrame, ValidateTarget, Wanted, Run, Writable, Receive;
    hide SendFrameStep, SendProofStep, FillStep, TakeStep, DecideStep, ReceiveAckStep, ServeStep;
    var s0 := Initial(false, proof, proof, salt, target);
    var n, k := SuccessStates(s0, filler, cipher);
    var six := [SendProof(None), Fill(n), Take(HEADER_SIZE), Take(|proof|), Decide(0, true), ReceiveAck];
    var open := SendFrame([], false, filler, cipher, None);
    RunOfSix(s0, SendProof(None), Fill(n), Take(HEADER_SIZE), Take(|proof|), Decide(0, true), ReceiveAck);
    RunOfSnoc(s0, six, open);
    RunOfSnoc(s0, six + [open], Serve(k));
    es := six + [open] + [Serve(k)];
    TunnelStartsWithOpen(proof, proof, salt, target, es);
    var s := Run(s0, es);
    assert s.served + s.up == s.served;
  }

  /**
    * A client with the wrong proof can be refused: there is a run in which the gateway has read its
    * proof and falls back, with all the client wrote to be replayed.
    */
  lemma WrongProofFallsBack(eager: bool, proof: Bytes, expected: Bytes, salt: Salt, target: Bytes)
      returns (es: seq<Event>)
    requires Writable(AuthFrame(proof)) && proof != expected
    ensures var s := Run(Initial(eager, proof, expected, salt, target), es);
      s.gateway == FallingBack && s.seen + (s.buffer + s.up) == s.written == EncodeFrame(AuthFrame(proof))
  {
    hide EncodeFrame, ParseFrame, Run, Wanted, Writable, FillStep, TakeStep, DecideStep;
    var s0 := Initial(eager, proof, expected, salt, target);
    var a := SendProofStep(s0, None);
    assert a.up == EncodeFrame(AuthFrame(proof)) + [];
    FillBoth(a, []);
    var n := |a.up|;
    var b := TakeStep(TakeStep(FillStep(a, n), HEADER_SIZE), |proof|);
    DecideRefuses(b);
    RunOfSix(s0, SendProof(None), Fill(n), Take(HEADER_SIZE), Take(|proof|), Decide(0, true), TimeOut);
    es := [SendProof(None), Fill(n), Take(HEADER_SIZE), Take(|proof|), Decide(0, true), TimeOut];
    assert b.seen + ([] + []) == b.seen;
  }

  lemma DecideRefuses(s: Session)
    requires s.gateway == Reading && Writable(AuthFrame(s.proof)) && s.expected != s.proof
    requires s.seen == EncodeFrame(AuthFrame(s.proof))
    ensures DecideStep(s, 0, true) == s.(gateway := FallingBack)
  {
    hide FromBigEndian, U16;
    ParseOfEncode(AuthFrame(s.proof), []);
    assert EncodeFrame(AuthFrame(s.proof)) + [] == s.seen;
    assert s.seen[1..3] == U16(|s.proof|);
  }

  /** A gateway that has not decided gives up in time, in every run. */
  lemma TimeOutEndsReading(s: Session, es: seq<Event>)
    ensures Run(s, es + [TimeOut]).gateway != Reading
    ensures Run(s, es).gateway == Reading ==> Run(s, es + [TimeOut]).gateway == FallingBack
  {
    RunOfSnoc(s, es, TimeOut);
  }
}
