/**
  * What the two receivers do with one frame. They differ in one step: the transport's
  * DataChannel counts a frame before opening it, the gateway's tunnelChannel after.
  */
module Channels {
  import opened Bytes
  import opened Frames
  import opened Envelope
  import opened Sealing

  const CLIENT_TO_SERVER: Byte := 1
  const SERVER_TO_CLIENT: Byte := 2

  datatype ReceiveError =
    | Framing(frameError: FrameError)
    | WrongType
    | WrongSequence
    | NotAuthentic
    | Malformed(envelopeError: EnvelopeError)

  /** The result of a read and the receive counter after it. */
  datatype Verdict = Verdict(result: Result<Bytes, ReceiveError>, next: nat)

  function Succ64(n: nat): nat
  {
    (n + 1) % U64_SPAN
  }

  function Opened(plain: Bytes): Result<Bytes, ReceiveError>
  {
    match Unwrap(plain)
    case Ok(payload) => Ok(payload)
    case Err(e) => Err(Malformed(e))
  }

  /** tunnelChannel.read after its ReadFrame. */
  function TunnelAccept(log: seq<Sealed>, dir: Byte, received: nat, typ: Byte, f: Frame): Verdict
  {
    if f.typ != typ then Verdict(Err(WrongType), received)
    else
      var seqNo := SequenceOf(f.nonce);
      if seqNo != received then Verdict(Err(WrongSequence), received)
      else
        match Lookup(log, f.nonce, f.ciphertext, AadOfSequence(typ, dir, seqNo))
        case None => Verdict(Err(NotAuthentic), received)
        case Some(plain) => Verdict(Opened(plain), Succ64(received))
  }

  /** ReadDataFrame and ReadConnectFrame after their ReadFrame, in directional mode. */
  function DataAccept(log: seq<Sealed>, dir: Byte, received: nat, typ: Byte, f: Frame): Verdict
  {
    if f.typ != typ then Verdict(Err(WrongType), received)
    else if SequenceOf(f.nonce) != received then Verdict(Err(WrongSequence), received)
    else
      var next := Succ64(received);
      match Lookup(log, f.nonce, f.ciphertext, AadOfNonce(f.typ, dir, f.nonce))
      case None => Verdict(Err(NotAuthentic), next)
      case Some(plain) => Verdict(Opened(plain), next)
  }

  datatype Side = Gateway | Client

  function Accept(side: Side, log: seq<Sealed>, dir: Byte, received: nat, typ: Byte, f: Frame): Verdict
  {
    if side == Gateway then TunnelAccept(log, dir, received, typ, f) else DataAccept(log, dir, received, typ, f)
  }

  /** One whole read off a byte stream: ReadFrame, then the verdict. */
  function Receive(side: Side, log: seq<Sealed>, dir: Byte, received: nat, typ: Byte, s: Bytes): Verdict
  {
    match ParseFrame(s).result
    case Err(e) => Verdict(Err(Framing(e)), received)
    case Ok(f) => Accept(side, log, dir, received, typ, f)
  }

  /** The key has sealed this frame for this type and direction. */
  ghost predicate WasSealed(log: seq<Sealed>, dir: Byte, f: Frame)
  {
    exists i :: 0 <= i < |log| && Matches(log[i], f.nonce, f.ciphertext, AadOfNonce(f.typ, dir, f.nonce))
  }

  /**
    * Why a frame is refused, for arbitrary logs: the type is looked at first, then the number, then the
    * key, then the envelope; and what each refusal does to the counter.
    */
  lemma WhyRefused(side: Side, log: seq<Sealed>, dir: Byte, k: nat, typ: Byte, f: Frame)
    ensures var v := Accept(side, log, dir, k, typ, f);
      && (v.result == Err(WrongType) <==> f.typ != typ)
      && (v.result == Err(WrongSequence) <==> f.typ == typ && SequenceOf(f.nonce) != k)
      && (v.result == Err(NotAuthentic) <==> f.typ == typ && SequenceOf(f.nonce) == k && !WasSealed(log, dir, f))
      && (v.result.Ok? || v.result.error.Malformed? ==>
            exists e: Sealed :: e in log && Matches(e, f.nonce, f.ciphertext, AadOfNonce(typ, dir, f.nonce))
              && Unwrap(e.plain) == (if v.result.Ok? then Ok(v.result.value) else Err(v.result.error.envelopeError)))
      && v.next == (if v.result == Err(WrongType) || v.result == Err(WrongSequence) then k
                    else if v.result == Err(NotAuthentic) && side == Gateway then k
                    else Succ64(k))
  {
    hide Unwrap, AadOfSequence, AadOfNonce, SequenceOf, Lookup;
    AadFormsAgree(typ, dir, f.nonce);
    LookupFinds(log, f.nonce, f.ciphertext, AadOfNonce(typ, dir, f.nonce));
  }

  /**
    * The exact acceptance rule of both receivers under an honest key: at counter k the only frame
    * accepted is the one that carries message k, and only if the caller asked for its type.
    */
  lemma AcceptsOnlyTheNextMessage(side: Side, log: seq<Sealed>, salt: Salt, dir: Byte, sent: seq<Msg>,
                                  k: nat, typ: Byte, f: Frame)
    requires Honest(log, salt, dir, sent) && |log| < U64_SPAN
    ensures var v := Accept(side, log, dir, k, typ, f);
      && (v.result.Ok? <==> k < |log| && sent[k].typ == typ && f == FrameOf(sent[k], log[k]))
      && (v.result.Ok? ==> v == Verdict(Ok(sent[k].payload), k + 1))
      && (v.result.Err? ==> v.next == k || (side == Client && v.result.error == NotAuthentic && v.next == Succ64(k)))
  {
    hide Unwrap, NonceAt, U64, Lookup, AadOfSequence, AadOfNonce, SequenceOf;
    AadFormsAgree(typ, dir, f.nonce);
    var aad := AadOfNonce(typ, dir, f.nonce);
    if f.typ == typ && SequenceOf(f.nonce) == k && Lookup(log, f.nonce, f.ciphertext, aad).Some? {
      HonestOpenIsEntry(log, salt, dir, sent, f.nonce, f.ciphertext, aad);
      assert SealsMessage(log[k], salt, dir, k, sent[k]);
      AadIsInjective(typ, dir, k, sent[k].typ, dir, k);
    }
    if k < |log| && sent[k].typ == typ && f == FrameOf(sent[k], log[k]) {
      assert SealsMessage(log[k], salt, dir, k, sent[k]);
      SequenceOfNonceAt(salt, k);
      HonestEntryOpens(log, salt, dir, sent, k);
    }
  }

  /**
    * The two implementations give the same result on every frame from the same state, under any
    * key at all; their counters part exactly when opening fails.
    */
  lemma ReceiversAgree(log: seq<Sealed>, dir: Byte, received: nat, typ: Byte, f: Frame)
    requires received < U64_SPAN
    ensures var t, d := TunnelAccept(log, dir, received, typ, f), DataAccept(log, dir, received, typ, f);
      && t.result == d.result
      && (t.next == d.next <==> t.result != Err(NotAuthentic))
  {
    AadFormsAgree(typ, dir, f.nonce);
  }

  // ---------------------------------------------------------------- runs of both receivers

  /** One attempt to read: the type asked for and the frame that arrives. */
  datatype Attempt = Attempt(typ: Byte, f: Frame)

  /** The results of a run of attempts, and the counter it ends with. */
  datatype Outcomes = Outcomes(results: seq<Result<Bytes, ReceiveError>>, next: nat)

  function Attempts(side: Side, log: seq<Sealed>, dir: Byte, received: nat, run: seq<Attempt>): (o: Outcomes)
    ensures |o.results| == |run|
    decreases run
  {
    if run == [] then Outcomes([], received)
    else
      var v := Accept(side, log, dir, received, run[0].typ, run[0].f);
      var o := Attempts(side, log, dir, v.next, run[1..]);
      Outcomes([v.result] + o.results, o.next)
  }

  /** In every run in which nothing fails to open, the two implementations cannot be told apart. */
  lemma {:induction false} ImplementationsAreObservationallyEqual(
      log: seq<Sealed>, dir: Byte, received: nat, run: seq<Attempt>)
    requires received < U64_SPAN
    requires Err(NotAuthentic) !in Attempts(Gateway, log, dir, received, run).results
    ensures Attempts(Client, log, dir, received, run) == Attempts(Gateway, log, dir, received, run)
    decreases run
  {
    if run != [] {
      var v := Accept(Gateway, log, dir, received, run[0].typ, run[0].f);
      var o := Attempts(Gateway, log, dir, received, run);
      assert o.results[0] == v.result;
      ReceiversAgree(log, dir, received, run[0].typ, run[0].f);
      assert forall r :: r in o.results[1..] ==> r in o.results;
      assert o.results[1..] == Attempts(Gateway, log, dir, v.next, run[1..]).results;
      ImplementationsAreObservationallyEqual(log, dir, v.next, run[1..]);
    }
  }

  /** Up to and including the first failed open they still agree, in every run. */
  lemma {:induction false} AgreementUpToFirstFailure(log: seq<Sealed>, dir: Byte, received: nat, run: seq<Attempt>,
                                                     n: nat)
    requires received < U64_SPAN
    requires n < |run|
    requires forall i :: 0 <= i < n ==>
      Attempts(Gateway, log, dir, received, run).results[i] != Err(NotAuthentic)
    ensures Attempts(Client, log, dir, received, run).results[n] ==
            Attempts(Gateway, log, dir, received, run).results[n]
    decreases run
  {
    ReceiversAgree(log, dir, received, run[0].typ, run[0].f);
    hide TunnelAccept, DataAccept;
    var v := Accept(Gateway, log, dir, received, run[0].typ, run[0].f);
    var g := Attempts(Gateway, log, dir, received, run);
    if n > 0 {
      assert g.results[0] != Err(NotAuthentic);
      var h := Attempts(Gateway, log, dir, v.next, run[1..]);
      assert forall i :: 0 <= i < n - 1 ==> h.results[i] == g.results[i + 1];
      AgreementUpToFirstFailure(log, dir, v.next, run[1..], n - 1);
    }
  }

  // ---------------------------------------------------------------- reading a whole stream

  /** The payloads that successive reads return, up to the first read that fails. */
  function AcceptedFrom(side: Side, log: seq<Sealed>, dir: Byte, received: nat, typ: Byte, s: Bytes): seq<Bytes>
    decreases |s|
  {
    var v := Receive(side, log, dir, received, typ, s);
    if v.result.Err? then []
    else
      EncodeOfParse(s);
      [v.result.value] + AcceptedFrom(side, log, dir, v.next, typ, ParseFrame(s).rest)
  }

  /** The read that fails first, and the counter it leaves. */
  function FirstFailure(side: Side, log: seq<Sealed>, dir: Byte, received: nat, typ: Byte, s: Bytes): (v: Verdict)
    ensures v.result.Err?
    decreases |s|
  {
    var v := Receive(side, log, dir, received, typ, s);
    if v.result.Err? then v
    else
      EncodeOfParse(s);
      FirstFailure(side, log, dir, v.next, typ, ParseFrame(s).rest)
  }

  /** ps are the payloads of messages k, k + 1, ..., all of them of type typ. */
  ghost predicate PayloadsFrom(sent: seq<Msg>, k: nat, typ: Byte, ps: seq<Bytes>)
  {
    && k + |ps| <= |sent|
    && forall i :: 0 <= i < |ps| ==> sent[k + i] == Msg(typ, ps[i])
  }

  lemma PayloadsFromCons(sent: seq<Msg>, k: nat, typ: Byte, p: Bytes, ps: seq<Bytes>)
    requires k < |sent| && sent[k] == Msg(typ, p)
    requires PayloadsFrom(sent, k + 1, typ, ps)
    ensures PayloadsFrom(sent, k, typ, [p] + ps)
  {
    forall i | 0 <= i < |[p] + ps| ensures sent[k + i] == Msg(typ, ([p] + ps)[i]) {
      if i > 0 {
        assert sent[k + 1 + (i - 1)] == Msg(typ, ps[i - 1]);
      }
    }
  }

  /** Whatever bytes arrive, a reader at counter k gets the messages from k on and nothing else. */
  lemma {:induction false} AcceptedAreNextMessages(side: Side, log: seq<Sealed>, salt: Salt, dir: Byte, sent: seq<Msg>,
                                                   k: nat, typ: Byte, s: Bytes)
    requires Honest(log, salt, dir, sent) && |log| < U64_SPAN && k <= |log|
    ensures PayloadsFrom(sent, k, typ, AcceptedFrom(side, log, dir, k, typ, s))
    decreases |s|
  {
    hide Honest, Accept, ParseFrame, PayloadsFrom;
    HonestLengths(log, salt, dir, sent);
    var v := Receive(side, log, dir, k, typ, s);
    if v.result.Ok? {
      EncodeOfParse(s);
      AcceptsOnlyTheNextMessage(side, log, salt, dir, sent, k, typ, ParseFrame(s).result.value);
      AcceptedAreNextMessages(side, log, salt, dir, sent, k + 1, typ, ParseFrame(s).rest);
      PayloadsFromCons(sent, k, typ, v.result.value, AcceptedFrom(side, log, dir, k + 1, typ, ParseFrame(s).rest));
    } else {
      NoPayloads(sent, k, typ);
    }
  }

  lemma NoPayloads(sent: seq<Msg>, k: nat, typ: Byte)
    requires k <= |sent|
    ensures PayloadsFrom(sent, k, typ, [])
  {
  }

  /** f is the frame of message n, which is of type typ. */
  ghost predicate FrameAt(sent: seq<Msg>, log: seq<Sealed>, n: nat, typ: Byte, f: Frame)
  {
    n < |sent| == |log| && sent[n].typ == typ && f == FrameOf(sent[n], log[n])
  }

  /** fs are the frames of messages k, k + 1, ..., all of them of type typ. */
  ghost predicate FramesFrom(sent: seq<Msg>, log: seq<Sealed>, k: nat, typ: Byte, fs: seq<Frame>)
  {
    && |log| == |sent| && k + |fs| <= |log|
    && AllWritable(fs)
    && forall i :: 0 <= i < |fs| ==> FrameAt(sent, log, k + i, typ, fs[i])
  }

  lemma FramesFromBounds(sent: seq<Msg>, log: seq<Sealed>, k: nat, typ: Byte, fs: seq<Frame>)
    requires FramesFrom(sent, log, k, typ, fs)
    ensures k + |fs| <= |log| == |sent| && AllWritable(fs)
  {
  }

  lemma FramesFromTail(sent: seq<Msg>, log: seq<Sealed>, k: nat, typ: Byte, fs: seq<Frame>)
    requires FramesFrom(sent, log, k, typ, fs) && fs != []
    ensures Writable(fs[0]) && sent[k].typ == typ && fs[0] == FrameOf(sent[k], log[k])
    ensures FramesFrom(sent, log, k + 1, typ, fs[1..])
  {
    assert FrameAt(sent, log, k + 0, typ, fs[0]);
    var tail := fs[1..];
    forall i | 0 <= i < |tail| ensures FrameAt(sent, log, k + 1 + i, typ, tail[i]) {
      assert FrameAt(sent, log, k + (i + 1), typ, fs[i + 1]);
    }
  }

  /** And if the stream starts with the frames of those messages, it gets all of them, whatever follows. */
  lemma {:induction false} AcceptedOfOwnFrames(side: Side, log: seq<Sealed>, salt: Salt, dir: Byte, sent: seq<Msg>,
                                               k: nat, typ: Byte, fs: seq<Frame>, more: Bytes)
    requires Honest(log, salt, dir, sent) && |log| < U64_SPAN
    requires FramesFrom(sent, log, k, typ, fs)
    ensures var ps := AcceptedFrom(side, log, dir, k, typ, EncodeAll(fs) + more);
      && PayloadsFrom(sent, k, typ, ps)
      && |ps| >= |fs|
      && (more == [] ==> |ps| == |fs|)
    decreases |fs|
  {
    hide Honest, Accept, ParseFrame, EncodeFrame, FramesFrom, PayloadsFrom;
    FramesFromBounds(sent, log, k, typ, fs);
    AcceptedAreNextMessages(side, log, salt, dir, sent, k, typ, EncodeAll(fs) + more);
    if fs != [] {
      FramesFromTail(sent, log, k, typ, fs);
      FramesFromBounds(sent, log, k + 1, typ, fs[1..]);
      var rest := EncodeAll(fs[1..]) + more;
      assert EncodeAll(fs) + more == EncodeFrame(fs[0]) + rest;
      ParseOfEncode(fs[0], rest);
      AcceptsOnlyTheNextMessage(side, log, salt, dir, sent, k, typ, fs[0]);
      AcceptedOfOwnFrames(side, log, salt, dir, sent, k + 1, typ, fs[1..], more);
    } else {
      NothingParses();
    }
  }

  lemma NothingParses()
    ensures EncodeAll([]) == [] && ParseFrame([]).result.Err?
  {
  }
}
