/**
  * One direction of a session against an arbitrary network: an honest sender seals messages, a
  * receiver is handed arbitrary byte streams, in any order, with any number of failed reads.
  */
module Receivers {
  import opened Bytes
  import opened Frames
  import opened Envelope
  import opened Sealing
  import opened Channels

  datatype Link = Link(
    side: Side,
    salt: Salt,
    dir: Byte,
    log: seq<Sealed>,       // everything sealed under the key
    sent: seq<Msg>,         // what the sender meant by it
    next: nat,              // the receive counter
    accepted: seq<Msg>,     // what reads have returned
    taken: seq<nat>,        // the sequence numbers they were returned for
    burned: set<nat>,       // the sequence numbers spent on reads that failed
    spent: nat              // how often the counter has moved, without wrapping
  )

  datatype Event =
    | Send(msg: Msg, padding: bool, filler: nat -> Byte, cipher: Bytes)
    | Read(typ: Byte, wire: Bytes)

  function Initial(side: Side, salt: Salt, dir: Byte): Link
  {
    Link(side, salt, dir, [], [], 0, [], [], {}, 0)
  }

  /** A payload that cannot be wrapped takes no nonce; any other is sealed under the next one. */
  function SendStep(s: Link, m: Msg, padding: bool, filler: nat -> Byte, cipher: Bytes): Link
  {
    var wrapped := Wrap(m.payload, padding, filler);
    if wrapped.Err? || |cipher| != |wrapped.value| + OVERHEAD then s
    else
      var k := |s.log|;
      var e := Sealed(NonceAt(s.salt, k), AadOfSequence(m.typ, s.dir, k % U64_SPAN), wrapped.value, cipher);
      s.(log := s.log + [e], sent := s.sent + [m])
  }

  function ReadStep(s: Link, typ: Byte, wire: Bytes): Link
  {
    var v := Receive(s.side, s.log, s.dir, s.next, typ, wire);
    if v.result.Ok? then
      s.(next := v.next, accepted := s.accepted + [Msg(typ, v.result.value)], taken := s.taken + [s.next],
         spent := s.spent + 1)
    else if v.next != s.next then
      s.(next := v.next, burned := s.burned + {s.next}, spent := s.spent + 1)
    else s
  }

  function Step(s: Link, e: Event): Link
  {
    match e
    case Send(m, padding, filler, cipher) => SendStep(s, m, padding, filler, cipher)
    case Read(typ, wire) => ReadStep(s, typ, wire)
  }

  /** The state after a whole run. */
  function Run(s: Link, es: seq<Event>): Link
  {
    if es == [] then s else Step(Run(s, es[..|es| - 1]), es[|es| - 1])
  }

  // ---------------------------------------------------------------- what every step keeps

  ghost predicate Ascending(ns: seq<nat>)
  {
    forall i, j :: 0 <= i < j < |ns| ==> ns[i] < ns[j]
  }

  ghost predicate Genuine(s: Link)
  {
    && |s.accepted| == |s.taken|
    && forall i :: 0 <= i < |s.taken| ==> s.taken[i] < |s.sent| && s.accepted[i] == s.sent[s.taken[i]]
  }

  /** The numbers below the counter are exactly those accepted and those spent on failures. */
  ghost predicate Accounted(s: Link)
  {
    && |s.taken| + |s.burned| == s.next == s.spent
    && (forall i :: 0 <= i < |s.taken| ==> s.taken[i] < s.next && s.taken[i] !in s.burned)
    && (forall n :: n in s.burned ==> n < s.next)
  }

  ghost predicate Inv(s: Link)
  {
    && Honest(s.log, s.salt, s.dir, s.sent)
    && Ascending(s.taken)
    && Genuine(s)
    && Accounted(s)
    && (s.side == Gateway ==> s.burned == {})
  }

  lemma SendKeepsHonest(s: Link, m: Msg, padding: bool, filler: nat -> Byte, cipher: Bytes)
    requires Honest(s.log, s.salt, s.dir, s.sent)
    ensures var s' := SendStep(s, m, padding, filler, cipher);
      Honest(s'.log, s'.salt, s'.dir, s'.sent)
  {
    hide NonceAt, AadOfSequence, Unwrap, Wrap, Honest;
    if Wrap(m.payload, padding, filler).Ok? {
      UnwrapOfWrap(m.payload, padding, filler);
      var s' := SendStep(s, m, padding, filler, cipher);
      if s' != s {
        HonestExtends(s.log, s.salt, s.dir, s.sent, s'.log[|s.log|], m);
      }
    }
  }

  lemma SendKeepsInv(s: Link, m: Msg, padding: bool, filler: nat -> Byte, cipher: Bytes)
    requires Inv(s)
    ensures Inv(SendStep(s, m, padding, filler, cipher))
  {
    hide Honest;
    SendKeepsHonest(s, m, padding, filler, cipher);
  }

  function Take(s: Link): Link
    requires s.next < |s.sent|
  {
    s.(next := s.next + 1, accepted := s.accepted + [s.sent[s.next]], taken := s.taken + [s.next],
       spent := s.spent + 1)
  }

  function Burn(s: Link): Link
  {
    s.(next := Succ64(s.next), burned := s.burned + {s.next}, spent := s.spent + 1)
  }

  /** A read does nothing, takes the next message, or (client only) spends its number for nothing. */
  lemma ReadStepCases(s: Link, typ: Byte, wire: Bytes)
    requires Honest(s.log, s.salt, s.dir, s.sent) && |s.sent| < U64_SPAN
    ensures var s' := ReadStep(s, typ, wire);
      || s' == s
      || (s.next < |s.sent| && s' == Take(s))
      || (s.side == Client && s' == Burn(s))
  {
    hide Honest, Accept, ParseFrame, FrameOf;
    HonestLengths(s.log, s.salt, s.dir, s.sent);
    var p := ParseFrame(wire);
    if p.result.Ok? {
      AcceptsOnlyTheNextMessage(s.side, s.log, s.salt, s.dir, s.sent, s.next, typ, p.result.value);
    }
  }

  lemma TakeKeepsInv(s: Link)
    requires Inv(s) && s.next < |s.sent|
    ensures Inv(Take(s))
  {
    hide Honest;
  }

  lemma BurnKeepsInv(s: Link)
    requires Inv(s) && s.side == Client && s.spent + 1 < U64_SPAN
    ensures Inv(Burn(s))
  {
    hide Honest;
    assert s.next !in s.burned;
  }

  lemma ReadKeepsInv(s: Link, typ: Byte, wire: Bytes)
    requires Inv(s) && |s.sent| < U64_SPAN
    requires s.side == Client ==> ReadStep(s, typ, wire).spent < U64_SPAN
    ensures Inv(ReadStep(s, typ, wire))
  {
    ReadStepCases(s, typ, wire);
    hide Inv, ReadStep;
    if s.side == Client && s.spent + 1 < U64_SPAN {
      BurnKeepsInv(s);
    }
    if s.next < |s.sent| {
      TakeKeepsInv(s);
    }
  }

  lemma {:induction false} RunKeepsInv(s: Link, es: seq<Event>)
    requires Inv(s)
    requires |Run(s, es).sent| < U64_SPAN
    requires s.side == Client ==> Run(s, es).spent < U64_SPAN
    ensures Inv(Run(s, es)) && Run(s, es).side == s.side
    decreases |es|
  {
    if es != [] {
      var before, e := es[..|es| - 1], es[|es| - 1];
      var t := Run(s, before);
      assert |t.sent| <= |Run(s, es).sent| && t.spent <= Run(s, es).spent && t.side == Step(t, e).side;
      RunKeepsInv(s, before);
      hide Inv, SendStep, ReadStep;
      match e {
        case Send(m, padding, filler, cipher) =>
          SendKeepsInv(t, m, padding, filler, cipher);
          SendLeavesReceiver(t, m, padding, filler, cipher);
        case Read(typ, wire) =>
          ReadKeepsInv(t, typ, wire);
          ReadLeavesSender(t, typ, wire);
      }
    }
  }

  /** Sealing touches no receive state. */
  lemma SendLeavesReceiver(s: Link, m: Msg, padding: bool, filler: nat -> Byte, cipher: Bytes)
    ensures var s' := SendStep(s, m, padding, filler, cipher);
      && s' == s.(log := s'.log, sent := s'.sent)
  {
  }

  /** Reading touches no send state. */
  lemma ReadLeavesSender(s: Link, typ: Byte, wire: Bytes)
    ensures var s' := ReadStep(s, typ, wire);
      && s' == s.(next := s'.next, accepted := s'.accepted, taken := s'.taken, burned := s'.burned, spent := s'.spent)
  {
  }

  // ---------------------------------------------------------------- the theorems

  /** An ascending list of n numbers below n is 0, 1, ..., n - 1. */
  lemma AscendingIsIota(ns: seq<nat>, i: nat)
    requires Ascending(ns)
    requires forall j :: 0 <= j < |ns| ==> ns[j] < |ns|
    requires i < |ns|
    ensures ns[i] == i
  {
    AtLeastIndex(ns, i);
    RoomAbove(ns, i);
  }

  lemma {:induction false} AtLeastIndex(ns: seq<nat>, i: nat)
    requires Ascending(ns) && i < |ns|
    ensures ns[i] >= i
  {
    if i > 0 {
      AtLeastIndex(ns, i - 1);
    }
  }

  lemma {:induction false} RoomAbove(ns: seq<nat>, i: nat)
    requires Ascending(ns) && i < |ns|
    requires forall j :: 0 <= j < |ns| ==> ns[j] < |ns|
    ensures ns[i] <= i
    decreases |ns| - i
  {
    if i + 1 < |ns| {
      RoomAbove(ns, i + 1);
    }
  }

  lemma UnburnedIsPrefix(s: Link)
    requires Inv(s)
    ensures s.burned == {} <==> |s.accepted| == s.next && s.accepted <= s.sent
  {
    hide Honest;
    if s.burned == {} {
      forall i | 0 <= i < |s.taken| ensures s.taken[i] == i {
        AscendingIsIota(s.taken, i);
      }
      if s.next > 0 {
        assert s.taken[s.next - 1] == s.next - 1;
      }
    }
  }

  /**
    * The gateway against an arbitrary wire: whatever bytes its reads are handed, however many of
    * them fail and are retried, what it has accepted is exactly the first `next` messages sealed,
    * in order, with their types. The bound is the one the nonce counter documents.
    */
  lemma GatewayAcceptsExactlyThePrefix(salt: Salt, dir: Byte, es: seq<Event>)
    requires |Run(Initial(Gateway, salt, dir), es).sent| < U64_SPAN
    ensures var s := Run(Initial(Gateway, salt, dir), es);
      && |s.accepted| == s.next
      && s.accepted <= s.sent
  {
    RunKeepsInv(Initial(Gateway, salt, dir), es);
    UnburnedIsPrefix(Run(Initial(Gateway, salt, dir), es));
  }

  /**
    * The client against an arbitrary wire: accepted sequence numbers strictly increase, each
    * payload is the one sealed at its number, and the numbers below the counter are exactly those
    * accepted plus those spent on failed opens. The accepted list is the gap-free prefix up to the
    * counter if and only if no read has failed to open. Fewer than 2^64 numbers have been used at
    * either end; how many reads failed without spending one does not matter.
    */
  lemma ClientAcceptsAnAscendingSubsequence(salt: Salt, dir: Byte, es: seq<Event>)
    requires |Run(Initial(Client, salt, dir), es).sent| < U64_SPAN
    requires Run(Initial(Client, salt, dir), es).spent < U64_SPAN
    ensures var s := Run(Initial(Client, salt, dir), es);
      && Ascending(s.taken)
      && Genuine(s)
      && Accounted(s)
      && (s.burned == {} <==> |s.accepted| == s.next && s.accepted <= s.sent)
  {
    InitialInv(Client, salt, dir);
    hide Run, Honest, Initial, Ascending, Genuine, Accounted;
    RunKeepsInv(Initial(Client, salt, dir), es);
    UnburnedIsPrefix(Run(Initial(Client, salt, dir), es));
  }

  lemma InitialInv(side: Side, salt: Salt, dir: Byte)
    ensures Inv(Initial(side, salt, dir))
  {
  }

  /**
    * Where the two receivers part. Both are waiting for message k; a frame with the right type and
    * number that does not open arrives, then the genuine one. The gateway accepts message k. The
    * client has spent k on the forgery: it refuses the genuine frame and will not see message k.
    */
  lemma OneForgedFrame(s: Link, forged: Frame)
    requires Inv(s) && s.next < |s.sent| < U64_SPAN
    requires Writable(forged) && forged.typ == s.sent[s.next].typ
    requires SequenceOf(forged.nonce) == s.next
    requires forged != FrameOf(s.sent[s.next], s.log[s.next])
    requires Writable(FrameOf(s.sent[s.next], s.log[s.next]))
    ensures var k, m := s.next, s.sent[s.next];
      var genuine := EncodeFrame(FrameOf(m, s.log[k]));
      var t := ReadStep(ReadStep(s, m.typ, EncodeFrame(forged)), m.typ, genuine);
      && (s.side == Gateway ==> t.accepted == s.accepted + [m] && t.next == k + 1)
      && (s.side == Client ==> t.accepted == s.accepted && t.burned == s.burned + {k} && t.next == k + 1)
  {
    var k, m := s.next, s.sent[s.next];
    var genuine := FrameOf(m, s.log[k]);
    assert EncodeFrame(forged) + [] == EncodeFrame(forged);
    assert EncodeFrame(genuine) + [] == EncodeFrame(genuine);
    ParseOfEncode(forged, []);
    ParseOfEncode(genuine, []);
    ForgeryIsNotAuthentic(s, forged);
    var s1 := ReadStep(s, m.typ, EncodeFrame(forged));
    assert SealsMessage(s.log[k], s.salt, s.dir, k, m);
    SequenceOfNonceAt(s.salt, k);
    hide Honest, Lookup, Inv, SequenceOf, AadOfSequence, AadOfNonce, EncodeFrame, ParseFrame, NonceAt;
    AcceptsOnlyTheNextMessage(s.side, s.log, s.salt, s.dir, s.sent, k, m.typ, genuine);
  }

  lemma ForgeryIsNotAuthentic(s: Link, forged: Frame)
    requires Inv(s) && s.next < |s.sent| < U64_SPAN
    requires forged.typ == s.sent[s.next].typ
    requires SequenceOf(forged.nonce) == s.next
    requires forged != FrameOf(s.sent[s.next], s.log[s.next])
    ensures var v := Accept(s.side, s.log, s.dir, s.next, forged.typ, forged);
      v == Verdict(Err(NotAuthentic), if s.side == Client then s.next + 1 else s.next)
  {
    hide Honest, Lookup, SequenceOf, AadOfSequence, AadOfNonce, Ascending, Genuine, Accounted, Unwrap;
    HonestLengths(s.log, s.salt, s.dir, s.sent);
    AcceptsOnlyTheNextMessage(s.side, s.log, s.salt, s.dir, s.sent, s.next, forged.typ, forged);
    var plain := Lookup(s.log, forged.nonce, forged.ciphertext, AadOfNonce(forged.typ, s.dir, forged.nonce));
    AadFormsAgree(forged.typ, s.dir, forged.nonce);
    if plain.Some? {
      HonestOpenIsEntry(s.log, s.salt, s.dir, s.sent, forged.nonce, forged.ciphertext,
                        AadOfNonce(forged.typ, s.dir, forged.nonce));
    }
  }

  // ---------------------------------------------------------------- the bound is exact

  lemma EntryOf(log: seq<Sealed>, salt: Salt, dir: Byte, sent: seq<Msg>, k: nat)
    requires Honest(log, salt, dir, sent) && k < |log| <= U64_SPAN
    ensures |log| == |sent| && SequenceOf(log[k].nonce) == k
    ensures log[k].aad == AadOfSequence(sent[k].typ, dir, k) == AadOfNonce(sent[k].typ, dir, log[k].nonce)
    ensures Opened(log[k].plain) == Ok(sent[k].payload)
  {
    hide NonceAt, SequenceOf, AadOfSequence, AadOfNonce, Unwrap;
    assert SealsMessage(log[k], salt, dir, k, sent[k]);
    SequenceOfNonceAt(salt, k);
    AadFormsAgree(sent[k].typ, dir, log[k].nonce);
  }

  /** Up to a full span of messages, the frame of message k is accepted at counter k, and the counter wraps. */
  lemma OwnFrameIsAccepted(side: Side, log: seq<Sealed>, salt: Salt, dir: Byte, sent: seq<Msg>, k: nat)
    requires Honest(log, salt, dir, sent) && k < |log| <= U64_SPAN
    ensures |log| == |sent|
    ensures Accept(side, log, dir, k, sent[k].typ, FrameOf(sent[k], log[k])) == Verdict(Ok(sent[k].payload), Succ64(k))
  {
    hide Honest, Lookup, NonceAt, SequenceOf, AadOfSequence, AadOfNonce, Opened, Succ64;
    EntryOf(log, salt, dir, sent, k);
    HonestEntryOpens(log, salt, dir, sent, k);
  }

  lemma ReadsOwnFrame(s: Link, k: nat)
    requires Honest(s.log, s.salt, s.dir, s.sent) && k < |s.log| <= U64_SPAN && s.next == k
    requires Writable(FrameOf(s.sent[k], s.log[k]))
    ensures var t := ReadStep(s, s.sent[k].typ, EncodeFrame(FrameOf(s.sent[k], s.log[k])));
      t.sent == s.sent && t.log == s.log && t.accepted == s.accepted + [s.sent[k]] && t.next == Succ64(k) &&
      t.side == s.side && t.salt == s.salt && t.dir == s.dir
  {
    hide Honest, EncodeFrame, ParseFrame, Accept, FrameOf;
    HonestLengths(s.log, s.salt, s.dir, s.sent);
    var f := FrameOf(s.sent[k], s.log[k]);
    ParseOfEncode(f, []);
    assert EncodeFrame(f) + [] == EncodeFrame(f);
    OwnFrameIsAccepted(s.side, s.log, s.salt, s.dir, s.sent, k);
  }

  /** A message that WriteDataFrame or WriteConnectFrame can put into one frame, without padding. */
  predicate Sendable(m: Msg)
  {
    ValidType(m.typ) && |m.payload| + 18 <= MAX_CIPHERTEXT
  }

  /** Each message is sealed, and then its frame is read. */
  ghost predicate InStep(s: Link, side: Side, salt: Salt, dir: Byte, ms: seq<Msg>)
  {
    && s.side == side && s.salt == salt && s.dir == dir
    && Honest(s.log, salt, dir, s.sent) && |s.log| == |s.sent|
    && s.sent == ms && s.accepted == ms && s.next == |ms| % U64_SPAN
    && (ms != [] ==> Writable(FrameOf(ms[0], s.log[0])))
  }

  lemma SendThenRead(s: Link, side: Side, salt: Salt, dir: Byte, ms: seq<Msg>, m: Msg)
      returns (send: Event, read: Event)
    requires InStep(s, side, salt, dir, ms) && Sendable(m) && |ms| < U64_SPAN
    ensures InStep(Step(Step(s, send), read), side, salt, dir, ms + [m])
  {
    hide Honest, EncodeFrame, ReadStep, SendStep, FrameOf;
    var t;
    send, t := SealsOne(s, m);
    SendKeepsHonest(s, m, send.padding, send.filler, send.cipher);
    var k := |ms|;
    read := Read(m.typ, EncodeFrame(FrameOf(m, t.log[k])));
    ReadsOwnFrame(t, k);
    assert Step(Step(s, send), read) == ReadStep(t, m.typ, EncodeFrame(FrameOf(m, t.log[k])));
    assert ms != [] ==> t.log[0] == s.log[0] && (ms + [m])[0] == ms[0];
  }

  lemma SealsOne(s: Link, m: Msg) returns (send: Event, t: Link)
    requires Sendable(m) && |s.log| == |s.sent|
    ensures send.Send? && send.msg == m && t == Step(s, send) == SendStep(s, m, send.padding, send.filler, send.cipher)
    ensures t == s.(log := t.log, sent := s.sent + [m]) && |t.log| == |s.log| + 1 && s.log <= t.log
    ensures Writable(FrameOf(m, t.log[|s.log|]))
  {
    hide Wrap, NonceAt, AadOfSequence;
    var filler: nat -> Byte := _ => 0;
    var cipher := seq(|m.payload| + 18, _ => 0);
    WrapDomain(m.payload, false, filler);
    send := Send(m, false, filler, cipher);
    t := SendStep(s, m, false, filler, cipher);
  }

  lemma {:induction false} LockstepRun(side: Side, salt: Salt, dir: Byte, ms: seq<Msg>) returns (es: seq<Event>)
    requires |ms| <= U64_SPAN && forall i :: 0 <= i < |ms| ==> Sendable(ms[i])
    ensures InStep(Run(Initial(side, salt, dir), es), side, salt, dir, ms)
    decreases |ms|
  {
    hide InStep, Sendable, Step;
    var s := Initial(side, salt, dir);
    if ms == [] {
      es := [];
      NothingInStep(side, salt, dir);
      RunStarts(s);
    } else {
      var front, m := ms[..|ms| - 1], ms[|ms| - 1];
      var before := LockstepRun(side, salt, dir, front);
      var send, read := SendThenRead(Run(s, before), side, salt, dir, front, m);
      RunOfSnoc(s, before, send);
      RunOfSnoc(s, before + [send], read);
      es := before + [send] + [read];
      assert ms == front + [m];
    }
  }

  lemma NothingInStep(side: Side, salt: Salt, dir: Byte)
    ensures InStep(Initial(side, salt, dir), side, salt, dir, [])
  {
  }

  lemma RunStarts(s: Link)
    ensures Run(s, []) == s
  {
  }

  lemma RunOfSnoc(s: Link, es: seq<Event>, e: Event)
    ensures Run(s, es + [e]) == Step(Run(s, es), e)
  {
    assert (es + [e])[..|es|] == es;
  }

  /**
    * The bound is exact. Whatever 2^64 messages are sent, there is a run that takes each as it comes
    * and then takes the first one a second time, because the receive counter has come back to 0: what
    * has been accepted is longer than what was sent.
    */
  lemma FullSpanReplays(side: Side, salt: Salt, dir: Byte, ms: seq<Msg>) returns (es: seq<Event>)
    requires |ms| == U64_SPAN && forall i :: 0 <= i < |ms| ==> Sendable(ms[i])
    ensures var s := Run(Initial(side, salt, dir), es);
      && s.sent == ms && s.accepted == ms + [ms[0]] && !(s.accepted <= s.sent)
  {
    var before := LockstepRun(side, salt, dir, ms);
    var s := Run(Initial(side, salt, dir), before);
    hide Honest, Sendable, Run, ReadStep, EncodeFrame;
    var again := Read(ms[0].typ, EncodeFrame(FrameOf(ms[0], s.log[0])));
    ReadsOwnFrame(s, 0);
    RunOfSnoc(Initial(side, salt, dir), before, again);
    es := before + [again];
  }
}
