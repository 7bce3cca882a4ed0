/**
  * The gateway runs its two forwarding loops as goroutines on one tunnelChannel, without a lock, and
  * returns as soon as one of them does: the destination is then closed under the other loop, and the
  * tunnel connection after it. A turn of either loop, or of the closing, acts on the whole shared
  * state. What each side gets depends on the schedule only through where the closing cuts its loop.
  */
module Schedules {
  import opened Bytes
  import opened Frames
  import opened Envelope
  import opened Sealing
  import opened Channels
  import opened Chunking
  import opened Streams

  datatype Tunnel = Tunnel(
    padding: bool,
    salt: Salt,
    clientLog: seq<Sealed>,   // channel.receive
    received: nat,            // channel.received
    fromClient: Bytes,        // the tunnel connection, unread
    toDestination: Bytes,     // the destination, written
    upDone: bool,             // forwardTunnelToDestination has returned
    issued: nat,              // channel.nonces
    log: seq<Sealed>,         // channel.send
    fromDestination: Bytes,   // the destination, unread
    pending: Bytes,           // read from the destination and not yet framed
    ending: Status,           // the error that came with it
    toClient: Bytes,          // the tunnel connection, written
    downDone: bool,           // forwardDestinationToTunnel has returned
    destinationClosed: bool,
    tunnelClosed: bool
  )

  datatype Turn =
    | Up(cut: Option<nat>)
    | Pull(count: nat, st: Status)
    | Push(filler: nat -> Byte, cipher: Bytes, cut: Option<nat>)
    | CloseDestination
    | CloseTunnel

  /** One iteration of forwardTunnelToDestination; the destination may fail after any part of the payload. */
  function UpStep(s: Tunnel, cut: Option<nat>): Tunnel
  {
    if s.upDone then s
    else if s.tunnelClosed then s.(upDone := true)
    else
      var v := Receive(Gateway, s.clientLog, CLIENT_TO_SERVER, s.received, DATA_PAYLOAD, s.fromClient);
      var t := s.(received := v.next, fromClient := ParseFrame(s.fromClient).rest);
      if v.result.Err? then t.(upDone := true)
      else if v.result.value == [] then t
      else if s.destinationClosed then t.(upDone := true)
      else t.(toDestination := s.toDestination + Taken(v.result.value, cut), upDone := cut.Some?)
  }

  /** destination.Read in forwardDestinationToTunnel: data, an error, or both. */
  function PullStep(s: Tunnel, count: nat, st: Status): Tunnel
  {
    if s.downDone || s.pending != [] then s
    else if s.destinationClosed then s.(downDone := true)
    else if count > RELAY_BUFFER || count > |s.fromDestination| || (st == Eof && count < |s.fromDestination|) then s
    else if count == 0 then s.(downDone := st != Fine)
    else s.(pending := s.fromDestination[..count], fromDestination := s.fromDestination[count..], ending := st)
  }

  /** There is something to frame, and the ciphertext is one for it. */
  predicate CanPush(s: Tunnel, filler: nat -> Byte, cipher: Bytes)
  {
    var wrapped := Wrap(Chunk(s.pending), s.padding, filler);
    && !s.downDone && s.pending != [] && wrapped.Ok? && |cipher| == |wrapped.value| + OVERHEAD
    && |cipher| <= MAX_CIPHERTEXT
  }

  /** One channel.write of its inner loop; the tunnel may fail after any part of the frame. */
  function PushStep(s: Tunnel, filler: nat -> Byte, cipher: Bytes, cut: Option<nat>): Tunnel
  {
    if !CanPush(s, filler, cipher) then s
    else
      var chunk, nonce := Chunk(s.pending), NonceAt(s.salt, s.issued);
      var aad := AadOfSequence(DATA_PAYLOAD, SERVER_TO_CLIENT, SequenceOf(nonce));
      var e := Sealed(nonce, aad, Wrap(chunk, s.padding, filler).value, cipher);
      var rest := s.pending[|chunk|..];
      var t := s.(issued := s.issued + 1, log := s.log + [e], pending := rest);
      if s.tunnelClosed then t.(downDone := true)
      else
        t.(toClient := s.toClient + Taken(EncodeFrame(Frame(DATA_PAYLOAD, nonce, cipher)), cut),
           downDone := cut.Some? || (rest == [] && s.ending != Fine))
  }

  /** serveTunnelOptions returns once a loop has, closing the destination; its caller then closes the tunnel. */
  function Step(s: Tunnel, t: Turn): Tunnel
  {
    match t
    case Up(cut) => UpStep(s, cut)
    case Pull(count, st) => PullStep(s, count, st)
    case Push(filler, cipher, cut) => PushStep(s, filler, cipher, cut)
    case CloseDestination => if s.upDone || s.downDone then s.(destinationClosed := true) else s
    case CloseTunnel => if s.destinationClosed then s.(tunnelClosed := true) else s
  }

  function Run(s: Tunnel, turns: seq<Turn>): Tunnel
    decreases turns
  {
    if turns == [] then s else Run(Step(s, turns[0]), turns[1..])
  }

  predicate IsDown(t: Turn)
  {
    t.Pull? || t.Push?
  }

  function Ups(turns: seq<Turn>): seq<Turn>
  {
    if turns == [] then [] else (if turns[0].Up? then [turns[0]] else []) + Ups(turns[1..])
  }

  function Downs(turns: seq<Turn>): seq<Turn>
  {
    if turns == [] then [] else (if IsDown(turns[0]) then [turns[0]] else []) + Downs(turns[1..])
  }

  // ---------------------------------------------------------------- the loops share nothing but the closing

  ghost predicate SameUp(a: Tunnel, b: Tunnel)
  {
    && a.clientLog == b.clientLog && a.received == b.received && a.fromClient == b.fromClient
    && a.toDestination == b.toDestination && a.upDone == b.upDone
  }

  ghost predicate SameDown(a: Tunnel, b: Tunnel)
  {
    && a.padding == b.padding && a.salt == b.salt && a.issued == b.issued && a.log == b.log
    && a.fromDestination == b.fromDestination && a.pending == b.pending && a.ending == b.ending
    && a.toClient == b.toClient && a.downDone == b.downDone
  }

  predicate IsOpen(s: Tunnel)
  {
    !s.destinationClosed && !s.tunnelClosed
  }

  /** A turn of one loop leaves the other loop's state and the closing alone. */
  lemma TurnsAreSeparate(s: Tunnel, t: Turn)
    ensures !t.Up? ==> SameUp(Step(s, t), s)
    ensures !IsDown(t) ==> SameDown(Step(s, t), s)
    ensures t.Up? || IsDown(t) ==>
      Step(s, t).destinationClosed == s.destinationClosed && Step(s, t).tunnelClosed == s.tunnelClosed
  {
    hide Wrap, NonceAt, AadOfSequence, SequenceOf, EncodeFrame, Receive, ParseFrame, Chunk;
  }

  /** And depends on nothing else. */
  lemma UpDepends(a: Tunnel, b: Tunnel, t: Turn)
    requires SameUp(a, b) && t.Up?
    requires a.destinationClosed == b.destinationClosed && a.tunnelClosed == b.tunnelClosed
    ensures SameUp(Step(a, t), Step(b, t))
  {
    hide UpStep, PullStep, PushStep;
    UpStepDepends(a, b, t.cut);
  }

  lemma UpStepDepends(a: Tunnel, b: Tunnel, cut: Option<nat>)
    requires SameUp(a, b)
    requires a.destinationClosed == b.destinationClosed && a.tunnelClosed == b.tunnelClosed
    ensures SameUp(UpStep(a, cut), UpStep(b, cut))
  {
    hide Receive, ParseFrame, Taken;
    var x, y := UpStep(a, cut), UpStep(b, cut);
    if !a.upDone && !a.tunnelClosed {
      var v := Receive(Gateway, a.clientLog, CLIENT_TO_SERVER, a.received, DATA_PAYLOAD, a.fromClient);
      assert v == Receive(Gateway, b.clientLog, CLIENT_TO_SERVER, b.received, DATA_PAYLOAD, b.fromClient);
      assert x.received == v.next == y.received && x.fromClient == ParseFrame(a.fromClient).rest == y.fromClient;
      if v.result.Ok? && v.result.value != [] && !a.destinationClosed {
        assert x.toDestination == a.toDestination + Taken(v.result.value, cut) == y.toDestination;
      }
    }
  }

  lemma DownDepends(a: Tunnel, b: Tunnel, t: Turn)
    requires SameDown(a, b) && IsDown(t)
    requires a.destinationClosed == b.destinationClosed && a.tunnelClosed == b.tunnelClosed
    ensures SameDown(Step(a, t), Step(b, t))
  {
    hide Wrap, NonceAt, AadOfSequence, SequenceOf, EncodeFrame, Chunk;
  }

  /** Turns of the two loops commute in every state, closing or not. */
  lemma TurnsCommute(s: Tunnel, u: Turn, d: Turn)
    requires u.Up? && IsDown(d)
    ensures Step(Step(s, u), d) == Step(Step(s, d), u)
  {
    TurnsAreSeparate(s, u);
    TurnsAreSeparate(s, d);
    TurnsAreSeparate(Step(s, u), d);
    TurnsAreSeparate(Step(s, d), u);
    UpDepends(s, Step(s, d), u);
    DownDepends(s, Step(s, u), d);
    hide Step;
  }

  lemma {:induction false} UpRunDepends(a: Tunnel, b: Tunnel, ups: seq<Turn>)
    requires SameUp(a, b) && IsOpen(a) && IsOpen(b) && forall i :: 0 <= i < |ups| ==> ups[i].Up?
    ensures SameUp(Run(a, ups), Run(b, ups))
    decreases ups
  {
    if ups != [] {
      hide Step;
      UpDepends(a, b, ups[0]);
      TurnsAreSeparate(a, ups[0]);
      TurnsAreSeparate(b, ups[0]);
      UpRunDepends(Step(a, ups[0]), Step(b, ups[0]), ups[1..]);
    }
  }

  lemma {:induction false} DownRunDepends(a: Tunnel, b: Tunnel, downs: seq<Turn>)
    requires SameDown(a, b) && IsOpen(a) && IsOpen(b) && forall i :: 0 <= i < |downs| ==> IsDown(downs[i])
    ensures SameDown(Run(a, downs), Run(b, downs))
    decreases downs
  {
    if downs != [] {
      hide Step;
      DownDepends(a, b, downs[0]);
      TurnsAreSeparate(a, downs[0]);
      TurnsAreSeparate(b, downs[0]);
      DownRunDepends(Step(a, downs[0]), Step(b, downs[0]), downs[1..]);
    }
  }

  lemma {:induction false} FilteredTurns(turns: seq<Turn>)
    ensures forall i :: 0 <= i < |Ups(turns)| ==> Ups(turns)[i].Up?
    ensures forall i :: 0 <= i < |Downs(turns)| ==> IsDown(Downs(turns)[i])
  {
    if turns != [] {
      FilteredTurns(turns[1..]);
    }
  }

  // ---------------------------------------------------------------- until the teardown

  lemma {:induction false} ClosedStaysClosed(s: Tunnel, turns: seq<Turn>)
    requires s.destinationClosed
    ensures Run(s, turns).destinationClosed
    decreases turns
  {
    if turns != [] {
      TurnsAreSeparate(s, turns[0]);
      ClosedStaysClosed(Step(s, turns[0]), turns[1..]);
    }
  }

  /** As long as nothing is closed, each loop has done what it does alone. */
  lemma {:induction false} SeparateUntilTeardown(s: Tunnel, turns: seq<Turn>)
    requires IsOpen(s) && !Run(s, turns).destinationClosed
    ensures SameUp(Run(s, turns), Run(s, Ups(turns)))
    ensures SameDown(Run(s, turns), Run(s, Downs(turns)))
    ensures IsOpen(Run(s, turns))
    decreases turns
  {
    if turns != [] {
      hide Step, Ups, Downs;
      var t, rest := turns[0], turns[1..];
      var s1 := Step(s, t);
      if s1.destinationClosed {
        ClosedStaysClosed(s1, rest);
      }
      TurnsAreSeparate(s, t);
      StaysOpen(s, t);
      SeparateUntilTeardown(s1, rest);
      FilteredTurns(rest);
      FirstTurn(turns);
      if t.Up? {
        RunOfCons(s, t, Ups(rest));
      } else {
        UpRunDepends(s1, s, Ups(rest));
      }
      if IsDown(t) {
        RunOfCons(s, t, Downs(rest));
      } else {
        DownRunDepends(s1, s, Downs(rest));
      }
    } else {
      NoTurns();
    }
  }

  lemma FirstTurn(turns: seq<Turn>)
    requires turns != []
    ensures Ups(turns) == if turns[0].Up? then [turns[0]] + Ups(turns[1..]) else Ups(turns[1..])
    ensures Downs(turns) == if IsDown(turns[0]) then [turns[0]] + Downs(turns[1..]) else Downs(turns[1..])
  {
  }

  lemma NoTurns()
    ensures Ups([]) == [] && Downs([]) == []
  {
  }

  /** Two schedules of the same two loops that have not come to the teardown end in the same state. */
  lemma SchedulingIsIrrelevantUntilTeardown(s: Tunnel, a: seq<Turn>, b: seq<Turn>)
    requires IsOpen(s) && Ups(a) == Ups(b) && Downs(a) == Downs(b)
    requires !Run(s, a).destinationClosed && !Run(s, b).destinationClosed
    ensures Run(s, a) == Run(s, b)
  {
    hide Run, Ups, Downs;
    SeparateUntilTeardown(s, a);
    SeparateUntilTeardown(s, b);
  }

  // ---------------------------------------------------------------- where the teardown cuts each loop

  /** How many turns of the read loop came before the destination was closed. */
  function LiveUps(s: Tunnel, turns: seq<Turn>): nat
    decreases turns
  {
    if turns == [] then 0
    else (if turns[0].Up? && !s.destinationClosed then 1 else 0) + LiveUps(Step(s, turns[0]), turns[1..])
  }

  /** The turn of the write loop that fails because of the closing: a read, or a write of what is in hand. */
  predicate CutOff(s: Tunnel, t: Turn)
  {
    || (t.Pull? && !s.downDone && s.pending == [] && s.destinationClosed)
    || (t.Push? && CanPush(s, t.filler, t.cipher) && s.tunnelClosed)
  }

  /** How many turns of the write loop came before the one that fails because of the closing. */
  function LiveDowns(s: Tunnel, turns: seq<Turn>): nat
    decreases turns
  {
    if turns == [] || CutOff(s, turns[0]) then 0
    else (if IsDown(turns[0]) then 1 else 0) + LiveDowns(Step(s, turns[0]), turns[1..])
  }

  lemma {:induction false} LiveAreTurns(s: Tunnel, turns: seq<Turn>)
    ensures LiveUps(s, turns) <= |Ups(turns)|
    ensures LiveDowns(s, turns) <= |Downs(turns)|
    decreases turns
  {
    if turns != [] {
      hide Step, CutOff;
      LiveAreTurns(Step(s, turns[0]), turns[1..]);
    }
  }

  lemma FrozenDestination(s: Tunnel, t: Turn)
    requires s.destinationClosed
    ensures Step(s, t).destinationClosed && Step(s, t).toDestination == s.toDestination
  {
    hide Wrap, NonceAt, AadOfSequence, SequenceOf, EncodeFrame, Receive, ParseFrame, Chunk;
  }

  lemma {:induction false} NothingAfterClosing(s: Tunnel, turns: seq<Turn>)
    requires s.destinationClosed
    ensures LiveUps(s, turns) == 0 && Run(s, turns).toDestination == s.toDestination
    decreases turns
  {
    if turns != [] {
      FrozenDestination(s, turns[0]);
      hide Step;
      NothingAfterClosing(Step(s, turns[0]), turns[1..]);
    }
  }

  /** The destination has got what the read loop alone delivers in the turns before the closing. */
  lemma {:induction false} DestinationGets(s: Tunnel, turns: seq<Turn>)
    requires IsOpen(s)
    ensures LiveUps(s, turns) <= |Ups(turns)|
    ensures Run(s, turns).toDestination == Run(s, Ups(turns)[..LiveUps(s, turns)]).toDestination
    decreases turns
  {
    if turns != [] {
      hide Step, LiveUps, Ups;
      var t, rest := turns[0], turns[1..];
      var s1, n := Step(s, t), LiveUps(Step(s, t), rest);
      LiveUpsUnfold(s, turns);
      TurnsAreSeparate(s, t);
      FilteredTurns(rest);
      if s1.destinationClosed {
        NothingAfterClosing(s1, rest);
        assert [] + Ups(rest)[..0] == [];
      } else {
        StaysOpen(s, t);
        DestinationGets(s1, rest);
        if t.Up? {
          RunOfCons(s, t, Ups(rest)[..n]);
        } else {
          UpRunDepends(s1, s, Ups(rest)[..n]);
          assert [] + Ups(rest)[..n] == Ups(rest)[..n];
        }
      }
    } else {
      LiveAreTurns(s, turns);
    }
  }

  lemma StaysOpen(s: Tunnel, t: Turn)
    requires IsOpen(s)
    ensures Step(s, t).destinationClosed || IsOpen(Step(s, t))
  {
    hide Step;
    TurnsAreSeparate(s, t);
    ClosingTurns(s);
  }

  lemma ClosingTurns(s: Tunnel)
    ensures Step(s, CloseDestination).tunnelClosed == s.tunnelClosed
    ensures Step(s, CloseTunnel) == if s.destinationClosed then s.(tunnelClosed := true) else s
  {
  }

  lemma LiveUpsUnfold(s: Tunnel, turns: seq<Turn>)
    requires turns != [] && IsOpen(s)
    ensures var rest, n := turns[1..], LiveUps(Step(s, turns[0]), turns[1..]);
      && n <= |Ups(rest)|
      && LiveUps(s, turns) == (if turns[0].Up? then n + 1 else n) <= |Ups(turns)|
      && Ups(turns)[..LiveUps(s, turns)] == (if turns[0].Up? then [turns[0]] else []) + Ups(rest)[..n]
  {
    hide Step;
    LiveAreTurns(s, turns);
    LiveAreTurns(Step(s, turns[0]), turns[1..]);
  }

  /** The tunnel before anything was closed. */
  function Reopened(s: Tunnel): Tunnel
  {
    s.(destinationClosed := false, tunnelClosed := false)
  }

  lemma {:induction false} NothingAfterReturning(s: Tunnel, turns: seq<Turn>)
    requires s.downDone
    ensures Run(s, turns).toClient == s.toClient
    decreases turns
  {
    if turns != [] {
      ReturnedStays(s, turns[0]);
      hide Step;
      NothingAfterReturning(Step(s, turns[0]), turns[1..]);
    }
  }

  lemma ReturnedStays(s: Tunnel, t: Turn)
    requires s.downDone
    ensures Step(s, t).downDone && Step(s, t).toClient == s.toClient
  {
    hide Wrap, Receive, ParseFrame, Chunk;
  }

  lemma CutOffReturns(s: Tunnel, t: Turn)
    requires CutOff(s, t)
    ensures Step(s, t).downDone && Step(s, t).toClient == s.toClient && IsDown(t)
  {
    hide Wrap, NonceAt, AadOfSequence, SequenceOf, Chunk;
  }

  lemma UncutGoesOn(s: Tunnel, t: Turn)
    requires IsDown(t) && !CutOff(s, t)
    ensures SameDown(Step(s, t), Step(Reopened(s), t))
  {
    hide Wrap, NonceAt, AadOfSequence, SequenceOf, EncodeFrame, Chunk;
  }

  lemma LiveDownsUnfold(s: Tunnel, turns: seq<Turn>)
    requires turns != [] && !CutOff(s, turns[0])
    ensures var rest, n := turns[1..], LiveDowns(Step(s, turns[0]), turns[1..]);
      && n <= |Downs(rest)|
      && LiveDowns(s, turns) == (if IsDown(turns[0]) then n + 1 else n) <= |Downs(turns)|
      && Downs(turns)[..LiveDowns(s, turns)] == (if IsDown(turns[0]) then [turns[0]] else []) + Downs(rest)[..n]
  {
    hide Step, CutOff;
    LiveAreTurns(s, turns);
    LiveAreTurns(Step(s, turns[0]), turns[1..]);
  }

  lemma RunOfCons(s: Tunnel, t: Turn, turns: seq<Turn>)
    ensures Run(s, [t] + turns) == Run(Step(s, t), turns)
  {
    assert ([t] + turns)[1..] == turns;
  }

  /** The client has got what the write loop alone writes in the turns before the one cut off. */
  lemma {:induction false} ClientGets(s: Tunnel, turns: seq<Turn>)
    ensures LiveDowns(s, turns) <= |Downs(turns)|
    ensures Run(s, turns).toClient == Run(Reopened(s), Downs(turns)[..LiveDowns(s, turns)]).toClient
    decreases turns
  {
    LiveAreTurns(s, turns);
    if turns == [] {
      assert Downs(turns) == [];
    } else if CutOff(s, turns[0]) {
      CutOffReturns(s, turns[0]);
      hide Step, CutOff;
      NothingAfterReturning(Step(s, turns[0]), turns[1..]);
      assert Downs(turns)[..0] == [];
    } else {
      hide Step, CutOff, LiveDowns, Downs;
      var t, rest, s0 := turns[0], turns[1..], Reopened(s);
      var s1 := Step(s, t);
      var n := LiveDowns(s1, rest);
      LiveDownsUnfold(s, turns);
      FilteredTurns(rest);
      TurnsAreSeparate(s, t);
      TurnsAreSeparate(s0, t);
      ClientGets(s1, rest);
      if IsDown(t) {
        UncutGoesOn(s, t);
        DownRunDepends(Reopened(s1), Step(s0, t), Downs(rest)[..n]);
        RunOfCons(s0, t, Downs(rest)[..n]);
      } else {
        DownRunDepends(Reopened(s1), s0, Downs(rest)[..n]);
        assert [] + Downs(rest)[..n] == Downs(rest)[..n];
      }
    }
  }

  // ---------------------------------------------------------------- the theorems

  datatype Sink = Destination | TheClient

  /** What a side has got. */
  function Got(s: Tunnel, sink: Sink): Bytes
  {
    if sink == Destination then s.toDestination else s.toClient
  }

  /** The turns of the loop that serves it. */
  function LoopOf(turns: seq<Turn>, sink: Sink): seq<Turn>
  {
    if sink == Destination then Ups(turns) else Downs(turns)
  }

  function Live(s: Tunnel, turns: seq<Turn>, sink: Sink): nat
  {
    if sink == Destination then LiveUps(s, turns) else LiveDowns(s, turns)
  }

  lemma RunOfSnoc(s: Tunnel, turns: seq<Turn>, t: Turn)
    ensures Run(s, turns + [t]) == Step(Run(s, turns), t)
    decreases turns
  {
    hide Step;
    if turns == [] {
      assert [] + [t] == [t];
      assert Run(s, [t]) == Run(Step(s, t), []);
    } else {
      RunOfSnoc(Step(s, turns[0]), turns[1..], t);
      assert (turns + [t])[1..] == turns[1..] + [t];
    }
  }

  lemma OutputGrows(s: Tunnel, t: Turn, sink: Sink)
    ensures Got(s, sink) <= Got(Step(s, t), sink)
  {
    hide Wrap, NonceAt, AadOfSequence, SequenceOf, EncodeFrame, Receive, ParseFrame, Chunk, Taken;
  }

  /** Turn k of a loop run alone adds nothing to what its side has got. */
  predicate Idle(s: Tunnel, loop: seq<Turn>, k: nat, sink: Sink)
    requires k < |loop|
  {
    Got(Run(s, loop[..k + 1]), sink) == Got(Run(s, loop[..k]), sink)
  }

  lemma {:induction false} LoopOutputGrows(s: Tunnel, loop: seq<Turn>, lo: nat, hi: nat, sink: Sink)
    requires lo <= hi <= |loop|
    ensures Got(Run(s, loop[..lo]), sink) <= Got(Run(s, loop[..hi]), sink)
    ensures Got(Run(s, loop[..lo]), sink) == Got(Run(s, loop[..hi]), sink) <==>
            forall k :: lo <= k < hi ==> Idle(s, loop, k, sink)
    decreases hi - lo
  {
    hide Run, Got, Idle;
    if lo < hi {
      LoopOutputGrows(s, loop, lo, hi - 1, sink);
      TurnGrowsOrIdles(s, loop, hi - 1, sink);
      PrefixChain(Got(Run(s, loop[..lo]), sink), Got(Run(s, loop[..hi - 1]), sink), Got(Run(s, loop[..hi]), sink));
    }
  }

  lemma TurnGrowsOrIdles(s: Tunnel, loop: seq<Turn>, k: nat, sink: Sink)
    requires k < |loop|
    ensures Got(Run(s, loop[..k]), sink) <= Got(Run(s, loop[..k + 1]), sink)
    ensures Idle(s, loop, k, sink) <==> Got(Run(s, loop[..k]), sink) == Got(Run(s, loop[..k + 1]), sink)
  {
    hide Run, Step, Got;
    assert loop[..k + 1] == loop[..k] + [loop[k]];
    RunOfSnoc(s, loop[..k], loop[k]);
    OutputGrows(Run(s, loop[..k]), loop[k], sink);
  }

  lemma PrefixChain(x: Bytes, y: Bytes, z: Bytes)
    requires x <= y <= z
    ensures x <= z && (x == z <==> x == y && y == z)
  {
  }

  /** In every schedule a side has got what the first turns of its loop alone produce, up to the cut. */
  lemma LoopIsCutOnce(s: Tunnel, turns: seq<Turn>, sink: Sink)
    requires IsOpen(s)
    ensures Live(s, turns, sink) <= |LoopOf(turns, sink)|
    ensures Got(Run(s, turns), sink) == Got(Run(s, LoopOf(turns, sink)[..Live(s, turns, sink)]), sink)
  {
    hide Run, Ups, Downs, LiveUps, LiveDowns;
    DestinationGets(s, turns);
    ClientGets(s, turns);
    assert Reopened(s) == s;
  }

  /**
    * In every schedule, torn down or not, each side has got a prefix of what its loop would have
    * given it alone; and all of that if and only if every turn of the loop after the cut is idle.
    */
  lemma TeardownCutsShort(s: Tunnel, turns: seq<Turn>, sink: Sink)
    requires IsOpen(s)
    ensures var loop := LoopOf(turns, sink);
      var whole := Got(Run(s, loop), sink);
      && Got(Run(s, turns), sink) <= whole
      && (Got(Run(s, turns), sink) == whole <==>
          forall k :: Live(s, turns, sink) <= k < |loop| ==> Idle(s, loop, k, sink))
  {
    hide Run, LoopOf, Live, Got;
    LoopIsCutOnce(s, turns, sink);
    var loop := LoopOf(turns, sink);
    LoopOutputGrows(s, loop, Live(s, turns, sink), |loop|, sink);
    assert loop[..|loop|] == loop;
  }

  /**
    * When two schedules of the same two loops give a side the same: if and only if every turn of its
    * loop that came before the cut in one and not in the other is idle.
    */
  lemma SchedulesAgreeExactly(s: Tunnel, a: seq<Turn>, b: seq<Turn>, sink: Sink)
    requires IsOpen(s) && Ups(a) == Ups(b) && Downs(a) == Downs(b)
    ensures var loop := LoopOf(a, sink);
      var lo := if Live(s, a, sink) < Live(s, b, sink) then Live(s, a, sink) else Live(s, b, sink);
      var hi := if Live(s, a, sink) < Live(s, b, sink) then Live(s, b, sink) else Live(s, a, sink);
      && hi <= |loop|
      && (Got(Run(s, a), sink) == Got(Run(s, b), sink) <==> forall k :: lo <= k < hi ==> Idle(s, loop, k, sink))
  {
    assert LoopOf(a, sink) == LoopOf(b, sink);
    hide Run, LoopOf, Live, Got, Ups, Downs;
    LoopIsCutOnce(s, a, sink);
    LoopIsCutOnce(s, b, sink);
    var m, n := Live(s, a, sink), Live(s, b, sink);
    if m < n {
      LoopOutputGrows(s, LoopOf(a, sink), m, n, sink);
    } else {
      LoopOutputGrows(s, LoopOf(a, sink), n, m, sink);
    }
  }

  // ---------------------------------------------------------------- a schedule that loses data

  /** The payloads the read loop will accept from here on. */
  function Coming(s: Tunnel): seq<Bytes>
  {
    AcceptedFrom(Gateway, s.clientLog, CLIENT_TO_SERVER, s.received, DATA_PAYLOAD, s.fromClient)
  }

  function FirstOf(ps: seq<Bytes>, n: nat): seq<Bytes>
  {
    if n < |ps| then ps[..n] else ps
  }

  lemma UpStepCases(s: Tunnel, cut: Option<nat>)
    requires IsOpen(s) && !s.upDone
    ensures IsOpen(UpStep(s, cut))
    ensures Coming(s) == [] ==> UpStep(s, cut).upDone && UpStep(s, cut).toDestination == s.toDestination
    ensures Coming(s) != [] ==>
      && UpStep(s, cut).toDestination == s.toDestination + Taken(Coming(s)[0], cut)
      && Coming(UpStep(s, cut)) == Coming(s)[1..]
      && (cut.None? ==> !UpStep(s, cut).upDone)
  {
    hide Receive, ParseFrame;
  }

  /**
    * The same two loops, two schedules, two outcomes. A data frame is waiting and the destination has
    * reached its end: read first, and the payload is delivered; see the end first, and it is lost.
    */
  lemma TeardownCanLoseData(s: Tunnel) returns (a: seq<Turn>, b: seq<Turn>)
    requires IsOpen(s) && !s.upDone && !s.downDone && s.pending == [] && s.fromDestination == []
    requires Coming(s) != [] && Coming(s)[0] != []
    ensures Ups(a) == Ups(b) && Downs(a) == Downs(b)
    ensures Run(s, a).toDestination == s.toDestination + Coming(s)[0]
    ensures Run(s, b).toDestination == s.toDestination
  {
    hide Coming, UpStep;
    var up, end := Up(None), Pull(0, Eof);
    a, b := [up, end, CloseDestination], [end, CloseDestination, up];
    LoopsOfThree(up, end);
    UpStepCases(s, None);
    RunOfThree(s, up, end, CloseDestination);
    RunOfThree(s, end, CloseDestination, up);
    TurnsAreSeparate(Step(s, up), end);
    var t := Step(Step(s, end), CloseDestination);
    assert t.destinationClosed && t.toDestination == s.toDestination;
    FrozenDestination(t, up);
    ClosingDeliversNothing(Step(Step(s, up), end));
  }

  lemma ClosingDeliversNothing(s: Tunnel)
    ensures Step(s, CloseDestination).toDestination == s.toDestination
  {
  }

  lemma LoopsOfThree(up: Turn, end: Turn)
    requires up.Up? && IsDown(end)
    ensures Ups([up, end, CloseDestination]) == Ups([end, CloseDestination, up])
    ensures Downs([up, end, CloseDestination]) == Downs([end, CloseDestination, up])
  {
    var x, y := [up, end, CloseDestination], [end, CloseDestination, up];
    assert x[1..] == [end, CloseDestination] && x[1..][1..] == [CloseDestination];
    assert y[1..] == [CloseDestination, up] && y[1..][1..] == [up];
    assert Ups([CloseDestination]) == [] && Downs([CloseDestination]) == [];
    assert Ups([up]) == [up] && Downs([up]) == [];
    assert Ups([end, CloseDestination]) == [] && Downs([end, CloseDestination]) == [end];
    assert Ups([CloseDestination, up]) == [up] && Downs([CloseDestination, up]) == [];
  }

  lemma RunOfThree(s: Tunnel, a: Turn, b: Turn, c: Turn)
    ensures Run(s, [a, b, c]) == Step(Step(Step(s, a), b), c)
  {
    hide Step;
    assert [a, b, c][1..] == [b, c] && [b, c][1..] == [c] && [c][1..] == [];
    assert Run(s, [a, b, c]) == Run(Step(s, a), [b, c]);
    assert Run(Step(s, a), [b, c]) == Run(Step(Step(s, a), b), [c]);
  }

  // ---------------------------------------------------------------- what the loops do

  /**
    * What the read loop alone has delivered after n turns: a prefix of the first n payloads it accepts,
    * and all of them if the destination did not fail.
    */
  lemma {:induction false} UpTurnsDeliver(s: Tunnel, ups: seq<Turn>)
    requires IsOpen(s) && !s.upDone && forall i :: 0 <= i < |ups| ==> ups[i].Up?
    ensures var whole := s.toDestination + Concat(FirstOf(Coming(s), |ups|));
      && Run(s, ups).toDestination <= whole
      && ((forall i :: 0 <= i < |ups| ==> ups[i].cut.None?) ==> Run(s, ups).toDestination == whole)
    decreases ups
  {
    hide Coming, UpStep, Concat, FirstOf;
    var ps := Coming(s);
    if ups == [] {
      NothingFirst(s.toDestination, ps, 0);
    } else {
      var cut := ups[0].cut;
      var t := UpStep(s, cut);
      assert Step(s, ups[0]) == t;
      UpStepCases(s, cut);
      if ps == [] {
        StoppedStays(t, ups[1..]);
        NothingFirst(s.toDestination, ps, |ups|);
      } else {
        OneThenTheRest(s.toDestination, ps, |ups|);
        if t.upDone {
          StoppedStays(t, ups[1..]);
          assert s.toDestination + Taken(ps[0], cut) <= s.toDestination + ps[0];
        } else {
          UpTurnsDeliver(t, ups[1..]);
          StillUncut(s, cut);
        }
      }
    }
  }

  /** A loop that goes on took its payload whole. */
  lemma StillUncut(s: Tunnel, cut: Option<nat>)
    requires IsOpen(s) && !s.upDone && Coming(s) != [] && !UpStep(s, cut).upDone
    ensures UpStep(s, cut).toDestination == s.toDestination + Coming(s)[0]
  {
    hide Receive, ParseFrame;
  }

  lemma {:induction false} StoppedStays(s: Tunnel, ups: seq<Turn>)
    requires s.upDone && forall i :: 0 <= i < |ups| ==> ups[i].Up?
    ensures Run(s, ups) == s
    decreases ups
  {
    if ups != [] {
      assert Step(s, ups[0]) == s;
      StoppedStays(s, ups[1..]);
    }
  }

  lemma NothingFirst(before: Bytes, ps: seq<Bytes>, n: nat)
    requires ps == [] || n == 0
    ensures before + Concat(FirstOf(ps, n)) == before
  {
    assert FirstOf(ps, n) == [];
  }

  lemma OneThenTheRest(before: Bytes, ps: seq<Bytes>, n: nat)
    requires ps != [] && n > 0
    ensures before + ps[0] + Concat(FirstOf(ps[1..], n - 1)) == before + Concat(FirstOf(ps, n))
  {
    hide Concat;
    var done := FirstOf(ps[1..], n - 1);
    assert FirstOf(ps, n) == [ps[0]] + done;
    ConcatOfCons(ps[0], done);
  }

  /** A write turn seals the next chunk in hand under the next nonce and hands its frame to the tunnel. */
  lemma PushTurnSeals(s: Tunnel, sent: seq<Msg>, filler: nat -> Byte, cipher: Bytes, cut: Option<nat>)
    requires Honest(s.log, s.salt, SERVER_TO_CLIENT, sent) && s.issued == |s.log|
    requires CanPush(s, filler, cipher) && !s.tunnelClosed
    ensures var t, m := PushStep(s, filler, cipher, cut), Msg(DATA_PAYLOAD, Chunk(s.pending));
      && Honest(t.log, t.salt, SERVER_TO_CLIENT, sent + [m]) && t.issued == |t.log| == |s.log| + 1
      && Writable(FrameOf(m, t.log[|s.log|]))
      && t.toClient == s.toClient + Taken(EncodeFrame(FrameOf(m, t.log[|s.log|])), cut)
      && m.payload + t.pending == s.pending && m.payload != []
  {
    hide Honest, Unwrap, Wrap, NonceAt, AadOfSequence, SequenceOf, EncodeFrame, Chunk;
    var t, m := PushStep(s, filler, cipher, cut), Msg(DATA_PAYLOAD, Chunk(s.pending));
    UnwrapOfWrap(m.payload, s.padding, filler);
    SequenceOfNonceAt(s.salt, s.issued);
    HonestExtends(s.log, s.salt, SERVER_TO_CLIENT, sent, t.log[|s.log|], m);
  }

  // ---------------------------------------------------------------- what the write loop does

  /**
    * From s to t the write loop has sealed `more` and written their frames: every byte of the
    * destination is in one of them, in hand or unread; only the last frame can have been cut short.
    */
  ghost predicate Framed(s: Tunnel, t: Tunnel, sent: seq<Msg>, more: seq<Msg>, uncut: bool)
  {
    && t.salt == s.salt && Honest(t.log, t.salt, SERVER_TO_CLIENT, sent + more)
    && t.issued == |t.log| == |s.log| + |more| && s.log <= t.log
    && (forall i :: 0 <= i < |more| ==> more[i].typ == DATA_PAYLOAD && 0 < |more[i].payload| <= 1442)
    && Concat(Payloads(more)) + t.pending + t.fromDestination == s.pending + s.fromDestination
    && var frames := FramesOf(more, t.log[|s.log|..]);
      && AllWritable(frames)
      && s.toClient <= t.toClient <= s.toClient + EncodeAll(frames)
      && (uncut ==> t.toClient == s.toClient + EncodeAll(frames))
      && (more != [] ==> s.toClient + EncodeAll(frames[..|more| - 1]) <= t.toClient)
  }

  lemma NothingFramed(s: Tunnel, t: Tunnel, sent: seq<Msg>, uncut: bool)
    requires Honest(s.log, s.salt, SERVER_TO_CLIENT, sent) && s.issued == |s.log|
    requires t == s.(fromDestination := t.fromDestination, pending := t.pending, ending := t.ending,
                     downDone := t.downDone)
    requires t.pending + t.fromDestination == s.pending + s.fromDestination
    ensures Framed(s, t, sent, [], uncut)
  {
    hide Honest;
    assert sent + [] == sent && FramesOf([], t.log[|s.log|..]) == [];
    assert Payloads([]) == [] && [] + t.pending + t.fromDestination == t.pending + t.fromDestination;
  }

  /** One push, and what the rest of the run does. */
  lemma FramedCons(s: Tunnel, s1: Tunnel, t: Tunnel, sent: seq<Msg>, m: Msg, more: seq<Msg>, cut: Option<nat>,
                   uncut: bool)
    requires Honest(s1.log, s1.salt, SERVER_TO_CLIENT, sent + [m]) && s1.salt == s.salt
    requires |s1.log| == |s.log| + 1 && s.log <= s1.log && Writable(FrameOf(m, s1.log[|s.log|]))
    requires s1.toClient == s.toClient + Taken(EncodeFrame(FrameOf(m, s1.log[|s.log|])), cut)
    requires m.typ == DATA_PAYLOAD && 0 < |m.payload| <= 1442
    requires m.payload + s1.pending == s.pending && s1.fromDestination == s.fromDestination
    requires Framed(s1, t, sent + [m], more, uncut) && (cut.Some? ==> more == [] && t.toClient == s1.toClient)
    ensures Framed(s, t, sent, [m] + more, uncut && cut.None?)
  {
    hide Honest, EncodeFrame, FrameOf, EncodeAll, Concat, Taken, FramesOf;
    var all, f := [m] + more, FrameOf(m, s1.log[|s.log|]);
    assert sent + all == sent + [m] + more;
    var fs := FramesOf(more, t.log[|s1.log|..]);
    FramesOfCons(m, more, s1.log, t.log, |s.log|);
    FramesCons(s.toClient, s1.toClient, t.toClient, f, fs, cut);
    BytesCons(m, more, t.pending + t.fromDestination, s1.pending + s1.fromDestination);
    assert Concat(Payloads(more)) + t.pending + t.fromDestination ==
      Concat(Payloads(more)) + (t.pending + t.fromDestination);
    assert Concat(Payloads(all)) + t.pending + t.fromDestination ==
      Concat(Payloads(all)) + (t.pending + t.fromDestination);
    assert m.payload + (s1.pending + s1.fromDestination) == s.pending + s.fromDestination;
  }

  lemma FramesOfCons(m: Msg, more: seq<Msg>, mid: seq<Sealed>, log: seq<Sealed>, k: nat)
    requires |mid| == k + 1 && mid <= log && |log| == k + 1 + |more|
    ensures FramesOf([m] + more, log[k..]) == [FrameOf(m, mid[k])] + FramesOf(more, log[k + 1..])
  {
    hide FrameOf;
  }

  lemma BytesCons(m: Msg, more: seq<Msg>, left: Bytes, before: Bytes)
    requires Concat(Payloads(more)) + left == before
    ensures Concat(Payloads([m] + more)) + left == m.payload + before
  {
    hide Concat;
    assert Payloads([m] + more) == [m.payload] + Payloads(more);
    ConcatOfCons(m.payload, Payloads(more));
    assert m.payload + Concat(Payloads(more)) + left == m.payload + (Concat(Payloads(more)) + left);
  }

  lemma FramesCons(before: Bytes, mid: Bytes, after: Bytes, f: Frame, fs: seq<Frame>, cut: Option<nat>)
    requires Writable(f) && AllWritable(fs)
    requires mid == before + Taken(EncodeFrame(f), cut) && mid <= after <= mid + EncodeAll(fs)
    requires fs != [] ==> mid + EncodeAll(fs[..|fs| - 1]) <= after
    requires cut.Some? ==> fs == [] && after == mid
    ensures var all := [f] + fs;
      && AllWritable(all) && before <= after <= before + EncodeAll(all)
      && (cut.None? && after == mid + EncodeAll(fs) ==> after == before + EncodeAll(all))
      && before + EncodeAll(all[..|all| - 1]) <= after
  {
    hide EncodeFrame;
    var all := [f] + fs;
    assert all[1..] == fs && EncodeAll(all) == EncodeFrame(f) + EncodeAll(fs);
    assert before + EncodeFrame(f) + EncodeAll(fs) == before + (EncodeFrame(f) + EncodeAll(fs));
    if fs == [] {
      assert all[..0] == [] && before + [] == before;
      assert EncodeFrame(f) + [] == EncodeFrame(f);
    } else {
      var front := fs[..|fs| - 1];
      assert all[..|all| - 1] == [f] + front && ([f] + front)[1..] == front;
      assert before + EncodeFrame(f) + EncodeAll(front) == before + (EncodeFrame(f) + EncodeAll(front));
    }
  }

  predicate AllUncut(downs: seq<Turn>)
  {
    forall i :: 0 <= i < |downs| && downs[i].Push? ==> downs[i].cut.None?
  }

  lemma PullConserves(s: Tunnel, count: nat, st: Status)
    requires IsOpen(s)
    ensures var t := PullStep(s, count, st);
      && t == s.(fromDestination := t.fromDestination, pending := t.pending, ending := t.ending, downDone := t.downDone)
      && t.pending + t.fromDestination == s.pending + s.fromDestination
  {
  }

  lemma {:induction false} DoneStays(s: Tunnel, downs: seq<Turn>)
    requires s.downDone && forall i :: 0 <= i < |downs| ==> IsDown(downs[i])
    ensures Run(s, downs) == s
    decreases downs
  {
    if downs != [] {
      assert Step(s, downs[0]) == s;
      DoneStays(s, downs[1..]);
    }
  }

  /**
    * What the write loop alone has done after any turns: it has sealed messages that, with what is in
    * hand and what is unread, are the destination's bytes, each once and in order; and the tunnel has
    * their frames, all but the last in full, and all in full if no write was cut.
    */
  lemma {:induction false} DownTurnsFrame(s: Tunnel, sent: seq<Msg>, downs: seq<Turn>) returns (more: seq<Msg>)
    requires IsOpen(s) && Honest(s.log, s.salt, SERVER_TO_CLIENT, sent) && s.issued == |s.log|
    requires forall i :: 0 <= i < |downs| ==> IsDown(downs[i])
    ensures Framed(s, Run(s, downs), sent, more, AllUncut(downs))
    decreases downs
  {
    hide Framed, Honest, PullStep, PushStep, CanPush;
    if downs == [] {
      more := [];
      NothingFramed(s, s, sent, true);
    } else {
      var d, rest := downs[0], downs[1..];
      var s1 := Step(s, d);
      TurnsAreSeparate(s, d);
      assert AllUncut(downs) ==> AllUncut(rest);
      if d.Pull? {
        PullConserves(s, d.count, d.st);
        more := DownTurnsFrame(s1, sent, rest);
        FramedAfterPull(s, s1, Run(s1, rest), sent, more, AllUncut(rest));
        LessCut(s, Run(s1, rest), sent, more, AllUncut(rest), AllUncut(downs));
      } else if !CanPush(s, d.filler, d.cipher) {
        NoPush(s, d.filler, d.cipher, d.cut);
        more := DownTurnsFrame(s, sent, rest);
        LessCut(s, Run(s, rest), sent, more, AllUncut(rest), AllUncut(downs));
      } else {
        PushTurnSeals(s, sent, d.filler, d.cipher, d.cut);
        PushTurnKeeps(s, d.filler, d.cipher, d.cut);
        var m := Msg(DATA_PAYLOAD, Chunk(s.pending));
        var later := DownTurnsFrame(s1, sent + [m], rest);
        if d.cut.Some? {
          DoneStays(s1, rest);
          later := [];
          NothingFramed(s1, s1, sent + [m], AllUncut(rest));
        }
        FramedCons(s, s1, Run(s1, rest), sent, m, later, d.cut, AllUncut(rest));
        more := [m] + later;
        LessCut(s, Run(s1, rest), sent, more, AllUncut(rest) && d.cut.None?, AllUncut(downs));
      }
    }
  }

  lemma NoPush(s: Tunnel, filler: nat -> Byte, cipher: Bytes, cut: Option<nat>)
    requires !CanPush(s, filler, cipher)
    ensures PushStep(s, filler, cipher, cut) == s
  {
  }

  /** What a push leaves alone, and that a cut one is the last. */
  lemma PushTurnKeeps(s: Tunnel, filler: nat -> Byte, cipher: Bytes, cut: Option<nat>)
    requires CanPush(s, filler, cipher) && !s.tunnelClosed
    ensures var t := PushStep(s, filler, cipher, cut);
      && t.salt == s.salt && s.log <= t.log && t.fromDestination == s.fromDestination
      && (cut.Some? ==> t.downDone)
  {
    hide Wrap, NonceAt, AadOfSequence, SequenceOf, EncodeFrame, Chunk;
  }

  lemma FramedAfterPull(s: Tunnel, s1: Tunnel, t: Tunnel, sent: seq<Msg>, more: seq<Msg>, uncut: bool)
    requires Framed(s1, t, sent, more, uncut)
    requires s1.salt == s.salt && s1.log == s.log && s1.toClient == s.toClient
    requires s1.pending + s1.fromDestination == s.pending + s.fromDestination
    ensures Framed(s, t, sent, more, uncut)
  {
    hide Honest, EncodeAll, Concat, FramesOf, Payloads;
  }

  lemma LessCut(s: Tunnel, t: Tunnel, sent: seq<Msg>, more: seq<Msg>, uncut: bool, wanted: bool)
    requires Framed(s, t, sent, more, uncut) && (wanted ==> uncut)
    ensures Framed(s, t, sent, more, wanted)
  {
    hide Honest, EncodeAll, Concat, FramesOf, Payloads;
  }

  lemma FramesOfMore(s: Tunnel, t: Tunnel, sent: seq<Msg>, more: seq<Msg>, uncut: bool, n: nat)
    requires Framed(s, t, sent, more, uncut) && n <= |more|
    ensures |sent| == |s.log| && |t.log| == |sent + more| && s.toClient <= t.toClient
    ensures FramesFrom(sent + more, t.log, |s.log|, DATA_PAYLOAD, FramesOf(more, t.log[|s.log|..])[..n])
    ensures n < |more| || uncut ==>
      EncodeAll(FramesOf(more, t.log[|s.log|..])[..n]) <= t.toClient[|s.toClient|..]
    ensures uncut ==> t.toClient[|s.toClient|..] == EncodeAll(FramesOf(more, t.log[|s.log|..]))
  {
    HonestLengths(t.log, t.salt, SERVER_TO_CLIENT, sent + more);
    hide Honest, FrameOf, EncodeFrame, EncodeAll, Concat, FramesFrom;
    var frames := FramesOf(more, t.log[|s.log|..]);
    var rest := t.toClient[|s.toClient|..];
    assert t.toClient == s.toClient + rest;
    FramesArePrefix(sent, more, t.log, frames, n);
    if n < |more| {
      assert frames[..|more| - 1][..n] == frames[..n];
      EncodeAllOfPrefix(frames[..|more| - 1], n);
      SamePrefix(s.toClient, EncodeAll(frames[..|more| - 1]), rest);
    } else {
      assert frames[..n] == frames;
    }
    if uncut {
      assert rest == EncodeAll(frames);
    }
  }

  lemma SamePrefix(a: Bytes, b: Bytes, c: Bytes)
    requires a + b <= a + c
    ensures b <= c
  {
    assert (a + b)[|a|..] == b && (a + c)[|a|..] == c;
    assert b == (a + c)[|a|..|a| + |b|];
  }

  lemma EncodeAllOfPrefix(fs: seq<Frame>, n: nat)
    requires AllWritable(fs) && n <= |fs|
    ensures EncodeAll(fs[..n]) <= EncodeAll(fs)
  {
    hide EncodeAll;
    assert fs == fs[..n] + fs[n..];
    EncodeAllOfSum(fs[..n], fs[n..]);
  }

  lemma FramesArePrefix(sent: seq<Msg>, more: seq<Msg>, log: seq<Sealed>, frames: seq<Frame>, n: nat)
    requires |log| == |sent| + |more| && frames == FramesOf(more, log[|sent|..]) && AllWritable(frames) && n <= |more|
    requires forall i :: 0 <= i < |more| ==> more[i].typ == DATA_PAYLOAD
    ensures FramesFrom(sent + more, log, |sent|, DATA_PAYLOAD, frames[..n])
  {
    hide FrameOf, Writable;
    forall i | 0 <= i < n ensures FrameAt(sent + more, log, |sent| + i, DATA_PAYLOAD, frames[..n][i]) {
      assert log[|sent|..][i] == log[|sent| + i];
    }
  }

  /**
    * What the client makes of the frames of the write loop: a prefix of what the destination sent, in
    * order and each byte once; every payload but the last for certain, and all if no write was cut.
    */
  lemma ClientReadsDestination(s: Tunnel, t: Tunnel, sent: seq<Msg>, more: seq<Msg>, uncut: bool)
    requires Framed(s, t, sent, more, uncut) && |t.log| < U64_SPAN
    ensures |s.toClient| <= |t.toClient|
    ensures var ps := AcceptedFrom(Client, t.log, SERVER_TO_CLIENT, |s.log|, DATA_PAYLOAD, t.toClient[|s.toClient|..]);
      && ps <= Payloads(more) && |more| - 1 <= |ps| && (uncut ==> ps == Payloads(more))
      && Concat(ps) <= s.pending + s.fromDestination
  {
    hide Honest, AcceptedFrom, EncodeAll, FramesFrom, FramesOf, Concat;
    var rest := t.toClient[|s.toClient|..];
    var ps := AcceptedFrom(Client, t.log, SERVER_TO_CLIENT, |s.log|, DATA_PAYLOAD, rest);
    var n := if uncut || more == [] then |more| else |more| - 1;
    FramesOfMore(s, t, sent, more, uncut, n);
    AcceptedAreNextMessages(Client, t.log, t.salt, SERVER_TO_CLIENT, sent + more, |s.log|, DATA_PAYLOAD, rest);
    if uncut || more != [] {
      var fs := FramesOf(more, t.log[|s.log|..])[..n];
      FramesFromBounds(sent + more, t.log, |s.log|, DATA_PAYLOAD, fs);
      var tail := rest[|EncodeAll(fs)|..];
      assert rest == EncodeAll(fs) + tail;
      AcceptedOfOwnFrames(Client, t.log, t.salt, SERVER_TO_CLIENT, sent + more, |s.log|, DATA_PAYLOAD, fs, tail);
    }
    forall i | 0 <= i < |ps| ensures ps[i] == Payloads(more)[i] {
      assert (sent + more)[|s.log| + i] == Msg(DATA_PAYLOAD, ps[i]);
    }
    assert ps == Payloads(more)[..|ps|];
    ConcatOfPrefix(Payloads(more), |ps|);
    var all := Concat(Payloads(more));
    assert all <= all + t.pending + t.fromDestination;
  }

  /** What one read of the destination does: data and the error that came with it, or the error alone. */
  lemma PullTurnReads(s: Tunnel, count: nat, st: Status)
    requires IsOpen(s) && !s.downDone && s.pending == []
    requires count <= |s.fromDestination| && count <= 32 * 1024 && (st == Eof ==> count == |s.fromDestination|)
    ensures var t := PullStep(s, count, st);
      && t.pending == s.fromDestination[..count] && t.fromDestination == s.fromDestination[count..]
      && (count == 0 ==> t.downDone == (st != Fine))
      && (count > 0 ==> !t.downDone && t.ending == st)
  {
  }

  /** The loop goes on until what is in hand has been written, and ends then if the read had ended. */
  lemma {:induction false} PushesUntilDone(s: Tunnel, pushes: seq<Turn>)
    requires IsOpen(s) && !s.downDone && s.pending != []
    requires forall i :: 0 <= i < |pushes| ==> pushes[i].Push? && pushes[i].cut.None?
    ensures var t := Run(s, pushes);
      if t.pending == [] then t.downDone == (s.ending != Fine) else !t.downDone && t.ending == s.ending
    decreases pushes
  {
    if pushes != [] {
      var d, rest := pushes[0], pushes[1..];
      var s1 := Step(s, d);
      OnePush(s, d);
      TurnsAreSeparate(s, d);
      hide Step;
      if s1.pending == [] {
        IdleWithoutData(s1, rest);
      } else {
        PushesUntilDone(s1, rest);
      }
    }
  }

  lemma OnePush(s: Tunnel, d: Turn)
    requires IsOpen(s) && !s.downDone && s.pending != [] && d.Push? && d.cut.None?
    ensures var t := Step(s, d);
      if t.pending == [] then t.downDone == (s.ending != Fine) else !t.downDone && t.ending == s.ending
  {
    hide Wrap, NonceAt, AadOfSequence, SequenceOf, EncodeFrame, Chunk;
  }

  lemma {:induction false} IdleWithoutData(s: Tunnel, pushes: seq<Turn>)
    requires s.pending == [] && forall i :: 0 <= i < |pushes| ==> pushes[i].Push?
    ensures Run(s, pushes) == s
    decreases pushes
  {
    if pushes != [] {
      assert Step(s, pushes[0]) == s;
      IdleWithoutData(s, pushes[1..]);
    }
  }

  /** An end of the stream is that of the destination: nothing is behind what came with it. */
  predicate EndIsEnd(s: Tunnel)
  {
    && (s.downDone ==> s.pending == [] && s.fromDestination == [])
    && (s.pending != [] ==> s.ending == Fine || (s.ending == Eof && s.fromDestination == []))
  }

  lemma StepEndIsEnd(s: Tunnel, d: Turn)
    requires IsOpen(s) && EndIsEnd(s) && IsDown(d)
    requires (d.Push? ==> d.cut.None?) && (d.Pull? ==> d.st != Fault)
    ensures EndIsEnd(Step(s, d))
  {
    hide Wrap, NonceAt, AadOfSequence, SequenceOf, EncodeFrame, Chunk;
  }

  /** A write loop that nothing failed returns only when everything the destination sent has been framed. */
  lemma {:induction false} EndedLoopFramedAll(s: Tunnel, downs: seq<Turn>)
    requires IsOpen(s) && EndIsEnd(s) && AllUncut(downs)
    requires forall i :: 0 <= i < |downs| ==> IsDown(downs[i]) && (downs[i].Pull? ==> downs[i].st != Fault)
    ensures EndIsEnd(Run(s, downs))
    decreases downs
  {
    if downs != [] {
      hide Step, EndIsEnd;
      StepEndIsEnd(s, downs[0]);
      TurnsAreSeparate(s, downs[0]);
      EndedLoopFramedAll(Step(s, downs[0]), downs[1..]);
    }
  }

  /** The turn that a write loop at work takes next, on a destination that delivers all it has and then ends. */
  function NextTurn(s: Tunnel): Turn
  {
    if s.pending != [] then
      var size := |Chunk(s.pending)|;
      Push(_ => 0, seq(if s.padding && size <= 1442 then Bucket(size) else size + 18, _ => 0), None)
    else if s.fromDestination == [] then Pull(0, Eof)
    else Pull(if |s.fromDestination| < 32 * 1024 then |s.fromDestination| else 32 * 1024, Fine)
  }

  lemma NextTurnAdvances(s: Tunnel)
    requires IsOpen(s) && !s.downDone && s.issued == |s.log| && (s.pending != [] ==> s.ending == Fine)
    ensures var d := NextTurn(s); var t := Step(s, d);
      && IsDown(d) && (d.Push? ==> d.cut.None?)
      && IsOpen(t) && t.issued == |t.log| && (t.pending != [] ==> t.ending == Fine)
      && (t.downDone <==> s.pending == [] && s.fromDestination == [])
      && (t.downDone ==> t.pending == [] && t.fromDestination == [])
      && (!t.downDone ==> 2 * |t.fromDestination| + |t.pending| < 2 * |s.fromDestination| + |s.pending|)
  {
    hide NonceAt, AadOfSequence, SequenceOf, EncodeFrame, Wrap;
    var d := NextTurn(s);
    if d.Push? {
      WrapDomain(Chunk(s.pending), s.padding, d.filler);
    }
  }

  /** The write loop can always be run to its end, with everything the destination sent framed. */
  lemma {:induction false} WriteLoopFinishes(s: Tunnel) returns (downs: seq<Turn>)
    requires IsOpen(s) && !s.downDone && s.issued == |s.log| && (s.pending != [] ==> s.ending == Fine)
    ensures (forall i :: 0 <= i < |downs| ==> IsDown(downs[i])) && AllUncut(downs)
    ensures var t := Run(s, downs); t.downDone && t.pending == [] && t.fromDestination == []
    decreases 2 * |s.fromDestination| + |s.pending|
  {
    var d := NextTurn(s);
    NextTurnAdvances(s);
    hide Step, NextTurn;
    var t := Step(s, d);
    var rest := [];
    if !t.downDone {
      rest := WriteLoopFinishes(t);
    }
    RunOfCons(s, d, rest);
    downs := [d] + rest;
  }

  /** Once a loop has returned, both connections can be closed; and then neither side gets anything more. */
  lemma {:induction false} NothingAfterTeardown(s: Tunnel, turns: seq<Turn>)
    requires s.upDone || s.downDone
    ensures var t := Run(s, [CloseDestination, CloseTunnel] + turns);
      && t.destinationClosed && t.tunnelClosed
      && t.toDestination == s.toDestination && t.toClient == s.toClient
    decreases turns
  {
    var t := Step(Step(s, CloseDestination), CloseTunnel);
    assert t == s.(destinationClosed := true, tunnelClosed := true);
    hide Step;
    assert [CloseDestination, CloseTunnel] + turns == [CloseDestination] + ([CloseTunnel] + turns);
    RunOfCons(s, CloseDestination, [CloseTunnel] + turns);
    RunOfCons(Step(s, CloseDestination), CloseTunnel, turns);
    ClosedIsFrozen(t, turns);
  }

  lemma {:induction false} ClosedIsFrozen(s: Tunnel, turns: seq<Turn>)
    requires s.destinationClosed && s.tunnelClosed
    ensures var t := Run(s, turns);
      t.destinationClosed && t.tunnelClosed && t.toDestination == s.toDestination && t.toClient == s.toClient
    decreases turns
  {
    if turns != [] {
      ClosedStep(s, turns[0]);
      hide Step;
      ClosedIsFrozen(Step(s, turns[0]), turns[1..]);
    }
  }

  lemma ClosedStep(s: Tunnel, t: Turn)
    requires s.destinationClosed && s.tunnelClosed
    ensures var s' := Step(s, t);
      s'.destinationClosed && s'.tunnelClosed && s'.toDestination == s.toDestination && s'.toClient == s.toClient
  {
    hide Wrap, NonceAt, AadOfSequence, SequenceOf, EncodeFrame, Receive, ParseFrame, Chunk;
  }

  /** In every run the tunnel is closed only after the destination, and that only after a loop has returned. */
  lemma {:induction false} ClosingFollowsReturn(s: Tunnel, turns: seq<Turn>)
    requires s.destinationClosed ==> s.upDone || s.downDone
    requires s.tunnelClosed ==> s.destinationClosed
    ensures var t := Run(s, turns);
      && (t.destinationClosed ==> t.upDone || t.downDone)
      && (t.tunnelClosed ==> t.destinationClosed)
    decreases turns
  {
    if turns != [] {
      StepClosing(s, turns[0]);
      hide Step;
      ClosingFollowsReturn(Step(s, turns[0]), turns[1..]);
    }
  }

  lemma StepClosing(s: Tunnel, t: Turn)
    requires s.destinationClosed ==> s.upDone || s.downDone
    requires s.tunnelClosed ==> s.destinationClosed
    ensures var s' := Step(s, t);
      && (s'.destinationClosed ==> s'.upDone || s'.downDone)
      && (s'.tunnelClosed ==> s'.destinationClosed)
  {
    hide Wrap, NonceAt, AadOfSequence, SequenceOf, EncodeFrame, Receive, ParseFrame, Chunk;
  }

  /** After the teardown both loops return: the read loop at once, the write loop as soon as it acts. */
  lemma LoopsReturn(s: Tunnel, cut: Option<nat>, count: nat, st: Status, filler: nat -> Byte, cipher: Bytes)
    requires s.destinationClosed && s.tunnelClosed
    ensures Step(s, Up(cut)).upDone
    ensures s.pending == [] ==> Step(s, Pull(count, st)).downDone
    ensures CanPush(s, filler, cipher) ==> Step(s, Push(filler, cipher, cut)).downDone
  {
    hide Wrap, NonceAt, AadOfSequence, SequenceOf, EncodeFrame, Receive, ParseFrame, Chunk;
  }
}
