/** What the pipe of Pipes promises: in all runs, and in the runs in which its callers stop at an error. */
module Fifo {
  import opened Bytes
  import opened Frames
  import opened Envelope
  import opened Sealing
  import opened Channels
  import opened Chunking
  import opened Pipes

  // ---------------------------------------------------------------- in all runs

  /**
    * Whatever fails and whoever goes on writing after it: what has come out is a prefix of the
    * payloads sealed, in the order they were sealed.
    */
  lemma DeliveredIsPrefixOfSealed(side: Side, salt: Salt, dir: Byte, log: seq<Sealed>, sent: seq<Msg>, es: seq<Event>)
    requires Honest(log, salt, dir, sent)
    requires |Run(JustOpened(side, salt, dir, log, sent), es).log| < U64_SPAN
    ensures var s := Run(JustOpened(side, salt, dir, log, sent), es);
      s.delivered <= Concat(Sealings(s))
  {
    hide Inv, Run, Honest, Concat, Sealings;
    RunFromOpening(side, salt, dir, log, sent, es);
    var s := Run(JustOpened(side, salt, dir, log, sent), es);
    OutIsPrefix(s);
  }

  lemma OutIsPrefix(s: Pipe)
    requires Inv(s)
    ensures 0 <= s.next - s.base <= |Sealings(s)|
    ensures s.delivered + s.buffer == Concat(Sealings(s)[..s.next - s.base])
    ensures s.delivered <= s.delivered + s.buffer <= Concat(Sealings(s))
  {
    hide Honest, DataFrames, CallByCall, Ledger, OnTheWire, ClearFront, FirstShort, Shape, Concat, Sealings;
    ConcatOfPrefix(Sealings(s), s.next - s.base);
  }

  /**
    * Writers do not interleave. In every run the sealed payloads are, call by call in the order the
    * lock was taken, a prefix of each call's chunks; and all of a call's chunks unless its write
    * failed or it is the one inside the lock.
    */
  lemma WritersDoNotInterleave(side: Side, salt: Salt, dir: Byte, log: seq<Sealed>, sent: seq<Msg>, es: seq<Event>)
    requires Honest(log, salt, dir, sent)
    requires |Run(JustOpened(side, salt, dir, log, sent), es).log| < U64_SPAN
    ensures var s := Run(JustOpened(side, salt, dir, log, sent), es);
      && Within(s.kept, Lengths(s.order))
      && Sealings(s) == KeptChunks(s.order, s.kept)
      && forall i :: 0 <= i < |s.order| ==>
           s.kept[i] == Lengths(s.order)[i] || i in s.failures || (s.holder.Some? && i == |s.order| - 1)
  {
    hide Inv, Run, Honest, KeptChunks, Sealings, Within, Lengths;
    RunFromOpening(side, salt, dir, log, sent, es);
    CallsInOrder(Run(JustOpened(side, salt, dir, log, sent), es));
  }

  lemma CallsInOrder(s: Pipe)
    requires Inv(s)
    ensures Within(s.kept, Lengths(s.order))
    ensures Sealings(s) == KeptChunks(s.order, s.kept)
    ensures forall i :: 0 <= i < |s.order| ==>
      s.kept[i] == Lengths(s.order)[i] || i in s.failures || (s.holder.Some? && i == |s.order| - 1)
  {
    hide Honest, DataFrames, Ledger, OnTheWire, ClearFront, FirstShort, HandedOn, KeptChunks, Sealings;
  }

  // ---------------------------------------------------------------- which call came from where

  /** Event i of es is the call of this caller with this data, and it is still waiting for the lock. */
  ghost predicate Waiting(s: Pipe, es: seq<Event>, i: nat, caller: nat, data: Bytes)
  {
    && i < |es| && es[i] == Call(caller, data) && caller !in Run(s, es[..i]).calls
    && forall m :: i < m <= |es| ==> caller in Run(s, es[..m]).calls && Run(s, es[..m]).holder != Some(caller)
  }

  /** A call that waits goes on waiting with its data, or it has just been made. */
  lemma StillWaiting(s: Pipe, e: Event, caller: nat)
    requires caller in Step(s, e).calls && Step(s, e).holder != Some(caller)
    ensures if caller in s.calls then s.holder != Some(caller) && Step(s, e).calls[caller] == s.calls[caller]
            else e == Call(caller, Step(s, e).calls[caller])
  {
    hide NonceAt, AadOfSequence, Wrap, Accept, ParseFrame, EncodeFrame, Chunk;
  }

  lemma {:induction false} WaitingCall(s: Pipe, es: seq<Event>, caller: nat) returns (i: nat)
    requires s.calls == map[]
    requires caller in Run(s, es).calls && Run(s, es).holder != Some(caller)
    ensures Waiting(s, es, i, caller, Run(s, es).calls[caller])
    decreases |es|
  {
    var n := |es| - 1;
    var t, data := Run(s, es[..n]), Run(s, es).calls[caller];
    hide Step;
    StillWaiting(t, es[n], caller);
    assert es[..n + 1] == es;
    if caller in t.calls {
      i := WaitingCall(s, es[..n], caller);
      assert es[..n][..i] == es[..i];
      forall m | i < m <= |es| ensures caller in Run(s, es[..m]).calls && Run(s, es[..m]).holder != Some(caller) {
        if m <= n {
          assert es[..n][..m] == es[..m];
        }
      }
    } else {
      i := n;
    }
  }

  /** Entry k of the order is the data of call i, and event j is the lock that put it there. */
  ghost predicate Entered(s: Pipe, es: seq<Event>, k: nat, i: nat, j: nat, caller: nat)
  {
    && k < |Run(s, es).order| && i < j < |es|
    && es[j] == Lock(caller) && Waiting(s, es[..j], i, caller, Run(s, es).order[k])
    && Run(s, es[..j]).order == Run(s, es).order[..k] && Run(s, es[..j + 1]).order == Run(s, es).order[..k + 1]
  }

  lemma OrderGrowsByLocks(s: Pipe, e: Event)
    ensures var t := Step(s, e);
      || t.order == s.order
      || (e.Lock? && e.caller in s.calls && s.holder.None? && t.order == s.order + [s.calls[e.caller]])
  {
    hide NonceAt, AadOfSequence, Wrap, Accept, ParseFrame, EncodeFrame, Chunk;
  }

  /**
    * The order is what the callers asked for: in every run its k-th entry is the data of a call that was
    * made and went on waiting until its own lock, the k + 1-st to be taken.
    */
  lemma {:induction false} OrderIsTheCalls(s: Pipe, es: seq<Event>, k: nat) returns (i: nat, j: nat, caller: nat)
    requires s.calls == map[] && s.order == [] && k < |Run(s, es).order|
    ensures Entered(s, es, k, i, j, caller)
    decreases |es|
  {
    var n := |es| - 1;
    var t := Run(s, es[..n]);
    hide Step, Waiting;
    OrderGrowsByLocks(t, es[n]);
    assert es[..n + 1] == es;
    if k < |t.order| {
      i, j, caller := OrderIsTheCalls(s, es[..n], k);
      assert es[..n][..j] == es[..j] && es[..n][..j + 1] == es[..j + 1];
      assert Run(s, es).order[..k] == t.order[..k] && Run(s, es).order[..k + 1] == t.order[..k + 1];
    } else {
      j, caller := n, es[n].caller;
      i := WaitingCall(s, es[..n], caller);
      WaitingIsEarlier(s, es[..n], i, caller, t.calls[caller]);
    }
  }

  lemma WaitingIsEarlier(s: Pipe, es: seq<Event>, i: nat, caller: nat, data: Bytes)
    requires Waiting(s, es, i, caller, data)
    ensures i < |es|
  {
  }

  // ---------------------------------------------------------------- which chunk came from where

  /** A chunk's place: the call, in lock order, and its number within the call. */
  datatype Origin = Origin(call: nat, chunk: nat)

  function ChunksOf(call: nat, count: nat): (os: seq<Origin>)
    ensures |os| == count
    ensures forall j :: 0 <= j < count ==> os[j] == Origin(call, j)
  {
    seq(count, j requires 0 <= j < count => Origin(call, j))
  }

  /** The places of the first counts[i] chunks of each call, one call after the other. */
  function Origins(counts: seq<nat>): seq<Origin>
  {
    if counts == [] then []
    else Origins(counts[..|counts| - 1]) + ChunksOf(|counts| - 1, counts[|counts| - 1])
  }

  /** The i-th payload sealed is the chunk of its origin. */
  lemma {:induction false} OriginOfPayload(order: seq<Bytes>, kept: seq<nat>, i: nat)
    requires Within(kept, Lengths(order))
    requires i < |KeptChunks(order, kept)|
    ensures |Origins(kept)| == |KeptChunks(order, kept)|
    ensures var o := Origins(kept)[i];
      && o.call < |order| && o.chunk < kept[o.call] <= |Chunks(order[o.call])|
      && KeptChunks(order, kept)[i] == Chunks(order[o.call])[o.chunk]
    decreases |order|
  {
    hide Chunks;
    if order != [] {
      var n := |order| - 1;
      assert Lengths(order)[..n] == Lengths(order[..n]);
      SameCount(order[..n], kept[..n]);
      if i < |KeptChunks(order[..n], kept[..n])| {
        OriginOfPayload(order[..n], kept[..n], i);
      }
    }
  }

  lemma {:induction false} SameCount(order: seq<Bytes>, kept: seq<nat>)
    requires Within(kept, Lengths(order))
    ensures |Origins(kept)| == |KeptChunks(order, kept)|
    decreases |order|
  {
    hide Chunks;
    if order != [] {
      var n := |order| - 1;
      assert Lengths(order)[..n] == Lengths(order[..n]);
      SameCount(order[..n], kept[..n]);
    }
  }

  /** How many messages were sealed before a chunk of any call was passed over. */
  function Reach(kept: seq<nat>, full: seq<nat>): nat
    requires |kept| == |full|
    decreases |kept|
  {
    if kept == [] then 0
    else
      var n := |kept| - 1;
      if kept[..n] == full[..n] then |Origins(kept)| else Reach(kept[..n], full[..n])
  }

  lemma {:induction false} OriginsGrow(kept: seq<nat>, full: seq<nat>)
    requires Within(kept, full)
    ensures |Origins(kept)| <= |Origins(full)|
    ensures kept != full ==> |Origins(kept)| < |Origins(full)|
    ensures Reach(kept, full) <= |Origins(kept)|
    decreases |kept|
  {
    if kept != [] {
      var n := |kept| - 1;
      OriginsGrow(kept[..n], full[..n]);
      assert kept == kept[..n] + [kept[n]] && full == full[..n] + [full[n]];
    }
  }

  lemma {:induction false} OriginsAreEarlier(counts: seq<nat>, i: nat)
    requires i < |Origins(counts)|
    ensures Origins(counts)[i].call < |counts|
    decreases |counts|
  {
    if counts != [] && i < |Origins(counts[..|counts| - 1])| {
      OriginsAreEarlier(counts[..|counts| - 1], i);
    }
  }

  /** The first m sealed chunks are the first m of all the calls' chunks exactly up to the reach. */
  lemma {:induction false} PrefixUpToReach(kept: seq<nat>, full: seq<nat>, m: nat)
    requires Within(kept, full) && m <= |Origins(kept)|
    ensures Origins(kept)[..m] <= Origins(full) <==> m <= Reach(kept, full)
    decreases |kept|
  {
    if kept != [] {
      var n := |kept| - 1;
      var kept', full' := kept[..n], full[..n];
      OriginsGrow(kept', full');
      OriginsGrow(kept, full);
      if kept' == full' {
        assert Origins(kept) <= Origins(full);
      } else if m <= |Origins(kept')| {
        PrefixUpToReach(kept', full', m);
        assert Origins(kept)[..m] == Origins(kept')[..m];
        assert Origins(full)[..m] == Origins(full')[..m];
      } else {
        var k := |Origins(kept')|;
        assert Origins(kept)[..m][k] == Origin(n, 0);
        OriginsAreEarlier(full', k);
        assert Origins(full)[k] == Origins(full')[k];
      }
    }
  }

  /** Nobody has sealed a chunk after a call that left one behind. */
  predicate NothingAfterAGap(kept: seq<nat>, full: seq<nat>)
    requires |kept| == |full|
  {
    forall i, j :: 0 <= i < j < |kept| && kept[i] < full[i] ==> kept[j] == 0
  }

  lemma SomeGap(kept: seq<nat>, full: seq<nat>) returns (i: nat)
    requires Within(kept, full) && kept != full
    ensures i < |kept| && kept[i] < full[i]
  {
    i :| 0 <= i < |kept| && kept[i] != full[i];
  }

  /** The reach is everything sealed exactly when nobody has. */
  lemma {:induction false} ReachesAllExactly(kept: seq<nat>, full: seq<nat>)
    requires Within(kept, full)
    ensures Reach(kept, full) == |Origins(kept)| <==> NothingAfterAGap(kept, full)
    decreases |kept|
  {
    if kept != [] {
      var n := |kept| - 1;
      var kept', full' := kept[..n], full[..n];
      if kept' == full' {
        forall i | 0 <= i < n ensures kept[i] == full[i] {
          assert kept[i] == kept'[i] && full[i] == full'[i];
        }
      } else {
        ReachesAllExactly(kept', full');
        OriginsGrow(kept', full');
        var i := SomeGap(kept', full');
        assert kept[i] < full[i];
        hide Origins, Reach;
        GapsOfSnoc(kept, full);
        OriginsOfSnoc(kept);
        ReachPastGap(kept, full);
      }
    }
  }

  lemma GapsOfSnoc(kept: seq<nat>, full: seq<nat>)
    requires Within(kept, full) && kept != [] && kept[..|kept| - 1] != full[..|kept| - 1]
    ensures var n := |kept| - 1;
      NothingAfterAGap(kept, full) <==> NothingAfterAGap(kept[..n], full[..n]) && kept[n] == 0
  {
    var n := |kept| - 1;
    var g := SomeGap(kept[..n], full[..n]);
    assert kept[g] < full[g];
    if NothingAfterAGap(kept, full) {
      var k, f := kept[..n], full[..n];
      forall i, j | 0 <= i < j < n && k[i] < f[i] ensures k[j] == 0 {
        assert kept[i] < full[i];
      }
    } else {
      var i, j :| 0 <= i < j < |kept| && kept[i] < full[i] && kept[j] != 0;
      if j < n {
        assert kept[..n][i] < full[..n][i] && kept[..n][j] != 0;
      }
    }
  }

  lemma OriginsOfSnoc(counts: seq<nat>)
    requires counts != []
    ensures |Origins(counts)| == |Origins(counts[..|counts| - 1])| + counts[|counts| - 1]
  {
  }

  lemma ReachPastGap(kept: seq<nat>, full: seq<nat>)
    requires |kept| == |full| && kept != [] && kept[..|kept| - 1] != full[..|kept| - 1]
    ensures Reach(kept, full) == Reach(kept[..|kept| - 1], full[..|kept| - 1])
  {
  }

  lemma LastCall(order: seq<Bytes>, kept: seq<nat>)
    requires Within(kept, Lengths(order)) && order != []
    ensures var n := |order| - 1;
      && Lengths(order)[..n] == Lengths(order[..n]) && Within(kept[..n], Lengths(order[..n]))
      && kept[n] <= |Chunks(order[n])|
      && KeptChunks(order, kept) == KeptChunks(order[..n], kept[..n]) + Chunks(order[n])[..kept[n]]
      && AllChunks(order) == AllChunks(order[..n]) + Chunks(order[n])
  {
    hide Chunks;
    var n := |order| - 1;
    assert Lengths(order)[..n] == Lengths(order[..n]);
  }

  /** The same for the chunks themselves: up to the reach they are the calls' chunks in order. */
  lemma {:induction false} ChunksUpToReach(order: seq<Bytes>, kept: seq<nat>, m: nat)
    requires Within(kept, Lengths(order)) && m <= Reach(kept, Lengths(order))
    ensures m <= |KeptChunks(order, kept)| && KeptChunks(order, kept)[..m] <= AllChunks(order)
    decreases |order|
  {
    hide Chunks, KeptChunks, AllChunks, Lengths, Within, Origins;
    OriginsGrow(kept, Lengths(order));
    SameCount(order, kept);
    WithinSameLength(kept, Lengths(order));
    if order != [] {
      var n := |order| - 1;
      var order', kept' := order[..n], kept[..n];
      LastCall(order, kept);
      if kept' == Lengths(order') {
        AllKept(order');
        assert KeptChunks(order, kept) <= AllChunks(order);
      } else {
        ChunksUpToReach(order', kept', m);
        assert KeptChunks(order, kept)[..m] == KeptChunks(order', kept')[..m];
      }
    }
  }

  lemma {:induction false} AllKept(order: seq<Bytes>)
    ensures Within(Lengths(order), Lengths(order))
    ensures KeptChunks(order, Lengths(order)) == AllChunks(order)
    decreases |order|
  {
    hide Chunks;
    if order != [] {
      var n := |order| - 1;
      assert Lengths(order)[..n] == Lengths(order[..n]);
      AllKept(order[..n]);
      assert Chunks(order[n])[..Lengths(order)[n]] == Chunks(order[n]);
    }
  }

  // ---------------------------------------------------------------- the exact condition for first-in first-out

  /**
    * When the pipe is first-in first-out, exactly. In every run: the messages received so far are the
    * first chunks of the calls in lock order, none passed over, if and only if the receive counter
    * has not gone past the messages sealed before a failed call left a chunk behind; and then the
    * bytes that came out are a prefix of the calls' data. It cannot go past them, however much is
    * received, exactly when no call has sealed a chunk after one that left a chunk behind.
    */
  lemma FifoExactly(side: Side, salt: Salt, dir: Byte, log: seq<Sealed>, sent: seq<Msg>, es: seq<Event>)
    requires Honest(log, salt, dir, sent)
    requires |Run(JustOpened(side, salt, dir, log, sent), es).log| < U64_SPAN
    ensures var s := Run(JustOpened(side, salt, dir, log, sent), es);
      var m, full := s.next - s.base, Lengths(s.order);
      && 0 <= m <= |Origins(s.kept)| && |s.kept| == |full|
      && (Origins(s.kept)[..m] <= Origins(full) <==> m <= Reach(s.kept, full))
      && (m <= Reach(s.kept, full) ==> s.delivered <= Concat(s.order))
      && (Reach(s.kept, full) == |Origins(s.kept)| <==> NothingAfterAGap(s.kept, full))
  {
    hide Inv, Run, Honest, Concat, Sealings, Origins, Reach, Lengths, Within, NothingAfterAGap, KeptChunks;
    RunFromOpening(side, salt, dir, log, sent, es);
    var s := Run(JustOpened(side, salt, dir, log, sent), es);
    FifoUpToReach(s);
    CallsInOrder(s);
    ReachesAllExactly(s.kept, Lengths(s.order));
  }

  lemma FifoUpToReach(s: Pipe)
    requires Inv(s)
    ensures var m, full := s.next - s.base, Lengths(s.order);
      && 0 <= m <= |Origins(s.kept)| && |s.kept| == |full|
      && (Origins(s.kept)[..m] <= Origins(full) <==> m <= Reach(s.kept, full))
      && (m <= Reach(s.kept, full) ==> s.delivered <= s.delivered + s.buffer <= Concat(s.order))
  {
    hide Inv, Concat, Sealings, Origins, Reach, Lengths, KeptChunks, Within;
    OutIsPrefix(s);
    CallsInOrder(s);
    var m, full := s.next - s.base, Lengths(s.order);
    SameCount(s.order, s.kept);
    WithinSameLength(s.kept, full);
    PrefixUpToReach(s.kept, full, m);
    if m <= Reach(s.kept, full) {
      BytesUpToReach(s.order, s.kept, m);
    }
  }

  lemma WithinSameLength(kept: seq<nat>, full: seq<nat>)
    requires Within(kept, full)
    ensures |kept| == |full|
  {
  }

  lemma BytesUpToReach(order: seq<Bytes>, kept: seq<nat>, m: nat)
    requires Within(kept, Lengths(order)) && m <= Reach(kept, Lengths(order))
    ensures m <= |KeptChunks(order, kept)| && Concat(KeptChunks(order, kept)[..m]) <= Concat(order)
  {
    hide Concat, Reach, Lengths, KeptChunks, AllChunks;
    ChunksUpToReach(order, kept, m);
    assert KeptChunks(order, kept)[..m] == AllChunks(order)[..m];
    ConcatOfPrefix(AllChunks(order), m);
    ConcatOfAllChunks(order);
  }

  // ---------------------------------------------------------------- callers that stop at an error

  /** Nobody takes the lock after a write has failed. */
  predicate NoLockAfterFail(es: seq<Event>)
  {
    forall i, j :: 0 <= i < j < |es| && es[i].Fail? ==> !es[j].Lock?
  }

  lemma {:induction false} NoFailNoFailures(s: Pipe, es: seq<Event>)
    requires forall i :: 0 <= i < |es| ==> !es[i].Fail?
    ensures Run(s, es).failures == s.failures
    decreases |es|
  {
    if es != [] {
      NoFailNoFailures(s, es[..|es| - 1]);
      OnlyFailFails(Run(s, es[..|es| - 1]), es[|es| - 1]);
    }
  }

  lemma OnlyFailFails(s: Pipe, e: Event)
    ensures !e.Fail? ==> Step(s, e).failures == s.failures
    ensures e.Fail? ==> Step(s, e).failures <= s.failures + {|s.order| - 1}
    ensures !e.Lock? ==> Step(s, e).order == s.order
  {
    hide NonceAt, AadOfSequence, Wrap, Accept, ParseFrame, EncodeFrame, Chunk;
  }

  /** Then only the last call can have failed. */
  lemma {:induction false} OnlyLastFails(s: Pipe, es: seq<Event>)
    requires s.failures == {} && NoLockAfterFail(es)
    ensures forall i :: i in Run(s, es).failures ==> i == |Run(s, es).order| - 1
    decreases |es|
  {
    if es != [] {
      var before, e := es[..|es| - 1], es[|es| - 1];
      OnlyLastFails(s, before);
      OnlyFailFails(Run(s, before), e);
      if e.Lock? {
        NoFailNoFailures(s, before);
      }
      hide Step;
    }
  }

  lemma LastFailureReachesAll(s: Pipe)
    requires Inv(s)
    requires forall i :: i in s.failures ==> i == |s.order| - 1
    ensures |s.kept| == |s.order|
    ensures Reach(s.kept, Lengths(s.order)) == |Origins(s.kept)|
  {
    hide Inv, KeptChunks, Sealings, Within, Lengths, Origins, Reach;
    CallsInOrder(s);
    WithinSameLength(s.kept, Lengths(s.order));
    SameFrontReachesAll(s.kept, Lengths(s.order));
  }

  lemma SameFrontReachesAll(kept: seq<nat>, full: seq<nat>)
    requires |kept| == |full| && forall i :: 0 <= i < |kept| - 1 ==> kept[i] == full[i]
    ensures Reach(kept, full) == |Origins(kept)|
  {
    if kept != [] {
      var n := |kept| - 1;
      assert kept[..n] == full[..n];
    }
  }

  /** Nothing is being written, nothing is in flight, nothing waits to be handed on. */
  predicate Quiet(s: Pipe)
  {
    s.holder.None? && s.wire == [] && s.inbox == [] && s.buffer == []
  }

  lemma QuietHasReadEverything(s: Pipe)
    requires Inv(s) && Quiet(s) && s.shorts == {}
    ensures s.next == |s.sent| && s.delivered == Concat(Sealings(s))
  {
    hide Inv, OnTheWire, Unread, Sealings, Concat;
    InvHonest(s);
    InvWire(s);
    NothingUnread(s);
    FramesOnTheWire(s.inbox + s.wire, Unread(s), Written(s) - s.next, {});
    NothingParses();
    OutIsPrefix(s);
    assert Sealings(s)[..s.next - s.base] == Sealings(s);
    assert s.delivered + s.buffer == s.delivered;
  }

  lemma NothingUnread(s: Pipe)
    requires Inv(s) && s.shorts == {}
    ensures !s.dirty && (s.handed.Some? ==> s.holder.Some?) && |Sealings(s)| == |s.sent| - s.base
  {
    hide Honest, DataFrames, CallByCall, Ledger, ClearFront, FirstShort, HandedOn;
  }

  lemma NoFailuresKeepsAll(s: Pipe)
    requires Inv(s) && s.failures == {} && s.holder.None?
    ensures s.shorts == {} && Sealings(s) == AllChunks(s.order)
  {
    CallsInOrder(s);
    hide Honest, DataFrames, CallByCall, Ledger, OnTheWire, ClearFront, FirstShort, HandedOn, KeptChunks, AllChunks,
      Sealings;
    assert s.kept == Lengths(s.order);
    AllKept(s.order);
  }

  /**
    * The tunnel is a first-in first-out byte pipe for callers that stop at an error. For every
    * interleaving of any number of callers, every padding choice, every fragmentation of the wire,
    * every size of the pieces handed on and every way a write can fail: if nobody takes the lock
    * after a failure, what has come out is a prefix of the calls' data in lock order; and if nothing
    * has failed and the pipe is quiet, it is all of it.
    */
  lemma PipeIsFifo(side: Side, salt: Salt, dir: Byte, log: seq<Sealed>, sent: seq<Msg>, es: seq<Event>)
    requires Honest(log, salt, dir, sent)
    requires |Run(JustOpened(side, salt, dir, log, sent), es).log| < U64_SPAN
    ensures var s := Run(JustOpened(side, salt, dir, log, sent), es);
      && (NoLockAfterFail(es) ==> s.delivered <= Concat(s.order))
      && (s.failures == {} && Quiet(s) ==> s.delivered == Concat(s.order))
  {
    hide Inv, Run, Honest, Concat, Sealings, Origins, Reach, Lengths, NoLockAfterFail, AllChunks;
    RunFromOpening(side, salt, dir, log, sent, es);
    var s := Run(JustOpened(side, salt, dir, log, sent), es);
    if NoLockAfterFail(es) {
      OnlyLastFails(JustOpened(side, salt, dir, log, sent), es);
      LastFailureReachesAll(s);
      FifoUpToReach(s);
    }
    if s.failures == {} && Quiet(s) {
      NoFailuresKeepsAll(s);
      QuietHasReadEverything(s);
      ConcatOfAllChunks(s.order);
    }
  }

  // ---------------------------------------------------------------- sequence numbers

  lemma {:induction false} AtLeast(base: nat, whole: seq<nat>, i: nat)
    requires Ascending(whole) && i < |whole| && forall j :: 0 <= j < |whole| ==> base <= whole[j]
    ensures base + i <= whole[i]
  {
    if i > 0 {
      AtLeast(base, whole, i - 1);
    }
  }

  lemma {:induction false} ConsecutiveSoFar(base: nat, written: int, whole: seq<nat>, shorts: set<nat>, dirty: bool,
                                            i: nat)
    requires Ledger(base, written, whole, shorts, dirty) && i < |whole|
    requires forall k, j :: k in shorts && 0 <= j < |whole| ==> whole[j] < k
    ensures whole[i] == base + i
  {
    AtLeast(base, whole, i);
    var j := FoundInWhole(base, written, whole, shorts, dirty, base + i, i);
    if j < i {
      ConsecutiveSoFar(base, written, whole, shorts, dirty, j);
    }
  }

  lemma FoundInWhole(base: nat, written: int, whole: seq<nat>, shorts: set<nat>, dirty: bool, n: nat, i: nat)
      returns (j: nat)
    requires Ledger(base, written, whole, shorts, dirty) && i < |whole| && base <= n <= whole[i]
    requires forall k :: k in shorts ==> whole[i] < k
    ensures j < |whole| && whole[j] == n
  {
    assert n in whole;
    j :| 0 <= j < |whole| && whole[j] == n;
  }

  /** The messages written whole are consecutive exactly when none of them was written after a short one. */
  lemma ConsecutiveExactly(base: nat, written: int, whole: seq<nat>, shorts: set<nat>, dirty: bool)
    requires Ledger(base, written, whole, shorts, dirty)
    ensures (forall i :: 0 <= i < |whole| ==> whole[i] == base + i) <==>
            (forall k, j :: k in shorts && 0 <= j < |whole| ==> whole[j] < k)
  {
    if forall k, j :: k in shorts && 0 <= j < |whole| ==> whole[j] < k {
      forall i | 0 <= i < |whole| ensures whole[i] == base + i {
        ConsecutiveSoFar(base, written, whole, shorts, dirty, i);
      }
    }
    if forall i :: 0 <= i < |whole| ==> whole[i] == base + i {
      forall n | base <= n < base + |whole| ensures n !in shorts {
        assert whole[n - base] == n;
      }
    }
  }

  /**
    * Sequence numbers, in every run. The frames written whole, in the order of writing, are the
    * messages base, base + 1, ... if and only if none was written after a write that fell short.
    * Until something is written after a short write, what a reader of the wire will parse are the
    * unread frames under consecutive numbers; and if no write fell short, all that were written.
    */
  lemma WireNumbersAreConsecutive(side: Side, salt: Salt, dir: Byte, log: seq<Sealed>, sent: seq<Msg>, es: seq<Event>)
    requires Honest(log, salt, dir, sent)
    requires |Run(JustOpened(side, salt, dir, log, sent), es).log| < U64_SPAN
    ensures var s := Run(JustOpened(side, salt, dir, log, sent), es);
      var fs := ParseAll(s.inbox + s.wire);
      && ((forall i :: 0 <= i < |s.whole| ==> s.whole[i] == s.base + i) <==>
          (forall k, j :: k in s.shorts && 0 <= j < |s.whole| ==> s.whole[j] < k))
      && (!s.dirty ==> forall i :: 0 <= i < |fs| ==> SequenceOf(fs[i].nonce) == s.next + i)
      && (s.shorts == {} ==> |fs| == Written(s) - s.next)
  {
    hide Inv, Run, Honest, ParseAll, SequenceOf;
    RunFromOpening(side, salt, dir, log, sent, es);
    var s := Run(JustOpened(side, salt, dir, log, sent), es);
    InvLedger(s);
    ConsecutiveExactly(s.base, Written(s), s.whole, s.shorts, s.dirty);
    if !s.dirty {
      WireIsNumbered(s);
    }
  }

  lemma InvLedger(s: Pipe)
    requires Inv(s)
    ensures Ledger(s.base, Written(s), s.whole, s.shorts, s.dirty) && (s.dirty ==> s.shorts != {})
  {
    hide Honest, DataFrames, CallByCall, OnTheWire, ClearFront, FirstShort, HandedOn, Shape;
  }

  lemma WireIsNumbered(s: Pipe)
    requires Inv(s) && |s.log| < U64_SPAN && !s.dirty
    ensures var fs := ParseAll(s.inbox + s.wire);
      && fs <= Unread(s)
      && (s.shorts == {} ==> |fs| == Written(s) - s.next)
      && forall i :: 0 <= i < |fs| ==> SequenceOf(fs[i].nonce) == s.next + i
  {
    hide Inv, ParseAll, SequenceOf, Unread, OnTheWire;
    var w := Written(s) - s.next;
    InvWire(s);
    FramesOnTheWire(s.inbox + s.wire, Unread(s), w, s.shorts);
    var fs := ParseAll(s.inbox + s.wire);
    forall i | 0 <= i < |fs| ensures SequenceOf(fs[i].nonce) == s.next + i {
      UnreadIsNumbered(s, i);
    }
  }

  lemma InvWire(s: Pipe)
    requires Inv(s)
    ensures OnTheWire(s.inbox + s.wire, Unread(s), Written(s) - s.next, s.shorts, s.dirty)
  {
    hide Honest, DataFrames, CallByCall, Ledger, OnTheWire, ClearFront, FirstShort, HandedOn, Shape;
  }

  lemma UnreadIsNumbered(s: Pipe, i: nat)
    requires Inv(s) && |s.log| < U64_SPAN && i < |Unread(s)|
    ensures SequenceOf(Unread(s)[i].nonce) == s.next + i
  {
    hide Honest, DataFrames, CallByCall, Ledger, OnTheWire, ClearFront, FirstShort, HandedOn, SequenceOf;
    assert Unread(s)[i] == FrameOf(s.sent[s.next + i], s.log[s.next + i]);
    NumberOfEntry(s.log, s.salt, s.dir, s.sent, s.next + i);
  }

  lemma FramesOnTheWire(bytes: Bytes, unread: seq<Frame>, w: int, shorts: set<nat>)
    requires OnTheWire(bytes, unread, w, shorts, false)
    ensures 0 <= w <= |unread| && ParseAll(bytes) <= unread[..w] && (shorts == {} ==> |ParseAll(bytes)| == w)
  {
    hide EncodeAll, ParseAll;
    var gs := unread[..w];
    ParseAllOfPartialArrival(gs, bytes);
    if shorts == {} {
      ParseAllOfEncodeAll(gs);
    }
  }

  lemma NumberOfEntry(log: seq<Sealed>, salt: Salt, dir: Byte, sent: seq<Msg>, k: nat)
    requires Honest(log, salt, dir, sent) && k < |log| < U64_SPAN
    ensures SequenceOf(log[k].nonce) == k
  {
    hide NonceAt, AadOfSequence, SequenceOf;
    assert SealsMessage(log[k], salt, dir, k, sent[k]);
    SequenceOfNonceAt(salt, k);
  }

  // ---------------------------------------------------------------- draining

  predicate ReceiverEvent(e: Event)
  {
    e.Arrive? || e.ReadOne? || e.HandOn?
  }

  lemma {:induction false} RunOfSum(s: Pipe, es: seq<Event>, more: seq<Event>)
    ensures Run(s, es + more) == Run(Run(s, es), more)
    decreases |more|
  {
    if more == [] {
      assert es + more == es;
    } else {
      hide Step;
      RunOfSum(s, es, more[..|more| - 1]);
      assert (es + more)[..|es + more| - 1] == es + more[..|more| - 1];
    }
  }

  lemma RunOfThree(s: Pipe, a: Event, b: Event, c: Event)
    ensures Run(s, [a, b, c]) == Step(Step(Step(s, a), b), c)
  {
    assert [a, b, c][..2] == [a, b] && [a, b][..1] == [a] && [a][..0] == [];
    hide Step;
    assert Run(s, [a]) == Step(Run(s, []), a);
    assert Run(s, [a, b]) == Step(Run(s, [a]), b);
  }

  /** With everything arrived and nothing in hand, the next frame of the clear front is read. */
  lemma ReadsClearFront(s: Pipe)
    requires Inv(s) && |s.log| < U64_SPAN && s.wire == [] && s.buffer == [] && s.next < s.base + s.clear
    ensures var t := ReadStep(s);
      && Inv(t) && t.next == s.next + 1
      && t == s.(inbox := t.inbox, next := t.next, buffer := t.buffer)
  {
    hide Inv, ParseFrame, Accept;
    ClearIsAccepted(s);
    if s.dirty {
      DirtyReadKeepsInv(s);
    } else {
      CleanReadKeepsInv(s);
    }
    InvHonest(s);
    var f := ParseFrame(s.inbox).result.value;
    AcceptsOnlyTheNextMessage(s.side, s.log, s.salt, s.dir, s.sent, s.next, DATA_PAYLOAD, f);
  }

  lemma InvHonest(s: Pipe)
    requires Inv(s)
    ensures Honest(s.log, s.salt, s.dir, s.sent) && |s.log| == |s.sent|
  {
    hide Honest, DataFrames, CallByCall, Ledger, OnTheWire, ClearFront, FirstShort, HandedOn;
  }

  /** Let everything arrive and hand on what is in hand. */
  lemma ArriveAndHandOn(s: Pipe) returns (t: Pipe, es: seq<Event>)
    requires Inv(s)
    ensures t == Run(s, es) && Inv(t)
    ensures forall e :: e in es ==> ReceiverEvent(e)
    ensures t == s.(wire := [], inbox := s.inbox + s.wire, delivered := s.delivered + s.buffer, buffer := [])
  {
    hide Inv, Run;
    var s1 := ArriveStep(s, |s.wire|);
    ArriveKeepsInv(s, |s.wire|);
    HandOnKeepsInv(s1, |s.buffer|);
    RunOfTwo(s, Arrive(|s.wire|), HandOn(|s.buffer|));
    t, es := HandOnStep(s1, |s.buffer|), [Arrive(|s.wire|), HandOn(|s.buffer|)];
    assert s.wire[..|s.wire|] == s.wire && s.buffer[..|s.buffer|] == s.buffer;
  }

  /** As many payloads as the receiver can be sure to get: those before the first short write. */
  function Reachable(s: Pipe): int
  {
    if s.next - s.base < s.clear then s.clear else s.next - s.base
  }

  lemma {:induction false} CanDrain(s: Pipe) returns (es: seq<Event>)
    requires Inv(s) && |s.log| < U64_SPAN
    ensures forall e :: e in es ==> ReceiverEvent(e)
    ensures var t := Run(s, es);
      && Inv(t) && t.wire == [] && t.buffer == [] && t.next == s.base + Reachable(s)
      && t == s.(wire := [], inbox := t.inbox, next := t.next, buffer := [], delivered := t.delivered)
    decreases s.base + s.clear - s.next
  {
    hide Inv, Run, ReadStep;
    var t, round := ArriveAndHandOn(s);
    if s.next < s.base + s.clear {
      ReadsClearFront(t);
      RunOfSum(s, round, [ReadOne]);
      RunOfOne(t, ReadOne);
      var u := ReadStep(t);
      var more := CanDrain(u);
      RunOfSum(s, round + [ReadOne], more);
      es := round + [ReadOne] + more;
    } else {
      es := round;
    }
  }

  lemma RunOfOne(s: Pipe, e: Event)
    ensures Run(s, [e]) == Step(s, e)
  {
    hide Step;
    assert [e][..0] == [];
    assert Run(s, []) == s;
  }

  lemma DrainedHasAll(s: Pipe, t: Pipe)
    requires Inv(s) && Inv(t) && t.wire == [] && t.buffer == [] && t.next == s.base + Reachable(s)
    requires t == s.(wire := [], inbox := t.inbox, next := t.next, buffer := [], delivered := t.delivered)
    ensures 0 <= Reachable(s) <= |Sealings(s)| && t.delivered == Concat(Sealings(s)[..Reachable(s)])
    ensures s.shorts == {} && s.holder.None? ==> Quiet(t) && t.delivered == Concat(Sealings(s))
  {
    hide Inv, Concat, Sealings;
    OutIsPrefix(t);
    SealingsDepend(s, t);
    assert t.delivered + [] == t.delivered;
    if s.shorts == {} && s.holder.None? {
      NoShortsAllClear(s);
      NoShortsAllClear(t);
      QuietHasReadEverything(t);
    }
  }

  lemma NoShortsAllClear(s: Pipe)
    requires Inv(s) && s.shorts == {} && s.holder.None?
    ensures s.base + s.clear == |s.log| && s.next <= s.base + s.clear
    ensures s.next == s.base + s.clear ==> s.inbox + s.wire == []
  {
    hide Honest, DataFrames, CallByCall, Ledger, ClearFront, HandedOn;
  }

  lemma SealingsDepend(s: Pipe, t: Pipe)
    requires s.base == t.base && s.sent == t.sent
    ensures Sealings(s) == Sealings(t)
  {
  }

  lemma InvFirstShort(s: Pipe)
    requires Inv(s)
    ensures FirstShort(s.base, Written(s), s.clear, s.shorts)
  {
    hide Honest, DataFrames, CallByCall, Ledger, OnTheWire, ClearFront, FirstShort, HandedOn, Shape;
  }

  /**
    * From every reachable state, whatever failed and whoever went on after it, the receiver alone can
    * get at least everything written before the first short write. If no write was short and no writer
    * is inside the lock that is everything sealed, and if no call failed, everything the callers wrote.
    */
  lemma ReceiverCanDrain(side: Side, salt: Salt, dir: Byte, log: seq<Sealed>, sent: seq<Msg>, es: seq<Event>)
      returns (more: seq<Event>)
    requires Honest(log, salt, dir, sent)
    requires |Run(JustOpened(side, salt, dir, log, sent), es).log| < U64_SPAN
    ensures forall e :: e in more ==> ReceiverEvent(e)
    ensures var s := Run(JustOpened(side, salt, dir, log, sent), es);
      var t := Run(JustOpened(side, salt, dir, log, sent), es + more);
      && FirstShort(s.base, Written(s), s.clear, s.shorts)
      && s.clear <= Reachable(s) <= |Sealings(s)| && t.delivered == Concat(Sealings(s)[..Reachable(s)])
      && (s.shorts == {} && s.holder.None? ==> Quiet(t) && t.delivered == Concat(Sealings(s)))
      && (s.failures == {} && s.holder.None? ==> t.delivered == Concat(s.order))
  {
    hide Inv, Run, Honest, Concat, Sealings, AllChunks, FirstShort;
    var s := Run(JustOpened(side, salt, dir, log, sent), es);
    RunFromOpening(side, salt, dir, log, sent, es);
    more := CanDrain(s);
    RunOfSum(JustOpened(side, salt, dir, log, sent), es, more);
    InvFirstShort(s);
    DrainedHasAll(s, Run(s, more));
    if s.failures == {} && s.holder.None? {
      NoFailuresKeepsAll(s);
      ConcatOfAllChunks(s.order);
    }
  }

  // ---------------------------------------------------------------- why callers must stop at an error

  const ZEROS: nat -> Byte := n => 0

  /** A caller takes the lock and seals its first chunk. */
  lemma Attempt(s: Pipe, caller: nat, cipher: Bytes) returns (t: Pipe, chunk: Bytes)
    requires s.side == Gateway && s.holder.None? && s.handed.None?
    requires caller in s.calls && s.calls[caller] != [] && |cipher| == |Chunk(s.calls[caller])| + 18
    ensures chunk == Chunk(s.calls[caller])
    ensures t == Step(Step(s, Lock(caller)), Seal(false, ZEROS, cipher))
    ensures t == s.(holder := Some(caller), order := s.order + [s.calls[caller]], kept := t.kept, log := t.log,
                    sent := s.sent + [Msg(DATA_PAYLOAD, chunk)], handed := t.handed,
                    calls := s.calls[caller := s.calls[caller][|chunk|..]])
    ensures |t.log| == |s.log| + 1
    ensures t.handed.Some? && Writable(t.handed.value) && |t.handed.value.ciphertext| == |cipher|
  {
    chunk := Chunk(s.calls[caller]);
    hide Wrap, NonceAt, AadOfSequence, Chunk;
    WrapDomain(chunk, false, ZEROS);
    t := SealStep(LockStep(s, caller), false, ZEROS, cipher);
  }

  /** And its write fails after count bytes. */
  lemma FailedAttempt(s: Pipe, caller: nat, cipher: Bytes, count: nat) returns (t: Pipe)
    requires s.side == Gateway && s.holder.None? && s.handed.None?
    requires caller in s.calls && s.calls[caller] != [] && |cipher| == |Chunk(s.calls[caller])| + 18
    ensures t == Run(s, [Lock(caller), Seal(false, ZEROS, cipher), Fail(count)])
    ensures t.side == s.side && t.base == s.base && t.holder.None? && t.handed.None? && t.calls == s.calls - {caller}
    ensures t.order == s.order + [s.calls[caller]]
    ensures t.sent == s.sent + [Msg(DATA_PAYLOAD, Chunk(s.calls[caller]))] && |t.log| == |s.log| + 1
    ensures count >= HEADER_SIZE + |cipher| ==> t.shorts == s.shorts && t.whole == s.whole + [|s.log|]
    ensures count < HEADER_SIZE + |cipher| ==> t.shorts == s.shorts + {|s.log|} && t.whole == s.whole
  {
    hide Run, Chunk, SealStep, LockStep, EncodeFrame;
    var s2, chunk := Attempt(s, caller, cipher);
    RunOfThree(s, Lock(caller), Seal(false, ZEROS, cipher), Fail(count));
    t := FailStep(s2, count);
    assert s2.calls - {caller} == s.calls - {caller};
  }

  /** Or goes through, and the call was of one chunk. */
  lemma WorkingAttempt(s: Pipe, caller: nat, cipher: Bytes) returns (t: Pipe)
    requires s.side == Gateway && s.holder.None? && s.handed.None?
    requires caller in s.calls && 0 < |s.calls[caller]| <= MAX_CHUNK && |cipher| == |s.calls[caller]| + 18
    ensures t == Run(s, [Lock(caller), Seal(false, ZEROS, cipher), Emit] + [Unlock])
    ensures t.side == s.side && t.base == s.base && t.holder.None? && t.handed.None?
    ensures t.order == s.order + [s.calls[caller]]
    ensures t.sent == s.sent + [Msg(DATA_PAYLOAD, s.calls[caller])] && |t.log| == |s.log| + 1
    ensures t.shorts == s.shorts && t.whole == s.whole + [|s.log|]
  {
    assert Chunk(s.calls[caller]) == s.calls[caller];
    hide Run, Chunk, SealStep, LockStep, EncodeFrame;
    var s2, data := Attempt(s, caller, cipher);
    assert s2.calls[caller] == data[|data|..] == [];
    var es := [Lock(caller), Seal(false, ZEROS, cipher), Emit];
    RunOfSum(s, es, [Unlock]);
    RunOfThree(s, Lock(caller), Seal(false, ZEROS, cipher), Emit);
    RunOfOne(EmitStep(s2), Unlock);
    t := UnlockStep(EmitStep(s2));
  }

  /** Two calls are made, the first fails after count bytes of its first frame, the second goes through. */
  lemma CallerGoesOn(s: Pipe, a: Bytes, b: Bytes, count: nat, c1: Bytes, c2: Bytes) returns (es: seq<Event>)
    requires s.side == Gateway && s.holder.None? && s.handed.None? && s.calls == map[]
    requires a != [] && 0 < |b| <= MAX_CHUNK
    requires |c1| == |Chunk(a)| + 18 && |c2| == |b| + 18
    ensures var t := Run(s, es);
      && t.side == s.side && t.base == s.base && t.holder.None? && t.order == s.order + [a, b] && |t.log| == |s.log| + 2
      && t.sent == s.sent + [Msg(DATA_PAYLOAD, Chunk(a)), Msg(DATA_PAYLOAD, b)]
      && (count >= HEADER_SIZE + |c1| ==> t.shorts == s.shorts && t.whole == s.whole + [|s.log|, |s.log| + 1])
      && (count < HEADER_SIZE + |c1| ==> t.shorts == s.shorts + {|s.log|} && t.whole == s.whole + [|s.log| + 1])
  {
    hide Chunk, Run, SealStep, EmitStep, FailStep;
    var calls, fail := [Call(0, a), Call(1, b)], [Lock(0), Seal(false, ZEROS, c1), Fail(count)];
    var s1 := CallStep(CallStep(s, 0, a), 1, b);
    RunOfTwo(s, Call(0, a), Call(1, b));
    var s2 := FailedAttempt(s1, 0, c1, count);
    assert s2.calls[1] == b;
    var s3 := WorkingAttempt(s2, 1, c2);
    var work := [Lock(1), Seal(false, ZEROS, c2), Emit] + [Unlock];
    RunOfSum(s, calls, fail);
    RunOfSum(s, calls + fail, work);
    es := calls + fail + work;
  }

  lemma RunOfTwo(s: Pipe, a: Event, b: Event)
    ensures Run(s, [a, b]) == Step(Step(s, a), b)
  {
    assert [a, b][..1] == [a] && [a][..0] == [];
    hide Step;
    assert Run(s, [a]) == Step(Run(s, []), a);
  }

  function Zeros(n: nat): (z: Bytes)
    ensures |z| == n
  {
    seq(n, _ => 0)
  }

  /**
    * The counterexample. A call of more than one chunk fails after its first frame was taken whole;
    * another call then goes through. The first chunk and the second call come out, with the rest of
    * the first call missing in between: no prefix of the two calls' data.
    */
  lemma GoingOnBreaksFifo(salt: Salt, a: Bytes, b: Bytes) returns (es: seq<Event>)
    requires |a| > MAX_CHUNK && 0 < |b| <= MAX_CHUNK && a[MAX_CHUNK] != b[0]
    ensures var s := Run(JustOpened(Gateway, salt, CLIENT_TO_SERVER, [], []), es);
      && s.order == [a, b] && s.delivered == a[..MAX_CHUNK] + b && !(s.delivered <= Concat(s.order))
  {
    var s0 := JustOpened(Gateway, salt, CLIENT_TO_SERVER, [], []);
    assert Chunk(a) == a[..MAX_CHUNK];
    hide Run, Inv, Chunk;
    var c1, c2 := Zeros(MAX_CHUNK + 18), Zeros(|b| + 18);
    var sender := CallerGoesOn(s0, a, b, HEADER_SIZE + |c1|, c1, c2);
    var s := Run(s0, sender);
    NoEntriesAreHonest(salt, CLIENT_TO_SERVER);
    RunFromOpening(Gateway, salt, CLIENT_TO_SERVER, [], [], sender);
    var receiver := CanDrain(s);
    RunOfSum(s0, sender, receiver);
    DrainedHasAll(s, Run(s, receiver));
    es := sender + receiver;
    TwoPayloads(s, a[..MAX_CHUNK], b);
    NotAPrefix(a, b);
  }

  lemma NoEntriesAreHonest(salt: Salt, dir: Byte)
    ensures Honest([], salt, dir, [])
  {
  }

  lemma TwoPayloads(s: Pipe, x: Bytes, y: Bytes)
    requires s.base == 0 && s.sent == [Msg(DATA_PAYLOAD, x), Msg(DATA_PAYLOAD, y)]
    ensures Concat(Sealings(s)) == x + y
  {
    assert Sealings(s) == [x] + [y];
    ConcatOfCons(x, [y]);
    assert [y] == [y] + [];
    ConcatOfCons(y, []);
  }

  lemma NotAPrefix(a: Bytes, b: Bytes)
    requires |a| > MAX_CHUNK && 0 < |b| && a[MAX_CHUNK] != b[0]
    ensures !(a[..MAX_CHUNK] + b <= Concat([a, b]))
  {
    assert [a, b] == [a] + [b];
    ConcatOfCons(a, [b]);
    assert (a[..MAX_CHUNK] + b)[MAX_CHUNK] == b[0];
    assert (a + Concat([b]))[MAX_CHUNK] == a[MAX_CHUNK];
  }

  /** And if the failed write took less than the frame, the next frame written leaves a number out. */
  lemma GoingOnLeavesAGap(salt: Salt, a: Bytes, b: Bytes, count: nat) returns (es: seq<Event>)
    requires a != [] && 0 < |b| <= MAX_CHUNK && count < HEADER_SIZE + |Chunk(a)| + 18
    ensures var s := Run(JustOpened(Gateway, salt, CLIENT_TO_SERVER, [], []), es);
      s.base == 0 && s.whole == [1] && s.shorts == {0}
  {
    hide Run, Chunk;
    es := CallerGoesOn(JustOpened(Gateway, salt, CLIENT_TO_SERVER, [], []), a, b, count,
                       Zeros(|Chunk(a)| + 18), Zeros(|b| + 18));
  }

  // ---------------------------------------------------------------- every call can get through

  /** What writing leaves alone while nothing fails. */
  ghost predicate Undisturbed(s: Pipe, t: Pipe)
  {
    && t.side == s.side && t.base == s.base && t.failures == s.failures && t.shorts == s.shorts && t.handed.None?
  }

  /** The holder of the lock seals its next chunk and writes it. */
  lemma WritesChunk(s: Pipe) returns (t: Pipe, es: seq<Event>)
    requires s.holder.Some? && s.holder.value in s.calls && s.calls[s.holder.value] != []
    requires s.handed.None? && s.kept != []
    ensures t == Run(s, es) && Undisturbed(s, t)
    ensures t.order == s.order && t.holder == s.holder && |t.kept| == |s.kept| && |t.log| == |s.log| + 1
    ensures var data := s.calls[s.holder.value];
      t.calls == s.calls[s.holder.value := data[|Chunk(data)|..]]
  {
    hide Run, Chunk, Wrap, NonceAt, AadOfSequence, EncodeFrame;
    var data := s.calls[s.holder.value];
    var cipher := Zeros(|Chunk(data)| + 18);
    WrapDomain(Chunk(data), false, ZEROS);
    es := [Seal(false, ZEROS, cipher), Emit];
    RunOfTwo(s, Seal(false, ZEROS, cipher), Emit);
    t := EmitStep(SealStep(s, false, ZEROS, cipher));
  }

  lemma {:induction false} WritesAll(s: Pipe) returns (es: seq<Event>)
    requires s.holder.Some? && s.holder.value in s.calls && s.handed.None? && s.kept != []
    ensures var t := Run(s, es);
      && Undisturbed(s, t) && t.order == s.order && t.holder == s.holder
      && t.calls == s.calls[s.holder.value := []]
      && |t.log| == |s.log| + |Chunks(s.calls[s.holder.value])|
    decreases |s.calls[s.holder.value]|
  {
    var data := s.calls[s.holder.value];
    if data == [] {
      es := [];
      assert Run(s, []) == s && s.calls == s.calls[s.holder.value := []];
    } else {
      var t, one := WritesChunk(s);
      assert Chunks(data) == [Chunk(data)] + Chunks(data[|Chunk(data)|..]);
      hide Run, Chunks, Chunk;
      var rest := WritesAll(t);
      RunOfSum(s, one, rest);
      es := one + rest;
      assert t.calls[s.holder.value := []] == s.calls[s.holder.value := []];
    }
  }

  /** A call is made, takes the lock, writes all its chunks and returns. */
  lemma CallCompletes(s: Pipe, caller: nat, data: Bytes) returns (es: seq<Event>)
    requires s.holder.None? && s.handed.None? && caller !in s.calls && s.failures == {}
    ensures var t := Run(s, es);
      && Undisturbed(s, t) && t.order == s.order + [data] && t.holder.None? && |t.log| == |s.log| + |Chunks(data)|
  {
    hide Run, Chunks;
    var s1 := CallStep(s, caller, data);
    var s2 := LockStep(s1, caller);
    RunOfTwo(s, Call(caller, data), Lock(caller));
    var writes := WritesAll(s2);
    var s3 := Run(s2, writes);
    RunOfSum(s, [Call(caller, data), Lock(caller)], writes);
    RunOfSum(s, [Call(caller, data), Lock(caller)] + writes, [Unlock]);
    RunOfOne(s3, Unlock);
    es := [Call(caller, data), Lock(caller)] + writes + [Unlock];
  }

  /**
    * Nothing gets stuck: from every reachable state in which no write has failed and nobody is inside
    * the lock, a new call of any data can be made, written and received, and then everything every
    * call has written, this one last, has come out.
    */
  lemma EveryCallCanGetThrough(side: Side, salt: Salt, dir: Byte, log: seq<Sealed>, sent: seq<Msg>, es: seq<Event>,
                               caller: nat, data: Bytes) returns (more: seq<Event>)
    requires Honest(log, salt, dir, sent)
    requires var s := Run(JustOpened(side, salt, dir, log, sent), es);
      && s.failures == {} && s.holder.None? && caller !in s.calls && |s.log| + |Chunks(data)| < U64_SPAN
    ensures var s := Run(JustOpened(side, salt, dir, log, sent), es);
      var t := Run(JustOpened(side, salt, dir, log, sent), es + more);
      && t.order == s.order + [data] && t.delivered == Concat(s.order + [data])
  {
    hide Inv, Run, Honest, Concat, Sealings, FirstShort, Chunks, JustOpened;
    var s0 := JustOpened(side, salt, dir, log, sent);
    var s := Run(s0, es);
    RunFromOpening(side, salt, dir, log, sent, es);
    NobodyInside(s);
    var writes := CallCompletes(s, caller, data);
    RunOfSum(s0, es, writes);
    var u := Run(s0, es + writes);
    RunFromOpening(side, salt, dir, log, sent, es + writes);
    var drained := CanDrain(u);
    DrainedHasAll(u, Run(u, drained));
    NoFailuresKeepsAll(u);
    ConcatOfAllChunks(u.order);
    RunOfSum(s0, es + writes, drained);
    more := writes + drained;
    assert es + (writes + drained) == es + writes + drained;
  }

  lemma NobodyInside(s: Pipe)
    requires Inv(s) && s.holder.None?
    ensures s.handed.None?
  {
    hide Honest, DataFrames, CallByCall, Ledger, OnTheWire, ClearFront, FirstShort, HandedOn;
  }
}
