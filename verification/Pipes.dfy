/**
  * One direction of an open tunnel, end to end, in steps small enough to interleave: callers of
  * DataConn.Write contend for the write lock, each chunk takes a nonce and is sealed in one step
  * and written in another, a write may fail after any part of its frame, the network delivers any
  * number of bytes at a time, the receiver reads frames once they have arrived, and hands payload
  * bytes on in pieces of any size.
  *
  * Read with the gateway as the receiver this is client to destination: a piece is a short write
  * to the destination. Read with the client as the receiver it is destination to client: a call
  * is one read from the destination, a piece is what fits the buffer passed to DataConn.Read, and
  * a failed write ends the loop that writes.
  */
module Pipes {
  import opened Bytes
  import opened Frames
  import opened Envelope
  import opened Sealing
  import opened Channels
  import opened Chunking

  datatype Pipe = Pipe(
    side: Side,                  // who receives
    salt: Salt,
    dir: Byte,
    base: nat,                   // how many messages (the ConnOpen) went before
    calls: map<nat, Bytes>,      // Write calls in progress, by caller: the data not yet sealed
    holder: Option<nat>,         // the caller inside the write lock
    handed: Option<Frame>,       // its frame that is sealed and not yet written
    order: seq<Bytes>,           // the data of every call, in the order the lock was taken
    kept: seq<nat>,              // how many chunks of each have been sealed
    failures: set<nat>,          // which of them ended with a write error, by position
    log: seq<Sealed>,
    sent: seq<Msg>,
    whole: seq<nat>,             // the messages whose frames were written whole, as written
    shorts: set<nat>,            // the messages whose frames were written in part or not at all
    clear: nat,                  // how many frames were written before the first short write
    dirty: bool,                 // bytes were written after a short write
    wire: Bytes,                 // written and in flight
    inbox: Bytes,                // arrived and unread
    next: nat,                   // the receive counter
    buffer: Bytes,               // received and not yet handed on
    delivered: Bytes             // handed on
  )

  datatype Event =
    | Call(caller: nat, data: Bytes)
    | Lock(caller: nat)
    | Seal(padding: bool, filler: nat -> Byte, cipher: Bytes)
    | Emit
    | Fail(count: nat)
    | Unlock
    | Arrive(count: nat)
    | ReadOne
    | HandOn(count: nat)

  /** A tunnel right after its opening: every earlier message has been received. */
  function JustOpened(side: Side, salt: Salt, dir: Byte, log: seq<Sealed>, sent: seq<Msg>): Pipe
  {
    Pipe(side, salt, dir, |log|, map[], None, None, [], [], {}, log, sent, [], {}, 0, false, [], [], |log|, [], [])
  }

  function CallStep(s: Pipe, caller: nat, data: Bytes): Pipe
  {
    if caller in s.calls then s else s.(calls := s.calls[caller := data])
  }

  /** After a failure the client's callers go on; the gateway's one loop has returned. */
  function LockStep(s: Pipe, caller: nat): Pipe
  {
    if s.holder.Some? || caller !in s.calls || (s.side == Client && s.failures != {}) then s
    else s.(holder := Some(caller), order := s.order + [s.calls[caller]], kept := s.kept + [0])
  }

  /** Encode, pad, allocate the nonce and seal: everything before WriteFrame. */
  function SealStep(s: Pipe, padding: bool, filler: nat -> Byte, cipher: Bytes): Pipe
  {
    if s.holder.None? || s.handed.Some? || s.holder.value !in s.calls || s.calls[s.holder.value] == [] || s.kept == []
    then s
    else
      var data := s.calls[s.holder.value];
      var chunk := Chunk(data);
      var wrapped := Wrap(chunk, padding, filler);
      if wrapped.Err? || |cipher| != |wrapped.value| + OVERHEAD then s
      else
        var k, m, last := |s.log|, Msg(DATA_PAYLOAD, chunk), |s.kept| - 1;
        var aad := AadOfSequence(DATA_PAYLOAD, s.dir, k % U64_SPAN);
        var e := Sealed(NonceAt(s.salt, k), aad, wrapped.value, cipher);
        s.(log := s.log + [e], sent := s.sent + [m], handed := Some(FrameOf(m, e)),
           kept := s.kept[last := s.kept[last] + 1],
           calls := s.calls[s.holder.value := data[|chunk|..]])
  }

  /** WriteFrame succeeds. */
  function EmitStep(s: Pipe): Pipe
  {
    if s.handed.None? || !Writable(s.handed.value) || s.log == [] then s
    else
      s.(wire := s.wire + EncodeFrame(s.handed.value), handed := None,
         whole := s.whole + [|s.log| - 1], clear := if s.shorts == {} then s.clear + 1 else s.clear,
         dirty := s.dirty || s.shorts != {})
  }

  /** WriteFrame fails after any part of the frame, even all of it: Write returns and the lock is freed. */
  function FailStep(s: Pipe, count: nat): Pipe
  {
    if s.handed.None? || !Writable(s.handed.value) || s.log == [] || s.holder.None? || s.order == [] then s
    else
      var frame := EncodeFrame(s.handed.value);
      var n := if count < |frame| then count else |frame|;
      var t := s.(wire := s.wire + frame[..n], handed := None, holder := None,
                  calls := s.calls - {s.holder.value}, failures := s.failures + {|s.order| - 1},
                  dirty := s.dirty || (s.shorts != {} && n > 0));
      if n == |frame| then
        t.(whole := s.whole + [|s.log| - 1], clear := if s.shorts == {} then s.clear + 1 else s.clear)
      else t.(shorts := s.shorts + {|s.log| - 1})
  }

  function UnlockStep(s: Pipe): Pipe
  {
    if s.holder.None? || s.handed.Some? || s.holder.value !in s.calls || s.calls[s.holder.value] != [] then s
    else s.(calls := s.calls - {s.holder.value}, holder := None)
  }

  function ArriveStep(s: Pipe, count: nat): Pipe
  {
    if count > |s.wire| then s else s.(inbox := s.inbox + s.wire[..count], wire := s.wire[count..])
  }

  /**
    * The receiver reads only with nothing left to hand on, and waits for a frame that has not
    * arrived in full. After an error it may read on: the gateway's loop does not, a caller of
    * DataConn.Read can.
    */
  function ReadStep(s: Pipe): Pipe
  {
    var p := ParseFrame(s.inbox);
    if s.buffer != [] || p.result == Err(Truncated) then s
    else if p.result.Err? then s.(inbox := p.rest)
    else
      var v := Accept(s.side, s.log, s.dir, s.next, DATA_PAYLOAD, p.result.value);
      if v.result.Err? then s.(inbox := p.rest, next := v.next)
      else s.(inbox := p.rest, next := v.next, buffer := v.result.value)
  }

  function HandOnStep(s: Pipe, count: nat): Pipe
  {
    if count > |s.buffer| then s
    else s.(delivered := s.delivered + s.buffer[..count], buffer := s.buffer[count..])
  }

  function Step(s: Pipe, e: Event): Pipe
  {
    match e
    case Call(caller, data) => CallStep(s, caller, data)
    case Lock(caller) => LockStep(s, caller)
    case Seal(padding, filler, cipher) => SealStep(s, padding, filler, cipher)
    case Emit => EmitStep(s)
    case Fail(count) => FailStep(s, count)
    case Unlock => UnlockStep(s)
    case Arrive(count) => ArriveStep(s, count)
    case ReadOne => ReadStep(s)
    case HandOn(count) => HandOnStep(s, count)
  }

  function Run(s: Pipe, es: seq<Event>): Pipe
  {
    if es == [] then s else Step(Run(s, es[..|es| - 1]), es[|es| - 1])
  }

  // ---------------------------------------------------------------- calls and their chunks

  function Lengths(order: seq<Bytes>): (full: seq<nat>)
    ensures |full| == |order|
    ensures forall i :: 0 <= i < |order| ==> full[i] == |Chunks(order[i])|
  {
    seq(|order|, i requires 0 <= i < |order| => |Chunks(order[i])|)
  }

  ghost predicate Within(kept: seq<nat>, full: seq<nat>)
  {
    |kept| == |full| && forall i :: 0 <= i < |kept| ==> kept[i] <= full[i]
  }

  /** The first kept[i] chunks of each call, one call after the other. */
  ghost function KeptChunks(order: seq<Bytes>, kept: seq<nat>): seq<Bytes>
    requires Within(kept, Lengths(order))
    decreases |order|
  {
    if order == [] then []
    else
      var n := |order| - 1;
      KeptChunks(order[..n], kept[..n]) + Chunks(order[n])[..kept[n]]
  }

  /** What the caller inside the lock has still to seal. */
  function Unsealed(s: Pipe): Option<Bytes>
  {
    if s.holder.Some? && s.holder.value in s.calls then Some(s.calls[s.holder.value]) else None
  }

  /**
    * The payloads are, call by call in lock order, a prefix of each call's chunks, and all of them
    * for every call that has neither failed nor still holds the lock.
    */
  ghost predicate CallByCall(order: seq<Bytes>, kept: seq<nat>, failures: set<nat>, unsealed: Option<Bytes>,
                             payloads: seq<Bytes>)
  {
    var full := Lengths(order);
    && Within(kept, full)
    && payloads == KeptChunks(order, kept)
    && (forall i :: i in failures ==> i < |order|)
    && (forall i :: 0 <= i < |order| ==>
          kept[i] == full[i] || i in failures || (unsealed.Some? && i == |order| - 1))
    && (unsealed.Some? ==> order != [] && |order| - 1 !in failures)
    && (unsealed.Some? ==> Chunks(order[|order| - 1])[kept[|order| - 1]..] == Chunks(unsealed.value))
  }

  lemma KeptOfSnoc(order: seq<Bytes>, kept: seq<nat>, data: Bytes, k: nat)
    requires Within(kept, Lengths(order)) && k <= |Chunks(data)|
    ensures Within(kept + [k], Lengths(order + [data]))
    ensures KeptChunks(order + [data], kept + [k]) == KeptChunks(order, kept) + Chunks(data)[..k]
  {
    hide Chunks;
    assert Lengths(order + [data]) == Lengths(order) + [|Chunks(data)|];
    assert (order + [data])[..|order|] == order && (kept + [k])[..|order|] == kept;
  }

  lemma LockKeepsCalls(order: seq<Bytes>, kept: seq<nat>, failures: set<nat>, payloads: seq<Bytes>, data: Bytes)
    requires CallByCall(order, kept, failures, None, payloads)
    ensures CallByCall(order + [data], kept + [0], failures, Some(data), payloads)
  {
    hide Chunks, KeptChunks;
    KeptOfSnoc(order, kept, data, 0);
    assert Chunks(data)[0..] == Chunks(data) && KeptChunks(order, kept) + [] == KeptChunks(order, kept);
    assert Lengths(order + [data]) == Lengths(order) + [|Chunks(data)|];
  }

  lemma SealKeepsCalls(order: seq<Bytes>, kept: seq<nat>, failures: set<nat>, payloads: seq<Bytes>, data: Bytes)
    requires CallByCall(order, kept, failures, Some(data), payloads) && data != []
    ensures order != []
    ensures var chunk, n := Chunk(data), |order| - 1;
      CallByCall(order, kept[n := kept[n] + 1], failures, Some(data[|chunk|..]), payloads + [chunk])
  {
    hide Chunks, KeptChunks, Chunk;
    var n, chunk := |order| - 1, Chunk(data);
    NextChunk(Chunks(order[n]), kept[n], data);
    KeptOneMore(order, kept);
  }

  lemma NextChunk(all: seq<Bytes>, k: nat, data: Bytes)
    requires k <= |all| && all[k..] == Chunks(data) && data != []
    ensures k + 1 <= |all| && all[k] == Chunk(data) && all[k + 1..] == Chunks(data[|Chunk(data)|..])
  {
    var chunk := Chunk(data);
    assert Chunks(data) == [chunk] + Chunks(data[|chunk|..]);
    assert all[k + 1..] == all[k..][1..];
  }

  /** One more chunk of the last call. */
  lemma KeptOneMore(order: seq<Bytes>, kept: seq<nat>)
    requires Within(kept, Lengths(order)) && order != []
    requires kept[|order| - 1] < |Chunks(order[|order| - 1])|
    ensures var n := |order| - 1; var k := kept[n];
      && Within(kept[n := k + 1], Lengths(order))
      && KeptChunks(order, kept[n := k + 1]) == KeptChunks(order, kept) + [Chunks(order[n])[k]]
  {
    hide Chunks, KeptChunks;
    var n := |order| - 1;
    var k, all := kept[n], Chunks(order[n]);
    assert all[..k + 1] == all[..k] + [all[k]];
    assert order == order[..n] + [order[n]] && kept == kept[..n] + [k] && kept[n := k + 1] == kept[..n] + [k + 1];
    assert Lengths(order[..n]) == Lengths(order)[..n];
    KeptOfSnoc(order[..n], kept[..n], order[n], k);
    KeptOfSnoc(order[..n], kept[..n], order[n], k + 1);
  }

  lemma EndKeepsCalls(order: seq<Bytes>, kept: seq<nat>, failures: set<nat>, payloads: seq<Bytes>, data: Bytes)
    requires CallByCall(order, kept, failures, Some(data), payloads)
    ensures order != []
    ensures CallByCall(order, kept, failures + {|order| - 1}, None, payloads)
    ensures data == [] ==> CallByCall(order, kept, failures, None, payloads)
  {
    assert data == [] ==> Chunks(data) == [];
    hide Chunks, KeptChunks;
  }

  // ---------------------------------------------------------------- messages and their writes

  ghost predicate Ascending(ns: seq<nat>)
  {
    forall i, j :: 0 <= i < j < |ns| ==> ns[i] < ns[j]
  }

  /** Every message written so far was written whole, in its turn, or cut short. */
  ghost predicate Ledger(base: nat, written: int, whole: seq<nat>, shorts: set<nat>, dirty: bool)
  {
    && base <= written
    && Ascending(whole)
    && (forall i :: 0 <= i < |whole| ==> base <= whole[i] < written && whole[i] !in shorts)
    && (forall k :: k in shorts ==> base <= k < written)
    && (forall k :: base <= k < written ==> k in whole || k in shorts)
    && (dirty ==> shorts != {})
  }

  /**
    * fs are the unread frames, of which w have been written: until something is written after a
    * short write the wire is a prefix of those w, and all of them if no write was short.
    */
  ghost predicate OnTheWire(bytes: Bytes, fs: seq<Frame>, w: int, shorts: set<nat>, dirty: bool)
  {
    && AllWritable(fs)
    && (!dirty ==> 0 <= w <= |fs| && bytes <= EncodeAll(fs[..w]))
    && (shorts == {} ==> !dirty && bytes == EncodeAll(fs[..w]))
  }

  /**
    * Of the unread frames fs, the c that were written before the first short write come first on the
    * wire, whatever was written after them; and until something was, no other frame is there in full.
    */
  ghost predicate ClearFront(bytes: Bytes, fs: seq<Frame>, w: int, c: int, shorts: set<nat>, dirty: bool)
  {
    && AllWritable(fs) && c <= w <= |fs|
    && (c >= 0 ==> EncodeAll(fs[..c]) <= bytes)
    && (shorts == {} ==> c == w)
    && (!dirty ==> c >= 0 && (c < w ==> |bytes| < |EncodeAll(fs[..c + 1])|))
  }

  /** The first short write is that of message base + clear. */
  ghost predicate FirstShort(base: nat, written: int, clear: nat, shorts: set<nat>)
  {
    && (shorts == {} ==> base + clear == written)
    && (shorts != {} ==> base + clear in shorts && base + clear < written)
    && (forall k :: k in shorts ==> base + clear <= k)
  }

  /** The first n payloads have been received, and out is what they amount to. */
  ghost predicate HandedOn(out: Bytes, payloads: seq<Bytes>, n: int)
  {
    0 <= n <= |payloads| && out == Concat(payloads[..n])
  }

  /** How many messages have been written, whole or in part. */
  function Written(s: Pipe): int
  {
    if s.handed.Some? then |s.log| - 1 else |s.log|
  }

  function Sealings(s: Pipe): seq<Bytes>
  {
    if s.base <= |s.sent| then Payloads(s.sent[s.base..]) else []
  }

  ghost predicate Shape(s: Pipe)
  {
    && |s.log| == |s.sent|
    && s.base <= s.next <= |s.sent|
    && |s.kept| == |s.order|
    && (s.holder.Some? ==> s.holder.value in s.calls)
    && (s.handed.Some? ==> s.holder.Some? && s.base < |s.log|)
    && (s.handed.Some? ==> s.handed.value == FrameOf(s.sent[|s.sent| - 1], s.log[|s.log| - 1]))
    && (s.shorts != {} ==> s.failures != {})
    && (s.side == Client ==> !s.dirty && (s.failures != {} ==> s.holder.None?))
  }

  ghost predicate DataFrames(base: nat, sent: seq<Msg>, log: seq<Sealed>)
  {
    && |log| == |sent|
    && forall k :: base <= k < |log| ==> sent[k].typ == DATA_PAYLOAD && Writable(FrameOf(sent[k], log[k]))
  }

  /** The frames of the messages not yet received. */
  function Unread(s: Pipe): seq<Frame>
  {
    if |s.log| == |s.sent| && s.next <= |s.log| then FramesOf(s.sent, s.log)[s.next..] else []
  }

  ghost predicate Inv(s: Pipe)
  {
    && Shape(s)
    && Honest(s.log, s.salt, s.dir, s.sent)
    && DataFrames(s.base, s.sent, s.log)
    && CallByCall(s.order, s.kept, s.failures, Unsealed(s), Sealings(s))
    && Ledger(s.base, Written(s), s.whole, s.shorts, s.dirty)
    && OnTheWire(s.inbox + s.wire, Unread(s), Written(s) - s.next, s.shorts, s.dirty)
    && ClearFront(s.inbox + s.wire, Unread(s), Written(s) - s.next, s.base + s.clear - s.next, s.shorts, s.dirty)
    && FirstShort(s.base, Written(s), s.clear, s.shorts)
    && HandedOn(s.delivered + s.buffer, Sealings(s), s.next - s.base)
  }

  // ---------------------------------------------------------------- every step keeps it

  /** What depends on the messages only. */
  lemma SameMessages(s: Pipe, t: Pipe)
    requires t.log == s.log && t.sent == s.sent && t.base == s.base && t.next == s.next
    ensures Unread(t) == Unread(s) && Sealings(t) == Sealings(s)
  {
  }

  lemma CallKeepsInv(s: Pipe, caller: nat, data: Bytes)
    requires Inv(s)
    ensures Inv(CallStep(s, caller, data))
  {
    hide Honest, DataFrames, CallByCall, Ledger, OnTheWire, ClearFront, FirstShort, HandedOn, FrameOf;
    hide Unread, Sealings;
    var t := CallStep(s, caller, data);
    SameMessages(s, t);
    assert Unsealed(t) == Unsealed(s);
  }

  lemma LockKeepsInv(s: Pipe, caller: nat)
    requires Inv(s)
    ensures Inv(LockStep(s, caller))
  {
    hide Honest, DataFrames, CallByCall, Ledger, OnTheWire, ClearFront, FirstShort, HandedOn, FrameOf;
    hide Unread, Sealings;
    SameMessages(s, LockStep(s, caller));
    if LockStep(s, caller) != s {
      LockKeepsCalls(s.order, s.kept, s.failures, Sealings(s), s.calls[caller]);
    }
  }

  lemma UnlockKeepsInv(s: Pipe)
    requires Inv(s)
    ensures Inv(UnlockStep(s))
  {
    hide Honest, DataFrames, CallByCall, Ledger, OnTheWire, ClearFront, FirstShort, HandedOn, FrameOf;
    hide Unread, Sealings;
    SameMessages(s, UnlockStep(s));
    if UnlockStep(s) != s {
      EndKeepsCalls(s.order, s.kept, s.failures, Sealings(s), s.calls[s.holder.value]);
    }
  }

  lemma ArriveKeepsInv(s: Pipe, count: nat)
    requires Inv(s)
    ensures Inv(ArriveStep(s, count))
  {
    hide Honest, DataFrames, CallByCall, Ledger, OnTheWire, ClearFront, FirstShort, HandedOn, FrameOf;
    hide Unread, Sealings;
    var s' := ArriveStep(s, count);
    SameMessages(s, s');
    assert Unsealed(s') == Unsealed(s);
    assert s'.inbox + s'.wire == s.inbox + s.wire;
  }

  lemma HandOnKeepsInv(s: Pipe, count: nat)
    requires Inv(s)
    ensures Inv(HandOnStep(s, count))
  {
    hide Honest, DataFrames, CallByCall, Ledger, OnTheWire, ClearFront, FirstShort, HandedOn, FrameOf;
    hide Unread, Sealings;
    var s' := HandOnStep(s, count);
    SameMessages(s, s');
    assert Unsealed(s') == Unsealed(s);
    assert s'.delivered + s'.buffer == s.delivered + s.buffer;
  }

  /** Sealing adds one message, unwritten: what is on the wire and what was handed on stay what they were. */
  lemma SealKeepsTheRest(bytes: Bytes, fs: seq<Frame>, w: int, shorts: set<nat>, dirty: bool, f: Frame,
                         out: Bytes, payloads: seq<Bytes>, n: int, chunk: Bytes)
    requires OnTheWire(bytes, fs, w, shorts, dirty) && Writable(f)
    requires HandedOn(out, payloads, n)
    ensures OnTheWire(bytes, fs + [f], w, shorts, dirty)
    ensures HandedOn(out, payloads + [chunk], n)
  {
    hide EncodeAll, Concat;
    assert !dirty ==> (fs + [f])[..w] == fs[..w];
    assert (payloads + [chunk])[..n] == payloads[..n];
  }

  lemma SealKeepsClear(bytes: Bytes, fs: seq<Frame>, w: int, c: int, shorts: set<nat>, dirty: bool, f: Frame)
    requires ClearFront(bytes, fs, w, c, shorts, dirty) && Writable(f)
    ensures ClearFront(bytes, fs + [f], w, c, shorts, dirty)
  {
    hide EncodeAll;
    assert c >= 0 ==> (fs + [f])[..c] == fs[..c];
    assert 0 <= c < w ==> (fs + [f])[..c + 1] == fs[..c + 1];
  }

  lemma SealKeepsData(base: nat, sent: seq<Msg>, log: seq<Sealed>, m: Msg, e: Sealed)
    requires DataFrames(base, sent, log)
    requires m.typ == DATA_PAYLOAD && Writable(FrameOf(m, e))
    ensures DataFrames(base, sent + [m], log + [e])
  {
  }

  /** What a SealStep that goes through changes, and nothing else. */
  lemma SealStepFrame(s: Pipe, padding: bool, filler: nat -> Byte, cipher: Bytes)
    requires SealStep(s, padding, filler, cipher) != s
    ensures s.holder.Some? && s.holder.value in s.calls && s.calls[s.holder.value] != [] && s.handed.None?
    ensures s.kept != []
    ensures var t, data := SealStep(s, padding, filler, cipher), s.calls[s.holder.value];
      t == s.(log := t.log, sent := t.sent, handed := t.handed,
              kept := s.kept[|s.kept| - 1 := s.kept[|s.kept| - 1] + 1],
              calls := s.calls[s.holder.value := data[|Chunk(data)|..]])
  {
    hide Wrap, NonceAt, AadOfSequence, Chunk;
  }

  /** The message it adds. */
  lemma SealStepAdds(s: Pipe, padding: bool, filler: nat -> Byte, cipher: Bytes)
    requires SealStep(s, padding, filler, cipher) != s
    ensures s.holder.Some? && s.holder.value in s.calls
    ensures var t, m := SealStep(s, padding, filler, cipher), Msg(DATA_PAYLOAD, Chunk(s.calls[s.holder.value]));
      && t.sent == s.sent + [m] && |t.log| == |s.log| + 1 && s.log <= t.log
      && t.handed == Some(FrameOf(m, t.log[|s.log|]))
      && SealsMessage(t.log[|s.log|], s.salt, s.dir, |s.log|, m)
      && Writable(t.handed.value)
  {
    hide Wrap, NonceAt, AadOfSequence, Unwrap, Chunk;
    var chunk := Chunk(s.calls[s.holder.value]);
    UnwrapOfWrap(chunk, padding, filler);
    WrapDomain(chunk, padding, filler);
  }

  lemma SealStepGrows(s: Pipe, t: Pipe, m: Msg, e: Sealed)
    requires Shape(s) && t.base == s.base && t.next == s.next
    requires t.log == s.log + [e] && t.sent == s.sent + [m]
    ensures Sealings(t) == Sealings(s) + [m.payload]
    ensures Unread(t) == Unread(s) + [FrameOf(m, e)]
  {
    hide FrameOf;
    assert t.sent[s.base..] == s.sent[s.base..] + [m];
    assert FramesOf(t.sent, t.log) == FramesOf(s.sent, s.log) + [FrameOf(m, e)];
  }

  lemma SealKeepsInv(s: Pipe, padding: bool, filler: nat -> Byte, cipher: Bytes)
    requires Inv(s)
    ensures Inv(SealStep(s, padding, filler, cipher))
  {
    hide Honest, DataFrames, CallByCall, Ledger, OnTheWire, ClearFront, FirstShort, HandedOn, FrameOf;
    hide Unread, Sealings, Chunk, SealsMessage, SealStep, Writable;
    var t := SealStep(s, padding, filler, cipher);
    if t != s {
      SealStepFrame(s, padding, filler, cipher);
      SealStepAdds(s, padding, filler, cipher);
      var data := s.calls[s.holder.value];
      var chunk := Chunk(data);
      var m, e := Msg(DATA_PAYLOAD, chunk), t.log[|s.log|];
      assert t.log == s.log + [e];
      HonestExtends(s.log, s.salt, s.dir, s.sent, e, m);
      SealKeepsData(s.base, s.sent, s.log, m, e);
      SealKeepsCalls(s.order, s.kept, s.failures, Sealings(s), data);
      SealStepGrows(s, t, m, e);
      SealKeepsTheRest(s.inbox + s.wire, Unread(s), Written(s) - s.next, s.shorts, s.dirty, FrameOf(m, e),
                       s.delivered + s.buffer, Sealings(s), s.next - s.base, chunk);
      SealKeepsClear(s.inbox + s.wire, Unread(s), Written(s) - s.next, s.base + s.clear - s.next, s.shorts, s.dirty,
                     FrameOf(m, e));
    }
  }

  /** One more message written whole. */
  lemma WholeKeepsLedger(base: nat, written: int, whole: seq<nat>, shorts: set<nat>, dirty: bool)
    requires Ledger(base, written, whole, shorts, dirty)
    ensures Ledger(base, written + 1, whole + [written], shorts, dirty || shorts != {})
  {
    var whole' := whole + [written];
    assert forall k :: k in whole ==> k in whole';
    assert written in whole' by { assert whole'[|whole|] == written; }
  }

  /** One more message cut short. */
  lemma ShortKeepsLedger(base: nat, written: int, whole: seq<nat>, shorts: set<nat>, dirty: bool, dirty': bool)
    requires Ledger(base, written, whole, shorts, dirty) && written >= 0
    ensures Ledger(base, written + 1, whole, shorts + {written}, dirty')
  {
  }

  /** The last frame goes out: whole, or as far as the writer took it. */
  lemma WriteKeepsWire(bytes: Bytes, fs: seq<Frame>, w: int, shorts: set<nat>, dirty: bool, f: Frame, n: nat, k: nat)
    requires OnTheWire(bytes, fs, w, shorts, dirty)
    requires Writable(f) && n <= |EncodeFrame(f)|
    requires !dirty ==> w == |fs| - 1 && fs[w] == f
    ensures OnTheWire(bytes + EncodeFrame(f), fs, w + 1, shorts, dirty || shorts != {})
    ensures OnTheWire(bytes + EncodeFrame(f)[..n], fs, w + 1, shorts + {k}, dirty || (shorts != {} && n > 0))
  {
    hide EncodeAll, EncodeFrame;
    if !dirty {
      var front := fs[..w];
      assert fs == front + [f] && fs[..w + 1] == fs;
      EncodeAllOfSnoc(front, f);
      if shorts == {} {
        assert bytes + EncodeFrame(f)[..n] <= bytes + EncodeFrame(f);
      } else if n == 0 {
        assert bytes + EncodeFrame(f)[..0] == bytes;
      }
    }
  }

  /** A frame written whole joins the clear front if no write was short before it. */
  lemma WholeKeepsClear(bytes: Bytes, fs: seq<Frame>, w: int, c: int, shorts: set<nat>, dirty: bool, f: Frame)
    requires OnTheWire(bytes, fs, w, shorts, dirty) && ClearFront(bytes, fs, w, c, shorts, dirty)
    requires w == |fs| - 1 && Writable(f) && (!dirty ==> fs[w] == f)
    ensures ClearFront(bytes + EncodeFrame(f), fs, w + 1, if shorts == {} then c + 1 else c, shorts,
                       dirty || shorts != {})
  {
    hide EncodeAll, EncodeFrame;
    if shorts == {} {
      assert fs == fs[..w] + [f] && fs[..w + 1] == fs;
      EncodeAllOfSnoc(fs[..w], f);
    }
  }

  /** One cut short does not. */
  lemma ShortKeepsClear(bytes: Bytes, fs: seq<Frame>, w: int, c: int, shorts: set<nat>, dirty: bool, f: Frame, n: nat,
                        k: nat)
    requires OnTheWire(bytes, fs, w, shorts, dirty) && ClearFront(bytes, fs, w, c, shorts, dirty)
    requires w == |fs| - 1 && Writable(f) && n < |EncodeFrame(f)| && (!dirty ==> fs[w] == f)
    ensures ClearFront(bytes + EncodeFrame(f)[..n], fs, w + 1, c, shorts + {k}, dirty || (shorts != {} && n > 0))
  {
    hide EncodeAll, EncodeFrame;
    if !dirty && c == w {
      assert fs == fs[..w] + [f] && fs[..w + 1] == fs;
      EncodeAllOfSnoc(fs[..w], f);
    }
  }

  lemma WritesKeepFirstShort(base: nat, written: nat, clear: nat, shorts: set<nat>)
    requires FirstShort(base, written, clear, shorts)
    ensures FirstShort(base, written + 1, if shorts == {} then clear + 1 else clear, shorts)
    ensures FirstShort(base, written + 1, clear, shorts + {written})
  {
  }

  lemma HandedFrameIsLast(s: Pipe)
    requires Inv(s) && s.handed.Some?
    ensures Writable(s.handed.value) && s.order != [] && s.log != []
    ensures Written(s) - s.next == |Unread(s)| - 1
    ensures !s.dirty ==> Unread(s) != [] && Unread(s)[|Unread(s)| - 1] == s.handed.value
  {
    hide Honest, Ledger, HandedOn, ClearFront, FirstShort, EncodeAll, KeptChunks, Chunks;
  }

  lemma EmitKeepsInv(s: Pipe)
    requires Inv(s)
    ensures Inv(EmitStep(s))
  {
    hide Honest, DataFrames, CallByCall, Ledger, OnTheWire, ClearFront, FirstShort, HandedOn, FrameOf;
    hide Unread, Sealings, EncodeFrame;
    SameMessages(s, EmitStep(s));
    assert Unsealed(EmitStep(s)) == Unsealed(s);
    if EmitStep(s) != s {
      HandedFrameIsLast(s);
      WriteKeepsWire(s.inbox + s.wire, Unread(s), Written(s) - s.next, s.shorts, s.dirty, s.handed.value, 0, 0);
      WholeKeepsLedger(s.base, Written(s), s.whole, s.shorts, s.dirty);
      WholeKeepsClear(s.inbox + s.wire, Unread(s), Written(s) - s.next, s.base + s.clear - s.next, s.shorts, s.dirty,
                      s.handed.value);
      WritesKeepFirstShort(s.base, Written(s), s.clear, s.shorts);
      assert s.inbox + (s.wire + EncodeFrame(s.handed.value)) == s.inbox + s.wire + EncodeFrame(s.handed.value);
    }
  }

  lemma ShortWriteKeepsInv(s: Pipe, count: nat)
    requires Inv(s) && FailStep(s, count) != s && count < |EncodeFrame(s.handed.value)|
    ensures Inv(FailStep(s, count))
  {
    hide Honest, DataFrames, CallByCall, Ledger, OnTheWire, ClearFront, FirstShort, HandedOn, FrameOf;
    hide Unread, Sealings, EncodeFrame;
    HandedFrameIsLast(s);
    SameMessages(s, FailStep(s, count));
    var frame, k := EncodeFrame(s.handed.value), |s.log| - 1;
    EndKeepsCalls(s.order, s.kept, s.failures, Sealings(s), s.calls[s.holder.value]);
    WriteKeepsWire(s.inbox + s.wire, Unread(s), Written(s) - s.next, s.shorts, s.dirty, s.handed.value, count, k);
    ShortKeepsLedger(s.base, Written(s), s.whole, s.shorts, s.dirty, s.dirty || (s.shorts != {} && count > 0));
    ShortKeepsClear(s.inbox + s.wire, Unread(s), Written(s) - s.next, s.base + s.clear - s.next, s.shorts, s.dirty,
                    s.handed.value, count, k);
    WritesKeepFirstShort(s.base, k, s.clear, s.shorts);
    assert s.inbox + (s.wire + frame[..count]) == s.inbox + s.wire + frame[..count];
  }

  lemma WholeWriteKeepsInv(s: Pipe, count: nat)
    requires Inv(s) && FailStep(s, count) != s && count >= |EncodeFrame(s.handed.value)|
    ensures Inv(FailStep(s, count))
  {
    hide Honest, DataFrames, CallByCall, Ledger, OnTheWire, ClearFront, FirstShort, HandedOn, FrameOf;
    hide Unread, Sealings, EncodeFrame;
    HandedFrameIsLast(s);
    SameMessages(s, FailStep(s, count));
    var frame, k := EncodeFrame(s.handed.value), |s.log| - 1;
    EndKeepsCalls(s.order, s.kept, s.failures, Sealings(s), s.calls[s.holder.value]);
    WholeKeepsLedger(s.base, Written(s), s.whole, s.shorts, s.dirty);
    WriteKeepsWire(s.inbox + s.wire, Unread(s), Written(s) - s.next, s.shorts, s.dirty, s.handed.value, 0, k);
    WholeKeepsClear(s.inbox + s.wire, Unread(s), Written(s) - s.next, s.base + s.clear - s.next, s.shorts, s.dirty,
                    s.handed.value);
    WritesKeepFirstShort(s.base, k, s.clear, s.shorts);
    assert s.inbox + (s.wire + frame[..|frame|]) == s.inbox + s.wire + frame;
  }

  lemma FailKeepsInv(s: Pipe, count: nat)
    requires Inv(s)
    ensures Inv(FailStep(s, count))
  {
    if FailStep(s, count) != s {
      hide Inv, EncodeFrame;
      if count < |EncodeFrame(s.handed.value)| {
        ShortWriteKeepsInv(s, count);
      } else {
        WholeWriteKeepsInv(s, count);
      }
    }
  }

  // ---------------------------------------------------------------- reading

  /** Until something follows a short write, a frame that has arrived is the next one, and is accepted. */
  lemma ArrivedFrameIsAccepted(s: Pipe)
    requires Shape(s) && Honest(s.log, s.salt, s.dir, s.sent) && DataFrames(s.base, s.sent, s.log)
    requires OnTheWire(s.inbox + s.wire, Unread(s), Written(s) - s.next, s.shorts, s.dirty)
    requires !s.dirty && |s.log| < U64_SPAN && ParseFrame(s.inbox).result.Ok?
    ensures s.next < Written(s) && Unread(s) != []
    ensures var f := ParseFrame(s.inbox).result.value;
      && f == Unread(s)[0] == FrameOf(s.sent[s.next], s.log[s.next])
      && Accept(s.side, s.log, s.dir, s.next, DATA_PAYLOAD, f) == Verdict(Ok(s.sent[s.next].payload), s.next + 1)
    ensures OnTheWire(ParseFrame(s.inbox).rest + s.wire, Unread(s)[1..], Written(s) - s.next - 1, s.shorts, s.dirty)
  {
    hide Honest, Accept, EncodeFrame, ParseFrame;
    var fs, w := Unread(s), Written(s) - s.next;
    FrontFrame(s.inbox, s.wire, fs, w, s.shorts);
    AcceptsOnlyTheNextMessage(s.side, s.log, s.salt, s.dir, s.sent, s.next, DATA_PAYLOAD, fs[0]);
  }

  /** A frame readable off a prefix of encoded frames is the first of them. */
  lemma FrontFrame(inbox: Bytes, wire: Bytes, fs: seq<Frame>, w: int, shorts: set<nat>)
    requires OnTheWire(inbox + wire, fs, w, shorts, false) && ParseFrame(inbox).result.Ok?
    ensures w > 0 && fs != [] && ParseFrame(inbox).result.value == fs[0]
    ensures OnTheWire(ParseFrame(inbox).rest + wire, fs[1..], w - 1, shorts, false)
  {
    hide EncodeFrame, ParseFrame;
    var gs, bytes := fs[..w], inbox + wire;
    var all := EncodeAll(gs);
    assert all == inbox + (wire + all[|bytes|..]);
    ParseIsStable(inbox, wire + all[|bytes|..]);
    ReadableIsNotEmpty(inbox);
    assert w > 0;
    ParseOfEncode(gs[0], EncodeAll(gs[1..]));
    assert gs[1..] == fs[1..][..w - 1];
    assert ParseFrame(inbox).rest + (wire + all[|bytes|..]) == ParseFrame(inbox).rest + wire + all[|bytes|..];
  }

  lemma ReadableIsNotEmpty(s: Bytes)
    requires ParseFrame(s).result.Ok?
    ensures s != []
  {
  }

  /** A partial arrival that cannot be read is waited for: it is never mistaken for an unknown frame. */
  lemma ArrivingIsNotUnknown(inbox: Bytes, wire: Bytes, fs: seq<Frame>, w: int, shorts: set<nat>)
    requires OnTheWire(inbox + wire, fs, w, shorts, false)
    ensures ParseFrame(inbox).result != Err(UnknownType)
  {
    hide EncodeAll, ParseFrame;
    assert inbox <= inbox + wire <= EncodeAll(fs[..w]);
    FrontOfPartialArrival(fs[..w], inbox);
  }

  /** The clear front is read frame by frame: nothing else can be read off it. */
  lemma FrontIsFirst(inbox: Bytes, wire: Bytes, fs: seq<Frame>, c: int)
    requires AllWritable(fs) && 0 < c <= |fs| && EncodeAll(fs[..c]) <= inbox + wire
    ensures var p := ParseFrame(inbox);
      p.result == Err(Truncated) || (p.result == Ok(fs[0]) && EncodeAll(fs[1..][..c - 1]) <= p.rest + wire)
    ensures wire == [] ==> ParseFrame(inbox).result == Ok(fs[0])
  {
    hide ParseFrame, EncodeFrame;
    var front, more := EncodeFrame(fs[0]), EncodeAll(fs[..c][1..]);
    assert EncodeAll(fs[..c]) == front + more && fs[..c][1..] == fs[1..][..c - 1];
    if |front| <= |inbox| {
      var rest := inbox[|front|..];
      assert inbox == (inbox + wire)[..|inbox|] && front == inbox[..|front|];
      ParseOfEncode(fs[0], rest);
      assert inbox == front + rest && inbox + wire == front + (rest + wire);
      assert (front + more)[|front|..] == more && (front + (rest + wire))[|front|..] == rest + wire;
      assert more == (rest + wire)[..|more|];
    } else {
      assert inbox == (inbox + wire)[..|inbox|] && inbox == front[..|inbox|];
      assert EncodeAll([fs[0]]) == front + EncodeAll([]);
      FrontOfPartialArrival([fs[0]], inbox);
      if ParseFrame(inbox).result.Ok? {
        EncodeOfParse(inbox);
      }
    }
  }

  /** What is left of the clear front once its first frame has been read. */
  lemma ReadKeepsClear(inbox: Bytes, wire: Bytes, fs: seq<Frame>, w: int, c: int, shorts: set<nat>, dirty: bool)
    requires ClearFront(inbox + wire, fs, w, c, shorts, dirty) && fs != []
    requires ParseFrame(inbox).result == Ok(fs[0])
    requires OnTheWire(inbox + wire, fs, w, shorts, dirty)
    ensures ClearFront(ParseFrame(inbox).rest + wire, fs[1..], w - 1, c - 1, shorts, dirty)
  {
    hide ParseFrame, EncodeFrame;
    var front, rest := EncodeFrame(fs[0]), ParseFrame(inbox).rest;
    EncodeOfParse(inbox);
    assert inbox + wire == front + (rest + wire);
    if c > 0 {
      FrontIsFirst(inbox, wire, fs, c);
      if !dirty && c < w {
        assert fs[..c + 1][1..] == fs[1..][..c];
        assert EncodeAll(fs[..c + 1]) == front + EncodeAll(fs[1..][..c]);
      }
    } else if !dirty {
      NotThereYet(inbox + wire, fs, w);
    }
  }

  lemma NotThereYet(bytes: Bytes, fs: seq<Frame>, w: int)
    requires AllWritable(fs) && fs != [] && 0 <= w <= |fs| && bytes <= EncodeAll(fs[..w])
    requires w > 0 ==> |bytes| < |EncodeAll(fs[..1])|
    ensures |bytes| < |EncodeFrame(fs[0])|
  {
    hide EncodeFrame;
    assert fs[..1] == [fs[0]];
    assert EncodeAll([fs[0]]) == EncodeFrame(fs[0]) + EncodeAll([]);
    assert fs[..0] == [];
  }

  /** One more payload received. */
  lemma AdvanceKeepsHandedOn(out: Bytes, payloads: seq<Bytes>, n: int)
    requires HandedOn(out, payloads, n) && n < |payloads|
    ensures HandedOn(out + payloads[n], payloads, n + 1)
  {
    hide Concat;
    assert payloads[..n + 1] == payloads[..n] + [payloads[n]];
    ConcatOfSnoc(payloads[..n], payloads[n]);
  }

  /** The read of an accepted frame, as a change of the state. */
  function Took(s: Pipe, rest: Bytes): Pipe
    requires s.next < |s.sent|
  {
    s.(inbox := rest, next := s.next + 1, buffer := s.sent[s.next].payload)
  }

  lemma TookMessages(s: Pipe, rest: Bytes)
    requires Shape(s) && s.next < |s.sent|
    ensures var t := Took(s, rest);
      Unread(s) != [] && Unread(t) == Unread(s)[1..] && Sealings(t) == Sealings(s) && Unsealed(t) == Unsealed(s)
    ensures s.next - s.base < |Sealings(s)| && Sealings(s)[s.next - s.base] == s.sent[s.next].payload
  {
    hide FrameOf;
  }

  lemma TookKeepsInv(s: Pipe, rest: Bytes)
    requires Inv(s) && s.next < |s.sent| && s.buffer == []
    requires s.dirty || OnTheWire(rest + s.wire, Unread(s)[1..], Written(s) - s.next - 1, s.shorts, s.dirty)
    requires ClearFront(rest + s.wire, Unread(s)[1..], Written(s) - s.next - 1, s.base + s.clear - s.next - 1,
                        s.shorts, s.dirty)
    ensures Inv(Took(s, rest))
  {
    hide Honest, DataFrames, CallByCall, Ledger, OnTheWire, ClearFront, FirstShort, HandedOn, FrameOf;
    hide Unread, Sealings;
    var t := Took(s, rest);
    TookMessages(s, rest);
    AdvanceKeepsHandedOn(s.delivered + s.buffer, Sealings(s), s.next - s.base);
    assert s.delivered + s.buffer + s.sent[s.next].payload == t.delivered + t.buffer;
    if s.dirty {
      DirtyWire(s.inbox + s.wire, Unread(s), Written(s) - s.next, s.shorts, rest + s.wire, Unread(t),
                Written(t) - t.next);
    }
  }

  /** Once dirty, the wire may hold anything. */
  lemma DirtyWire(bytes: Bytes, fs: seq<Frame>, w: int, shorts: set<nat>, bytes': Bytes, gs: seq<Frame>, v: int)
    requires OnTheWire(bytes, fs, w, shorts, true)
    requires gs == fs || (fs != [] && gs == fs[1..])
    ensures OnTheWire(bytes', gs, v, shorts, true)
  {
    hide EncodeAll;
  }

  /** What is next on a clear front is read and accepted, whatever was written after it. */
  lemma ClearIsAccepted(s: Pipe)
    requires Inv(s) && |s.log| < U64_SPAN && s.base + s.clear - s.next > 0
    ensures s.wire == [] ==> ParseFrame(s.inbox).result.Ok?
    ensures var p := ParseFrame(s.inbox).result;
      || p == Err(Truncated)
      || (p.Ok? && Accept(s.side, s.log, s.dir, s.next, DATA_PAYLOAD, p.value).result.Ok?)
  {
    hide Honest, CallByCall, Ledger, OnTheWire, FirstShort, HandedOn, Accept, ParseFrame, EncodeAll, FrameOf;
    var fs := Unread(s);
    FrontIsFirst(s.inbox, s.wire, fs, s.base + s.clear - s.next);
    AcceptsOnlyTheNextMessage(s.side, s.log, s.salt, s.dir, s.sent, s.next, DATA_PAYLOAD, fs[0]);
  }

  lemma FirstUnread(s: Pipe)
    requires Shape(s) && s.next < |s.sent|
    ensures Unread(s) != [] && Unread(s)[0] == FrameOf(s.sent[s.next], s.log[s.next])
  {
  }

  lemma CleanReadKeepsInv(s: Pipe)
    requires Inv(s) && |s.log| < U64_SPAN && !s.dirty
    ensures Inv(ReadStep(s))
    ensures ReadStep(s) == s || (s.next < |s.sent| && ReadStep(s) == Took(s, ParseFrame(s.inbox).rest))
  {
    hide Honest, DataFrames, CallByCall, Ledger, OnTheWire, ClearFront, FirstShort, HandedOn, FrameOf;
    hide Unread, Sealings, Accept, ParseFrame;
    ArrivingIsNotUnknown(s.inbox, s.wire, Unread(s), Written(s) - s.next, s.shorts);
    ParseErrors(s.inbox);
    if s.buffer == [] && ParseFrame(s.inbox).result.Ok? {
      ArrivedFrameIsAccepted(s);
      ReadKeepsClear(s.inbox, s.wire, Unread(s), Written(s) - s.next, s.base + s.clear - s.next, s.shorts, s.dirty);
      TookKeepsInv(s, ParseFrame(s.inbox).rest);
    }
  }

  lemma ParseErrors(s: Bytes)
    ensures ParseFrame(s).result.Err? ==>
      ParseFrame(s).result == Err(Truncated) || ParseFrame(s).result == Err(UnknownType)
  {
  }

  /** After that the gateway meets arbitrary bytes: it takes the next message or nothing. */
  lemma DirtyReadKeepsInv(s: Pipe)
    requires Inv(s) && |s.log| < U64_SPAN && s.dirty
    ensures Inv(ReadStep(s))
  {
    hide Honest, DataFrames, CallByCall, Ledger, OnTheWire, ClearFront, FirstShort, HandedOn, FrameOf;
    hide Unread, Sealings, Accept, ParseFrame;
    var p, c := ParseFrame(s.inbox), s.base + s.clear - s.next;
    if c > 0 {
      ClearIsAccepted(s);
    }
    if s.buffer == [] && p.result != Err(Truncated) {
      if p.result.Ok? {
        AcceptsOnlyTheNextMessage(s.side, s.log, s.salt, s.dir, s.sent, s.next, DATA_PAYLOAD, p.result.value);
      }
      if p.result.Ok? && Accept(s.side, s.log, s.dir, s.next, DATA_PAYLOAD, p.result.value).result.Ok? {
        FirstUnread(s);
        ReadKeepsClear(s.inbox, s.wire, Unread(s), Written(s) - s.next, c, s.shorts, s.dirty);
        TookKeepsInv(s, p.rest);
      } else {
        SkipKeepsInv(s, p.rest);
      }
    }
  }

  /** Behind the clear front the wire of a dirty pipe may hold anything. */
  lemma DirtyClear(bytes: Bytes, fs: seq<Frame>, w: int, c: int, shorts: set<nat>, bytes': Bytes)
    requires ClearFront(bytes, fs, w, c, shorts, true) && c <= 0
    ensures ClearFront(bytes', fs, w, c, shorts, true)
  {
  }

  lemma SkipKeepsInv(s: Pipe, rest: Bytes)
    requires Inv(s) && s.dirty && s.base + s.clear - s.next <= 0
    ensures Inv(s.(inbox := rest))
  {
    hide Honest, DataFrames, CallByCall, Ledger, OnTheWire, ClearFront, FirstShort, HandedOn, FrameOf;
    hide Unread, Sealings;
    var t := s.(inbox := rest);
    SameMessages(s, t);
    assert Unsealed(t) == Unsealed(s);
    DirtyWire(s.inbox + s.wire, Unread(s), Written(s) - s.next, s.shorts, rest + s.wire, Unread(s),
              Written(s) - s.next);
    DirtyClear(s.inbox + s.wire, Unread(s), Written(s) - s.next, s.base + s.clear - s.next, s.shorts, rest + s.wire);
  }

  lemma StepKeepsInv(s: Pipe, e: Event)
    requires Inv(s) && |s.log| < U64_SPAN
    ensures Inv(Step(s, e))
  {
    hide Inv;
    match e
    case Call(caller, data) => CallKeepsInv(s, caller, data);
    case Lock(caller) => LockKeepsInv(s, caller);
    case Seal(padding, filler, cipher) => SealKeepsInv(s, padding, filler, cipher);
    case Emit => EmitKeepsInv(s);
    case Fail(count) => FailKeepsInv(s, count);
    case Unlock => UnlockKeepsInv(s);
    case Arrive(count) => ArriveKeepsInv(s, count);
    case ReadOne =>
      if s.dirty {
        DirtyReadKeepsInv(s);
      } else {
        CleanReadKeepsInv(s);
      }
    case HandOn(count) => HandOnKeepsInv(s, count);
  }

  lemma LogGrows(s: Pipe, e: Event)
    ensures |s.log| <= |Step(s, e).log|
  {
    hide NonceAt, AadOfSequence, Wrap, Accept, ParseFrame, EncodeFrame;
  }

  lemma {:induction false} RunKeepsInv(s: Pipe, es: seq<Event>)
    requires Inv(s)
    requires |Run(s, es).log| < U64_SPAN
    ensures Inv(Run(s, es))
    decreases |es|
  {
    if es != [] {
      hide Inv, Step;
      var t, e := Run(s, es[..|es| - 1]), es[|es| - 1];
      LogGrows(t, e);
      RunKeepsInv(s, es[..|es| - 1]);
      StepKeepsInv(t, e);
    }
  }

  lemma OpeningKeepsInv(side: Side, salt: Salt, dir: Byte, log: seq<Sealed>, sent: seq<Msg>)
    requires Honest(log, salt, dir, sent)
    ensures Inv(JustOpened(side, salt, dir, log, sent))
  {
    hide Honest;
    HonestLengths(log, salt, dir, sent);
    var s := JustOpened(side, salt, dir, log, sent);
    assert Unread(s) == [] && Sealings(s) == [] && Lengths([]) == [];
  }

  lemma RunFromOpening(side: Side, salt: Salt, dir: Byte, log: seq<Sealed>, sent: seq<Msg>, es: seq<Event>)
    requires Honest(log, salt, dir, sent)
    requires |Run(JustOpened(side, salt, dir, log, sent), es).log| < U64_SPAN
    ensures Inv(Run(JustOpened(side, salt, dir, log, sent), es))
  {
    OpeningKeepsInv(side, salt, dir, log, sent);
    hide Inv, Run, Honest;
    RunKeepsInv(JustOpened(side, salt, dir, log, sent), es);
  }
}
