/** Byte streams over the channels: DataConn on the client, the two forwarding loops on the gateway. */
module Adapters {
  import opened Bytes
  import opened Frames
  import opened Envelope
  import opened Sealing
  import opened Channels
  import opened Chunking
  import opened Streams
  import opened FrameIO
  import opened Endpoints

  // ---------------------------------------------------------------- what writing chunks does

  function DataMsgs(chunks: seq<Bytes>): (ms: seq<Msg>)
    ensures |ms| == |chunks|
    ensures forall i :: 0 <= i < |ms| ==> ms[i] == Msg(DATA_PAYLOAD, chunks[i])
  {
    seq(|chunks|, i requires 0 <= i < |chunks| => Msg(DATA_PAYLOAD, chunks[i]))
  }

  ghost predicate Small(chunks: seq<Bytes>)
  {
    forall i :: 0 <= i < |chunks| ==> |chunks[i]| <= MAX_CHUNK
  }

  /** The length on the wire of the frames for some chunks. */
  function WireLength(chunks: seq<Bytes>, padding: bool): nat
    requires Small(chunks)
  {
    if chunks == [] then 0
    else WireLength(chunks[..|chunks| - 1], padding) + HEADER_SIZE + CipherLength(|chunks[|chunks| - 1]|, padding)
  }

  /** The send state of a channel and its connection. */
  datatype Sender = Sender(log: seq<Sealed>, sent: seq<Msg>, wire: Bytes)

  /** From state s to state t, exactly these chunks were sealed and written, as these frames. */
  ghost predicate Wrote(s: Sender, t: Sender, chunks: seq<Bytes>, frames: seq<Frame>, padding: bool)
  {
    && |frames| == |chunks| && AllWritable(frames) && Small(chunks)
    && |s.log| == |s.sent| && |t.log| == |s.log| + |chunks|
    && s.log <= t.log
    && t.sent == s.sent + DataMsgs(chunks)
    && (forall i :: 0 <= i < |frames| ==> frames[i] == FrameOf(t.sent[|s.log| + i], t.log[|s.log| + i]))
    && t.wire == s.wire + EncodeAll(frames)
    && |t.wire| == |s.wire| + WireLength(chunks, padding)
  }

  /** The same, and then one more chunk was sealed and handed to the writer, which failed on it. */
  ghost predicate WroteThenFailed(s: Sender, t: Sender, chunks: seq<Bytes>, frames: seq<Frame>, failed: Bytes,
                                  padding: bool)
  {
    exists mid: Sender ::
      && Wrote(s, mid, chunks, frames, padding)
      && Appended(mid.log, t.log, mid.sent, t.sent, Msg(DATA_PAYLOAD, failed), padding)
      && var f := FrameOf(Msg(DATA_PAYLOAD, failed), t.log[|t.log| - 1]);
        && Writable(f)
        && Transmitted(mid.wire, t.wire, f, false)
  }

  /** The chunks were padded each with its own filler: chunk i, sealed as entry at + i, with fillers(first + i). */
  ghost predicate Padded(log: seq<Sealed>, at: nat, chunks: seq<Bytes>, padding: bool, first: nat,
                         fillers: nat -> nat -> Byte)
  {
    && at + |chunks| <= |log|
    && forall i :: 0 <= i < |chunks| ==> Wrap(chunks[i], padding, fillers(first + i)) == Ok(log[at + i].plain)
  }

  lemma PaddedOneMore(log: seq<Sealed>, at: nat, chunks: seq<Bytes>, padding: bool, first: nat,
                      fillers: nat -> nat -> Byte, log': seq<Sealed>, chunk: Bytes)
    requires Padded(log, at, chunks, padding, first, fillers) && |log| == at + |chunks|
    requires log <= log' && |log'| == |log| + 1
    requires Wrap(chunk, padding, fillers(first + |chunks|)) == Ok(log'[|log|].plain)
    ensures Padded(log', at, chunks + [chunk], padding, first, fillers)
  {
    hide Wrap;
  }

  lemma PaddedTwice(log: seq<Sealed>, at: nat, a: seq<Bytes>, b: seq<Bytes>, padding: bool, first: nat,
                    fillers: nat -> nat -> Byte, log': seq<Sealed>)
    requires Padded(log, at, a, padding, first, fillers) && log <= log'
    requires Padded(log', at + |a|, b, padding, first + |a|, fillers)
    ensures Padded(log', at, a + b, padding, first, fillers)
  {
    hide Wrap;
    forall i | 0 <= i < |a + b| ensures Wrap((a + b)[i], padding, fillers(first + i)) == Ok(log'[at + i].plain) {
      if i >= |a| {
        var j := i - |a|;
        assert Wrap(b[j], padding, fillers(first + |a| + j)) == Ok(log'[at + |a| + j].plain);
      }
    }
  }

  lemma PaddedNothing(log: seq<Sealed>, padding: bool, first: nat, fillers: nat -> nat -> Byte)
    ensures Padded(log, |log|, [], padding, first, fillers)
  {
  }

  lemma WroteOneMore(s: Sender, mid: Sender, t: Sender, chunks: seq<Bytes>, frames: seq<Frame>, chunk: Bytes,
                     padding: bool)
      returns (f: Frame)
    requires Wrote(s, mid, chunks, frames, padding) && |chunk| <= MAX_CHUNK
    requires Appended(mid.log, t.log, mid.sent, t.sent, Msg(DATA_PAYLOAD, chunk), padding)
    requires Transmitted(mid.wire, t.wire, FrameOf(Msg(DATA_PAYLOAD, chunk), t.log[|t.log| - 1]), true)
    ensures Wrote(s, t, chunks + [chunk], frames + [f], padding)
  {
    hide EncodeFrame, EncodeAll, WireLength;
    f := FrameOf(Msg(DATA_PAYLOAD, chunk), t.log[|t.log| - 1]);
    EncodeAllOfSnoc(frames, f);
    WireLengthOfSnoc(chunks, chunk, padding);
    assert s.wire + (EncodeAll(frames) + EncodeFrame(f)) == s.wire + EncodeAll(frames) + EncodeFrame(f);
    assert DataMsgs(chunks + [chunk]) == DataMsgs(chunks) + [Msg(DATA_PAYLOAD, chunk)];
    assert t.sent == s.sent + (DataMsgs(chunks) + [Msg(DATA_PAYLOAD, chunk)]);
  }

  lemma WireLengthOfSnoc(chunks: seq<Bytes>, chunk: Bytes, padding: bool)
    requires Small(chunks) && |chunk| <= MAX_CHUNK
    ensures Small(chunks + [chunk])
    ensures WireLength(chunks + [chunk], padding) ==
      WireLength(chunks, padding) + HEADER_SIZE + CipherLength(|chunk|, padding)
  {
    assert (chunks + [chunk])[..|chunks|] == chunks;
  }

  /** Both sides of a channel as one value. */
  ghost function Snapshot(aead: Aead, sent: seq<Msg>, w: Writer): Sender
    reads aead, w
  {
    Sender(aead.log, sent, w.sent)
  }

  lemma SmallChunkWraps(chunk: Bytes, padding: bool, filler: nat -> Byte)
    requires |chunk| <= MAX_CHUNK
    ensures Wrap(chunk, padding, filler).Ok?
  {
    WrapDomain(chunk, padding, filler);
  }

  lemma DataIsWritable(chunk: Bytes, e: Sealed, padding: bool)
    requires |chunk| <= MAX_CHUNK && |e.cipher| == CipherLength(|chunk|, padding)
    ensures Writable(FrameOf(Msg(DATA_PAYLOAD, chunk), e))
  {
  }

  /** A data frame byte by byte. */
  lemma DataFrameBytes(chunk: Bytes, e: Sealed)
    requires |e.cipher| <= 65535
    ensures var f, n := FrameOf(Msg(DATA_PAYLOAD, chunk), e), |e.cipher|;
      Writable(f) && EncodeFrame(f) == [3, n / 256, n % 256] + e.nonce + e.cipher
  {
    FrameLayout(FrameOf(Msg(DATA_PAYLOAD, chunk), e));
  }

  lemma FailedOnNext(s: Sender, mid: Sender, t: Sender, chunks: seq<Bytes>, frames: seq<Frame>, chunk: Bytes,
                     padding: bool)
    requires Wrote(s, mid, chunks, frames, padding) && |chunk| <= MAX_CHUNK
    requires Appended(mid.log, t.log, mid.sent, t.sent, Msg(DATA_PAYLOAD, chunk), padding)
    requires Transmitted(mid.wire, t.wire, FrameOf(Msg(DATA_PAYLOAD, chunk), t.log[|t.log| - 1]), false)
    ensures WroteThenFailed(s, t, chunks, frames, chunk, padding)
  {
    hide Wrote, EncodeFrame;
    assert Writable(FrameOf(Msg(DATA_PAYLOAD, chunk), t.log[|t.log| - 1]));
  }

  /** The chunks done are the first total bytes of p, and chunking the remainder gives the others. */
  ghost predicate Progress(p: Bytes, total: nat, done: seq<Bytes>)
  {
    total <= |p| && Concat(done) == p[..total] && done + Chunks(p[total..]) == Chunks(p)
  }

  lemma ProgressByOne(p: Bytes, total: nat, done: seq<Bytes>)
    requires Progress(p, total, done) && total < |p|
    ensures var chunk := Chunk(p[total..]); Progress(p, total + |chunk|, done + [chunk])
  {
    hide Concat;
    var rest := p[total..];
    var chunk := Chunk(rest);
    assert Chunks(rest) == [chunk] + Chunks(rest[|chunk|..]);
    assert rest[|chunk|..] == p[total + |chunk|..];
    assert done + ([chunk] + Chunks(rest[|chunk|..])) == done + [chunk] + Chunks(rest[|chunk|..]);
    ConcatOfSnoc(done, chunk);
    assert p[..total] + chunk == p[..total + |chunk|];
  }

  lemma ProgressDone(p: Bytes, done: seq<Bytes>)
    requires Progress(p, |p|, done)
    ensures Concat(done) == p && done == Chunks(p)
  {
    hide Concat;
    assert Chunks(p[|p|..]) == [];
    assert p[..|p|] == p;
  }

  // ---------------------------------------------------------------- the client's DataConn

  class DataConn {
    const reader: Reader
    const writer: Writer
    const channel: DataChannel
    var readBuffer: Bytes

    ghost predicate Valid()
      reads this, reader, reader.conn, channel, channel.send, channel.nonces
    {
      reader.Valid() && channel.Valid()
    }

    constructor (reader: Reader, writer: Writer, channel: DataChannel)
      requires reader.Valid() && channel.Valid()
      ensures Valid() && this.reader == reader && this.writer == writer && this.channel == channel
      ensures readBuffer == []
    {
      this.reader, this.writer, this.channel, readBuffer := reader, writer, channel, [];
    }

    /**
      * Cuts p into chunks and writes a frame for each. On success all of p is framed. On a failure
      * midway the total is the length of the chunks whose frames were written, those are a prefix
      * of p, and just one more chunk was sealed: its frame was handed to the writer. fillers(i) is
      * what the i-th frame is padded with.
      */
    method Write(p: Bytes, fillers: nat -> nat -> Byte)
        returns (total: nat, r: Result<(), SendError>, ghost done: seq<Bytes>, ghost frames: seq<Frame>)
      requires Valid()
      modifies channel`sent, channel.send, channel.nonces, writer
      ensures Valid()
      ensures Progress(p, total, done)
      ensures r.Ok? ==> total == |p| && done == Chunks(p)
      ensures r.Ok? ==> Wrote(old(Snapshot(channel.send, channel.sent, writer)),
                              Snapshot(channel.send, channel.sent, writer), done, frames, channel.padding)
      ensures r.Err? ==> total < |p| && r.error.NotWritten?
      ensures r.Err? ==> WroteThenFailed(old(Snapshot(channel.send, channel.sent, writer)),
                              Snapshot(channel.send, channel.sent, writer),
                              done, frames, Chunk(p[total..]), channel.padding)
      ensures Padded(channel.send.log, |old(channel.send.log)|, if r.Ok? then done else done + [Chunk(p[total..])],
                     channel.padding, 0, fillers)
      ensures r.Ok? <==> writer.Sound()
      ensures writer.reliable ==> r.Ok?
    {
      hide Wrap, Honest, EncodeFrame, Wrote, WroteThenFailed, Progress, Transmitted, CipherLength, Padded;
      ghost var start := Snapshot(channel.send, channel.sent, writer);
      var rest, i := p, 0;
      total, done, frames := 0, [], [];
      NothingWritten(p, start, channel.padding, channel.nonces.salt, channel.sendDir);
      PaddedNothing(start.log, channel.padding, 0, fillers);
      while rest != []
        invariant channel.Valid() && reader.Valid()
        invariant total <= |p| && rest == p[total..]
        invariant Progress(p, total, done)
        invariant Wrote(start, Snapshot(channel.send, channel.sent, writer), done, frames, channel.padding)
        invariant i == |done| && |channel.send.log| == |start.log| + |done|
        invariant Padded(channel.send.log, |start.log|, done, channel.padding, 0, fillers)
        invariant writer.Sound()
        decreases |rest|
      {
        var chunk := rest;
        if |chunk| > MAX_CHUNK {
          chunk := rest[..MAX_CHUNK];
        }
        assert chunk == Chunk(rest);
        ghost var mid := Snapshot(channel.send, channel.sent, writer);
        SmallChunkWraps(chunk, channel.padding, fillers(i));
        r := channel.Send(writer, DATA_PAYLOAD, chunk, fillers(i));
        ghost var now := Snapshot(channel.send, channel.sent, writer);
        PaddedOneMore(mid.log, |start.log|, done, channel.padding, 0, fillers, now.log, chunk);
        DataIsWritable(chunk, now.log[|mid.log|], channel.padding);
        if r.Err? {
          FailedOnNext(start, mid, now, done, frames, chunk, channel.padding);
          return;
        }
        ghost var f := WroteOneMore(start, mid, now, done, frames, chunk, channel.padding);
        ProgressByOne(p, total, done);
        done, frames := done + [chunk], frames + [f];
        total, i := total + |chunk|, i + 1;
        rest := rest[|chunk|..];
      }
      ProgressDone(p, done);
      r := Ok(());
    }

    /**
      * Returns up to max bytes, reading frames only while nothing is left over. What was left over,
      * followed by the payloads read, is what is returned followed by what is left over now; those
      * payloads are what successive reads accept, and one frame was consumed for each. An error takes
      * none of them away, but the connection may have been read into a frame (partial): after a fault
      * that is the start of one, and the next read begins behind it.
      */
    method Read(max: nat)
        returns (data: Bytes, err: Option<ReceiveError>,
                 ghost payloads: seq<Bytes>, ghost frames: seq<Frame>, ghost partial: Bytes)
      requires Valid()
      modifies `readBuffer, channel`receiveSequence, reader, reader.conn
      ensures Valid() && |data| <= max
      ensures old(readBuffer) + Concat(payloads) == data + readBuffer
      ensures old(readBuffer) != [] ==> payloads == [] && err.None?
      ensures err.Some? ==> data == [] && readBuffer == []
      ensures err.None? ==> data == (old(readBuffer) + Concat(payloads))[..|data|] && (max > 0 ==> data != [])
      ensures err.None? ==> |data| == max || readBuffer == []
      ensures |frames| == |payloads| && AllWritable(frames)
      ensures old(reader.Stream()) == EncodeAll(frames) + partial + reader.Stream()
      ensures err.None? ==> partial == []
      ensures err == Some(Framing(Faulted)) ==> !reader.NoFault() && ParseFrame(partial).result == Err(Truncated)
      ensures err.Some? && err != Some(Framing(Faulted)) ==>
        && reader.Stream() == ParseFrame(partial + reader.Stream()).rest
        && Verdict(Err(err.value), channel.receiveSequence) ==
           FirstFailure(Client, channel.receive.log, channel.receiveDir,
                        old(channel.receiveSequence), DATA_PAYLOAD, old(reader.Stream()))
      ensures payloads <= AcceptedFrom(Client, channel.receive.log, channel.receiveDir,
                                       old(channel.receiveSequence), DATA_PAYLOAD, old(reader.Stream()))
      ensures err != Some(Framing(Faulted)) ==>
        AcceptedFrom(Client, channel.receive.log, channel.receiveDir,
                     old(channel.receiveSequence), DATA_PAYLOAD, old(reader.Stream())) ==
        payloads + if err.Some? then [] else
          AcceptedFrom(Client, channel.receive.log, channel.receiveDir,
                       channel.receiveSequence, DATA_PAYLOAD, reader.Stream())
    {
      hide Honest, ParseFrame, Channels.Receive, AcceptedFrom, FirstFailure, Concat, EncodeFrame, EncodeAll;
      payloads, frames, partial := [], [], [];
      assert Concat<Byte>([]) == [] by { ConcatOfNothing(); }
      NothingParses();
      ghost var log, dir, whole := channel.receive.log, channel.receiveDir, reader.Stream();
      ghost var all := AcceptedFrom(Client, log, dir, channel.receiveSequence, DATA_PAYLOAD, whole);
      ghost var first := FirstFailure(Client, log, dir, channel.receiveSequence, DATA_PAYLOAD, whole);
      while readBuffer == []
        invariant Valid()
        invariant old(readBuffer) + Concat(payloads) == readBuffer
        invariant old(readBuffer) != [] ==> payloads == []
        invariant channel.receive.log == log
        invariant all == payloads + AcceptedFrom(Client, log, dir, channel.receiveSequence, DATA_PAYLOAD,
                                                 reader.Stream())
        invariant first == FirstFailure(Client, log, dir, channel.receiveSequence, DATA_PAYLOAD, reader.Stream())
        invariant |frames| == |payloads| && AllWritable(frames) && whole == EncodeAll(frames) + reader.Stream()
        invariant old(reader.Faults()) <= reader.Faults()
        decreases |reader.Stream()|, readBuffer == []
      {
        ghost var before, stream := channel.receiveSequence, reader.Stream();
        var res;
        ghost var consumed;
        res, consumed := channel.Receive(reader, DATA_PAYLOAD);
        if res.Err? {
          if res.error != Framing(Faulted) {
            AcceptedEnds(Client, log, dir, before, DATA_PAYLOAD, stream);
          }
          assert all == payloads + AcceptedFrom(Client, log, dir, before, DATA_PAYLOAD, stream);
          assert EncodeAll(frames) + consumed + reader.Stream() == EncodeAll(frames) + stream;
          return [], Some(res.error), payloads, frames, consumed;
        }
        AcceptedUnfolds(Client, log, dir, before, DATA_PAYLOAD, stream);
        ConcatOfSnoc(payloads, res.value);
        frames := AnotherFrame(frames, stream);
        payloads := payloads + [res.value];
        readBuffer := res.value;
      }
      var n := if max < |readBuffer| then max else |readBuffer|;
      data, readBuffer, err := readBuffer[..n], readBuffer[n..], None;
      assert EncodeAll(frames) + [] == EncodeAll(frames);
    }
  }

  /** One more frame read off a stream. */
  lemma AnotherFrame(frames: seq<Frame>, stream: Bytes) returns (longer: seq<Frame>)
    requires AllWritable(frames) && ParseFrame(stream).result.Ok?
    ensures |longer| == |frames| + 1 && AllWritable(longer)
    ensures EncodeAll(frames) + stream == EncodeAll(longer) + ParseFrame(stream).rest
  {
    hide ParseFrame, EncodeFrame, EncodeAll;
    EncodeOfParse(stream);
    var f := ParseFrame(stream).result.value;
    longer := frames + [f];
    EncodeAllOfSnoc(frames, f);
    assert EncodeAll(frames) + (EncodeFrame(f) + ParseFrame(stream).rest) ==
      EncodeAll(longer) + ParseFrame(stream).rest;
  }

  lemma ConcatOfNothing()
    ensures Concat<Byte>([]) == []
  {
  }

  lemma AcceptedEnds(side: Side, log: seq<Sealed>, dir: Byte, received: nat, typ: Byte, s: Bytes)
    requires Channels.Receive(side, log, dir, received, typ, s).result.Err?
    ensures AcceptedFrom(side, log, dir, received, typ, s) == []
    ensures FirstFailure(side, log, dir, received, typ, s) == Channels.Receive(side, log, dir, received, typ, s)
  {
  }

  lemma AcceptedUnfolds(side: Side, log: seq<Sealed>, dir: Byte, received: nat, typ: Byte, s: Bytes)
    requires Channels.Receive(side, log, dir, received, typ, s).result.Ok?
    ensures ParseFrame(s).result.Ok?
    ensures var v := Channels.Receive(side, log, dir, received, typ, s);
      && AcceptedFrom(side, log, dir, received, typ, s) ==
         [v.result.value] + AcceptedFrom(side, log, dir, v.next, typ, ParseFrame(s).rest)
      && FirstFailure(side, log, dir, received, typ, s) ==
         FirstFailure(side, log, dir, v.next, typ, ParseFrame(s).rest)
  {
  }

  // ---------------------------------------------------------------- the gateway's two loops

  /**
    * The inner loop of forwardDestinationToTunnel: as many frames as the data needs. first is how many
    * frames the loop has padded before, count how many it has now.
    */
  method WriteChunks(channel: TunnelChannel, tunnel: Writer, data: Bytes, first: nat, fillers: nat -> nat -> Byte)
      returns (r: Result<(), SendError>, count: nat,
               ghost total: nat, ghost done: seq<Bytes>, ghost frames: seq<Frame>)
    requires channel.Valid()
    modifies channel`sent, channel.send, channel.nonces, tunnel
    ensures channel.Valid()
    ensures Progress(data, total, done)
    ensures r.Ok? ==> total == |data| && done == Chunks(data)
    ensures r.Ok? ==> Wrote(old(Snapshot(channel.send, channel.sent, tunnel)),
                            Snapshot(channel.send, channel.sent, tunnel), done, frames, channel.padding)
    ensures r.Err? ==> total < |data| && r.error.NotWritten?
    ensures r.Err? ==> WroteThenFailed(old(Snapshot(channel.send, channel.sent, tunnel)),
                            Snapshot(channel.send, channel.sent, tunnel),
                            done, frames, Chunk(data[total..]), channel.padding)
    ensures Padded(channel.send.log, |old(channel.send.log)|, if r.Ok? then done else done + [Chunk(data[total..])],
                   channel.padding, first, fillers)
    ensures count == first + |done| && old(channel.send.log) <= channel.send.log
    ensures |channel.send.log| == |old(channel.send.log)| + |done| + if r.Ok? then 0 else 1
    ensures r.Ok? <==> tunnel.Sound()
    ensures tunnel.reliable ==> r.Ok?
  {
    hide Wrap, Honest, EncodeFrame, Wrote, WroteThenFailed, Progress, Transmitted, CipherLength, Padded;
    var max := BLOCK_SIZES[|BLOCK_SIZES| - 1] - OVERHEAD - 2;
    ghost var start := Snapshot(channel.send, channel.sent, tunnel);
    var rest := data;
    count := first;
    total, done, frames := 0, [], [];
    NothingWritten(data, start, channel.padding, channel.nonces.salt, SERVER_TO_CLIENT);
    PaddedNothing(start.log, channel.padding, first, fillers);
    while rest != []
      invariant channel.Valid()
      invariant total <= |data| && rest == data[total..]
      invariant Progress(data, total, done)
      invariant Wrote(start, Snapshot(channel.send, channel.sent, tunnel), done, frames, channel.padding)
      invariant count == first + |done| && |channel.send.log| == |start.log| + |done|
      invariant start.log <= channel.send.log
      invariant Padded(channel.send.log, |start.log|, done, channel.padding, first, fillers)
      invariant tunnel.Sound()
      decreases |rest|
    {
      var size := |rest|;
      if size > max {
        size := max;
      }
      var chunk := rest[..size];
      assert chunk == Chunk(rest);
      ghost var mid := Snapshot(channel.send, channel.sent, tunnel);
      SmallChunkWraps(chunk, channel.padding, fillers(count));
      r := channel.Write(tunnel, DATA_PAYLOAD, chunk, fillers(count));
      ghost var now := Snapshot(channel.send, channel.sent, tunnel);
      PaddedOneMore(mid.log, |start.log|, done, channel.padding, first, fillers, now.log, chunk);
      DataIsWritable(chunk, now.log[|mid.log|], channel.padding);
      if r.Err? {
        FailedOnNext(start, mid, now, done, frames, chunk, channel.padding);
        return;
      }
      ghost var f := WroteOneMore(start, mid, now, done, frames, chunk, channel.padding);
      ProgressByOne(data, total, done);
      done, frames := done + [chunk], frames + [f];
      total, count := total + size, count + 1;
      rest := rest[size..];
    }
    ProgressDone(data, done);
    r := Ok(());
  }

  datatype ForwardError = SendFailed(sendError: SendError) | SourceFailed

  /** One turn of forwardDestinationToTunnel: a read, and a frame for every chunk of what it gave. */
  method ForwardRead(destination: Reader, tunnel: Writer, channel: TunnelChannel, first: nat,
                     fillers: nat -> nat -> Byte)
      returns (st: Status, w: Result<(), SendError>, count: nat, ghost data: Bytes, ghost total: nat,
               ghost done: seq<Bytes>, ghost more: seq<Frame>)
    requires destination.Valid() && channel.Valid()
    modifies destination, destination.conn, channel`sent, channel.send, channel.nonces, tunnel
    ensures destination.Valid() && channel.Valid()
    ensures old(destination.Stream()) == data + destination.Stream() && |data| <= 32 * 1024
    ensures old(destination.Faults()) <= destination.Faults()
    ensures destination.conn.stalls <= old(destination.conn.stalls)
    ensures st == Eof ==> destination.Stream() == []
    ensures st == Fault <==> !destination.NoFault()
    ensures data == [] && st == Fine ==> destination.conn.stalls < old(destination.conn.stalls)
    ensures w.Ok? <==> tunnel.Sound()
    ensures tunnel.reliable ==> w.Ok?
    ensures Progress(data, total, done)
    ensures w.Ok? ==> done == Chunks(data)
    ensures w.Ok? ==> Wrote(old(Snapshot(channel.send, channel.sent, tunnel)),
                            Snapshot(channel.send, channel.sent, tunnel), done, more, channel.padding)
    ensures w.Err? ==> total < |data|
    ensures w.Err? ==> WroteThenFailed(old(Snapshot(channel.send, channel.sent, tunnel)),
                            Snapshot(channel.send, channel.sent, tunnel),
                            done, more, Chunk(data[total..]), channel.padding)
    ensures Padded(channel.send.log, |old(channel.send.log)|, if w.Ok? then done else done + [Chunk(data[total..])],
                   channel.padding, first, fillers)
    ensures count == first + |done| && old(channel.send.log) <= channel.send.log
    ensures |channel.send.log| == |old(channel.send.log)| + |done| + if w.Ok? then 0 else 1
  {
    hide Honest, Wrote, WroteThenFailed, Progress, Padded, Chunk;
    var piece;
    piece, st := destination.Read(RELAY_BUFFER);
    data := piece;
    w, count, total, done, more := WriteChunks(channel, tunnel, piece, first, fillers);
  }

  /** The reads so far are framed, each chunk with its own filler, and count says how many frames that took. */
  ghost predicate Forwarded(start: Sender, now: Sender, pieces: seq<Bytes>, frames: seq<Frame>, padding: bool,
                            count: nat, fillers: nat -> nat -> Byte)
  {
    && Wrote(start, now, AllChunks(pieces), frames, padding)
    && Padded(now.log, |start.log|, AllChunks(pieces), padding, 0, fillers)
    && count == |AllChunks(pieces)| && |now.log| == |start.log| + count
    && forall i :: 0 <= i < |pieces| ==> 0 < |pieces[i]| <= 32 * 1024
  }

  lemma ForwardedNothing(s: Sender, padding: bool, salt: Salt, fillers: nat -> nat -> Byte)
    requires Honest(s.log, salt, SERVER_TO_CLIENT, s.sent)
    ensures Forwarded(s, s, [], [], padding, 0, fillers)
  {
    hide Honest, Wrote, Padded;
    NothingWritten([], s, padding, salt, SERVER_TO_CLIENT);
    PaddedNothing(s.log, padding, 0, fillers);
    assert AllChunks([]) == [];
  }

  lemma ForwardedOneMore(start: Sender, mid: Sender, now: Sender, pieces: seq<Bytes>, data: Bytes, frames: seq<Frame>,
                         more: seq<Frame>, padding: bool, count: nat, fillers: nat -> nat -> Byte)
    requires Forwarded(start, mid, pieces, frames, padding, count, fillers) && |data| <= 32 * 1024
    requires Wrote(mid, now, Chunks(data), more, padding) && mid.log <= now.log
    requires Padded(now.log, |mid.log|, Chunks(data), padding, count, fillers)
    requires |now.log| == |mid.log| + |Chunks(data)|
    ensures data != [] ==>
      Forwarded(start, now, pieces + [data], frames + more, padding, count + |Chunks(data)|, fillers)
    ensures data == [] ==> Forwarded(start, now, pieces, frames + more, padding, count + |Chunks(data)|, fillers)
  {
    hide Wrote, Padded, AllChunks, Chunks;
    WroteTwice(start, mid, now, AllChunks(pieces), Chunks(data), frames, more, padding);
    PaddedTwice(mid.log, |start.log|, AllChunks(pieces), Chunks(data), padding, 0, fillers, now.log);
    if data == [] {
      NoChunks();
      assert AllChunks(pieces) + [] == AllChunks(pieces);
    } else {
      AllChunksOfSnoc(pieces, data);
    }
  }

  lemma NoChunks()
    ensures Chunks([]) == []
  {
  }

  /**
    * forwardDestinationToTunnel. Every read of the destination is framed before the next; a nil
    * result means that every byte up to the end of the stream was. The framed payloads are the
    * chunks of the reads, one read after the other, and concatenate to what was read. When a send
    * fails, everything read before was framed; of the last read, so were its first `total` bytes, and
    * one more chunk was sealed and handed to the writer. It fails if and only if the destination's
    * reads or the tunnel's writes do. fillers(i) pads its i-th frame.
    */
  method ForwardDestinationToTunnel(destination: Reader, tunnel: Writer, channel: TunnelChannel,
                                    fillers: nat -> nat -> Byte)
      returns (r: Result<(), ForwardError>, ghost pieces: seq<Bytes>, ghost frames: seq<Frame>,
               ghost last: Bytes, ghost total: nat, ghost done: seq<Bytes>)
    requires destination.Valid() && channel.Valid()
    modifies destination, destination.conn, channel`sent, channel.send, channel.nonces, tunnel
    ensures destination.Valid() && channel.Valid()
    ensures old(destination.Stream()) == Concat(pieces) + last + destination.Stream()
    ensures forall i :: 0 <= i < |pieces| ==> 0 < |pieces[i]| <= 32 * 1024
    ensures r.Ok? ==> Concat(pieces) == old(destination.Stream())
    ensures r.Ok? || r.error.SourceFailed? ==>
      && last == []
      && Wrote(old(Snapshot(channel.send, channel.sent, tunnel)),
               Snapshot(channel.send, channel.sent, tunnel), AllChunks(pieces), frames, channel.padding)
      && Padded(channel.send.log, |old(channel.send.log)|, AllChunks(pieces), channel.padding, 0, fillers)
    ensures r.Err? && r.error.SendFailed? ==>
      && Progress(last, total, done) && total < |last| <= 32 * 1024
      && WroteThenFailed(old(Snapshot(channel.send, channel.sent, tunnel)),
                         Snapshot(channel.send, channel.sent, tunnel), AllChunks(pieces) + done, frames,
                         Chunk(last[total..]), channel.padding)
      && Padded(channel.send.log, |old(channel.send.log)|, AllChunks(pieces) + (done + [Chunk(last[total..])]),
                channel.padding, 0, fillers)
    ensures r.Err? && r.error.SendFailed? <==> !tunnel.Sound()
    ensures r == Err(SourceFailed) <==> tunnel.Sound() && !destination.NoFault()
    ensures tunnel.reliable ==> r.Ok? || r.error.SourceFailed?
  {
    hide Honest, Wrote, WroteThenFailed, Progress, Concat, Chunks, AllChunks, Padded, Chunk, Forwarded;
    ghost var start := Snapshot(channel.send, channel.sent, tunnel);
    pieces, frames, last, total, done := [], [], [], 0, [];
    var st, count := Fine, 0;
    assert Concat<Byte>([]) == [] by { ConcatOfNothing(); }
    ForwardedNothing(start, channel.padding, channel.nonces.salt, fillers);
    while st == Fine
      invariant destination.Valid() && channel.Valid()
      invariant Concat(pieces) + destination.Stream() == old(destination.Stream())
      invariant Forwarded(start, Snapshot(channel.send, channel.sent, tunnel), pieces, frames, channel.padding, count,
                          fillers)
      invariant tunnel.Sound() && old(destination.Faults()) <= destination.Faults()
      invariant st == Fault <==> !destination.NoFault()
      invariant st == Eof ==> destination.Stream() == []
      decreases |destination.Stream()| + destination.conn.stalls, st == Fine
    {
      ghost var mid := Snapshot(channel.send, channel.sent, tunnel);
      ForwardedTells(start, mid, pieces, frames, channel.padding, count, fillers);
      ghost var data, more, sentBytes, sentChunks;
      var w, framed;
      st, w, framed, data, sentBytes, sentChunks, more := ForwardRead(destination, tunnel, channel, count, fillers);
      ghost var soFar, now := Concat(pieces), Snapshot(channel.send, channel.sent, tunnel);
      assert soFar + (data + destination.Stream()) == soFar + data + destination.Stream();
      if w.Err? {
        ForwardFails(start, mid, now, pieces, sentChunks, frames, more, Chunk(data[sentBytes..]), channel.padding,
                     count, fillers);
        return Err(SendFailed(w.error)), pieces, frames + more, data, sentBytes, sentChunks;
      }
      ForwardedOneMore(start, mid, now, pieces, data, frames, more, channel.padding, count, fillers);
      ConcatOfSnoc(pieces, data);
      frames, count := frames + more, framed;
      if data != [] {
        pieces := pieces + [data];
      } else {
        assert soFar + [] == soFar;
      }
    }
    assert Concat(pieces) + [] == Concat(pieces);
    ForwardedTells(start, Snapshot(channel.send, channel.sent, tunnel), pieces, frames, channel.padding, count,
                   fillers);
    r := if st == Eof then Ok(()) else Err(SourceFailed);
  }

  lemma ForwardedTells(start: Sender, now: Sender, pieces: seq<Bytes>, frames: seq<Frame>, padding: bool, count: nat,
                       fillers: nat -> nat -> Byte)
    requires Forwarded(start, now, pieces, frames, padding, count, fillers)
    ensures Wrote(start, now, AllChunks(pieces), frames, padding)
    ensures Padded(now.log, |start.log|, AllChunks(pieces), padding, 0, fillers)
    ensures forall i :: 0 <= i < |pieces| ==> 0 < |pieces[i]| <= 32 * 1024
  {
    hide Wrote, Padded, AllChunks;
  }

  lemma ForwardFails(start: Sender, mid: Sender, now: Sender, pieces: seq<Bytes>, done: seq<Bytes>, frames: seq<Frame>,
                     more: seq<Frame>, failed: Bytes, padding: bool, count: nat, fillers: nat -> nat -> Byte)
    requires Forwarded(start, mid, pieces, frames, padding, count, fillers) && mid.log <= now.log
    requires WroteThenFailed(mid, now, done, more, failed, padding)
    requires Padded(now.log, |mid.log|, done + [failed], padding, count, fillers)
    ensures WroteThenFailed(start, now, AllChunks(pieces) + done, frames + more, failed, padding)
    ensures Padded(now.log, |start.log|, AllChunks(pieces) + (done + [failed]), padding, 0, fillers)
  {
    hide Wrote, WroteThenFailed, Padded, AllChunks;
    WroteThenFailedAfter(start, mid, now, AllChunks(pieces), done, frames, more, failed, padding);
    PaddedTwice(mid.log, |start.log|, AllChunks(pieces), done + [failed], padding, 0, fillers, now.log);
  }


  lemma {:induction false} WireLengthOfSum(a: seq<Bytes>, b: seq<Bytes>, padding: bool)
    requires Small(a) && Small(b)
    ensures Small(a + b) && WireLength(a + b, padding) == WireLength(a, padding) + WireLength(b, padding)
    decreases |b|
  {
    if b == [] {
      assert a + b == a;
    } else {
      WireLengthOfSum(a, b[..|b| - 1], padding);
      assert (a + b)[..|a + b| - 1] == a + b[..|b| - 1];
    }
  }

  lemma {:induction false} AllChunksOfSnoc(pieces: seq<Bytes>, data: Bytes)
    ensures AllChunks(pieces + [data]) == AllChunks(pieces) + Chunks(data)
  {
    assert (pieces + [data])[..|pieces|] == pieces;
  }

  /** Writing some chunks and then some more is writing all of them. */
  lemma WroteTwice(s: Sender, mid: Sender, t: Sender, a: seq<Bytes>, b: seq<Bytes>,
                   frames: seq<Frame>, more: seq<Frame>, padding: bool)
    requires Wrote(s, mid, a, frames, padding)
    requires Wrote(mid, t, b, more, padding)
    ensures Wrote(s, t, a + b, frames + more, padding)
  {
    hide EncodeAll, EncodeFrame, WireLength, FrameOf;
    WireLengthOfSum(a, b, padding);
    EncodeAllOfSum(frames, more);
    assert DataMsgs(a + b) == DataMsgs(a) + DataMsgs(b);
    assert t.sent == s.sent + (DataMsgs(a) + DataMsgs(b));
    assert s.wire + EncodeAll(frames) + EncodeAll(more) == s.wire + (EncodeAll(frames) + EncodeAll(more));
    forall i | 0 <= i < |frames + more|
      ensures (frames + more)[i] == FrameOf(t.sent[|s.log| + i], t.log[|s.log| + i])
    {
      if i < |frames| {
        assert frames[i] == FrameOf(mid.sent[|s.log| + i], mid.log[|s.log| + i]);
      } else {
        assert more[i - |frames|] == FrameOf(t.sent[|mid.log| + (i - |frames|)], t.log[|mid.log| + (i - |frames|)]);
      }
    }
  }

  /** Writing some chunks and then some more up to a failure is writing all of them up to that failure. */
  lemma WroteThenFailedAfter(s: Sender, mid: Sender, t: Sender, a: seq<Bytes>, b: seq<Bytes>,
                             frames: seq<Frame>, more: seq<Frame>, failed: Bytes, padding: bool)
    requires Wrote(s, mid, a, frames, padding)
    requires WroteThenFailed(mid, t, b, more, failed, padding)
    ensures WroteThenFailed(s, t, a + b, frames + more, failed, padding)
  {
    hide Wrote, Transmitted, EncodeFrame, FrameOf, CipherLength;
    var last: Sender :|
      && Wrote(mid, last, b, more, padding)
      && Appended(last.log, t.log, last.sent, t.sent, Msg(DATA_PAYLOAD, failed), padding)
      && var f := FrameOf(Msg(DATA_PAYLOAD, failed), t.log[|t.log| - 1]);
        Writable(f) && Transmitted(last.wire, t.wire, f, false);
    WroteTwice(s, mid, last, a, b, frames, more, padding);
  }


  datatype StopReason = ReadStopped(receiveError: ReceiveError) | WriteStopped(copyError: CopyError)

  /**
    * forwardTunnelToDestination. It delivers the payloads its reads accept, in order and in full;
    * the last one may be cut short only if the destination refused to take it.
    */
  method ForwardTunnelToDestination(tunnel: Reader, destination: Writer, channel: TunnelChannel)
      returns (stop: StopReason, ghost payloads: seq<Bytes>)
    requires tunnel.Valid() && channel.Valid()
    modifies tunnel, tunnel.conn, destination, channel`received
    ensures tunnel.Valid() && channel.Valid()
    ensures payloads <= AcceptedFrom(Gateway, channel.receive.log, CLIENT_TO_SERVER, old(channel.received),
                                     DATA_PAYLOAD, old(tunnel.Stream()))
    ensures stop.ReadStopped? ==> destination.sent == old(destination.sent) + Concat(payloads)
    ensures stop.ReadStopped? && stop.receiveError != Framing(Faulted) ==>
      payloads == AcceptedFrom(Gateway, channel.receive.log, CLIENT_TO_SERVER, old(channel.received), DATA_PAYLOAD,
                               old(tunnel.Stream()))
    ensures stop.WriteStopped? ==> payloads != []
    ensures stop.WriteStopped? ==>
      && old(destination.sent) + Concat(payloads[..|payloads| - 1]) <= destination.sent
      && destination.sent <= old(destination.sent) + Concat(payloads)
    ensures stop.ReadStopped? && stop.receiveError != Framing(Faulted) ==>
      Verdict(Err(stop.receiveError), channel.received) ==
      FirstFailure(Gateway, channel.receive.log, CLIENT_TO_SERVER, old(channel.received), DATA_PAYLOAD,
                   old(tunnel.Stream()))
    ensures stop == ReadStopped(Framing(Faulted)) ==> !tunnel.NoFault()
    ensures destination.failed == old(destination.failed) + if stop == WriteStopped(WriteFailed) then 1 else 0
    ensures destination.empty == old(destination.empty) + if stop == WriteStopped(NoProgress) then 1 else 0
    ensures stop.WriteStopped? ==> stop.copyError == WriteFailed || stop.copyError == NoProgress
    ensures destination.reliable ==> stop.ReadStopped?
  {
    hide Honest, ParseFrame, Channels.Receive, AcceptedFrom, FirstFailure, Concat;
    payloads := [];
    assert Concat<Byte>([]) == [] by { ConcatOfNothing(); }
    ghost var log := channel.receive.log;
    ghost var all := AcceptedFrom(Gateway, log, CLIENT_TO_SERVER, channel.received, DATA_PAYLOAD, tunnel.Stream());
    ghost var first := FirstFailure(Gateway, log, CLIENT_TO_SERVER, channel.received, DATA_PAYLOAD, tunnel.Stream());
    while true
      invariant tunnel.Valid() && channel.Valid()
      invariant channel.receive.log == log
      invariant destination.sent == old(destination.sent) + Concat(payloads)
      invariant destination.failed == old(destination.failed) && destination.empty == old(destination.empty)
      invariant old(tunnel.Faults()) <= tunnel.Faults()
      invariant first == FirstFailure(Gateway, log, CLIENT_TO_SERVER, channel.received, DATA_PAYLOAD, tunnel.Stream())
      invariant all == payloads + AcceptedFrom(Gateway, log, CLIENT_TO_SERVER, channel.received, DATA_PAYLOAD,
                                               tunnel.Stream())
      decreases |tunnel.Stream()|
    {
      ghost var before, stream := channel.received, tunnel.Stream();
      var res;
      ghost var consumed;
      res, consumed := channel.Read(tunnel, DATA_PAYLOAD);
      if res.Err? {
        if res.error != Framing(Faulted) {
          AcceptedEnds(Gateway, log, CLIENT_TO_SERVER, before, DATA_PAYLOAD, stream);
        }
        return ReadStopped(res.error), payloads;
      }
      AcceptedUnfolds(Gateway, log, CLIENT_TO_SERVER, before, DATA_PAYLOAD, stream);
      ghost var done := payloads;
      payloads := done + [res.value];
      ConcatOfSnoc(done, res.value);
      assert payloads[..|payloads| - 1] == done;
      assert all == payloads + AcceptedFrom(Gateway, log, CLIENT_TO_SERVER, channel.received, DATA_PAYLOAD,
                                            tunnel.Stream());
      var w := WriteAll(destination, res.value);
      assert old(destination.sent) + Concat(done) + res.value == old(destination.sent) + (Concat(done) + res.value);
      if w.Err? {
        return WriteStopped(w.error), payloads;
      }
    }
  }

  lemma NothingWritten(p: Bytes, s: Sender, padding: bool, salt: Salt, dir: Byte)
    requires Honest(s.log, salt, dir, s.sent)
    ensures Progress(p, 0, []) && Wrote(s, s, [], [], padding)
  {
    assert |s.log| == |s.sent|;
    hide Honest;
    assert [] + Chunks(p[0..]) == Chunks(p) && p[0..] == p;
    assert DataMsgs([]) == [];
  }

  // ---------------------------------------------------------------- what the writes mean to the other side

  /**
    * What Write reported as written decodes to exactly that. Whatever else was sealed since and
    * whatever bytes follow on the wire (the torn frame of a failed write, later frames, garbage),
    * a receiver waiting for the first of the frames gets the chunks, in order.
    */
  lemma CompleteFramesDecode(side: Side, s: Sender, t: Sender, chunks: seq<Bytes>, frames: seq<Frame>, padding: bool,
                             log: seq<Sealed>, salt: Salt, dir: Byte, sent: seq<Msg>, more: Bytes)
    requires Wrote(s, t, chunks, frames, padding)
    requires t.log <= log && t.sent <= sent && Honest(log, salt, dir, sent) && |log| < U64_SPAN
    ensures chunks <= AcceptedFrom(side, log, dir, |s.log|, DATA_PAYLOAD, EncodeAll(frames) + more)
    ensures more == [] ==> chunks == AcceptedFrom(side, log, dir, |s.log|, DATA_PAYLOAD, EncodeAll(frames))
  {
    hide Honest, AcceptedFrom, EncodeAll, FramesFrom, PayloadsFrom, Wrote;
    HonestLengths(log, salt, dir, sent);
    WroteGivesFrames(s, t, chunks, frames, padding, log, sent);
    FramesFromBounds(sent, log, |s.log|, DATA_PAYLOAD, frames);
    AcceptedOfOwnFrames(side, log, salt, dir, sent, |s.log|, DATA_PAYLOAD, frames, more);
    WroteGivesPayloads(s, t, chunks, frames, padding, sent,
                       AcceptedFrom(side, log, dir, |s.log|, DATA_PAYLOAD, EncodeAll(frames) + more));
    assert EncodeAll(frames) + [] == EncodeAll(frames);
  }

  lemma WroteGivesPayloads(s: Sender, t: Sender, chunks: seq<Bytes>, frames: seq<Frame>, padding: bool,
                           sent: seq<Msg>, ps: seq<Bytes>)
    requires Wrote(s, t, chunks, frames, padding) && t.sent <= sent
    requires PayloadsFrom(sent, |s.log|, DATA_PAYLOAD, ps) && |ps| >= |frames|
    ensures chunks <= ps && (|ps| == |frames| ==> chunks == ps)
  {
    hide EncodeAll, WireLength, AllWritable;
    forall i | 0 <= i < |chunks| ensures ps[i] == chunks[i] {
      assert sent[|s.log| + i] == Msg(DATA_PAYLOAD, ps[i]);
      assert t.sent[|s.log| + i] == DataMsgs(chunks)[i];
    }
  }

  /**
    * Whatever bytes the tunnel delivers, torn, reordered, repeated or forged, what a receiver at
    * message k makes of them is a prefix of the chunks sealed from message k on.
    */
  lemma ReceivedIsPrefixOfSealed(side: Side, log: seq<Sealed>, salt: Salt, dir: Byte, sent: seq<Msg>, k: nat,
                                 chunks: seq<Bytes>, wire: Bytes)
    requires Honest(log, salt, dir, sent) && |log| < U64_SPAN
    requires k <= |sent| && sent[k..] == DataMsgs(chunks)
    ensures AcceptedFrom(side, log, dir, k, DATA_PAYLOAD, wire) <= chunks
    ensures Concat(AcceptedFrom(side, log, dir, k, DATA_PAYLOAD, wire)) <= Concat(chunks)
  {
    hide Honest, AcceptedFrom, Concat;
    HonestLengths(log, salt, dir, sent);
    AcceptedAreNextMessages(side, log, salt, dir, sent, k, DATA_PAYLOAD, wire);
    var ps := AcceptedFrom(side, log, dir, k, DATA_PAYLOAD, wire);
    forall i | 0 <= i < |ps| ensures ps[i] == chunks[i] {
      assert sent[k + i] == sent[k..][i];
    }
    assert ps == chunks[..|ps|];
    ConcatOfPrefix(chunks, |ps|);
  }

  lemma WroteGivesFrames(s: Sender, t: Sender, chunks: seq<Bytes>, frames: seq<Frame>, padding: bool,
                         log: seq<Sealed>, sent: seq<Msg>)
    requires Wrote(s, t, chunks, frames, padding)
    requires t.log <= log && t.sent <= sent && |log| == |sent|
    ensures FramesFrom(sent, log, |s.log|, DATA_PAYLOAD, frames)
  {
    hide EncodeAll, WireLength;
    forall i | 0 <= i < |frames| ensures FrameAt(sent, log, |s.log| + i, DATA_PAYLOAD, frames[i]) {
      assert t.sent[|s.log| + i] == DataMsgs(chunks)[i];
    }
  }

  /**
    * The wire-length law. Padded, the n bytes of a successful Write take full 1475-byte frames for
    * all chunks but the last, and 15 bytes plus the last chunk's block for that one.
    */
  lemma {:induction false} WireLengthLaw(p: Bytes)
    requires p != []
    ensures Small(Chunks(p))
    ensures var full := (|p| - 1) / 1442;
      WireLength(Chunks(p), true) == full * 1475 + 15 + Bucket(|p| - full * 1442)
    decreases |p|
  {
    var c, rest := Chunk(p), p[|Chunk(p)|..];
    assert Chunks(p) == [c] + Chunks(rest);
    assert [c] == [] + [c];
    WireLengthOfSnoc([], c, true);
    if rest != [] {
      WireLengthLaw(rest);
      assert |c| == MAX_CHUNK && (|p| - 1) / MAX_CHUNK == (|rest| - 1) / MAX_CHUNK + 1;
    } else {
      assert Chunks(rest) == [];
    }
    WireLengthOfSum([c], Chunks(rest), true);
  }

  /** So the length on the wire tells the number of chunks and the last block, and nothing else. */
  lemma WireLengthTells(p: Bytes, q: Bytes)
    requires p != [] && q != []
    ensures Small(Chunks(p)) && Small(Chunks(q))
    ensures var fullP, fullQ := (|p| - 1) / 1442, (|q| - 1) / 1442;
      WireLength(Chunks(p), true) == WireLength(Chunks(q), true) <==>
        fullP == fullQ && Bucket(|p| - fullP * 1442) == Bucket(|q| - fullQ * 1442)
  {
    WireLengthLaw(p);
    WireLengthLaw(q);
  }
}
