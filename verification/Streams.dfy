/**
  * Connections that fragment, stall and fail, and the readers and writers stacked on them. A read
  * may return any number of the bytes that are coming, none at all, an error with or without data,
  * or the end of the stream together with its last bytes.
  */
module Streams {
  import opened Bytes

  /** The error a Read returns: nil, io.EOF, or any other. */
  datatype Status = Fine | Eof | Fault

  /**
    * The reading half of a connection, with the recorder of captureConn in it. An error other than
    * the end of the stream loses nothing: a deadline may pass and later reads go on. stalls bounds
    * how often a read may still return nothing and no error; faults counts the reads that failed.
    */
  class Conn {
    var incoming: Bytes
    var stalls: nat
    var capturing: bool
    var captured: Bytes
    ghost var faults: nat

    constructor (incoming: Bytes, stalls: nat, capturing: bool)
      ensures this.incoming == incoming && this.stalls == stalls
      ensures this.capturing == capturing && captured == [] && faults == 0
    {
      this.incoming, this.stalls, this.capturing, captured := incoming, stalls, capturing, [];
      faults := 0;
    }

    /** captureConn.Read: whatever the connection returns is recorded on the way through. */
    method Pull(max: nat) returns (data: Bytes, st: Status)
      modifies this
      ensures old(incoming) == data + incoming && |data| <= max
      ensures capturing == old(capturing)
      ensures captured == old(captured) + if capturing then data else []
      ensures st == Eof ==> incoming == []
      ensures stalls <= old(stalls)
      ensures data == [] && st == Fine ==> stalls < old(stalls)
      ensures faults == old(faults) + if st == Fault then 1 else 0
    {
      var n :| 0 <= n <= max && n <= |incoming|;
      data, incoming := incoming[..n], incoming[n..];
      if capturing {
        captured := captured + data;
      }
      var outcome :| 0 <= outcome <= 2;
      if outcome == 0 && (n > 0 || stalls > 0) {
        st := Fine;
        stalls := if n == 0 then stalls - 1 else stalls;
      } else if outcome == 1 && incoming == [] {
        st := Eof;
      } else {
        st, faults := Fault, faults + 1;
      }
    }
  }

  /**
    * What a function taking an io.Reader is given: a connection, behind a bufio.Reader when the
    * capacity is not zero. seen is what has been read through it, as a TeeReader would record it.
    */
  class Reader {
    const conn: Conn
    const capacity: nat
    var buffer: Bytes
    var pending: Status
    var seen: Bytes

    ghost predicate Valid()
      reads this, conn
    {
      && (capacity == 0 ==> buffer == [] && pending == Fine)
      && (pending == Eof ==> conn.incoming == [])
      && (pending == Fault ==> conn.faults > 0)
    }

    /** How many failures of the connection have been reported through this reader, or on its own. */
    ghost function Faults(): int
      reads this, conn
    {
      if pending == Fault then conn.faults - 1 else conn.faults
    }

    /** Nothing failed: the connection delivered whatever it was asked for. */
    twostate predicate NoFault()
      reads this, conn
    {
      Faults() == old(Faults())
    }

    /** Everything still to be read through this reader. */
    ghost function Stream(): Bytes
      reads this, conn
    {
      buffer + conn.incoming
    }

    /** Exactly data was read through this reader. */
    twostate predicate Took(data: Bytes)
      reads this, conn
    {
      && old(Stream()) == data + Stream()
      && seen == old(seen) + data
      && conn.stalls <= old(conn.stalls)
      && old(Faults()) <= Faults() && old(conn.faults) <= conn.faults
    }

    /** What was captured and what is still to come are what they were together. */
    twostate predicate Captured()
      reads this, conn
    {
      && conn.capturing == old(conn.capturing)
      && (conn.capturing ==> conn.captured + conn.incoming == old(conn.captured + conn.incoming))
    }

    constructor (conn: Conn, capacity: nat)
      ensures Valid() && this.conn == conn && this.capacity == capacity
      ensures buffer == [] && pending == Fine && seen == [] && Faults() == conn.faults
    {
      this.conn, this.capacity := conn, capacity;
      buffer, pending, seen := [], Fine, [];
    }

    /** One read of the connection into the empty buffer; an error is kept for later. */
    method Fill()
      requires Valid() && capacity > 0 && buffer == [] && pending == Fine
      modifies this, conn
      ensures Valid() && Took([]) && Captured() && NoFault()
      ensures buffer == [] && pending == Fine ==> conn.stalls < old(conn.stalls)
    {
      buffer, pending := conn.Pull(capacity);
    }

    /** A read past the buffer, straight from the connection. */
    method Direct(max: nat) returns (data: Bytes, st: Status)
      requires Valid() && max > 0 && buffer == [] && pending == Fine
      modifies this, conn
      ensures Valid() && Took(data) && Captured() && |data| <= max
      ensures st == Eof ==> Stream() == []
      ensures st == Fault <==> !NoFault()
      ensures data == [] && st == Fine ==> conn.stalls < old(conn.stalls)
    {
      data, st := conn.Pull(max);
      seen := seen + data;
    }

    /** As much of the buffer as fits. */
    method TakeBuffered(max: nat) returns (data: Bytes)
      requires Valid() && max > 0 && buffer != []
      modifies this
      ensures Valid() && Took(data) && NoFault() && 0 < |data| <= max
    {
      var n := if max < |buffer| then max else |buffer|;
      data := buffer[..n];
      buffer, seen := buffer[n..], seen + data;
    }

    /** bufio.Reader.Read: at most one read of the connection, straight through when that is larger. */
    method Read(max: nat) returns (data: Bytes, st: Status)
      requires Valid() && max > 0
      modifies this, conn
      ensures Valid() && Took(data) && Captured() && |data| <= max
      ensures st == Eof ==> Stream() == []
      ensures st == Fault <==> !NoFault()
      ensures data == [] && st == Fine ==> conn.stalls < old(conn.stalls)
    {
      if buffer == [] {
        if pending == Fine {
          if max >= capacity {
            data, st := Direct(max);
            return;
          }
          Fill();
        }
        if buffer == [] {
          data, st, pending := [], pending, Fine;
          return;
        }
      }
      st := Fine;
      data := TakeBuffered(max);
    }

    /** bufio.Reader.Peek(1): fill until a byte is there, an error is, or a hundred reads gave nothing. */
    method Peek() returns (first: Option<Byte>)
      requires Valid() && capacity > 0
      modifies this, conn
      ensures Valid() && Took([]) && Captured()
      ensures first.Some? ==> Stream() != [] && first.value == Stream()[0]
      ensures first.Some? ==> buffer != [] && NoFault()
      ensures first.None? ==> Stream() == [] || !NoFault() || conn.stalls + 100 <= old(conn.stalls)
    {
      var tries := 0;
      while buffer == [] && pending == Fine && tries < 100
        invariant Valid() && Took([]) && Captured() && tries <= 100
        invariant buffer == [] && pending == Fine ==> conn.stalls + tries <= old(conn.stalls)
        invariant NoFault()
        decreases 100 - tries
      {
        Fill();
        tries := tries + 1;
      }
      if buffer != [] {
        return Some(buffer[0]);
      }
      pending := Fine;
      return None;
    }
  }

  /** io.ReadFull: all n bytes, or what there was and the reason for stopping. */
  method ReadFull(r: Reader, n: nat) returns (data: Bytes, st: Status)
    requires r.Valid()
    modifies r, r.conn
    ensures r.Valid() && r.Took(data)
    ensures |data| <= n && (st == Fine <==> |data| == n)
    ensures st == Eof ==> r.Stream() == []
    ensures st == Fault <==> |data| < n && !r.NoFault()
  {
    data, st := [], Fine;
    while |data| < n && st == Fine
      invariant r.Valid() && r.Took(data) && |data| <= n
      invariant st == Eof ==> r.Stream() == []
      invariant st == Fault <==> !r.NoFault()
      decreases |r.Stream()| + r.conn.stalls, st == Fine
    {
      var more;
      more, st := r.Read(n - |data|);
      data := data + more;
    }
    if |data| == n {
      st := Fine;
    }
  }

  // ---------------------------------------------------------------- writing

  /**
    * The writing half of a connection. A reliable one accepts everything; others may do anything.
    * failed counts the writes that returned an error, short those that took less than they were given
    * without one, empty those of the latter that took nothing.
    */
  class Writer {
    const reliable: bool
    var sent: Bytes
    ghost var failed: nat
    ghost var short: nat
    ghost var empty: nat

    constructor (reliable: bool)
      ensures this.reliable == reliable && sent == [] && failed == 0 && short == 0 && empty == 0
    {
      this.reliable, sent := reliable, [];
      failed, short, empty := 0, 0, 0;
    }

    /** Every write took all it was given and returned no error. */
    twostate predicate Sound()
      reads this
    {
      failed == old(failed) && short == old(short)
    }

    method Write(data: Bytes) returns (n: nat, ok: bool)
      modifies this
      ensures n <= |data| && sent == old(sent) + data[..n]
      ensures reliable ==> n == |data| && ok
      ensures failed == old(failed) + if ok then 0 else 1
      ensures short == old(short) + if ok && n < |data| then 1 else 0
      ensures empty == old(empty) + if ok && n == 0 && data != [] then 1 else 0
    {
      n :| 0 <= n <= |data| && (reliable ==> n == |data|);
      var error :| 0 <= error <= 1;
      sent, ok := sent + data[..n], reliable || error == 0;
      failed := failed + if ok then 0 else 1;
      short := short + if ok && n < |data| then 1 else 0;
      empty := empty + if ok && n == 0 && data != [] then 1 else 0;
    }
  }

  datatype CopyError = WriteFailed | NoProgress | ReadFailed

  /** writeAll and writeFallbackAll: go on after a short write, give up on an error or an empty one. */
  method WriteAll(w: Writer, data: Bytes) returns (r: Result<(), CopyError>)
    modifies w
    ensures old(w.sent) <= w.sent <= old(w.sent) + data
    ensures r.Ok? ==> w.sent == old(w.sent) + data
    ensures r.Err? ==> r.error == WriteFailed || r.error == NoProgress
    ensures w.failed == old(w.failed) + if r == Err(WriteFailed) then 1 else 0
    ensures w.empty == old(w.empty) + if r == Err(NoProgress) then 1 else 0
    ensures w.reliable ==> r.Ok?
  {
    var rest := data;
    while rest != []
      invariant w.sent + rest == old(w.sent) + data && old(w.sent) <= w.sent
      invariant w.failed == old(w.failed) && w.empty == old(w.empty)
      decreases |rest|
    {
      var n, ok := w.Write(rest);
      assert old(w.sent) + data == w.sent + rest[n..];
      if !ok {
        return Err(WriteFailed);
      }
      if n == 0 {
        return Err(NoProgress);
      }
      rest := rest[n..];
    }
    return Ok(());
  }

  // ---------------------------------------------------------------- replay and relay

  /** io.MultiReader over bytes already consumed and the reader they were consumed from. */
  class Replay {
    var head: Bytes
    const tail: Reader
    var tailDone: bool

    ghost predicate Valid()
      reads this, tail, tail.conn
    {
      tail.Valid() && (tailDone ==> tail.Stream() == [])
    }

    /** Everything a reader of the replay will get. */
    ghost function Contents(): Bytes
      reads this, tail, tail.conn
    {
      head + tail.Stream()
    }

    constructor (head: Bytes, tail: Reader)
      requires tail.Valid()
      ensures Valid() && this.tail == tail && Contents() == head + tail.Stream()
    {
      this.head, this.tail, tailDone := head, tail, false;
    }

    method Read(max: nat) returns (data: Bytes, st: Status)
      requires Valid() && max > 0
      modifies this, tail, tail.conn
      ensures Valid() && |data| <= max
      ensures old(Contents()) == data + Contents()
      ensures st == Eof ==> Contents() == []
      ensures tail.conn.stalls <= old(tail.conn.stalls)
      ensures data == [] && st == Fine ==> tail.conn.stalls < old(tail.conn.stalls)
      ensures st == Fault <==> !tail.NoFault()
      ensures old(tail.Faults()) <= tail.Faults() && old(tail.conn.faults) <= tail.conn.faults
      ensures tail.conn.capturing == old(tail.conn.capturing)
    {
      if head != [] {
        var n := if max < |head| then max else |head|;
        data, st, head := head[..n], Fine, head[n..];
      } else if tailDone {
        data, st := [], Eof;
      } else {
        data, st := tail.Read(max);
        tailDone := st == Eof;
      }
    }
  }

  const RELAY_BUFFER: nat := 32 * 1024

  /**
    * relayCopy. It ends on every finite source; what the destination got is a prefix of the source;
    * the total counts what was copied, buffer by buffer, before the last one, which only a failing
    * destination cuts short; and a nil error means that the source, to its end, was delivered and
    * counted, even when its last bytes came together with the end of the stream. An error is one the
    * source or the destination returned, or a write that took nothing.
    */
  method RelayCopy(dst: Writer, src: Replay) returns (total: nat, r: Result<(), CopyError>, ghost last: Bytes)
    requires src.Valid()
    modifies dst, src, src.tail, src.tail.conn
    ensures src.Valid()
    ensures Relayed(old(src.Contents()), old(dst.sent), total, last, dst.sent, src.Contents())
    ensures last == [] <==> r.Ok? || r.error == ReadFailed
    ensures r.Ok? ==> src.Contents() == []
    ensures old(src.tail.Faults()) <= src.tail.Faults()
    ensures old(src.tail.conn.faults) <= src.tail.conn.faults && src.tail.conn.stalls <= old(src.tail.conn.stalls)
    ensures src.tail.conn.capturing == old(src.tail.conn.capturing)
    ensures r == Err(ReadFailed) <==>
      !src.tail.NoFault() && dst.failed == old(dst.failed) && dst.empty == old(dst.empty)
    ensures dst.failed == old(dst.failed) + if r == Err(WriteFailed) then 1 else 0
    ensures dst.empty == old(dst.empty) + if r == Err(NoProgress) then 1 else 0
    ensures dst.reliable ==> r.Ok? || r.error == ReadFailed
  {
    hide Relayed;
    total, last := 0, [];
    ghost var whole, before := src.Contents(), dst.sent;
    RelayStarts(whole, before);
    var st := Fine;
    while st == Fine
      invariant src.Valid()
      invariant Relayed(whole, before, total, [], dst.sent, src.Contents())
      invariant st == Eof ==> src.Contents() == []
      invariant old(src.tail.Faults()) <= src.tail.Faults()
      invariant old(src.tail.conn.faults) <= src.tail.conn.faults && src.tail.conn.stalls <= old(src.tail.conn.stalls)
      invariant src.tail.conn.capturing == old(src.tail.conn.capturing)
      invariant st == Fault <==> !src.tail.NoFault()
      invariant dst.failed == old(dst.failed) && dst.empty == old(dst.empty)
      decreases |src.Contents()| + src.tail.conn.stalls, st == Fine
    {
      var data;
      ghost var contents, sent := src.Contents(), dst.sent;
      data, st := src.Read(RELAY_BUFFER);
      if data != [] {
        var w := WriteAll(dst, data);
        RelayGoesOn(whole, before, total, sent, contents, data, dst.sent, src.Contents());
        if w.Err? {
          return total, w, data;
        }
        total := total + |data|;
      } else {
        assert src.Contents() == contents;
      }
    }
    r := if st == Eof then Ok(()) else Err(ReadFailed);
  }

  /**
    * Of the bytes `whole`, the first `total` have been copied and counted, `last` is in hand, and
    * `rest` is unread; before is what the destination had, sent what it has now.
    */
  ghost predicate Relayed(whole: Bytes, before: Bytes, total: nat, last: Bytes, sent: Bytes, rest: Bytes)
  {
    && total <= |whole| && |last| <= 32 * 1024
    && whole == whole[..total] + last + rest
    && before + whole[..total] <= sent <= before + whole[..total] + last
  }

  lemma RelayStarts(whole: Bytes, before: Bytes)
    ensures Relayed(whole, before, 0, [], before, whole)
  {
  }

  lemma RelayGoesOn(whole: Bytes, before: Bytes, total: nat, sent: Bytes, contents: Bytes, data: Bytes, sent': Bytes,
                    rest: Bytes)
    requires Relayed(whole, before, total, [], sent, contents) && contents == data + rest && |data| <= RELAY_BUFFER
    requires sent <= sent' <= sent + data
    ensures Relayed(whole, before, total, data, sent', rest)
    ensures sent' == sent + data ==> Relayed(whole, before, total + |data|, [], sent', rest)
  {
    var copied := whole[..total];
    assert sent == before + copied && whole == copied + [] + (data + rest) == copied + data + rest;
    assert whole[..total + |data|] == copied + data;
    assert before + (copied + data) == before + copied + data;
  }
}
