/** Reading and writing one frame on a connection. */
module FrameIO {
  import opened Bytes
  import opened Frames
  import opened Streams

  datatype WriteError = InvalidType | CiphertextTooLarge | Failed | ShortWrite

  /** One Write of the whole packet; a frame that may not be written leaves the connection alone. */
  method WriteFrame(w: Writer, f: Frame) returns (r: Result<(), WriteError>)
    modifies w
    ensures !Writable(f) ==> r.Err? && w.sent == old(w.sent) && w.Sound()
    ensures Writable(f) ==> old(w.sent) <= w.sent <= old(w.sent) + EncodeFrame(f)
    ensures r.Ok? ==> Writable(f) && w.sent == old(w.sent) + EncodeFrame(f)
    ensures r == Err(InvalidType) <==> !ValidType(f.typ)
    ensures r == Err(CiphertextTooLarge) <==> ValidType(f.typ) && |f.ciphertext| > MAX_CIPHERTEXT
    ensures r.Ok? <==> Writable(f) && w.Sound()
    ensures r == Err(Failed) <==> w.failed > old(w.failed)
    ensures w.reliable ==> w.Sound()
  {
    if !ValidType(f.typ) {
      return Err(InvalidType);
    }
    if |f.ciphertext| > MAX_CIPHERTEXT {
      return Err(CiphertextTooLarge);
    }
    var header := [f.typ] + U16(|f.ciphertext|) + f.nonce;
    var packet := header + f.ciphertext;
    assert packet == EncodeFrame(f);
    var n, ok := w.Write(packet);
    if !ok {
      return Err(Failed);
    }
    if n != |packet| {
      return Err(ShortWrite);
    }
    return Ok(());
  }

  /**
    * Under every fragmentation the result and the bytes left are those of ParseFrame on the whole
    * stream, unless the connection failed before it had delivered the frame; and in every case
    * exactly `consumed` was read. A fault leaves the reader inside a frame: what was consumed of it
    * is lost to the next read.
    */
  method ReadFrame(r: Reader) returns (res: Result<Frame, FrameError>, ghost consumed: Bytes)
    requires r.Valid()
    modifies r, r.conn
    ensures r.Valid() && r.Took(consumed)
    ensures res != Err(Faulted) ==> ParseFrame(old(r.Stream())) == Parse(res, r.Stream())
    ensures res.Ok? ==> Writable(res.value) && consumed == EncodeFrame(res.value)
    ensures res == Err(Faulted) ==> !r.NoFault() && ParseFrame(consumed).result == Err(Truncated)
  {
    hide FromBigEndian, U16;
    var header, st := ReadFull(r, HEADER_SIZE);
    consumed := header;
    if st != Fine {
      return Err(if st == Eof then Truncated else Faulted), consumed;
    }
    ghost var mid := r.Stream();
    if !ValidType(header[0]) {
      return Err(UnknownType), consumed;
    }
    var length := FromBigEndian(header[1..3]);
    assert old(r.Stream())[1..3] == header[1..3];
    var ciphertext: Bytes := [];
    if length > 0 {
      ciphertext, st := ReadFull(r, length);
      consumed := header + ciphertext;
      assert consumed[1..3] == header[1..3];
      if st != Fine {
        return Err(if st == Eof then Truncated else Faulted), consumed;
      }
    }
    assert header + ciphertext == consumed;
    assert old(r.Stream()) == header + ciphertext + r.Stream();
    res := Ok(Frame(header[0], header[3..HEADER_SIZE], ciphertext));
    ParsedPieces(header, ciphertext, r.Stream());
  }

  lemma ParsedPieces(header: Bytes, ciphertext: Bytes, rest: Bytes)
    requires |header| == HEADER_SIZE && ValidType(header[0])
    requires |ciphertext| == FromBigEndian(header[1..3])
    ensures var f := Frame(header[0], header[3..HEADER_SIZE], ciphertext);
      && ParseFrame(header + ciphertext + rest) == Parse(Ok(f), rest)
      && Writable(f) && header + ciphertext == EncodeFrame(f)
  {
    var f := Frame(header[0], header[3..HEADER_SIZE], ciphertext);
    U16OfField(header[1..3]);
    assert header == [header[0]] + header[1..3] + header[3..HEADER_SIZE];
    assert header + ciphertext == EncodeFrame(f);
    ParseOfEncode(f, rest);
  }
}
