/** The framed wire format: Type (1) | Length (2) | Nonce (12) | Ciphertext (Length). */
module Frames {
  import opened Bytes

  const AUTH_CHALLENGE: Byte := 0x01
  const AUTH_RESPONSE: Byte := 0x02
  const DATA_PAYLOAD: Byte := 0x03
  const CONN_CLOSE: Byte := 0x04
  const CONN_OPEN: Byte := 0x05
  const AUTH_SUCCESS: Byte := 0x06

  const NONCE_SIZE: nat := 12
  const HEADER_SIZE: nat := 15
  const MAX_CIPHERTEXT: nat := 0xffff

  type Nonce = s: Bytes | |s| == NONCE_SIZE witness seq(NONCE_SIZE, _ => 0)

  datatype Frame = Frame(typ: Byte, nonce: Nonce, ciphertext: Bytes)

  predicate ValidType(t: Byte)
  {
    t == AUTH_CHALLENGE || t == AUTH_RESPONSE || t == DATA_PAYLOAD ||
    t == CONN_OPEN || t == CONN_CLOSE || t == AUTH_SUCCESS
  }

  /** What WriteFrame puts on the wire at all. */
  predicate Writable(f: Frame)
  {
    ValidType(f.typ) && |f.ciphertext| <= MAX_CIPHERTEXT
  }

  function EncodeFrame(f: Frame): (s: Bytes)
    requires Writable(f)
    ensures |s| == HEADER_SIZE + |f.ciphertext|
  {
    [f.typ] + U16(|f.ciphertext|) + f.nonce + f.ciphertext
  }

  /** The wire format byte by byte; the types are 1 to 6 and the ciphertext at most 65535 bytes. */
  lemma FrameLayout(f: Frame)
    ensures Writable(f) <==> 1 <= f.typ <= 6 && |f.ciphertext| <= 65535
    ensures Writable(f) ==>
      EncodeFrame(f) == [f.typ, |f.ciphertext| / 256, |f.ciphertext| % 256] + f.nonce + f.ciphertext
  {
    if Writable(f) {
      U16Layout(|f.ciphertext|);
    }
  }

  datatype FrameError = Truncated | UnknownType | Faulted

  /** The outcome of reading one frame off a stream, and the stream that is left. */
  datatype Parse = Parse(result: Result<Frame, FrameError>, rest: Bytes)

  /**
    * ReadFrame on a stream that ends after s. The type is checked before the ciphertext is
    * read, so an unknown type leaves everything after the header unread; a stream that is too
    * short is read to its end.
    */
  function ParseFrame(s: Bytes): Parse
  {
    if |s| < HEADER_SIZE then Parse(Err(Truncated), [])
    else if !ValidType(s[0]) then Parse(Err(UnknownType), s[HEADER_SIZE..])
    else
      var end := HEADER_SIZE + FromBigEndian(s[1..3]);
      if |s| < end then Parse(Err(Truncated), [])
      else Parse(Ok(Frame(s[0], s[3..HEADER_SIZE], s[HEADER_SIZE..end])), s[end..])
  }

  /** Reading inverts writing, whatever follows on the stream. */
  lemma ParseOfEncode(f: Frame, rest: Bytes)
    requires Writable(f)
    ensures ParseFrame(EncodeFrame(f) + rest) == Parse(Ok(f), rest)
  {
    var s := EncodeFrame(f) + rest;
    assert s[1..3] == U16(|f.ciphertext|);
    assert s[3..HEADER_SIZE] == f.nonce;
    assert s[HEADER_SIZE..HEADER_SIZE + |f.ciphertext|] == f.ciphertext;
    assert s[HEADER_SIZE + |f.ciphertext|..] == rest;
  }

  /** Whatever reading accepts re-encodes to exactly the bytes that were consumed. */
  lemma EncodeOfParse(s: Bytes)
    requires ParseFrame(s).result.Ok?
    ensures Writable(ParseFrame(s).result.value)
    ensures s == EncodeFrame(ParseFrame(s).result.value) + ParseFrame(s).rest
  {
    U16OfField(s[1..3]);
    var end := HEADER_SIZE + FromBigEndian(s[1..3]);
    assert s[..HEADER_SIZE] == [s[0]] + s[1..3] + s[3..HEADER_SIZE];
    assert s == s[..HEADER_SIZE] + s[HEADER_SIZE..end] + s[end..];
  }

  /** Later bytes cannot change a frame that has been read. */
  lemma ParseIsStable(s: Bytes, more: Bytes)
    requires ParseFrame(s).result.Ok?
    ensures ParseFrame(s + more) == Parse(ParseFrame(s).result, ParseFrame(s).rest + more)
  {
    EncodeOfParse(s);
    var f, rest := ParseFrame(s).result.value, ParseFrame(s).rest;
    assert s + more == EncodeFrame(f) + (rest + more);
    ParseOfEncode(f, rest + more);
  }

  /** Exactly when there is no frame to be read, why, and where the stream then stands. */
  lemma NoFrame(s: Bytes)
    ensures ParseFrame(s).result == Err(UnknownType) <==> |s| >= 15 && !(1 <= s[0] <= 6)
    ensures ParseFrame(s).result == Err(UnknownType) ==> ParseFrame(s).rest == s[15..]
    ensures ParseFrame(s).result == Err(Truncated) <==>
      |s| < 15 || (1 <= s[0] <= 6 && |s| < 15 + s[1] as int * 256 + s[2])
    ensures ParseFrame(s).result == Err(Truncated) ==> ParseFrame(s).rest == []
    ensures ParseFrame(s).result != Err(Faulted)
  {
    if |s| >= 15 {
      U16Value(s[1..3]);
    }
  }

  // ---------------------------------------------------------------- streams of frames

  ghost predicate AllWritable(fs: seq<Frame>)
  {
    forall i :: 0 <= i < |fs| ==> Writable(fs[i])
  }

  function EncodeAll(fs: seq<Frame>): Bytes
    requires AllWritable(fs)
  {
    if fs == [] then [] else EncodeFrame(fs[0]) + EncodeAll(fs[1..])
  }

  /** Every frame that can be read off s, up to the first error or the end. */
  function ParseAll(s: Bytes): (fs: seq<Frame>)
    ensures AllWritable(fs)
    decreases |s|
  {
    var p := ParseFrame(s);
    if p.result.Err? then []
    else
      EncodeOfParse(s);
      [p.result.value] + ParseAll(p.rest)
  }

  lemma {:induction false} EncodeAllOfSum(fs: seq<Frame>, gs: seq<Frame>)
    requires AllWritable(fs) && AllWritable(gs)
    ensures EncodeAll(fs + gs) == EncodeAll(fs) + EncodeAll(gs)
  {
    if fs == [] {
      assert fs + gs == gs;
    } else {
      EncodeAllOfSum(fs[1..], gs);
      assert (fs + gs)[1..] == fs[1..] + gs;
    }
  }

  lemma EncodeAllOfSnoc(fs: seq<Frame>, f: Frame)
    requires AllWritable(fs) && Writable(f)
    ensures EncodeAll(fs + [f]) == EncodeAll(fs) + EncodeFrame(f)
  {
    EncodeAllOfSum(fs, [f]);
    assert EncodeAll([f]) == EncodeFrame(f) + EncodeAll([]);
  }

  /** Frames written back to back are read back as themselves. */
  lemma {:induction false} ParseAllOfEncodeAll(fs: seq<Frame>)
    requires AllWritable(fs)
    ensures ParseAll(EncodeAll(fs)) == fs
  {
    if fs != [] {
      ParseOfEncode(fs[0], EncodeAll(fs[1..]));
      ParseAllOfEncodeAll(fs[1..]);
    }
  }

  /** While a stream is still arriving, what can be read so far is a prefix of what was written. */
  lemma {:induction false} ParseAllOfPartialArrival(fs: seq<Frame>, arrived: Bytes)
    requires AllWritable(fs)
    requires arrived <= EncodeAll(fs)
    ensures ParseAll(arrived) <= fs
  {
    if ParseFrame(arrived).result.Ok? {
      var whole := EncodeAll(fs);
      assert whole == arrived + whole[|arrived|..];
      ParseIsStable(arrived, whole[|arrived|..]);
      if fs == [] {
        EncodeOfParse(arrived);
        assert false;
      } else {
        ParseOfEncode(fs[0], EncodeAll(fs[1..]));
        var rest := ParseFrame(arrived).rest;
        assert rest + whole[|arrived|..] == EncodeAll(fs[1..]);
        EncodeOfParse(arrived);
        ParseAllOfPartialArrival(fs[1..], rest);
      }
    }
  }

  /** The front of a stream still arriving is its first frame, or not there yet; never something else. */
  lemma FrontOfPartialArrival(fs: seq<Frame>, arrived: Bytes)
    requires AllWritable(fs)
    requires arrived <= EncodeAll(fs)
    ensures ParseFrame(arrived).result == Err(Truncated) || (fs != [] && ParseFrame(arrived).result == Ok(fs[0]))
  {
    var whole := EncodeAll(fs);
    if fs != [] {
      var rest := EncodeAll(fs[1..]);
      assert whole[0] == fs[0].typ;
      assert whole == arrived + whole[|arrived|..];
      if ParseFrame(arrived).result.Ok? {
        ParseIsStable(arrived, whole[|arrived|..]);
        ParseOfEncode(fs[0], rest);
      }
    }
  }

  /** Framing is unambiguous: a byte stream is the encoding of at most one list of frames. */
  lemma FramingIsUnambiguous(fs: seq<Frame>, gs: seq<Frame>)
    requires AllWritable(fs) && AllWritable(gs)
    ensures EncodeAll(fs) == EncodeAll(gs) <==> fs == gs
  {
    ParseAllOfEncodeAll(fs);
    ParseAllOfEncodeAll(gs);
  }

  /** Every byte stream is its frames, re-encoded, followed by a tail that holds no frame. */
  lemma {:induction false} StreamIsItsFrames(s: Bytes) returns (tail: Bytes)
    ensures s == EncodeAll(ParseAll(s)) + tail
    ensures ParseFrame(tail).result.Err?
  {
    var p := ParseFrame(s);
    if p.result.Err? {
      tail := s;
    } else {
      EncodeOfParse(s);
      tail := StreamIsItsFrames(p.rest);
      assert ParseAll(s)[1..] == ParseAll(p.rest);
    }
  }
}
