/** The two channel implementations as objects: the client's DataChannel and the gateway's tunnelChannel. */
module Endpoints {
  import opened Bytes
  import opened Frames
  import opened Envelope
  import opened Sealing
  import opened Channels
  import opened Streams
  import opened FrameIO

  datatype SendError = BadEnvelope(envelopeError: EnvelopeError) | NotWritten(writeError: WriteError) | BadTarget

  /** The longest payload a channel can send: 1460 - 18 padded, 65535 - 18 otherwise. */
  function Capacity(padding: bool): nat
  {
    if padding then 1442 else 65517
  }

  /** The ciphertext length of a payload that can be wrapped. */
  function CipherLength(n: nat, padding: bool): nat
    requires padding ==> n <= 1442
  {
    if padding then Bucket(n) else n + 18
  }

  /** What a send that got as far as sealing left behind: one more entry, carrying m. */
  ghost predicate Appended(before: seq<Sealed>, after: seq<Sealed>, sentBefore: seq<Msg>, sentAfter: seq<Msg>, m: Msg,
                           padding: bool)
  {
    && |after| == |before| + 1 && before <= after
    && sentAfter == sentBefore + [m]
    && (padding ==> |m.payload| <= 1442)
    && |after[|before|].cipher| == CipherLength(|m.payload|, padding)
  }

  /** What a send did to the writer: all of the frame, or some of it and an error, or none of it. */
  ghost predicate Transmitted(before: Bytes, after: Bytes, f: Frame, ok: bool)
  {
    && (Writable(f) ==> before <= after <= before + EncodeFrame(f))
    && (!Writable(f) ==> after == before && !ok)
    && (ok ==> Writable(f) && after == before + EncodeFrame(f))
  }

  /**
    * When a nonce is spent on a frame that is never handed to the writer: only without padding, and
    * exactly for the payloads whose envelope is legal but whose ciphertext overflows the length field.
    */
  lemma SealedButNotWritable(payload: Bytes, padding: bool, filler: nat -> Byte, f: Frame)
    requires ValidType(f.typ)
    requires Wrap(payload, padding, filler).Ok? ==> |f.ciphertext| == |Wrap(payload, padding, filler).value| + OVERHEAD
    ensures Wrap(payload, padding, filler).Ok? && !Writable(f) <==> !padding && 65517 < |payload| <= 65535
  {
    WrapDomain(payload, padding, filler);
    hide Wrap;
  }

  /** transport.DataChannel in directional mode. */
  class DataChannel {
    const send: Aead
    const receive: Aead
    const nonces: NonceCounter
    const sendDir: Byte
    const receiveDir: Byte
    const padding: bool
    var receiveSequence: nat
    ghost var sent: seq<Msg>

    ghost predicate Valid()
      reads this, send, nonces
    {
      && send != receive
      && nonces.Valid() && nonces.issued == |send.log|
      && receiveSequence < U64_SPAN
      && Honest(send.log, nonces.salt, sendDir, sent)
    }

    constructor (send: Aead, receive: Aead, salt: Salt, sendDir: Byte, receiveDir: Byte, padding: bool)
      requires send != receive && send.log == []
      ensures Valid() && fresh(nonces) && this.send == send && this.receive == receive
      ensures nonces.salt == salt && this.sendDir == sendDir && this.receiveDir == receiveDir
      ensures this.padding == padding && receiveSequence == 0 && sent == []
    {
      this.send, this.receive := send, receive;
      this.nonces := new NonceCounter(salt);
      this.sendDir, this.receiveDir, this.padding := sendDir, receiveDir, padding;
      receiveSequence, sent := 0, [];
    }

    /** EncodePayload -> Pad -> Seal -> WriteFrame, for the type WriteDataFrame and WriteConnectFrame pass. */
    method Send(w: Writer, typ: Byte, payload: Bytes, filler: nat -> Byte) returns (r: Result<(), SendError>)
      requires Valid()
      modifies `sent, send, nonces, w
      ensures Valid()
      ensures Wrap(payload, padding, filler).Err? ==>
        && r == Err(BadEnvelope(Wrap(payload, padding, filler).error)) && w.sent == old(w.sent) && w.Sound()
        && sent == old(sent) && send.log == old(send.log) && nonces.issued == old(nonces.issued)
      ensures Wrap(payload, padding, filler).Ok? ==>
        && Appended(old(send.log), send.log, old(sent), sent, Msg(typ, payload), padding)
        && send.log[|send.log| - 1].plain == Wrap(payload, padding, filler).value
        && send.log[|send.log| - 1].nonce == nonces.salt + CounterBytes(old(nonces.issued) % U64_SPAN)
        && send.log[|send.log| - 1].aad == [typ, sendDir] + CounterBytes(old(nonces.issued) % U64_SPAN)
        && Transmitted(old(w.sent), w.sent, FrameOf(Msg(typ, payload), send.log[|send.log| - 1]), r.Ok?)
        && (r.Ok? <==> Writable(FrameOf(Msg(typ, payload), send.log[|send.log| - 1])) && w.Sound())
      ensures r.Err? ==> (r.error.NotWritten? <==> Wrap(payload, padding, filler).Ok?)
      ensures w.reliable && ValidType(typ) ==> (r.Ok? <==> |payload| <= Capacity(padding))
    {
      WrapDomain(payload, padding, filler);
      hide Wrap, Honest, NonceAt, Unwrap, SequenceOf, AadOfSequence, AadOfNonce, EncodeFrame, CounterBytes;
      var wrapped := Wrap(payload, padding, filler);
      if wrapped.Err? {
        return Err(BadEnvelope(wrapped.error));
      }
      var plain := wrapped.value;
      ghost var k, m := |send.log|, Msg(typ, payload);
      var nonce := nonces.Next();
      var cipher := send.Seal(nonce, plain, AadOfNonce(typ, sendDir, nonce));
      ghost var e := Sealed(nonce, AadOfNonce(typ, sendDir, nonce), plain, cipher);
      UnwrapOfWrap(payload, padding, filler);
      AadFormsAgree(typ, sendDir, nonce);
      SequenceOfNonceAt(nonces.salt, k);
      AadLayout(typ, sendDir, k % U64_SPAN);
      HonestExtends(old(send.log), nonces.salt, sendDir, sent, e, m);
      sent := sent + [m];
      var written := WriteFrame(w, Frame(typ, nonce, cipher));
      r := if written.Ok? then Ok(()) else Err(NotWritten(written.error));
    }

    /** ReadFrame -> checkSequence -> Open -> Unpad -> DecodePayload: the counter moves before Open. */
    method Receive(r: Reader, typ: Byte) returns (res: Result<Bytes, ReceiveError>, ghost consumed: Bytes)
      requires Valid() && r.Valid()
      modifies `receiveSequence, r, r.conn
      ensures Valid() && r.Valid() && r.Took(consumed)
      ensures res.Ok? ==> |consumed| >= HEADER_SIZE
      ensures res == Err(Framing(Faulted)) ==>
        receiveSequence == old(receiveSequence) && !r.NoFault() && ParseFrame(consumed).result == Err(Truncated)
      ensures res != Err(Framing(Faulted)) ==>
        && Verdict(res, receiveSequence) ==
           Channels.Receive(Client, receive.log, receiveDir, old(receiveSequence), typ, old(r.Stream()))
        && r.Stream() == ParseFrame(old(r.Stream())).rest
    {
      hide Honest, ParseFrame, Unwrap, Lookup, SequenceOf, AadOfNonce, EncodeFrame;
      var parsed;
      parsed, consumed := ReadFrame(r);
      if parsed.Err? {
        return Err(Framing(parsed.error)), consumed;
      }
      var f := parsed.value;
      if f.typ != typ {
        return Err(WrongType), consumed;
      }
      if SequenceOf(f.nonce) != receiveSequence {
        return Err(WrongSequence), consumed;
      }
      receiveSequence := Succ64(receiveSequence);
      var found := receive.Open(f.nonce, f.ciphertext, AadOfNonce(f.typ, receiveDir, f.nonce));
      if found.None? {
        return Err(NotAuthentic), consumed;
      }
      return Opened(found.value), consumed;
    }
  }

  /** gateway.tunnelChannel. Its directions are fixed: it sends as 2 and receives as 1. */
  class TunnelChannel {
    const send: Aead
    const receive: Aead
    const nonces: NonceCounter
    const padding: bool
    var received: nat
    ghost var sent: seq<Msg>

    ghost predicate Valid()
      reads this, send, nonces
    {
      && send != receive
      && nonces.Valid() && nonces.issued == |send.log|
      && received < U64_SPAN
      && Honest(send.log, nonces.salt, SERVER_TO_CLIENT, sent)
    }

    constructor (send: Aead, receive: Aead, salt: Salt, padding: bool)
      requires send != receive && send.log == []
      ensures Valid() && fresh(nonces) && this.send == send && this.receive == receive
      ensures nonces.salt == salt && this.padding == padding && received == 0 && sent == []
    {
      this.send, this.receive := send, receive;
      this.nonces := new NonceCounter(salt);
      this.padding := padding;
      received, sent := 0, [];
    }

    /** Touches the send side only: `received` is not in its frame. */
    method Write(w: Writer, typ: Byte, payload: Bytes, filler: nat -> Byte) returns (r: Result<(), SendError>)
      requires Valid()
      modifies `sent, send, nonces, w
      ensures Valid()
      ensures Wrap(payload, padding, filler).Err? ==>
        && r == Err(BadEnvelope(Wrap(payload, padding, filler).error)) && w.sent == old(w.sent) && w.Sound()
        && sent == old(sent) && send.log == old(send.log) && nonces.issued == old(nonces.issued)
      ensures Wrap(payload, padding, filler).Ok? ==>
        && Appended(old(send.log), send.log, old(sent), sent, Msg(typ, payload), padding)
        && send.log[|send.log| - 1].plain == Wrap(payload, padding, filler).value
        && send.log[|send.log| - 1].nonce == nonces.salt + CounterBytes(old(nonces.issued) % U64_SPAN)
        && send.log[|send.log| - 1].aad == [typ, 2] + CounterBytes(old(nonces.issued) % U64_SPAN)
        && Transmitted(old(w.sent), w.sent, FrameOf(Msg(typ, payload), send.log[|send.log| - 1]), r.Ok?)
        && (r.Ok? <==> Writable(FrameOf(Msg(typ, payload), send.log[|send.log| - 1])) && w.Sound())
      ensures r.Err? ==> (r.error.NotWritten? <==> Wrap(payload, padding, filler).Ok?)
      ensures w.reliable && ValidType(typ) ==> (r.Ok? <==> |payload| <= Capacity(padding))
    {
      WrapDomain(payload, padding, filler);
      hide Wrap, Honest, NonceAt, Unwrap, SequenceOf, AadOfSequence, EncodeFrame, CounterBytes;
      var wrapped := Wrap(payload, padding, filler);
      if wrapped.Err? {
        return Err(BadEnvelope(wrapped.error));
      }
      var plain := wrapped.value;
      ghost var k, m := |send.log|, Msg(typ, payload);
      var nonce := nonces.Next();
      var seqNo := SequenceOf(nonce);
      var cipher := send.Seal(nonce, plain, AadOfSequence(typ, SERVER_TO_CLIENT, seqNo));
      ghost var e := Sealed(nonce, AadOfSequence(typ, SERVER_TO_CLIENT, seqNo), plain, cipher);
      UnwrapOfWrap(payload, padding, filler);
      SequenceOfNonceAt(nonces.salt, k);
      AadLayout(typ, SERVER_TO_CLIENT, k % U64_SPAN);
      HonestExtends(old(send.log), nonces.salt, SERVER_TO_CLIENT, sent, e, m);
      sent := sent + [m];
      var written := WriteFrame(w, Frame(typ, nonce, cipher));
      r := if written.Ok? then Ok(()) else Err(NotWritten(written.error));
    }

    /** Touches the receive counter only: the counter moves after Open. */
    method Read(r: Reader, typ: Byte) returns (res: Result<Bytes, ReceiveError>, ghost consumed: Bytes)
      requires Valid() && r.Valid()
      modifies `received, r, r.conn
      ensures Valid() && r.Valid() && r.Took(consumed)
      ensures res.Ok? ==> |consumed| >= HEADER_SIZE
      ensures res == Err(Framing(Faulted)) ==>
        received == old(received) && !r.NoFault() && ParseFrame(consumed).result == Err(Truncated)
      ensures res != Err(Framing(Faulted)) ==>
        && Verdict(res, received) ==
           Channels.Receive(Gateway, receive.log, CLIENT_TO_SERVER, old(received), typ, old(r.Stream()))
        && r.Stream() == ParseFrame(old(r.Stream())).rest
    {
      hide Honest, ParseFrame, Unwrap, Lookup, SequenceOf, AadOfSequence, EncodeFrame;
      var parsed;
      parsed, consumed := ReadFrame(r);
      if parsed.Err? {
        return Err(Framing(parsed.error)), consumed;
      }
      var f := parsed.value;
      if f.typ != typ {
        return Err(WrongType), consumed;
      }
      var seqNo := SequenceOf(f.nonce);
      if seqNo != received {
        return Err(WrongSequence), consumed;
      }
      var found := receive.Open(f.nonce, f.ciphertext, AadOfSequence(typ, CLIENT_TO_SERVER, seqNo));
      if found.None? {
        return Err(NotAuthentic), consumed;
      }
      received := Succ64(received);
      return Opened(found.value), consumed;
    }
  }
}
