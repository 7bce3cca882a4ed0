/** The plaintext envelope (Original Length (2) | Payload) and its block padding. */
module Envelope {
  import opened Bytes

  const MAX_PAYLOAD: nat := 0xffff
  const BLOCK_SIZES: seq<nat> := [512, 1024, 1460]

  /** The Poly1305 tag: what Seal adds to a plaintext (RFC 8439, section 2.8). */
  const OVERHEAD: nat := 16

  datatype EnvelopeError =
    | PayloadTooLarge | EnvelopeTooLarge | EnvelopeTooShort | PrefixExceedsEnvelope | LengthMismatch

  function EncodePayload(payload: Bytes): Result<Bytes, EnvelopeError>
  {
    if |payload| > MAX_PAYLOAD then Err(PayloadTooLarge)
    else Ok(U16(|payload|) + payload)
  }

  function DecodePayload(envelope: Bytes): Result<Bytes, EnvelopeError>
  {
    if |envelope| < 2 then Err(EnvelopeTooShort)
    else if FromBigEndian(envelope[..2]) != |envelope[2..]| then Err(LengthMismatch)
    else Ok(envelope[2..])
  }

  // ---------------------------------------------------------------- padding

  ghost predicate Fits(b: int, dataLen: nat, overhead: int)
  {
    b - overhead >= dataLen
  }

  /** The first of the ascending block sizes with room for dataLen bytes and the tag. */
  function BlockFor(dataLen: nat, overhead: int): Option<nat>
  {
    if 512 - overhead >= dataLen then Some(512)
    else if 1024 - overhead >= dataLen then Some(1024)
    else if 1460 - overhead >= dataLen then Some(1460)
    else None
  }

  /** The early-exit search over the configured sizes finds the least one that fits. */
  method SelectBlockSize(dataLen: nat, overhead: int) returns (r: Result<nat, EnvelopeError>)
    ensures r.Ok? ==> r.value in BLOCK_SIZES && Fits(r.value, dataLen, overhead)
    ensures r.Ok? ==> forall b :: b in BLOCK_SIZES && Fits(b, dataLen, overhead) ==> r.value <= b
    ensures r.Err? <==> forall b :: b in BLOCK_SIZES ==> !Fits(b, dataLen, overhead)
    ensures r.Err? ==> r.error == EnvelopeTooLarge
    ensures r == (match BlockFor(dataLen, overhead) case Some(b) => Ok(b) case None => Err(EnvelopeTooLarge))
  {
    for i := 0 to |BLOCK_SIZES|
      invariant forall j :: 0 <= j < i ==> !Fits(BLOCK_SIZES[j], dataLen, overhead)
    {
      if BLOCK_SIZES[i] - overhead >= dataLen {
        assert Fits(BLOCK_SIZES[i], dataLen, overhead);
        assert i == 1 || i == 2 ==> !Fits(BLOCK_SIZES[0], dataLen, overhead);
        assert i == 2 ==> !Fits(BLOCK_SIZES[1], dataLen, overhead);
        return Ok(BLOCK_SIZES[i]);
      }
    }
    assert !Fits(BLOCK_SIZES[0], dataLen, overhead) && !Fits(BLOCK_SIZES[1], dataLen, overhead)
      && !Fits(BLOCK_SIZES[2], dataLen, overhead);
    return Err(EnvelopeTooLarge);
  }

  /** Pad with the given source of filler: as many of its bytes as are needed are used. */
  function Pad(envelope: Bytes, overhead: int, filler: nat -> Byte): Result<Bytes, EnvelopeError>
  {
    match BlockFor(|envelope|, overhead)
    case None => Err(EnvelopeTooLarge)
    case Some(b) => Ok(envelope + seq(b - overhead - |envelope|, i requires i >= 0 => filler(i)))
  }

  function Unpad(padded: Bytes): Result<Bytes, EnvelopeError>
  {
    if |padded| < 2 then Err(EnvelopeTooShort)
    else
      var realLen := 2 + FromBigEndian(padded[..2]);
      if realLen > |padded| then Err(PrefixExceedsEnvelope) else Ok(padded[..realLen])
  }

  // ---------------------------------------------------------------- the two pipelines

  /** Send side: EncodePayload, then Pad when padding is enabled. */
  function Wrap(payload: Bytes, padding: bool, filler: nat -> Byte): Result<Bytes, EnvelopeError>
  {
    match EncodePayload(payload)
    case Err(e) => Err(e)
    case Ok(envelope) => if padding then Pad(envelope, OVERHEAD, filler) else Ok(envelope)
  }

  /** Receive side: Unpad (always), then DecodePayload. */
  function Unwrap(plain: Bytes): Result<Bytes, EnvelopeError>
  {
    match Unpad(plain)
    case Err(e) => Err(e)
    case Ok(envelope) => DecodePayload(envelope)
  }

  /** Anything starting with an envelope unwraps to that envelope's payload. */
  lemma UnwrapOfExtension(payload: Bytes, tail: Bytes)
    requires |payload| <= MAX_PAYLOAD
    ensures Unwrap(U16(|payload|) + payload + tail) == Ok(payload)
  {
    var plain := U16(|payload|) + payload + tail;
    assert plain[..2] == U16(|payload|);
    var envelope := plain[..2 + |payload|];
    assert envelope == U16(|payload|) + payload;
    assert envelope[..2] == U16(|payload|) && envelope[2..] == payload;
  }

  /** Receiving inverts sending for every payload, filler and padding setting. */
  lemma UnwrapOfWrap(payload: Bytes, padding: bool, filler: nat -> Byte)
    requires Wrap(payload, padding, filler).Ok?
    ensures Unwrap(Wrap(payload, padding, filler).value) == Ok(payload)
  {
    var envelope := EncodePayload(payload).value;
    var plain := Wrap(payload, padding, filler).value;
    assert plain == envelope + plain[|envelope|..];
    UnwrapOfExtension(payload, plain[|envelope|..]);
  }

  /** The plaintext byte by byte: the payload's length, the payload, and with padding as much filler as fits. */
  lemma WrapLayout(payload: Bytes, padding: bool, filler: nat -> Byte)
    requires Wrap(payload, padding, filler).Ok?
    ensures var plain, head := Wrap(payload, padding, filler).value, 2 + |payload|;
      && head <= |plain|
      && plain[..head] == [|payload| / 256, |payload| % 256] + payload
      && (forall i :: 0 <= i < |plain| - head ==> plain[head + i] == filler(i))
      && (!padding ==> |plain| == head)
  {
    U16Layout(|payload|);
  }

  /** What a receiver makes of arbitrary plaintext: the announced bytes, if they are there. */
  lemma UnwrapExactly(plain: Bytes)
    ensures |plain| < 2 <==> Unwrap(plain) == Err(EnvelopeTooShort)
    ensures |plain| >= 2 ==>
      var end := 2 + plain[0] as int * 256 + plain[1];
      Unwrap(plain) == if end <= |plain| then Ok(plain[2..end]) else Err(PrefixExceedsEnvelope)
  {
    DecodeFollowsUnpad(plain);
    if |plain| >= 2 {
      U16Value(plain[..2]);
    }
  }

  /** On arbitrary plaintext the two receive steps never disagree: once Unpad succeeds, so does DecodePayload. */
  lemma DecodeFollowsUnpad(plain: Bytes)
    ensures Unpad(plain).Ok? <==> Unwrap(plain).Ok?
    ensures Unwrap(plain).Ok? ==>
      U16(|Unwrap(plain).value|) + Unwrap(plain).value <= plain
  {
    if Unpad(plain).Ok? {
      var envelope := Unpad(plain).value;
      assert envelope[..2] == plain[..2];
      U16OfField(plain[..2]);
      assert envelope == U16(|envelope| - 2) + envelope[2..];
    }
  }

  /** Exactly which payloads the send side accepts, and how long the plaintext is. */
  lemma WrapDomain(payload: Bytes, padding: bool, filler: nat -> Byte)
    ensures Wrap(payload, padding, filler).Ok? <==> |payload| <= if padding then 1442 else MAX_PAYLOAD
    ensures Wrap(payload, padding, filler).Ok? ==>
      |Wrap(payload, padding, filler).value| + OVERHEAD ==
        if padding then Bucket(|payload|) else |payload| + 18
  {
  }

  /** The ciphertext length a padded payload of n bytes is hidden in. */
  function Bucket(n: nat): (b: nat)
    requires n <= 1442
    ensures b in BLOCK_SIZES && n + 18 <= b
    ensures forall c :: c in BLOCK_SIZES && n + 18 <= c ==> b <= c
  {
    if n <= 494 then 512 else if n <= 1006 then 1024 else 1460
  }
}
