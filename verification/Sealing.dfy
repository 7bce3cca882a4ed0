/** Nonces, associated data and the sealing of frames under an ideal AEAD. */
module Sealing {
  import opened Bytes
  import opened Frames
  import opened Envelope

  // ---------------------------------------------------------------- nonces

  type Salt = s: Bytes | |s| == 4 witness [0, 0, 0, 0]

  /** The nonce of the count-th frame of a connection: salt, then the 64-bit counter. */
  function NonceAt(salt: Salt, count: nat): Nonce
  {
    salt + U64(count % U64_SPAN)
  }

  /** The sequence number a receiver reads out of a nonce. */
  function SequenceOf(nonce: Nonce): (seqNo: nat)
    ensures seqNo < U64_SPAN
  {
    U64OfField(nonce[4..]);
    FromBigEndian(nonce[4..])
  }

  lemma SequenceOfNonceAt(salt: Salt, count: nat)
    ensures SequenceOf(NonceAt(salt, count)) == count % U64_SPAN
  {
    assert NonceAt(salt, count)[4..] == U64(count % U64_SPAN);
  }

  /** Nonces repeat under one salt only, after exactly the full 64-bit span, and never before. */
  lemma NoncesRepeatExactlyOnWrap(a: Salt, i: nat, b: Salt, j: nat)
    ensures NonceAt(a, i) == NonceAt(b, j) <==> a == b && i % U64_SPAN == j % U64_SPAN
  {
    SequenceOfNonceAt(a, i);
    SequenceOfNonceAt(b, j);
    assert NonceAt(a, i)[..4] == a && NonceAt(b, j)[..4] == b;
  }

  /** The eight bytes of a counter, most significant first. */
  function CounterBytes(n: nat): (s: Bytes)
    requires n < U64_SPAN
  {
    [n / 0x100_0000_0000_0000, n / 0x1_0000_0000_0000 % 256, n / 0x100_0000_0000 % 256,
     n / 0x1_0000_0000 % 256, n / 0x100_0000 % 256, n / 0x1_0000 % 256, n / 0x100 % 256, n % 256]
  }

  /** A uint64 counter, one per direction; issued counts without wrapping. */
  class NonceCounter {
    const salt: Salt
    var counter: nat
    ghost var issued: nat

    ghost predicate Valid()
      reads this
    {
      counter == issued % U64_SPAN
    }

    constructor (salt: Salt)
      ensures Valid() && this.salt == salt && issued == 0
    {
      this.salt := salt;
      counter, issued := 0, 0;
    }

    lemma Wraps(n: nat)
      ensures (n + 1) % U64_SPAN == if n % U64_SPAN + 1 == U64_SPAN then 0 else n % U64_SPAN + 1
    {
    }

    method Next() returns (nonce: Nonce)
      requires Valid()
      modifies this
      ensures Valid()
      ensures nonce == NonceAt(salt, old(issued))
      ensures nonce == salt + CounterBytes(old(issued) % U64_SPAN)
      ensures issued == old(issued) + 1
    {
      hide U64;
      Wraps(issued);
      var count := counter;
      counter := if counter + 1 == U64_SPAN then 0 else counter + 1;
      issued := issued + 1;
      U64Layout(count);
      nonce := salt + U64(count);
    }
  }

  // ---------------------------------------------------------------- associated data

  /** The gateway's form: type, direction, and the sequence number encoded afresh. */
  function AadOfSequence(typ: Byte, dir: Byte, seqNo: nat): (a: Bytes)
    requires seqNo < U64_SPAN
  {
    [typ, dir] + U64(seqNo)
  }

  /** The transport's form: type, direction, and the nonce's own counter bytes. */
  function AadOfNonce(typ: Byte, dir: Byte, nonce: Nonce): (a: Bytes)
  {
    [typ, dir] + nonce[4..]
  }

  /** Both endpoints authenticate the same ten bytes, whatever nonce arrives. */
  lemma AadFormsAgree(typ: Byte, dir: Byte, nonce: Nonce)
    ensures AadOfSequence(typ, dir, SequenceOf(nonce)) == AadOfNonce(typ, dir, nonce)
  {
    U64OfField(nonce[4..]);
  }

  /** Type, direction and sequence number are all pinned by the associated data. */
  lemma AadIsInjective(t: Byte, d: Byte, m: nat, t': Byte, d': Byte, n: nat)
    requires m < U64_SPAN && n < U64_SPAN
    ensures AadOfSequence(t, d, m) == AadOfSequence(t', d', n) <==> t == t' && d == d' && m == n
  {
    var a, b := AadOfSequence(t, d, m), AadOfSequence(t', d', n);
    assert a[2..] == U64(m) && b[2..] == U64(n);
    assert a[0] == t && b[0] == t' && a[1] == d && b[1] == d';
  }

  /** The ten bytes both endpoints authenticate. */
  lemma AadLayout(typ: Byte, dir: Byte, seqNo: nat)
    requires seqNo < U64_SPAN
    ensures AadOfSequence(typ, dir, seqNo) == [typ, dir] + CounterBytes(seqNo)
  {
    U64Layout(seqNo);
  }

  // ---------------------------------------------------------------- the ideal AEAD

  datatype Sealed = Sealed(nonce: Nonce, aad: Bytes, plain: Bytes, cipher: Bytes)

  predicate Matches(e: Sealed, nonce: Nonce, cipher: Bytes, aad: Bytes)
  {
    e.nonce == nonce && e.aad == aad && e.cipher == cipher
  }

  /** Opening succeeds exactly on what was sealed under the key. */
  function Lookup(log: seq<Sealed>, nonce: Nonce, cipher: Bytes, aad: Bytes): Option<Bytes>
  {
    if log == [] then None
    else if Matches(log[0], nonce, cipher, aad) then Some(log[0].plain)
    else Lookup(log[1..], nonce, cipher, aad)
  }

  lemma {:induction false} LookupFinds(log: seq<Sealed>, nonce: Nonce, cipher: Bytes, aad: Bytes)
    ensures var r := Lookup(log, nonce, cipher, aad);
      && (r.Some? <==> exists i :: 0 <= i < |log| && Matches(log[i], nonce, cipher, aad))
      && (r.Some? ==> exists i :: 0 <= i < |log| && log[i] == Sealed(nonce, aad, r.value, cipher))
  {
    if log != [] {
      LookupFinds(log[1..], nonce, cipher, aad);
      assert forall i :: 0 < i < |log| ==> log[i] == log[1..][i - 1];
    }
  }

  /**
    * One key. Both endpoints hold the same object, so its log is the list of everything ever
    * sealed under the key. Callers learn only the length of a ciphertext and that it was logged;
    * the body below is one concrete instance of that contract.
    */
  class Aead {
    var log: seq<Sealed>

    constructor ()
      ensures log == []
    {
      log := [];
    }

    method Seal(nonce: Nonce, plain: Bytes, aad: Bytes) returns (cipher: Bytes)
      modifies this
      ensures |cipher| == |plain| + OVERHEAD
      ensures log == old(log) + [Sealed(nonce, aad, plain, cipher)]
    {
      cipher := plain + seq(OVERHEAD, _ => 0);
      log := log + [Sealed(nonce, aad, plain, cipher)];
    }

    method Open(nonce: Nonce, cipher: Bytes, aad: Bytes) returns (r: Option<Bytes>)
      ensures r == Lookup(log, nonce, cipher, aad)
    {
      r := None;
      var i := |log|;
      assert log[i..] == [];
      while i > 0
        invariant 0 <= i <= |log|
        invariant r == Lookup(log[i..], nonce, cipher, aad)
      {
        i := i - 1;
        assert log[i..][1..] == log[i + 1..];
        if Matches(log[i], nonce, cipher, aad) {
          r := Some(log[i].plain);
        }
      }
      assert log[0..] == log;
    }
  }

  // ---------------------------------------------------------------- honest senders

  /** What an endpoint means to send: a frame type and a payload. */
  datatype Msg = Msg(typ: Byte, payload: Bytes)

  function Payloads(ms: seq<Msg>): (ps: seq<Bytes>)
    ensures |ps| == |ms|
    ensures forall i :: 0 <= i < |ms| ==> ps[i] == ms[i].payload
  {
    seq(|ms|, i requires 0 <= i < |ms| => ms[i].payload)
  }

  /** e is the k-th thing a sender with this salt and direction sealed, and it carries m. */
  ghost predicate SealsMessage(e: Sealed, salt: Salt, dir: Byte, k: nat, m: Msg)
  {
    && e.nonce == NonceAt(salt, k)
    && e.aad == AadOfSequence(m.typ, dir, k % U64_SPAN)
    && Unwrap(e.plain) == Ok(m.payload)
    && |e.cipher| == |e.plain| + OVERHEAD
  }

  /** The log of a key used by one honest sender: its k-th entry carries its k-th message. */
  ghost predicate Honest(log: seq<Sealed>, salt: Salt, dir: Byte, sent: seq<Msg>)
  {
    && |log| == |sent|
    && forall k :: 0 <= k < |log| ==> SealsMessage(log[k], salt, dir, k, sent[k])
  }

  lemma HonestLengths(log: seq<Sealed>, salt: Salt, dir: Byte, sent: seq<Msg>)
    requires Honest(log, salt, dir, sent)
    ensures |log| == |sent|
  {
  }

  lemma HonestExtends(log: seq<Sealed>, salt: Salt, dir: Byte, sent: seq<Msg>, e: Sealed, m: Msg)
    requires Honest(log, salt, dir, sent)
    requires SealsMessage(e, salt, dir, |log|, m)
    ensures Honest(log + [e], salt, dir, sent + [m])
  {
    hide SealsMessage;
    var log', sent' := log + [e], sent + [m];
    forall k | 0 <= k < |log'| ensures SealsMessage(log'[k], salt, dir, k, sent'[k]) {
      if k < |log| {
        assert SealsMessage(log[k], salt, dir, k, sent[k]);
      }
    }
  }

  /** The frame that takes a sealed message over the wire. */
  function FrameOf(m: Msg, e: Sealed): Frame
  {
    Frame(m.typ, e.nonce, e.cipher)
  }

  function FramesOf(sent: seq<Msg>, log: seq<Sealed>): (fs: seq<Frame>)
    requires |sent| == |log|
    ensures |fs| == |log|
    ensures forall k :: 0 <= k < |log| ==> fs[k] == FrameOf(sent[k], log[k])
  {
    seq(|log|, k requires 0 <= k < |log| => FrameOf(sent[k], log[k]))
  }

  /** Under an honest log whose counter has not wrapped, opening the k-th entry gives its plaintext. */
  lemma HonestEntryOpens(log: seq<Sealed>, salt: Salt, dir: Byte, sent: seq<Msg>, k: nat)
    requires Honest(log, salt, dir, sent)
    requires k < |log| <= U64_SPAN
    ensures Lookup(log, log[k].nonce, log[k].cipher, log[k].aad) == Some(log[k].plain)
  {
    hide Unwrap, NonceAt, U64, Lookup, AadOfSequence;
    var e := log[k];
    assert SealsMessage(e, salt, dir, k, sent[k]);
    assert Matches(log[k], e.nonce, e.cipher, e.aad);
    LookupFinds(log, e.nonce, e.cipher, e.aad);
    var r := Lookup(log, e.nonce, e.cipher, e.aad);
    var j :| 0 <= j < |log| && log[j] == Sealed(e.nonce, e.aad, r.value, e.cipher);
    assert SealsMessage(log[j], salt, dir, j, sent[j]);
    NoncesRepeatExactlyOnWrap(salt, j, salt, k);
  }

  /** And nothing else opens: what opens with sequence number k is the k-th entry. */
  lemma HonestOpenIsEntry(log: seq<Sealed>, salt: Salt, dir: Byte, sent: seq<Msg>,
                          nonce: Nonce, cipher: Bytes, aad: Bytes)
    requires Honest(log, salt, dir, sent)
    requires |log| <= U64_SPAN
    requires Lookup(log, nonce, cipher, aad).Some?
    ensures SequenceOf(nonce) < |log|
    ensures log[SequenceOf(nonce)] == Sealed(nonce, aad, Lookup(log, nonce, cipher, aad).value, cipher)
  {
    hide Unwrap, NonceAt, U64, Lookup, AadOfSequence, SequenceOf;
    var plain := Lookup(log, nonce, cipher, aad).value;
    LookupFinds(log, nonce, cipher, aad);
    var j :| 0 <= j < |log| && log[j] == Sealed(nonce, aad, plain, cipher);
    assert SealsMessage(log[j], salt, dir, j, sent[j]);
    SequenceOfNonceAt(salt, j);
  }
}
