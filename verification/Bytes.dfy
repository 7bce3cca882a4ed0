/** Bytes, big-endian integers and concatenation: what every wire format below is made of. */
module Bytes {

  type Byte = b: int | 0 <= b < 256
  type Bytes = seq<Byte>

  datatype Option<+T> = None | Some(value: T)

  datatype Result<+T, +E> = Ok(value: T) | Err(error: E)

  /** As many bytes as a write takes that fails, or all of them. */
  function Taken(data: Bytes, cut: Option<nat>): (r: Bytes)
    ensures r <= data && (cut.None? ==> r == data)
    ensures cut.Some? && cut.value <= |data| ==> |r| == cut.value
  {
    if cut.Some? && cut.value < |data| then data[..cut.value] else data
  }

  // ---------------------------------------------------------------- big-endian integers

  /** 256 to the power w: how many values w bytes can hold. */
  function Pow256(w: nat): (p: nat)
    ensures p > 0
  {
    if w == 0 then 1 else 256 * Pow256(w - 1)
  }

  /** The values of a uint64: the span of both the nonce counter and the receive counters. */
  const U64_SPAN: nat := 0x1_0000_0000_0000_0000

  function BigEndian(n: nat, w: nat): (s: Bytes)
    requires n < Pow256(w)
    ensures |s| == w
  {
    if w == 0 then [] else BigEndian(n / 256, w - 1) + [n % 256]
  }

  function FromBigEndian(s: Bytes): (n: nat)
    ensures n < Pow256(|s|)
  {
    if s == [] then 0 else FromBigEndian(s[..|s| - 1]) * 256 + s[|s| - 1]
  }

  lemma {:induction false} FromBigEndianInverts(n: nat, w: nat)
    requires n < Pow256(w)
    ensures FromBigEndian(BigEndian(n, w)) == n
  {
    if w > 0 {
      FromBigEndianInverts(n / 256, w - 1);
      var s := BigEndian(n, w);
      assert s[..|s| - 1] == BigEndian(n / 256, w - 1);
    }
  }

  lemma {:induction false} BigEndianInverts(s: Bytes)
    ensures BigEndian(FromBigEndian(s), |s|) == s
  {
    if s != [] {
      var front, last := s[..|s| - 1], s[|s| - 1];
      BigEndianInverts(front);
      var n := FromBigEndian(s);
      assert n / 256 == FromBigEndian(front) && n % 256 == last;
      assert s == front + [last];
    }
  }

  lemma Widths()
    ensures Pow256(2) == 0x1_0000
    ensures Pow256(8) == U64_SPAN
  {
    assert Pow256(1) == 256 * Pow256(0);
    assert Pow256(3) == 0x100_0000;
    assert Pow256(5) == 0x100_0000_0000;
    assert Pow256(7) == 0x100_0000_0000_0000;
  }

  /** A 16-bit length field. */
  function U16(n: nat): (s: Bytes)
    requires n < 0x1_0000
    ensures |s| == 2 && FromBigEndian(s) == n
  {
    Widths();
    FromBigEndianInverts(n, 2);
    BigEndian(n, 2)
  }

  /** A 64-bit counter field. */
  function U64(n: nat): (s: Bytes)
    requires n < U64_SPAN
    ensures |s| == 8 && FromBigEndian(s) == n
  {
    Widths();
    FromBigEndianInverts(n, 8);
    BigEndian(n, 8)
  }

  lemma U16OfField(s: Bytes)
    requires |s| == 2
    ensures FromBigEndian(s) < 0x1_0000 && U16(FromBigEndian(s)) == s
  {
    Widths();
    BigEndianInverts(s);
  }

  lemma U64OfField(s: Bytes)
    requires |s| == 8
    ensures FromBigEndian(s) < U64_SPAN && U64(FromBigEndian(s)) == s
  {
    Widths();
    BigEndianInverts(s);
  }

  /** Dividing twice is dividing once by the product. */
  lemma DivideTwice(n: nat, b: nat)
    requires b > 0
    ensures n / 256 / b == n / (256 * b)
  {
    var q, x := n / 256 / b, n / 256 % b;
    assert n / 256 == b * q + x;
    assert 256 * b * q == 256 * (b * q);
    QuotientIs(n, 256 * b, q, 256 * x + n % 256);
  }

  lemma QuotientIs(n: nat, d: nat, q: nat, rest: nat)
    requires d > 0 && n == d * q + rest && rest < d
    ensures n / d == q
  {
    var k := n / d;
    assert n == d * k + n % d;
    StepUp(d, k, q);
    StepUp(d, q, k);
  }

  lemma {:induction false} StepUp(d: nat, a: nat, b: nat)
    ensures a < b ==> d * a + d <= d * b
    decreases b
  {
    if a < b {
      assert d * b == d * (b - 1) + d;
      StepUp(d, a, b - 1);
    }
  }

  /** The most significant byte comes first. */
  lemma {:induction false} BigEndianAt(n: nat, w: nat, i: nat)
    requires n < Pow256(w) && i < w
    ensures BigEndian(n, w)[i] == n / Pow256(w - 1 - i) % 256
  {
    if i + 1 < w {
      BigEndianAt(n / 256, w - 1, i);
      DivideTwice(n, Pow256(w - 2 - i));
    }
  }

  /** The bytes of a 16-bit field, and their value. */
  lemma U16Layout(n: nat)
    requires n < 0x1_0000
    ensures U16(n) == [n / 256, n % 256]
  {
    Widths();
    BigEndianAt(n, 2, 0);
    BigEndianAt(n, 2, 1);
  }

  lemma U16Value(s: Bytes)
    requires |s| == 2
    ensures FromBigEndian(s) == s[0] as int * 256 + s[1]
  {
    U16OfField(s);
    U16Layout(FromBigEndian(s));
  }

  /** The bytes of a 64-bit field. */
  lemma U64Layout(n: nat)
    requires n < U64_SPAN
    ensures U64(n) == [n / 0x100_0000_0000_0000, n / 0x1_0000_0000_0000 % 256, n / 0x100_0000_0000 % 256,
                       n / 0x1_0000_0000 % 256, n / 0x100_0000 % 256, n / 0x1_0000 % 256, n / 0x100 % 256, n % 256]
  {
    hide BigEndian, Pow256;
    Powers();
    Widths();
    BigEndianAt(n, 8, 0);
    BigEndianAt(n, 8, 1);
    BigEndianAt(n, 8, 2);
    BigEndianAt(n, 8, 3);
    BigEndianAt(n, 8, 4);
    BigEndianAt(n, 8, 5);
    BigEndianAt(n, 8, 6);
    BigEndianAt(n, 8, 7);
  }

  lemma Powers()
    ensures Pow256(0) == 1 && Pow256(1) == 0x100 && Pow256(2) == 0x1_0000 && Pow256(3) == 0x100_0000
    ensures Pow256(4) == 0x1_0000_0000 && Pow256(5) == 0x100_0000_0000 && Pow256(6) == 0x1_0000_0000_0000
    ensures Pow256(7) == 0x100_0000_0000_0000
  {
  }

  // ---------------------------------------------------------------- concatenation

  function Concat<T>(parts: seq<seq<T>>): seq<T>
  {
    if parts == [] then [] else parts[0] + Concat(parts[1..])
  }

  lemma ConcatOfCons<T>(first: seq<T>, rest: seq<seq<T>>)
    ensures Concat([first] + rest) == first + Concat(rest)
  {
    assert ([first] + rest)[1..] == rest;
  }

  lemma {:induction false} ConcatOfSum<T>(a: seq<seq<T>>, b: seq<seq<T>>)
    ensures Concat(a + b) == Concat(a) + Concat(b)
  {
    if a == [] {
      assert a + b == b;
    } else {
      ConcatOfSum(a[1..], b);
      assert (a + b)[1..] == a[1..] + b;
      assert a[0] + (Concat(a[1..]) + Concat(b)) == a[0] + Concat(a[1..]) + Concat(b);
    }
  }

  lemma ConcatOfSnoc<T>(a: seq<seq<T>>, last: seq<T>)
    ensures Concat(a + [last]) == Concat(a) + last
  {
    ConcatOfSum(a, [last]);
    assert Concat([last]) == last + Concat([]);
  }

  lemma ConcatOfPrefix<T>(a: seq<seq<T>>, k: nat)
    requires k <= |a|
    ensures Concat(a[..k]) <= Concat(a)
  {
    ConcatOfSum(a[..k], a[k..]);
    assert a == a[..k] + a[k..];
  }
}
