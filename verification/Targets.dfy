/**
  * Target addresses: how the SOCKS side joins host and port, how both validators take them apart,
  * and which targets survive the trip. Text is bytes, as in a Go string.
  */
module Targets {
  import opened Bytes

  const COLON: Byte := 0x3a
  const OPEN_BRACKET: Byte := 0x5b
  const CLOSE_BRACKET: Byte := 0x5d
  const PLUS: Byte := 0x2b
  const MINUS: Byte := 0x2d
  const ZERO: Byte := 0x30

  const MAX_TARGET: nat := 1024

  // ---------------------------------------------------------------- finding bytes

  function IndexOf(s: Bytes, b: Byte): (i: int)
    ensures -1 <= i < |s|
    ensures i < 0 <==> b !in s
    ensures i >= 0 ==> s[i] == b && b !in s[..i]
  {
    if s == [] then -1
    else if s[0] == b then 0
    else
      var i := IndexOf(s[1..], b);
      assert s == [s[0]] + s[1..];
      if i < 0 then -1
      else
        assert s[..i + 1] == [s[0]] + s[1..][..i];
        i + 1
  }

  function LastIndexOf(s: Bytes, b: Byte): (i: int)
    ensures -1 <= i < |s|
    ensures i < 0 <==> b !in s
    ensures i >= 0 ==> s[i] == b && b !in s[i + 1..]
  {
    if s == [] then -1
    else if s[|s| - 1] == b then |s| - 1
    else
      var front := s[..|s| - 1];
      assert s == front + [s[|s| - 1]];
      var i := LastIndexOf(front, b);
      assert i >= 0 ==> s[i + 1..] == front[i + 1..] + [s[|s| - 1]];
      i
  }

  // ---------------------------------------------------------------- net.SplitHostPort and net.JoinHostPort

  datatype SplitError = MissingPort | TooManyColons | MissingBracket | UnexpectedOpen | UnexpectedClose

  datatype HostPort = HostPort(host: Bytes, port: Bytes)

  function JoinHostPort(host: Bytes, port: Bytes): Bytes
  {
    if COLON in host then [OPEN_BRACKET] + host + [CLOSE_BRACKET, COLON] + port else host + [COLON] + port
  }

  function SplitHostPort(s: Bytes): Result<HostPort, SplitError>
  {
    var i := LastIndexOf(s, COLON);
    if i < 0 then Err(MissingPort)
    else if s[0] == OPEN_BRACKET then
      var end := IndexOf(s, CLOSE_BRACKET);
      if end < 0 then Err(MissingBracket)
      else if end + 1 == |s| then Err(MissingPort)
      else if end + 1 != i then Err(if s[end + 1] == COLON then TooManyColons else MissingPort)
      else if OPEN_BRACKET in s[1..] then Err(UnexpectedOpen)
      else if CLOSE_BRACKET in s[end + 1..] then Err(UnexpectedClose)
      else Ok(HostPort(s[1..end], s[i + 1..]))
    else if COLON in s[..i] then Err(TooManyColons)
    else if OPEN_BRACKET in s then Err(UnexpectedOpen)
    else if CLOSE_BRACKET in s then Err(UnexpectedClose)
    else Ok(HostPort(s[..i], s[i + 1..]))
  }

  predicate Bracketless(s: Bytes)
  {
    OPEN_BRACKET !in s && CLOSE_BRACKET !in s
  }

  /** A host that is itself in brackets, and what is inside them. */
  predicate InBrackets(s: Bytes)
  {
    && |s| >= 2 && s[0] == OPEN_BRACKET && s[|s| - 1] == CLOSE_BRACKET
    && Bracketless(s[1..|s| - 1])
    && COLON !in s
  }

  lemma LastColon(a: Bytes, port: Bytes)
    requires COLON !in port
    ensures LastIndexOf(a + [COLON] + port, COLON) == |a|
  {
    var s := a + [COLON] + port;
    var i := LastIndexOf(s, COLON);
    assert s[|a|] == COLON && s[|a| + 1..] == port;
  }

  lemma FirstBracket(a: Bytes, b: Bytes)
    requires CLOSE_BRACKET !in a
    ensures IndexOf(a + [CLOSE_BRACKET] + b, CLOSE_BRACKET) == |a|
  {
    var s := a + [CLOSE_BRACKET] + b;
    var i := IndexOf(s, CLOSE_BRACKET);
    assert s[|a|] == CLOSE_BRACKET;
  }

  /** [x]:port splits to x and port, colons in x or not. */
  lemma SplitBracketed(x: Bytes, port: Bytes)
    requires Bracketless(x) && Bracketless(port) && COLON !in port
    ensures SplitHostPort([OPEN_BRACKET] + x + [CLOSE_BRACKET, COLON] + port) == Ok(HostPort(x, port))
  {
    hide IndexOf, LastIndexOf, Bracketless;
    BracketedParts(x, port);
    BracketedStrays(x, port);
  }

  lemma BracketedParts(x: Bytes, port: Bytes)
    requires Bracketless(x) && COLON !in port
    ensures var s := [OPEN_BRACKET] + x + [CLOSE_BRACKET, COLON] + port;
      && LastIndexOf(s, COLON) == |x| + 2
      && IndexOf(s, CLOSE_BRACKET) == |x| + 1
      && s[1..|x| + 1] == x && s[|x| + 3..] == port
  {
    hide IndexOf, LastIndexOf, Bracketless;
    var inner, s := [OPEN_BRACKET] + x, [OPEN_BRACKET] + x + [CLOSE_BRACKET, COLON] + port;
    assert s == (inner + [CLOSE_BRACKET]) + [COLON] + port;
    LastColon(inner + [CLOSE_BRACKET], port);
    ClosingPart(x, port);
    assert s[1..|x| + 1] == x && s[|x| + 3..] == port;
  }

  lemma ClosingPart(x: Bytes, port: Bytes)
    requires Bracketless(x)
    ensures IndexOf([OPEN_BRACKET] + x + [CLOSE_BRACKET, COLON] + port, CLOSE_BRACKET) == |x| + 1
  {
    hide IndexOf, Bracketless;
    var inner := [OPEN_BRACKET] + x;
    assert inner + [CLOSE_BRACKET, COLON] + port == inner + [CLOSE_BRACKET] + ([COLON] + port);
    NoClosing(x);
    FirstBracket(inner, [COLON] + port);
  }

  lemma NoClosing(x: Bytes)
    requires Bracketless(x)
    ensures CLOSE_BRACKET !in [OPEN_BRACKET] + x
  {
  }

  lemma BracketedStrays(x: Bytes, port: Bytes)
    requires Bracketless(x) && Bracketless(port)
    ensures var s := [OPEN_BRACKET] + x + [CLOSE_BRACKET, COLON] + port;
      OPEN_BRACKET !in s[1..] && CLOSE_BRACKET !in s[|x| + 2..]
  {
    var s := [OPEN_BRACKET] + x + [CLOSE_BRACKET, COLON] + port;
    assert s[1..] == x + [CLOSE_BRACKET, COLON] + port;
    assert s[|x| + 2..] == [COLON] + port;
  }

  lemma SplitPlain(host: Bytes, port: Bytes)
    requires Bracketless(host) && COLON !in host && Bracketless(port) && COLON !in port
    ensures SplitHostPort(host + [COLON] + port) == Ok(HostPort(host, port))
  {
    hide IndexOf, LastIndexOf;
    var s := host + [COLON] + port;
    LastColon(host, port);
    assert s[..|host|] == host && s[|host| + 1..] == port;
    assert s[0] != OPEN_BRACKET;
  }

  /** host:port, without another colon and without brackets. */
  predicate IsPlain(s: Bytes, hp: HostPort)
  {
    && s == hp.host + [COLON] + hp.port
    && Bracketless(hp.host) && COLON !in hp.host && Bracketless(hp.port) && COLON !in hp.port
  }

  /** [host]:port, with colons in the host only and no other bracket. */
  predicate IsBracketed(s: Bytes, hp: HostPort)
  {
    && s == [OPEN_BRACKET] + hp.host + [CLOSE_BRACKET, COLON] + hp.port
    && Bracketless(hp.host) && Bracketless(hp.port) && COLON !in hp.port
  }

  /** Exactly which texts split, and into what. */
  lemma SplitExactly(s: Bytes, hp: HostPort)
    ensures SplitHostPort(s) == Ok(hp) <==> IsPlain(s, hp) || IsBracketed(s, hp)
  {
    if SplitHostPort(s) == Ok(hp) {
      SplitShape(s);
    }
    if IsPlain(s, hp) {
      SplitPlain(hp.host, hp.port);
    } else if IsBracketed(s, hp) {
      SplitBracketed(hp.host, hp.port);
    }
  }

  lemma SplitShape(s: Bytes)
    requires SplitHostPort(s).Ok?
    ensures var hp := SplitHostPort(s).value; IsPlain(s, hp) || IsBracketed(s, hp)
  {
    hide IndexOf, LastIndexOf;
    var i, hp := LastIndexOf(s, COLON), SplitHostPort(s).value;
    if s[0] == OPEN_BRACKET {
      var end := IndexOf(s, CLOSE_BRACKET);
      assert s == [OPEN_BRACKET] + s[1..end] + [CLOSE_BRACKET, COLON] + s[i + 1..];
      assert forall b :: b in s[1..end] ==> b in s[1..] && b in s[..end];
      assert forall b :: b in s[i + 1..] ==> b in s[1..] && b in s[end + 1..];
    } else {
      assert s == s[..i] + [COLON] + s[i + 1..];
    }
  }

  /** Without brackets, what was joined is what splits off. */
  lemma SplitOfJoin(host: Bytes, port: Bytes)
    requires Bracketless(host) && Bracketless(port) && COLON !in port
    ensures SplitHostPort(JoinHostPort(host, port)) == Ok(HostPort(host, port))
  {
    hide SplitHostPort, Bracketless;
    if COLON in host {
      SplitBracketed(host, port);
    } else {
      SplitPlain(host, port);
    }
  }

  /** A bracketed, colon-free host loses its brackets on the way: it splits to what is inside. */
  lemma SplitOfBracketed(host: Bytes, port: Bytes)
    requires InBrackets(host) && Bracketless(port) && COLON !in port
    ensures SplitHostPort(JoinHostPort(host, port)) == Ok(HostPort(host[1..|host| - 1], port))
  {
    hide SplitHostPort, Bracketless;
    var x := host[1..|host| - 1];
    assert host == [OPEN_BRACKET] + x + [CLOSE_BRACKET];
    assert host + [COLON] + port == [OPEN_BRACKET] + x + [CLOSE_BRACKET, COLON] + port;
    SplitBracketed(x, port);
  }

  /** Any other host with a bracket in it is refused. */
  lemma SplitRefusesBrackets(host: Bytes, port: Bytes)
    requires !Bracketless(host) && !InBrackets(host) && Bracketless(port) && COLON !in port
    ensures SplitHostPort(JoinHostPort(host, port)).Err?
  {
    hide SplitHostPort;
    if COLON in host {
      RefusesWithColon(host, port);
    } else if host[0] == OPEN_BRACKET && CLOSE_BRACKET in host {
      RefusesBadPair(host, port);
    } else {
      RefusesStray(host, port);
    }
  }

  lemma RefusesWithColon(host: Bytes, port: Bytes)
    requires !Bracketless(host) && Bracketless(port) && COLON !in port
    ensures SplitHostPort([OPEN_BRACKET] + host + [CLOSE_BRACKET, COLON] + port).Err?
  {
    hide IndexOf, LastIndexOf;
    var s := [OPEN_BRACKET] + host + [CLOSE_BRACKET, COLON] + port;
    assert s == ([OPEN_BRACKET] + host + [CLOSE_BRACKET]) + [COLON] + port;
    LastColon([OPEN_BRACKET] + host + [CLOSE_BRACKET], port);
    if CLOSE_BRACKET in host {
      var p := IndexOf(host, CLOSE_BRACKET);
      var a := [OPEN_BRACKET] + host[..p];
      assert s == a + [CLOSE_BRACKET] + (host[p + 1..] + [CLOSE_BRACKET, COLON] + port);
      FirstBracket(a, host[p + 1..] + [CLOSE_BRACKET, COLON] + port);
    } else {
      var q := IndexOf(host, OPEN_BRACKET);
      assert s[1..][q] == OPEN_BRACKET;
    }
  }

  /** A closing bracket that is not the last byte, or an opening one inside. */
  lemma RefusesBadPair(host: Bytes, port: Bytes)
    requires COLON !in host && Bracketless(port) && COLON !in port
    requires host != [] && host[0] == OPEN_BRACKET && CLOSE_BRACKET in host && !InBrackets(host)
    ensures SplitHostPort(host + [COLON] + port).Err?
  {
    hide IndexOf, LastIndexOf;
    var s := host + [COLON] + port;
    LastColon(host, port);
    var p := IndexOf(host, CLOSE_BRACKET);
    var rest := host[p + 1..] + [COLON] + port;
    assert s == host[..p] + [CLOSE_BRACKET] + rest;
    FirstBracket(host[..p], rest);
    if p + 1 == |host| {
      var x := host[1..p];
      assert forall b :: b in x ==> b in host[..p];
      assert OPEN_BRACKET in x;
      var q := IndexOf(x, OPEN_BRACKET);
      assert s[1..][q] == OPEN_BRACKET;
    }
  }

  lemma RefusesStray(host: Bytes, port: Bytes)
    requires COLON !in host && Bracketless(port) && COLON !in port && !Bracketless(host)
    requires host[0] == OPEN_BRACKET ==> CLOSE_BRACKET !in host
    ensures SplitHostPort(host + [COLON] + port).Err?
  {
    hide IndexOf, LastIndexOf;
    var s := host + [COLON] + port;
    LastColon(host, port);
    assert forall b :: b in host ==> b in s;
    assert s[0] == host[0];
    if host[0] == OPEN_BRACKET {
      assert CLOSE_BRACKET !in s;
    }
  }

  // ---------------------------------------------------------------- decimal ports

  predicate IsDigit(b: Byte)
  {
    ZERO <= b <= ZERO + 9
  }

  predicate AllDigits(s: Bytes)
  {
    forall i :: 0 <= i < |s| ==> IsDigit(s[i])
  }

  function Decimal(s: Bytes): nat
    requires AllDigits(s)
  {
    if s == [] then 0 else Decimal(s[..|s| - 1]) * 10 + (s[|s| - 1] - ZERO)
  }

  /** strconv.Itoa on a port. */
  function Itoa(n: nat): (s: Bytes)
    ensures s != [] && AllDigits(s)
  {
    if n < 10 then [ZERO + n] else Itoa(n / 10) + [ZERO + n % 10]
  }

  lemma {:induction false} DecimalOfItoa(n: nat)
    ensures Decimal(Itoa(n)) == n
  {
    if n >= 10 {
      DecimalOfItoa(n / 10);
      assert Itoa(n)[..|Itoa(n)| - 1] == Itoa(n / 10);
    } else {
      var none: Bytes := [];
      assert Itoa(n)[..0] == none && Decimal(none) == 0;
    }
  }

  lemma {:induction false} ItoaLength(n: nat, digits: nat)
    requires n < 10 || digits > 1
    requires digits >= 1 && (digits == 1 ==> n < 10) && (digits == 2 ==> n < 100) && (digits == 3 ==> n < 1000)
    requires (digits == 4 ==> n < 10000) && (digits == 5 ==> n < 100000) && digits <= 5
    ensures |Itoa(n)| <= digits
    decreases digits
  {
    if n >= 10 {
      ItoaLength(n / 10, digits - 1);
    }
  }

  lemma PortTextIsPlain(n: nat)
    ensures Bracketless(Itoa(n)) && COLON !in Itoa(n)
  {
    var s := Itoa(n);
    forall b | b in s ensures IsDigit(b) {
      var i :| 0 <= i < |s| && s[i] == b;
      assert IsDigit(s[i]);
    }
    assert !IsDigit(COLON) && !IsDigit(OPEN_BRACKET) && !IsDigit(CLOSE_BRACKET);
  }

  /** strconv.Atoi: an optional sign, at least one digit, within 64 bits. */
  function Atoi(s: Bytes): Option<int>
  {
    var signed := s != [] && (s[0] == PLUS || s[0] == MINUS);
    var digits := if signed then s[1..] else s;
    if digits == [] || !AllDigits(digits) then None
    else
      var magnitude: int := Decimal(digits);
      var value := if signed && s[0] == MINUS then -magnitude else magnitude;
      if -0x8000_0000_0000_0000 <= value < 0x8000_0000_0000_0000 then Some(value) else None
  }

  // ---------------------------------------------------------------- the two validators

  /** The length of the white-space rune s starts with (unicode.IsSpace, in UTF-8), or 0. */
  function SpaceLength(s: Bytes): (n: nat)
    ensures n <= |s|
  {
    if |s| >= 1 && (9 <= s[0] <= 13 || s[0] == 32) then 1
    else if |s| >= 2 && s[0] == 0xc2 && (s[1] == 0x85 || s[1] == 0xa0) then 2
    else if |s| >= 3 && s[0] == 0xe1 && s[1] == 0x9a && s[2] == 0x80 then 3
    else if |s| >= 3 && s[0] == 0xe2 && s[1] == 0x80 &&
      (0x80 <= s[2] <= 0x8a || s[2] == 0xa8 || s[2] == 0xa9 || s[2] == 0xaf) then 3
    else if |s| >= 3 && s[0] == 0xe2 && s[1] == 0x81 && s[2] == 0x9f then 3
    else if |s| >= 3 && s[0] == 0xe3 && s[1] == 0x80 && s[2] == 0x80 then 3
    else 0
  }

  /** The UTF-8 encoding of a rune below 0x10000. */
  function Utf8(rune: nat): Bytes
    requires rune < 0x1_0000
  {
    if rune < 0x80 then [rune]
    else if rune < 0x800 then [0xc0 + rune / 64, 0x80 + rune % 64]
    else [0xe0 + rune / 4096, 0x80 + rune / 64 % 64, 0x80 + rune % 64]
  }

  /** Unicode's White_Space property. */
  predicate IsSpaceRune(rune: nat)
  {
    || 9 <= rune <= 13 || rune == 0x20 || rune == 0x85 || rune == 0xa0 || rune == 0x1680 || 0x2000 <= rune <= 0x200a
    || rune == 0x2028 || rune == 0x2029 || rune == 0x202f || rune == 0x205f || rune == 0x3000
  }

  /** A text starts with white space exactly if it starts with the encoding of a white-space rune. */
  lemma SpaceRunes(s: Bytes)
    ensures SpaceLength(s) > 0 <==> exists rune: nat :: rune < 0x1_0000 && IsSpaceRune(rune) && Utf8(rune) <= s
    ensures forall rune: nat :: rune < 0x1_0000 && IsSpaceRune(rune) && Utf8(rune) <= s ==>
      SpaceLength(s) == |Utf8(rune)|
  {
    hide SpaceLength, Utf8, IsSpaceRune;
    if SpaceLength(s) > 0 {
      var rune := SpaceInFront(s);
    }
    forall rune: nat | rune < 0x1_0000 && IsSpaceRune(rune) && Utf8(rune) <= s
      ensures SpaceLength(s) == |Utf8(rune)| > 0
    {
      RuneInFront(s, rune);
    }
  }

  lemma SpaceInFront(s: Bytes) returns (rune: nat)
    requires SpaceLength(s) > 0
    ensures rune < 0x1_0000 && IsSpaceRune(rune) && Utf8(rune) <= s
  {
    if SpaceLength(s) == 1 {
      rune := s[0];
    } else if SpaceLength(s) == 2 {
      rune := s[1];
    } else {
      rune := if s[0] == 0xe1 then 0x1680 else if s[0] == 0xe3 then 0x3000 else if s[1] == 0x81 then 0x205f
              else 0x2000 + (s[2] as int - 0x80);
      assert s[0] == 0xe2 && s[1] == 0x80 ==> Utf8(rune) == [0xe2, 0x80, s[2]];
    }
  }

  lemma RuneInFront(s: Bytes, rune: nat)
    requires rune < 0x1_0000 && IsSpaceRune(rune) && Utf8(rune) <= s
    ensures SpaceLength(s) == |Utf8(rune)| > 0
  {
    var u := Utf8(rune);
    assert forall i :: 0 <= i < |u| ==> s[i] == u[i];
    if 0x2000 <= rune <= 0x200a {
      assert u == [0xe2, 0x80, 0x80 + (rune - 0x2000)];
    }
  }

  /** strings.TrimSpace leaves nothing. */
  predicate Blank(s: Bytes)
    decreases |s|
  {
    s == [] || (SpaceLength(s) > 0 && Blank(s[SpaceLength(s)..]))
  }

  /** On ASCII text, blank means made of tab, newline, vertical tab, form feed, return and space only. */
  lemma {:induction false} BlankAscii(s: Bytes)
    requires forall i :: 0 <= i < |s| ==> s[i] < 128
    ensures Blank(s) <==> forall i :: 0 <= i < |s| ==> 9 <= s[i] <= 13 || s[i] == 32
    decreases |s|
  {
    if s != [] {
      var rest := s[1..];
      assert SpaceLength(s) <= 1;
      BlankAscii(rest);
      assert forall i :: 0 < i < |s| ==> s[i] == rest[i - 1];
    }
  }

  /** Port texts that count as 1 to 65535: digits, leading zeros allowed, after at most one plus sign. */
  lemma PortTextAccepted(p: Bytes)
    ensures var digits := PortDigits(p);
      (Atoi(p).Some? && 1 <= Atoi(p).value <= 65535) <==>
        digits != [] && AllDigits(digits) && 1 <= Decimal(digits) <= 65535
  {
    hide Decimal;
    if p != [] && p[0] == MINUS {
      assert !IsDigit(p[0]);
    }
  }

  datatype TargetError = EmptyTarget | TooLong | BadAddress(splitError: SplitError) | EmptyHost | BadPort
    | PortOutOfRange

  /** transport.validateTarget. */
  function ValidateTarget(target: Bytes): Result<HostPort, TargetError>
  {
    if target == [] then Err(EmptyTarget)
    else if |target| > MAX_TARGET then Err(TooLong)
    else
      match SplitHostPort(target)
      case Err(e) => Err(BadAddress(e))
      case Ok(hp) =>
        if Blank(hp.host) then Err(EmptyHost)
        else
          match Atoi(hp.port)
          case None => Err(BadPort)
          case Some(port) => if port < 1 || port > 65535 then Err(PortOutOfRange) else Ok(hp)
  }

  /** gateway.validateTunnelTarget, which does not tell an unreadable port from one out of range. */
  function ValidateTunnelTarget(target: Bytes): Result<HostPort, TargetError>
  {
    if target == [] then Err(EmptyTarget)
    else if |target| > MAX_TARGET then Err(TooLong)
    else
      match SplitHostPort(target)
      case Err(e) => Err(BadAddress(e))
      case Ok(hp) =>
        var port := Atoi(hp.port);
        if Blank(hp.host) then Err(EmptyHost)
        else if port.None? || port.value < 1 || port.value > 65535 then Err(PortOutOfRange)
        else Ok(hp)
  }

  /** The digits of a port text, after at most one plus sign. */
  function PortDigits(p: Bytes): Bytes
  {
    if p != [] && p[0] == PLUS then p[1..] else p
  }

  /** A target both ends accept: 1 to 1024 bytes that split into a host and a port worth dialling. */
  predicate Diallable(target: Bytes, hp: HostPort)
  {
    && 1 <= |target| <= 1024
    && (IsPlain(target, hp) || IsBracketed(target, hp))
    && !Blank(hp.host)
    && var digits := PortDigits(hp.port);
      digits != [] && AllDigits(digits) && 1 <= Decimal(digits) <= 65535
  }

  /** Exactly which targets either end accepts, and what it makes of them. */
  lemma AcceptedTargets(target: Bytes, hp: HostPort)
    ensures ValidateTunnelTarget(target) == Ok(hp) <==> Diallable(target, hp)
    ensures ValidateTarget(target) == Ok(hp) <==> Diallable(target, hp)
  {
    hide SplitHostPort, Blank, Atoi, IsPlain, IsBracketed, Decimal, AllDigits;
    SplitExactly(target, hp);
    PortTextAccepted(hp.port);
    ValidatorsAgree(target);
  }

  /** And the reason for refusing one, in the order the checks are made. */
  lemma RefusedTargets(target: Bytes)
    ensures var v := ValidateTarget(target);
      && (v == Err(EmptyTarget) <==> target == [])
      && (v == Err(TooLong) <==> |target| > 1024)
      && (v.Err? && v.error.BadAddress? <==> 1 <= |target| <= 1024 && SplitHostPort(target).Err?)
      && (v == Err(EmptyHost) <==>
            1 <= |target| <= 1024 && SplitHostPort(target).Ok? && Blank(SplitHostPort(target).value.host))
    ensures ValidateTunnelTarget(target) ==
      if ValidateTarget(target) == Err(BadPort) then Err(PortOutOfRange) else ValidateTarget(target)
  {
    hide SplitHostPort, Blank, Atoi;
  }

  /** Both ends accept the same targets and take them apart the same way. */
  lemma ValidatorsAgree(target: Bytes)
    ensures ValidateTarget(target).Ok? <==> ValidateTunnelTarget(target).Ok?
    ensures ValidateTarget(target).Ok? ==> ValidateTarget(target) == ValidateTunnelTarget(target)
  {
    hide SplitHostPort, Blank, Atoi;
  }

  /** What the gateway dials for a host and port that were joined at the client. */
  ghost function Arrives(host: Bytes): Option<Bytes>
  {
    if Bracketless(host) then (if Blank(host) then None else Some(host))
    else if InBrackets(host) && !Blank(host[1..|host| - 1]) then Some(host[1..|host| - 1])
    else None
  }

  /**
    * Exactly which SOCKS targets get through. A host of at most 255 bytes joined with a 16-bit port
    * is accepted by both validators if and only if the port is not 0 and the host, with one pair of
    * outer brackets taken off a colon-free host, is bracketless and not blank. It arrives unchanged
    * if and only if it had no brackets to begin with, and it always fits one padded frame.
    */
  lemma TargetsThatArrive(host: Bytes, port: nat)
    requires |host| <= 255 && port <= 0xffff
    ensures var target := JoinHostPort(host, Itoa(port));
      && |target| <= 263
      && (ValidateTunnelTarget(target).Ok? <==> port >= 1 && Arrives(host).Some?)
      && (ValidateTunnelTarget(target).Ok? ==>
            ValidateTunnelTarget(target) == Ok(HostPort(Arrives(host).value, Itoa(port))))
      && ValidateTarget(target).Ok? == ValidateTunnelTarget(target).Ok?
  {
    var text := Itoa(port);
    PortTextIsPlain(port);
    ItoaLength(port, 5);
    if Bracketless(host) {
      SplitOfJoin(host, text);
    } else if InBrackets(host) {
      SplitOfBracketed(host, text);
    } else {
      SplitRefusesBrackets(host, text);
    }
    PortParses(port);
    hide SplitHostPort, Blank, Itoa, Atoi;
    ValidatorsAgree(JoinHostPort(host, text));
  }

  lemma PortParses(port: nat)
    requires port <= 0xffff
    ensures Atoi(Itoa(port)) == Some(port)
  {
    DecimalOfItoa(port);
    assert IsDigit(Itoa(port)[0]);
  }

  /**
    * What a validator returns for an accepted target is the host that was joined if and only if that
    * host had no bracket; any other accepted host comes out without its outer pair, two bytes shorter.
    */
  lemma UnchangedIffBracketless(host: Bytes, port: nat)
    requires |host| <= 255 && port <= 0xffff
    requires ValidateTunnelTarget(JoinHostPort(host, Itoa(port))).Ok?
    ensures var arrived := ValidateTunnelTarget(JoinHostPort(host, Itoa(port))).value;
      && arrived.port == Itoa(port) && Bracketless(arrived.host)
      && (arrived.host == host <==> Bracketless(host))
      && (!Bracketless(host) ==> host == [OPEN_BRACKET] + arrived.host + [CLOSE_BRACKET])
  {
    hide JoinHostPort, SplitHostPort, Itoa, Atoi, Blank, ValidateTunnelTarget;
    TargetsThatArrive(host, port);
    if !Bracketless(host) {
      assert host[0] in host;
      assert host == [host[0]] + host[1..|host| - 1] + [host[|host| - 1]];
    }
  }
}
