/** The SOCKS5 server's greeting and request (RFC 1928, sections 3 to 5). */
module Socks {
  import opened Bytes
  import opened Streams
  import opened Targets

  const VERSION: Byte := 0x05
  const NO_AUTHENTICATION: Byte := 0x00
  const NO_ACCEPTABLE: Byte := 0xff
  const CONNECT: Byte := 0x01
  const ATYP_IPV4: Byte := 0x01
  const ATYP_DOMAIN: Byte := 0x03
  const ATYP_IPV6: Byte := 0x04

  datatype SocksError =
    | Truncated | BadVersion | NoMethods | NoneAcceptable
    | BadCommand | BadReserved | EmptyDomain | BadAddressType
    | Faulted | ReplyFailed

  datatype Address = IPv4(ip4: Bytes) | Domain(name: Bytes) | IPv6(ip6: Bytes)

  datatype Request = Request(address: Address, port: nat)

  datatype Parsed<T> = Parsed(result: Result<T, SocksError>, rest: Bytes)

  // ---------------------------------------------------------------- the format

  predicate WellFormed(a: Address)
  {
    match a
    case IPv4(ip4) => |ip4| == 4
    case Domain(name) => 1 <= |name| <= 255
    case IPv6(ip6) => |ip6| == 16
  }

  function EncodeGreeting(methods: Bytes): Bytes
    requires 1 <= |methods| <= 255
  {
    [VERSION, |methods|] + methods
  }

  function EncodeAddress(a: Address): Bytes
    requires WellFormed(a)
  {
    match a
    case IPv4(ip4) => [ATYP_IPV4] + ip4
    case Domain(name) => [ATYP_DOMAIN, |name|] + name
    case IPv6(ip6) => [ATYP_IPV6] + ip6
  }

  predicate WellFormedRequest(q: Request)
  {
    WellFormed(q.address) && q.port <= 0xffff
  }

  function EncodeRequest(q: Request): Bytes
    requires WellFormedRequest(q)
  {
    [VERSION, CONNECT, 0] + EncodeAddress(q.address) + U16(q.port)
  }

  // ---------------------------------------------------------------- parsing

  function ParseGreeting(s: Bytes): Parsed<Bytes>
  {
    if |s| < 2 then Parsed(Err(Truncated), [])
    else if s[0] != VERSION then Parsed(Err(BadVersion), s[2..])
    else if s[1] == 0 then Parsed(Err(NoMethods), s[2..])
    else
      var count: int := s[1];
      if |s| < 2 + count then Parsed(Err(Truncated), [])
      else
        var methods := s[2..2 + count];
        Parsed(if NO_AUTHENTICATION in methods then Ok(methods) else Err(NoneAcceptable), s[2 + count..])
  }

  function ParsePort(a: Address, s: Bytes): Parsed<Request>
  {
    if |s| < 2 then Parsed(Err(Truncated), [])
    else Parsed(Ok(Request(a, FromBigEndian(s[..2]))), s[2..])
  }

  function ParseAddress(typ: Byte, s: Bytes): Parsed<Address>
  {
    if typ == ATYP_IPV4 then
      if |s| < 4 then Parsed(Err(Truncated), []) else Parsed(Ok(IPv4(s[..4])), s[4..])
    else if typ == ATYP_DOMAIN then
      if |s| < 1 then Parsed(Err(Truncated), [])
      else if s[0] == 0 then Parsed(Err(EmptyDomain), s[1..])
      else
        var end: int := s[0];
        if |s| < 1 + end then Parsed(Err(Truncated), [])
        else Parsed(Ok(Domain(s[1..1 + end])), s[1 + end..])
    else if typ == ATYP_IPV6 then
      if |s| < 16 then Parsed(Err(Truncated), []) else Parsed(Ok(IPv6(s[..16])), s[16..])
    else Parsed(Err(BadAddressType), s)
  }

  function ParseRequest(s: Bytes): Parsed<Request>
  {
    if |s| < 4 then Parsed(Err(Truncated), [])
    else if s[0] != VERSION then Parsed(Err(BadVersion), s[4..])
    else if s[1] != CONNECT then Parsed(Err(BadCommand), s[4..])
    else if s[2] != 0 then Parsed(Err(BadReserved), s[4..])
    else
      var p := ParseAddress(s[3], s[4..]);
      if p.result.Err? then Parsed(Err(p.result.error), p.rest) else ParsePort(p.result.value, p.rest)
  }

  /** The request byte by byte. */
  lemma RequestLayout(q: Request)
    requires WellFormedRequest(q)
    ensures EncodeRequest(q) == (match q.address
      case IPv4(ip4) => [5, 1, 0, 1] + ip4
      case Domain(name) => [5, 1, 0, 3, |name|] + name
      case IPv6(ip6) => [5, 1, 0, 4] + ip6) + [q.port / 256, q.port % 256]
  {
    U16Layout(q.port);
  }

  /** What a greeting is answered with. */
  function ReplyTo(s: Bytes): Bytes
  {
    match ParseGreeting(s).result
    case Ok(_) => [5, 0]
    case Err(e) => if e == NoneAcceptable then [5, 0xff] else []
  }

  lemma GreetingPieces(header: Bytes, methods: Bytes, rest: Bytes)
    requires |header| == 2 && header[0] == VERSION && header[1] > 0 && |methods| == header[1]
    ensures ParseGreeting(header + methods + rest) ==
      Parsed(if NO_AUTHENTICATION in methods then Ok(methods) else Err(NoneAcceptable), rest)
  {
    var s := header + methods + rest;
    assert s[2..2 + |methods|] == methods && s[2 + |methods|..] == rest;
  }

  /** Why a greeting is refused, in the order of the checks, and what has been read of it by then. */
  lemma GreetingRefused(s: Bytes)
    ensures var p := ParseGreeting(s);
      && (p.result == Err(BadVersion) <==> |s| >= 2 && s[0] != 5)
      && (p.result == Err(NoMethods) <==> |s| >= 2 && s[0] == 5 && s[1] == 0)
      && (p.result == Err(BadVersion) || p.result == Err(NoMethods) ==> p.rest == s[2..])
      && (p.result == Err(NoneAcceptable) <==>
            |s| >= 2 && s[0] == 5 && s[1] > 0 && |s| >= 2 + s[1] as int && 0 !in s[2..2 + s[1] as int])
      && (p.result == Err(NoneAcceptable) ==> p.rest == s[2 + s[1] as int..])
  {
  }

  /** Why a request is refused, likewise. */
  lemma RequestRefused(s: Bytes)
    ensures var p, header := ParseRequest(s), |s| >= 4;
      && (p.result == Err(BadVersion) <==> header && s[0] != 5)
      && (p.result == Err(BadCommand) <==> header && s[0] == 5 && s[1] != 1)
      && (p.result == Err(BadReserved) <==> header && s[0] == 5 && s[1] == 1 && s[2] != 0)
      && (p.result == Err(BadAddressType) <==>
            header && s[..3] == [5, 1, 0] && s[3] != 1 && s[3] != 3 && s[3] != 4)
      && (p.result == Err(EmptyDomain) <==> |s| >= 5 && s[..5] == [5, 1, 0, 3, 0])
      && (p.result.Err? && p.result != Err(Truncated) ==>
            p.rest == s[if p.result == Err(EmptyDomain) then 5 else 4..])
  {
    hide FromBigEndian;
  }

  /** A greeting is accepted if and only if it is a well-formed one that offers no-authentication. */
  lemma GreetingAccepted(s: Bytes)
    ensures ParseGreeting(s).result.Ok? <==>
      exists methods: Bytes, rest: Bytes :: 1 <= |methods| <= 255 && NO_AUTHENTICATION in methods
        && s == EncodeGreeting(methods) + rest
    ensures ParseGreeting(s).result.Ok? ==>
      var methods := ParseGreeting(s).result.value;
        1 <= |methods| <= 255 && s == EncodeGreeting(methods) + ParseGreeting(s).rest
  {
    if ParseGreeting(s).result.Ok? {
      var methods, rest := ParseGreeting(s).result.value, ParseGreeting(s).rest;
      assert s == EncodeGreeting(methods) + rest;
    }
    forall methods: Bytes, rest: Bytes | 1 <= |methods| <= 255 && NO_AUTHENTICATION in methods
        && s == EncodeGreeting(methods) + rest
      ensures ParseGreeting(s).result.Ok?
    {
      assert s[2..2 + s[1]] == methods;
    }
  }

  lemma GreetingConsumed(s: Bytes)
    requires ParseGreeting(s).result.Ok?
    ensures 1 <= |ParseGreeting(s).result.value| <= 255
    ensures s == EncodeGreeting(ParseGreeting(s).result.value) + ParseGreeting(s).rest
  {
    GreetingAccepted(s);
  }

  lemma ParsePortOf(a: Address, port: nat, rest: Bytes)
    requires port <= 0xffff
    ensures ParsePort(a, U16(port) + rest) == Parsed(Ok(Request(a, port)), rest)
  {
    var s := U16(port) + rest;
    assert s[..2] == U16(port) && s[2..] == rest;
  }

  lemma ParseOfEncodeAddress(a: Address, rest: Bytes)
    requires WellFormed(a)
    ensures var s := EncodeAddress(a) + rest;
      s != [] && ParseAddress(s[0], s[1..]) == Parsed(Ok(a), rest)
  {
    var s := EncodeAddress(a) + rest;
    match a
    case IPv4(ip4) =>
      assert s[1..] == ip4 + rest;
    case Domain(name) =>
      assert s[1..] == [|name|] + name + rest;
      assert s[1..][1..1 + |name|] == name && s[1..][1 + |name|..] == rest;
    case IPv6(ip6) =>
      assert s[1..] == ip6 + rest;
  }

  lemma EncodeOfParseAddress(typ: Byte, s: Bytes)
    requires ParseAddress(typ, s).result.Ok?
    ensures WellFormed(ParseAddress(typ, s).result.value)
    ensures [typ] + s == EncodeAddress(ParseAddress(typ, s).result.value) + ParseAddress(typ, s).rest
  {
    var a, rest := ParseAddress(typ, s).result.value, ParseAddress(typ, s).rest;
    assert [typ] + s == EncodeAddress(a) + rest;
  }

  /** Parsing inverts encoding and leaves the next byte, the first to be relayed, unread. */
  lemma ParseOfEncodeRequest(q: Request, rest: Bytes)
    requires WellFormedRequest(q)
    ensures ParseRequest(EncodeRequest(q) + rest) == Parsed(Ok(q), rest)
  {
    hide U16, ParsePort, ParseAddress, EncodeAddress;
    var s := EncodeRequest(q) + rest;
    var tail := U16(q.port) + rest;
    var t := EncodeAddress(q.address) + tail;
    assert s == [VERSION, CONNECT, 0] + t;
    ParseOfEncodeAddress(q.address, tail);
    assert s[3] == t[0] && s[4..] == t[1..];
    ParsePortOf(q.address, q.port, rest);
  }

  lemma PortConsumed(a: Address, s: Bytes)
    requires ParsePort(a, s).result.Ok?
    ensures ParsePort(a, s).result.value.address == a
    ensures ParsePort(a, s).result.value.port <= 0xffff
    ensures s == U16(ParsePort(a, s).result.value.port) + ParsePort(a, s).rest
  {
    U16OfField(s[..2]);
  }

  /** And whatever is accepted is the encoding of what it parsed to: accepted means well-formed. */
  lemma EncodeOfParseRequest(s: Bytes)
    requires ParseRequest(s).result.Ok?
    ensures WellFormedRequest(ParseRequest(s).result.value)
    ensures s == EncodeRequest(ParseRequest(s).result.value) + ParseRequest(s).rest
  {
    hide U16, ParsePort, ParseAddress, EncodeAddress;
    var p := ParseAddress(s[3], s[4..]);
    EncodeOfParseAddress(s[3], s[4..]);
    PortConsumed(p.result.value, p.rest);
    assert s == [s[0], s[1], s[2]] + ([s[3]] + s[4..]);
  }

  // ---------------------------------------------------------------- reading them off a connection

  function FailureOf(st: Status): SocksError
  {
    if st == Eof then Truncated else Faulted
  }

  /**
    * handleGreeting: consumes exactly the greeting, and answers a readable one with the method
    * chosen or with none acceptable.
    */
  method HandleGreeting(r: Reader, w: Writer) returns (res: Result<Bytes, SocksError>, ghost consumed: Bytes)
    requires r.Valid()
    modifies r, r.conn, w
    ensures r.Valid() && r.Took(consumed)
    ensures res != Err(Faulted) && res != Err(ReplyFailed) ==> ParseGreeting(old(r.Stream())) == Parsed(res, r.Stream())
    ensures res == Err(Faulted) ==> !r.NoFault()
    ensures res == Err(ReplyFailed) <==> w.failed > old(w.failed)
    ensures old(w.sent) <= w.sent <= old(w.sent) + ReplyTo(old(r.Stream()))
    ensures res != Err(Faulted) && w.Sound() ==> w.sent == old(w.sent) + ReplyTo(old(r.Stream()))
    ensures w.reliable ==> w.Sound()
  {
    var header, st := ReadFull(r, 2);
    consumed := header;
    if st != Fine {
      return Err(FailureOf(st)), consumed;
    }
    if header[0] != VERSION {
      return Err(BadVersion), consumed;
    }
    if header[1] == 0 {
      return Err(NoMethods), consumed;
    }
    var methods;
    methods, st := ReadFull(r, header[1]);
    consumed := header + methods;
    if st != Fine {
      return Err(FailureOf(st)), consumed;
    }
    assert old(r.Stream()) == header + methods + r.Stream();
    GreetingPieces(header, methods, r.Stream());
    hide ParseGreeting;
    res := ChooseMethod(w, methods);
  }

  /** The answer to a greeting that offers these methods: the first no-authentication, or none acceptable. */
  method ChooseMethod(w: Writer, methods: Bytes) returns (res: Result<Bytes, SocksError>)
    modifies w
    ensures var reply: Bytes := if 0 in methods then [5, 0] else [5, 0xff];
      old(w.sent) <= w.sent <= old(w.sent) + reply && (w.Sound() ==> w.sent == old(w.sent) + reply)
    ensures res == Err(ReplyFailed) <==> w.failed > old(w.failed)
    ensures res != Err(ReplyFailed) ==> res == if 0 in methods then Ok(methods) else Err(NoneAcceptable)
    ensures w.reliable ==> w.Sound()
  {
    for i := 0 to |methods|
      invariant NO_AUTHENTICATION !in methods[..i]
      invariant w.sent == old(w.sent) && w.Sound()
    {
      if methods[i] == NO_AUTHENTICATION {
        var n, ok := w.Write([VERSION, NO_AUTHENTICATION]);
        return if ok then Ok(methods) else Err(ReplyFailed);
      }
    }
    assert methods[..|methods|] == methods;
    var n, ok := w.Write([VERSION, NO_ACCEPTABLE]);
    return Err(if ok then NoneAcceptable else ReplyFailed);
  }

  /** The address part of readRequest, by its type byte. */
  method ReadAddress(r: Reader, typ: Byte) returns (res: Result<Address, SocksError>, ghost consumed: Bytes)
    requires r.Valid()
    modifies r, r.conn
    ensures r.Valid() && r.Took(consumed)
    ensures res != Err(Faulted) ==> ParseAddress(typ, old(r.Stream())) == Parsed(res, r.Stream())
    ensures res != Err(ReplyFailed) && (res == Err(Faulted) ==> !r.NoFault())
  {
    var st;
    if typ == ATYP_IPV4 {
      var addr;
      addr, st := ReadFull(r, 4);
      res, consumed := (if st == Fine then Ok(IPv4(addr)) else Err(FailureOf(st))), addr;
    } else if typ == ATYP_DOMAIN {
      res, consumed := ReadDomain(r);
    } else if typ == ATYP_IPV6 {
      var addr;
      addr, st := ReadFull(r, 16);
      res, consumed := (if st == Fine then Ok(IPv6(addr)) else Err(FailureOf(st))), addr;
    } else {
      res, consumed := Err(BadAddressType), [];
    }
  }

  /** A length byte and as many bytes of domain. */
  method ReadDomain(r: Reader) returns (res: Result<Address, SocksError>, ghost consumed: Bytes)
    requires r.Valid()
    modifies r, r.conn
    ensures r.Valid() && r.Took(consumed)
    ensures res != Err(Faulted) ==> ParseAddress(ATYP_DOMAIN, old(r.Stream())) == Parsed(res, r.Stream())
    ensures res != Err(ReplyFailed) && (res == Err(Faulted) ==> !r.NoFault())
  {
    var length, st := ReadFull(r, 1);
    consumed := length;
    if st != Fine {
      return Err(FailureOf(st)), consumed;
    }
    if length[0] == 0 {
      return Err(EmptyDomain), consumed;
    }
    var domain;
    domain, st := ReadFull(r, length[0]);
    consumed := length + domain;
    assert old(r.Stream()) == length + domain + r.Stream();
    res := if st == Fine then Ok(Domain(domain)) else Err(FailureOf(st));
  }

  /** readRequest: the result and what is left unread are those of ParseRequest, however the bytes arrive. */
  method ReadRequest(r: Reader) returns (res: Result<Request, SocksError>, ghost consumed: Bytes)
    requires r.Valid()
    modifies r, r.conn
    ensures r.Valid() && r.Took(consumed)
    ensures res != Err(Faulted) ==> ParseRequest(old(r.Stream())) == Parsed(res, r.Stream())
    ensures res != Err(ReplyFailed) && (res == Err(Faulted) ==> !r.NoFault())
  {
    hide FromBigEndian, ParseAddress, ParsePort;
    var header, st := ReadFull(r, 4);
    consumed := header;
    if st != Fine {
      return Err(FailureOf(st)), consumed;
    }
    assert old(r.Stream())[4..] == r.Stream();
    if header[0] != VERSION {
      return Err(BadVersion), consumed;
    }
    if header[1] != CONNECT {
      return Err(BadCommand), consumed;
    }
    if header[2] != 0 {
      return Err(BadReserved), consumed;
    }
    var address;
    ghost var taken;
    address, taken := ReadAddress(r, header[3]);
    consumed := header + taken;
    if address.Err? {
      return Err(address.error), consumed;
    }
    ghost var portTaken;
    res, portTaken := ReadPort(r, address.value);
    consumed := header + taken + portTaken;
  }

  /** The port part of readRequest. */
  method ReadPort(r: Reader, address: Address) returns (res: Result<Request, SocksError>, ghost consumed: Bytes)
    requires r.Valid()
    modifies r, r.conn
    ensures r.Valid() && r.Took(consumed)
    ensures res != Err(Faulted) ==> ParsePort(address, old(r.Stream())) == Parsed(res, r.Stream())
    ensures res != Err(ReplyFailed) && (res == Err(Faulted) ==> !r.NoFault())
  {
    hide FromBigEndian;
    var portBytes, st := ReadFull(r, 2);
    consumed := portBytes;
    if st != Fine {
      return Err(FailureOf(st)), consumed;
    }
    assert old(r.Stream())[..2] == portBytes && old(r.Stream())[2..] == r.Stream();
    return Ok(Request(address, FromBigEndian(portBytes))), consumed;
  }

  /** s begins with a greeting that offers no-authentication and a CONNECT request. */
  ghost predicate StartsWithConnect(s: Bytes)
  {
    exists methods: Bytes, q: Request, rest: Bytes ::
      && 1 <= |methods| <= 255 && NO_AUTHENTICATION in methods && WellFormedRequest(q)
      && s == EncodeGreeting(methods) + (EncodeRequest(q) + rest)
  }

  /** Both parsers in a row accept exactly those streams. */
  lemma NegotiationAccepted(s: Bytes)
    ensures StartsWithConnect(s) <==> ParseGreeting(s).result.Ok? && ParseRequest(ParseGreeting(s).rest).result.Ok?
  {
    hide EncodeRequest, ParseRequest;
    if ParseGreeting(s).result.Ok? && ParseRequest(ParseGreeting(s).rest).result.Ok? {
      GreetingAccepted(s);
      EncodeOfParseRequest(ParseGreeting(s).rest);
    }
    forall methods: Bytes, q: Request, rest: Bytes |
        && 1 <= |methods| <= 255 && NO_AUTHENTICATION in methods && WellFormedRequest(q)
        && s == EncodeGreeting(methods) + (EncodeRequest(q) + rest)
      ensures ParseGreeting(s).result.Ok? && ParseRequest(ParseGreeting(s).rest).result.Ok?
    {
      assert s[2..2 + |methods|] == methods && s[2 + |methods|..] == EncodeRequest(q) + rest;
      ParseOfEncodeRequest(q, rest);
    }
  }

  /**
    * The order inside handleConnection up to the dial: greeting, then request. On a connection that
    * does not fault and takes the reply, a request comes out if and only if the stream starts with a
    * well-formed one, and then exactly the two messages have been consumed: the next unread byte is
    * the first to be relayed.
    */
  method Negotiate(r: Reader, w: Writer) returns (res: Result<Request, SocksError>, ghost methods: Bytes)
    requires r.Valid()
    modifies r, r.conn, w
    ensures r.Valid()
    ensures res != Err(Faulted) && res != Err(ReplyFailed) ==> (res.Ok? <==> StartsWithConnect(old(r.Stream())))
    ensures res != Err(Faulted) && res != Err(ReplyFailed) ==>
      var p := ParseGreeting(old(r.Stream()));
      res == if p.result.Err? then Err(p.result.error) else ParseRequest(p.rest).result
    ensures res == Err(Faulted) ==> !r.NoFault()
    ensures res == Err(ReplyFailed) <==> w.failed > old(w.failed)
    ensures w.reliable ==> res != Err(ReplyFailed) && (res.Ok? ==> w.sent == old(w.sent) + [5, 0])
    ensures res.Ok? ==> 1 <= |methods| <= 255 && WellFormedRequest(res.value)
    ensures res.Ok? ==> old(r.Stream()) == EncodeGreeting(methods) + EncodeRequest(res.value) + r.Stream()
  {
    hide ParseGreeting, ParseRequest, EncodeRequest, EncodeGreeting, StartsWithConnect;
    ghost var s, consumed := r.Stream(), [];
    NegotiationAccepted(s);
    if ParseGreeting(s).result.Ok? {
      GreetingConsumed(s);
    }
    var greeting;
    greeting, consumed := HandleGreeting(r, w);
    if greeting.Err? {
      return Err(greeting.error), [];
    }
    methods := greeting.value;
    ghost var mid := r.Stream();
    res, consumed := ReadRequest(r);
    if res.Ok? {
      EncodeOfParseRequest(mid);
      assert s == EncodeGreeting(methods) + (EncodeRequest(res.value) + r.Stream());
    }
  }

  // ---------------------------------------------------------------- the target it asks for

  /**
    * The text of an IP address as net.IP.String gives it: not empty, at most 39 bytes, and made of
    * hexadecimal digits, dots and colons only.
    */
  ghost predicate IsAddressText(text: Bytes)
  {
    && 1 <= |text| <= 39
    && forall b :: b in text ==> IsDigit(b) || 0x61 <= b <= 0x66 || b == 0x2e || b == COLON
  }

  ghost predicate RendersAddresses(render: Bytes -> Bytes)
  {
    forall ip: Bytes :: |ip| == 4 || |ip| == 16 ==> IsAddressText(render(ip))
  }

  function HostOf(a: Address, render: Bytes -> Bytes): Bytes
  {
    match a
    case IPv4(ip4) => render(ip4)
    case Domain(name) => name
    case IPv6(ip6) => render(ip6)
  }

  /** Request.Address: the target handed to Dial. */
  function TargetOf(q: Request, render: Bytes -> Bytes): Bytes
  {
    JoinHostPort(HostOf(q.address, render), Itoa(q.port))
  }

  lemma AddressTextIsPlain(text: Bytes)
    requires IsAddressText(text)
    ensures Bracketless(text) && !Blank(text)
  {
    assert text[0] in text;
    assert SpaceLength(text) == 0;
  }

  /**
    * From SOCKS request to gateway dial. An IP target with a port other than 0 always passes both
    * validators and splits back to its own text; a domain does exactly when, brackets aside, it is
    * not blank. Every target is at most 263 bytes.
    */
  lemma RequestTargetArrives(q: Request, render: Bytes -> Bytes)
    requires WellFormedRequest(q) && RendersAddresses(render)
    ensures var target, host := TargetOf(q, render), HostOf(q.address, render);
      && |target| <= 263
      && (ValidateTarget(target).Ok? <==> q.port >= 1 && Arrives(host).Some?)
      && (ValidateTunnelTarget(target).Ok? <==> q.port >= 1 && Arrives(host).Some?)
      && (ValidateTunnelTarget(target).Ok? ==>
            ValidateTunnelTarget(target).value == HostPort(Arrives(host).value, Itoa(q.port)))
      && (!q.address.Domain? ==> Arrives(host) == Some(host))
      && (q.address.IPv4? && q.port >= 1 ==> ValidateTunnelTarget(target).value.host == render(q.address.ip4))
      && (q.address.IPv6? && q.port >= 1 ==> ValidateTunnelTarget(target).value.host == render(q.address.ip6))
      && (q.address.Domain? && ValidateTunnelTarget(target).Ok? && Bracketless(q.address.name) ==>
            ValidateTunnelTarget(target).value.host == q.address.name)
  {
    var host := HostOf(q.address, render);
    if !q.address.Domain? {
      AddressTextIsPlain(host);
    }
    TargetsThatArrive(host, q.port);
  }

  lemma BracketedText(render: Bytes -> Bytes)
    ensures TargetOf(Request(Domain([0x5b, 0x61, 0x5d]), 80), render) == [0x5b, 0x61, 0x5d, 0x3a, 0x38, 0x30]
    ensures TargetOf(Request(Domain([0x61]), 80), render) == [0x61, 0x3a, 0x38, 0x30]
  {
    assert Itoa(80) == [0x38, 0x30];
  }

  /** A request for the domain "[a]" and port 80 is dialled as "a", port 80: a host the client did not name. */
  lemma BracketsAreLost(render: Bytes -> Bytes)
    requires RendersAddresses(render)
    ensures var bracketed, a := [OPEN_BRACKET, 0x61, CLOSE_BRACKET], [0x61];
      var target := TargetOf(Request(Domain(bracketed), 80), render);
      && target == [0x5b, 0x61, 0x5d, 0x3a, 0x38, 0x30]
      && ValidateTarget(target) == Ok(HostPort(a, [0x38, 0x30]))
      && ValidateTunnelTarget(target) == Ok(HostPort(a, [0x38, 0x30]))
      && TargetOf(Request(Domain(a), 80), render) != target
  {
    var bracketed: Bytes, a: Bytes := [OPEN_BRACKET, 0x61, CLOSE_BRACKET], [0x61];
    assert InBrackets(bracketed) && bracketed[1..2] == a && Bracketless(a) && !Blank(a);
    assert !Bracketless(bracketed);
    assert Arrives(bracketed) == Some(a);
    assert Itoa(80) == [0x38, 0x30];
    hide Itoa, Arrives, Blank, SplitHostPort, Atoi, JoinHostPort, ValidateTarget, ValidateTunnelTarget;
    BracketedText(render);
    RequestTargetArrives(Request(Domain(bracketed), 80), render);
    ValidatorsAgree(TargetOf(Request(Domain(bracketed), 80), render));
  }
}
