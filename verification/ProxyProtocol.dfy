/** The PROXY protocol reader of src/proxy_protocol.rs, versions 1 and 2 (sections 2.1 and
    2.2 of "The PROXY protocol, Versions 1 & 2"). */
module ProxyProtocol {
  import opened Net
  import opened Text
  import Acl

  const V1_TAG: seq<byte> := [0x50, 0x52, 0x4F, 0x58, 0x59, 0x20]

  const V2_SIG: seq<byte> :=
    [0x0D, 0x0A, 0x0D, 0x0A, 0x00, 0x0D, 0x0A, 0x51, 0x55, 0x49, 0x54, 0x0A]

  /** A version 1 header that has not ended within this many bytes is refused. */
  const V1_LIMIT := 109

  datatype ProxyHeader = ProxyHeader(src: SocketAddr, dst: SocketAddr)

  const NO_ADDRESS := ProxyHeader(SocketAddr(UNSPECIFIED, 0), SocketAddr(UNSPECIFIED, 0))

  datatype Error = Io | TruncatedV1 | TooLongV1 | NotUtf8 | MalformedV1 | TruncatedV2 | UnsupportedFamily

  datatype Result<+T> = Ok(value: T) | Err(error: Error)

  // ---- What a byte string means, whatever its chunks ----

  /** What a read past the last byte reports. */
  datatype End = Eof | Broken

  /** `Header` also says how many bytes the header occupies. */
  datatype Verdict = NoHeader | Header(header: ProxyHeader, consumed: nat) | Rejected(error: Error)

  function AtEnd(end: End, v: Verdict): Verdict {
    if end == Broken then Rejected(Io) else v
  }

  /** Position of the first CR LF pair. */
  function FirstCrlf(d: seq<byte>): (r: Option<nat>)
    ensures r.Some? ==> r.value + 2 <= |d| && d[r.value] == 0x0D && d[r.value + 1] == 0x0A
  {
    if |d| < 2 then None
    else if d[0] == 0x0D && d[1] == 0x0A then Some(0)
    else match FirstCrlf(d[1..])
      case Some(p) => Some(p + 1)
      case None => None
  }

  function ParseV1Line(line: string, p6: Ipv6Parser): Option<ProxyHeader> {
    var parts := Words(line);
    if |parts| < 2 || parts[0] != "PROXY" then None
    else if parts[1] == "UNKNOWN" then Some(NO_ADDRESS)
    else if |parts| < 6 then None
    else match (ParseIp(parts[2], p6), ParseUint(parts[4], 0x1_0000),
                ParseIp(parts[3], p6), ParseUint(parts[5], 0x1_0000))
      case (Some(sip), Some(sport), Some(dip), Some(dport)) =>
        Some(ProxyHeader(SocketAddr(sip, sport), SocketAddr(dip, dport)))
      case _ => None
  }

  /** The verdict on the bytes before the CR LF. */
  function V1Header(line: seq<byte>, p6: Ipv6Parser): Result<ProxyHeader> {
    match DecodeUtf8(line)
    case None => Err(NotUtf8)
    case Some(s) =>
      match ParseV1Line(s, p6)
      case None => Err(MalformedV1)
      case Some(h) => Ok(h)
  }

  function Lift(r: Result<ProxyHeader>, consumed: nat): Verdict {
    match r
    case Ok(h) => Header(h, consumed)
    case Err(e) => Rejected(e)
  }

  function DecideV1(d: seq<byte>, end: End, p6: Ipv6Parser): Verdict {
    match FirstCrlf(d[..Min(|d|, V1_LIMIT)])
    case Some(p) => Lift(V1Header(d[..p], p6), p + 2)
    case None => if |d| >= V1_LIMIT then Rejected(TooLongV1) else AtEnd(end, Rejected(TruncatedV1))
  }

  function U16(hi: byte, lo: byte): Port {
    hi as int * 0x100 + lo as int
  }

  /** Address block of a version 2 header; `local` addresses are not decoded. */
  function V2Header(verCmd: byte, family: byte, rest: seq<byte>): Result<ProxyHeader> {
    if verCmd % 0x10 == 0 then Ok(NO_ADDRESS)
    else if family == 0x11 && |rest| >= 12 then
      Ok(ProxyHeader(SocketAddr(V4(rest[0..4]), U16(rest[8], rest[9])),
                     SocketAddr(V4(rest[4..8]), U16(rest[10], rest[11]))))
    else if family == 0x21 && |rest| >= 36 then
      Ok(ProxyHeader(SocketAddr(V6(rest[0..16]), U16(rest[32], rest[33])),
                     SocketAddr(V6(rest[16..32]), U16(rest[34], rest[35]))))
    else Err(UnsupportedFamily)
  }

  function DecideV2(d: seq<byte>, end: End): Verdict
    requires |d| >= 12
  {
    if |d| < 16 then AtEnd(end, Rejected(TruncatedV2)) else
    var n := 16 + U16(d[14], d[15]);
    if |d| < n then AtEnd(end, Rejected(TruncatedV2))
    else Lift(V2Header(d[12], d[13], d[16..n]), n)
  }

  /** The verdict on a connection whose bytes are `d`. */
  function Decide(d: seq<byte>, end: End, p6: Ipv6Parser): Verdict {
    if |d| < 6 then AtEnd(end, NoHeader)
    else if d[..6] == V1_TAG then DecideV1(d, end, p6)
    else if |d| < 12 then AtEnd(end, NoHeader)
    else if d[..12] == V2_SIG then DecideV2(d, end)
    else NoHeader
  }

  // ---- The transport ----

  function Flatten(chunks: seq<seq<byte>>): seq<byte> {
    if chunks == [] then [] else chunks[0] + Flatten(chunks[1..])
  }

  /** A connection that delivers its bytes in arbitrary non-empty chunks. */
  class Stream {
    var chunks: seq<seq<byte>>
    const end: End

    predicate Valid()
      reads this
    {
      forall c <- chunks :: c != []
    }

    function Pending(): seq<byte>
      reads this
    {
      Flatten(chunks)
    }

    constructor (chunks: seq<seq<byte>>, end: End)
      requires forall c <- chunks :: c != []
      ensures Valid() && Pending() == Flatten(chunks) && this.end == end
    {
      this.chunks := chunks;
      this.end := end;
    }

    /** One read of at most `cap` bytes: no bytes means the end, an error means a broken one. */
    method Read(cap: nat) returns (r: Result<seq<byte>>)
      requires Valid()
      modifies this
      ensures Valid()
      ensures r.Ok? ==> r.value + Pending() == old(Pending()) && |r.value| <= cap
      ensures r.Ok? ==> (r.value == [] <==> cap == 0 || old(Pending()) == [])
      ensures r.Ok? && cap > 0 && r.value == [] ==> end == Eof
      ensures r.Err? ==> r.error == Io && end == Broken && Pending() == old(Pending()) == []
    {
      if cap == 0 {
        return Ok([]);
      }
      if chunks == [] {
        return if end == Broken then Err(Io) else Ok([]);
      }
      var c := chunks[0];
      assert c in chunks;
      assert Pending() == c + Flatten(chunks[1..]);
      if |c| <= cap {
        assert forall c' <- chunks[1..] :: c' in chunks;
        chunks := chunks[1..];
        return Ok(c);
      }
      ghost var rest := chunks[1..];
      assert forall c' <- rest :: c' in chunks;
      chunks := [c[cap..]] + chunks[1..];
      assert chunks[1..] == rest;
      assert c == c[..cap] + c[cap..];
      return Ok(c[..cap]);
    }
  }

  /** The stream handed on: the bytes put back, then the rest of the connection. */
  class PrefixedStream {
    const inner: Stream
    const prefix: seq<byte>
    var prefixPos: nat

    predicate Valid()
      reads this, inner
    {
      prefixPos <= |prefix| && inner.Valid()
    }

    function Contents(): seq<byte>
      requires Valid()
      reads this, inner
    {
      prefix[prefixPos..] + inner.Pending()
    }

    constructor (inner: Stream, prefix: seq<byte>)
      requires inner.Valid()
      ensures Valid() && this.inner == inner && Contents() == prefix + inner.Pending()
    {
      this.inner := inner;
      this.prefix := prefix;
      prefixPos := 0;
    }

    method PollRead(cap: nat) returns (r: Result<seq<byte>>)
      requires Valid()
      modifies this, inner
      ensures Valid()
      ensures r.Ok? ==> r.value + Contents() == old(Contents()) && |r.value| <= cap
      ensures r.Ok? ==> (r.value == [] <==> cap == 0 || old(Contents()) == [])
      ensures r.Err? ==> inner.end == Broken && Contents() == old(Contents()) == []
    {
      if prefixPos < |prefix| {
        var rest := prefix[prefixPos..];
        var n := Min(|rest|, cap);
        prefixPos := prefixPos + n;
        assert rest == rest[..n] + prefix[prefixPos..];
        return Ok(rest[..n]);
      }
      r := inner.Read(cap);
    }

    /** Reading with any sequence of buffer sizes yields the contents in order, and all of
        them once there were as many non-empty buffers as bytes. */
    method Drain(sizes: seq<nat>) returns (out: seq<byte>)
      requires Valid()
      modifies this, inner
      ensures Valid()
      ensures out + Contents() == old(Contents())
      ensures Positives(sizes) >= |old(Contents())| ==> out == old(Contents())
    {
      out := [];
      for i := 0 to |sizes|
        invariant Valid()
        invariant out + Contents() == old(Contents())
        invariant Contents() == [] || |out| >= Positives(sizes[..i])
      {
        ghost var before := out;
        assert sizes[..i + 1][..i] == sizes[..i];
        var r := PollRead(sizes[i]);
        if r.Ok? {
          out := out + r.value;
          assert before + (r.value + Contents()) == out + Contents();
        }
      }
      assert sizes[..|sizes|] == sizes;
    }
  }

  /** How many buffers have room. */
  function Positives(sizes: seq<nat>): nat {
    if sizes == [] then 0
    else Positives(sizes[..|sizes| - 1]) + (if sizes[|sizes| - 1] > 0 then 1 else 0)
  }

  // ---- The reader ----

  /** Reads until `target` bytes of `first` are filled or the connection ends. */
  method FillTo(s: Stream, first: array<byte>, start: nat, target: nat) returns (filled: nat, r: Result<bool>)
    requires s.Valid() && start <= first.Length && target <= first.Length
    modifies s, first
    ensures s.Valid() && start <= filled <= first.Length
    ensures first[..filled] + s.Pending() == old(first[..start] + s.Pending())
    ensures r == Ok(true) ==> target <= filled
    ensures r == Ok(false) ==> filled < target && s.Pending() == [] && s.end == Eof
    ensures r.Err? ==> filled < target && r.error == Io && s.Pending() == [] && s.end == Broken
  {
    filled := start;
    while filled < target
      invariant s.Valid() && start <= filled <= first.Length
      invariant first[..filled] + s.Pending() == old(first[..start] + s.Pending())
    {
      ghost var before, pending := first[..filled], s.Pending();
      var got := s.Read(first.Length - filled);
      if got.Err? {
        return filled, Err(got.error);
      }
      if |got.value| == 0 {
        return filled, Ok(false);
      }
      forall i | 0 <= i < |got.value| {
        first[filled + i] := got.value[i];
      }
      filled := filled + |got.value|;
      assert first[..filled] == before + got.value;
      assert before + (got.value + s.Pending()) == first[..filled] + s.Pending();
    }
    return filled, Ok(true);
  }

  /** For every chunking of the same bytes the outcome is the same, namely the verdict on the
      bytes; the stream handed on holds exactly the bytes after the header, or all of them. */
  method MaybeReadProxyHeader(s: Stream, p6: Ipv6Parser) returns (r: Result<Option<ProxyHeader>>, ps: PrefixedStream?)
    requires s.Valid()
    modifies s
    ensures r.Ok? ==> ps != null && ps.Valid() && ps.inner == s && fresh(ps)
    ensures var d := old(s.Pending());
            match Decide(d, s.end, p6)
            case NoHeader => r == Ok(None) && ps.Contents() == d
            case Header(h, n) => r == Ok(Some(h)) && n <= |d| && ps.Contents() == d[n..]
            case Rejected(e) => r == Err(e)
  {
    ghost var d := s.Pending();
    var first := new byte[16];
    ps := null;
    assert first[..0] + d == d;

    var filled, more := FillTo(s, first, 0, 6);
    if more.Err? {
      return Err(more.error), null;
    }
    if !more.value {
      ps := new PrefixedStream(s, first[..filled]);
      return Ok(None), ps;
    }
    assert d[..6] == first[..6];

    if first[..6] == V1_TAG {
      var v1, leftover := ParseV1(s, first[..filled], p6);
      if v1.Err? {
        return Err(v1.error), null;
      }
      ps := new PrefixedStream(s, leftover);
      return Ok(Some(v1.value)), ps;
    }
    r, ps := ReadUntagged(s, first, filled, p6);
  }

  /** The part of the reader after the version 1 tag has been ruled out. */
  method ReadUntagged(s: Stream, first: array<byte>, start: nat, p6: Ipv6Parser)
    returns (r: Result<Option<ProxyHeader>>, ps: PrefixedStream?)
    requires s.Valid() && first.Length == 16 && 6 <= start <= 16 && first[..6] != V1_TAG
    modifies s, first
    ensures r.Ok? ==> ps != null && ps.Valid() && ps.inner == s && fresh(ps)
    ensures var d := old(first[..start] + s.Pending());
            match Decide(d, s.end, p6)
            case NoHeader => r == Ok(None) && ps.Contents() == d
            case Header(h, n) => r == Ok(Some(h)) && n <= |d| && ps.Contents() == d[n..]
            case Rejected(e) => r == Err(e)
  {
    ghost var d := first[..start] + s.Pending();
    assert d[..6] == first[..6];
    ps := null;
    var filled, more := FillTo(s, first, start, 12);
    if more.Err? {
      return Err(more.error), null;
    }
    if !more.value {
      ps := new PrefixedStream(s, first[..filled]);
      return Ok(None), ps;
    }
    assert d[..12] == first[..12];

    if first[..12] == V2_SIG {
      filled, more := FillTo(s, first, filled, 16);
      if more.Err? {
        return Err(more.error), null;
      }
      if !more.value {
        return Err(TruncatedV2), null;
      }
      assert d == first[..16] + s.Pending();
      var v2 := ParseV2(s, first[..16]);
      if v2.Err? {
        return Err(v2.error), null;
      }
      ps := new PrefixedStream(s, []);
      return Ok(Some(v2.value)), ps;
    }
    ps := new PrefixedStream(s, first[..filled]);
    return Ok(None), ps;
  }

  method ParseV1(s: Stream, first: seq<byte>, p6: Ipv6Parser) returns (r: Result<ProxyHeader>, leftover: seq<byte>)
    requires s.Valid() && |first| <= V1_LIMIT
    modifies s
    ensures s.Valid()
    ensures r.Err? ==> DecideV1(old(first + s.Pending()), s.end, p6) == Rejected(r.error)
    ensures r.Ok? ==> var v := DecideV1(old(first + s.Pending()), s.end, p6);
                      v.Header? && v.header == r.value && v.consumed <= |old(first + s.Pending())|
                      && leftover + s.Pending() == old(first + s.Pending())[v.consumed..]
  {
    ghost var d := first + s.Pending();
    var buf := first;
    leftover := [];
    while true
      invariant s.Valid() && buf + s.Pending() == d && |buf| <= V1_LIMIT
      decreases V1_LIMIT - |buf|
    {
      ghost var head := d[..Min(|d|, V1_LIMIT)];
      assert head == buf + head[|buf|..];
      CrlfExtends(buf, head[|buf|..]);
      match FirstCrlf(buf) {
        case Some(pos) =>
          leftover := buf[pos + 2..];
          TakeDrop(buf, s.Pending(), pos);
          TakeDrop(buf, s.Pending(), pos + 2);
          r := V1Header(buf[..pos], p6);
          return;
        case None =>
      }
      if |buf| > 108 {
        assert head == buf;
        return Err(TooLongV1), [];
      }
      var b := s.Read(1);
      if b.Err? {
        assert head == buf;
        return Err(b.error), [];
      }
      if |b.value| == 0 {
        assert head == buf;
        return Err(TruncatedV1), [];
      }
      assert buf + (b.value + s.Pending()) == (buf + b.value) + s.Pending();
      buf := buf + b.value;
    }
  }

  method ParseV2(s: Stream, hdr: seq<byte>) returns (r: Result<ProxyHeader>)
    requires s.Valid() && |hdr| == 16
    modifies s
    ensures s.Valid()
    ensures r.Err? ==> DecideV2(old(hdr + s.Pending()), s.end) == Rejected(r.error)
    ensures r.Ok? ==> var v := DecideV2(old(hdr + s.Pending()), s.end);
                      v.Header? && v.header == r.value && v.consumed <= |old(hdr + s.Pending())|
                      && s.Pending() == old(hdr + s.Pending())[v.consumed..]
  {
    ghost var d := hdr + s.Pending();
    var len := U16(hdr[14], hdr[15]);
    var rest: seq<byte> := [];
    while |rest| < len
      invariant s.Valid() && |rest| <= len && (hdr + rest) + s.Pending() == d
      decreases len - |rest|
    {
      var got := s.Read(len - |rest|);
      if got.Err? {
        return Err(got.error);
      }
      if |got.value| == 0 {
        return Err(TruncatedV2);
      }
      assert (hdr + rest) + (got.value + s.Pending()) == (hdr + (rest + got.value)) + s.Pending();
      rest := rest + got.value;
    }
    TakeDrop(hdr + rest, s.Pending(), 16 + len);
    assert d[16..16 + len] == d[..16 + len][16..] == rest;
    return V2Header(hdr[12], hdr[13], rest);
  }

  /** The peers whose headers are believed: those inside the configured blocks, all without.
      There is no value when a block does not parse, and the process does not start. */
  function TrustedPeers(enabled: bool, cidrs: seq<string>, p6: Ipv6Parser): Option<Option<Acl.Acl>> {
    if !enabled || cidrs == [] then Some(None)
    else match Acl.FromConfig(cidrs, [], p6)
      case Some(acl) => Some(Some(acl))
      case None => None
  }

  predicate Trusts(trusted: Option<Acl.Acl>, ip: IpAddr) {
    trusted.Some? ==> Acl.IsAllowed(trusted.value, ip)
  }

  /** The client of a connection: a header from a trusted peer replaces the peer address; an
      untrusted peer and a rejected header end the connection. */
  function Client(enabled: bool, trusted: Option<Acl.Acl>, peer: SocketAddr, v: Verdict): Option<SocketAddr> {
    if !enabled then Some(peer)
    else if !Trusts(trusted, peer.ip) then None
    else match v
      case Header(h, _) => Some(h.src)
      case NoHeader => Some(peer)
      case Rejected(_) => None
  }

  /** What a served connection reads, with any buffer sizes, is the bytes after the header. */
  method ServeConnection(s: Stream, enabled: bool, trusted: Option<Acl.Acl>, peer: SocketAddr,
                         p6: Ipv6Parser, sizes: seq<nat>)
    returns (client: Option<SocketAddr>, served: seq<byte>)
    requires s.Valid()
    modifies s
    ensures client == Client(enabled, trusted, peer, Decide(old(s.Pending()), s.end, p6))
    ensures client.None? ==> served == []
    ensures client.Some? ==>
              var d, v := old(s.Pending()), Decide(old(s.Pending()), s.end, p6);
              var body := if enabled && v.Header? && v.consumed <= |d| then d[v.consumed..] else d;
              served <= body && (Positives(sizes) >= |body| ==> served == body)
  {
    var ps: PrefixedStream?;
    if enabled {
      var allowed := match trusted case Some(acl) => Acl.IsAllowed(acl, peer.ip) case None => true;
      if !allowed {
        return None, [];
      }
      var r;
      r, ps := MaybeReadProxyHeader(s, p6);
      match r {
        case Ok(Some(h)) => client := Some(h.src);
        case Ok(None) => client := Some(peer);
        case Err(_) => return None, [];
      }
    } else {
      client := Some(peer);
      ps := new PrefixedStream(s, []);
    }
    ghost var body := ps.Contents();
    served := ps.Drain(sizes);
    TakeDrop(served, ps.Contents(), |served|);
    assert body[..|served|] == served;
  }

  /** With the protocol enabled the process starts exactly when all trusted blocks parse. Then a
      connection is served exactly when its peer is inside the trusted blocks (if there are any)
      and sent no malformed header; and the address that the access list and the rate limiter
      see is that of the header, or without one the peer's own. */
  lemma ClientIsVouchedFor(enabled: bool, cidrs: seq<string>, p6: Ipv6Parser)
    ensures TrustedPeers(enabled, cidrs, p6).Some? <==> !enabled || Acl.AllParse(cidrs, p6)
    ensures forall trusted, peer: SocketAddr, v | TrustedPeers(enabled, cidrs, p6) == Some(trusted) ::
              Client(enabled, trusted, peer, v)
              == if enabled && ((cidrs != [] && !Acl.AnyEntry(cidrs, peer.ip, p6)) || v.Rejected?) then None
                 else if enabled && v.Header? then Some(v.header.src)
                 else Some(peer)
  {
    Acl.ParseAllMeaning(cidrs, p6);
    forall trusted, peer: SocketAddr | TrustedPeers(enabled, cidrs, p6) == Some(trusted) && enabled && cidrs != []
      ensures Trusts(trusted, peer.ip) <==> Acl.AnyEntry(cidrs, peer.ip, p6)
    {
      Acl.MatchesEntries(cidrs, peer.ip, p6);
    }
  }

  /** A CR LF that is already there stays the first one when more bytes arrive. */
  lemma {:induction false} CrlfExtends(x: seq<byte>, y: seq<byte>)
    ensures FirstCrlf(x).Some? ==> FirstCrlf(x + y) == FirstCrlf(x)
  {
    if |x| >= 2 && !(x[0] == 0x0D && x[1] == 0x0A) {
      CrlfExtends(x[1..], y);
      assert (x + y)[1..] == x[1..] + y;
    }
  }

  // ---- The verdict in terms of the bytes ----

  /** There is no header exactly when neither tag begins the bytes, and enough of them came or
      the connection ended regularly. */
  lemma NoHeaderIff(d: seq<byte>, end: End, p6: Ipv6Parser)
    ensures Decide(d, end, p6) == NoHeader
       <==> !(V1_TAG <= d) && !(V2_SIG <= d) && (|d| >= 12 || end == Eof)
    ensures !(V1_TAG <= d) && !(V2_SIG <= d) && |d| < 12 && end == Broken ==> Decide(d, end, p6) == Rejected(Io)
  {
    assert |d| >= 6 ==> (d[..6] == V1_TAG <==> V1_TAG <= d);
    assert |d| >= 12 ==> (d[..12] == V2_SIG <==> V2_SIG <= d);
    assert V2_SIG <= d ==> d[0] == V2_SIG[0];
  }

  predicate CrlfAt(d: seq<byte>, p: nat) {
    p + 2 <= |d| && d[p] == 0x0D && d[p + 1] == 0x0A
  }

  /** The first line of `d` ends at `p`. */
  ghost predicate LineEndsAt(d: seq<byte>, p: nat) {
    CrlfAt(d, p) && forall q: nat :: q < p ==> !CrlfAt(d, q)
  }

  lemma {:induction false} FirstCrlfMeaning(d: seq<byte>)
    ensures match FirstCrlf(d)
            case Some(p) => LineEndsAt(d, p)
            case None => forall p: nat :: !CrlfAt(d, p)
  {
    if |d| >= 2 && !CrlfAt(d, 0) {
      FirstCrlfMeaning(d[1..]);
      assert forall p: nat :: 0 < p ==> (CrlfAt(d, p) <==> CrlfAt(d[1..], p - 1));
    }
  }

  /** With the version 1 tag: a line that ends within 109 bytes is decided by its text; without
      one the header is too long, cut off, or the connection broke. */
  lemma V1Verdict(d: seq<byte>, end: End, p6: Ipv6Parser)
    requires V1_TAG <= d
    ensures forall p: nat | LineEndsAt(d, p) && p + 2 <= 109 ::
              match DecodeUtf8(d[..p])
              case None => Decide(d, end, p6) == Rejected(NotUtf8)
              case Some(line) =>
                match ParseV1Line(line, p6)
                case None => Decide(d, end, p6) == Rejected(MalformedV1)
                case Some(h) => Decide(d, end, p6) == Header(h, p + 2)
    ensures (forall p: nat | p + 2 <= 109 :: !CrlfAt(d, p)) ==>
              Decide(d, end, p6)
              == Rejected(if |d| >= 109 then TooLongV1 else if end == Broken then Io else TruncatedV1)
  {
    assert d[..6] == V1_TAG;
    var hd := d[..Min(|d|, V1_LIMIT)];
    FirstCrlfMeaning(hd);
    assert forall p: nat :: CrlfAt(hd, p) <==> CrlfAt(d, p) && p + 2 <= 109;
    forall p: nat | LineEndsAt(d, p) && p + 2 <= 109 ensures FirstCrlf(hd) == Some(p) {
      assert CrlfAt(hd, p);
    }
  }

  /** With the version 2 signature: a header that is cut short is refused, the LOCAL command
      carries no address whatever follows, every other command is read as PROXY, and that needs
      a known family with a full address block. */
  lemma V2Verdict(d: seq<byte>, end: End, p6: Ipv6Parser)
    requires V2_SIG <= d
    ensures |d| < 16 || |d| < 16 + U16(d[14], d[15]) ==>
              Decide(d, end, p6) == Rejected(if end == Broken then Io else TruncatedV2)
    ensures |d| >= 16 && |d| >= 16 + U16(d[14], d[15]) ==>
              var n := 16 + U16(d[14], d[15]);
              var known := (d[13] == 0x11 && n >= 28) || (d[13] == 0x21 && n >= 52);
              if d[12] % 0x10 == 0 then Decide(d, end, p6) == Header(NO_ADDRESS, n)
              else if known then Decide(d, end, p6).Header? && Decide(d, end, p6) == Decide(d[12 := 0x21], end, p6)
              else Decide(d, end, p6) == Rejected(UnsupportedFamily)
  {
    V2Tagged(d);
    if |d| >= 16 {
      var e := d[12 := 0x21];
      assert V2_SIG <= e;
      V2Tagged(e);
      var n := 16 + U16(d[14], d[15]);
      if |d| >= n {
        assert e[16..n] == d[16..n];
      }
    }
  }

  lemma V2Tagged(d: seq<byte>)
    requires V2_SIG <= d
    ensures |d| >= 12 && d[..12] == V2_SIG && d[..6] != V1_TAG
  {
    assert d[..6][0] == V2_SIG[0] != V1_TAG[0];
  }

  /** Which lines are accepted, and with which addresses. */
  lemma V1LineIff(line: string, p6: Ipv6Parser, h: ProxyHeader)
    ensures ParseV1Line(line, p6) == Some(h)
       <==> var w := Words(line);
            && |w| >= 2 && w[0] == "PROXY"
            && if w[1] == "UNKNOWN" then h == NO_ADDRESS else
               && |w| >= 6
               && ParseIp(w[2], p6) == Some(h.src.ip) && ParseUint(w[4], 0x1_0000) == Some(h.src.port)
               && ParseIp(w[3], p6) == Some(h.dst.ip) && ParseUint(w[5], 0x1_0000) == Some(h.dst.port)
  {
  }

  // ---- Properties of the verdict ----

  /** A found header is decided by its own bytes: it is a prefix of the input, version 1
      headers including CR LF have at most 109 bytes, version 2 headers have 16 and their
      declared length, and whatever follows (or ends the connection) is immaterial. */
  lemma HeaderIgnoresTail(d: seq<byte>, end: End, tail: seq<byte>, end': End, p6: Ipv6Parser)
    requires Decide(d, end, p6).Header?
    ensures Decide(d, end, p6).consumed <= |d|
    ensures d[..6] == V1_TAG ==> Decide(d, end, p6).consumed <= 109
    ensures d[..6] != V1_TAG ==> Decide(d, end, p6).consumed == 16 + U16(d[14], d[15])
    ensures var n := Decide(d, end, p6).consumed; Decide(d[..n] + tail, end', p6) == Decide(d, end, p6)
  {
    if d[..6] == V1_TAG {
      V1IgnoresTail(d, end, tail, end', p6);
    } else {
      V2IgnoresTail(d, end, tail, end');
      var e := d[..Decide(d, end, p6).consumed] + tail;
      assert e[..6] == d[..6] && e[..12] == d[..12];
    }
  }

  lemma V1IgnoresTail(d: seq<byte>, end: End, tail: seq<byte>, end': End, p6: Ipv6Parser)
    requires |d| >= 6 && d[..6] == V1_TAG && DecideV1(d, end, p6).Header?
    ensures var n := DecideV1(d, end, p6).consumed;
            && 6 <= n <= |d|
            && (d[..n] + tail)[..6] == V1_TAG
            && DecideV1(d[..n] + tail, end', p6) == DecideV1(d, end, p6)
  {
    var n := DecideV1(d, end, p6).consumed;
    var hd := d[..Min(|d|, V1_LIMIT)];
    CrlfBeyondTag(hd);
    assert hd[..n] == d[..n];
    var e := d[..n] + tail;
    CrlfKept(hd, tail, n);
    assert e[..n - 2] == d[..n - 2];
    assert e[..6] == d[..6];
  }

  /** What follows a line does not move its end. */
  lemma CrlfKept(hd: seq<byte>, tail: seq<byte>, n: nat)
    requires |hd| <= V1_LIMIT && FirstCrlf(hd) == Some(n - 2)
    ensures var e := hd[..n] + tail; FirstCrlf(e[..Min(|e|, V1_LIMIT)]) == Some(n - 2)
  {
    var e := hd[..n] + tail;
    var he := e[..Min(|e|, V1_LIMIT)];
    CrlfShrinks(hd, n);
    assert he == hd[..n] + he[n..];
    CrlfExtends(hd[..n], he[n..]);
  }

  lemma V2IgnoresTail(d: seq<byte>, end: End, tail: seq<byte>, end': End)
    requires |d| >= 12 && DecideV2(d, end).Header?
    ensures var n := DecideV2(d, end).consumed;
            16 <= n <= |d| && DecideV2(d[..n] + tail, end') == DecideV2(d, end)
  {
  }

  /** None of the six bytes of the tag is a carriage return. */
  lemma CrlfBeyondTag(hd: seq<byte>)
    requires |hd| >= 6 && hd[..6] == V1_TAG
    ensures FirstCrlf(hd).Some? ==> FirstCrlf(hd).value >= 6
  {
    assert forall i :: 0 <= i < 6 ==> hd[i] == hd[..6][i];
  }

  /** The bytes up to and including the first CR LF have it as their first CR LF. */
  lemma {:induction false} CrlfShrinks(x: seq<byte>, n: nat)
    requires FirstCrlf(x) == Some(n - 2)
    ensures FirstCrlf(x[..n]) == Some(n - 2)
  {
    if !(x[0] == 0x0D && x[1] == 0x0A) {
      CrlfShrinks(x[1..], n - 1);
      assert x[..n][1..] == x[1..][..n - 1];
    }
  }

  // ---- Round trips ----

  function BigEndian(p: Port): (r: seq<byte>)
    ensures |r| == 2 && U16(r[0], r[1]) == p
  {
    [(p / 0x100) as byte, (p % 0x100) as byte]
  }

  function AddressBlock(h: ProxyHeader): seq<byte> {
    h.src.ip.octets + h.dst.ip.octets + BigEndian(h.src.port) + BigEndian(h.dst.port)
  }

  /** A version 2 header with the PROXY command and the given trailing TLV bytes. */
  function EncodeV2(h: ProxyHeader, tlv: seq<byte>): seq<byte>
    requires |AddressBlock(h)| + |tlv| < 0x1_0000
  {
    V2_SIG + [0x21, if h.src.ip.V4? then 0x11 else 0x21]
    + BigEndian(|AddressBlock(h)| + |tlv|) + AddressBlock(h) + tlv
  }

  lemma V2RoundTrip(h: ProxyHeader, tlv: seq<byte>, tail: seq<byte>, end: End, p6: Ipv6Parser)
    requires h.src.ip.V4? == h.dst.ip.V4?
    requires |AddressBlock(h)| + |tlv| < 0x1_0000
    ensures Decide(EncodeV2(h, tlv) + tail, end, p6) == Header(h, 16 + |AddressBlock(h)| + |tlv|)
    ensures |EncodeV2(h, tlv)| == 16 + |AddressBlock(h)| + |tlv|
  {
    var e := EncodeV2(h, tlv);
    var d := e + tail;
    var n := |AddressBlock(h)| + |tlv|;
    assert d[..12] == V2_SIG;
    assert d[..6] == V2_SIG[..6];
    assert d[..6][0] != V1_TAG[0];
    assert [d[14], d[15]] == BigEndian(n);
    var rest := d[16..16 + n];
    assert rest == AddressBlock(h) + tlv;
    V2BlockParses(h, tlv);
  }

  lemma V2BlockParses(h: ProxyHeader, tlv: seq<byte>)
    requires h.src.ip.V4? == h.dst.ip.V4?
    ensures V2Header(0x21, if h.src.ip.V4? then 0x11 else 0x21, AddressBlock(h) + tlv) == Ok(h)
  {
    var s, d, sp, dp := h.src.ip.octets, h.dst.ip.octets, BigEndian(h.src.port), BigEndian(h.dst.port);
    var k := |s|;
    var rest := AddressBlock(h) + tlv;
    assert |d| == k;
    assert rest == s + (d + (sp + (dp + tlv)));
    assert rest[..k] == s && rest[k..2 * k] == d;
    assert rest[2 * k..] == sp + (dp + tlv);
    assert rest[2 * k] == sp[0] && rest[2 * k + 1] == sp[1] && rest[2 * k + 2] == dp[0] && rest[2 * k + 3] == dp[1];
  }

  /** Conversely, a version 2 PROXY header that is accepted is the encoding of its result. */
  lemma V2Inverse(d: seq<byte>, end: End, p6: Ipv6Parser) returns (tlv: seq<byte>)
    requires |d| >= 13 && d[..12] == V2_SIG && d[12] == 0x21
    requires Decide(d, end, p6).Header?
    ensures var v := Decide(d, end, p6);
            && |AddressBlock(v.header)| + |tlv| < 0x1_0000
            && d[..v.consumed] == EncodeV2(v.header, tlv)
  {
    assert d[..6] == V2_SIG[..6];
    assert d[..6][0] != V1_TAG[0];
    var v := Decide(d, end, p6);
    var h, n := v.header, v.consumed;
    var rest := d[16..n];
    tlv := V2BlockInverse(d[13], rest, h);
    PortBytes(d[14], d[15]);
    assert |AddressBlock(h)| + |tlv| == n - 16;
    HeaderParts(d, n);
    assert EncodeV2(h, tlv) == V2_SIG + [0x21, d[13]] + BigEndian(n - 16) + (AddressBlock(h) + tlv);
  }

  lemma HeaderParts(d: seq<byte>, n: nat)
    requires 16 <= n <= |d|
    ensures d[..n] == d[..12] + [d[12], d[13]] + [d[14], d[15]] + d[16..n]
  {
  }

  lemma V2BlockInverse(family: byte, rest: seq<byte>, h: ProxyHeader) returns (tlv: seq<byte>)
    requires V2Header(0x21, family, rest) == Ok(h)
    ensures family == if h.src.ip.V4? then 0x11 else 0x21
    ensures AddressBlock(h) + tlv == rest
  {
    var k := if family == 0x11 then 4 else 16;
    PortBytes(rest[2 * k], rest[2 * k + 1]);
    PortBytes(rest[2 * k + 2], rest[2 * k + 3]);
    tlv := rest[2 * k + 4..];
    assert AddressBlock(h) == rest[..2 * k + 4];
  }

  lemma PortBytes(hi: byte, lo: byte)
    ensures BigEndian(U16(hi, lo)) == [hi, lo]
  {
  }

  /** The fields of the canonical version 1 line for TCP over IPv4. */
  function V1Fields(h: ProxyHeader): seq<string>
    requires h.src.ip.V4? && h.dst.ip.V4?
  {
    ["PROXY", "TCP4", PrintIpv4(h.src.ip), PrintIpv4(h.dst.ip), Decimal(h.src.port), Decimal(h.dst.port)]
  }

  function V1Line(h: ProxyHeader): string
    requires h.src.ip.V4? && h.dst.ip.V4?
  {
    JoinWords(V1Fields(h))
  }

  lemma V1RoundTrip(h: ProxyHeader, tail: seq<byte>, end: End, p6: Ipv6Parser)
    requires h.src.ip.V4? && h.dst.ip.V4?
    ensures IsAscii(V1Line(h))
    ensures Decide(Ascii(V1Line(h)) + [0x0D, 0x0A] + tail, end, p6) == Header(h, |V1Line(h)| + 2)
  {
    var line := V1Line(h);
    V1FieldsGood(h);
    JoinGood(V1Fields(h));
    V1LineParses(h, p6);
    AsciiIsUtf8(line);
    assert line == "PROXY" + " " + JoinWords(V1Fields(h)[1..]);
    V1BytesDecide(line, tail, end, p6);
  }

  lemma V1BytesDecide(line: string, tail: seq<byte>, end: End, p6: Ipv6Parser)
    requires 6 <= |line| <= 107 && line[..6] == "PROXY "
    requires IsAscii(line) && (forall c <- line :: c as int != 0x0D)
    ensures Decide(Ascii(line) + [0x0D, 0x0A] + tail, end, p6) == Lift(V1Header(Ascii(line), p6), |line| + 2)
  {
    var a := Ascii(line);
    var d := a + [0x0D, 0x0A] + tail;
    assert a[..6] == V1_TAG by {
      assert forall i :: 0 <= i < 6 ==> line[i] == "PROXY "[i];
    }
    assert d[..6] == a[..6];
    var head := d[..Min(|d|, V1_LIMIT)];
    assert head == a + [0x0D, 0x0A] + head[|a| + 2..];
    assert forall i :: 0 <= i < |a| ==> line[i] in line;
    CrlfAfter(a, head[|a| + 2..]);
    assert d[..|a|] == a;
  }

  lemma {:induction false} CrlfAfter(a: seq<byte>, rest: seq<byte>)
    requires 0x0D !in a
    ensures FirstCrlf(a + [0x0D, 0x0A] + rest) == Some(|a|)
  {
    if a != [] {
      assert a[0] != 0x0D;
      assert (a + [0x0D, 0x0A] + rest)[1..] == a[1..] + [0x0D, 0x0A] + rest;
      CrlfAfter(a[1..], rest);
    }
  }

  /** A short word of printable ASCII characters. */
  predicate GoodField(s: string) {
    1 <= |s| <= 15 && forall i :: 0 <= i < |s| ==> 0x20 < s[i] as int < 0x7F
  }

  lemma DecimalGood(n: nat)
    requires n < 0x1_0000
    ensures GoodField(Decimal(n))
  {
    DecimalLength(n);
    forall i | 0 <= i < |Decimal(n)| ensures IsDigit(Decimal(n)[i]) {
      assert Decimal(n)[i] in Decimal(n);
    }
  }

  lemma Ipv4Good(ip: IpAddr)
    requires ip.V4?
    ensures GoodField(PrintIpv4(ip))
  {
    forall i | 0 <= i < 4 ensures GoodField(Decimal(ip.octets[i] as nat)) && |Decimal(ip.octets[i] as nat)| <= 3 {
      DecimalGood(ip.octets[i] as nat);
      DecimalLength(ip.octets[i] as nat);
    }
  }

  lemma GoodIsWord(s: string)
    requires GoodField(s)
    ensures IsWord(s)
  {
  }

  lemma V1FieldsGood(h: ProxyHeader)
    requires h.src.ip.V4? && h.dst.ip.V4?
    ensures forall i :: 0 <= i < 6 ==> GoodField(V1Fields(h)[i])
  {
    Ipv4Good(h.src.ip);
    Ipv4Good(h.dst.ip);
    DecimalGood(h.src.port);
    DecimalGood(h.dst.port);
  }

  lemma {:induction false} JoinGood(ws: seq<string>)
    requires ws != [] && forall i :: 0 <= i < |ws| ==> GoodField(ws[i])
    ensures |JoinWords(ws)| < 16 * |ws|
    ensures forall c <- JoinWords(ws) :: 0x20 <= c as int < 0x7F
  {
    assert GoodField(ws[0]);
    if |ws| > 1 {
      JoinGood(ws[1..]);
    }
  }

  lemma V1LineParses(h: ProxyHeader, p6: Ipv6Parser)
    requires h.src.ip.V4? && h.dst.ip.V4?
    ensures ParseV1Line(V1Line(h), p6) == Some(h)
  {
    var fs := V1Fields(h);
    V1FieldsGood(h);
    forall i | 0 <= i < 6 ensures IsWord(fs[i]) {
      GoodIsWord(fs[i]);
    }
    WordsOfJoin(fs);
    Ipv4RoundTrip(h.src.ip);
    Ipv4RoundTrip(h.dst.ip);
    ParseDecimal(h.src.port, 0x1_0000);
    ParseDecimal(h.dst.port, 0x1_0000);
    WordsDecide(V1Line(h), fs[2], fs[3], fs[4], fs[5], p6);
  }

  lemma WordsDecide(line: string, si: string, di: string, sp: string, dp: string, p6: Ipv6Parser)
    requires Words(line) == ["PROXY", "TCP4", si, di, sp, dp]
    requires ParseIp(si, p6).Some? && ParseIp(di, p6).Some?
    requires ParseUint(sp, 0x1_0000).Some? && ParseUint(dp, 0x1_0000).Some?
    ensures ParseV1Line(line, p6)
         == Some(ProxyHeader(SocketAddr(ParseIp(si, p6).value, ParseUint(sp, 0x1_0000).value),
                             SocketAddr(ParseIp(di, p6).value, ParseUint(dp, 0x1_0000).value)))
  {
  }
}
