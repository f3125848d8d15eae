/** The client side of a CONNECT-UDP tunnel (RFC 9298) over one HTTP/3 request stream
    (src/aioquic/masque/tunnel.py): the extended CONNECT handshake, the check of the
    proxy's response, and UDP payloads carried either as HTTP datagrams or as DATAGRAM
    capsules on the request stream, behind the Context ID of section 4 of RFC 9298. */
module Tunnel {
  import opened Bytes
  import opened Text
  import Varint
  import opened Capsule
  import opened CapsuleStream

  /** `ConnectState`. There is no failed state: a refused handshake raises and stays
      in ConnectSent. */
  datatype ConnectState = Initialized | ConnectSent | Connected

  /** `UDP_PAYLOAD`: the Context ID of UDP payloads. */
  const UdpPayload: byte := 0x00

  /** One HTTP field line, as byte strings. */
  datatype Header = Header(name: seq<byte>, value: seq<byte>)

  /** What the tunnel asks of the HTTP/3 connection. */
  datatype H3Call =
    | HeadersSent(streamId: nat, headers: seq<Header>, endStream: bool)
    | DataSent(streamId: nat, data: seq<byte>, endStream: bool)
    | DatagramSent(streamId: nat, data: seq<byte>)

  /** What the tunnel hands to its user: the connect callback, or one UDP payload for
      the datagram handler. */
  datatype Output = ConnectCallback | DatagramHandler(payload: seq<byte>)

  /** The HTTP/3 events the tunnel is given; any other kind is ignored. */
  datatype H3Event =
    | HeadersReceived(streamId: nat, headers: seq<Header>)
    | DataReceived(streamId: nat, data: seq<byte>)
    | DatagramReceived(streamId: nat, data: seq<byte>)
    | OtherEvent

  /** How a call ends: normally, or by raising (H3Error, UnboundLocalError, IndexError
      and ValueError alike). */
  datatype Outcome = Returned | Raised

  // Field names and values of the handshake.
  /** ":method" */
  const MethodName: seq<byte> := [0x3a, 0x6d, 0x65, 0x74, 0x68, 0x6f, 0x64]
  /** ":scheme" */
  const SchemeName: seq<byte> := [0x3a, 0x73, 0x63, 0x68, 0x65, 0x6d, 0x65]
  /** ":authority" */
  const AuthorityName: seq<byte> := [0x3a, 0x61, 0x75, 0x74, 0x68, 0x6f, 0x72, 0x69, 0x74, 0x79]
  /** ":path" */
  const PathName: seq<byte> := [0x3a, 0x70, 0x61, 0x74, 0x68]
  /** ":protocol" */
  const ProtocolName: seq<byte> := [0x3a, 0x70, 0x72, 0x6f, 0x74, 0x6f, 0x63, 0x6f, 0x6c]
  /** "capsule-protocol" */
  const CapsuleProtocolName: seq<byte> := [0x63, 0x61, 0x70, 0x73, 0x75, 0x6c, 0x65, 0x2d, 0x70, 0x72, 0x6f, 0x74, 0x6f, 0x63, 0x6f, 0x6c]
  /** ":status" */
  const StatusName: seq<byte> := [0x3a, 0x73, 0x74, 0x61, 0x74, 0x75, 0x73]
  /** "CONNECT" */
  const ConnectMethod: seq<byte> := [0x43, 0x4f, 0x4e, 0x4e, 0x45, 0x43, 0x54]
  /** "https" */
  const HttpsScheme: seq<byte> := [0x68, 0x74, 0x74, 0x70, 0x73]
  /** "connect-udp" */
  const ConnectUdp: seq<byte> := [0x63, 0x6f, 0x6e, 0x6e, 0x65, 0x63, 0x74, 0x2d, 0x75, 0x64, 0x70]
  /** "?1" */
  const TrueToken: seq<byte> := [0x3f, 0x31]
  /** "/.well-known/masque/udp/" */
  const WellKnownPrefix: seq<byte> := [0x2f, 0x2e, 0x77, 0x65, 0x6c, 0x6c, 0x2d, 0x6b, 0x6e, 0x6f, 0x77, 0x6e, 0x2f, 0x6d, 0x61, 0x73, 0x71, 0x75, 0x65, 0x2f, 0x75, 0x64, 0x70, 0x2f]
  const Slash: byte := '/' as int

  /** `_well_known_udp`: the default URI template of section 3 of RFC 9298, filled
      with the target host (already encoded) and port. */
  function WellKnownUdp(host: seq<byte>, port: int): (r: seq<byte>)
    ensures |r| > |WellKnownPrefix| + |host| && r[..|WellKnownPrefix|] == WellKnownPrefix
    ensures Slash !in host && port >= 0 ==>
      var rest := r[|WellKnownPrefix|..];
      var k := FirstSlash(rest);
      && k < |rest| && rest[..k] == host
      && IsDigits(rest[k + 1..]) && DigitsValue(rest[k + 1..]) == port
  {
    var rest := host + [Slash] + Decimal(port);
    var r := WellKnownPrefix + rest;
    assert r[|WellKnownPrefix|..] == rest && r[..|WellKnownPrefix|] == WellKnownPrefix;
    if Slash !in host && port >= 0 then
      FirstSlashAfter(host, Decimal(port));
      DigitsRoundTrip(port);
      assert rest[..|host|] == host && rest[|host| + 1..] == Digits(port);
      r
    else
      r
  }

  /** The index of the first slash, or the length when there is none. */
  function FirstSlash(s: seq<byte>): (n: nat)
    ensures n <= |s|
  {
    if s == [] || s[0] == Slash then 0 else 1 + FirstSlash(s[1..])
  }

  /** A slash-free string followed by a slash: the first slash is right after it. */
  lemma {:induction false} FirstSlashAfter(a: seq<byte>, b: seq<byte>)
    requires Slash !in a
    ensures FirstSlash(a + [Slash] + b) == |a|
  {
    if a != [] {
      assert (a + [Slash] + b)[1..] == a[1..] + [Slash] + b;
      FirstSlashAfter(a[1..], b);
    }
  }

  /** Two slash-free strings joined by a slash come apart at that slash. */
  lemma SlashSplit(a: seq<byte>, b: seq<byte>, c: seq<byte>, d: seq<byte>)
    requires Slash !in a && Slash !in c
    requires a + [Slash] + b == c + [Slash] + d
    ensures a == c && b == d
  {
    var x := a + [Slash] + b;
    FirstSlashAfter(a, b);
    FirstSlashAfter(c, d);
    assert a == x[..|a|] == c;
    assert b == x[|a| + 1..] == d;
  }

  /** The default path names its target unambiguously: a host without a slash and a
      port are recovered from it. */
  lemma WellKnownUdpInjective(h1: seq<byte>, p1: nat, h2: seq<byte>, p2: nat)
    requires Slash !in h1 && Slash !in h2
    requires WellKnownUdp(h1, p1) == WellKnownUdp(h2, p2)
    ensures h1 == h2 && p1 == p2
  {
    var r := WellKnownUdp(h1, p1);
    assert r[|WellKnownPrefix|..] == h1 + [Slash] + Digits(p1);
    assert r[|WellKnownPrefix|..] == h2 + [Slash] + Digits(p2);
    SlashSplit(h1, Digits(p1), h2, Digits(p2));
    DigitsRoundTrip(p1);
    DigitsRoundTrip(p2);
  }

  /** The value of the first field line with this name. */
  function Lookup(hs: seq<Header>, name: seq<byte>): Option<seq<byte>>
  {
    if hs == [] then None
    else if hs[0].name == name then Some(hs[0].value)
    else Lookup(hs[1..], name)
  }

  /** Lookup finds a field line that no earlier line shares its name with. */
  lemma {:induction false} LookupAt(hs: seq<Header>, k: nat)
    requires k < |hs| && forall j :: 0 <= j < k ==> hs[j].name != hs[k].name
    ensures Lookup(hs, hs[k].name) == Some(hs[k].value)
  {
    if k > 0 {
      assert hs[1..][k - 1] == hs[k];
      LookupAt(hs[1..], k - 1);
    }
  }

  /** Lookup finds nothing for a name no field line has. */
  lemma {:induction false} LookupMissing(hs: seq<Header>, name: seq<byte>)
    requires forall j :: 0 <= j < |hs| ==> hs[j].name != name
    ensures Lookup(hs, name) == None
  {
    if hs != [] {
      LookupMissing(hs[1..], name);
    }
  }

  /** The request of `connect`, in the order it is sent: an extended CONNECT (RFC 9220)
      for the connect-udp protocol over https, to the given authority and path,
      announcing the capsule protocol (section 3.4 of RFC 9297), with every pseudo-header
      before the regular field. */
  function ConnectHeaders(authority: seq<byte>, path: seq<byte>): (hs: seq<Header>)
    ensures |hs| == 6
    ensures Lookup(hs, MethodName) == Some(ConnectMethod)
    ensures Lookup(hs, SchemeName) == Some(HttpsScheme)
    ensures Lookup(hs, AuthorityName) == Some(authority)
    ensures Lookup(hs, PathName) == Some(path)
    ensures Lookup(hs, ProtocolName) == Some(ConnectUdp)
    ensures Lookup(hs, CapsuleProtocolName) == Some(TrueToken)
    ensures Lookup(hs, StatusName) == None
    ensures forall i :: 0 <= i < 5 ==> hs[i].name != [] && hs[i].name[0] == ':' as int
    ensures hs[5].name != [] && hs[5].name[0] != ':' as int
  {
    var hs := [ Header(MethodName, ConnectMethod),
      Header(SchemeName, HttpsScheme),
      Header(AuthorityName, authority),
      Header(PathName, path),
      Header(ProtocolName, ConnectUdp),
      Header(CapsuleProtocolName, TrueToken) ];
    LookupAt(hs, 0);
    LookupAt(hs, 1);
    LookupAt(hs, 2);
    LookupAt(hs, 3);
    LookupAt(hs, 4);
    LookupAt(hs, 5);
    LookupMissing(hs, StatusName);
    hs
  }

  /** A field line that binds the `status` flag: `:status` with a value of ASCII digits
      whose number is in 200..299. */
  predicate StatusOk(h: Header)
    ensures StatusOk(h) <==>
      && h.name == StatusName && IsDigits(h.value) && |h.value| >= 3
      && h.value[|h.value| - 3] == '2' as int
      && forall i :: 0 <= i < |h.value| - 3 ==> h.value[i] == '0' as int
  {
    h.name == StatusName && IsDigits(h.value) && (Digits2xx(h.value); 200 <= DigitsValue(h.value) < 300)
  }

  /** A field line that binds the `capsule` flag: `capsule-protocol: ?1`. */
  predicate CapsuleOk(h: Header)
    ensures CapsuleOk(h) ==> !StatusOk(h)
  {
    assert |CapsuleProtocolName| != |StatusName|;
    h.name == CapsuleProtocolName && h.value == TrueToken
  }

  /** The handshake succeeds exactly when both flags end up bound, which takes two
      different field lines. */
  predicate Accepted(hs: seq<Header>)
    ensures Accepted(hs) ==>
      exists i, j :: 0 <= i < |hs| && 0 <= j < |hs| && i != j && StatusOk(hs[i]) && CapsuleOk(hs[j])
  {
    (exists i :: 0 <= i < |hs| && StatusOk(hs[i])) && (exists i :: 0 <= i < |hs| && CapsuleOk(hs[i]))
  }

  /** A status written as a plain numeral is accepted exactly for the 2xx codes. */
  lemma StatusNumeral(n: nat)
    ensures StatusOk(Header(StatusName, Digits(n))) <==> 200 <= n < 300
  {
    DigitsRoundTrip(n);
  }

  /** A single field line never completes the handshake. */
  lemma AcceptedOne(a: Header)
    ensures !Accepted([a])
  {
    assert forall i :: 0 <= i < 1 ==> [a][i] == a;
  }

  /** Two field lines complete the handshake when, between them, they bind both flags. */
  lemma AcceptedPair(a: Header, b: Header)
    ensures Accepted([a, b]) <==> (StatusOk(a) || StatusOk(b)) && (CapsuleOk(a) || CapsuleOk(b))
  {
    var hs := [a, b];
    assert hs[0] == a && hs[1] == b;
    assert forall i :: 0 <= i < 2 ==> hs[i] == a || hs[i] == b;
  }

  /** A 200 response with the capsule protocol is accepted; without the
      `capsule-protocol` field, with it set to `?0`, or with a 404 status, it is not. */
  lemma AcceptedResponses()
    ensures Accepted([Header(StatusName, Digits(200)), Header(CapsuleProtocolName, TrueToken)])
    ensures !Accepted([Header(StatusName, Digits(200))])
    ensures !Accepted([Header(StatusName, Digits(200)), Header(CapsuleProtocolName, [0x3f, 0x30])])
    ensures !Accepted([Header(StatusName, Digits(404)), Header(CapsuleProtocolName, TrueToken)])
  {
    var ok, notFound := Header(StatusName, Digits(200)), Header(StatusName, Digits(404));
    var capsule, noCapsule := Header(CapsuleProtocolName, TrueToken), Header(CapsuleProtocolName, [0x3f, 0x30]);
    StatusNumeral(200);
    StatusNumeral(404);
    assert !CapsuleOk(ok) && !CapsuleOk(noCapsule) && !StatusOk(noCapsule) && CapsuleOk(capsule) by {
      assert |CapsuleProtocolName| != |StatusName| && TrueToken != [0x3f, 0x30];
    }
    AcceptedPair(ok, capsule);
    AcceptedOne(ok);
    AcceptedPair(ok, noCapsule);
    AcceptedPair(notFound, capsule);
  }

  /** The header loop of `handle_http_event`: each flag is set once a field line binds
      it (the `elif` never hides a `capsule-protocol` line, whose name is not
      `:status`); a flag never set is an unbound local. */
  method ScanResponseHeaders(hs: seq<Header>) returns (status: bool, capsule: bool)
    ensures status <==> exists i :: 0 <= i < |hs| && StatusOk(hs[i])
    ensures capsule <==> exists i :: 0 <= i < |hs| && CapsuleOk(hs[i])
  {
    status, capsule := false, false;
    assert StatusName != CapsuleProtocolName by {
      assert |StatusName| != |CapsuleProtocolName|;
    }
    for k := 0 to |hs|
      invariant status <==> exists i :: 0 <= i < k && StatusOk(hs[i])
      invariant capsule <==> exists i :: 0 <= i < k && CapsuleOk(hs[i])
    {
      if StatusOk(hs[k]) {
        status := true;
      } else if CapsuleOk(hs[k]) {
        capsule := true;
      }
    }
  }

  /** The datagram payload `send_datagram` frames: the UDP_PAYLOAD Context ID, then
      the UDP payload. */
  function DatagramFrame(payload: seq<byte>): (r: seq<byte>)
    ensures |r| == |payload| + 1 && r[0] == UdpPayload && r[1..] == payload
  {
    [UdpPayload] + payload
  }

  /** What `_receive_datagram` makes of an HTTP datagram payload. */
  datatype Unframed = Malformed | Dropped | Delivered(payload: seq<byte>)

  /** `_receive_datagram`'s arithmetic: the Context ID's width comes from the top two
      bits of the first byte; too short a datagram is dropped; the Context ID is the
      big-endian value of the whole prefix masked with 0x3f, and only 0 delivers what
      follows. An empty datagram raises on `data[0]`. */
  function Unframe(d: seq<byte>): (r: Unframed)
    ensures r.Malformed? <==> d == []
    ensures r.Delivered? ==> |d| > Varint.WidthOf(d[0]) && r.payload == d[Varint.WidthOf(d[0])..]
  {
    if d == [] then Malformed
    else
      var ctxSize := Varint.WidthOf(d[0]);
      if |d| <= ctxSize then Dropped
      else if FromBigEndian(d[..ctxSize]) % 64 != UdpPayload as int then Dropped
      else Delivered(d[ctxSize..])
  }

  /** A framed payload is delivered unchanged, unless it is empty: the one-byte datagram
      is dropped as too short. */
  lemma UnframeFramed(payload: seq<byte>)
    ensures Unframe(DatagramFrame(payload)) == if payload == [] then Dropped else Delivered(payload)
  {
    var d := DatagramFrame(payload);
    assert d[..1] == [0];
    assert FromBigEndian([0]) == 0 by {
      assert [0][..0] == [];
    }
  }

  /** The mask keeps only the six low bits of the prefix's last byte: beyond the width,
      nothing but that byte decides whether a datagram is delivered. */
  lemma UnframeLastByte(d: seq<byte>)
    requires d != [] && |d| > Varint.WidthOf(d[0])
    ensures var w := Varint.WidthOf(d[0]);
      Unframe(d) == if Low6(d[w - 1]) == 0 then Delivered(d[w..]) else Dropped
  {
    var w := Varint.WidthOf(d[0]);
    FromBigEndianLow6(d[..w]);
  }

  /** Every datagram whose Context ID reads as 0 under section 16 of RFC 9000 is
      delivered, whatever its width. */
  lemma UnframeContextZero(d: seq<byte>)
    requires Varint.Pull(d, 0).Pulled? && Varint.Pull(d, 0).value == 0 && Varint.Pull(d, 0).next < |d|
    ensures Unframe(d) == Delivered(d[Varint.Pull(d, 0).next..])
  {
    var w := Varint.WidthOf(d[0]);
    MaskedAtZero(d, 0, w);
    UnframeLastByte(d);
  }

  /** A masked big-endian value is 0 only when its last byte contributes nothing. */
  lemma MaskedAtZero(s: seq<byte>, p: nat, n: nat)
    requires 1 <= n && p + n <= |s| && Varint.MaskedAt(s, p, n) == 0
    ensures Low6(s[p + n - 1]) == 0
  {
  }

  /** The converse fails: a two-byte Context ID of 256 (0x41 0x00) is taken for
      UDP_PAYLOAD and its datagram delivered. */
  lemma UnframeContext256(payload: seq<byte>)
    requires payload != []
    ensures Varint.Pull([0x41, 0x00] + payload, 0) == Varint.Pulled(256, 2)
    ensures Unframe([0x41, 0x00] + payload) == Delivered(payload)
  {
    var d := [0x41, 0x00] + payload;
    assert Varint.MaskedAt(d, 0, 2) == 256;
    UnframeLastByte(d);
    assert d[2..] == payload;
  }

  /** For one-byte Context IDs the mask agrees with varint decoding: delivered exactly
      when the ID is 0. */
  lemma UnframeOneByte(d: seq<byte>)
    requires |d| > 1 && d[0] < 64
    ensures Unframe(d).Delivered? <==> Varint.Pull(d, 0) == Varint.Pulled(0, 1)
  {
    UnframeLastByte(d);
  }

  /** The outputs of handing a run of capsules to `_receive_datagram`, and whether one
      of them raised. */
  datatype Delivery = Delivery(outputs: seq<Output>, outcome: Outcome)

  /** `_receive_datagram` on one datagram payload. */
  function ReceiveOne(d: seq<byte>): (r: Delivery)
    ensures d == [] ==> r == Delivery([], Raised)
    ensures d != [] ==> r.outcome == Returned
    ensures d != [] ==>
      var w := Varint.WidthOf(d[0]);
      r.outputs == if |d| > w && Low6(d[w - 1]) == 0 then [DatagramHandler(d[w..])] else []
  {
    var r := match Unframe(d)
      case Malformed => Delivery([], Raised)
      case Dropped => Delivery([], Returned)
      case Delivered(p) => Delivery([DatagramHandler(p)], Returned);
    if d != [] && |d| > Varint.WidthOf(d[0]) then
      UnframeLastByte(d);
      r
    else
      r
  }

  /** The capsule loop of `handle_http_event`: DATAGRAM capsules go to
      `_receive_datagram` in order, other capsules are skipped, and the first raise ends
      the loop (the capsules after it are lost). */
  function ReceiveAll(cs: seq<Capsule>): (r: Delivery)
    ensures |r.outputs| <= |cs|
  {
    if cs == [] then Delivery([], Returned)
    else
      match cs[0]
      case PlainCapsule => ReceiveAll(cs[1..])
      case DatagramCapsule(d) =>
        var one := ReceiveOne(d);
        if one.outcome == Raised then one
        else
          var rest := ReceiveAll(cs[1..]);
          Delivery(one.outputs + rest.outputs, rest.outcome)
  }

  /** A payload `send_datagram` sends as an HTTP datagram is handed to the datagram
      handler of the receiving tunnel in any connect state, unless it is empty. */
  lemma NativeDatagramRoundTrip(t: TunnelState, streamId: nat, payload: seq<byte>)
    requires ValidState(t.buffer)
    ensures HandleEvent(t, DatagramReceived(streamId, DatagramFrame(payload))) ==
      EventResult(t, if payload == [] then [] else [DatagramHandler(payload)], Returned)
  {
    UnframeFramed(payload);
  }

  /** The capsule loop at its i-th capsule. */
  lemma ReceiveAllAt(cs: seq<Capsule>, i: nat)
    requires i < |cs|
    ensures ReceiveAll(cs[i..]) ==
      if cs[i].PlainCapsule? then ReceiveAll(cs[i + 1..])
      else
        var one := ReceiveOne(cs[i].data);
        if one.outcome == Raised then one
        else Delivery(one.outputs + ReceiveAll(cs[i + 1..]).outputs, ReceiveAll(cs[i + 1..]).outcome)
  {
    assert cs[i..][0] == cs[i] && cs[i..][1..] == cs[i + 1..];
  }

  /** One returning step of the capsule loop on the traces: with `acc` handed over so far
      and `here` what the rest of the loop produces, a capsule that hands over `one`
      moves its outputs into `acc`. */
  lemma DeliveryStep(total: Delivery, acc: seq<Output>, here: Delivery, one: seq<Output>, rest: Delivery)
    requires total == Delivery(acc + here.outputs, here.outcome)
    requires here == Delivery(one + rest.outputs, rest.outcome)
    ensures total == Delivery((acc + one) + rest.outputs, rest.outcome)
  {
    assert acc + (one + rest.outputs) == (acc + one) + rest.outputs;
  }

  /** Handing two runs over one after the other is handing over their concatenation. */
  lemma {:induction false} ReceiveAllAppend(a: seq<Capsule>, b: seq<Capsule>)
    ensures var ra := ReceiveAll(a);
      ReceiveAll(a + b) ==
        if ra.outcome == Raised then ra
        else Delivery(ra.outputs + ReceiveAll(b).outputs, ReceiveAll(b).outcome)
  {
    if a == [] {
      assert a + b == b;
    } else {
      assert (a + b)[0] == a[0] && (a + b)[1..] == a[1..] + b;
      ReceiveAllAppend(a[1..], b);
      var rb := ReceiveAll(b);
      var rest := ReceiveAll(a[1..]);
      if a[0].DatagramCapsule? && rest.outcome == Returned {
        var one := ReceiveOne(a[0].data);
        assert one.outputs + (rest.outputs + rb.outputs) == (one.outputs + rest.outputs) + rb.outputs;
      }
    }
  }

  /** The capsules a peer sends for a run of UDP payloads. */
  function DatagramFrames(ps: seq<seq<byte>>): (fs: seq<Frame>)
    ensures |fs| == |ps|
  {
    if ps == [] then [] else [Frame(0x00, DatagramFrame(ps[0]))] + DatagramFrames(ps[1..])
  }

  /** What the datagram handler receives for a run of UDP payloads. */
  function Handlers(ps: seq<seq<byte>>): (os: seq<Output>)
    ensures |os| == |ps|
  {
    if ps == [] then [] else [DatagramHandler(ps[0])] + Handlers(ps[1..])
  }

  /** Framed, non-empty UDP payloads arriving as DATAGRAM capsules are all handed to the
      datagram handler, unchanged and in order. */
  lemma {:induction false} ReceiveFramed(ps: seq<seq<byte>>)
    requires forall i :: 0 <= i < |ps| ==> ps[i] != []
    ensures ReceiveAll(DecodedAll(DatagramFrames(ps))) == Delivery(Handlers(ps), Returned)
  {
    if ps != [] {
      var fs := DatagramFrames(ps);
      assert fs[0] == Frame(0x00, DatagramFrame(ps[0])) && fs[1..] == DatagramFrames(ps[1..]);
      var cs := DecodedAll(fs);
      assert cs[0] == DatagramCapsule(DatagramFrame(ps[0]));
      assert cs[1..] == DecodedAll(DatagramFrames(ps[1..]));
      UnframeFramed(ps[0]);
      ReceiveFramed(ps[1..]);
    }
  }

  /** The value state of a tunnel: its connect state and its reassembly buffer. */
  datatype TunnelState = TunnelState(state: ConnectState, buffer: BufferState)

  datatype EventResult = EventResult(tunnel: TunnelState, outputs: seq<Output>, outcome: Outcome)

  /** `handle_http_event` on value states. Response headers are only taken in
      ConnectSent, and complete the handshake, with one call of the connect callback,
      exactly when the response is accepted; otherwise the call raises and nothing
      changes. Stream data is only taken once Connected, goes through the reassembly
      buffer and hands the DATAGRAM capsules over. A native datagram goes to
      `_receive_datagram` in every state; other events do nothing. */
  function HandleEvent(t: TunnelState, e: H3Event): (r: EventResult)
    requires ValidState(t.buffer)
    ensures ValidState(r.tunnel.buffer)
    ensures e.HeadersReceived? ==>
      if t.state == ConnectSent && Accepted(e.headers) then
        r == EventResult(t.(state := Connected), [ConnectCallback], Returned)
      else
        r == EventResult(t, [], Raised)
    ensures e.DataReceived? && t.state != Connected ==> r == EventResult(t, [], Raised)
    ensures e.DataReceived? && t.state == Connected ==>
      var ingest := Ingest(t.buffer, e.data);
      r.tunnel == TunnelState(Connected, ingest.state) &&
      Delivery(r.outputs, r.outcome) == ReceiveAll(ingest.capsules)
    ensures e.DatagramReceived? ==> r.tunnel == t && Delivery(r.outputs, r.outcome) == ReceiveOne(e.data)
    ensures e.OtherEvent? ==> r == EventResult(t, [], Returned)
    ensures r.tunnel.state != t.state ==> t.state == ConnectSent && r.tunnel.state == Connected
  {
    match e
    case HeadersReceived(_, hs) =>
      if t.state != ConnectSent then EventResult(t, [], Raised)
      else if Accepted(hs) then EventResult(t.(state := Connected), [ConnectCallback], Returned)
      else EventResult(t, [], Raised)
    case DataReceived(_, data) =>
      if t.state != Connected then EventResult(t, [], Raised)
      else
        var ingest := Ingest(t.buffer, data);
        var d := ReceiveAll(ingest.capsules);
        EventResult(t.(buffer := ingest.state), d.outputs, d.outcome)
    case DatagramReceived(_, data) =>
      var d := ReceiveOne(data);
      EventResult(t, d.outputs, d.outcome)
    case OtherEvent => EventResult(t, [], Returned)
  }

  datatype EventsResult = EventsResult(tunnel: TunnelState, outputs: seq<Output>, raised: bool)

  /** A run of events, each handled in the state the previous one left (a raise ends
      only its own call). */
  function HandleEvents(t: TunnelState, es: seq<H3Event>): (r: EventsResult)
    requires ValidState(t.buffer)
    ensures ValidState(r.tunnel.buffer)
    decreases |es|
  {
    if es == [] then EventsResult(t, [], false)
    else
      var first := HandleEvent(t, es[0]);
      var rest := HandleEvents(first.tunnel, es[1..]);
      EventsResult(rest.tunnel, first.outputs + rest.outputs, first.outcome == Raised || rest.raised)
  }

  /** The stream data events that carry the chunks. */
  function DataEvents(streamId: nat, chunks: seq<seq<byte>>): (es: seq<H3Event>)
    ensures |es| == |chunks|
  {
    if chunks == [] then [] else [DataReceived(streamId, chunks[0])] + DataEvents(streamId, chunks[1..])
  }

  /** Stream data handled once Connected is the reassembly of all the chunks followed by
      handing over every capsule decoded, as long as none of the hand-overs raises. */
  lemma {:induction false} HandleDataEvents(t: TunnelState, streamId: nat, chunks: seq<seq<byte>>)
    requires t.state == Connected && ValidState(t.buffer)
    requires ReceiveAll(Feed(t.buffer, chunks).capsules).outcome == Returned
    ensures var r := HandleEvents(t, DataEvents(streamId, chunks));
      var fed := Feed(t.buffer, chunks);
      && r.tunnel == TunnelState(Connected, fed.state)
      && r.outputs == ReceiveAll(fed.capsules).outputs
      && !r.raised
    decreases |chunks|
  {
    if chunks != [] {
      var es := DataEvents(streamId, chunks);
      assert es[0] == DataReceived(streamId, chunks[0]) && es[1..] == DataEvents(streamId, chunks[1..]);
      var first := Ingest(t.buffer, chunks[0]);
      var t1 := TunnelState(Connected, first.state);
      var more := Feed(first.state, chunks[1..]);
      FeedCons(t.buffer, chunks);
      ReceiveAllAppend(first.capsules, more.capsules);
      HandleDataEvents(t1, streamId, chunks[1..]);
    }
  }

  /** The stream round trip: UDP payloads a peer sends as DATAGRAM capsules on the
      request stream, cut into data events anywhere, reach the datagram handler of a
      Connected tunnel whole, unchanged and in order, and leave its buffer drained. The
      buffer must start with nothing held back and keep two maximal varints of room. */
  lemma StreamDelivery(t: TunnelState, streamId: nat, chunks: seq<seq<byte>>, ps: seq<seq<byte>>)
    requires t.state == Connected && ValidState(t.buffer) && t.buffer.start == t.buffer.pos
    requires forall i :: 0 <= i < |ps| ==> 0 < |ps[i]| < Varint.MaxValue
    requires AllEncodable(DatagramFrames(ps))
    requires Concat(chunks) == Stream(DatagramFrames(ps))
    requires t.buffer.pos + |Concat(chunks)| + 2 * UintVarMaxSize <= MaxCapsuleSize
    ensures var r := HandleEvents(t, DataEvents(streamId, chunks));
      && r.outputs == Handlers(ps) && !r.raised
      && r.tunnel.state == Connected && Pending(r.tunnel.buffer) == []
  {
    var fs := DatagramFrames(ps);
    assert Pending(t.buffer) == [];
    FeedStream(t.buffer, chunks, fs);
    ReceiveFramed(ps);
    HandleDataEvents(t, streamId, chunks);
  }

  /** The frames of a run of payloads, each short enough to encode, are encodable. */
  lemma {:induction false} DatagramFramesEncodable(ps: seq<seq<byte>>)
    requires forall i :: 0 <= i < |ps| ==> |ps[i]| < Varint.MaxValue
    ensures AllEncodable(DatagramFrames(ps))
  {
    if ps != [] {
      DatagramFramesEncodable(ps[1..]);
      var fs := DatagramFrames(ps);
      assert fs[1..] == DatagramFrames(ps[1..]);
      forall i | 0 <= i < |fs|
        ensures Encodable(fs[i])
      {
        if i > 0 {
          assert fs[i] == fs[1..][i - 1];
        }
      }
    }
  }

  /** The DATAGRAM capsules `send_datagram` writes on the stream, one per payload, are
      back to back the stream of the payloads' frames. */
  lemma {:induction false} SentStream(ps: seq<seq<byte>>)
    requires forall i :: 0 <= i < |ps| ==> |ps[i]| < Varint.MaxValue
    ensures AllEncodable(DatagramFrames(ps))
    ensures Concat(StreamCapsules(ps)) == Stream(DatagramFrames(ps))
  {
    DatagramFramesEncodable(ps);
    if ps != [] {
      var fs := DatagramFrames(ps);
      assert fs[1..] == DatagramFrames(ps[1..]);
      SentStream(ps[1..]);
      var cs := StreamCapsules(ps);
      assert cs[1..] == StreamCapsules(ps[1..]);
    }
  }

  /** The data `send_datagram(p, stream=True)` sends for each payload. */
  function StreamCapsules(ps: seq<seq<byte>>): (cs: seq<seq<byte>>)
    requires forall i :: 0 <= i < |ps| ==> |ps[i]| < Varint.MaxValue
    ensures |cs| == |ps|
  {
    if ps == [] then []
    else [EncodeDatagramCapsule(DatagramFrame(ps[0])).value] + StreamCapsules(ps[1..])
  }

  /** The tunnel object: the request stream it owns, its connect state, its reassembly
      buffer, and, as traces, the calls it made on the HTTP/3 connection and what it
      handed to its user. */
  class UdpTunnel {
    const streamId: nat
    var state: ConnectState
    const buffer: CapsuleBuffer
    ghost var sent: seq<H3Call>
    ghost var outputs: seq<Output>

    ghost predicate Valid()
      reads this, buffer, buffer.buf
    {
      buffer.Valid()
    }

    ghost function Model(): TunnelState
      reads this, buffer, buffer.buf, buffer.buf.data
      requires Valid()
    {
      TunnelState(state, buffer.State())
    }

    constructor (streamId: nat)
      ensures Valid() && fresh(buffer) && fresh(buffer.buf) && fresh(buffer.buf.data)
      ensures this.streamId == streamId && state == Initialized
      ensures buffer.start == 0 && buffer.buf.pos == 0
      ensures sent == [] && outputs == []
    {
      this.streamId := streamId;
      state := Initialized;
      buffer := new CapsuleBuffer();
      sent := [];
      outputs := [];
    }

    /** `connect`: only from Initialized, one `send_headers` with the extended CONNECT
        request (end_stream false), then ConnectSent. `path` is what the path function
        returns; None stands for the default `_well_known_udp`. */
    method Connect(host: seq<byte>, port: int, authority: seq<byte>, path: Option<seq<byte>>) returns (outcome: Outcome)
      modifies this
      ensures outputs == old(outputs)
      ensures old(state) != Initialized ==> outcome == Raised && state == old(state) && sent == old(sent)
      ensures old(state) == Initialized ==>
        var p := if path.Some? then path.value else WellKnownUdp(host, port);
        && outcome == Returned && state == ConnectSent
        && sent == old(sent) + [HeadersSent(streamId, ConnectHeaders(authority, p), false)]
    {
      if state != Initialized {
        return Raised;
      }
      var p := if path.Some? then path.value else WellKnownUdp(host, port);
      sent := sent + [HeadersSent(streamId, ConnectHeaders(authority, p), false)];
      state := ConnectSent;
      outcome := Returned;
    }

    /** `handle_http_event`, proved against HandleEvent. The stream-id assertions are
        preconditions. */
    method HandleHttpEvent(e: H3Event) returns (outcome: Outcome)
      requires Valid()
      requires e.HeadersReceived? ==> e.streamId == streamId
      requires e.DatagramReceived? ==> e.streamId == streamId
      modifies this, buffer, buffer.buf, buffer.buf.data
      ensures Valid() && sent == old(sent)
      ensures var r := HandleEvent(old(Model()), e);
        Model() == r.tunnel && outputs == old(outputs) + r.outputs && outcome == r.outcome
    {
      match e {
        case HeadersReceived(_, hs) =>
          if state != ConnectSent {
            return Raised;
          }
          var status, capsule := ScanResponseHeaders(hs);
          if !status || !capsule {
            return Raised;
          }
          state := Connected;
          outputs := outputs + [ConnectCallback];
          outcome := Returned;
        case DataReceived(_, data) =>
          if state != Connected {
            return Raised;
          }
          var cs := buffer.ReadCapsuleData(data);
          outcome := ReceiveCapsules(cs);
        case DatagramReceived(_, data) =>
          outcome := ReceiveDatagram(data);
        case OtherEvent =>
          outcome := Returned;
      }
    }

    /** The loop over decoded capsules of `handle_http_event`. */
    method ReceiveCapsules(cs: seq<Capsule>) returns (outcome: Outcome)
      modifies this
      ensures state == old(state) && sent == old(sent)
      ensures Delivery(outputs, outcome) == Delivery(old(outputs) + ReceiveAll(cs).outputs, ReceiveAll(cs).outcome)
    {
      ghost var acc: seq<Output> := [];
      var i := 0;
      while i < |cs|
        invariant 0 <= i <= |cs| && state == old(state) && sent == old(sent)
        invariant outputs == old(outputs) + acc
        invariant ReceiveAll(cs) == Delivery(acc + ReceiveAll(cs[i..]).outputs, ReceiveAll(cs[i..]).outcome)
      {
        ReceiveAllAt(cs, i);
        var c := cs[i];
        if c.DatagramCapsule? {
          var o := ReceiveDatagram(c.data);
          if o == Raised {
            return Raised;
          }
          DeliveryStep(ReceiveAll(cs), acc, ReceiveAll(cs[i..]), ReceiveOne(c.data).outputs, ReceiveAll(cs[i + 1..]));
          acc := acc + ReceiveOne(c.data).outputs;
        }
        i := i + 1;
      }
      outcome := Returned;
    }

    /** `send_datagram`: the UDP payload behind the UDP_PAYLOAD Context ID, as one
        DATAGRAM capsule on the request stream or as one HTTP datagram; a payload too
        long for a varint length raises. The connect state is not looked at. */
    method SendDatagram(data: seq<byte>, stream: bool) returns (outcome: Outcome)
      modifies this
      ensures state == old(state) && outputs == old(outputs)
      ensures stream && EncodeDatagramCapsule(DatagramFrame(data)).None? ==>
        outcome == Raised && sent == old(sent)
      ensures stream && EncodeDatagramCapsule(DatagramFrame(data)).Some? ==>
        outcome == Returned &&
        sent == old(sent) + [DataSent(streamId, EncodeDatagramCapsule(DatagramFrame(data)).value, false)]
      ensures !stream ==> outcome == Returned && sent == old(sent) + [DatagramSent(streamId, DatagramFrame(data))]
    {
      var datagram := DatagramFrame(data);
      if stream {
        var encoded := EncodeDatagramCapsule(datagram);
        if encoded.None? {
          return Raised;
        }
        sent := sent + [DataSent(streamId, encoded.value, false)];
      } else {
        sent := sent + [DatagramSent(streamId, datagram)];
      }
      outcome := Returned;
    }

    /** `_receive_datagram`. */
    method ReceiveDatagram(data: seq<byte>) returns (outcome: Outcome)
      modifies this
      ensures state == old(state) && sent == old(sent)
      ensures outputs == old(outputs) + ReceiveOne(data).outputs && outcome == ReceiveOne(data).outcome
    {
      if |data| == 0 {
        return Raised;
      }
      var ctxSize := Varint.WidthOf(data[0]);
      if |data| <= ctxSize {
        return Returned;
      }
      var contextId := FromBigEndian(data[..ctxSize]) % 64;
      if contextId != UdpPayload as int {
        return Returned;
      }
      outputs := outputs + [DatagramHandler(data[ctxSize..])];
      outcome := Returned;
    }
  }
}
