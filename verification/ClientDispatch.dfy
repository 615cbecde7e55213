/** The client's request handling: ID hiding, reply construction, at most one reply per query. */
module ClientDispatch {
  import opened Text
  import opened Http
  import opened GlobalIp
  import opened Dns
  import opened Edns
  import opened Transport
  import opened JsonDns
  import opened JsonUnmarshal
  import opened JsonRequest
  import opened Subnets
  import opened Freshness

  /** What goes back to the stub resolver: a message the library packs, or raw bytes. */
  datatype Reply = Message(msg: Msg) | Raw(bytes: seq<Byte>)

  predicate CarriesId(r: Reply, id: nat)
  {
    match r
    case Message(m) => m.id == id
    case Raw(b) => |b| >= 2 && b[0] as nat * 256 + b[1] as nat == id
  }

  /** The UDP payload size the query announces. */
  function AnnouncedSize(msg: Msg): nat
  {
    if LastOpt(msg.extra).Some? then msg.extra[LastOpt(msg.extra).value].udpSize else 512
  }

  /** That is the size of the last OPT record, and 512 bytes without one. */
  lemma AnnouncedSizeIs(msg: Msg, front: seq<RR>, opt: RR, rest: seq<RR>)
    requires opt.Opt? && forall i :: 0 <= i < |rest| ==> rest[i].Record?
    ensures msg.extra == front + [opt] + rest ==> AnnouncedSize(msg) == opt.udpSize
    ensures msg.extra == rest ==> AnnouncedSize(msg) == 512
  {
    hide LastOpt;
    LastOptSkips(front, opt, rest);
    LastOptSplits(rest);
  }

  /** Replies to one query: at most one, and it carries the ID exactly when it is a packed message,
      goes over TCP, or the announced size leaves room for the two ID bytes. */
  ghost predicate Proper(replies: seq<Reply>, id: nat, isTcp: bool, size: nat)
  {
    |replies| <= 1 && forall r :: r in replies ==> (CarriesId(r, id) <==> r.Message? || isTcp || size >= 2)
  }

  /** The upstream exchange: the request could not be built, got no response, or got this one. */
  datatype HttpResult =
    | NotSent
    | NoResponse
    | Received(ok: bool, contentType: string, body: Option<seq<Byte>>, date: Option<int>, lastModified: Option<int>)

  datatype Prepared = Prepared(reply: Msg, udpSize: nat, netmask: Byte, response: HttpResult)

  /** The client and all it meets while it handles one query: libraries, the JSON decoder, whether
      announcing is off, the address the query came from, the upstream drawn, and the clock. */
  datatype Frontend = Frontend(
    env: Env, wire: Wire, json: seq<Byte> -> Option<Response>, noEcs: bool, remote: Option<Address>,
    upstream: string, now: int)

  /** findClientIP. */
  function ClientIp(f: Frontend, msg: Msg): (Option<Address>, Byte) { Announced(f.noEcs, OwnSubnet(msg), f.remote) }

  // ----- the IETF path --------------------------------------------------------------------------------

  /** The library's query message, changed in place while it is packed. */
  class Query {
    var msg: Msg
    constructor (msg: Msg)
      ensures this.msg == msg
    { this.msg := msg; }
  }

  /** The message that is packed: EDNS added, ID hidden. */
  function Hidden(f: Frontend, msg: Msg): Msg { WithSubnet(msg, BlockOf(ClientIp(f, msg).0)).(id := 0) }

  /** What leaves of a global client whose query brings no subnet is its /24 or /56, as the last option of
      the last OPT record; with announcing off it is 0.0.0.0. */
  lemma HiddenAnnounces(f: Frontend, msg: Msg, remote: Address)
    requires OwnSubnet(msg).None? && IsIp(remote) && (f.noEcs || (f.remote == Some(remote) && IsGlobal(f.remote)))
    ensures var extra := Hidden(f, msg).extra;
      && LastOpt(extra).Some?
      && var options := extra[LastOpt(extra).value].options;
      options != [] && options[|options| - 1] == SubnetOption(OwnBlock(f.noEcs, remote))
  {
    if f.noEcs {
      AnnouncedAsNobody(f.remote);
    } else {
      AnnouncedIsCut(remote);
    }
    hide ExtraWithSubnet, LastOpt, IsGlobal, FirstSubnet, Announced, OwnBlock, BlockOf;
    var found := BlockOf(ClientIp(f, msg).0);
    assert found == Some(OwnBlock(f.noEcs, remote)) by { BlockOfNobody(remote); }
    OutgoingOpt(msg.extra, found);
  }

  lemma BlockOfNobody(remote: Address)
    requires IsIp(remote)
    ensures OwnBlock(true, remote) == Subnet(1, 24, 0, Some([0, 0, 0, 0]))
  {
  }

  /** The prefix length remembered for the reply. */
  function WireNetmask(f: Frontend, msg: Msg): Byte
  {
    var own, found := OwnSubnet(msg), ClientIp(f, msg);
    if own.Some? then own.value.netmask else if found.0.Some? then Block(found.0.value).netmask else found.1
  }

  /** It is the query's own, else 24 or 56 by the family of the address found, else the unset 255. */
  lemma WireNetmaskIs(f: Frontend, msg: Msg)
    ensures OwnSubnet(msg).Some? ==> WireNetmask(f, msg) == OwnSubnet(msg).value.netmask
    ensures OwnSubnet(msg).None? && !f.noEcs && IsGlobal(f.remote) && IsIp(f.remote.value) ==>
      WireNetmask(f, msg) == if To4(f.remote.value).Some? then 24 else 56
    ensures OwnSubnet(msg).None? && f.noEcs ==> WireNetmask(f, msg) == 24
    ensures OwnSubnet(msg).None? && !f.noEcs && !IsGlobal(f.remote) ==> WireNetmask(f, msg) == 255
  {
    hide OwnSubnet;
    if OwnSubnet(msg).None? {
      AnnouncedAsNobody(f.remote);
      if !f.noEcs && IsGlobal(f.remote) && IsIp(f.remote.value) {
        AnnouncedIsCut(f.remote.value);
      }
      AnnouncedOtherwise(f.noEcs, None, f.remote);
      hide Announced, IsGlobal;
    }
  }

  /** EDNS in, ID out, pack, ID back; a failure to pack returns before the ID is back. */
  method PackHidden(f: Frontend, q: Query) returns (packet: Option<seq<Byte>>)
    modifies q
    ensures packet == f.wire.pack(Hidden(f, old(q.msg)))
    ensures q.msg.id == if packet.Some? then old(q.msg.id) else 0
    ensures q.msg.question == old(q.msg.question)
  {
    hide ExtraWithSubnet, ClientIp;
    q.msg := WithSubnet(q.msg, BlockOf(ClientIp(f, q.msg).0));
    var requestId := q.msg.id;
    q.msg := q.msg.(id := 0);
    packet := f.wire.pack(q.msg);
    if packet.Some? {
      q.msg := q.msg.(id := requestId);
    }
  }

  /** The request for a query with one question; none where the query cannot be packed. */
  function RequestOf(f: Frontend, usesJson: bool, msg: Msg): (r: Option<HttpRequest>)
    requires |msg.question| == 1
    ensures usesJson ==> r.Some?
  {
    if usesJson then Some(JsonGet(f.env, f.upstream, msg.question[0], msg.cd, ClientIp(f, msg)))
    else
      var packet := f.wire.pack(Hidden(f, msg));
      if packet.None? then None else Some(ClientRequest(f.upstream, packet.value))
  }

  /** What generating a request leaves behind: at most one early reply, which is a packed message under
      the query's ID; or a prepared reply and a response. */
  ghost predicate Generated(f: Frontend, usesJson: bool, msg: Msg, http: HttpRequest -> HttpResult,
                            replies: seq<Reply>, prepared: Option<Prepared>)
  {
    if |msg.question| != 1 then replies == [Message(PrepareReply(msg).(rcode := FORMERR))] && prepared.None?
    else if RequestOf(f, usesJson, msg).None? then replies == [Message(PrepareReply(msg).(rcode := FORMERR))] && prepared.None?
    else
      match http(RequestOf(f, usesJson, msg).value)
      case NotSent =>
        prepared.None? && replies == if usesJson then [Message(PrepareReply(msg).(rcode := SERVFAIL))] else []
      case NoResponse => prepared.None? && replies == [Message(PrepareReply(msg).(rcode := SERVFAIL))]
      case Received(_, _, _, _, _) =>
        && replies == []
        && prepared == Some(Prepared(PrepareReply(msg), AnnouncedSize(msg),
             if usesJson then ClientIp(f, msg).1 else WireNetmask(f, msg), http(RequestOf(f, usesJson, msg).value)))
  }

  method GenerateIetf(f: Frontend, q: Query, http: HttpRequest -> HttpResult)
    returns (replies: seq<Reply>, prepared: Option<Prepared>)
    modifies q
    ensures Generated(f, false, old(q.msg), http, replies, prepared)
    // the ID stays hidden on the one path that returns before restoring it
    ensures q.msg.id ==
      if |old(q.msg.question)| == 1 && f.wire.pack(Hidden(f, old(q.msg))).None? then 0 else old(q.msg.id)
  {
    hide WithSubnet, AnnouncedSize, ClientRequest, Hidden, ClientIp, WireNetmask, JsonGet;
    replies, prepared := [], None;
    var reply := PrepareReply(q.msg);
    if |q.msg.question| != 1 {
      replies := replies + [Message(reply.(rcode := FORMERR))];
      return;
    }
    var udpSize, netmask := AnnouncedSize(q.msg), WireNetmask(f, q.msg);
    var packet := PackHidden(f, q);
    if packet.None? {
      replies := replies + [Message(reply.(rcode := FORMERR))];
      return;
    }
    var result := http(ClientRequest(f.upstream, packet.value));
    if result.NotSent? {
      return;  // silent, so that no failure is cached
    }
    if result.NoResponse? {
      replies := replies + [Message(reply.(rcode := SERVFAIL))];
      return;
    }
    prepared := Some(Prepared(reply, udpSize, netmask, result));
  }

  /** Packing the final message and cutting it for UDP. */
  function Delivered(full: Msg, failed: Msg, udpSize: nat, isTcp: bool, wire: Wire): seq<Reply>
    requires ValidWire(wire)
  {
    var buf := wire.pack(full);
    if buf.None? then [Message(failed.(rcode := SERVFAIL))]
    else if isTcp || |buf.value| <= udpSize then [Raw(buf.value)]
    else
      var short := wire.pack(Truncate(full));
      if short.None? then [] else [Raw(short.value[..udpSize])]
  }

  /** The receiver unpacks this message from the one reply. */
  ghost predicate Receives(wire: Wire, replies: seq<Reply>, m: Msg)
  {
    |replies| == 1 && replies[0].Raw? && wire.unpack(replies[0].bytes) == Some(m)
  }

  /** What the receiver gets: over TCP, or where it fits, the whole message, which reads back where the
      codec gives it back; otherwise the first bytes, as many as announced, of the packed message with
      the truncation flag set; and SERVFAIL where the message cannot be packed. */
  lemma DeliveredReadsBack(full: Msg, failed: Msg, udpSize: nat, isTcp: bool, wire: Wire)
    requires ValidWire(wire)
    ensures var packed, flagged, replies :=
        wire.pack(full), wire.pack(full.(truncated := true)), Delivered(full, failed, udpSize, isTcp, wire);
      && (packed.None? ==> replies == [Message(failed.(rcode := SERVFAIL))])
      && (packed.Some? && (isTcp || |packed.value| <= udpSize) && wire.unpack(packed.value) == Some(full) ==>
            Receives(wire, replies, full))
      && (packed.Some? && !isTcp && |packed.value| > udpSize ==>
            if flagged.None? then replies == []
            else |replies| == 1 && replies[0].Raw? && replies[0].bytes <= flagged.value && |replies[0].bytes| == udpSize)
  {
  }

  /** The exact condition under which the delivered reply carries the ID. */
  lemma DeliveredCarriesIdIff(full: Msg, failed: Msg, udpSize: nat, isTcp: bool, wire: Wire)
    requires ValidWire(wire) && full.id == failed.id
    ensures Proper(Delivered(full, failed, udpSize, isTcp, wire), full.id, isTcp, udpSize)
  {
  }

  /** A wire codec with nothing but the header, to have one. */
  function HeaderOnly(m: Msg): Option<seq<Byte>>
  {
    if m.id < 0x1_0000 then Some([m.id / 256, m.id % 256] + seq(10, i => 0)) else None
  }

  /** The real case: a query that announces size 0 gets an empty datagram over UDP. */
  lemma SizeZeroLosesId(query: Msg, full: Msg, failed: Msg)
    requires query.id == full.id == failed.id < 0x1_0000 && query.extra == [Opt(".", 0, 0, [])]
    ensures var wire := Wire(HeaderOnly, b => None);
      && ValidWire(wire) && AnnouncedSize(query) == 0
      && Delivered(full, failed, AnnouncedSize(query), false, wire) == [Raw([])]
      && !CarriesId(Raw([]), query.id)
  {
    var wire := Wire(HeaderOnly, b => None);
    assert ValidWire(wire);
    assert |wire.pack(full).value| == 12;
    assert wire.pack(Truncate(full)).value[..0] == [];
  }

  predicate IsType(contentType: string, media: string) { contentType == media || HasPrefix(contentType, media + ";") }

  /** The type is what stands before the first semicolon. */
  lemma TypeBeforeSemicolon(contentType: string, media: string)
    requires ';' !in media
    ensures IsType(contentType, media) <==> SplitN(contentType, ';', 2)[0] == media
  {
    var i := IndexOf(contentType, ';');
    hide IndexOf;
    if HasPrefix(contentType, media + ";") {
      assert contentType == media + [';'] + contentType[|media| + 1..];
      IndexOfAppend(media, ';', contentType[|media| + 1..]);
      assert contentType[..|media|] == media;
    }
    if i < |contentType| && contentType[..i] == media {
      assert contentType[..|media| + 1] == media + ";";
    }
  }

  /** The body is read if the status is 200 or the type is the expected one. */
  predicate Readable(r: HttpResult, media: string) { r.Received? && (r.ok || IsType(r.contentType, media)) && r.body.Some? }

  /** A readable packet is delivered aged and under the query's ID; anything else means SERVFAIL. */
  function FromWire(f: Frontend, isTcp: bool, p: Prepared): seq<Reply>
    requires ValidWire(f.wire) && p.response.Received?
  {
    var r := p.response;
    if Readable(r, DNS_MESSAGE) && f.wire.unpack(r.body.value).Some? then
      Delivered(Aged(f.wire.unpack(r.body.value).value, p.reply.id, Age(r.date, r.lastModified, f.now)),
        p.reply, p.udpSize, isTcp, f.wire)
    else [Message(p.reply.(rcode := SERVFAIL))]
  }

  method ParseIetf(f: Frontend, q: Query, isTcp: bool, p: Prepared) returns (replies: seq<Reply>)
    requires ValidWire(f.wire) && p.response.Received? && p.reply.id == q.msg.id
    ensures replies == FromWire(f, isTcp, p)
    ensures Proper(replies, q.msg.id, isTcp, p.udpSize)
  {
    hide ValidWire, Delivered;
    var failed := p.reply;
    if !p.response.ok && !IsType(p.response.contentType, DNS_MESSAGE) {
      return [Message(failed.(rcode := SERVFAIL))];
    }
    if p.response.body.None? {
      return [Message(failed.(rcode := SERVFAIL))];
    }
    var delta := Age(p.response.date, p.response.lastModified, f.now);
    var full := f.wire.unpack(p.response.body.value);
    if full.None? {
      return [Message(failed.(rcode := SERVFAIL))];
    }
    var aged := Aged(full.value, q.msg.id, delta);
    DeliveredCarriesIdIff(aged, failed, p.udpSize, isTcp, f.wire);
    replies := Delivered(aged, failed, p.udpSize, isTcp, f.wire);
  }

  // ----- the JSON path -----------------------------------------------------------------------------------

  method GenerateGoogle(f: Frontend, q: Query, http: HttpRequest -> HttpResult)
    returns (replies: seq<Reply>, prepared: Option<Prepared>)
    ensures Generated(f, true, q.msg, http, replies, prepared)
  {
    hide AnnouncedSize, ClientIp, JsonGet, WireNetmask;
    replies, prepared := [], None;
    var reply := PrepareReply(q.msg);
    if |q.msg.question| != 1 {
      replies := replies + [Message(reply.(rcode := FORMERR))];
      return;
    }
    var udpSize, found := AnnouncedSize(q.msg), ClientIp(f, q.msg);
    var result := http(JsonGet(f.env, f.upstream, q.msg.question[0], q.msg.cd, found));
    if !result.Received? {
      replies := replies + [Message(reply.(rcode := SERVFAIL))];
      return;
    }
    prepared := Some(Prepared(reply, udpSize, found.1, result));
  }

  /** A readable response is delivered as unmarshalled into the prepared reply; anything else means
      SERVFAIL. */
  function FromJson(f: Frontend, isTcp: bool, p: Prepared): seq<Reply>
    requires ValidWire(f.wire) && p.response.Received?
  {
    var r := p.response;
    if Readable(r, JSON) && f.json(r.body.value).Some? then
      Delivered(Unmarshalled(f.env, p.reply, f.json(r.body.value).value, p.udpSize, p.netmask, f.now),
        p.reply, p.udpSize, isTcp, f.wire)
    else [Message(p.reply.(rcode := SERVFAIL))]
  }

  method ParseGoogle(f: Frontend, q: Query, isTcp: bool, p: Prepared) returns (replies: seq<Reply>)
    requires ValidWire(f.wire) && p.response.Received? && p.reply.id == q.msg.id
    ensures replies == FromJson(f, isTcp, p)
    ensures Proper(replies, q.msg.id, isTcp, p.udpSize)
  {
    hide ValidWire, Delivered, UnmarshalAll, FreshOpt;
    var failed := p.reply;
    if !p.response.ok && !IsType(p.response.contentType, JSON) {
      return [Message(failed.(rcode := SERVFAIL))];
    }
    if p.response.body.None? || f.json(p.response.body.value).None? {
      return [Message(failed.(rcode := SERVFAIL))];
    }
    var full := Unmarshal(f.env, failed, f.json(p.response.body.value).value, p.udpSize, p.netmask, f.now);
    DeliveredCarriesIdIff(full, failed, p.udpSize, isTcp, f.wire);
    replies := Delivered(full, failed, p.udpSize, isTcp, f.wire);
  }

  // ----- the handler ------------------------------------------------------------------------------------------

  /** Upstream lists and the random choice between them, as loaded: at least one list is nonempty. */
  datatype Config = Config(google: nat, ietf: nat)

  predicate UsesJson(c: Config, random: nat) { c.ietf == 0 || (c.google != 0 && random < c.google) }

  /** A known response type decides the parser; an unknown one falls back to the request's own. */
  predicate AnsweredInJson(usedJson: bool, contentType: string)
  {
    var media := SplitN(contentType, ';', 2)[0];
    if media == JSON then true
    else if media == DNS_MESSAGE || media == UDP_WIREFORMAT then false
    else usedJson
  }

  /** A response of a type neither side knows is read in the form that was asked for, the older wire type
      as wire format. */
  lemma ParserFallsBack(usedJson: bool, contentType: string)
    requires SplitN(contentType, ';', 2)[0] != JSON && SplitN(contentType, ';', 2)[0] != DNS_MESSAGE
    ensures AnsweredInJson(usedJson, contentType) <==> usedJson && SplitN(contentType, ';', 2)[0] != UDP_WIREFORMAT
  {
  }

  /** A list without upstreams is never chosen; with both, the draw decides by the list lengths. */
  lemma UpstreamChoice(c: Config, random: nat)
    requires c.google + c.ietf > 0 && random < c.google + c.ietf
    ensures UsesJson(c, random) ==> c.google > 0
    ensures !UsesJson(c, random) ==> c.ietf > 0
    ensures c.google > 0 && c.ietf > 0 ==> (UsesJson(c, random) <==> random < c.google)
  {
  }

  function Understood(f: Frontend, usesJson: bool, isTcp: bool, p: Prepared): seq<Reply>
    requires ValidWire(f.wire) && p.response.Received?
  {
    if AnsweredInJson(usesJson, p.response.contentType) then FromJson(f, isTcp, p) else FromWire(f, isTcp, p)
  }

  /** handlerFunc: on every path at most one reply, and it carries the ID the query came with; the
      one exception is a UDP reply to a query that announced less than two bytes. */
  method Handle(f: Frontend, q: Query, isTcp: bool, config: Config, random: nat, http: HttpRequest -> HttpResult)
    returns (replies: seq<Reply>)
    requires ValidWire(f.wire)
    modifies q
    ensures Proper(replies, old(q.msg.id), isTcp, AnnouncedSize(old(q.msg)))
    ensures old(q.msg.response) ==> replies == []
    ensures !old(q.msg.response) ==>
      exists early, prepared :: Generated(f, UsesJson(config, random), old(q.msg), http, early, prepared) &&
        replies == if prepared.None? then early else Understood(f, UsesJson(config, random), isTcp, prepared.value)
  {
    hide ValidWire, AnnouncedSize, Hidden, ClientRequest, WireNetmask, ClientIp, JsonGet, FromWire, FromJson;
    if q.msg.response {
      return [];
    }
    var usesJson := UsesJson(config, random);
    ghost var msg := q.msg;
    var prepared;
    if usesJson {
      replies, prepared := GenerateGoogle(f, q, http);
    } else {
      replies, prepared := GenerateIetf(f, q, http);
    }
    assert Generated(f, usesJson, msg, http, replies, prepared);
    if prepared.None? {
      return replies;
    }
    assert q.msg.id == msg.id;
    if AnsweredInJson(usesJson, prepared.value.response.contentType) {
      replies := ParseGoogle(f, q, isTcp, prepared.value);
    } else {
      replies := ParseIetf(f, q, isTcp, prepared.value);
    }
  }
}
