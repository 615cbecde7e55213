/** One query through client, server and back. */
module EndToEnd {
  import opened Text
  import opened Http
  import opened Dns
  import opened Edns
  import opened Transport
  import opened JsonDns
  import opened JsonUnmarshal
  import opened JsonRequest
  import opened JsonTheorems
  import opened Subnets
  import opened Freshness
  import opened ClientDispatch
  import Server = ServerDispatch

  // ----- the response on its way back ---------------------------------------------------------------

  /** The type of every JSON body, errors included. */
  const JSON_UTF8 := JSON + ";" + " charset=UTF-8"

  /** The server seen through HTTP. An answer with the status SERVFAIL goes out with code 503. */
  function Online(b: Server.Backend, req: HttpRequest): (r: HttpResult)
    ensures r.Received?
  {
    var h := Stamped(b.clock);
    match Server.Served(b, req)
    case ErrorBody(code) => Received(false, JSON_UTF8, Some(b.errorText(code)), h.date, None)
    case PatchBody => Received(true, DNS_MESSAGE, Some(b.canned), h.date, None)
    case JsonBody(m) =>
      var resp := Marshalled(b.env, m, b.clock);
      Received(resp.status != SERVFAIL, JSON_UTF8, b.json(resp), h.date, h.lastModified)
    case WireBody(m) =>
      Received(Marshalled(b.env, m, b.clock).status != SERVFAIL, DNS_MESSAGE, b.wire.pack(m), h.date, h.lastModified)
  }

  /** What JSON text carries of a response: the summary fields are for the server's own headers. */
  function Unsummed(rrs: seq<JsonRR>): seq<JsonRR>
  {
    if rrs == [] then [] else Unsummed(rrs[..|rrs| - 1]) + [rrs[|rrs| - 1].(expires := 0)]
  }

  function AsSent(resp: JsonDns.Response): JsonDns.Response
  {
    resp.(answer := Unsummed(resp.answer), authority := Unsummed(resp.authority), additional := Unsummed(resp.additional),
      haveTtl := false, leastTtl := 0, earliest := 0)
  }

  lemma {:induction false} UnsummedIsEnough(env: Env, rrs: seq<JsonRR>, now: int)
    ensures UnmarshalAll(env, Unsummed(rrs), now) == UnmarshalAll(env, rrs, now)
  {
    if rrs == [] {
    } else {
      var n := |rrs| - 1;
      UnsummedIsEnough(env, rrs[..n], now);
      var sent := Unsummed(rrs);
      assert sent[..|sent| - 1] == Unsummed(rrs[..n]) && sent[|sent| - 1] == rrs[n].(expires := 0);
    }
  }

  lemma SentIsEnough(env: Env, base: Msg, resp: JsonDns.Response, udpSize: nat, netmask: Byte, now: int)
    ensures Unmarshalled(env, base, AsSent(resp), udpSize, netmask, now) == Unmarshalled(env, base, resp, udpSize, netmask, now)
  {
    UnsummedIsEnough(env, resp.answer, now);
    UnsummedIsEnough(env, resp.authority, now);
    UnsummedIsEnough(env, resp.additional, now);
    hide UnmarshalAll, Unsummed, OptFlags, RcodeOf, SubnetOptions, ParseSubnetField;
  }

  /** What an error text decodes to. */
  const ERROR := JsonDns.Response(SERVFAIL, false, false, false, false, false, [], [], [], [], "", false, 0, 0)

  // ----- media types ----------------------------------------------------------------------------------

  lemma FirstCandidate(media: string, rest: string)
    requires ',' !in media
    ensures Split(media + "," + rest, ',')[0] == media
  {
    IndexOfAppend(media, ',', rest);
    var s := media + [','] + rest;
    assert s == media + "," + rest && s[..|media|] == media;
  }

  lemma BareCandidate(media: string)
    requires ';' !in media
    ensures SplitN(media, ';', 2)[0] == media
  {
    IndexOfAbsent(media, ';');
  }

  lemma AcceptSelectsWire(contentType: string)
    ensures Server.Negotiated(WIRE_ACCEPT, contentType) == DNS_MESSAGE
  {
    MediaChars();
    MediaDiffer();
    hide DNS_MESSAGE, JSON, UDP_WIREFORMAT, Split, SplitN;
    FirstCandidate(DNS_MESSAGE, " application/dns-udpwireformat, application/json");
    BareCandidate(DNS_MESSAGE);
  }

  lemma AcceptSelectsJson(contentType: string)
    ensures Server.Negotiated(JSON_ACCEPT, contentType) == JSON
  {
    MediaChars();
    MediaDiffer();
    hide DNS_MESSAGE, JSON, UDP_WIREFORMAT, Split, SplitN;
    FirstCandidate(JSON, " application/dns-message, application/dns-udpwireformat");
    BareCandidate(JSON);
  }

  /** Every JSON body is read as JSON and every wire body as wire format, whatever was asked. */
  lemma TypesUnderstood(usesJson: bool)
    ensures AnsweredInJson(usesJson, JSON_UTF8) && IsType(JSON_UTF8, JSON)
    ensures !AnsweredInJson(usesJson, DNS_MESSAGE)
  {
    MediaChars();
    MediaDiffer();
    hide DNS_MESSAGE, JSON, UDP_WIREFORMAT, IndexOf;
    BareCandidate(DNS_MESSAGE);
    IndexOfAppend(JSON, ';', " charset=UTF-8");
    var s := JSON + [';'] + " charset=UTF-8";
    assert s == JSON_UTF8 && s[..|JSON|] == JSON;
    assert JSON + ";" <= JSON_UTF8;
  }

  /** What the client makes of the server's response to this request. */
  function Heard(f: Frontend, b: Server.Backend, usesJson: bool, isTcp: bool, msg: Msg, netmask: Byte, req: HttpRequest): seq<Reply>
    requires ValidWire(f.wire)
  {
    Understood(f, usesJson, isTcp, Prepared(PrepareReply(msg), AnnouncedSize(msg), netmask, Online(b, req)))
  }

  // ----- the wire format --------------------------------------------------------------------------------

  /** Unpacking undoes the packing of this message. */
  ghost predicate RoundTrips(wire: Wire, m: Msg) { wire.pack(m).Some? ==> wire.unpack(wire.pack(m).value) == Some(m) }

  /** The zeroed ID (section 4.1 of RFC 8484) reaches the server, which sets it aside, takes a fresh
      one, adds its own EDNS and asks that upstream. */
  lemma ZeroIdTravels(b: Server.Backend, upstream: string, hidden: Msg)
    requires Harmless(upstream) && hidden.id == 0 && b.wire.pack(hidden).Some? && ValidWire(b.wire)
    requires RoundTrips(b.wire, hidden)
    ensures var request := ClientRequest(upstream, b.wire.pack(hidden).value);
      && RequestType(request) == DNS_MESSAGE
      && Server.ParseIetf(b, request) == Server.Query(WithSubnet(hidden.(id := b.freshId), BlockOf(b.peer)), 0)
  {
    hide ServerPacket, ClientRequest, WithSubnet, RequestType, Harmless;
    var bytes := b.wire.pack(hidden).value;
    assert bytes[0] as nat * 256 + bytes[1] as nat == 0;
    assert bytes != Server.PROBE by { assert Server.PROBE[0] == 0xca; }
    PacketArrives(upstream, bytes);
  }

  /** What the server asks: the client's question under the fresh ID. */
  lemma AskedUnderFreshId(b: Server.Backend, hidden: Msg)
    ensures var p := Server.Query(WithSubnet(hidden.(id := b.freshId), BlockOf(b.peer)), 0);
      && (Server.Resolvable(p.msg) <==> |hidden.question| == 1 && hidden.opcode == 0)
      && (Server.Asked(p).Some? <==> Server.Resolvable(p.msg))
      && (Server.Asked(p).Some? ==>
            Server.Asked(p).value.id == b.freshId && Server.Asked(p).value.question == hidden.question)
  {
    hide ExtraWithSubnet;
  }

  lemma HiddenIs(f: Frontend, msg: Msg)
    ensures var hidden := Hidden(f, msg); hidden.id == 0 && hidden.question == msg.question && hidden.opcode == msg.opcode
  {
    hide ExtraWithSubnet;
  }

  /** The first upstream answer as the server hands it on. */
  function Filtered(b: Server.Backend): Option<Msg>
  {
    var answer := Server.AnswerFrom(b.upstream, 0, b.tries);
    if answer.None? then None else Some(b.filter(answer.value))
  }

  /** What the client makes of an answer packed under ID 0: unreadable means SERVFAIL, otherwise the
      message goes on with its TTLs unchanged and under the query's ID. */
  function Passed(f: Frontend, isTcp: bool, msg: Msg, answer: seq<Byte>): seq<Reply>
    requires ValidWire(f.wire)
  {
    var m := f.wire.unpack(answer);
    if m.None? then [Message(PrepareReply(msg).(rcode := SERVFAIL))]
    else Delivered(m.value.(id := msg.id), PrepareReply(msg), AnnouncedSize(msg), isTcp, f.wire)
  }

  /** What the client makes of a server error: an empty reply with the status SERVFAIL. */
  function ErrorReply(f: Frontend, isTcp: bool, msg: Msg): seq<Reply>
    requires ValidWire(f.wire)
  {
    var size := AnnouncedSize(msg);
    var opt := Opt(".", if size >= 512 then size else 512, 0, []);
    var failed := PrepareReply(msg);
    Delivered(
      failed.(truncated := false, ad := false, cd := false, rcode := SERVFAIL, answer := [], ns := [], extra := [opt]),
      failed, size, isTcp, f.wire)
  }

  /** The error texts this request may meet decode as they should. */
  ghost predicate ErrorsRead(f: Frontend, b: Server.Backend)
  {
    forall code :: code == 400 || code == 500 || code == 503 ==> f.json(b.errorText(code)) == Some(ERROR)
  }

  lemma ErrorUnmarshalled(f: Frontend, base: Msg, udpSize: nat, netmask: Byte)
    ensures Unmarshalled(f.env, base, ERROR, udpSize, netmask, f.now) ==
      base.(truncated := false, ad := false, cd := false, rcode := SERVFAIL, answer := [], ns := [],
        extra := [Opt(".", if udpSize >= 512 then udpSize else 512, 0, [])])
  {
    assert OptFlags(0, SERVFAIL) == 0 && RcodeOf(SERVFAIL) == SERVFAIL;
    assert SubnetOptions(ParseSubnetField(f.env, ""), netmask) == [];
    hide OptFlags, RcodeOf, SubnetOptions, ParseSubnetField;
    assert [FreshOpt(f.env, ERROR, udpSize, netmask)] + [] == [FreshOpt(f.env, ERROR, udpSize, netmask)];
  }

  lemma ErrorUnderstood(f: Frontend, b: Server.Backend, usesJson: bool, isTcp: bool, msg: Msg, req: HttpRequest, netmask: Byte)
    requires ValidWire(f.wire) && ErrorsRead(f, b)
    requires var body := Server.Served(b, req); body.ErrorBody? && (body.code == 400 || body.code == 500 || body.code == 503)
    ensures Heard(f, b, usesJson, isTcp, msg, netmask, req) == ErrorReply(f, isTcp, msg)
  {
    hide ValidWire, Server.Served, Delivered, AnsweredInJson, IsType, JSON_UTF8, JSON, AnnouncedSize, Unmarshalled,
      FromWire, Stamped;
    TypesUnderstood(usesJson);
    ErrorUnmarshalled(f, PrepareReply(msg), AnnouncedSize(msg), netmask);
  }

  lemma PacketUnderstood(f: Frontend, b: Server.Backend, usesJson: bool, isTcp: bool, msg: Msg, req: HttpRequest, netmask: Byte)
    requires ValidWire(f.wire)
    requires Server.Served(b, req).WireBody? && b.wire.pack(Server.Served(b, req).msg).Some?
    ensures Heard(f, b, usesJson, isTcp, msg, netmask, req)
      == Passed(f, isTcp, msg, b.wire.pack(Server.Served(b, req).msg).value)
  {
    hide ValidWire, Server.Served, Delivered, AnsweredInJson, JSON_UTF8, DNS_MESSAGE, JSON, AnnouncedSize,
      Marshalled, FromJson, Stamped,
      Age, Aged;
    TypesUnderstood(usesJson);
    var answer := f.wire.unpack(b.wire.pack(Server.Served(b, req).msg).value);
    if answer.Some? {
      OwnHeadersMeanAgeZero(b.clock, f.now, answer.value, msg.id);
    }
  }

  /** A wire-format exchange: the server asks the client's question under a fresh ID exactly if it is a
      standard query; its filtered first answer, packed under ID 0, is what the client passes on; and
      without one the client answers SERVFAIL. */
  ghost predicate WireExchanged(f: Frontend, b: Server.Backend, isTcp: bool, msg: Msg, replies: seq<Reply>)
    requires |msg.question| == 1 && RequestOf(f, false, msg).Some? && ValidWire(f.wire)
  {
    var request := RequestOf(f, false, msg).value;
    && RequestType(request) == DNS_MESSAGE
    && var asked := Server.Asked(Server.ParseIetf(b, request));
    && (asked.Some? <==> msg.opcode == 0)
    && (asked.Some? ==> asked.value.id == b.freshId && asked.value.question == msg.question)
    && replies ==
       if msg.opcode == 0 && Filtered(b).Some? && b.wire.pack(Filtered(b).value.(id := 0)).Some?
       then Passed(f, isTcp, msg, b.wire.pack(Filtered(b).value.(id := 0)).value)
       else ErrorReply(f, isTcp, msg)
  }

  lemma WireServed(f: Frontend, b: Server.Backend, msg: Msg)
    requires |msg.question| == 1 && RequestOf(f, false, msg).Some? && ValidWire(f.wire) && b.wire == f.wire
    requires Harmless(f.upstream) && RoundTrips(f.wire, Hidden(f, msg))
    ensures var request := RequestOf(f, false, msg).value;
      && RequestType(request) == DNS_MESSAGE
      && var asked := Server.Asked(Server.ParseIetf(b, request));
      && (asked.Some? <==> msg.opcode == 0)
      && (asked.Some? ==> asked.value.id == b.freshId && asked.value.question == msg.question)
      && Server.Served(b, request) ==
         if msg.opcode != 0 then Server.ErrorBody(400)
         else if Filtered(b).None? then Server.ErrorBody(503)
         else Server.Respond(b, false, Filtered(b).value, 0)
  {
    hide ValidWire, Hidden, WithSubnet, Harmless, RequestType, Server.Negotiated, Server.ParseIetf, ClientRequest,
      Server.Asked, Server.Resolvable, Server.AnswerFrom, Server.Respond, DNS_MESSAGE, DNS_JSON, JSON, UDP_WIREFORMAT, WIRE_ACCEPT;
    var hidden := Hidden(f, msg);
    HiddenIs(f, msg);
    ZeroIdTravels(b, f.upstream, hidden);
    AcceptSelectsWire(DNS_MESSAGE);
    AcceptOf(f.upstream, b.wire.pack(hidden).value);
    AskedUnderFreshId(b, hidden);
    MediaDiffer();
  }

  lemma AcceptOf(upstream: string, packet: seq<Byte>)
    ensures ClientRequest(upstream, packet).accept == WIRE_ACCEPT
  {
  }

  lemma WireUnderstood(f: Frontend, b: Server.Backend, isTcp: bool, msg: Msg, netmask: Byte)
    requires |msg.question| == 1 && RequestOf(f, false, msg).Some? && ValidWire(f.wire) && b.wire == f.wire
    requires Harmless(f.upstream) && RoundTrips(f.wire, Hidden(f, msg)) && ErrorsRead(f, b)
    ensures WireExchanged(f, b, isTcp, msg, Heard(f, b, false, isTcp, msg, netmask, RequestOf(f, false, msg).value))
  {
    hide ValidWire, Hidden, Harmless, RequestType, Server.ParseIetf, RequestOf, RoundTrips, AnnouncedSize,
      Server.Asked, Server.Served, DNS_MESSAGE, Heard, Passed, ErrorReply, Filtered, ErrorsRead;
    WireServed(f, b, msg);
    var request := RequestOf(f, false, msg).value;
    if Server.Served(b, request).WireBody? {
      PacketUnderstood(f, b, false, isTcp, msg, request, netmask);
    } else {
      ErrorUnderstood(f, b, false, isTcp, msg, request, netmask);
    }
  }

  /** Where the codec gives the answer back, the client delivers exactly that answer, its TTLs unchanged,
      under the ID the query came with. */
  lemma AnswerPassedOn(f: Frontend, isTcp: bool, msg: Msg, answer: Msg)
    requires ValidWire(f.wire) && f.wire.pack(answer.(id := 0)).Some? && RoundTrips(f.wire, answer.(id := 0))
    ensures Passed(f, isTcp, msg, f.wire.pack(answer.(id := 0)).value) ==
      Delivered(answer.(id := msg.id), PrepareReply(msg), AnnouncedSize(msg), isTcp, f.wire)
  {
    hide ValidWire, Delivered;
  }

  /** So, over TCP or where it fits, the client's own asker reads the filtered first answer under the ID
      it asked with. */
  lemma AnswerReaches(f: Frontend, b: Server.Backend, isTcp: bool, msg: Msg, replies: seq<Reply>)
    requires |msg.question| == 1 && RequestOf(f, false, msg).Some? && ValidWire(f.wire) && b.wire == f.wire
    requires WireExchanged(f, b, isTcp, msg, replies) && msg.opcode == 0 && Filtered(b).Some?
    requires var answer := Filtered(b).value;
      && f.wire.pack(answer.(id := 0)).Some? && RoundTrips(f.wire, answer.(id := 0))
      && f.wire.pack(answer.(id := msg.id)).Some? && RoundTrips(f.wire, answer.(id := msg.id))
    ensures var answer := Filtered(b).value.(id := msg.id);
      isTcp || |f.wire.pack(answer).value| <= AnnouncedSize(msg) ==> Receives(f.wire, replies, answer)
  {
    hide ValidWire, Delivered, AnnouncedSize, RequestOf, Filtered, Receives, Server.Asked, Server.ParseIetf, RequestType, Passed;
    var answer := Filtered(b).value;
    AnswerPassedOn(f, isTcp, msg, answer);
    DeliveredReadsBack(answer.(id := msg.id), PrepareReply(msg), AnnouncedSize(msg), isTcp, f.wire);
  }

  // ----- JSON -------------------------------------------------------------------------------------------

  /** The response text decodes to what it carries. */
  ghost predicate JsonReads(f: Frontend, b: Server.Backend, resp: JsonDns.Response)
  {
    b.json(resp).Some? ==> f.json(b.json(resp).value) == Some(AsSent(resp))
  }

  /** The question as the server reads it from the URL; none where it answers 400. */
  function ReadQuestion(b: Server.Backend, q: Question): Option<Question>
  {
    if q.name == "" || b.idna(q.name).None? || !TypeArrives(b.env, q.qtype) then None
    else Some(Question(Fqdn(b.idna(q.name).value), q.qtype))
  }

  /** The filtered answer after Marshal on the server and Unmarshal on the client. */
  function Carried(f: Frontend, b: Server.Backend, msg: Msg, answer: Msg): Msg
  {
    Unmarshalled(f.env, PrepareReply(msg), Marshalled(b.env, answer, b.clock), AnnouncedSize(msg), ClientIp(f, msg).1, f.now)
  }

  /** A JSON exchange: the server asks the converted question with the client's checking flag under a
      fresh ID, or refuses; its filtered first answer, carried through JSON, is what the client
      delivers; and without one the client answers SERVFAIL. */
  ghost predicate JsonExchanged(f: Frontend, b: Server.Backend, isTcp: bool, msg: Msg, replies: seq<Reply>)
    requires |msg.question| == 1 && ValidWire(f.wire)
  {
    var request, question := RequestOf(f, true, msg).value, ReadQuestion(b, msg.question[0]);
    && RequestType(request) == DNS_JSON
    && var asked := Server.Asked(Server.ParseGoogle(b, request));
    && (asked.Some? <==> question.Some?)
    && (asked.Some? ==> asked.value.id == b.freshId && asked.value.question == [question.value] && asked.value.cd == msg.cd)
    && replies ==
       if question.Some? && Filtered(b).Some? && Server.Encodable(b, Filtered(b).value)
       then Delivered(Carried(f, b, msg, Filtered(b).value), PrepareReply(msg), AnnouncedSize(msg), isTcp, f.wire)
       else ErrorReply(f, isTcp, msg)
  }

  lemma JsonServed(f: Frontend, b: Server.Backend, msg: Msg)
    requires |msg.question| == 1 && b.env == f.env && JsonHarmless(f.upstream)
    requires Writable(f.env, msg.question[0], ClientIp(f, msg))
    ensures var request, question := RequestOf(f, true, msg).value, ReadQuestion(b, msg.question[0]);
      && RequestType(request) == DNS_JSON
      && var asked := Server.Asked(Server.ParseGoogle(b, request));
      && (asked.Some? <==> question.Some?)
      && (asked.Some? ==> asked.value.id == b.freshId && asked.value.question == [question.value] && asked.value.cd == msg.cd)
      && Server.Served(b, request) ==
         if question.None? then Server.ErrorBody(400)
         else if Filtered(b).None? then Server.ErrorBody(503)
         else Server.Respond(b, true, Filtered(b).value, 0)
  {
    hide ClientIp, JsonHarmless, RequestType, Server.Negotiated, JsonUrl, Writable, TypeArrives, ParseArgs, Said,
      Server.AnswerFrom, Server.Respond, DNS_MESSAGE, DNS_JSON, JSON, UDP_WIREFORMAT, JSON_ACCEPT;
    QueryArrives(f.env, b.idna, f.upstream, msg.question[0], msg.cd, ClientIp(f, msg), b.freshId, b.peer);
    AcceptSelectsJson(DNS_JSON);
    MediaDiffer();
  }

  lemma ResponseUnderstood(f: Frontend, b: Server.Backend, usesJson: bool, isTcp: bool, msg: Msg, req: HttpRequest)
    requires ValidWire(f.wire)
    requires Server.Served(b, req).JsonBody? && Server.Encodable(b, Server.Served(b, req).msg)
    requires JsonReads(f, b, Marshalled(b.env, Server.Served(b, req).msg, b.clock))
    ensures Heard(f, b, usesJson, isTcp, msg, ClientIp(f, msg).1, req)
      == Delivered(Carried(f, b, msg, Server.Served(b, req).msg), PrepareReply(msg), AnnouncedSize(msg), isTcp, f.wire)
  {
    hide ValidWire, Server.Served, Delivered, AnsweredInJson, IsType, JSON_UTF8, JSON, AnnouncedSize, Marshalled,
      Unmarshalled,
      FromWire, Stamped, AsSent, ClientIp;
    TypesUnderstood(usesJson);
    SentIsEnough(f.env, PrepareReply(msg), Marshalled(b.env, Server.Served(b, req).msg, b.clock), AnnouncedSize(msg),
      ClientIp(f, msg).1, f.now);
  }

  lemma JsonUnderstood(f: Frontend, b: Server.Backend, isTcp: bool, msg: Msg)
    requires |msg.question| == 1 && ValidWire(f.wire) && b.env == f.env && JsonHarmless(f.upstream)
    requires Writable(f.env, msg.question[0], ClientIp(f, msg)) && ErrorsRead(f, b)
    requires Filtered(b).Some? ==> JsonReads(f, b, Marshalled(b.env, Filtered(b).value, b.clock))
    ensures JsonExchanged(f, b, isTcp, msg, Heard(f, b, true, isTcp, msg, ClientIp(f, msg).1, RequestOf(f, true, msg).value))
  {
    hide ValidWire, JsonHarmless, RequestType, Server.ParseGoogle, RequestOf, AnnouncedSize, ClientIp, Writable,
      Marshalled,
      Server.Asked, Server.Served, DNS_JSON, Heard, ErrorReply, Filtered, ErrorsRead, ReadQuestion, Carried, JsonReads,
      Server.Encodable, Delivered;
    JsonServed(f, b, msg);
    var request := RequestOf(f, true, msg).value;
    if Server.Served(b, request).JsonBody? {
      ResponseUnderstood(f, b, true, isTcp, msg, request);
    } else {
      ErrorUnderstood(f, b, true, isTcp, msg, request, ClientIp(f, msg).1);
    }
  }

  /** What the JSON detour shows of the answer: in every section the passing records, unchanged exactly
      if their data texts are canonical, and the header of the query. */
  lemma CarriedShows(f: Frontend, b: Server.Backend, msg: Msg, answer: Msg)
    requires ValidEnv(f.env) && b.env == f.env
    requires forall i :: 0 <= i < |answer.answer| ==> Unpacked(answer.answer[i])
    requires forall i :: 0 <= i < |answer.ns| ==> Unpacked(answer.ns[i])
    requires forall i :: 0 <= i < |NonOpt(answer.extra)| ==> Unpacked(NonOpt(answer.extra)[i])
    ensures var full := Carried(f, b, msg, answer);
      && full.id == msg.id && full.question == msg.question && full.truncated == answer.truncated
      && (Shows(full.answer, Passing(f.env, answer.answer)) <==> AllCanonical(f.env, answer.answer))
      && (Shows(full.ns, Passing(f.env, answer.ns)) <==> AllCanonical(f.env, answer.ns))
      && full.extra != []
      && (Shows(full.extra[1..], Passing(f.env, NonOpt(answer.extra))) <==> AllCanonical(f.env, NonOpt(answer.extra)))
  {
    hide ValidEnv, Unpacked, NonOpt, Shows, Passing, AllCanonical, ClientIp, AnnouncedSize, StatusAfter,
      SubnetAfter, Least, MarshalAll,
      UnmarshalAll, Counted, FreshOpt;
    MessageShown(f.env, answer, PrepareReply(msg), AnnouncedSize(msg), ClientIp(f, msg).1, b.clock, f.now);
  }

  /** And over TCP or where it fits, the asker reads exactly that message. */
  lemma CarriedReaches(f: Frontend, b: Server.Backend, isTcp: bool, msg: Msg, replies: seq<Reply>)
    requires |msg.question| == 1 && ValidWire(f.wire) && JsonExchanged(f, b, isTcp, msg, replies)
    requires ReadQuestion(b, msg.question[0]).Some? && Filtered(b).Some? && Server.Encodable(b, Filtered(b).value)
    requires var full := Carried(f, b, msg, Filtered(b).value); f.wire.pack(full).Some? && RoundTrips(f.wire, full)
    ensures var full := Carried(f, b, msg, Filtered(b).value);
      isTcp || |f.wire.pack(full).value| <= AnnouncedSize(msg) ==> Receives(f.wire, replies, full)
  {
    hide ValidWire, Delivered, AnnouncedSize, RequestOf, Filtered, Receives, Server.Asked, Server.ParseGoogle, RequestType, Carried,
      Server.Encodable, ReadQuestion;
    DeliveredReadsBack(Carried(f, b, msg, Filtered(b).value), PrepareReply(msg), AnnouncedSize(msg), isTcp, f.wire);
  }

  // ----- both -------------------------------------------------------------------------------------------

  /** One query handled by the client with the server behind it. */
  method Exchange(f: Frontend, b: Server.Backend, q: Query, isTcp: bool, config: Config, random: nat)
    returns (replies: seq<Reply>)
    requires ValidWire(f.wire) && b.wire == f.wire && b.env == f.env && ErrorsRead(f, b)
    modifies q
    ensures Proper(replies, old(q.msg.id), isTcp, AnnouncedSize(old(q.msg)))
    ensures !old(q.msg.response) && |old(q.msg.question)| == 1 && !UsesJson(config, random) &&
            RequestOf(f, false, old(q.msg)).Some? && Harmless(f.upstream) && RoundTrips(f.wire, Hidden(f, old(q.msg))) ==>
      WireExchanged(f, b, isTcp, old(q.msg), replies)
    ensures !old(q.msg.response) && |old(q.msg.question)| == 1 && UsesJson(config, random) &&
            Writable(f.env, old(q.msg.question[0]), ClientIp(f, old(q.msg))) && JsonHarmless(f.upstream) &&
            (Filtered(b).Some? ==> JsonReads(f, b, Marshalled(b.env, Filtered(b).value, b.clock))) ==>
      JsonExchanged(f, b, isTcp, old(q.msg), replies)
  {
    hide ValidWire, AnnouncedSize, Hidden, ClientIp, JsonHarmless, Harmless, Writable, Filtered, JsonReads,
      WireExchanged, JsonExchanged,
      Understood, RoundTrips, ErrorsRead, RequestOf, WireNetmask, Marshalled;
    ghost var msg, usesJson := q.msg, UsesJson(config, random);
    replies := Handle(f, q, isTcp, config, random, (r: HttpRequest) => Online(b, r));
    if !msg.response && |msg.question| == 1 {
      if !usesJson && RequestOf(f, false, msg).Some? && Harmless(f.upstream) && RoundTrips(f.wire, Hidden(f, msg)) {
        WireUnderstood(f, b, isTcp, msg, WireNetmask(f, msg));
      }
      if usesJson && Writable(f.env, msg.question[0], ClientIp(f, msg)) && JsonHarmless(f.upstream) &&
         (Filtered(b).Some? ==> JsonReads(f, b, Marshalled(b.env, Filtered(b).value, b.clock))) {
        JsonUnderstood(f, b, isTcp, msg);
      }
    }
  }
}
