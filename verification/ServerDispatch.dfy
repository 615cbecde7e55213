/** The server's request handling: negotiation, retries, and one body per request. */
module ServerDispatch {
  import opened Text
  import opened Http
  import opened GlobalIp
  import opened Dns
  import opened Edns
  import opened Transport
  import opened Subnets
  import opened JsonRequest
  import JsonDns

  // ----- content negotiation ------------------------------------------------------------------------

  /** What one Accept candidate selects; the comparison is exact, parameters are cut first. */
  function Candidate(piece: string): string
  {
    var media := SplitN(piece, ';', 2)[0];
    if media == JSON then JSON else if media == UDP_WIREFORMAT || media == DNS_MESSAGE then DNS_MESSAGE else ""
  }

  function FirstKnown(pieces: seq<string>): string
  {
    if pieces == [] then "" else if Candidate(pieces[0]) != "" then Candidate(pieces[0]) else FirstKnown(pieces[1..])
  }

  function DefaultResponse(contentType: string): string
  {
    if contentType == DNS_JSON then JSON
    else if contentType == DNS_MESSAGE || contentType == UDP_WIREFORMAT then DNS_MESSAGE else ""
  }

  predicate Supported(contentType: string)
  {
    contentType == DNS_JSON || contentType == DNS_MESSAGE || contentType == UDP_WIREFORMAT
  }

  /** The first known Accept candidate, else the natural answer to the request's own type. */
  function Negotiated(accept: string, contentType: string): string
  {
    var known := FirstKnown(Split(accept, ','));
    if known != "" then known else DefaultResponse(contentType)
  }

  method NegotiateResponse(accept: string, contentType: string) returns (t: string)
    ensures t == Negotiated(accept, contentType)
    ensures t == JSON || t == DNS_MESSAGE || (t == "" && !Supported(contentType))
  {
    hide Candidate;
    var pieces := Split(accept, ',');
    t := "";
    var i := 0;
    while i < |pieces| && t == ""
      invariant 0 <= i <= |pieces|
      invariant t == "" ==> FirstKnown(pieces) == FirstKnown(pieces[i..])
      invariant t != "" ==> FirstKnown(pieces) == t && (t == JSON || t == DNS_MESSAGE)
      decreases |pieces| - i, t == ""
    {
      CandidateKinds(pieces[i]);
      assert pieces[i..][0] == pieces[i] && pieces[i..][1..] == pieces[i + 1..];
      t := Candidate(pieces[i]);
      i := i + 1;
    }
    if t == "" {
      assert FirstKnown(pieces) == "";
      t := DefaultResponse(contentType);
    }
  }

  lemma CandidateKinds(piece: string)
    ensures Candidate(piece) == "" || Candidate(piece) == JSON || Candidate(piece) == DNS_MESSAGE
  {
  }

  /** Without an Accept header the answer has the form of the request. */
  lemma DefaultForms()
    ensures Negotiated("", "application/dns-json") == "application/json"
    ensures Negotiated("", "application/dns-message") == "application/dns-message"
    ensures Negotiated("", "application/dns-udpwireformat") == "application/dns-message"
    ensures forall other :: !Supported(other) ==> Negotiated("", other) == ""
  {
    NothingAccepted();
    assert DNS_JSON[16] == 'j' && DNS_MESSAGE[16] == 'm' && UDP_WIREFORMAT[16] == 'u';
    hide FirstKnown, Split;
  }

  lemma NothingAccepted()
    ensures FirstKnown(Split("", ',')) == ""
  {
    SplitWhole("", ',');
    assert SplitN("", ';', 2) == [""];
    hide Split, SplitN;
    var none := [""];
    assert none[1..] == [] && FirstKnown([]) == "";
    assert Candidate("") == "";
  }

  /** A candidate selects by its media type alone: the two wire types the one wire format. */
  lemma CandidatesAre(parameters: string)
    ensures Candidate(JSON + ";" + parameters) == JSON
    ensures Candidate(DNS_MESSAGE + ";" + parameters) == DNS_MESSAGE
    ensures Candidate(UDP_WIREFORMAT + ";" + parameters) == DNS_MESSAGE
  {
    MediaDiffer();
    MediaChars();
    hide JSON, DNS_MESSAGE, UDP_WIREFORMAT, SplitN;
    CutAtSemicolon(JSON, parameters);
    CutAtSemicolon(DNS_MESSAGE, parameters);
    CutAtSemicolon(UDP_WIREFORMAT, parameters);
  }

  lemma CutAtSemicolon(media: string, parameters: string)
    requires ';' !in media
    ensures SplitN(media + ";" + parameters, ';', 2)[0] == media
  {
    SplitNStep(media, ';', parameters, 2);
    assert media + ";" + parameters == media + [';'] + parameters;
  }

  // ----- upstream retries ------------------------------------------------------------------------------

  datatype Outcome = Answered(msg: Msg) | Truncated | Failed

  /** The upstream as a sequence of outcomes, one per attempt and transport. */
  datatype Upstream = Upstream(tcpOnly: bool, udp: nat -> Outcome, tcp: nat -> Outcome)

  function Attempt(u: Upstream, i: nat): Outcome
  {
    if u.tcpOnly || u.udp(i).Truncated? then u.tcp(i) else u.udp(i)
  }

  function ExchangesIn(u: Upstream, i: nat): nat { if !u.tcpOnly && u.udp(i).Truncated? then 2 else 1 }

  function ExchangesUpTo(u: Upstream, n: nat): (e: nat)
    ensures n <= e <= 2 * n
  {
    if n == 0 then 0 else ExchangesUpTo(u, n - 1) + ExchangesIn(u, n - 1)
  }

  /** Succeeds iff one of the attempts does, with the first success; nothing is sent after it. */
  method DoDnsQuery(u: Upstream, tries: nat) returns (response: Option<Msg>, attempts: nat, exchanges: nat)
    requires tries >= 1
    ensures response.Some? <==> exists i :: 0 <= i < tries && Attempt(u, i).Answered?
    ensures response.Some? ==> 1 <= attempts <= tries && Attempt(u, attempts - 1) == Answered(response.value)
    ensures forall i :: 0 <= i < attempts - 1 ==> !Attempt(u, i).Answered?
    ensures response.None? ==> attempts == tries
    ensures exchanges == ExchangesUpTo(u, attempts) <= 2 * attempts
  {
    attempts, exchanges := 0, 0;
    while attempts < tries
      invariant attempts <= tries && exchanges == ExchangesUpTo(u, attempts)
      invariant forall i :: 0 <= i < attempts ==> !Attempt(u, i).Answered?
    {
      var outcome;
      if !u.tcpOnly {
        outcome := u.udp(attempts);
        exchanges := exchanges + 1;
        if outcome.Truncated? {
          outcome := u.tcp(attempts);
          exchanges := exchanges + 1;
        }
      } else {
        outcome := u.tcp(attempts);
        exchanges := exchanges + 1;
      }
      assert outcome == Attempt(u, attempts);
      attempts := attempts + 1;
      if outcome.Answered? {
        return Some(outcome.msg), attempts, exchanges;
      }
    }
    return None, attempts, exchanges;
  }

  /** msg is what the first successful attempt answered. */
  ghost predicate FirstAnswer(u: Upstream, tries: nat, msg: Msg)
  {
    exists i :: 0 <= i < tries && Attempt(u, i) == Answered(msg) && forall j :: 0 <= j < i ==> !Attempt(u, j).Answered?
  }

  ghost predicate SomeAnswer(u: Upstream, tries: nat) { exists i :: 0 <= i < tries && Attempt(u, i).Answered? }

  /** An attempt is answered by UDP, or by TCP after a truncated UDP answer or where only TCP is
      configured. */
  lemma AttemptAnswers(u: Upstream, i: nat, msg: Msg)
    ensures Attempt(u, i) == Answered(msg) <==>
      (!u.tcpOnly && u.udp(i) == Answered(msg)) || ((u.tcpOnly || u.udp(i) == Truncated) && u.tcp(i) == Answered(msg))
  {
  }

  /** The same as a search. */
  function AnswerFrom(u: Upstream, i: nat, tries: nat): Option<Msg>
    decreases tries - i
  {
    if i >= tries then None
    else if Attempt(u, i).Answered? then Some(Attempt(u, i).msg)
    else AnswerFrom(u, i + 1, tries)
  }

  lemma {:induction false} AnswerIsFirst(u: Upstream, i: nat, tries: nat, msg: Msg)
    requires forall j :: 0 <= j < i ==> !Attempt(u, j).Answered?
    ensures FirstAnswer(u, tries, msg) <==> AnswerFrom(u, i, tries) == Some(msg)
    ensures SomeAnswer(u, tries) <==> AnswerFrom(u, i, tries).Some?
    decreases tries - i
  {
    hide Attempt;
    if i >= tries || Attempt(u, i).Answered? {
    } else {
      AnswerIsFirst(u, i + 1, tries, msg);
    }
  }

  // ----- the handler --------------------------------------------------------------------------------------

  /** The server and all it meets while it handles one request: libraries, the ID it draws, whether
      the User-Agent names dnscrypt-proxy, the address findClientIP gives, the upstream, postLookup,
      the JSON encoder, the texts written for an error status and for the probe, a configured log
      without a Do-Not-Track header, and the clock. */
  datatype Backend = Backend(
    env: Env, wire: Wire, idna: string -> Option<string>, freshId: nat, dnscrypt: bool, peer: Option<Address>,
    upstream: Upstream, tries: nat, filter: Msg -> Msg, json: JsonDns.Response -> Option<seq<Byte>>,
    errorText: nat -> seq<Byte>, canned: seq<Byte>, tracking: bool, clock: int)

  /** What a parser makes of the request: an error, the canned DNSCrypt-Proxy answer (already
      written), or a message to resolve and the ID to answer with. */
  datatype Parsed = Rejected(code: nat) | Patched | Query(msg: Msg, transactionId: nat)

  datatype Body = ErrorBody(code: nat) | PatchBody | JsonBody(msg: Msg) | WireBody(msg: Msg)

  /** The packet by which DNSCrypt-Proxy probes a server. */
  const PROBE: seq<Byte> :=
    [0xca, 0xfe, 1, 0, 0, 1, 0, 0, 0, 0, 0, 1, 0, 0, 2, 0, 1, 0, 0, 0x29, 0x10, 0, 0, 0, 0x80, 0, 0, 0]

  /** parseRequestIETF: the ID received is kept aside and a fresh one goes upstream, with EDNS and,
      where the query brought none, the peer's subnet. */
  function ParseIetf(b: Backend, req: HttpRequest): Parsed
  {
    match ServerPacket(req)
    case Refused(code) => Rejected(code)
    case Bytes(bytes) =>
      if b.dnscrypt && bytes == PROBE then Patched
      else if b.wire.unpack(bytes).None? then Rejected(400)
      else
        var m := b.wire.unpack(bytes).value;
        Query(WithSubnet(m.(id := b.freshId), BlockOf(b.peer)), m.id)
  }

  /** parseRequestGoogle; the ID to answer with stays zero. */
  function ParseGoogle(b: Backend, req: HttpRequest): Parsed
  {
    var m := ParseArgs(b.env, b.idna, req, b.freshId, b.peer);
    if m.None? then Rejected(400) else Query(m.value, 0)
  }

  function Parse(b: Backend, req: HttpRequest): Parsed
    requires Supported(RequestType(req))
  {
    if RequestType(req) == DNS_JSON then ParseGoogle(b, req) else ParseIetf(b, req)
  }

  /** patchRootRD's loop over the questions. */
  method PatchRootRd(msg: Msg) returns (patched: Msg)
    ensures patched == msg.(rd := msg.rd || AsksRoot(msg))
  {
    patched := msg;
    for i := 0 to |msg.question|
      invariant patched == msg.(rd := patched.rd)
      invariant patched.rd <==> msg.rd || exists j :: 0 <= j < i && msg.question[j].name == "."
    {
      if msg.question[i].name == "." {
        patched := patched.(rd := true);
      }
    }
  }

  predicate AsksRoot(msg: Msg) { exists i :: 0 <= i < |msg.question| && msg.question[i].name == "." }

  /** preLookup: exactly one question, and a standard query. */
  predicate Resolvable(msg: Msg) { |msg.question| == 1 && msg.opcode == 0 }

  predicate Encodable(b: Backend, m: Msg) { b.json(JsonDns.Marshalled(b.env, m, b.clock)).Some? }

  /** What a body tells about the resolved message m: JSON and wire format only where negotiated, the
      wire message under the ID of the request, and 500 only where the negotiated form fails. */
  ghost predicate Tells(b: Backend, asJson: bool, m: Msg, id: nat, body: Body)
  {
    match body
    case JsonBody(x) => asJson && Encodable(b, m) && x == m
    case WireBody(x) => !asJson && b.wire.pack(x).Some? && x.id == id && x.(id := m.id) == m
    case ErrorBody(code) => code == 500 && if asJson then !Encodable(b, m) else b.wire.pack(m.(id := id)).None?
    case PatchBody => false
  }

  /** generateResponseGoogle and generateResponseIETF. */
  function Respond(b: Backend, asJson: bool, m: Msg, id: nat): (body: Body)
    ensures Tells(b, asJson, m, id, body)
  {
    if asJson then if Encodable(b, m) then JsonBody(m) else ErrorBody(500)
    else
      var restored := m.(id := id);
      if b.wire.pack(restored).Some? then WireBody(restored) else ErrorBody(500)
  }

  lemma OneTells(b: Backend, asJson: bool, m: Msg, id: nat, body: Body)
    ensures Tells(b, asJson, m, id, body) <==> body == Respond(b, asJson, m, id)
  {
    if body.WireBody? && Tells(b, asJson, m, id, body) {
      assert body.msg == m.(id := id);
    }
  }

  /** The only body each kind of request may get, in the negotiated form. */
  ghost predicate RightBody(b: Backend, p: Parsed, asJson: bool, body: Body)
  {
    match p
    case Rejected(code) => body == ErrorBody(code)
    case Patched => body == PatchBody
    case Query(msg, id) =>
      if !Resolvable(msg) then body == ErrorBody(400)
      else if !SomeAnswer(b.upstream, b.tries) then body == ErrorBody(503)
      else exists answer :: FirstAnswer(b.upstream, b.tries, answer) && Tells(b, asJson, b.filter(answer), id, body)
  }

  /** The body as a function of the request. */
  function BodyFor(b: Backend, p: Parsed, asJson: bool): Body
  {
    match p
    case Rejected(code) => ErrorBody(code)
    case Patched => PatchBody
    case Query(msg, id) =>
      var answer := AnswerFrom(b.upstream, 0, b.tries);
      if !Resolvable(msg) then ErrorBody(400)
      else if answer.None? then ErrorBody(503)
      else Respond(b, asJson, b.filter(answer.value), id)
  }

  function Served(b: Backend, req: HttpRequest): Body
  {
    if !Supported(RequestType(req)) then ErrorBody(415)
    else BodyFor(b, Parse(b, req), Negotiated(req.accept, RequestType(req)) == JSON)
  }

  /** Every parsed request has exactly one right body. */
  lemma OneRightBody(b: Backend, p: Parsed, asJson: bool, body: Body)
    ensures RightBody(b, p, asJson, body) <==> body == BodyFor(b, p, asJson)
  {
    hide Tells, Respond, FirstAnswer, SomeAnswer, AnswerFrom;
    var answer := AnswerFrom(b.upstream, 0, b.tries);
    forall m ensures FirstAnswer(b.upstream, b.tries, m) <==> answer == Some(m) {
      AnswerIsFirst(b.upstream, 0, b.tries, m);
    }
    if p.Query? {
      AnswerIsFirst(b.upstream, 0, b.tries, p.msg);
      if answer.Some? {
        assert FirstAnswer(b.upstream, b.tries, answer.value);
        OneTells(b, asJson, b.filter(answer.value), p.transactionId, body);
      }
    }
  }

  /** A wire-format request, under either of its two types and whatever ID it carries: a standard query
      with one question is asked upstream under the fresh ID, and a wire answer is the filtered first
      upstream answer under the very ID received. */
  lemma AnswersUnderItsId(b: Backend, req: HttpRequest, bytes: seq<Byte>, m: Msg)
    requires RequestType(req) == DNS_MESSAGE || RequestType(req) == UDP_WIREFORMAT
    requires ServerPacket(req) == Bytes(bytes) && !(b.dnscrypt && bytes == PROBE) && b.wire.unpack(bytes) == Some(m)
    ensures Supported(RequestType(req))
    ensures Asked(Parse(b, req)).Some? <==> |m.question| == 1 && m.opcode == 0
    ensures Asked(Parse(b, req)).Some? ==>
      && Asked(Parse(b, req)).value.id == b.freshId && Asked(Parse(b, req)).value.question == m.question
      && (Asked(Parse(b, req)).value.rd <==> m.rd || m.question[0].name == ".")
      && Asked(Parse(b, req)).value.extra == ExtraWithSubnet(m.extra, if b.peer.Some? then Some(Block(b.peer.value)) else None)
    ensures Served(b, req).WireBody? ==>
      exists answer :: FirstAnswer(b.upstream, b.tries, answer) && Served(b, req).msg == b.filter(answer).(id := m.id)
  {
    WireIsNotJson();
    hide FirstAnswer, SomeAnswer, Negotiated, RequestType, ServerPacket, DNS_MESSAGE, UDP_WIREFORMAT, DNS_JSON, JSON, ExtraWithSubnet,
      AnswerFrom;
    var body := Served(b, req);
    if body.WireBody? {
      OneRightBody(b, Parse(b, req), Negotiated(req.accept, RequestType(req)) == JSON, body);
      var answer :| FirstAnswer(b.upstream, b.tries, answer) && Tells(b, false, b.filter(answer), m.id, body);
      assert body.msg == b.filter(answer).(id := m.id);
    }
  }

  lemma WireIsNotJson()
    ensures DNS_MESSAGE != DNS_JSON && UDP_WIREFORMAT != DNS_JSON
  {
    assert DNS_MESSAGE[16] == 'm' && UDP_WIREFORMAT[16] == 'u' && DNS_JSON[16] == 'j';
  }

  /** The JSON arguments are bad, or there is no packet, or one that does not unpack. */
  predicate Unparsable(b: Backend, req: HttpRequest)
  {
    if RequestType(req) == DNS_JSON then ParseArgs(b.env, b.idna, req, b.freshId, b.peer).None?
    else
      match ServerPacket(req)
      case Refused(_) => true
      case Bytes(bytes) => bytes != PROBE && b.wire.unpack(bytes).None?
  }

  /** What cannot be parsed is refused with 400 and never asked. */
  lemma UnparsedIsRefused(b: Backend, req: HttpRequest)
    requires Supported(RequestType(req)) && Unparsable(b, req)
    ensures Served(b, req) == ErrorBody(400) && Asked(Parse(b, req)) == None
  {
    RefusedIff(req);
    hide RequestType, ServerPacket, Negotiated, ParseArgs, AnswerFrom, WithSubnet, DNS_JSON, PROBE, JSON;
  }

  /** The probe gets its canned answer from a client that calls itself dnscrypt-proxy, and only then. */
  lemma ProbeIsAnswered(b: Backend, req: HttpRequest)
    requires RequestType(req) == DNS_MESSAGE && ServerPacket(req).Bytes?
    ensures Served(b, req) == PatchBody <==> b.dnscrypt && ServerPacket(req) == Bytes(PROBE)
  {
    WireIsNotJson();
    hide RequestType, ServerPacket, Negotiated, AnswerFrom, WithSubnet, DNS_MESSAGE, DNS_JSON, UDP_WIREFORMAT, JSON, PROBE;
  }

  /** A JSON request that negotiated the wire format is answered under ID 0. */
  lemma JsonRequestsHaveNoId(b: Backend, req: HttpRequest)
    requires RequestType(req) == DNS_JSON
    ensures Served(b, req).WireBody? ==> Served(b, req).msg.id == 0
  {
    hide RequestType, ParseArgs, AnswerFrom, Negotiated;
  }

  /** The message that goes upstream for a resolvable request. */
  function Asked(p: Parsed): Option<Msg>
  {
    if p.Query? && Resolvable(p.msg) then Some(p.msg.(rd := p.msg.rd || p.msg.question[0].name == ".")) else None
  }

  function Tracked(p: Parsed, tracking: bool): seq<string>
  {
    if tracking && p.Query? && Resolvable(p.msg) then [p.msg.question[0].name] else []
  }

  /** The tail of handlerFunc for a parsed query. */
  method Resolve(b: Backend, req: Parsed, asJson: bool) returns (body: Body, tracked: seq<string>, asked: Option<Msg>)
    requires b.tries >= 1 && req.Query?
    ensures RightBody(b, req, asJson, body)
    ensures tracked == Tracked(req, b.tracking) && asked == Asked(req)
  {
    hide Tells, Respond, Attempt;
    tracked, asked := [], None;
    var msg := PatchRootRd(req.msg);
    if !Resolvable(msg) {
      return ErrorBody(400), tracked, asked;
    }
    assert AsksRoot(req.msg) <==> msg.question[0].name == ".";
    if b.tracking {
      tracked := tracked + [msg.question[0].name];
    }
    asked := Some(msg);
    var response, attempts, exchanges := DoDnsQuery(b.upstream, b.tries);
    if response.None? {
      return ErrorBody(503), tracked, asked;
    }
    assert FirstAnswer(b.upstream, b.tries, response.value);
    body := Respond(b, asJson, b.filter(response.value), req.transactionId);
  }

  /** handlerFunc: for every request exactly one body, the right one, and no panic. */
  method Handle(b: Backend, req: HttpRequest)
    returns (bodies: seq<Body>, tracked: seq<string>, asked: Option<Msg>, panicked: bool)
    requires b.tries >= 1
    ensures bodies == [Served(b, req)] && !panicked
    ensures !Supported(RequestType(req)) ==> bodies[0] == ErrorBody(415) && tracked == [] && asked == None
    ensures Supported(RequestType(req)) ==>
      var p := Parse(b, req);
      && RightBody(b, p, Negotiated(req.accept, RequestType(req)) == JSON, bodies[0])
      && tracked == Tracked(p, b.tracking) && asked == Asked(p)
    ensures tracked == if b.tracking && asked.Some? && asked.value.question != [] then [asked.value.question[0].name] else []
  {
    hide RightBody, BodyFor, Negotiated, ParseIetf, ParseGoogle, RequestType, Asked, Tracked;
    bodies, tracked, asked, panicked := [], [], None, false;
    var contentType := RequestType(req);
    var responseType := NegotiateResponse(req.accept, contentType);
    var parsed;
    if contentType == DNS_JSON {
      parsed := ParseGoogle(b, req);
    } else if contentType == DNS_MESSAGE {
      parsed := ParseIetf(b, req);
    } else if contentType == UDP_WIREFORMAT {
      parsed := ParseIetf(b, req);
    } else {
      bodies := bodies + [ErrorBody(415)];
      return;
    }
    NothingAsked(b, parsed);
    TrackedIsAsked(parsed, b.tracking);
    ghost var asJson := responseType == JSON;
    if parsed.Patched? {
      bodies := bodies + [PatchBody];
      OneRightBody(b, parsed, asJson, PatchBody);
      return;
    }
    if parsed.Rejected? {
      bodies := bodies + [ErrorBody(parsed.code)];
      OneRightBody(b, parsed, asJson, ErrorBody(parsed.code));
      return;
    }
    // the source looks at this after resolving; by the contract it never happens
    if responseType != JSON && responseType != DNS_MESSAGE {
      panicked := true;
      return;
    }
    var body;
    body, tracked, asked := Resolve(b, parsed, responseType == JSON);
    OneRightBody(b, parsed, asJson, body);
    bodies := bodies + [body];
  }

  lemma TrackedIsAsked(p: Parsed, tracking: bool)
    ensures Tracked(p, tracking) ==
      if tracking && Asked(p).Some? && Asked(p).value.question != [] then [Asked(p).value.question[0].name] else []
  {
  }

  lemma NothingAsked(b: Backend, p: Parsed)
    ensures !p.Query? ==> Asked(p) == None && Tracked(p, b.tracking) == []
    ensures forall asJson :: p.Patched? ==> RightBody(b, p, asJson, PatchBody)
    ensures forall asJson :: p.Rejected? ==> RightBody(b, p, asJson, ErrorBody(p.code))
  {
  }
}
