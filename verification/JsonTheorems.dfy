/** What survives the trip through JSON: codes, records, lifetimes and the client subnet. */
module JsonTheorems {
  import opened Text
  import opened Dns
  import opened JsonDns
  import opened JsonUnmarshal

  // ----- response codes (section 6.1.3 of RFC 6891) ---------------------------------------------

  lemma SplitAndJoin(status: bv32)
    ensures ExtendStatus(RcodeOf(status), OptFlags(0, status)) == status & 0xfff
  {
  }

  lemma TwelveBits(status: bv32)
    ensures status & 0xfff == status <==> status <= 0xfff
  {
  }

  lemma LowNibble(rcode: bv32, flags: bv32)
    ensures RcodeOf(ExtendStatus(rcode, flags)) == rcode & 0xf
  {
  }

  lemma FourBits(rcode: bv32)
    ensures rcode & 0xf == rcode <==> rcode < 16
  {
  }

  lemma TopByte(rcode: bv32, flags: bv32)
    requires rcode < 16
    ensures OptFlags(0, ExtendStatus(rcode, flags)) & 0xff00_0000 == flags & 0xff00_0000
  {
  }

  lemma JoinAndSplit(rcode: bv32, flags: bv32)
    ensures var s := ExtendStatus(rcode, flags);
      (RcodeOf(s) == rcode && OptFlags(0, s) & 0xff00_0000 == flags & 0xff00_0000) <==> rcode < 16
  {
    hide ExtendStatus, OptFlags, RcodeOf;
    LowNibble(rcode, flags);
    FourBits(rcode);
    if rcode < 16 { TopByte(rcode, flags); }
  }

  /** Ordinary records leave the status alone. */
  lemma {:induction false} StatusOverRecords(status: bv32, front: seq<RR>, records: seq<RR>)
    requires forall i :: 0 <= i < |records| ==> records[i].Record?
    ensures StatusAfter(status, front + records) == StatusAfter(status, front)
  {
    hide ExtendStatus;
    if records == [] {
      assert front + records == front;
    } else {
      var init := records[..|records| - 1];
      assert (front + records)[..|front + records| - 1] == front + init;
      StatusOverRecords(status, front, init);
    }
  }

  lemma StatusOfOne(status: bv32, opt: RR)
    requires opt.Opt?
    ensures StatusAfter(status, [opt]) == ExtendStatus(status, opt.flags)
  {
    hide ExtendStatus;
    assert [opt][..0] == [];
  }

  lemma DecodedThenEncodedStatus(env: Env, msg: Msg, resp: Response, udpSize: nat, netmask: Byte, now: int, later: int)
    ensures Marshalled(env, Unmarshalled(env, msg, resp, udpSize, netmask, now), later).status ==
      ExtendStatus(RcodeOf(resp.status), OptFlags(0, resp.status))
  {
    hide ExtendStatus, OptFlags, RcodeOf, StatusAfter, MarshalAll, UnmarshalAll, Counted, NonOpt, Least, SubnetAfter,
      SubnetOptions, ParseSubnetField;
    var opt := FreshOpt(env, resp, udpSize, netmask);
    StatusOverRecords(RcodeOf(resp.status), [opt], UnmarshalAll(env, resp.additional, now));
    StatusOfOne(RcodeOf(resp.status), opt);
  }

  /** Decode then encode keeps the low twelve bits of a status, hence exactly the 12-bit ones. */
  lemma StatusSurvives(env: Env, msg: Msg, resp: Response, udpSize: nat, netmask: Byte, now: int, later: int)
    ensures var again := Marshalled(env, Unmarshalled(env, msg, resp, udpSize, netmask, now), later);
      again.status == resp.status & 0xfff && (again.status == resp.status <==> resp.status <= 0xfff)
  {
    hide *;
    DecodedThenEncodedStatus(env, msg, resp, udpSize, netmask, now, later);
    SplitAndJoin(resp.status);
    TwelveBits(resp.status);
  }

  lemma EncodedStatusOfOneOpt(env: Env, msg: Msg, before: seq<RR>, opt: RR, after: seq<RR>, now: int)
    requires msg.extra == before + [opt] + after && opt.Opt?
    requires forall i :: 0 <= i < |before| ==> before[i].Record?
    requires forall i :: 0 <= i < |after| ==> after[i].Record?
    ensures Marshalled(env, msg, now).status == ExtendStatus(msg.rcode, opt.flags)
  {
    hide ExtendStatus, MarshalAll, Counted, Least, SubnetAfter;
    StatusOverRecords(msg.rcode, before + [opt], after);
    StatusOverRecords(msg.rcode, [], before);
    assert [] + before == before;
    assert (before + [opt])[..|before|] == before;
  }

  lemma DecodedCodes(env: Env, base: Msg, resp: Response, udpSize: nat, netmask: Byte, now: int)
    ensures var reply := Unmarshalled(env, base, resp, udpSize, netmask, now);
      reply.rcode == RcodeOf(resp.status) && reply.extra != [] && reply.extra[0].Opt?
      && reply.extra[0].flags == OptFlags(0, resp.status)
  {
    hide OptFlags, RcodeOf, UnmarshalAll, SubnetOptions, ParseSubnetField;
  }

  /** Encode then decode of a message with one OPT record keeps both the response code and its
      extension byte exactly when the code fits four bits. */
  lemma CodesSurviveIff(env: Env, msg: Msg, before: seq<RR>, opt: RR, after: seq<RR>,
                        base: Msg, udpSize: nat, netmask: Byte, now: int, later: int)
    requires msg.extra == before + [opt] + after && opt.Opt?
    requires forall i :: 0 <= i < |before| ==> before[i].Record?
    requires forall i :: 0 <= i < |after| ==> after[i].Record?
    ensures var reply := Unmarshalled(env, base, Marshalled(env, msg, now), udpSize, netmask, later);
      reply.extra != [] && reply.extra[0].Opt? &&
      (reply.rcode == msg.rcode && reply.extra[0].flags & 0xff00_0000 == opt.flags & 0xff00_0000 <==> msg.rcode < 16)
  {
    hide *;
    EncodedStatusOfOneOpt(env, msg, before, opt, after, now);
    DecodedCodes(env, base, Marshalled(env, msg, now), udpSize, netmask, later);
    JoinAndSplit(msg.rcode, opt.flags);
  }

  /** The fresh OPT record has nothing in its flags but the extension of the code. */
  lemma FreshFlags(env: Env, resp: Response, udpSize: nat, netmask: Byte)
    ensures var opt := FreshOpt(env, resp, udpSize, netmask);
      opt.name == "." && opt.flags & 0x00ff_ffff == 0 && opt.flags >> 24 == (resp.status >> 4) & 0xff
  {
    hide SubnetOptions, ParseSubnetField;
  }

  // ----- record data ------------------------------------------------------------------------------

  lemma TypeTextHasNoTab(env: Env, t: nat)
    requires ValidEnv(env)
    ensures '\t' !in TypeText(env, t)
  {
    DigitsHaveNo(Decimal(t), '\t');
  }

  /** Four tabs are cut, no more: the data field survives tabs of its own. */
  lemma DataSurvives(env: Env, rr: RR)
    requires ValidEnv(env) && rr.Record? && '\t' !in rr.cls
    ensures DataOf(env, rr) == rr.data
  {
    hide Decimal, TypeText, Printed, SplitN;
    var t := TypeText(env, rr.rtype);
    PrintedHasNoTab(rr.name);
    DigitsHaveNo(Decimal(rr.ttl), '\t');
    TypeTextHasNoTab(env, rr.rtype);
    var s4 := rr.data;
    var s3 := t + "\t" + s4;
    var s2 := rr.cls + "\t" + s3;
    var s1 := Decimal(rr.ttl) + "\t" + s2;
    SplitNStep(Printed(rr.name), '\t', s1, 5);
    SplitNStep(Decimal(rr.ttl), '\t', s2, 4);
    SplitNStep(rr.cls, '\t', s3, 3);
    SplitNStep(t, '\t', s4, 2);
    SplitOne(s4, '\t');
  }

  lemma SplitOne(s: string, sep: char)
    ensures SplitN(s, sep, 1) == [s]
  {
  }

  /** The zone line's five fields come apart again. */
  lemma ZoneLineFields(name: string, ttl: nat, typeText: string, data: string)
    requires ' ' !in name && ' ' !in typeText
    ensures SplitN(ZoneLine(name, ttl, typeText, data), ' ', 5) == [name, Decimal(ttl), "IN", typeText, data]
  {
    hide Decimal, SplitN;
    DigitsHaveNo(Decimal(ttl), ' ');
    var s3 := typeText + " " + data;
    var s2 := "IN" + " " + s3;
    var s1 := Decimal(ttl) + " " + s2;
    SplitNStep(name, ' ', s1, 5);
    SplitNStep(Decimal(ttl), ' ', s2, 4);
    SplitNStep("IN", ' ', s3, 3);
    SplitNStep(typeText, ' ', data, 2);
    SplitOne(data, ' ');
  }

  /** The checks of unmarshalRR and of the unseen data parser. */
  ghost predicate Passes(env: Env, rr: RR)
  {
    && rr.Record?
    && NameAllowed(rr.name)
    && rr.rtype in env.types && TypeNamed(env, env.types[rr.rtype]).Some? && rr.rtype != TYPE_OPT
    && DataAllowed(rr.data)
    && env.rdata(rr.rtype, rr.data).Some?
  }

  /** A record as it occurs in an unpacked message: absolute owner name, 32-bit TTL. */
  ghost predicate Unpacked(rr: RR)
  {
    rr.Record? && rr.name != "" && rr.name[|rr.name| - 1] == '.' && rr.ttl < U32 && '\t' !in rr.cls
  }

  /** The same record on the other side: class IN, and the TTL carried by the expiry. */
  ghost function Rebuilt(env: Env, rr: RR, now: int, later: int): RR
    requires Unpacked(rr) && Passes(env, rr)
  {
    Record(rr.name, rr.rtype, "IN", DecodedTtl(rr.ttl, At((now + rr.ttl * SECOND) / SECOND), later),
      env.rdata(rr.rtype, rr.data).value)
  }

  lemma DecodedTtlFits(ttl: nat, text: Expiry, now: int)
    requires ttl < U32
    ensures DecodedTtl(ttl, text, now) < U32
  {
  }

  lemma FieldsParse(env: Env, name: string, ttl: nat, t: nat, data: string)
    requires ValidEnv(env) && t in env.types && ttl < U32 && name != "" && name[|name| - 1] == '.'
    ensures FromFields(env, name, Decimal(ttl), "IN", env.types[t], data) ==
      if TypeNamed(env, env.types[t]).None? || t == TYPE_OPT || env.rdata(t, data).None? then None
      else Some(Record(name, t, "IN", ttl, env.rdata(t, data).value))
  {
    DecimalRoundTrip(ttl);
    hide Decimal, Numeral, AllDigits;
  }

  lemma NewRRParses(env: Env, name: string, ttl: nat, t: nat, data: string)
    requires ValidEnv(env) && t in env.types && NameAllowed(name)
    ensures NewRR(env, ZoneLine(name, ttl, env.types[t], data)) ==
      FromFields(env, name, Decimal(ttl), "IN", env.types[t], data)
  {
    hide ZoneLine, SplitN, Decimal, FromFields;
    assert ' ' !in name;
    ZoneLineFields(name, ttl, env.types[t], data);
  }

  lemma MarshalledRecord(env: Env, rr: RR, now: int)
    requires ValidEnv(env) && Unpacked(rr)
    ensures MarshalRR(env, rr, now) ==
      JsonRR(rr.name, rr.rtype, rr.ttl, now + rr.ttl * SECOND, At((now + rr.ttl * SECOND) / SECOND), rr.data)
  {
    hide DataOf;
    DataSurvives(env, rr);
  }

  /** One record through both functions: rebuilt exactly when it passes the checks, else dropped. */
  lemma RecordRoundTrip(env: Env, rr: RR, now: int, later: int)
    requires ValidEnv(env) && Unpacked(rr)
    ensures UnmarshalRR(env, MarshalRR(env, rr, now), later) ==
      if Passes(env, rr) then Some(Rebuilt(env, rr, now, later)) else None
  {
    hide MarshalRR, DecodedTtl, NewRR, ZoneLine, ValidEnv, FromFields, NameAllowed, DataAllowed;
    MarshalledRecord(env, rr, now);
    var ttl := DecodedTtl(rr.ttl, At((now + rr.ttl * SECOND) / SECOND), later);
    DecodedTtlFits(rr.ttl, At((now + rr.ttl * SECOND) / SECOND), later);
    if NameAllowed(rr.name) && rr.rtype in env.types && DataAllowed(rr.data) {
      NewRRParses(env, rr.name, ttl, rr.rtype, rr.data);
      FieldsParse(env, rr.name, ttl, rr.rtype, rr.data);
    }
  }

  /** The checks on a JSON record, whoever sent it. */
  ghost predicate Acceptable(env: Env, rr: JsonRR)
  {
    && NameAllowed(rr.name) && rr.name != "" && rr.rtype in env.types && TypeNamed(env, env.types[rr.rtype]).Some?
    && rr.rtype != TYPE_OPT && DataAllowed(rr.data) && env.rdata(rr.rtype, rr.data).Some?
  }

  /** The TTL a record sent with this one gets: as sent without an expiry, else the whole seconds left
      if those are not negative and fit 32 bits, zero within the second after, and as sent otherwise. */
  ghost predicate TtlFrom(sent: nat, text: Expiry, now: int, ttl: nat)
  {
    match text
    case Absent => ttl == sent
    case Garbled => false
    case At(second) =>
      var left: int := second * SECOND - now;
      && (0 <= left < U32 * SECOND ==> ttl * SECOND <= left < ttl * SECOND + SECOND)
      && (left + SECOND <= 0 || left >= U32 * SECOND ==> ttl == sent)
      && (-1_000_000_000 < left < 0 ==> ttl == 0)
  }

  lemma DecodedTtlIsRight(sent: nat, text: Expiry, now: int)
    requires text != Garbled
    ensures TtlFrom(sent, text, now, DecodedTtl(sent, text, now))
  {
    if text.At? {
      var left := text.second * SECOND - now;
      if 0 <= left < U32 * SECOND {
        assert Elapsed(text.second * SECOND, now) == left && WholeSeconds(left) == left / SECOND;
      }
    }
  }

  /** Any JSON record: dropped if it fails a check or its expiry is garbled, else read with its name,
      type and parsed data, as class IN and with the right TTL. */
  lemma AnyRecord(env: Env, rr: JsonRR, now: int)
    requires ValidEnv(env) && rr.ttl < U32
    ensures UnmarshalRR(env, rr, now).Some? <==> Acceptable(env, rr) && rr.text != Garbled
    ensures UnmarshalRR(env, rr, now).Some? ==>
      var r := UnmarshalRR(env, rr, now).value;
      && r == Record(if rr.name == "@" then "." else Fqdn(rr.name), rr.rtype, "IN", r.ttl, env.rdata(rr.rtype, rr.data).value)
      && TtlFrom(rr.ttl, rr.text, now, r.ttl)
  {
    var ttl := DecodedTtl(rr.ttl, rr.text, now);
    DecodedTtlFits(rr.ttl, rr.text, now);
    hide DecodedTtl, NewRR, ZoneLine, ValidEnv, FromFields, NameAllowed, DataAllowed, TtlFrom, TypeNamed;
    if rr.text != Garbled { DecodedTtlIsRight(rr.ttl, rr.text, now); }
    if NameAllowed(rr.name) && rr.rtype in env.types && DataAllowed(rr.data) {
      NewRRParses(env, rr.name, ttl, rr.rtype, rr.data);
      AnyFieldsParse(env, rr.name, ttl, rr.rtype, rr.data);
    }
  }

  lemma AnyFieldsParse(env: Env, name: string, ttl: nat, t: nat, data: string)
    requires ValidEnv(env) && t in env.types && ttl < U32
    ensures FromFields(env, name, Decimal(ttl), "IN", env.types[t], data) ==
      if name == "" || TypeNamed(env, env.types[t]).None? || t == TYPE_OPT || env.rdata(t, data).None? then None
      else Some(Record(if name == "@" then "." else Fqdn(name), t, "IN", ttl, env.rdata(t, data).value))
  {
    DecimalRoundTrip(ttl);
    hide Decimal, Numeral, AllDigits;
  }

  ghost function RebuiltAll(env: Env, rrs: seq<RR>, now: int, later: int): seq<RR>
    requires forall i :: 0 <= i < |rrs| ==> Unpacked(rrs[i])
  {
    if rrs == [] then []
    else
      var before, last := RebuiltAll(env, rrs[..|rrs| - 1], now, later), rrs[|rrs| - 1];
      if Passes(env, last) then before + [Rebuilt(env, last, now, later)] else before
  }

  lemma {:induction false} SectionRoundTrip(env: Env, rrs: seq<RR>, now: int, later: int)
    requires ValidEnv(env) && forall i :: 0 <= i < |rrs| ==> Unpacked(rrs[i])
    ensures UnmarshalAll(env, MarshalAll(env, rrs, now), later) == RebuiltAll(env, rrs, now, later)
  {
    hide MarshalRR, UnmarshalRR, Passes, Rebuilt, Unpacked, ValidEnv;
    if rrs == [] {
    } else {
      var init := rrs[..|rrs| - 1];
      SectionRoundTrip(env, init, now, later);
      RecordRoundTrip(env, rrs[|rrs| - 1], now, later);
      var json := MarshalAll(env, rrs, now);
      assert json[..|json| - 1] == MarshalAll(env, init, now);
    }
  }

  /** The whole message: each section keeps its passing records, in order, and the additional
      section becomes one fresh OPT record followed by its ordinary records. */
  lemma MessageRoundTrip(env: Env, msg: Msg, base: Msg, udpSize: nat, netmask: Byte, now: int, later: int)
    requires ValidEnv(env)
    requires forall i :: 0 <= i < |msg.answer| ==> Unpacked(msg.answer[i])
    requires forall i :: 0 <= i < |msg.ns| ==> Unpacked(msg.ns[i])
    requires forall i :: 0 <= i < |NonOpt(msg.extra)| ==> Unpacked(NonOpt(msg.extra)[i])
    ensures var resp := Marshalled(env, msg, now);
      var reply := Unmarshalled(env, base, resp, udpSize, netmask, later);
      && reply.answer == RebuiltAll(env, msg.answer, now, later)
      && reply.ns == RebuiltAll(env, msg.ns, now, later)
      && reply.extra == [FreshOpt(env, resp, udpSize, netmask)] + RebuiltAll(env, NonOpt(msg.extra), now, later)
  {
    hide MarshalAll, UnmarshalAll, RebuiltAll, ValidEnv, FreshOpt, StatusAfter, SubnetAfter, Least, NonOpt, Unpacked;
    SectionRoundTrip(env, msg.answer, now, later);
    SectionRoundTrip(env, msg.ns, now, later);
    SectionRoundTrip(env, NonOpt(msg.extra), now, later);
  }

  /** The passing records, and what a reader sees of a record. */
  ghost function Passing(env: Env, rrs: seq<RR>): seq<RR>
  {
    if rrs == [] then []
    else
      var before, last := Passing(env, rrs[..|rrs| - 1]), rrs[|rrs| - 1];
      if Passes(env, last) then before + [last] else before
  }

  function Visible(rr: RR): (string, nat, string) { (rr.name, rr.Type(), if rr.Record? then rr.data else "") }

  /** The data text of this record, if it parses at all, is the text its parse prints again: true of
      what unpacking delivers, not of every spelling the parser takes. */
  ghost predicate Canonical(env: Env, rr: RR)
  {
    Passes(env, rr) ==> env.rdata(rr.rtype, rr.data).value == rr.data
  }

  ghost predicate AllCanonical(env: Env, rrs: seq<RR>) { forall i :: 0 <= i < |rrs| ==> Canonical(env, rrs[i]) }

  /** The same names, types and data at the same positions. */
  ghost predicate Shows(out: seq<RR>, kept: seq<RR>)
  {
    |out| == |kept| && forall i :: 0 <= i < |out| ==> Visible(out[i]) == Visible(kept[i])
  }

  lemma ShowsSnoc(out: seq<RR>, kept: seq<RR>, x: RR, y: RR)
    requires |out| == |kept|
    ensures Shows(out + [x], kept + [y]) <==> Shows(out, kept) && Visible(x) == Visible(y)
  {
    hide Visible;
    if Shows(out + [x], kept + [y]) {
      assert (out + [x])[|out|] == x && (kept + [y])[|out|] == y;
      assert forall i :: 0 <= i < |out| ==> (out + [x])[i] == out[i] && (kept + [y])[i] == kept[i];
    }
  }

  lemma CanonicalSnoc(env: Env, rrs: seq<RR>)
    requires rrs != []
    ensures AllCanonical(env, rrs) <==> AllCanonical(env, rrs[..|rrs| - 1]) && Canonical(env, rrs[|rrs| - 1])
  {
    hide Canonical;
    var init := rrs[..|rrs| - 1];
    if AllCanonical(env, rrs) {
      forall i | 0 <= i < |init| ensures Canonical(env, init[i]) { assert init[i] == rrs[i]; }
    }
  }

  lemma RecordShown(env: Env, rr: RR, now: int, later: int)
    requires Unpacked(rr) && Passes(env, rr)
    ensures Visible(Rebuilt(env, rr, now, later)) == Visible(rr) <==> Canonical(env, rr)
  {
  }

  /** Exactly the passing records come back, and they come back with the same name, type and data,
      position by position, iff each one's data text is canonical. */
  lemma {:induction false} VisibleKept(env: Env, rrs: seq<RR>, now: int, later: int)
    requires forall i :: 0 <= i < |rrs| ==> Unpacked(rrs[i])
    ensures |RebuiltAll(env, rrs, now, later)| == |Passing(env, rrs)|
    ensures Shows(RebuiltAll(env, rrs, now, later), Passing(env, rrs)) <==> AllCanonical(env, rrs)
  {
    hide Passes, Rebuilt, Unpacked, Visible, Shows, AllCanonical, Canonical;
    if rrs == [] {
      Nothing(env);
    } else {
      var init, last := rrs[..|rrs| - 1], rrs[|rrs| - 1];
      VisibleKept(env, init, now, later);
      CanonicalSnoc(env, rrs);
      if Passes(env, last) {
        RecordShown(env, last, now, later);
        ShowsSnoc(RebuiltAll(env, init, now, later), Passing(env, init), Rebuilt(env, last, now, later), last);
      } else {
        Dropped(env, last);
      }
    }
  }

  lemma Nothing(env: Env)
    ensures Shows([], []) && AllCanonical(env, [])
  {
  }

  lemma Dropped(env: Env, rr: RR)
    requires !Passes(env, rr)
    ensures Canonical(env, rr)
  {
  }

  /** So through Marshal and Unmarshal every section shows its passing records unchanged iff their
      data texts are canonical. */
  lemma MessageShown(env: Env, msg: Msg, base: Msg, udpSize: nat, netmask: Byte, now: int, later: int)
    requires ValidEnv(env)
    requires forall i :: 0 <= i < |msg.answer| ==> Unpacked(msg.answer[i])
    requires forall i :: 0 <= i < |msg.ns| ==> Unpacked(msg.ns[i])
    requires forall i :: 0 <= i < |NonOpt(msg.extra)| ==> Unpacked(NonOpt(msg.extra)[i])
    ensures var reply := Unmarshalled(env, base, Marshalled(env, msg, now), udpSize, netmask, later);
      && (Shows(reply.answer, Passing(env, msg.answer)) <==> AllCanonical(env, msg.answer))
      && (Shows(reply.ns, Passing(env, msg.ns)) <==> AllCanonical(env, msg.ns))
      && reply.extra != [] && reply.extra[0].Opt?
      && (Shows(reply.extra[1..], Passing(env, NonOpt(msg.extra))) <==> AllCanonical(env, NonOpt(msg.extra)))
  {
    hide Marshalled, Unmarshalled, RebuiltAll, Passing, ValidEnv, NonOpt, Unpacked, AllCanonical, Shows;
    MessageRoundTrip(env, msg, base, udpSize, netmask, now, later);
    VisibleKept(env, msg.answer, now, later);
    VisibleKept(env, msg.ns, now, later);
    VisibleKept(env, NonOpt(msg.extra), now, later);
    var reply := Unmarshalled(env, base, Marshalled(env, msg, now), udpSize, netmask, later);
    assert reply.extra[1..] == RebuiltAll(env, NonOpt(msg.extra), now, later);
  }

  /** The prepared reply: ID, question, recursion and checking flags are the query's, it is a SERVFAIL
      response without records or other flags; its opcode is that of the query only for a standard
      query. */
  lemma PreparedReply(query: Msg)
    ensures var reply := PrepareReply(query);
      && reply.id == query.id && reply.question == query.question && reply.response && reply.rcode == SERVFAIL
      && reply.rd == query.rd && reply.ra == query.rd && reply.cd == query.cd
      && !reply.authoritative && !reply.truncated && !reply.ad
      && reply.answer == [] && reply.ns == [] && reply.extra == []
      && (reply.opcode == query.opcode <==> query.opcode == 0)
  {
  }

  /** Header flags: the ones Unmarshal takes from JSON are the message's own, the rest of the header
      is the prepared reply's, and the fresh OPT record never announces less than 512 bytes. */
  lemma HeaderRoundTrip(env: Env, msg: Msg, query: Msg, udpSize: nat, netmask: Byte, now: int, later: int)
    ensures var resp := Marshalled(env, msg, now);
      var reply := Unmarshalled(env, PrepareReply(query), resp, udpSize, netmask, later);
      && resp.rd == msg.rd && resp.ra == msg.ra && resp.question == msg.question
      && reply.truncated == msg.truncated && reply.ad == msg.ad && reply.cd == msg.cd
      && reply.id == query.id && reply.response && reply.rd == query.rd && reply.ra == query.rd
      && reply.question == query.question
      && reply.extra != [] && reply.extra[0].Opt? && reply.extra[0].udpSize >= 512 && reply.extra[0].udpSize >= udpSize
  {
    hide MarshalAll, UnmarshalAll, StatusAfter, SubnetAfter, Least, NonOpt, Counted, OptFlags, RcodeOf, SubnetOptions,
      ParseSubnetField;
  }

  /** The announced earliest expiry is the expiry of some counted record and not after any. */
  lemma EarliestIsFirstToExpire(env: Env, msg: Msg, now: int)
    ensures var resp, counted := Marshalled(env, msg, now), Counted(msg);
      && (resp.haveTtl <==> counted != [])
      && (forall i :: 0 <= i < |counted| ==> resp.earliest <= MarshalRR(env, counted[i], now).expires)
      && (resp.haveTtl ==> exists i :: 0 <= i < |counted| && resp.earliest == MarshalRR(env, counted[i], now).expires)
  {
    hide MarshalAll, StatusAfter, SubnetAfter, Least, NonOpt, DataOf;
    var counted := Counted(msg);
    LeastIsMinimum(counted);
    hide Counted;
    if counted != [] {
      var i :| 0 <= i < |counted| && counted[i].Ttl() == Least(counted).value;
      assert Marshalled(env, msg, now).earliest == MarshalRR(env, counted[i], now).expires;
    }
  }

  // ----- lifetimes (absolute expiry) --------------------------------------------------------------

  /** The TTL that record with this TTL, marshalled at `now`, has when unmarshalled at `later`. */
  function CarriedTtl(ttl: nat, now: int, later: int): nat { DecodedTtl(ttl, At((now + ttl * SECOND) / SECOND), later) }

  /** With a client clock not behind the server's: never longer than sent; while the truncated
      expiry is not past, at most the true remaining life and less than two seconds short of it;
      zero within the first second after; the TTL as sent from then on. */
  lemma ExpiryNeverExtends(ttl: nat, now: int, later: int)
    requires ttl < U32 && now <= later
    ensures CarriedTtl(ttl, now, later) <= ttl
    ensures var expiry, end := (now + ttl * SECOND) / SECOND * SECOND, now + ttl * SECOND;
      var carried := CarriedTtl(ttl, now, later);
      && (later <= expiry ==> carried * SECOND <= end - later < (carried + 2) * SECOND)
      && (expiry < later < expiry + SECOND ==> carried == 0)
      && (later >= expiry + SECOND ==> carried == ttl)
  {
    var second := (now + ttl * SECOND) / SECOND;
    var d := second * SECOND - later;
    assert d <= ttl * SECOND;
    if later <= second * SECOND {
      assert Elapsed(second * SECOND, later) == d;
      assert WholeSeconds(d) == d / SECOND;
    }
  }

  /** With a client clock behind, the TTL grows exactly when the expiry is at least a whole second
      more than the TTL away on that clock and still fits 32 bits. */
  lemma ExpiryExtendsIff(ttl: nat, now: int, later: int)
    requires ttl < U32
    ensures var expiry := (now + ttl * SECOND) / SECOND * SECOND;
      CarriedTtl(ttl, now, later) > ttl <==> (ttl + 1) * SECOND <= expiry - later < U32 * SECOND
  {
    var expiry := (now + ttl * SECOND) / SECOND * SECOND;
    var d := expiry - later;
    if d >= 0 {
      assert WholeSeconds(Elapsed(expiry, later)) == Elapsed(expiry, later) / SECOND;
    }
  }
}
