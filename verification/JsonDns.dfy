/** The JSON form of DNS messages, and Marshal, which builds it. */
module JsonDns {
  import opened Text
  import opened Dns

  /** The "Expires" text: missing, unparsable, or a whole second. */
  datatype Expiry = Absent | Garbled | At(second: int)

  datatype JsonRR = JsonRR(name: string, rtype: nat, ttl: nat, expires: int, text: Expiry, data: string)

  datatype Response = Response(
    status: bv32, tc: bool, rd: bool, ra: bool, ad: bool, cd: bool,
    question: seq<Question>, answer: seq<JsonRR>, authority: seq<JsonRR>, additional: seq<JsonRR>,
    subnet: string, haveTtl: bool, leastTtl: nat, earliest: int)

  // ----- marshalling, as functions ----------------------------------------------------------------

  function DataOf(env: Env, rr: RR): string
  {
    var pieces := SplitN(RrText(env, rr), '\t', 5);
    if |pieces| >= 5 then pieces[4] else ""
  }

  /** Times are nanoseconds; the expiry text keeps whole seconds only. */
  function MarshalRR(env: Env, rr: RR, now: int): JsonRR
  {
    var expires := now + rr.Ttl() * SECOND;
    JsonRR(rr.name, rr.Type(), rr.Ttl(), expires, At(expires / SECOND), DataOf(env, rr))
  }

  function MarshalAll(env: Env, rrs: seq<RR>, now: int): (r: seq<JsonRR>)
    ensures |r| == |rrs|
  {
    if rrs == [] then [] else MarshalAll(env, rrs[..|rrs| - 1], now) + [MarshalRR(env, rrs[|rrs| - 1], now)]
  }

  function NonOpt(rrs: seq<RR>): seq<RR>
  {
    if rrs == [] then []
    else NonOpt(rrs[..|rrs| - 1]) + (if rrs[|rrs| - 1].Opt? then [] else [rrs[|rrs| - 1]])
  }

  function Least(rrs: seq<RR>): Option<nat>
  {
    if rrs == [] then None
    else
      var before, t := Least(rrs[..|rrs| - 1]), rrs[|rrs| - 1].Ttl();
      if before.None? || t < before.value then Some(t) else before
  }

  function ExtendStatus(status: bv32, flags: bv32): bv32 { ((flags & 0xff00_0000) >> 20) | (status & 0xff) }

  function StatusAfter(status: bv32, extra: seq<RR>): bv32
  {
    if extra == [] then status
    else
      var before, rr := StatusAfter(status, extra[..|extra| - 1]), extra[|extra| - 1];
      if rr.Opt? then ExtendStatus(before, rr.flags) else before
  }

  /** A missing address is shown as 0.0.0.0. */
  function SubnetText(env: Env, s: Subnet): string
  {
    IpText(env, if s.address.Some? then s.address.value else [0, 0, 0, 0]) + "/" + Decimal(s.scope)
  }

  function OptionsText(env: Env, options: seq<EdnsOption>, before: string): string
  {
    if options == [] then before
    else
      var last := options[|options| - 1];
      if last.SubnetOption? then SubnetText(env, last.subnet)
      else OptionsText(env, options[..|options| - 1], before)
  }

  function SubnetAfter(env: Env, extra: seq<RR>): string
  {
    if extra == [] then ""
    else
      var before, rr := SubnetAfter(env, extra[..|extra| - 1]), extra[|extra| - 1];
      if rr.Opt? then OptionsText(env, rr.options, before) else before
  }

  /** The records whose TTL counts: everything but the OPT pseudo-records of the last section. */
  function Counted(msg: Msg): seq<RR> { msg.answer + msg.ns + NonOpt(msg.extra) }

  function Marshalled(env: Env, msg: Msg, now: int): Response
  {
    var least := Least(Counted(msg));
    Response(StatusAfter(msg.rcode, msg.extra), msg.truncated, msg.rd, msg.ra, msg.ad, msg.cd, msg.question,
      MarshalAll(env, msg.answer, now), MarshalAll(env, msg.ns, now), MarshalAll(env, NonOpt(msg.extra), now),
      SubnetAfter(env, msg.extra), least.Some?,
      if least.Some? then least.value else 0, if least.Some? then now + least.value * SECOND else 0)
  }

  // ----- marshalling, as the loops run --------------------------------------------------------------

  lemma LeastSnoc(rrs: seq<RR>, rr: RR)
    ensures Least(rrs + [rr]) ==
      if Least(rrs).None? || rr.Ttl() < Least(rrs).value then Some(rr.Ttl()) else Least(rrs)
  {
    assert (rrs + [rr])[..|rrs|] == rrs;
  }

  /** The three TTL fields after the records seen so far. */
  ghost predicate TtlFields(seen: seq<RR>, now: int, have: bool, least: nat, earliest: int)
  {
    && have == Least(seen).Some?
    && (have ==> least == Least(seen).value && earliest == now + least * SECOND)
    && (!have ==> least == 0 && earliest == 0)
  }

  lemma TtlStep(seen: seq<RR>, rr: RR, now: int, have: bool, least: nat, earliest: int)
    requires TtlFields(seen, now, have, least, earliest)
    ensures if !have || rr.Ttl() < least then TtlFields(seen + [rr], now, true, rr.Ttl(), now + rr.Ttl() * SECOND)
      else TtlFields(seen + [rr], now, have, least, earliest)
  {
    LeastSnoc(seen, rr);
  }

  /** One section's loop: the running minimum continues from the sections before it. */
  method MarshalSection(env: Env, rrs: seq<RR>, now: int, ghost before: seq<RR>, have: bool, least: nat, earliest: int)
    returns (out: seq<JsonRR>, have': bool, least': nat, earliest': int)
    requires TtlFields(before, now, have, least, earliest)
    ensures out == MarshalAll(env, rrs, now)
    ensures TtlFields(before + rrs, now, have', least', earliest')
  {
    hide DataOf, TtlFields;
    out, have', least', earliest' := [], have, least, earliest;
    assert before + rrs[..0] == before;
    for i := 0 to |rrs|
      invariant out == MarshalAll(env, rrs[..i], now)
      invariant TtlFields(before + rrs[..i], now, have', least', earliest')
    {
      var json := MarshalRR(env, rrs[i], now);
      assert rrs[..i + 1][..i] == rrs[..i];
      assert before + rrs[..i + 1] == before + rrs[..i] + [rrs[i]];
      TtlStep(before + rrs[..i], rrs[i], now, have', least', earliest');
      if !have' || json.ttl < least' {
        have', least', earliest' := true, json.ttl, json.expires;
      }
      out := out + [json];
    }
    assert rrs[..|rrs|] == rrs;
  }

  method OptionsLoop(env: Env, options: seq<EdnsOption>, before: string) returns (subnet: string)
    ensures subnet == OptionsText(env, options, before)
  {
    hide SubnetText;
    subnet := before;
    for i := 0 to |options|
      invariant subnet == OptionsText(env, options[..i], before)
    {
      assert options[..i + 1][..i] == options[..i];
      if options[i].SubnetOption? {
        subnet := SubnetText(env, options[i].subnet);
      }
    }
    assert options[..|options|] == options;
  }

  lemma ExtraSnoc(env: Env, extra: seq<RR>, i: nat, rcode: bv32)
    requires i < |extra|
    ensures var before, rr := extra[..i], extra[i];
      && NonOpt(extra[..i + 1]) == NonOpt(before) + (if rr.Opt? then [] else [rr])
      && StatusAfter(rcode, extra[..i + 1]) ==
           (if rr.Opt? then ExtendStatus(StatusAfter(rcode, before), rr.flags) else StatusAfter(rcode, before))
      && SubnetAfter(env, extra[..i + 1]) ==
           (if rr.Opt? then OptionsText(env, rr.options, SubnetAfter(env, before)) else SubnetAfter(env, before))
  {
    hide ExtendStatus, OptionsText;
    assert extra[..i + 1][..i] == extra[..i];
  }

  /** Everything the loop over the additional section has built from the records seen. */
  datatype ExtraFields = ExtraFields(
    out: seq<JsonRR>, status: bv32, subnet: string, have: bool, least: nat, earliest: int)

  ghost predicate ExtraDone(env: Env, seen: seq<RR>, now: int, rcode: bv32, front: seq<RR>, f: ExtraFields)
  {
    && f.out == MarshalAll(env, NonOpt(seen), now)
    && f.status == StatusAfter(rcode, seen)
    && f.subnet == SubnetAfter(env, seen)
    && TtlFields(front + NonOpt(seen), now, f.have, f.least, f.earliest)
  }

  lemma OptStep(env: Env, extra: seq<RR>, i: nat, now: int, rcode: bv32, front: seq<RR>, f: ExtraFields)
    requires i < |extra| && extra[i].Opt? && ExtraDone(env, extra[..i], now, rcode, front, f)
    ensures ExtraDone(env, extra[..i + 1], now, rcode, front, f.(status := ExtendStatus(f.status, extra[i].flags),
      subnet := OptionsText(env, extra[i].options, f.subnet)))
  {
    hide TtlFields, OptionsText, ExtendStatus, StatusAfter, SubnetAfter, NonOpt, MarshalAll;
    ExtraSnoc(env, extra, i, rcode);
    assert NonOpt(extra[..i]) + [] == NonOpt(extra[..i]);
  }

  lemma RecordStep(env: Env, extra: seq<RR>, i: nat, now: int, rcode: bv32, front: seq<RR>, f: ExtraFields)
    requires i < |extra| && extra[i].Record? && ExtraDone(env, extra[..i], now, rcode, front, f)
    ensures var rr, json := extra[i], MarshalRR(env, extra[i], now);
      var g := f.(out := f.out + [json]);
      ExtraDone(env, extra[..i + 1], now, rcode, front,
        if !f.have || json.ttl < f.least then g.(have := true, least := json.ttl, earliest := json.expires) else g)
  {
    hide TtlFields, OptionsText, ExtendStatus, StatusAfter, SubnetAfter, NonOpt, MarshalAll, MarshalRR;
    var rr, counted := extra[i], NonOpt(extra[..i]);
    ExtraSnoc(env, extra, i, rcode);
    assert front + (counted + [rr]) == (front + counted) + [rr];
    TtlStep(front + counted, rr, now, f.have, f.least, f.earliest);
    MarshalAllSnoc(env, counted, rr, now);
    MarshalledTimes(env, rr, now);
  }

  /** The loop over the additional section: OPT records feed the status and the subnet instead. */
  method MarshalExtra(env: Env, extra: seq<RR>, now: int, rcode: bv32,
                      ghost front: seq<RR>, have: bool, least: nat, earliest: int) returns (f: ExtraFields)
    requires TtlFields(front, now, have, least, earliest)
    ensures ExtraDone(env, extra, now, rcode, front, f)
  {
    f := ExtraFields([], rcode, "", have, least, earliest);
    assert front + NonOpt(extra[..0]) == front;
    ExtraNil(env, extra, now, rcode);
    assert ExtraDone(env, extra[..0], now, rcode, front, f);
    hide ExtraDone, MarshalRR, OptionsText, ExtendStatus;
    for i := 0 to |extra|
      invariant ExtraDone(env, extra[..i], now, rcode, front, f)
    {
      var json := MarshalRR(env, extra[i], now);
      if extra[i].Opt? {
        OptStep(env, extra, i, now, rcode, front, f);
        var subnet := OptionsLoop(env, extra[i].options, f.subnet);
        f := f.(status := ExtendStatus(f.status, extra[i].flags), subnet := subnet);
        continue;
      }
      RecordStep(env, extra, i, now, rcode, front, f);
      if !f.have || json.ttl < f.least {
        f := f.(have := true, least := json.ttl, earliest := json.expires);
      }
      f := f.(out := f.out + [json]);
    }
    assert extra[..|extra|] == extra;
  }

  lemma ExtraNil(env: Env, extra: seq<RR>, now: int, rcode: bv32)
    ensures NonOpt(extra[..0]) == [] && MarshalAll(env, NonOpt(extra[..0]), now) == []
    ensures StatusAfter(rcode, extra[..0]) == rcode && SubnetAfter(env, extra[..0]) == ""
  {
  }

  method Marshal(env: Env, msg: Msg, now: int) returns (resp: Response)
    ensures resp == Marshalled(env, msg, now)
  {
    assert TtlFields([], now, false, 0, 0);
    hide MarshalAll, OptionsText, ExtendStatus, StatusAfter, SubnetAfter, NonOpt, Least;
    var answer, have, least, earliest := MarshalSection(env, msg.answer, now, [], false, 0, 0);
    assert [] + msg.answer == msg.answer;
    var authority;
    authority, have, least, earliest := MarshalSection(env, msg.ns, now, msg.answer, have, least, earliest);
    var f := MarshalExtra(env, msg.extra, now, msg.rcode, msg.answer + msg.ns, have, least, earliest);
    resp := Response(f.status, msg.truncated, msg.rd, msg.ra, msg.ad, msg.cd, msg.question,
      answer, authority, f.out, f.subnet, f.have, f.least, f.earliest);
  }

  lemma MarshalledTimes(env: Env, rr: RR, now: int)
    ensures MarshalRR(env, rr, now).ttl == rr.Ttl() && MarshalRR(env, rr, now).expires == now + rr.Ttl() * SECOND
  {
    hide DataOf;
  }

  lemma MarshalAllSnoc(env: Env, rrs: seq<RR>, rr: RR, now: int)
    ensures MarshalAll(env, rrs + [rr], now) == MarshalAll(env, rrs, now) + [MarshalRR(env, rr, now)]
  {
    assert (rrs + [rr])[..|rrs|] == rrs;
  }

  /** Least is the exact minimum: attained, and below everything. */
  lemma {:induction false} LeastIsMinimum(rrs: seq<RR>)
    ensures Least(rrs).None? <==> rrs == []
    ensures Least(rrs).Some? ==> exists i :: 0 <= i < |rrs| && rrs[i].Ttl() == Least(rrs).value
    ensures Least(rrs).Some? ==> forall i :: 0 <= i < |rrs| ==> Least(rrs).value <= rrs[i].Ttl()
  {
    if rrs == [] {
    } else {
      var init := rrs[..|rrs| - 1];
      LeastIsMinimum(init);
      if Least(rrs) == Least(init) && init != [] {
        var i :| 0 <= i < |init| && init[i].Ttl() == Least(init).value;
        assert rrs[i].Ttl() == Least(rrs).value;
      } else {
        assert rrs[|rrs| - 1].Ttl() == Least(rrs).value;
      }
      forall i | 0 <= i < |rrs| ensures Least(rrs).value <= rrs[i].Ttl() {
        if i < |init| { assert init[i] == rrs[i]; }
      }
    }
  }
}
