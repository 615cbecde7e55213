/** Rebuilding DNS messages from their JSON form. */
module JsonUnmarshal {
  import opened Text
  import opened GlobalIp
  import opened Dns
  import opened JsonDns

  // ----- time -----------------------------------------------------------------------------------

  const MIN_INT64: int := -0x8000_0000_0000_0000

  /** time.Time.Sub saturates at the ends of a 64-bit duration. */
  function Elapsed(later: int, earlier: int): (d: int)
    ensures MIN_INT64 <= d <= MAX_INT64
  {
    var d := later - earlier;
    if d < MIN_INT64 then MIN_INT64 else if d > MAX_INT64 then MAX_INT64 else d
  }

  /** Go's integer division by a second: toward zero. */
  function WholeSeconds(d: int): int { if d >= 0 then d / SECOND else -((-d) / SECOND) }

  /** The TTL a record gets: from the absolute expiry when that fits 32 bits, else as sent. */
  function DecodedTtl(ttl: nat, text: Expiry, now: int): nat
  {
    if text.At? then
      var left := WholeSeconds(Elapsed(text.second * SECOND, now));
      if 0 <= left <= 0xffff_ffff then left else ttl
    else ttl
  }

  // ----- records --------------------------------------------------------------------------------

  predicate IsForbidden(c: char)
  {
    c == '\t' || c == '\r' || c == '\n' || c == ' ' || c == '"' || c == '(' || c == ')' || c == ';' || c == '\\'
  }

  predicate NameAllowed(name: string) { forall i :: 0 <= i < |name| ==> !IsForbidden(name[i]) }

  predicate DataAllowed(data: string) { forall i :: 0 <= i < |data| ==> data[i] != '\r' && data[i] != '\n' }

  /** The characters that bar a name: tab, carriage return, line feed, blank, quote, parentheses,
      semicolon and backslash; data is barred by the two line ends only. */
  lemma BarredCharacters(s: string)
    ensures NameAllowed(s) <==> forall c: char :: c in s ==> c as int !in {9, 13, 10, 32, 34, 40, 41, 59, 92}
    ensures DataAllowed(s) <==> forall c: char :: c in s ==> c as int !in {13, 10}
  {
    if NameAllowed(s) {
      forall c: char | c in s ensures c as int !in {9, 13, 10, 32, 34, 40, 41, 59, 92} {
        var i :| 0 <= i < |s| && s[i] == c;
        assert !IsForbidden(s[i]);
      }
    } else {
      var i :| 0 <= i < |s| && IsForbidden(s[i]);
      assert s[i] in s && s[i] as int in {9, 13, 10, 32, 34, 40, 41, 59, 92};
    }
    if !DataAllowed(s) {
      var i :| 0 <= i < |s| && (s[i] == '\r' || s[i] == '\n');
      assert s[i] in s && s[i] as int in {13, 10};
    }
  }

  function ZoneLine(name: string, ttl: nat, typeText: string, data: string): string
  {
    name + " " + (Decimal(ttl) + " " + ("IN" + " " + (typeText + " " + data)))
  }

  function OwnerOf(token: string): string { if token == "@" then "." else Fqdn(token) }

  function FromFields(env: Env, owner: string, ttl: string, cls: string, typeText: string, data: string): (r: Option<RR>)
    ensures r.Some? ==> r.value.Record? && r.value.rtype != TYPE_OPT
  {
    if owner == "" || ParseUint(ttl, U32).None? || cls != "IN" || TypeNamed(env, typeText).None? then None
    else
      var t := TypeNamed(env, typeText).value;
      if t == TYPE_OPT || env.rdata(t, data).None? then None
      else Some(Record(OwnerOf(owner), t, "IN", ParseUint(ttl, U32).value, env.rdata(t, data).value))
  }

  /** dns.NewRR on a line "owner ttl class type data": header fields here, the data by the library.
      OPT has no zone form. */
  function NewRR(env: Env, line: string): (r: Option<RR>)
    ensures r.Some? ==> r.value.Record? && r.value.rtype != TYPE_OPT
  {
    var f := SplitN(line, ' ', 5);
    if |f| < 5 then None else FromFields(env, f[0], f[1], f[2], f[3], f[4])
  }

  function UnmarshalRR(env: Env, rr: JsonRR, now: int): (r: Option<RR>)
    ensures r.Some? ==> r.value.Record? && r.value.rtype != TYPE_OPT
  {
    if !NameAllowed(rr.name) || rr.text.Garbled? || rr.rtype !in env.types || !DataAllowed(rr.data) then None
    else NewRR(env, ZoneLine(rr.name, DecodedTtl(rr.ttl, rr.text, now), env.types[rr.rtype], rr.data))
  }

  function UnmarshalAll(env: Env, rrs: seq<JsonRR>, now: int): (r: seq<RR>)
    ensures forall i :: 0 <= i < |r| ==> r[i].Record?
  {
    if rrs == [] then []
    else
      var before, last := UnmarshalAll(env, rrs[..|rrs| - 1], now), UnmarshalRR(env, rrs[|rrs| - 1], now);
      if last.Some? then before + [last.value] else before
  }

  // ----- the client subnet field -------------------------------------------------------------------

  datatype ParsedSubnet = ParsedSubnet(address: Option<Address>, family: nat, scope: Byte)

  /** Address and scope are parsed independently: one may be good while the other is not. */
  function ParseSubnetField(env: Env, text: string): ParsedSubnet
  {
    var slash := IndexOf(text, '/');
    if text == "" || slash == |text| then ParsedSubnet(None, 0, 255)
    else
      var ip := ParseIp(env, text[..slash]);
      var scope := ParseUint(text[slash + 1..], 256);
      var s := if scope.Some? then scope.value else 255;
      if ip.None? then ParsedSubnet(None, 0, s)
      else if To4(ip.value).Some? then ParsedSubnet(To4(ip.value), 1, s)
      else ParsedSubnet(ip, 2, s)
  }

  function SubnetOptions(p: ParsedSubnet, netmask: Byte): seq<EdnsOption>
  {
    if p.address.None? then []
    else
      var m := if netmask != 255 then netmask else if p.family == 1 then 24 else 56;
      [SubnetOption(Subnet(p.family, m, p.scope, p.address))]
  }

  // ----- whole messages -----------------------------------------------------------------------------

  function RcodeOf(status: bv32): bv32 { status & 0xf }

  function OptFlags(flags: bv32, status: bv32): bv32 { (flags & 0x00ff_ffff) | ((status & 0xff0) << 20) }

  function FreshOpt(env: Env, resp: Response, udpSize: nat, netmask: Byte): RR
  {
    Opt(".", if udpSize >= 512 then udpSize else 512, OptFlags(0, resp.status),
      SubnetOptions(ParseSubnetField(env, resp.subnet), netmask))
  }

  function Unmarshalled(env: Env, msg: Msg, resp: Response, udpSize: nat, netmask: Byte, now: int): Msg
  {
    msg.(truncated := resp.tc, ad := resp.ad, cd := resp.cd, rcode := RcodeOf(resp.status),
      answer := UnmarshalAll(env, resp.answer, now),
      ns := UnmarshalAll(env, resp.authority, now),
      extra := [FreshOpt(env, resp, udpSize, netmask)] + UnmarshalAll(env, resp.additional, now))
  }

  /** One section's loop: records that fail are logged and skipped. */
  method UnmarshalSection(env: Env, rrs: seq<JsonRR>, now: int, start: seq<RR>) returns (out: seq<RR>)
    ensures out == start + UnmarshalAll(env, rrs, now)
  {
    hide UnmarshalRR;
    out := start;
    for i := 0 to |rrs|
      invariant out == start + UnmarshalAll(env, rrs[..i], now)
    {
      assert rrs[..i + 1][..i] == rrs[..i];
      var rr := UnmarshalRR(env, rrs[i], now);
      if rr.Some? {
        out := out + [rr.value];
      }
    }
    assert rrs[..|rrs|] == rrs;
  }

  method Unmarshal(env: Env, msg: Msg, resp: Response, udpSize: nat, netmask: Byte, now: int) returns (reply: Msg)
    ensures reply == Unmarshalled(env, msg, resp, udpSize, netmask, now)
  {
    hide ParseSubnetField, UnmarshalAll, OptFlags, SubnetOptions, RcodeOf;
    reply := msg.(truncated := resp.tc, ad := resp.ad, cd := resp.cd, rcode := SERVFAIL);
    var answer := UnmarshalSection(env, resp.answer, now, []);
    assert answer == UnmarshalAll(env, resp.answer, now);
    reply := reply.(answer := answer);
    var ns := UnmarshalSection(env, resp.authority, now, []);
    assert ns == UnmarshalAll(env, resp.authority, now);
    reply := reply.(ns := ns);
    var opt := Opt(".", if udpSize >= 512 then udpSize else 512, 0,
      SubnetOptions(ParseSubnetField(env, resp.subnet), netmask));
    var extra := UnmarshalSection(env, resp.additional, now, [opt]);
    reply := reply.(rcode := RcodeOf(resp.status));
    opt := opt.(flags := OptFlags(opt.flags, resp.status));
    reply := reply.(extra := extra[0 := opt]);
    assert extra[0 := opt] == [opt] + UnmarshalAll(env, resp.additional, now);
  }

  /** PrepareReply: the reply skeleton every client path starts from. */
  function PrepareReply(req: Msg): Msg
  {
    Msg(req.id, true, 0, false, false, req.rd, req.rd, false, req.cd, SERVFAIL, req.question, [], [], [])
  }
}
