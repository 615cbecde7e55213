/** The client subnet as text: in the query parameter and in the JSON field. */
module Subnets {
  import opened Text
  import opened GlobalIp
  import opened Dns
  import opened JsonDns
  import opened JsonUnmarshal

  /** generateRequestGoogle's parameter value. */
  function SubnetParam(env: Env, address: Address, netmask: Byte): string
  {
    IpText(env, address) + "/" + Decimal(netmask)
  }

  datatype SubnetArg = BadArgument | Arg(address: Option<Address>, family: nat, netmask: Byte)

  function WithFamily(ip: Address, netmask: Option<Byte>): SubnetArg
  {
    if To4(ip).Some? then Arg(To4(ip), 1, if netmask.Some? then netmask.value else 24)
    else Arg(Some(ip), 2, if netmask.Some? then netmask.value else 56)
  }

  /** An address, or an address, a slash and a length. */
  function ParseBlock(env: Env, t: string): SubnetArg
  {
    var slash := IndexOf(t, '/');
    if slash == |t| then
      var ip := ParseIp(env, t);
      if ip.None? then BadArgument else WithFamily(ip.value, None)
    else
      var ip, netmask := ParseIp(env, t[..slash]), ParseUint(t[slash + 1..], 256);
      if ip.None? || netmask.None? then BadArgument else WithFamily(ip.value, Some(netmask.value))
  }

  /** parseRequestGoogle's subnet branch; `peer` is what findClientIP gives. */
  function ParseSubnetArg(env: Env, text: string, peer: Option<Address>): SubnetArg
  {
    if text == "" then
      if peer.None? then Arg(None, 0, 0) else WithFamily(peer.value, None)
    else ParseBlock(env, if text == "0/0" then "0.0.0.0/0" else text)
  }

  /** net.IP holds 4 or 16 bytes. */
  predicate IsIp(a: Address) { |a| == 4 || |a| == 16 }

  /** Text of an address and, after a slash, a length. */
  predicate AddressChar(c: char) { IsHex(c) || c == ':' || c == '.' }

  /** The address in the form the parsers of both sides end up with. */
  function Normal(a: Address): Address { if To4(a).Some? then To4(a).value else a }

  lemma GroupsParse(env: Env, s: string)
    requires GroupText(s)
    ensures ParseIp(env, s) == env.parse6(s)
  {
    hide ParseOctets, Split;
    assert '.' !in s;
    assert IndexOf(s, '.') == |s|;
    assert s[..|s|] == s;
  }

  /** Every address is printed without a slash and parsed back. */
  lemma AddressText(env: Env, a: Address)
    requires ValidEnv(env) && IsIp(a)
    ensures var text := IpText(env, a);
      && (forall i :: 0 <= i < |text| ==> AddressChar(text[i])) && (':' in text || '.' in text)
      && ParseIp(env, text).Some? && To4(ParseIp(env, text).value) == To4(a)
      && (To4(a).None? ==> ParseIp(env, text) == Some(a))
  {
    if To4(a).Some? {
      var v4 := To4(a).value;
      DottedChars(v4);
      ParseDotted(env, v4);
      To4OfMapped(v4);
    } else {
      var text := env.print6(a);
      assert GroupText(text) && env.parse6(text) == Some(a);
      hide ValidEnv, ParseIp;
      GroupsParse(env, text);
    }
  }

  lemma SlashSplits(address: string, n: Byte)
    requires (forall i :: 0 <= i < |address| ==> AddressChar(address[i])) && (':' in address || '.' in address)
    ensures var text := address + "/" + Decimal(n);
      var slash := IndexOf(text, '/');
      slash == |address| < |text| && text[..slash] == address && text[slash + 1..] == Decimal(n)
      && text != "0/0" && text != ""
  {
    hide Decimal, IndexOf;
    assert '/' !in address;
    IndexOfAppend(address, '/', Decimal(n));
    var text := address + "/" + Decimal(n);
    assert text == address + ['/'] + Decimal(n);
    var i :| 0 <= i < |address| && (address[i] == ':' || address[i] == '.');
    assert text[i] == address[i];
  }

  /** What the client prints the server parses back: address, prefix length and family, for every
      IPv4 and IPv6 address and every 8-bit length. */
  lemma ParamRoundTrip(env: Env, address: Address, netmask: Byte, peer: Option<Address>)
    requires ValidEnv(env) && IsIp(address)
    ensures ParseSubnetArg(env, SubnetParam(env, address, netmask), peer)
      == Arg(Some(Normal(address)), if To4(address).Some? then 1 else 2, netmask)
  {
    hide ParseBlock, IpText, Decimal, ValidEnv, AddressChar, To4;
    AddressText(env, address);
    SlashSplits(IpText(env, address), netmask);
    BlockRoundTrip(env, address, netmask);
  }

  lemma BlockRoundTrip(env: Env, address: Address, netmask: Byte)
    requires ValidEnv(env) && IsIp(address)
    ensures ParseBlock(env, SubnetParam(env, address, netmask))
      == Arg(Some(Normal(address)), if To4(address).Some? then 1 else 2, netmask)
  {
    AddressText(env, address);
    hide IpText, Decimal, ParseIp, IndexOf, ParseUint, To4, ValidEnv, AddressChar;
    SlashSplits(IpText(env, address), netmask);
    OctetRoundTrip(netmask);
  }

  /** A bare address gets the default block, the shorthand means any address, and no parameter
      means the peer's block. */
  lemma OtherForms(env: Env, v4: Address, peer: Option<Address>)
    requires ValidEnv(env) && |v4| == 4
    ensures ParseSubnetArg(env, Dotted(v4), peer) == Arg(Some(v4), 1, 24)
    ensures ParseSubnetArg(env, "0/0", peer) == Arg(Some([0, 0, 0, 0]), 1, 0)
    ensures ParseSubnetArg(env, "", Some(v4)) == Arg(Some(v4), 1, 24)
    ensures ParseSubnetArg(env, "", None) == Arg(None, 0, 0)
  {
    BareAddress(env, v4, peer);
    Shorthand(env, peer);
    hide ParseIp, IndexOf, Dotted, ParseUint;
    assert To4(v4) == Some(v4);
  }

  lemma BareAddress(env: Env, v4: Address, peer: Option<Address>)
    requires |v4| == 4
    ensures ParseSubnetArg(env, Dotted(v4), peer) == Arg(Some(v4), 1, 24)
  {
    DottedChars(v4);
    ParseDotted(env, v4);
    To4OfMapped(v4);
    hide Dotted, ParseIp, Mapped, To4, ParseUint;
    assert '/' !in Dotted(v4);
    assert "0/0"[1] == '/';
  }

  /** A bare IPv6 address, or an IPv6 peer, gets the longer block. */
  lemma OtherForms6(env: Env, v6: Address, peer: Option<Address>)
    requires ValidEnv(env) && |v6| == 16 && To4(v6).None?
    ensures ParseSubnetArg(env, IpText(env, v6), peer) == Arg(Some(v6), 2, 56)
    ensures ParseSubnetArg(env, "", Some(v6)) == Arg(Some(v6), 2, 56)
  {
    AddressText(env, v6);
    var text := IpText(env, v6);
    hide IpText, ParseIp, To4, ParseUint, ValidEnv;
    assert '/' !in text;
    assert IndexOf(text, '/') == |text|;
    assert "0/0"[1] == '/';
  }

  lemma ZeroAddressText()
    ensures forall env :: SubnetParam(env, [0, 0, 0, 0], 0) == "0.0.0.0/0"
  {
    assert Decimal(0) == "0";
  }

  lemma Shorthand(env: Env, peer: Option<Address>)
    requires ValidEnv(env)
    ensures ParseSubnetArg(env, "0/0", peer) == Arg(Some([0, 0, 0, 0]), 1, 0)
  {
    ZeroAddressText();
    var zero: Address := [0, 0, 0, 0];
    assert To4(zero) == Some(zero);
    hide ParseBlock, IpText, Decimal, ValidEnv, To4;
    BlockRoundTrip(env, zero, 0);
  }

  // ----- the client's own announcement ---------------------------------------------------------

  /** findClientIP: nothing of the client with ECS off, the query's own subnet if it has one, else a
      truncated global peer address; 255 stands for an unset length. */
  function Announced(noEcs: bool, own: Option<Subnet>, remote: Option<Address>): (Option<Address>, Byte)
  {
    if noEcs then (Some(Mapped([0, 0, 0, 0])), 0)
    else if own.Some? then (own.value.address, own.value.netmask)
    else if !IsGlobal(remote) then (None, 255)
    else if To4(remote.value).Some? then (Some(Masked(To4(remote.value).value, MASK24)), 24)
    else if |remote.value| == 16 then (Some(Masked(remote.value, MASK56)), 56)
    else (None, 56)
  }

  /** With announcing off the client says 0.0.0.0/0; a subnet the query brings is passed on as it is; and
      of an address that is not global, or unknown, nothing is said. */
  lemma AnnouncedOtherwise(noEcs: bool, own: Option<Subnet>, remote: Option<Address>)
    ensures noEcs ==>
      var said := Announced(noEcs, own, remote); said.0.Some? && To4(said.0.value) == Some([0, 0, 0, 0]) && said.1 == 0
    ensures !noEcs && own.Some? ==> Announced(noEcs, own, remote) == (own.value.address, own.value.netmask)
    ensures !noEcs && own.None? && !IsGlobal(remote) ==> Announced(noEcs, own, remote) == (None, 255)
  {
    hide IsGlobal, Masked;
    To4OfMapped([0, 0, 0, 0]);
  }

  /** The block that both sides announce for an address they found themselves. */
  function Block(address: Address): Subnet
  {
    if To4(address).Some? then Subnet(1, 24, 0, To4(address)) else Subnet(2, 56, 0, Some(address))
  }

  /** Family and length of the announced block; the scope is left open. */
  lemma BlockIs(address: Address)
    requires IsIp(address)
    ensures To4(address).Some? <==> Block(address).family == 1
    ensures Block(address).family == 1 ==> Block(address).netmask == 24 && Block(address).address == To4(address)
    ensures Block(address).family != 1 ==>
      Block(address).family == 2 && Block(address).netmask == 56 && Block(address).address == Some(address)
    ensures Block(address).scope == 0
    ensures BlockOf(Some(address)) == Some(Block(address)) && BlockOf(None) == None
  {
  }

  function BlockOf(address: Option<Address>): Option<Subnet>
  {
    if address.None? then None else Some(Block(address.value))
  }

  /** What the server learns of a global client is its /24 or /56 and nothing else. */
  lemma ServerLearnsBlockOnly(env: Env, remote: Address, peer: Option<Address>)
    requires ValidEnv(env) && IsIp(remote) && IsGlobal(Some(remote))
    ensures var said := Announced(false, None, Some(remote));
      said.0.Some? && ParseSubnetArg(env, SubnetParam(env, said.0.value, said.1), peer) ==
      if To4(remote).Some? then Arg(Some(To4(remote).value[..3] + [0]), 1, 24)
      else Arg(Some(remote[..7] + seq(9, i => 0)), 2, 56)
  {
    hide ParseSubnetArg, SubnetParam, IsGlobal, ValidEnv;
    if To4(remote).Some? {
      var v4 := To4(remote).value;
      MaskedIs(v4, MASK24, 3);
      hide Masked;
      var cut := Masked(v4, MASK24);
      assert cut == v4[..3] + [0];
      assert To4(cut) == Some(cut);
      ParamRoundTrip(env, cut, 24, peer);
    } else {
      MaskedIs(remote, MASK56, 7);
      hide Masked;
      var cut := Masked(remote, MASK56);
      assert cut == remote[..7] + seq(9, i => 0);
      ParamRoundTrip(env, cut, 56, peer);
      CutStaysSix(remote);
    }
  }

  /** Cutting a global IPv6 address never leaves the form of a mapped IPv4 one. */
  lemma CutStaysSix(remote: Address)
    requires |remote| == 16
    ensures To4(remote[..7] + seq(9, i => 0)).None?
  {
  }

  /** The block announced for a client whose query brings no subnet. */
  function OwnBlock(noEcs: bool, remote: Address): Subnet
    requires IsIp(remote)
  {
    if noEcs then Subnet(1, 24, 0, Some([0, 0, 0, 0]))
    else if To4(remote).Some? then Subnet(1, 24, 0, Some(To4(remote).value[..3] + [0]))
    else Subnet(2, 56, 0, Some(remote[..7] + seq(9, i => 0)))
  }

  lemma AnnouncedIsCut(remote: Address)
    requires IsIp(remote) && IsGlobal(Some(remote))
    ensures BlockOf(Announced(false, None, Some(remote)).0) == Some(OwnBlock(false, remote))
  {
    hide IsGlobal;
    if To4(remote).Some? {
      var v4 := To4(remote).value;
      MaskedIs(v4, MASK24, 3);
      hide Masked;
      assert Masked(v4, MASK24) == v4[..3] + [0];
    } else {
      MaskedIs(remote, MASK56, 7);
      hide Masked;
      assert Masked(remote, MASK56) == remote[..7] + seq(9, i => 0);
      CutStaysSix(remote);
    }
  }

  lemma AnnouncedAsNobody(remote: Option<Address>)
    ensures BlockOf(Announced(true, None, remote).0) == Some(Subnet(1, 24, 0, Some([0, 0, 0, 0])))
  {
    To4OfMapped([0, 0, 0, 0]);
    hide IsGlobal, Masked;
  }

  function ShownAddress(s: Subnet): Address { if s.address.Some? then s.address.value else [0, 0, 0, 0] }

  lemma FieldRoundTrip(env: Env, s: Subnet)
    requires ValidEnv(env) && IsIp(ShownAddress(s))
    ensures var a := ShownAddress(s);
      ParseSubnetField(env, SubnetText(env, s)) == ParsedSubnet(Some(Normal(a)), if To4(a).Some? then 1 else 2, s.scope)
  {
    AddressText(env, ShownAddress(s));
    hide IpText, Decimal, ParseIp, IndexOf, ParseUint, To4, ValidEnv, AddressChar;
    SlashSplits(IpText(env, ShownAddress(s)), s.scope);
    OctetRoundTrip(s.scope);
  }

  /** A field without a slash or with a bad address gives no option; a bad scope only spoils the scope. */
  lemma GarbledField(env: Env, text: string, address: string, scope: string)
    ensures '/' !in text ==> SubnetOptions(ParseSubnetField(env, text), 24) == []
    ensures '/' !in address && ParseIp(env, address).None? ==>
      SubnetOptions(ParseSubnetField(env, address + "/" + scope), 24) == []
    ensures '/' !in address && ParseIp(env, address).Some? && ParseUint(scope, 256).None? ==>
      ParseSubnetField(env, address + "/" + scope).scope == 255 && ParseSubnetField(env, address + "/" + scope).address.Some?
  {
    hide ParseIp, ParseUint, IndexOf;
    if '/' !in text {
      assert IndexOf(text, '/') == |text|;
    }
    if '/' !in address {
      IndexOfAppend(address, '/', scope);
      var s := address + ['/'] + scope;
      assert s == address + "/" + scope && s[..|address|] == address && s[|address| + 1..] == scope;
    }
  }

  // ----- through the whole message --------------------------------------------------------------

  lemma {:induction false} LastSubnetWins(env: Env, front: seq<EdnsOption>, s: Subnet, rest: seq<EdnsOption>, before: string)
    requires forall i :: 0 <= i < |rest| ==> rest[i].OtherOption?
    ensures OptionsText(env, front + [SubnetOption(s)] + rest, before) == SubnetText(env, s)
  {
    hide SubnetText;
    var all := front + [SubnetOption(s)] + rest;
    if rest == [] {
    } else {
      var init := rest[..|rest| - 1];
      assert all[..|all| - 1] == front + [SubnetOption(s)] + init;
      LastSubnetWins(env, front, s, init, before);
    }
  }

  lemma {:induction false} SubnetOverRecords(env: Env, front: seq<RR>, records: seq<RR>)
    requires forall i :: 0 <= i < |records| ==> records[i].Record?
    ensures SubnetAfter(env, front + records) == SubnetAfter(env, front)
  {
    hide OptionsText;
    if records == [] {
      assert front + records == front;
    } else {
      var init := records[..|records| - 1];
      assert (front + records)[..|front + records| - 1] == front + init;
      SubnetOverRecords(env, front, init);
    }
  }

  /** A message with one OPT record that carries a subnet option: after JSON the fresh OPT has one
      subnet option with the same address, scope and family. A missing address comes back as
      0.0.0.0, so the address is recovered exactly when there was one. */
  lemma SubnetSurvives(env: Env, msg: Msg, before: seq<RR>, opt: RR, after: seq<RR>,
                       front: seq<EdnsOption>, s: Subnet, rest: seq<EdnsOption>, now: int, udpSize: nat, netmask: Byte)
    requires msg.extra == before + [opt] + after && opt.Opt? && opt.options == front + [SubnetOption(s)] + rest
    requires forall i :: 0 <= i < |after| ==> after[i].Record?
    requires forall i :: 0 <= i < |rest| ==> rest[i].OtherOption?
    requires ValidEnv(env) && IsIp(ShownAddress(s))
    ensures var fresh', a := FreshOpt(env, Marshalled(env, msg, now), udpSize, netmask), ShownAddress(s);
      fresh'.options ==
      [if To4(a).Some? then SubnetOption(Subnet(1, if netmask == 255 then 24 else netmask, s.scope, To4(a)))
       else SubnetOption(Subnet(2, if netmask == 255 then 56 else netmask, s.scope, Some(a)))]
  {
    SubnetOverRecords(env, before + [opt], after);
    assert (before + [opt])[..|before|] == before;
    hide StatusAfter, MarshalAll, Counted, NonOpt, Least, ParseSubnetField, SubnetText, OptionsText, To4, OptFlags, ValidEnv;
    assert SubnetAfter(env, before + [opt]) == OptionsText(env, opt.options, SubnetAfter(env, before));
    LastSubnetWins(env, front, s, rest, SubnetAfter(env, before));
    assert Marshalled(env, msg, now).subnet == SubnetText(env, s);
    FieldRoundTrip(env, s);
  }
}
