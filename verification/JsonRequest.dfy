/** The JSON query: what the client writes into the URL and what the server reads from it. */
module JsonRequest {
  import opened Text
  import opened Http
  import opened GlobalIp
  import opened Dns
  import opened Subnets

  // ----- the client -------------------------------------------------------------------------------

  /** The Accept header of the client's JSON request. */
  const JSON_ACCEPT := JSON + "," + " application/dns-message, application/dns-udpwireformat"

  /** Unlike record text, the type parameter of an unknown type is a bare number. */
  function TypeParam(env: Env, t: nat): string { if t in env.types then env.types[t] else Decimal(t) }

  function NamedUrl(env: Env, upstream: string, q: Question): string
  {
    Head(upstream, DNS_JSON) + "&" + ("name" + "=" + Escaped(q.name)) + "&" + ("type" + "=" + Escaped(TypeParam(env, q.qtype)))
  }

  function CheckedUrl(env: Env, upstream: string, q: Question, cd: bool): string
  {
    var url := NamedUrl(env, upstream, q);
    if cd then url + "&" + ("cd" + "=" + "1") else url
  }

  /** generateRequestGoogle; `client` is what findClientIP gives. */
  function JsonUrl(env: Env, upstream: string, q: Question, cd: bool, client: (Option<Address>, Byte)): string
  {
    var url := CheckedUrl(env, upstream, q, cd);
    if client.0.None? then url
    else url + "&" + ("edns_client_subnet" + "=" + SubnetParam(env, client.0.value, client.1))
  }

  function JsonGet(env: Env, upstream: string, q: Question, cd: bool, client: (Option<Address>, Byte)): (r: HttpRequest)
    ensures !r.post && r.contentType == "" && r.body == []
  {
    HttpRequest(false, JsonUrl(env, upstream, q, cd, client), "", JSON_ACCEPT, [])
  }

  // ----- the server -------------------------------------------------------------------------------

  function TypeArg(env: Env, text: string): Option<nat>
  {
    if text == "" then Some(1)
    else if ParseUint(text, 0x1_0000).Some? then ParseUint(text, 0x1_0000)
    else TypeNamed(env, text)
  }

  function CdArg(text: string): Option<bool>
  {
    if text == "1" || text == "true" then Some(true)
    else if text == "0" || text == "false" || text == "" then Some(false)
    else None
  }

  /** The query that goes upstream: one question, recursion desired, EDNS with the DO bit. */
  function JsonMsg(id: nat, name: string, t: nat, cd: bool, address: Option<Address>, family: nat, netmask: Byte): Msg
  {
    var options := if address.None? then [] else [SubnetOption(Subnet(family, netmask, 0, address))];
    Msg(id, false, 0, false, false, true, false, false, cd, 0,
      [Question(Fqdn(name), t)], [], [], [Opt(".", 4096, 0x8000, options)])
  }

  /** parseRequestGoogle: the query, or nothing for the status 400. `idna` is the punycode
      conversion. */
  function ParseArgs(env: Env, idna: string -> Option<string>, req: HttpRequest, id: nat, peer: Option<Address>): Option<Msg>
  {
    var name := FormValue(req, "name");
    var t, cd := TypeArg(env, FormValue(req, "type")), CdArg(FormValue(req, "cd"));
    var subnet := ParseSubnetArg(env, FormValue(req, "edns_client_subnet"), peer);
    if name == "" || idna(name).None? || t.None? || cd.None? || subnet.BadArgument? then None
    else Some(JsonMsg(id, idna(name).value, t.value, cd.value, subnet.address, subnet.family, subnet.netmask))
  }

  /** Every accepted JSON query goes upstream as a standard query for one absolute name, with recursion
      desired and the DO bit set, and with the subnet, if any, as its only option. */
  lemma QueryAsks(env: Env, idna: string -> Option<string>, req: HttpRequest, id: nat, peer: Option<Address>)
    requires ParseArgs(env, idna, req, id, peer).Some?
    ensures var m := ParseArgs(env, idna, req, id, peer).value;
      var subnet := ParseSubnetArg(env, FormValue(req, "edns_client_subnet"), peer);
      && m.id == id && m.opcode == 0 && !m.response && m.rd && m.rcode == 0 && m.answer == [] && m.ns == []
      && !m.authoritative && !m.truncated && !m.ra && !m.ad
      && |m.question| == 1 && m.question[0].name != "" && m.question[0].name[|m.question[0].name| - 1] == '.'
      && Some(m.question[0].qtype) == TypeArg(env, FormValue(req, "type"))
      && Some(m.cd) == CdArg(FormValue(req, "cd"))
      && subnet.Arg?
      && m.extra == [Opt(".", 4096, 0x8000,
           if subnet.address.Some? then [SubnetOption(Subnet(subnet.family, subnet.netmask, 0, subnet.address))] else [])]
  {
    hide FormValue, TypeArg, CdArg, ParseSubnetArg;
  }

  /** The type is found in any letter case; a number stands for itself; nothing means an address. */
  lemma TypeForms(env: Env, text: string, mnemonic: string, t: nat)
    requires SameLetters(text, mnemonic) && forall i :: 0 <= i < |mnemonic| ==> !('a' <= mnemonic[i] <= 'z')
    ensures TypeNamed(env, text) == if mnemonic in env.typeOf then Some(env.typeOf[mnemonic]) else None
    ensures TypeArg(env, "") == Some(1)
    ensures t < 0x1_0000 ==> TypeArg(env, Decimal(t)) == Some(t)
  {
    FoldingMeets(text, mnemonic);
    NoSmallLetters(mnemonic);
    DecimalRoundTrip(t);
    hide Decimal, Upper, SameLetters;
  }

  // ----- the type parameter -------------------------------------------------------------------------

  /** Known types are found under their upper-case mnemonic only. */
  predicate TypeArrives(env: Env, t: nat) { t !in env.types || TypeNamed(env, env.types[t]).Some? }

  lemma TypeArrivesIff(env: Env, t: nat)
    requires ValidEnv(env) && t < 0x1_0000
    ensures TypeArg(env, TypeParam(env, t)) == if TypeArrives(env, t) then Some(t) else None
  {
    if t in env.types {
      assert !AllDigits(env.types[t]);
    } else {
      DecimalRoundTrip(t);
      hide Decimal;
    }
  }

  // ----- the form of the URL ------------------------------------------------------------------------

  predicate KeyChar(c: char) { 'a' <= c <= 'z' || c == '_' }

  lemma KeyIsPlain(key: string)
    requires key != "" && forall i :: 0 <= i < |key| ==> KeyChar(key[i])
    ensures PlainKey(key)
  {
  }

  lemma KeysArePlain()
    ensures PlainKey("name") && PlainKey("type") && PlainKey("cd") && PlainKey("edns_client_subnet")
  {
    hide PlainKey;
    KeyIsPlain("name");
    KeyIsPlain("type");
    KeyIsPlain("cd");
    KeyIsPlain("edns_client_subnet");
  }

  lemma EscapedIsWhole(s: string)
    ensures Whole(Escaped(s))
  {
    hide Escaped;
    assert forall i :: 0 <= i < |Escaped(s)| ==> Escaped(s)[i] != '#' && Escaped(s)[i] != '&' && Escaped(s)[i] != ';';
  }

  lemma SubnetIsWhole(env: Env, address: Address, netmask: Byte)
    requires ValidEnv(env) && IsIp(address)
    ensures var text := SubnetParam(env, address, netmask); Whole(text) && Unescaped(text) == Some(text)
  {
    var text := SubnetParam(env, address, netmask);
    AddressText(env, address);
    hide IpText, Decimal, ParseIp, ValidEnv, Unescaped, AddressChar;
    DigitsAreAddressChars(netmask);
    assert forall i :: 0 <= i < |text| ==> AddressChar(text[i]) || text[i] == '/';
    AddressCharsAreWhole(text);
    NothingToUnescape(text);
  }

  lemma DigitsAreAddressChars(n: nat)
    ensures forall i :: 0 <= i < |Decimal(n)| ==> AddressChar(Decimal(n)[i])
  {
    hide Decimal;
  }

  lemma AddressCharsAreWhole(text: string)
    requires forall i :: 0 <= i < |text| ==> AddressChar(text[i]) || text[i] == '/'
    ensures Whole(text) && '%' !in text && '+' !in text
  {
  }

  /** The field the client writes under each key. */
  function Written(env: Env, q: Question, cd: bool, client: (Option<Address>, Byte), k: string): Option<string>
  {
    if k == "name" then Some(q.name)
    else if k == "type" then Some(TypeParam(env, q.qtype))
    else if k == "cd" && cd then Some("1")
    else if k == "edns_client_subnet" && client.0.Some? then Some(SubnetParam(env, client.0.value, client.1))
    else None
  }

  ghost predicate Writable(env: Env, q: Question, client: (Option<Address>, Byte))
  {
    && ValidEnv(env) && IsBytes(q.name) && IsBytes(TypeParam(env, q.qtype)) && q.qtype < 0x1_0000
    && (client.0.Some? ==> IsIp(client.0.value))
  }

  lemma NamedForm(env: Env, upstream: string, q: Question, k: string)
    requires IsBytes(q.name) && IsBytes(TypeParam(env, q.qtype)) && '#' !in upstream
    ensures var head, url := Head(upstream, DNS_JSON), NamedUrl(env, upstream, q);
      && '?' in url && '#' !in url
      && FormField(url, k) ==
         if FormField(head, k).Some? then FormField(head, k)
         else if k == "name" then Some(q.name) else if k == "type" then Some(TypeParam(env, q.qtype)) else None
  {
    MediaArePlain();
    HeadChars(upstream, DNS_JSON);
    hide FormField, Head, DNS_JSON, Escaped, TypeParam, Unescaped, PlainMedia, PlainKey;
    KeysArePlain();
    var head, name, t := Head(upstream, DNS_JSON), Escaped(q.name), Escaped(TypeParam(env, q.qtype));
    EscapedIsWhole(q.name);
    EscapedIsWhole(TypeParam(env, q.qtype));
    EscapeRoundTrip(q.name);
    EscapeRoundTrip(TypeParam(env, q.qtype));
    var url1 := head + "&" + ("name" + "=" + name);
    UrlGrows(head, "name", name);
    UrlGrows(url1, "type", t);
    FieldAppended(head, "name", name, k);
    FieldAppended(url1, "type", t, k);
  }

  lemma UrlGrows(url: string, key: string, value: string)
    requires '?' in url && '#' !in url && PlainKey(key) && Whole(value)
    ensures var more := url + "&" + (key + "=" + value); '?' in more && '#' !in more
  {
    var i :| 0 <= i < |url| && url[i] == '?';
    assert (url + "&" + (key + "=" + value))[i] == '?';
  }

  /** What the server's form sees, for every upstream without a fragment: the upstream's own field of
      that name, and only without one the field the client wrote. */
  lemma FormOfJsonUrl(env: Env, upstream: string, q: Question, cd: bool, client: (Option<Address>, Byte), k: string)
    requires Writable(env, q, client) && '#' !in upstream
    ensures FormField(JsonUrl(env, upstream, q, cd, client), k) ==
      if FormField(Head(upstream, DNS_JSON), k).Some? then FormField(Head(upstream, DNS_JSON), k)
      else Written(env, q, cd, client, k)
  {
    hide FormField, Head, DNS_JSON, TypeParam, Unescaped, PlainKey, NamedUrl, SubnetParam, ValidEnv;
    KeysArePlain();
    NamedForm(env, upstream, q, k);
    var url := NamedUrl(env, upstream, q);
    if cd {
      NothingToUnescape("1");
      UrlGrows(url, "cd", "1");
      FieldAppended(url, "cd", "1", k);
    }
    if client.0.Some? {
      SubnetIsWhole(env, client.0.value, client.1);
      FieldAppended(CheckedUrl(env, upstream, q, cd), "edns_client_subnet", SubnetParam(env, client.0.value, client.1), k);
    }
  }

  // ----- arrival ------------------------------------------------------------------------------------

  predicate Brings(upstream: string, k: string) { FormField(Head(upstream, DNS_JSON), k).Some? }

  /** An upstream URL that brings neither a fragment nor a field the JSON parser looks at. */
  predicate JsonHarmless(upstream: string)
  {
    && '#' !in upstream
    && !Brings(upstream, "name") && !Brings(upstream, "type") && !Brings(upstream, "cd")
    && !Brings(upstream, "edns_client_subnet")
    && FormField(Head(upstream, DNS_JSON), "ct") == Some(DNS_JSON)
  }

  lemma PlainIsJsonHarmless(upstream: string)
    requires '?' !in upstream && '#' !in upstream
    ensures JsonHarmless(upstream)
  {
    MediaArePlain();
    hide FormField, Head, DNS_JSON, PlainMedia;
    forall k ensures FormField(Head(upstream, DNS_JSON), k) == if k == "ct" then Some(DNS_JSON) else None {
      PlainHead(upstream, DNS_JSON, k);
    }
  }

  lemma JsonValues(env: Env, upstream: string, q: Question, cd: bool, client: (Option<Address>, Byte), k: string)
    requires Writable(env, q, client) && JsonHarmless(upstream)
    requires k == "name" || k == "type" || k == "cd" || k == "edns_client_subnet"
    ensures FormValue(JsonGet(env, upstream, q, cd, client), k) ==
      var w := Written(env, q, cd, client, k); if w.Some? then w.value else ""
  {
    hide FormField, Head, DNS_JSON, JsonUrl, Written, IsForm, Writable;
    FormOfJsonUrl(env, upstream, q, cd, client, k);
  }

  /** The subnet the server ends up with: the one the client announced, else the peer's block. */
  function Said(client: (Option<Address>, Byte), peer: Option<Address>): (r: SubnetArg)
    ensures r.Arg?
  {
    if client.0.Some? then WithFamily(client.0.value, Some(client.1))
    else if peer.Some? then WithFamily(peer.value, None)
    else Arg(None, 0, 0)
  }

  /** What arrives of the client's query: the converted name, the type, the checking flag and the
      subnet. The server refuses exactly an empty or inconvertible name and a type whose mnemonic it
      cannot find. */
  lemma QueryArrives(env: Env, idna: string -> Option<string>, upstream: string, q: Question, cd: bool,
                     client: (Option<Address>, Byte), id: nat, peer: Option<Address>)
    requires Writable(env, q, client) && JsonHarmless(upstream)
    ensures RequestType(JsonGet(env, upstream, q, cd, client)) == DNS_JSON
    ensures ParseArgs(env, idna, JsonGet(env, upstream, q, cd, client), id, peer) ==
      if q.name == "" || idna(q.name).None? || !TypeArrives(env, q.qtype) then None
      else
        var said := Said(client, peer);
        Some(JsonMsg(id, idna(q.name).value, q.qtype, cd, said.address, said.family, said.netmask))
  {
    TypeSeen(env, upstream, q, cd, client);
    ValuesSeen(env, upstream, q, cd, client);
    TypeArrivesIff(env, q.qtype);
    CdSeen(cd);
    SubnetSeen(env, client, peer);
    hide FormField, Head, DNS_JSON, JsonGet, FormValue, JsonHarmless, TypeParam, TypeArg, TypeArrives, JsonMsg, ValidEnv,
      ParseSubnetArg, SubnetParam, RequestType, CdArg, Said, SubnetField;
  }

  /** The parameter the client writes for the subnet, if any. */
  function SubnetField(env: Env, client: (Option<Address>, Byte)): string
  {
    if client.0.Some? then SubnetParam(env, client.0.value, client.1) else ""
  }

  lemma ValuesSeen(env: Env, upstream: string, q: Question, cd: bool, client: (Option<Address>, Byte))
    requires Writable(env, q, client) && JsonHarmless(upstream)
    ensures var req := JsonGet(env, upstream, q, cd, client);
      && FormValue(req, "name") == q.name && FormValue(req, "type") == TypeParam(env, q.qtype)
      && FormValue(req, "cd") == (if cd then "1" else "")
      && FormValue(req, "edns_client_subnet") == SubnetField(env, client)
  {
    JsonValues(env, upstream, q, cd, client, "name");
    JsonValues(env, upstream, q, cd, client, "type");
    JsonValues(env, upstream, q, cd, client, "cd");
    JsonValues(env, upstream, q, cd, client, "edns_client_subnet");
    hide JsonGet, FormValue, JsonHarmless, TypeParam, SubnetParam, Writable;
  }

  lemma CdForms()
    ensures CdArg("1") == CdArg("true") == Some(true) && CdArg("0") == CdArg("false") == CdArg("") == Some(false)
    ensures CdArg("2") == None
  {
    assert "1"[0] == '1' && "true"[0] == 't' && "0"[0] == '0' && "false"[0] == 'f' && "2"[0] == '2';
  }

  lemma CdSeen(cd: bool)
    ensures CdArg(if cd then "1" else "") == Some(cd)
  {
    assert "1"[0] == '1' && "true"[0] == 't' && "0"[0] == '0' && "false"[0] == 'f';
  }

  lemma TypeSeen(env: Env, upstream: string, q: Question, cd: bool, client: (Option<Address>, Byte))
    requires Writable(env, q, client) && JsonHarmless(upstream)
    ensures RequestType(JsonGet(env, upstream, q, cd, client)) == DNS_JSON
  {
    FormOfJsonUrl(env, upstream, q, cd, client, "ct");
    hide FormField, Head, JsonUrl, Written, IsForm, Writable;
  }

  lemma SubnetSeen(env: Env, client: (Option<Address>, Byte), peer: Option<Address>)
    requires ValidEnv(env) && (client.0.Some? ==> IsIp(client.0.value))
    ensures ParseSubnetArg(env, SubnetField(env, client), peer) == Said(client, peer)
  {
    hide ParseBlock, SubnetParam, ValidEnv;
    if client.0.Some? {
      hide ParseSubnetArg;
      ParamRoundTrip(env, client.0.value, client.1, peer);
    }
  }
}
