/** DNS messages, and the library pieces the repository leans on, kept abstract where unseen. */
module Dns {
  import opened Text
  import opened GlobalIp

  datatype Subnet = Subnet(family: nat, netmask: Byte, scope: Byte, address: Option<Address>)

  datatype EdnsOption = SubnetOption(subnet: Subnet) | OtherOption(code: nat)

  const TYPE_OPT: nat := 41
  const U32: nat := 0x1_0000_0000
  const SERVFAIL: bv32 := 2
  const FORMERR: bv32 := 1

  /** The numbers of section 4.1.1 of RFC 1035 and section 6.1.1 of RFC 6891. */
  lemma ProtocolNumbers()
    ensures FORMERR == 1 && SERVFAIL == 2 && TYPE_OPT == 41
  {
  }

  /** An OPT record reuses the TTL field for flags; its top byte extends the response code. */
  datatype RR =
    | Record(name: string, rtype: nat, cls: string, ttl: nat, data: string)
    | Opt(name: string, udpSize: nat, flags: bv32, options: seq<EdnsOption>)
  {
    function Ttl(): nat { if Opt? then flags as nat else ttl }
    function Type(): nat { if Opt? then TYPE_OPT else rtype }
  }

  datatype Question = Question(name: string, qtype: nat)

  datatype Msg = Msg(
    id: nat, response: bool, opcode: nat, authoritative: bool, truncated: bool,
    rd: bool, ra: bool, ad: bool, cd: bool, rcode: bv32,
    question: seq<Question>, answer: seq<RR>, ns: seq<RR>, extra: seq<RR>)

  /** What the unseen libraries provide: the type tables both ways, the parser of record data
      (giving the text of what it parsed), and IPv6 text. */
  datatype Env = Env(
    types: map<nat, string>,
    typeOf: map<string, nat>,
    rdata: (nat, string) -> Option<string>,
    print6: Address -> string,
    parse6: string -> Option<Address>)

  /** The unseen wire codec. */
  datatype Wire = Wire(pack: Msg -> Option<seq<Byte>>, unpack: seq<Byte> -> Option<Msg>)

  function Truncate(m: Msg): Msg { m.(truncated := true) }

  /** The first two bytes of a packed message are its ID, and the truncation flag is one bit of the
      twelve-byte header: setting it changes no length. */
  ghost predicate ValidWire(w: Wire)
  {
    && (forall m: Msg :: w.pack(m).Some? ==>
          |w.pack(m).value| >= 12 && w.pack(m).value[0] as nat * 256 + w.pack(m).value[1] as nat == m.id)
    && (forall m: Msg :: w.pack(m).Some? && w.pack(Truncate(m)).Some? ==>
          |w.pack(Truncate(m)).value| == |w.pack(m).value|)
  }

  // ----- record text ----------------------------------------------------------------------------

  /** The three-digit escape of a byte. */
  function Escape(v: nat): string { ['\\', DigitChar(v / 100 % 10), DigitChar(v / 10 % 10), DigitChar(v % 10)] }

  /** Presentation of a name: bytes outside the printable range are escaped. */
  function Printed(name: string): string
  {
    if name == [] then []
    else (if ' ' <= name[0] <= '~' then [name[0]] else Escape(name[0] as nat)) + Printed(name[1..])
  }

  function TypeText(env: Env, t: nat): string { if t in env.types then env.types[t] else "TYPE" + Decimal(t) }

  /** RR.String: four tab-separated header fields, then the data, which may hold tabs itself. */
  function RrText(env: Env, rr: RR): string
  {
    if rr.Opt? then "\n;; OPT PSEUDOSECTION:"
    else Printed(rr.name) + "\t" + (Decimal(rr.ttl) + "\t" + (rr.cls + "\t" + (TypeText(env, rr.rtype) + "\t" + rr.data)))
  }

  /** The type a mnemonic stands for: looked up in upper case, which not every mnemonic of the table
      is written in ("None" and "Reserved" are never found). */
  function TypeNamed(env: Env, text: string): Option<nat>
  {
    if Upper(text) in env.typeOf then Some(env.typeOf[Upper(text)]) else None
  }

  /** Type mnemonics are plain words and no numerals, and what is found is the type itself; IPv6 text
      is hexadecimal groups and colons and parses back. */
  ghost predicate ValidEnv(env: Env)
  {
    && (forall t :: t in env.types ==> ' ' !in env.types[t] && '\t' !in env.types[t] && !AllDigits(env.types[t]))
    && (forall t :: t in env.types && TypeNamed(env, env.types[t]).Some? ==> TypeNamed(env, env.types[t]).value == t)
    && (forall a: Address :: |a| == 16 && To4(a).None? ==> GroupText(env.print6(a)) && env.parse6(env.print6(a)) == Some(a))
  }

  predicate IsHex(c: char) { IsDigit(c) || 'a' <= c <= 'f' }

  predicate GroupText(s: string) { ':' in s && forall i :: 0 <= i < |s| ==> IsHex(s[i]) || s[i] == ':' }

  lemma {:induction false} PrintedHasNoTab(name: string)
    ensures '\t' !in Printed(name)
  {
    if name == [] {
    } else {
      PrintedHasNoTab(name[1..]);
      assert '\t' !in Escape(name[0] as nat);
    }
  }

  lemma DigitsHaveNo(s: string, c: char)
    requires AllDigits(s) && !IsDigit(c)
    ensures c !in s
  {
  }

  // ----- IPv4 text --------------------------------------------------------------------------------

  /** net.IP.String for the 4-byte form. */
  function Dotted(a: Address): string
    requires |a| == 4
  {
    Decimal(a[0]) + "." + (Decimal(a[1]) + "." + (Decimal(a[2]) + "." + Decimal(a[3])))
  }

  function IpText(env: Env, a: Address): string { if To4(a).Some? then Dotted(To4(a).value) else env.print6(a) }

  function ParseOctets(pieces: seq<string>): (r: Option<Address>)
    ensures r.Some? ==> |r.value| == |pieces|
  {
    if pieces == [] then Some([])
    else
      var head := ParseUint(pieces[0], 256);
      var tail := ParseOctets(pieces[1..]);
      if head.Some? && tail.Some? then Some([head.value] + tail.value) else None
  }

  function Mapped(v4: Address): Address { seq(10, i => 0) + [255, 255] + v4 }

  /** net.ParseIP: the first '.' or ':' decides the form; IPv4 comes back in 16 bytes. */
  function ParseIp(env: Env, s: string): Option<Address>
  {
    var dot, colon := IndexOf(s, '.'), IndexOf(s, ':');
    if dot < |s| && dot < colon then
      var octets := ParseOctets(Split(s, '.'));
      if |Split(s, '.')| == 4 && octets.Some? then Some(Mapped(octets.value)) else None
    else if colon < |s| then env.parse6(s)
    else None
  }

  /** The first colon or dot decides: an IPv6 text may end in dotted groups. Without either there is no
      address. */
  lemma ColonFirst(env: Env, s: string)
    ensures IndexOf(s, ':') < |s| && IndexOf(s, ':') < IndexOf(s, '.') ==> ParseIp(env, s) == env.parse6(s)
    ensures ':' !in s && '.' !in s ==> ParseIp(env, s) == None
  {
    hide IndexOf, Split, ParseOctets;
  }

  lemma To4OfMapped(v4: Address)
    requires |v4| == 4
    ensures To4(Mapped(v4)) == Some(v4)
  {
    assert Mapped(v4)[12..] == v4;
  }

  lemma SplitDot(a: string, b: string)
    requires '.' !in a
    ensures Split(a + "." + b, '.') == [a] + Split(b, '.')
  {
    IndexOfAppend(a, '.', b);
    var s := a + ['.'] + b;
    assert s == a + "." + b && s[..|a|] == a && s[|a| + 1..] == b;
  }

  lemma SplitDotted(a: Address)
    requires |a| == 4
    ensures Split(Dotted(a), '.') == [Decimal(a[0]), Decimal(a[1]), Decimal(a[2]), Decimal(a[3])]
  {
    hide Split, Decimal;
    DigitsHaveNo(Decimal(a[0]), '.');
    DigitsHaveNo(Decimal(a[1]), '.');
    DigitsHaveNo(Decimal(a[2]), '.');
    var d2 := Decimal(a[2]) + "." + Decimal(a[3]);
    var d1 := Decimal(a[1]) + "." + d2;
    SplitDot(Decimal(a[0]), d1);
    SplitDot(Decimal(a[1]), d2);
    SplitDot(Decimal(a[2]), Decimal(a[3]));
    SplitLast(Decimal(a[3]));
  }

  lemma SplitLast(s: string)
    requires AllDigits(s)
    ensures Split(s, '.') == [s]
  {
    DigitsHaveNo(s, '.');
    assert IndexOf(s, '.') == |s|;
  }

  lemma OctetRoundTrip(b: Byte)
    ensures ParseUint(Decimal(b), 256) == Some(b)
  {
    DecimalRoundTrip(b);
  }

  lemma OctetsCons(x: Byte, pieces: seq<string>, tail: Address)
    requires ParseOctets(pieces) == Some(tail)
    ensures ParseOctets([Decimal(x)] + pieces) == Some([x] + tail)
  {
    hide ParseUint, Decimal;
    OctetRoundTrip(x);
    assert ([Decimal(x)] + pieces)[1..] == pieces;
  }

  lemma OctetsRoundTrip(a: Address)
    requires |a| == 4
    ensures ParseOctets([Decimal(a[0]), Decimal(a[1]), Decimal(a[2]), Decimal(a[3])]) == Some(a)
  {
    hide ParseOctets, Decimal;
    assert ParseOctets([]) == Some([]) by { OctetsNil(); }
    var t3, t2, t1 := [Decimal(a[3])] + [], [Decimal(a[2])] + [Decimal(a[3])], [Decimal(a[1])] + [Decimal(a[2]), Decimal(a[3])];
    OctetsCons(a[3], [], []);
    assert t3 == [Decimal(a[3])] && [a[3]] + [] == [a[3]];
    OctetsCons(a[2], t3, [a[3]]);
    assert t2 == [Decimal(a[2]), Decimal(a[3])] && [a[2]] + [a[3]] == [a[2], a[3]];
    OctetsCons(a[1], t2, [a[2], a[3]]);
    assert t1 == [Decimal(a[1]), Decimal(a[2]), Decimal(a[3])] && [a[1]] + [a[2], a[3]] == [a[1], a[2], a[3]];
    OctetsCons(a[0], t1, [a[1], a[2], a[3]]);
    assert a == [a[0]] + [a[1], a[2], a[3]];
    assert [Decimal(a[0])] + t1 == [Decimal(a[0]), Decimal(a[1]), Decimal(a[2]), Decimal(a[3])];
  }

  lemma OctetsNil()
    ensures ParseOctets([]) == Some([])
  {
  }

  lemma DottedChars(a: Address)
    requires |a| == 4
    ensures forall i :: 0 <= i < |Dotted(a)| ==> IsDigit(Dotted(a)[i]) || Dotted(a)[i] == '.'
    ensures '.' in Dotted(a)
  {
    hide Decimal;
    assert Dotted(a)[|Decimal(a[0])|] == '.';
  }

  /** Dotted decimal parses back to the same address. */
  lemma ParseDotted(env: Env, a: Address)
    requires |a| == 4
    ensures ParseIp(env, Dotted(a)) == Some(Mapped(a))
  {
    DottedChars(a);
    SplitDotted(a);
    OctetsRoundTrip(a);
    hide Split, Decimal, Dotted, ParseOctets;
    assert ':' !in Dotted(a);
  }
}
