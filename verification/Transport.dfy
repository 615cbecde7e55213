/** Carriage of the packed query: unpadded base64url in a GET, or a POST body. */
module Transport {
  import opened Text
  import opened Http

  // ----- base64url without padding (section 5 of RFC 4648) -----------------------------------

  function Symbol(v: nat): (c: char)
    requires v < 64
  {
    if v < 26 then ('A' as int + v) as char
    else if v < 52 then ('a' as int + (v - 26)) as char
    else if v < 62 then ('0' as int + (v - 52)) as char
    else if v == 62 then '-' else '_'
  }

  function SymbolValue(c: char): (v: Option<nat>)
    ensures v.Some? ==> v.value < 64
  {
    if 'A' <= c <= 'Z' then Some(c as int - 'A' as int)
    else if 'a' <= c <= 'z' then Some(c as int - 'a' as int + 26)
    else if '0' <= c <= '9' then Some(c as int - '0' as int + 52)
    else if c == '-' then Some(62) else if c == '_' then Some(63) else None
  }

  function EncodeBase64(b: seq<Byte>): string
  {
    if b == [] then []
    else if |b| == 1 then [Symbol(b[0] / 4), Symbol(b[0] % 4 * 16)]
    else if |b| == 2 then [Symbol(b[0] / 4), Symbol(b[0] % 4 * 16 + b[1] / 16), Symbol(b[1] % 16 * 4)]
    else [Symbol(b[0] / 4), Symbol(b[0] % 4 * 16 + b[1] / 16), Symbol(b[1] % 16 * 4 + b[2] / 64), Symbol(b[2] % 64)]
         + EncodeBase64(b[3..])
  }

  function WithoutNewlines(s: string): string
  {
    if s == [] then [] else (if s[0] == '\r' || s[0] == '\n' then [] else [s[0]]) + WithoutNewlines(s[1..])
  }

  function Quad(v0: nat, v1: nat, v2: nat, v3: nat): seq<Byte>
    requires v0 < 64 && v1 < 64 && v2 < 64 && v3 < 64
  {
    [v0 * 4 + v1 / 16, v1 % 16 * 16 + v2 / 4, v2 % 4 * 64 + v3]
  }

  function DecodeSymbols(s: string): (r: Option<seq<Byte>>)
    decreases |s|
  {
    if s == [] then Some([])
    else if |s| == 1 || SymbolValue(s[0]).None? || SymbolValue(s[1]).None? then None
    else
      var v0, v1 := SymbolValue(s[0]).value, SymbolValue(s[1]).value;
      if |s| == 2 then Some(Quad(v0, v1, 0, 0)[..1])
      else if SymbolValue(s[2]).None? then None
      else
        var v2 := SymbolValue(s[2]).value;
        if |s| == 3 then Some(Quad(v0, v1, v2, 0)[..2])
        else if SymbolValue(s[3]).None? || DecodeSymbols(s[4..]).None? then None
        else Some(Quad(v0, v1, v2, SymbolValue(s[3]).value) + DecodeSymbols(s[4..]).value)
  }

  /** RawURLEncoding.DecodeString: line breaks are skipped, trailing bits are not checked. */
  function DecodeBase64(s: string): Option<seq<Byte>> { DecodeSymbols(WithoutNewlines(s)) }

  lemma SymbolRoundTrip(v: nat)
    requires v < 64
    ensures SymbolValue(Symbol(v)) == Some(v)
  {
  }

  lemma QuadRoundTrip(a: Byte, b: Byte, c: Byte)
    ensures Quad(a / 4, a % 4 * 16 + b / 16, b % 16 * 4 + c / 64, c % 64) == [a, b, c]
  {
  }

  lemma {:induction false} SymbolsRoundTrip(b: seq<Byte>)
    ensures DecodeSymbols(EncodeBase64(b)) == Some(b)
    decreases |b|
  {
    if |b| <= 2 {
      ShortRoundTrip(b);
    } else {
      SymbolsRoundTrip(b[3..]);
      QuadThenRest(b);
    }
  }

  lemma {:induction false} ShortRoundTrip(b: seq<Byte>)
    requires |b| <= 2
    ensures DecodeSymbols(EncodeBase64(b)) == Some(b)
  {
    hide Symbol, SymbolValue;
    forall v: nat | v < 64 ensures SymbolValue(Symbol(v)) == Some(v) { SymbolRoundTrip(v); }
    if |b| == 1 {
      QuadRoundTrip(b[0], 0, 0);
      assert Quad(b[0] / 4, b[0] % 4 * 16, 0, 0)[..1] == b;
    } else if |b| == 2 {
      QuadRoundTrip(b[0], b[1], 0);
      assert Quad(b[0] / 4, b[0] % 4 * 16 + b[1] / 16, b[1] % 16 * 4, 0)[..2] == b;
    }
  }

  lemma {:induction false} QuadThenRest(b: seq<Byte>)
    requires |b| > 2 && DecodeSymbols(EncodeBase64(b[3..])) == Some(b[3..])
    ensures DecodeSymbols(EncodeBase64(b)) == Some(b)
  {
    var v0, v1, v2, v3 := b[0] / 4, b[0] % 4 * 16 + b[1] / 16, b[1] % 16 * 4 + b[2] / 64, b[2] % 64;
    SymbolRoundTrip(v0);
    SymbolRoundTrip(v1);
    SymbolRoundTrip(v2);
    SymbolRoundTrip(v3);
    QuadRoundTrip(b[0], b[1], b[2]);
    hide Symbol, SymbolValue, Quad;
    var s := EncodeBase64(b);
    assert s == [Symbol(v0), Symbol(v1), Symbol(v2), Symbol(v3)] + EncodeBase64(b[3..]);
    assert s[4..] == EncodeBase64(b[3..]);
    assert b == [b[0], b[1], b[2]] + b[3..];
  }

  /** Only alphabet characters: nothing that a query string or the decoder treats specially. */
  lemma {:induction false} EncodedAlphabet(b: seq<Byte>)
    ensures forall i :: 0 <= i < |EncodeBase64(b)| ==> SymbolValue(EncodeBase64(b)[i]).Some?
    decreases |b|
  {
    hide Symbol, SymbolValue;
    forall v: nat | v < 64 ensures SymbolValue(Symbol(v)) == Some(v) { SymbolRoundTrip(v); }
    if |b| <= 2 {
    } else {
      EncodedAlphabet(b[3..]);
    }
  }

  lemma {:induction false} NothingToSkip(s: string)
    requires forall i :: 0 <= i < |s| ==> SymbolValue(s[i]).Some?
    ensures WithoutNewlines(s) == s
  {
    if s == [] {
    } else {
      NothingToSkip(s[1..]);
      assert s == [s[0]] + s[1..];
    }
  }

  /** Line breaks anywhere in the text are passed over. */
  lemma {:induction false} LineBreaksSkipped(a: string, c: char, b: string)
    requires c == '\r' || c == '\n'
    ensures WithoutNewlines(a + [c] + b) == WithoutNewlines(a + b)
    ensures DecodeBase64(a + [c] + b) == DecodeBase64(a + b)
  {
    hide DecodeSymbols;
    if a == [] {
      assert a + [c] + b == [c] + b && a + b == b;
    } else {
      LineBreaksSkipped(a[1..], c, b);
      assert (a + [c] + b)[1..] == a[1..] + [c] + b && (a + b)[1..] == a[1..] + b;
    }
  }

  lemma Base64RoundTrip(b: seq<Byte>)
    ensures DecodeBase64(EncodeBase64(b)) == Some(b)
  {
    EncodedAlphabet(b);
    NothingToSkip(EncodeBase64(b));
    SymbolsRoundTrip(b);
  }

  // ----- the two sides ---------------------------------------------------------------------------

  const MAX_GET_URL := 2048

  /** The Accept header of the client's wire-format request. */
  const WIRE_ACCEPT := DNS_MESSAGE + "," + " application/dns-udpwireformat, application/json"

  function GetUrl(upstream: string, packet: seq<Byte>): string
  {
    Head(upstream, DNS_MESSAGE) + "&" + ("dns" + "=" + EncodeBase64(packet))
  }

  predicate UsesPost(upstream: string, packet: seq<Byte>) { |GetUrl(upstream, packet)| >= MAX_GET_URL }

  /** generateRequestIETF: GET while the whole URL stays short, else POST. */
  function ClientRequest(upstream: string, packet: seq<Byte>): HttpRequest
  {
    if UsesPost(upstream, packet) then HttpRequest(true, upstream, DNS_MESSAGE, WIRE_ACCEPT, packet)
    else HttpRequest(false, GetUrl(upstream, packet), "", WIRE_ACCEPT, [])
  }

  /** A packet goes by GET exactly while its URL is shorter than 2048 characters, 32 of which stand
      between the upstream and the encoded packet. */
  lemma ShortGoesByGet(upstream: string, packet: seq<Byte>)
    ensures ClientRequest(upstream, packet).post <==> |upstream| + 32 + |EncodeBase64(packet)| >= 2048
    ensures ClientRequest(upstream, packet).url ==
      if ClientRequest(upstream, packet).post then upstream
      else upstream + "?" + ("ct" + "=" + "application/dns-message") + "&" + ("dns" + "=" + EncodeBase64(packet))
    ensures ClientRequest(upstream, packet).body == if ClientRequest(upstream, packet).post then packet else []
  {
    hide EncodeBase64;
  }

  datatype Packet = Bytes(bytes: seq<Byte>) | Refused(code: nat)

  /** parseRequestIETF up to the raw bytes. */
  function ServerPacket(req: HttpRequest): Packet
  {
    var decoded := DecodeBase64(FormValue(req, "dns"));
    if decoded.None? then Refused(400)
    else
      var bytes := if decoded.value == [] && (req.contentType == DNS_MESSAGE || req.contentType == UDP_WIREFORMAT)
                   then req.body else decoded.value;
      if bytes == [] then Refused(400) else Bytes(bytes)
  }

  /** Nothing is refused but a "dns" field that does not decode and a request without any packet. */
  lemma RefusedIff(req: HttpRequest)
    ensures ServerPacket(req) == Refused(400) <==>
      || DecodeBase64(FormValue(req, "dns")).None?
      || (DecodeBase64(FormValue(req, "dns")) == Some([]) &&
          (req.body == [] || (req.contentType != "application/dns-message" && req.contentType != "application/dns-udpwireformat")))
    ensures ServerPacket(req).Refused? ==> ServerPacket(req).code == 400
  {
    hide DecodeBase64, FormValue;
  }

  // ----- the form of the GET URL -----------------------------------------------------------------

  lemma EncodedIsPlain(packet: seq<Byte>)
    ensures Whole(EncodeBase64(packet)) && Unescaped(EncodeBase64(packet)) == Some(EncodeBase64(packet))
  {
    EncodedAlphabet(packet);
    var text := EncodeBase64(packet);
    assert forall i :: 0 <= i < |text| ==>
      text[i] != '&' && text[i] != '#' && text[i] != ';' && text[i] != '%' && text[i] != '+';
    hide EncodeBase64, Unescaped, SymbolValue;
    NothingToUnescape(text);
  }

  /** What the server's form sees, for every upstream: behind a fragment nothing of the query; else
      the upstream's own field of that name, and only without one the field the client added. */
  lemma FormOfGetUrl(upstream: string, packet: seq<Byte>, k: string)
    ensures FormField(GetUrl(upstream, packet), k) ==
      if '#' in upstream then FormField(upstream, k)
      else if FormField(Head(upstream, DNS_MESSAGE), k).Some? then FormField(Head(upstream, DNS_MESSAGE), k)
      else if k == "dns" then Some(EncodeBase64(packet)) else None
  {
    var text, head := EncodeBase64(packet), Head(upstream, DNS_MESSAGE);
    EncodedIsPlain(packet);
    MediaArePlain();
    HeadChars(upstream, DNS_MESSAGE);
    hide EncodeBase64, FormField, Head, Unescaped, DNS_MESSAGE, PlainMedia;
    if '#' in upstream {
      var more := head[|upstream|..] + ("&" + ("dns" + "=" + text));
      assert GetUrl(upstream, packet) == upstream + more;
      FragmentHides(upstream, more, k);
    } else {
      FieldAppended(head, "dns", text, k);
    }
  }

  // ----- arrival -----------------------------------------------------------------------------------

  lemma ClientFields(upstream: string, packet: seq<Byte>, k: string)
    ensures var f := FormField(if UsesPost(upstream, packet) then upstream else GetUrl(upstream, packet), k);
      FormValue(ClientRequest(upstream, packet), k) == if f.Some? then f.value else ""
  {
    ClientTypesAreNoForms();
    hide IsForm, FormField, GetUrl;
  }

  /** The "dns" field the upstream URL itself brings into the request, as that request carries it. */
  function OwnDns(upstream: string, packet: seq<Byte>): Option<string>
  {
    FormField(if UsesPost(upstream, packet) || '#' in upstream then upstream else Head(upstream, DNS_MESSAGE), "dns")
  }

  /** For every upstream and every nonempty packet, the exact condition of arrival: the upstream
      brings no "dns" field of its own (in whatever spelling) and, by GET, no fragment; or its own
      field happens to decode to the packet, or by POST to nothing. */
  lemma PacketArrivesIff(upstream: string, packet: seq<Byte>)
    requires packet != []
    ensures ServerPacket(ClientRequest(upstream, packet)) == Bytes(packet) <==>
      match OwnDns(upstream, packet)
      case None => UsesPost(upstream, packet) || '#' !in upstream
      case Some(v) =>
        DecodeBase64(v) == Some(packet) || (UsesPost(upstream, packet) && DecodeBase64(v) == Some([]))
  {
    hide GetUrl, FormField, EncodeBase64, DecodeBase64, Head, DNS_MESSAGE, UDP_WIREFORMAT, FormValue;
    NothingDecodes();
    ClientFields(upstream, packet, "dns");
    if !UsesPost(upstream, packet) {
      FormOfGetUrl(upstream, packet, "dns");
      Base64RoundTrip(packet);
      GetHasNoType(upstream, packet);
    }
  }

  lemma GetHasNoType(upstream: string, packet: seq<Byte>)
    requires !UsesPost(upstream, packet)
    ensures var t := ClientRequest(upstream, packet).contentType; t != DNS_MESSAGE && t != UDP_WIREFORMAT
  {
  }

  lemma NothingDecodes()
    ensures DecodeBase64("") == Some([])
  {
  }

  /** An upstream URL that brings neither a fragment nor a field the server looks at. */
  predicate Harmless(upstream: string)
  {
    var head := Head(upstream, DNS_MESSAGE);
    && '#' !in upstream
    && FormField(upstream, "dns").None? && FormField(head, "dns").None?
    && FormField(upstream, "name").None? && FormField(head, "name").None?
    && FormField(upstream, "ct").None?
    && (FormField(head, "ct").None? || FormField(head, "ct").value == DNS_MESSAGE)
  }

  /** So with a harmless upstream every nonempty packet arrives unchanged, whichever way its length
      sends it, and is dispatched to the wire-format parser. */
  lemma PacketArrives(upstream: string, packet: seq<Byte>)
    requires Harmless(upstream) && packet != []
    ensures ServerPacket(ClientRequest(upstream, packet)) == Bytes(packet)
    ensures RequestType(ClientRequest(upstream, packet)) == DNS_MESSAGE
  {
    PacketArrivesIff(upstream, packet);
    EncodedNonempty(packet);
    ClientFields(upstream, packet, "dns");
    ClientFields(upstream, packet, "name");
    ClientFields(upstream, packet, "ct");
    MessageIsNamed();
    hide GetUrl, FormField, EncodeBase64, DecodeBase64, Head, ServerPacket, FormValue, DNS_MESSAGE;
    FormOfGetUrl(upstream, packet, "dns");
    FormOfGetUrl(upstream, packet, "name");
    FormOfGetUrl(upstream, packet, "ct");
  }

  lemma MessageIsNamed()
    ensures DNS_MESSAGE != ""
  {
  }

  lemma EncodedNonempty(packet: seq<Byte>)
    requires packet != []
    ensures EncodeBase64(packet) != []
  {
  }

  /** A URL without a query and a fragment of its own is harmless. */
  lemma PlainIsHarmless(upstream: string)
    requires '?' !in upstream && '#' !in upstream
    ensures Harmless(upstream)
  {
    MediaArePlain();
    hide FormField, Head, DNS_MESSAGE, PlainMedia;
    forall k
      ensures FormField(upstream, k) == None
      ensures FormField(Head(upstream, DNS_MESSAGE), k) == if k == "ct" then Some(DNS_MESSAGE) else None
    {
      NoForm(upstream, k);
      PlainHead(upstream, DNS_MESSAGE, k);
    }
  }

  /** An upstream URL that ends in a field of its own. */
  function WithOwnField(front: string, key: string, value: string): string { front + "?" + (key + "=" + value + "&") }

  /** If that field reads as "dns", in whatever spelling, it spoils every packet that goes by GET,
      except where its value is unreadable or encodes the very packet. */
  lemma OwnFieldSpoils(front: string, key: string, value: string, packet: seq<Byte>)
    requires '?' !in front && '#' !in front && Whole(key) && Whole(value) && '=' !in key && Unescaped(key) == Some("dns")
    requires packet != [] && !UsesPost(WithOwnField(front, key, value), packet)
    ensures ServerPacket(ClientRequest(WithOwnField(front, key, value), packet)) == Bytes(packet) <==>
      Unescaped(value).None? || DecodeBase64(Unescaped(value).value) == Some(packet)
  {
    var upstream := WithOwnField(front, key, value);
    OwnField(front, key, value);
    assert '#' !in upstream;
    hide ServerPacket, ClientRequest, FormField, Head, DecodeBase64, UsesPost, Unescaped;
    PacketArrivesIff(upstream, packet);
  }

  lemma OwnField(front: string, key: string, value: string)
    requires '?' !in front && '#' !in front && Whole(key) && Whole(value) && '=' !in key && Unescaped(key) == Some("dns")
    ensures FormField(Head(WithOwnField(front, key, value), DNS_MESSAGE), "dns") == Unescaped(value)
  {
    MediaArePlain();
    assert key != "" by { assert Unescaped("") == Some(""); }
    hide Split, FieldOf, IndexOf, FormField, Unescaped, Pieces, DNS_MESSAGE;
    var own, last := key + "=" + value, "?ct" + "=" + DNS_MESSAGE;
    assert Whole(own) && Whole(last);
    assert Head(WithOwnField(front, key, value), DNS_MESSAGE) == front + "?" + (own + "&" + last);
    FormOfSimpleUrl(front, own + "&" + last, "dns");
    PiecesConcat(own, last);
    OnePiece(own);
    OnePiece(last);
    FieldOfConcat([own], [last], "dns");
    FieldOfOne(key, value, "dns");
    FieldOfOne("?ct", DNS_MESSAGE, "dns");
    NothingToUnescape("?ct");
  }

  /** One such spelling. */
  lemma EscapedSpelling()
    ensures Unescaped("d%6es") == Some("dns") && Whole("d%6es") && '=' !in "d%6es"
  {
    var key, tail, name := "d%6es", "%6es", "dns";
    NothingToUnescape("s");
    assert tail[3..] == "s" && key[1..] == tail;
    assert HexValue('6') == Some(6) && HexValue('e') == Some(14) && 110 as char == 'n';
    assert Unescaped(tail) == Some(['n'] + "s");
    assert Unescaped(key) == Some(['d'] + (['n'] + "s"));
    assert ['d'] + (['n'] + "s") == name;
  }
}
