/** HTTP requests as both sides see them: query strings, form fields, the request type. */
module Http {
  import opened Text

  const DNS_MESSAGE := "application/dns-message"
  const UDP_WIREFORMAT := "application/dns-udpwireformat"
  const DNS_JSON := "application/dns-json"
  const JSON := "application/json"
  const FORM := "application/x-www-form-urlencoded"

  datatype HttpRequest = HttpRequest(post: bool, url: string, contentType: string, accept: string, body: seq<Byte>)

  // ----- escapes ----------------------------------------------------------------------------------

  function HexValue(c: char): (v: Option<nat>)
    ensures v.Some? ==> v.value < 16
  {
    if '0' <= c <= '9' then Some(c as int - '0' as int)
    else if 'a' <= c <= 'f' then Some(c as int - 'a' as int + 10)
    else if 'A' <= c <= 'F' then Some(c as int - 'A' as int + 10)
    else None
  }

  function HexDigit(v: nat): (c: char)
    requires v < 16
    ensures HexValue(c) == Some(v) && Unreserved(c)
  {
    if v < 10 then ('0' as int + v) as char else ('A' as int + (v - 10)) as char
  }

  /** url.QueryUnescape: a plus is a space, and a percent sign needs two hexadecimal digits. */
  function Unescaped(s: string): Option<string>
    decreases |s|
  {
    if s == [] then Some([])
    else if s[0] == '%' then
      if |s| < 3 || HexValue(s[1]).None? || HexValue(s[2]).None? || Unescaped(s[3..]).None? then None
      else Some([(HexValue(s[1]).value * 16 + HexValue(s[2]).value) as char] + Unescaped(s[3..]).value)
    else if Unescaped(s[1..]).None? then None
    else Some([if s[0] == '+' then ' ' else s[0]] + Unescaped(s[1..]).value)
  }

  predicate Unreserved(c: char)
  {
    'A' <= c <= 'Z' || 'a' <= c <= 'z' || '0' <= c <= '9' || c == '-' || c == '_' || c == '.' || c == '~'
  }

  /** Go strings hold bytes. */
  predicate IsBytes(s: string) { forall i :: 0 <= i < |s| ==> s[i] as int < 256 }

  function EscapedChar(c: char): (r: string)
    ensures forall i :: 0 <= i < |r| ==> Unreserved(r[i]) || r[i] == '+' || r[i] == '%'
  {
    if Unreserved(c) then [c]
    else if c == ' ' then "+"
    else ['%', HexDigit(c as int / 16 % 16), HexDigit(c as int % 16)]
  }

  /** url.QueryEscape, byte by byte. */
  function Escaped(s: string): (r: string)
    ensures forall i :: 0 <= i < |r| ==> Unreserved(r[i]) || r[i] == '+' || r[i] == '%'
  {
    if s == [] then [] else EscapedChar(s[0]) + Escaped(s[1..])
  }

  lemma UnescapedStep(c: char, rest: string)
    requires c as int < 256 && Unescaped(rest).Some?
    ensures Unescaped(EscapedChar(c) + rest) == Some([c] + Unescaped(rest).value)
  {
    var s, v := EscapedChar(c) + rest, c as int;
    if Unreserved(c) || c == ' ' {
      assert s[1..] == rest;
    } else {
      hide HexDigit, HexValue;
      assert s[3..] == rest && s[1] == HexDigit(v / 16 % 16) && s[2] == HexDigit(v % 16);
      assert v / 16 % 16 * 16 + v % 16 == v;
    }
  }

  /** Whatever bytes the name holds, the other side reads it back. */
  lemma {:induction false} EscapeRoundTrip(s: string)
    requires IsBytes(s)
    ensures Unescaped(Escaped(s)) == Some(s)
  {
    if s == [] {
    } else {
      EscapeRoundTrip(s[1..]);
      hide Unescaped, Escaped, EscapedChar;
      UnescapedStep(s[0], Escaped(s[1..]));
      EscapedFirst(s);
      assert s == [s[0]] + s[1..];
    }
  }

  /** Names of letters, digits and the four marks go out as they are. */
  lemma {:induction false} PlainStaysPlain(s: string)
    requires forall i :: 0 <= i < |s| ==>
      'A' <= s[i] <= 'Z' || 'a' <= s[i] <= 'z' || '0' <= s[i] <= '9' || s[i] == '-' || s[i] == '_' || s[i] == '.' || s[i] == '~'
    ensures Escaped(s) == s
  {
    if s == [] {
    } else {
      PlainStaysPlain(s[1..]);
      assert s == [s[0]] + s[1..];
    }
  }

  lemma EscapedFirst(s: string)
    requires s != []
    ensures Escaped(s) == EscapedChar(s[0]) + Escaped(s[1..])
  {
  }

  /** A percent sign that is not followed by two hexadecimal digits makes a text unreadable. */
  lemma BadEscape(front: string, rest: string)
    requires '%' !in front
    requires |rest| < 2 || HexValue(rest[0]).None? || HexValue(rest[1]).None?
    ensures Unescaped(front + "%" + rest) == None
  {
    var s := front + "%" + rest;
    if front == "" {
      assert s[0] == '%' && s[1..] == rest;
    } else {
      BadEscape(front[1..], rest);
      assert s[1..] == front[1..] + "%" + rest;
    }
  }

  /** Hexadecimal digits in either case. */
  lemma HexDigitsAre(c: char)
    ensures HexValue(c).Some? <==> '0' <= c <= '9' || 'a' <= c <= 'f' || 'A' <= c <= 'F'
    ensures HexValue('a') == HexValue('A') == Some(10) && HexValue('f') == HexValue('F') == Some(15)
    ensures HexValue('0') == Some(0) && HexValue('9') == Some(9)
  {
  }

  lemma {:induction false} NothingToUnescape(s: string)
    requires '%' !in s && '+' !in s
    ensures Unescaped(s) == Some(s)
  {
    if s == [] {
    } else {
      NothingToUnescape(s[1..]);
      assert s == [s[0]] + s[1..];
    }
  }

  // ----- fields -----------------------------------------------------------------------------------

  /** A semicolon separates fields like an ampersand does. */
  function Cut(query: string): string { seq(|query|, i requires 0 <= i < |query| => if query[i] == ';' then '&' else query[i]) }

  function Pieces(query: string): seq<string> { Split(Cut(query), '&') }

  /** One field, key and value unescaped; none where that fails or nothing stands there. */
  function Field(piece: string): Option<(string, string)>
  {
    var i := IndexOf(piece, '=');
    var key, value := Unescaped(piece[..i]), Unescaped(if i < |piece| then piece[i + 1..] else "");
    if piece == "" || key.None? || value.None? then None else Some((key.value, value.value))
  }

  /** The first field of that name; unreadable ones are skipped. */
  function FieldOf(pieces: seq<string>, key: string): Option<string>
  {
    if pieces == [] then None
    else if Field(pieces[0]).Some? && Field(pieces[0]).value.0 == key then Some(Field(pieces[0]).value.1)
    else FieldOf(pieces[1..], key)
  }

  function BeforeFragment(url: string): string { url[..IndexOf(url, '#')] }

  /** The query ends where a fragment starts. */
  function FormField(url: string, key: string): Option<string>
  {
    var u := BeforeFragment(url);
    var q := IndexOf(u, '?');
    if q == |u| then None else FieldOf(Pieces(u[q + 1..]), key)
  }

  function BodyText(body: seq<Byte>): string { seq(|body|, i requires 0 <= i < |body| => body[i] as char) }

  predicate IsForm(contentType: string) { Lower(Trim(SplitN(contentType, ';', 2)[0])) == FORM }

  /** Request.FormValue: the fields of a form-encoded body stand before those of the URL. */
  function FormValue(req: HttpRequest, key: string): string
  {
    var posted := if req.post && IsForm(req.contentType) then FieldOf(Pieces(BodyText(req.body)), key) else None;
    var f := if posted.Some? then posted else FormField(req.url, key);
    if f.Some? then f.value else ""
  }

  /** handlerFunc's choice of the request type. */
  function RequestType(req: HttpRequest): string
  {
    var ct := FormValue(req, "ct");
    var named := if ct != "" then ct else req.contentType;
    if named != "" then named
    else if FormValue(req, "name") != "" then DNS_JSON
    else if FormValue(req, "dns") != "" then DNS_MESSAGE
    else ""
  }

  /** The one form type, with or without parameters. */
  lemma FormTypeIs(parameters: string)
    ensures IsForm("application/x-www-form-urlencoded") && IsForm("application/x-www-form-urlencoded" + ";" + parameters)
  {
    FormChars();
    hide FORM, IndexOf, Trim;
    IndexOfAbsent(FORM, ';');
    NoCapitals(FORM);
    TightStays(FORM);
    SplitNStep(FORM, ';', parameters, 2);
    assert FORM + ";" + parameters == FORM + [';'] + parameters;
  }

  lemma FormChars()
    ensures FORM == "application/x-www-form-urlencoded"
    ensures forall i :: 0 <= i < |FORM| ==> 'a' <= FORM[i] <= 'z' || FORM[i] == '-' || FORM[i] == '/'
    ensures Tight(FORM)
  {
    assert FORM[0] == 'a' && FORM[32] == 'd';
  }

  /** A key without a value stands for the empty one; nothing at all is no field. */
  lemma BareKey(key: string)
    requires '=' !in key && '%' !in key && '+' !in key
    ensures Field(key) == if key == "" then None else Some((key, ""))
  {
    IndexOfAbsent(key, '=');
    NothingToUnescape(key);
    NothingToUnescape("");
    assert key[..|key|] == key;
    hide Unescaped, IndexOf;
  }

  /** The fields of a form-encoded body come before those of the URL, and no other body is consulted. */
  lemma PostedFirst(req: HttpRequest, k: string)
    ensures req.post && IsForm(req.contentType) && FieldOf(Pieces(BodyText(req.body)), k).Some? ==>
      FormValue(req, k) == FieldOf(Pieces(BodyText(req.body)), k).value
    ensures !req.post || !IsForm(req.contentType) || FieldOf(Pieces(BodyText(req.body)), k).None? ==>
      FormValue(req, k) == if FormField(req.url, k).Some? then FormField(req.url, k).value else ""
  {
    hide FieldOf, Pieces, IsForm, FormField;
  }

  /** The field `ct` comes first, then the header, then a guess from the fields that are there. */
  lemma RequestTypeIs(req: HttpRequest)
    ensures FormValue(req, "ct") != "" ==> RequestType(req) == FormValue(req, "ct")
    ensures FormValue(req, "ct") == "" && req.contentType != "" ==> RequestType(req) == req.contentType
    ensures FormValue(req, "ct") == "" && req.contentType == "" ==>
      RequestType(req) == if FormValue(req, "name") != "" then "application/dns-json"
        else if FormValue(req, "dns") != "" then "application/dns-message" else ""
  {
    hide FormValue;
  }

  // ----- appending fields -------------------------------------------------------------------------

  /** No character that ends a field, a query or a URL. */
  predicate Whole(s: string) { '#' !in s && '&' !in s && ';' !in s }

  /** A key that stands for itself. */
  predicate PlainKey(key: string) { Whole(key) && '%' !in key && '+' !in key && '=' !in key && key != "" }

  lemma PiecesConcat(a: string, b: string)
    ensures Pieces(a + "&" + b) == Pieces(a) + Pieces(b)
  {
    hide Split;
    assert Cut(a + "&" + b) == Cut(a) + "&" + Cut(b);
    SplitConcat(Cut(a), '&', Cut(b));
    assert Cut(a) + "&" + Cut(b) == Cut(a) + ['&'] + Cut(b);
  }

  lemma SemicolonCuts(a: string, b: string)
    ensures Pieces(a + ";" + b) == Pieces(a) + Pieces(b)
  {
    hide Split;
    assert Cut(a + ";" + b) == Cut(a) + ['&'] + Cut(b);
    SplitConcat(Cut(a), '&', Cut(b));
  }

  lemma OnePiece(s: string)
    requires Whole(s)
    ensures Pieces(s) == [s]
  {
    assert Cut(s) == s;
    IndexOfAbsent(s, '&');
  }

  lemma {:induction false} FieldOfConcat(a: seq<string>, b: seq<string>, key: string)
    ensures FieldOf(a + b, key) == if FieldOf(a, key).Some? then FieldOf(a, key) else FieldOf(b, key)
  {
    hide Field;
    if a == [] {
      assert a + b == b;
    } else {
      FieldOfConcat(a[1..], b, key);
      assert (a + b)[1..] == a[1..] + b;
    }
  }

  /** A field written as key and value; its key may be spelled with escapes. */
  lemma FieldOfOne(key: string, value: string, k: string)
    requires '=' !in key && (key != "" || value != "")
    ensures FieldOf([key + "=" + value], k) ==
      if Unescaped(key) == Some(k) && Unescaped(value).Some? then Unescaped(value) else None
  {
    IndexOfAppend(key, '=', value);
    var piece := key + ['='] + value;
    assert piece == key + "=" + value;
    assert piece[..|key|] == key && piece[|key| + 1..] == value;
    hide Unescaped, IndexOf;
    var pieces: seq<string> := [piece];
    assert pieces[1..] == [];
  }

  lemma {:induction false} IndexOfPrefix(a: string, b: string, c: char)
    requires c in a
    ensures IndexOf(a + b, c) == IndexOf(a, c) < |a|
  {
    if a[0] == c {
    } else {
      assert (a + b)[1..] == a[1..] + b;
      assert a == [a[0]] + a[1..];
      IndexOfPrefix(a[1..], b, c);
    }
  }

  lemma IndexOfAbsent(s: string, c: char)
    requires c !in s
    ensures IndexOf(s, c) == |s|
  {
  }

  /** In a URL without a fragment, more fields at the end are found where no earlier one has the same
      name. */
  lemma FieldsAppended(head: string, more: string, k: string)
    requires '?' in head && '#' !in head && '#' !in more
    ensures FormField(head + "&" + more, k) ==
      if FormField(head, k).Some? then FormField(head, k) else FieldOf(Pieces(more), k)
  {
    var url := head + "&" + more;
    hide Pieces, FieldOf, IndexOf;
    IndexOfAbsent(url, '#');
    IndexOfAbsent(head, '#');
    assert BeforeFragment(url) == url && BeforeFragment(head) == head;
    var q := IndexOf(head, '?');
    IndexOfPrefix(head, "&" + more, '?');
    assert url == head + ("&" + more);
    var own := head[q + 1..];
    assert url[q + 1..] == own + "&" + more;
    PiecesConcat(own, more);
    FieldOfConcat(Pieces(own), Pieces(more), k);
  }

  lemma FieldAppended(head: string, key: string, value: string, k: string)
    requires '?' in head && '#' !in head && PlainKey(key) && Whole(value)
    ensures FormField(head + "&" + (key + "=" + value), k) ==
      if FormField(head, k).Some? then FormField(head, k) else if k == key then Unescaped(value) else None
  {
    var last := key + "=" + value;
    assert Whole(last);
    hide FormField, Unescaped, FieldOf, Pieces, Split, IndexOf;
    FieldsAppended(head, last, k);
    OnePiece(last);
    FieldOfOne(key, value, k);
    NothingToUnescape(key);
  }

  lemma FragmentHides(url: string, more: string, k: string)
    requires '#' in url
    ensures FormField(url + more, k) == FormField(url, k)
  {
    hide IndexOf, FieldOf, Pieces;
    IndexOfPrefix(url, more, '#');
    assert (url + more)[..IndexOf(url, '#')] == url[..IndexOf(url, '#')];
  }

  lemma NoForm(url: string, k: string)
    requires '?' !in url && '#' !in url
    ensures FormField(url, k) == None
  {
    hide IndexOf;
    IndexOfAbsent(url, '?');
    IndexOfAbsent(url, '#');
    assert BeforeFragment(url) == url;
  }

  lemma FormOfSimpleUrl(front: string, query: string, k: string)
    requires '?' !in front && '#' !in front && '#' !in query
    ensures FormField(front + "?" + query, k) == FieldOf(Pieces(query), k)
  {
    hide Pieces, FieldOf, IndexOf;
    var url := front + ['?'] + query;
    assert url == front + "?" + query;
    IndexOfAbsent(url, '#');
    assert BeforeFragment(url) == url;
    IndexOfAppend(front, '?', query);
    assert url[|front| + 1..] == query;
  }

  // ----- the front of every request URL --------------------------------------------------------

  /** The upstream with the type field behind it. */
  function Head(upstream: string, media: string): string { upstream + "?" + ("ct" + "=" + media) }

  predicate PlainMedia(media: string) { Whole(media) && '%' !in media && '+' !in media }

  predicate MediaChar(c: char) { 'a' <= c <= 'z' || c == '-' || c == '/' }

  lemma MediaChars()
    ensures forall i :: 0 <= i < |DNS_MESSAGE| ==> MediaChar(DNS_MESSAGE[i])
    ensures forall i :: 0 <= i < |DNS_JSON| ==> MediaChar(DNS_JSON[i])
    ensures forall i :: 0 <= i < |JSON| ==> MediaChar(JSON[i])
    ensures forall i :: 0 <= i < |UDP_WIREFORMAT| ==> MediaChar(UDP_WIREFORMAT[i])
  {
  }

  lemma MediaDiffer()
    ensures DNS_MESSAGE != JSON && DNS_MESSAGE != DNS_JSON && DNS_MESSAGE != UDP_WIREFORMAT && JSON != DNS_JSON
    ensures UDP_WIREFORMAT != JSON && UDP_WIREFORMAT != DNS_JSON
    ensures DNS_MESSAGE != "" && JSON != "" && DNS_JSON != ""
  {
    assert DNS_MESSAGE[12] == 'd' && JSON[12] == 'j';
    assert DNS_MESSAGE[16] == 'm' && DNS_JSON[16] == 'j' && UDP_WIREFORMAT[16] == 'u';
  }

  lemma MediaArePlain()
    ensures PlainMedia(DNS_MESSAGE) && PlainMedia(DNS_JSON)
  {
    MediaChars();
    hide DNS_MESSAGE, DNS_JSON;
  }

  lemma HeadChars(upstream: string, media: string)
    requires PlainMedia(media)
    ensures upstream <= Head(upstream, media) && '?' in Head(upstream, media)
    ensures '#' in Head(upstream, media) <==> '#' in upstream
  {
    assert Head(upstream, media)[|upstream|] == '?';
    assert Head(upstream, media) == upstream + ("?" + ("ct" + "=" + media));
  }

  lemma PlainHead(upstream: string, media: string, k: string)
    requires '?' !in upstream && '#' !in upstream && PlainMedia(media)
    ensures FormField(Head(upstream, media), k) == if k == "ct" then Some(media) else None
  {
    var query := "ct" + "=" + media;
    assert Whole(query);
    hide Unescaped, FieldOf, Pieces, FormField, Split, IndexOf;
    FormOfSimpleUrl(upstream, query, k);
    OnePiece(query);
    FieldOfOne("ct", media, k);
    NothingToUnescape("ct");
    NothingToUnescape(media);
  }

  lemma {:induction false} TrimLeftShortens(s: string)
    ensures |TrimLeft(s)| <= |s|
  {
    if s == [] || !IsSpace(s[0]) {
    } else {
      TrimLeftShortens(s[1..]);
    }
  }

  lemma {:induction false} TrimRightShortens(s: string)
    ensures |TrimRight(s)| <= |s|
  {
    if s == [] || !IsSpace(s[|s| - 1]) {
    } else {
      TrimRightShortens(s[..|s| - 1]);
    }
  }

  /** Too short to name the form type. */
  lemma ShortIsNoForm(contentType: string)
    requires |contentType| < |FORM|
    ensures !IsForm(contentType)
  {
    hide TrimLeft, TrimRight, IndexOf, FORM;
    var media := SplitN(contentType, ';', 2)[0];
    assert |media| <= |contentType|;
    TrimRightShortens(media);
    TrimLeftShortens(TrimRight(media));
  }

  lemma ClientTypesAreNoForms()
    ensures !IsForm(DNS_MESSAGE) && !IsForm("")
  {
    hide IsForm;
    assert |DNS_MESSAGE| < |FORM|;
    ShortIsNoForm(DNS_MESSAGE);
    ShortIsNoForm("");
  }
}
