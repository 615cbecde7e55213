/** Parsing of list files, name normalisation, and the restriction verdict. */
module Lists {
  import opened Text

  /** bufio.NewReader's buffer size: the longest piece ReadLine returns at once. */
  const CHUNK: nat := 4096

  // ----- names ----------------------------------------------------------------------

  /** The key that loading stores: lower case first, then Fqdn. */
  function LoadKey(domain: string): string { Fqdn(Lower(domain)) }

  /** The key that lookup uses: Fqdn first, then lower case. */
  function LookupKey(domain: string): string { Lower(Fqdn(domain)) }

  function StripDot(s: string): string { if s != [] && s[|s| - 1] == '.' then s[..|s| - 1] else s }

  /** Equal up to letter case and one trailing dot. */
  predicate SameName(a: string, b: string) { StripDot(Lower(a)) == StripDot(Lower(b)) }

  lemma StripDotIs(s: string)
    ensures s == StripDot(s) + "." || (s == StripDot(s) && (s == "" || s[|s| - 1] != '.'))
  {
    if s != [] {
      assert s == s[..|s| - 1] + [s[|s| - 1]];
    }
  }

  /** That is: without one trailing dot each, the names agree letter by letter. */
  lemma SameNameByLetters(a: string, b: string)
    ensures SameName(a, b) <==> SameLetters(StripDot(a), StripDot(b))
  {
    hide LowerChar, UpperChar, SameLetter;
    StripLower(a);
    StripLower(b);
    FoldingMeets(StripDot(a), StripDot(b));
  }

  lemma StripLower(s: string)
    ensures StripDot(Lower(s)) == Lower(StripDot(s))
  {
    if s != [] {
      assert LowerChar(s[|s| - 1]) == '.' <==> s[|s| - 1] == '.';
    }
  }

  lemma FqdnIsStripped(s: string)
    ensures Fqdn(s) == StripDot(s) + "."
  {
    if s != [] && s[|s| - 1] == '.' {
      assert s == s[..|s| - 1] + [s[|s| - 1]];
    }
  }

  /** The two normalisation orders meet: a lookup hits a loaded key exactly for the same name. */
  lemma KeysMeet(entry: string, query: string)
    ensures LoadKey(entry) == LookupKey(query) <==> SameName(entry, query)
  {
    assert Lower(query + ".") == Lower(query) + ".";
    assert LookupKey(query) == Fqdn(Lower(query));
    FqdnIsStripped(Lower(entry));
    FqdnIsStripped(Lower(query));
    var a, b := StripDot(Lower(entry)), StripDot(Lower(query));
    assert (a + ".")[..|a|] == a && (b + ".")[..|b|] == b;
  }

  // ----- reading lines --------------------------------------------------------------

  datatype Chunk = Chunk(text: string, isPrefix: bool, rest: string)

  /** bufio.Reader.ReadLine on nonempty unread input: a line without its end, or a full buffer. */
  function ReadLine(unread: string): (c: Chunk)
    requires unread != []
    ensures |c.rest| < |unread|
  {
    var end := IndexOf(unread, '\n');
    if end < |unread| && end < CHUNK then
      var line := unread[..end];
      Chunk(if line != [] && line[end - 1] == '\r' then line[..end - 1] else line, false, unread[end + 1..])
    else if |unread| >= CHUNK then
      // "\r" at the end of a full buffer goes back, in case "\n" follows
      var cut := if unread[CHUNK - 1] == '\r' then CHUNK - 1 else CHUNK;
      Chunk(unread[..cut], true, unread[cut..])
    else
      Chunk(unread, false, [])
  }

  /** The keys one complete line contributes. */
  function Entry(line: string): set<string>
  {
    var domain := Lower(Trim(line));
    if domain == "" then {} else {Fqdn(domain)}
  }

  ghost function Keys(unread: string): set<string>
    decreases |unread|
  {
    if unread == [] then {}
    else
      var c := ReadLine(unread);
      if c.isPrefix then Keys(c.rest) else Entry(c.text) + Keys(c.rest)
  }

  /** parseList: `continue` runs the post statement, so a prefix chunk is forgotten. */
  method ParseList(content: string) returns (result: set<string>)
    ensures result == Keys(content)
  {
    result := {};
    var line: string := [];
    var unread := content;
    while unread != []
      invariant line == []
      invariant result + Keys(unread) == Keys(content)
      decreases |unread|
    {
      var c := ReadLine(unread);
      unread := c.rest;
      line := line + c.text;
      if c.isPrefix {
        line := line[..0];
        continue;
      }
      var domain := Lower(Trim(line));
      if domain != "" {
        result := result + {Fqdn(domain)};
      }
      line := line[..0];
    }
  }

  /** What is left of a line once whole buffers of it have been forgotten. */
  function Survivor(line: string): string
    decreases |line|
  {
    if |line| < CHUNK then line
    else if line[CHUNK - 1] == '\r' then Survivor(line[CHUNK - 1..])
    else Survivor(line[CHUNK..])
  }

  ghost function EntriesOf(lines: seq<string>): set<string>
  {
    if lines == [] then {} else Entry(Survivor(lines[0])) + EntriesOf(lines[1..])
  }

  lemma {:induction false} IndexOfIs(s: string, c: char, i: nat)
    requires i <= |s| && c !in s[..i] && (i < |s| ==> s[i] == c)
    ensures IndexOf(s, c) == i
  {
    if i == 0 {
    } else {
      assert s[0] == s[..i][0];
      forall x | x in s[1..][..i - 1] ensures x in s[..i] {
        assert s[1..][..i - 1] == s[..i][1..];
      }
      IndexOfIs(s[1..], c, i - 1);
    }
  }

  /** Chunked reading, for every content: each newline-delimited line contributes its survivor. */
  lemma {:induction false} ParsedPerLine(s: string)
    ensures Keys(s) == EntriesOf(Split(s, '\n'))
    decreases |s|
  {
    if s == [] {
      assert Split(s, '\n') == [[]];
      assert Entry(Survivor([])) == {};
    } else {
      var i := IndexOf(s, '\n');
      var line := s[..i];
      if i >= CHUNK {
        LongLine(s, i);
        ParsedPerLine(ReadLine(s).rest);
      } else {
        ShortLine(s, i);
        if i < |s| {
          ParsedPerLine(s[i + 1..]);
        }
      }
    }
  }

  /** Dropping a newline-free front only shortens the first line. */
  lemma {:induction false} SplitDrop(s: string, cut: nat)
    requires cut <= IndexOf(s, '\n')
    ensures Split(s, '\n')[0] == s[..IndexOf(s, '\n')]
    ensures Split(s[cut..], '\n') == [Split(s, '\n')[0][cut..]] + Split(s, '\n')[1..]
  {
    hide IndexOf;
    var i := IndexOf(s, '\n');
    var t := s[cut..];
    assert t[..i - cut] == s[..i][cut..];
    IndexOfIs(t, '\n', i - cut);
    if i < |s| {
      assert t[i - cut + 1..] == s[i + 1..];
    } else {
      assert s[..i] == s;
    }
  }

  lemma LongLine(s: string, i: nat)
    requires i == IndexOf(s, '\n') >= CHUNK
    ensures ReadLine(s).isPrefix
    ensures EntriesOf(Split(ReadLine(s).rest, '\n')) == EntriesOf(Split(s, '\n'))
  {
    hide IndexOf, Split, Entry;
    var cut := if s[CHUNK - 1] == '\r' then CHUNK - 1 else CHUNK;
    SplitDrop(s, cut);
    var line := s[..i];
    assert line[CHUNK - 1] == s[CHUNK - 1];
    assert Survivor(line) == Survivor(line[cut..]);
  }

  lemma EntryDropsReturn(line: string)
    requires line != [] && line[|line| - 1] == '\r'
    ensures Entry(line[..|line| - 1]) == Entry(line)
  {
    assert TrimRight(line) == TrimRight(line[..|line| - 1]);
  }

  lemma ShortLine(s: string, i: nat)
    requires s != [] && i == IndexOf(s, '\n') < CHUNK
    ensures !ReadLine(s).isPrefix && Entry(ReadLine(s).text) == Entry(s[..i])
    ensures ReadLine(s).rest == if i < |s| then s[i + 1..] else []
  {
    hide IndexOf, Entry;
    var line := s[..i];
    if i == |s| {
      assert line == s;
    } else if i > 0 && s[i - 1] == '\r' {
      assert ReadLine(s) == Chunk(line[..i - 1], false, s[i + 1..]);
      EntryDropsReturn(line);
    } else {
      assert ReadLine(s) == Chunk(line, false, s[i + 1..]);
    }
  }

  /** Without carriage returns the survivor is the incomplete last buffer. */
  lemma {:induction false} SurvivorIsLastChunk(line: string)
    requires '\r' !in line
    ensures Survivor(line) == line[|line| - |line| % 4096..]
    decreases |line|
  {
    if |line| < CHUNK {
    } else {
      var rest := line[CHUNK..];
      SurvivorIsLastChunk(rest);
      var left := |line| % CHUNK;
      assert left == |rest| % CHUNK;
      assert line[CHUNK..][|rest| - left..] == line[CHUNK + (|rest| - left)..];
    }
  }

  // ----- what a loaded file lists -----------------------------------------------------

  /** Every line, with its end, fits one read buffer. */
  predicate LinesFit(content: string)
  {
    forall i :: 0 <= i < |Split(content, '\n')| ==> |Split(content, '\n')[i]| < CHUNK
  }

  /** The line, trimmed, is nonblank and the same name. */
  ghost predicate Hits(line: string, domain: string) { Trim(line) != "" && SameName(Trim(line), domain) }

  /** The file names the domain: some nonblank trimmed line is the same name. */
  ghost predicate Listed(content: string, domain: string)
  {
    exists line :: line in Split(content, '\n') && Hits(line, domain)
  }

  lemma EntryHits(line: string, domain: string)
    ensures LookupKey(domain) in Entry(line) <==> Hits(line, domain)
  {
    var e := Trim(line);
    KeysMeet(e, domain);
    assert e == "" <==> Lower(e) == "";
  }

  lemma {:induction false} EntriesContain(lines: seq<string>, domain: string)
    ensures LookupKey(domain) in EntriesOf(lines) <==>
      exists i :: 0 <= i < |lines| && Hits(Survivor(lines[i]), domain)
  {
    hide Survivor, LookupKey, Hits, Entry;
    if lines == [] {
    } else {
      EntryHits(Survivor(lines[0]), domain);
      EntriesContain(lines[1..], domain);
      if i :| 0 <= i < |lines| && Hits(Survivor(lines[i]), domain) {
        assert i > 0 ==> lines[1..][i - 1] == lines[i];
      }
    }
  }

  /** A name is found in a loaded file iff the file lists it. */
  lemma FoundIffListed(content: string, domain: string)
    requires LinesFit(content)
    ensures LookupKey(domain) in Keys(content) <==> Listed(content, domain)
  {
    var lines := Split(content, '\n');
    ParsedPerLine(content);
    EntriesContain(lines, domain);
    assert forall i :: 0 <= i < |lines| ==> Survivor(lines[i]) == lines[i];
  }

  datatype Published = Published(white: set<string>, black: set<string>, ads: set<string>)

  /** isRestricted under the read lock: bit 0 of the categories turns the ads list on. */
  predicate IsRestricted(lists: Published, domain: string, categories: nat)
  {
    var key := LookupKey(domain);
    if categories % 2 == 1 && key in lists.ads then true
    else if key in lists.white then false
    else key in lists.black
  }

  /** The verdict in terms of the three files: ads when asked for, then whitelist, then blacklist. */
  lemma VerdictFromFiles(white: string, black: string, ads: string, domain: string, categories: nat)
    requires LinesFit(white) && LinesFit(black) && LinesFit(ads)
    ensures IsRestricted(Published(Keys(white), Keys(black), Keys(ads)), domain, categories) <==>
      (categories % 2 == 1 && Listed(ads, domain)) || (!Listed(white, domain) && Listed(black, domain))
  {
    FoundIffListed(white, domain);
    FoundIffListed(black, domain);
    FoundIffListed(ads, domain);
  }

  /** Letter case and one trailing dot never change the verdict. */
  lemma VerdictIgnoresCase(lists: Published, a: string, b: string, categories: nat)
    requires SameName(a, b)
    ensures IsRestricted(lists, a, categories) == IsRestricted(lists, b, categories)
  {
    KeysMeet(a, b);
    KeysMeet(a, a);
  }
}
