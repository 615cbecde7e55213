/** From the phishing feeds to the published blacklist, and back through the server's parser. */
module Feeds {
  import opened Text
  import opened Rotation
  import opened Lists

  // ----- order-preserving removal of repeats ---------------------------------------------

  function Dedupe(s: seq<string>): seq<string>
  {
    if s == [] then []
    else
      var init, last := s[..|s| - 1], s[|s| - 1];
      if last in init then Dedupe(init) else Dedupe(init) + [last]
  }

  /** The position at which x first occurs. */
  function FirstAt(s: seq<string>, x: string): (i: nat)
    requires x in s
    ensures i < |s| && s[i] == x && x !in s[..i]
  {
    if s[0] == x then 0
    else
      var i := 1 + FirstAt(s[1..], x);
      assert s[..i] == [s[0]] + s[1..][..i - 1];
      i
  }

  lemma {:induction false} FirstAtPrefix(s: seq<string>, n: nat, x: string)
    requires n <= |s| && x in s[..n]
    ensures FirstAt(s[..n], x) == FirstAt(s, x)
  {
    if s[0] == x {
    } else {
      assert s[..n][1..] == s[1..][..n - 1];
      assert s[..n] == [s[0]] + s[1..][..n - 1];
      FirstAtPrefix(s[1..], n - 1, x);
    }
  }

  lemma SnocItem(d: seq<string>, x: string)
    ensures Elements(d + [x]) == Elements(d) + {x}
    ensures x !in Elements(d) && Distinct(d) ==> Distinct(d + [x])
  {
  }

  lemma {:induction false} DedupeKeepsItems(s: seq<string>)
    ensures Elements(Dedupe(s)) == Elements(s) && Distinct(Dedupe(s))
  {
    if s == [] {
    } else {
      var init, last := s[..|s| - 1], s[|s| - 1];
      DedupeKeepsItems(init);
      assert s == init + [last];
      assert last in init <==> last in Elements(init);
      hide Elements, Distinct;
      SnocItem(init, last);
      SnocItem(Dedupe(init), last);
    }
  }

  /** The items stand in the order of their first occurrence. */
  ghost predicate InOrder(d: seq<string>, s: seq<string>)
  {
    && (forall i :: 0 <= i < |d| ==> d[i] in s)
    && (forall i, j :: 0 <= i < j < |d| ==> FirstAt(s, d[i]) < FirstAt(s, d[j]))
  }

  lemma OrderExtends(d: seq<string>, s: seq<string>, last: string)
    requires InOrder(d, s)
    ensures InOrder(d, s + [last])
    ensures last !in s ==> InOrder(d + [last], s + [last])
  {
    hide FirstAt;
    var t := s + [last];
    assert t[..|s|] == s && last in t;
    forall x | x in s ensures x in t && FirstAt(t, x) == FirstAt(s, x) < |s| {
      FirstAtPrefix(t, |s|, x);
    }
    if last !in s {
      assert FirstAt(t, last) >= |s|;
    }
  }

  lemma {:induction false} DedupeIsInOrder(s: seq<string>)
    ensures InOrder(Dedupe(s), s)
  {
    hide FirstAt;
    if s == [] {
    } else {
      var init, last := s[..|s| - 1], s[|s| - 1];
      DedupeIsInOrder(init);
      hide InOrder;
      OrderExtends(Dedupe(init), init, last);
      assert s == init + [last];
    }
  }

  /** Dedupe keeps each item once, loses none, and orders them by first occurrence. */
  lemma DedupeKeepsFirsts(s: seq<string>)
    ensures Elements(Dedupe(s)) == Elements(s) && Distinct(Dedupe(s)) && InOrder(Dedupe(s), s)
  {
    hide Dedupe, InOrder;
    DedupeKeepsItems(s);
    DedupeIsInOrder(s);
  }

  function Extracted(entries: seq<Option<string>>): seq<string>
  {
    if entries == [] then []
    else
      var init, last := Extracted(entries[..|entries| - 1]), entries[|entries| - 1];
      if last.Some? then init + [last.value] else init
  }

  /** The loops of phishTankFetch and openPhishFetch; an entry without a usable host is None. */
  method FetchLoop(entries: seq<Option<string>>) returns (result: seq<string>)
    ensures result == Dedupe(Extracted(entries))
  {
    var looked: set<string> := {};
    result := [];
    for i := 0 to |entries|
      invariant looked == Elements(Extracted(entries[..i]))
      invariant result == Dedupe(Extracted(entries[..i]))
    {
      assert entries[..i + 1][..i] == entries[..i];
      if entries[i].None? {
        continue;
      }
      var domain := entries[i].value;
      ghost var before := Extracted(entries[..i]);
      assert Extracted(entries[..i + 1]) == before + [domain];
      assert (before + [domain])[..|before|] == before;
      if domain in looked {
        assert Elements(before + [domain]) == looked;
        continue;
      }
      looked := looked + {domain};
      result := result + [domain];
    }
    assert entries[..|entries|] == entries;
  }

  // ----- writing without truncation -------------------------------------------------------

  function Lines(items: seq<string>): string
  {
    if items == [] then [] else Lines(items[..|items| - 1]) + items[|items| - 1] + "\n"
  }

  /** What writing `text` from offset 0 leaves in a file that held `left`. */
  function Overlay(left: string, text: string): string
  {
    if |text| < |left| then text + left[|text|..] else text
  }

  function Held(files: map<string, string>, name: string): (content: string)
    ensures name in files ==> content == files[name]
    ensures name !in files ==> content == ""
  {
    if name in files then files[name] else ""
  }

  /** One write(2) at the current offset: overwrite, and extend when past the end. */
  lemma OverlayWrite(left: string, done: string, text: string)
    ensures var held := Overlay(left, done);
      done <= held && held[..|done|] + text + (if |done| + |text| < |held| then held[|done| + |text|..] else "")
        == Overlay(left, done + text)
  {
    var held := Overlay(left, done);
    assert held[..|done|] == done;
    if |done| + |text| < |left| {
      assert held[|done| + |text|..] == left[|done + text|..];
    }
  }

  lemma DedupeSnoc(s: seq<string>, x: string)
    ensures Dedupe(s + [x]) == if x in s then Dedupe(s) else Dedupe(s) + [x]
  {
    assert (s + [x])[..|s|] == s;
  }

  lemma ElementsPlus(s: seq<string>, x: string)
    ensures Elements(s + [x]) == Elements(s) + {x}
    ensures x in Elements(s) <==> x in s
    ensures x in s ==> Elements(s + [x]) == Elements(s)
  {
  }

  lemma LinesSnoc(s: seq<string>, x: string)
    ensures Lines(s + [x]) == Lines(s) + (x + "\n")
  {
    assert (s + [x])[..|s|] == s;
  }

  /** The loop body shared by both feeds of writeBlacklist. */
  method Append(d: Directory, name: string, left: string, done: seq<string>, black: set<string>, feed: seq<string>)
    returns (black': set<string>)
    requires black == Elements(done) && name in d.files
    requires d.files[name] == Overlay(left, Lines(Dedupe(done)))
    modifies d
    ensures black' == Elements(done + feed)
    ensures d.files == old(d.files)[name := Overlay(left, Lines(Dedupe(done + feed)))]
  {
    hide Dedupe, Lines, Overlay, Elements;
    black' := black;
    var at := |Lines(Dedupe(done))|;   // the file offset
    assert done + feed[..0] == done;
    for i := 0 to |feed|
      invariant black' == Elements(done + feed[..i])
      invariant name in d.files && at == |Lines(Dedupe(done + feed[..i]))|
      invariant d.files == old(d.files)[name := Overlay(left, Lines(Dedupe(done + feed[..i])))]
    {
      var domain := feed[i];
      ghost var before := done + feed[..i];
      assert done + feed[..i + 1] == before + [domain];
      DedupeSnoc(before, domain);
      ElementsPlus(before, domain);
      if domain in black' {
        continue;
      }
      black' := black' + {domain};
      var text, held := domain + "\n", d.files[name];
      OverlayWrite(left, Lines(Dedupe(before)), text);
      LinesSnoc(Dedupe(before), domain);
      d.files := d.files[name := held[..at] + text + (if at + |text| < |held| then held[at + |text|..] else "")];
      at := at + |text|;
    }
    assert feed[..|feed|] == feed;
  }

  function FeedOr(feed: Option<seq<string>>): seq<string> { if feed.Some? then feed.value else [] }

  /** writeBlacklist: a failed first feed is an error after the file was created; a failed second
      feed goes unnoticed. The file is opened without truncation. */
  method WriteBlacklist(d: Directory, phish: Option<seq<string>>, open: Option<seq<string>>) returns (ok: bool)
    modifies d
    ensures ok <==> phish.Some?
    ensures d.files == old(d.files)[NewName(Blacklist) := Overlay(Held(old(d.files), NewName(Blacklist)),
      if ok then Lines(Dedupe(phish.value + FeedOr(open))) else "")]
    ensures ok && open.None? ==> FeedOr(open) == []
    ensures ok && open.Some? ==> FeedOr(open) == open.value
  {
    var name := NewName(Blacklist);
    hide NewName;
    var left := Held(d.files, name);
    assert Overlay(left, "") == left;
    d.files := d.files[name := left];
    if phish.None? {
      return false;
    }
    assert Lines(Dedupe([])) == "";
    var black := Append(d, name, left, [], {}, phish.value);
    assert [] + phish.value == phish.value;
    black := Append(d, name, left, phish.value, black, FeedOr(open));
    return true;
  }

  /** Readdirnames: every entry once, in no particular order. */
  method ReadDirNames(d: Directory) returns (names: seq<string>)
    ensures Enumerates(names, d.files.Keys)
  {
    names := [];
    var left := d.files.Keys;
    while left != {}
      invariant Distinct(names) && Elements(names) == d.files.Keys - left && left <= d.files.Keys
      decreases left
    {
      var f :| f in left;
      assert f !in Elements(names);
      assert Elements(names + [f]) == Elements(names) + {f};
      names := names + [f];
      left := left - {f};
    }
  }

  lemma TargetIsNotNew(k: Kind, m: int)
    requires -1 <= m <= MAX_INT64
    ensures TargetName(k, m) != NewName(k)
  {
    if m < MAX_INT64 {
      NumberOfFileName(k, m + 1);
      hide NumberOf, NewName, FileName;
      UnnumberedNames(k, k);
    } else {
      hide Decimal, Prefix;
      var p := Prefix(k);
      assert TargetName(k, m)[|p| + 1] == '-' && NewName(k)[|p| + 1] == 'n';
    }
  }

  /** The scan and the rename of one kind. */
  method PublishNew(d: Directory, k: Kind) returns (target: string, m: int)
    requires NewName(k) in d.files
    modifies d
    ensures -1 <= m <= MAX_INT64 && IsNewest(k, old(d.files).Keys, m) && target == TargetName(k, m) != NewName(k)
    ensures d.files == (old(d.files) - {NewName(k)})[target := old(d.files)[NewName(k)]]
  {
    hide NewName, TargetName, NumberOf, NumbersIn;
    var names := ReadDirNames(d);
    m := MaxNumber(k, names);
    TargetIsNotNew(k, m);
    target := TargetName(k, m);
    d.files := (d.files - {NewName(k)})[target := d.files[NewName(k)]];
  }

  lemma NewestIgnoresNew(k: Kind, names: set<string>, m: int)
    ensures IsNewest(k, names + {NewName(k)}, m) == IsNewest(k, names, m)
  {
    hide NumberOf, NewName;
    UnnumberedNames(k, k);
    NumbersInExtend(k, names, NewName(k));
  }

  /** The blacklist half of a process() cycle up to the rename. */
  method BlacklistCycle(d: Directory, phish: Option<seq<string>>, open: Option<seq<string>>)
    returns (published: Option<string>, m: int)
    modifies d
    ensures published.Some? <==> phish.Some?
    ensures published.None? ==>
      d.files == old(d.files)[NewName(Blacklist) := Held(old(d.files), NewName(Blacklist))]
    ensures published.Some? ==>
      && -1 <= m <= MAX_INT64 && IsNewest(Blacklist, old(d.files).Keys, m)
      && published.value == TargetName(Blacklist, m)
      && d.files == (old(d.files) - {NewName(Blacklist)})[published.value :=
           Overlay(Held(old(d.files), NewName(Blacklist)), Lines(Dedupe(phish.value + FeedOr(open))))]
  {
    assert Overlay(Held(d.files, NewName(Blacklist)), "") == Held(d.files, NewName(Blacklist));
    hide NewName, TargetName, NumberOf, NumbersIn, Overlay, Lines, Dedupe, Held;
    var ok := WriteBlacklist(d, phish, open);
    if !ok { return None, -1; }
    ghost var was := old(d.files);
    assert d.files.Keys == was.Keys + {NewName(Blacklist)};
    var target;
    target, m := PublishNew(d, Blacklist);
    NewestIgnoresNew(Blacklist, was.Keys, m);
    return Some(target), m;
  }

  // ----- what a reload of the published file loads ----------------------------------------

  /** The item is one line of its own for the reader. */
  predicate LineSafe(item: string) { '\n' !in item && |item| < CHUNK }

  lemma SplitStep(line: string, rest: string)
    requires '\n' !in line
    ensures Split(line + "\n" + rest, '\n') == [line] + Split(rest, '\n')
  {
    IndexOfAppend(line, '\n', rest);
    var s := line + ['\n'] + rest;
    assert s == line + "\n" + rest;
    assert s[..|line|] == line && s[|line| + 1..] == rest;
  }

  lemma {:induction false} SplitLines(items: seq<string>, rest: string)
    requires forall i :: 0 <= i < |items| ==> '\n' !in items[i]
    ensures Split(Lines(items) + rest, '\n') == items + Split(rest, '\n')
    decreases |items|
  {
    hide Split;
    if items == [] {
      assert Lines(items) + rest == rest;
    } else {
      var init, last := items[..|items| - 1], items[|items| - 1];
      var tail := last + "\n" + rest;
      assert Lines(items) + rest == Lines(init) + tail;
      SplitLines(init, tail);
      SplitStep(last, rest);
      assert init + [last] == items;
    }
  }

  /** The keys of the nonblank items. */
  ghost function NormalisedNonblank(items: seq<string>): set<string>
  {
    set x | x in items && Trim(x) != "" :: LoadKey(Trim(x))
  }

  lemma {:induction false} EntriesOfItems(items: seq<string>)
    requires forall i :: 0 <= i < |items| ==> |items[i]| < CHUNK
    ensures EntriesOf(items) == NormalisedNonblank(items)
  {
    hide Trim, LoadKey;
    if items == [] {
    } else {
      EntriesOfItems(items[1..]);
      EntryIs(items[0]);
      assert items == [items[0]] + items[1..];
    }
  }

  lemma EntryIs(item: string)
    ensures Entry(item) == if Trim(item) == "" then {} else {LoadKey(Trim(item))}
  {
    hide Trim;
    assert Trim(item) == "" <==> Lower(Trim(item)) == "";
  }

  lemma {:induction false} EntriesOfAppendBlank(items: seq<string>)
    ensures EntriesOf(items + [""]) == EntriesOf(items)
  {
    if items == [] {
      assert items + [""] == [""];
      assert EntriesOf([""]) == Entry(Survivor("")) + EntriesOf([""][1..]);
    } else {
      EntriesOfAppendBlank(items[1..]);
      assert (items + [""])[1..] == items[1..] + [""];
    }
  }

  lemma SplitEmpty()
    ensures Split("", '\n') == [""]
  {
  }

  lemma {:induction false} EntriesOfConcat(a: seq<string>, b: seq<string>)
    ensures EntriesOf(a + b) == EntriesOf(a) + EntriesOf(b)
  {
    hide Entry, Survivor;
    if a == [] {
      assert a + b == b;
    } else {
      EntriesOfConcat(a[1..], b);
      assert (a + b)[1..] == a[1..] + b;
    }
  }

  /** What is left of the leftover file behind the new text. */
  function Tail(left: string, text: string): string { if |text| < |left| then left[|text|..] else "" }

  /** A leftover file adds to the loaded list exactly what its tail past the new text parses to, and
      takes nothing away. */
  lemma LeftoverAddsItsTail(left: string, items: seq<string>)
    requires forall i :: 0 <= i < |items| ==> LineSafe(items[i])
    ensures Keys(Overlay(left, Lines(items))) == NormalisedNonblank(items) + Keys(Tail(left, Lines(items)))
  {
    hide Keys, EntriesOf, Split, Lines, NormalisedNonblank;
    var text, tail := Lines(items), Tail(left, Lines(items));
    assert Overlay(left, text) == text + tail;
    ParsedPerLine(text + tail);
    SplitLines(items, tail);
    EntriesOfConcat(items, Split(tail, '\n'));
    EntriesOfItems(items);
    ParsedPerLine(tail);
  }

  lemma NoTail(text: string)
    ensures Keys(Tail("", text)) == {}
  {
    hide Keys;
    ParsedPerLine("");
    SplitEmpty();
    EntriesOfAppendBlank([]);
    assert [] + [""] == [""];
  }

  /** Published from a clean cycle, the blacklist loads exactly the normalised nonblank union of
      the two feeds. */
  lemma CleanCycleLoadsUnion(phish: seq<string>, open: seq<string>)
    requires forall x :: x in phish || x in open ==> LineSafe(x)
    ensures Keys(Overlay("", Lines(Dedupe(phish + open)))) == NormalisedNonblank(phish) + NormalisedNonblank(open)
  {
    var items := Dedupe(phish + open);
    DedupeKeepsItems(phish + open);
    hide Trim, LoadKey, Keys, Lines, Dedupe, LineSafe, Tail;
    forall x ensures x in items <==> x in phish || x in open {
      assert x in Elements(items) <==> x in Elements(phish + open);
    }
    LeftoverAddsItsTail("", items);
    NoTail(Lines(items));
  }

  /** One of the two feeds reports that name. */
  ghost predicate Reported(phish: seq<string>, open: seq<string>, domain: string)
  {
    exists x :: (x in phish || x in open) && Trim(x) != "" && SameName(Trim(x), domain)
  }

  /** So after a clean cycle and a reload, a lookup hits the blacklist exactly for the names the
      feeds report, up to case and one trailing dot. */
  lemma LookupHitsFeeds(phish: seq<string>, open: seq<string>, domain: string)
    requires forall x :: x in phish || x in open ==> LineSafe(x)
    ensures LookupKey(domain) in Keys(Lines(Dedupe(phish + open))) <==> Reported(phish, open, domain)
  {
    hide Keys, Lines, Dedupe, NormalisedNonblank, LineSafe;
    CleanCycleLoadsUnion(phish, open);
    assert Overlay("", Lines(Dedupe(phish + open))) == Lines(Dedupe(phish + open));
    UnionHits(phish, open, domain);
  }

  lemma UnionHits(phish: seq<string>, open: seq<string>, domain: string)
    ensures LookupKey(domain) in NormalisedNonblank(phish) + NormalisedNonblank(open) <==> Reported(phish, open, domain)
  {
    hide Trim, LoadKey, LookupKey, SameName;
    var key := LookupKey(domain);
    forall x ensures LoadKey(Trim(x)) == key <==> SameName(Trim(x), domain) {
      KeysMeet(Trim(x), domain);
    }
    assert key in NormalisedNonblank(phish) <==> exists x :: x in phish && Trim(x) != "" && SameName(Trim(x), domain);
    assert key in NormalisedNonblank(open) <==> exists x :: x in open && Trim(x) != "" && SameName(Trim(x), domain);
  }

  /** So the content is as without a leftover exactly when the leftover is not longer. */
  lemma LeftoverHarmlessIff(left: string, text: string)
    ensures Overlay(left, text) == text <==> |left| <= |text|
  {
    assert |text| < |left| ==> |Overlay(left, text)| == |left|;
  }

  // ----- feeds, cycle and reload together --------------------------------------------------------

  /** After the rename the target is the newest name, so a scan selects it. */
  lemma TargetSelected(was: map<string, string>, now: map<string, string>, m: int, content: string, f: string)
    requires -1 <= m < MAX_INT64 && IsNewest(Blacklist, was.Keys, m)
    requires now == (was - {NewName(Blacklist)})[TargetName(Blacklist, m) := content]
    requires f in now && NumberOf(Blacklist, f).Some? && IsNewest(Blacklist, now.Keys, NumberOf(Blacklist, f).value)
    ensures f == TargetName(Blacklist, m)
  {
    NumberOfFileName(Blacklist, m + 1);
    hide NumberOf, NewName, FileName;
    var target := TargetName(Blacklist, m);
    assert target in now.Keys && NumberOf(Blacklist, target) == Some(m + 1);
    assert m + 1 in NumbersIn(Blacklist, now.Keys);
    assert forall g :: g in was.Keys && NumberOf(Blacklist, g).Some? ==> NumberOf(Blacklist, g).value <= m;
  }

  /** What a fetch of both feeds is to write. */
  function Items(phish: seq<string>, open: seq<string>): seq<string> { Dedupe(Dedupe(phish) + Dedupe(open)) }

  /** Both feeds fetched: the cycle publishes, a reload selects the published file, and what it loads
      is the normalised nonblank union of the hosts in the feeds and the tail of a leftover file; with
      no leftover, a lookup then hits exactly the names the feeds report. */
  method CycleAndReload(d: Directory, phish: seq<Option<string>>, open: seq<Option<string>>)
    returns (loaded: set<string>)
    requires forall n :: n in NumbersIn(Blacklist, d.files.Keys) ==> n < MAX_INT64
    requires forall i :: 0 <= i < |Extracted(phish)| ==> LineSafe(Extracted(phish)[i])
    requires forall i :: 0 <= i < |Extracted(open)| ==> LineSafe(Extracted(open)[i])
    modifies d
    ensures loaded == NormalisedNonblank(Extracted(phish)) + NormalisedNonblank(Extracted(open)) +
      Keys(Tail(Held(old(d.files), NewName(Blacklist)), Lines(Items(Extracted(phish), Extracted(open)))))
    ensures NewName(Blacklist) !in old(d.files) ==>
      forall domain :: LookupKey(domain) in loaded <==> Reported(Extracted(phish), Extracted(open), domain)
  {
    hide NewName, TargetName, NumberOf, NumbersIn, Lines, Dedupe, Extracted, NormalisedNonblank, LineSafe, Keys, LookupKey,
      Reported, Overlay, Tail;
    ghost var was, left := d.files, Held(d.files, NewName(Blacklist));
    var first := FetchLoop(phish);
    var second := FetchLoop(open);
    var published, m := BlacklistCycle(d, Some(first), Some(second));
    var names := ReadDirNames(d);
    var newest := NewestName(Blacklist, names);
    ghost var content := Overlay(left, Lines(Dedupe(first + second)));
    NewestBelow(was.Keys, m);
    TargetCounts(was, d.files, m, content);
    assert newest.Some?;
    assert newest.value in Elements(names);
    TargetSelected(was, d.files, m, content, newest.value);
    loaded := ParseList(d.files[newest.value]);
    FeedsLoad(left, Extracted(phish), Extracted(open));
    if left == "" {
      NoTail(Lines(Items(Extracted(phish), Extracted(open))));
      forall domain ensures LookupKey(domain) in loaded <==> Reported(Extracted(phish), Extracted(open), domain) {
        UnionHits(Extracted(phish), Extracted(open), domain);
      }
    }
  }

  lemma NewestBelow(names: set<string>, m: int)
    requires IsNewest(Blacklist, names, m) && m <= MAX_INT64 && forall n :: n in NumbersIn(Blacklist, names) ==> n < MAX_INT64
    ensures m < MAX_INT64
  {
    hide NumberOf, NumbersIn;
  }

  lemma TargetCounts(was: map<string, string>, now: map<string, string>, m: int, content: string)
    requires -1 <= m < MAX_INT64 && now == (was - {NewName(Blacklist)})[TargetName(Blacklist, m) := content]
    ensures NumbersIn(Blacklist, now.Keys) != {}
  {
    NumberOfFileName(Blacklist, m + 1);
    hide NumberOf, NewName, FileName;
    assert TargetName(Blacklist, m) in now.Keys;
    assert m + 1 in NumbersIn(Blacklist, now.Keys);
  }

  lemma FeedsLoad(left: string, phish: seq<string>, open: seq<string>)
    requires forall i :: 0 <= i < |phish| ==> LineSafe(phish[i])
    requires forall i :: 0 <= i < |open| ==> LineSafe(open[i])
    ensures var items := Items(phish, open);
      Keys(Overlay(left, Lines(items))) ==
      NormalisedNonblank(phish) + NormalisedNonblank(open) + Keys(Tail(left, Lines(items)))
  {
    hide Keys, Overlay, Tail, Lines, Dedupe, LineSafe, Trim, LoadKey;
    var items := Items(phish, open);
    ItemsAreReported(phish, open);
    forall i | 0 <= i < |items| ensures LineSafe(items[i]) {
      assert items[i] in items;
    }
    LeftoverAddsItsTail(left, items);
  }

  lemma ItemsAreReported(phish: seq<string>, open: seq<string>)
    ensures forall x :: x in Items(phish, open) <==> x in phish || x in open
  {
    hide Dedupe;
    DedupeKeepsItems(phish);
    DedupeKeepsItems(open);
    DedupeKeepsItems(Dedupe(phish) + Dedupe(open));
    forall x ensures x in Items(phish, open) <==> x in phish || x in open {
      assert x in Elements(Dedupe(phish)) <==> x in Elements(phish);
      assert x in Elements(Dedupe(open)) <==> x in Elements(open);
      assert x in Elements(Items(phish, open)) <==> x in Elements(Dedupe(phish) + Dedupe(open));
    }
  }
}
