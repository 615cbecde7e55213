/** What undisturbed runs of the list protocol achieve: the steps do remove, publish and load. */
module ListsProgress {
  import opened Text
  import opened Rotation
  import opened Lists
  import opened ListsProtocol

  /** The run is feasible and ends in t. */
  ghost predicate Runs(keep: nat, s: State, es: seq<Event>, t: State)
  {
    Feasible(keep, s, es) && After(keep, s, es) == t
  }

  lemma Then(keep: nat, s: State, e: Event, es: seq<Event>, t: State)
    requires Enabled(keep, s, e) && Runs(keep, Next(keep, s, e), es, t)
    ensures Runs(keep, s, [e] + es, t)
  {
    hide Enabled, Next;
    assert ([e] + es)[1..] == es;
  }

  lemma Done(keep: nat, s: State)
    ensures Runs(keep, s, [], s)
  {
  }

  lemma {:induction false} Chain(keep: nat, s: State, es: seq<Event>, t: State, more: seq<Event>, u: State)
    requires Runs(keep, s, es, t) && Runs(keep, t, more, u)
    ensures Runs(keep, s, es + more, u)
    decreases |es|
  {
    hide Enabled, Next;
    if es == [] {
      assert es + more == more;
    } else {
      Chain(keep, Next(keep, s, es[0]), es[1..], t, more, u);
      assert (es + more)[0] == es[0] && (es + more)[1..] == es[1..] + more;
    }
  }

  // ----- pruning ------------------------------------------------------------------------------------

  /** One removal per victim; those in `stuck` are refused. */
  function Removals(victims: seq<string>, stuck: set<string>): seq<Event>
  {
    if victims == [] then [] else [Remove(victims[0] in stuck)] + Removals(victims[1..], stuck)
  }

  lemma OneRemoval(keep: nat, s: State, refused: bool)
    requires s.updater.Pruning? && s.updater.victims != []
    ensures Enabled(keep, s, Remove(refused))
    ensures var rest := s.updater.victims[1..];
      Next(keep, s, Remove(refused)) == s.(dir := if refused then s.dir else s.dir - {s.updater.victims[0]},
        updater := if rest == [] then AfterPruning(s.updater.kind) else s.updater.(victims := rest))
  {
  }

  lemma {:induction false} RemovalsRun(keep: nat, s: State, stuck: set<string>)
    requires s.updater.Pruning? && s.updater.victims != []
    ensures Runs(keep, s, Removals(s.updater.victims, stuck),
      s.(dir := s.dir - (Elements(s.updater.victims) - stuck), updater := AfterPruning(s.updater.kind)))
    decreases |s.updater.victims|
  {
    hide Runs, Enabled, Next, AfterPruning;
    var vs, u := s.updater.victims, s.updater;
    var refused, rest := vs[0] in stuck, vs[1..];
    OneRemoval(keep, s, refused);
    var s1 := Next(keep, s, Remove(refused));
    var t := s.(dir := s.dir - (Elements(vs) - stuck), updater := AfterPruning(u.kind));
    assert vs == [vs[0]] + rest;
    assert Elements(vs) == {vs[0]} + Elements(rest);
    assert s1.dir - (Elements(rest) - stuck) == t.dir;
    if rest == [] {
      Done(keep, s1);
      assert Removals(rest, stuck) == [];
      assert s1 == t;
    } else {
      RemovalsRun(keep, s1, stuck);
    }
    Then(keep, s, Remove(refused), Removals(rest, stuck), t);
  }

  function PruneEvents(k: Kind, names: seq<string>, keep: nat, stuck: set<string>): seq<Event>
  {
    [List(names)] + Removals(Victims(k, names, keep), stuck)
  }

  /** A pruning pass, whatever names the directory read delivered and whichever removals are refused:
      the directory loses exactly the prunable files that are not refused (the contract of
      Rotation.Directory.RemoveOld), nothing else changes, and the next kind is listed or a new cycle
      starts. */
  lemma PruningPass(keep: nat, s: State, names: seq<string>, stuck: set<string>)
    requires s.updater.Listing? && Draws(names, s.dir.Keys)
    ensures var k := s.updater.kind;
      var t := s.(dir := s.dir - (Elements(Victims(k, names, keep)) - stuck),
        updater := if k.Whitelist? then Listing(Blacklist) else Writing(Whitelist));
      && Runs(keep, s, PruneEvents(k, names, keep, stuck), t)
      && forall f :: f in s.dir ==> (f !in t.dir <==> f !in stuck && Prunable(k, names, keep, f))
  {
    var k := s.updater.kind;
    var vs := Victims(k, names, keep);
    var t := s.(dir := s.dir - (Elements(vs) - stuck), updater := AfterPruning(k));
    forall f | f in s.dir ensures f !in t.dir <==> f !in stuck && Prunable(k, names, keep, f) {
      VictimsExactly(k, names, keep, f);
    }
    hide Runs, Victims, Spared, Prunable, NumberOf, Draws;
    var s1 := Next(keep, s, List(names));
    if vs == [] {
      assert s.dir - (Elements(vs) - stuck) == s.dir;
      assert Removals(vs, stuck) == [];
      Done(keep, s1);
    } else {
      RemovalsRun(keep, s1, stuck);
    }
    Then(keep, s, List(names), Removals(vs, stuck), t);
  }

  // ----- publishing ---------------------------------------------------------------------------------

  lemma UnnumberedIgnored(k: Kind, names: set<string>, f: string)
    requires NumberOf(k, f) == None
    ensures NumbersIn(k, names + {f}) == NumbersIn(k, names) && NumbersIn(k, names - {f}) == NumbersIn(k, names)
  {
    hide NumberOf;
  }

  function CycleEvents(white: string, black: string, mw: int, mb: int): seq<Event>
  {
    [Write(white), Written, Write(black), Written, Scan(mw), Rename, Scan(mb), Rename]
  }

  /** What is visible after both lists were written and renamed. */
  ghost function Cycled(dir: map<string, string>, white: string, black: string, mw: int, mb: int): map<string, string>
    requires -1 <= mw < MAX_INT64 && -1 <= mb < MAX_INT64
  {
    (dir - {NewName(Whitelist), NewName(Blacklist)})[FileName(Whitelist, mw + 1) := white][FileName(Blacklist, mb + 1) := black]
  }

  lemma RenameRun(keep: nat, s: State, m: int, es: seq<Event>, t: State)
    requires s.updater.Scanning? && -1 <= m < MAX_INT64 && NewName(s.updater.kind) in s.dir
    requires IsNewest(s.updater.kind, s.dir.Keys, m)
    requires var k := s.updater.kind;
      var target := FileName(k, m + 1);
      Runs(keep, s.(dir := (s.dir - {NewName(k)})[target := s.dir[NewName(k)]], ever := s.ever[target := s.dir[NewName(k)]],
        updater := if k.Whitelist? then Scanning(Blacklist) else Listing(Whitelist)), es, t)
    ensures Runs(keep, s, [Scan(m), Rename] + es, t)
  {
    hide Runs, NewName, FileName, IsNewest;
    var s1 := Next(keep, s, Scan(m));
    Then(keep, s1, Rename, es, t);
    Then(keep, s, Scan(m), [Rename] + es, t);
    assert [Scan(m)] + ([Rename] + es) == [Scan(m), Rename] + es;
  }

  lemma WriteRun(keep: nat, s: State, content: string, es: seq<Event>, t: State)
    requires s.updater.Writing?
    requires Runs(keep, s.(dir := s.dir[NewName(s.updater.kind) := content],
      updater := if s.updater.kind.Whitelist? then Writing(Blacklist) else Scanning(Whitelist)), es, t)
    ensures Runs(keep, s, [Write(content), Written] + es, t)
  {
    hide Runs, NewName;
    var s1 := Next(keep, s, Write(content));
    Then(keep, s1, Written, es, t);
    Then(keep, s, Write(content), [Written] + es, t);
    assert [Write(content)] + ([Written] + es) == [Write(content), Written] + es;
  }

  /** An undisturbed cycle publishes both texts, each one number above the newest of its kind, leaves
      no file being written and touches no other file. */
  lemma CyclePublishes(keep: nat, s: State, white: string, black: string, mw: int, mb: int)
    requires s.updater == Writing(Whitelist) && -1 <= mw < MAX_INT64 && -1 <= mb < MAX_INT64
    requires IsNewest(Whitelist, s.dir.Keys, mw) && IsNewest(Blacklist, s.dir.Keys, mb)
    ensures var fw, fb := FileName(Whitelist, mw + 1), FileName(Blacklist, mb + 1);
      Runs(keep, s, CycleEvents(white, black, mw, mb),
        s.(dir := Cycled(s.dir, white, black, mw, mb), ever := s.ever[fw := white][fb := black], updater := Listing(Whitelist)))
  {
    hide Runs, NumberOf, NewName, FileName, NumbersIn;
    var nw, nb, fw, fb := NewName(Whitelist), NewName(Blacklist), FileName(Whitelist, mw + 1), FileName(Blacklist, mb + 1);
    CycleNames(mw, mb);
    var d1 := s.dir[nw := white];
    var d2 := d1[nb := black];
    var d3 := (d2 - {nw})[fw := white];
    var d4 := (d3 - {nb})[fb := black];
    NewestUnmoved(s.dir.Keys, mw, mb);
    CycleMaps(s.dir, white, black, mw, mb);
    hide IsNewest, Cycled;
    var s2 := s.(dir := d2, updater := Scanning(Whitelist));
    var s3 := s.(dir := d3, ever := s.ever[fw := white], updater := Scanning(Blacklist));
    var t := s.(dir := d4, ever := s.ever[fw := white][fb := black], updater := Listing(Whitelist));
    Done(keep, t);
    RenameRun(keep, s3, mb, [], t);
    assert [Scan(mb), Rename] + [] == [Scan(mb), Rename];
    RenameRun(keep, s2, mw, [Scan(mb), Rename], t);
    var renames := [Scan(mw), Rename] + [Scan(mb), Rename];
    WriteRun(keep, s.(dir := d1, updater := Writing(Blacklist)), black, renames, t);
    WriteRun(keep, s, white, [Write(black), Written] + renames, t);
    assert [Write(white), Written] + ([Write(black), Written] + renames) == CycleEvents(white, black, mw, mb);
  }

  lemma CycleMaps(dir: map<string, string>, white: string, black: string, mw: int, mb: int)
    requires -1 <= mw < MAX_INT64 && -1 <= mb < MAX_INT64
    ensures var nw, nb, fw, fb := NewName(Whitelist), NewName(Blacklist), FileName(Whitelist, mw + 1), FileName(Blacklist, mb + 1);
      var d2 := dir[nw := white][nb := black];
      var d3 := (d2 - {nw})[fw := white];
      && d2.Keys == dir.Keys + {nw} + {nb} && d3.Keys == d2.Keys - {nw} + {fw}
      && nw in d2 && d2[nw] == white && nb in d3 && d3[nb] == black
      && (d3 - {nb})[fb := black] == Cycled(dir, white, black, mw, mb)
  {
    hide NewName, FileName;
    CycleNames(mw, mb);
  }

  lemma CycleNames(mw: int, mb: int)
    requires -1 <= mw < MAX_INT64 && -1 <= mb < MAX_INT64
    ensures var nw, nb, fw, fb := NewName(Whitelist), NewName(Blacklist), FileName(Whitelist, mw + 1), FileName(Blacklist, mb + 1);
      nw != nb && nw != fw && nw != fb && nb != fw && nb != fb && fw != fb
  {
    NumberOfFileName(Whitelist, mw + 1);
    NumberOfFileName(Blacklist, mb + 1);
    assert NewName(Whitelist)[0] == 'w' && NewName(Blacklist)[0] == 'b';
    hide NumberOf, NewName, FileName;
    UnnumberedNames(Whitelist, Whitelist);
    UnnumberedNames(Whitelist, Blacklist);
    UnnumberedNames(Blacklist, Whitelist);
    UnnumberedNames(Blacklist, Blacklist);
    NumberOfOtherKind(Whitelist, Blacklist, FileName(Whitelist, mw + 1));
  }

  /** Neither the files being written nor the renamed whitelist move the newest blacklist. */
  lemma NewestUnmoved(names: set<string>, mw: int, mb: int)
    requires -1 <= mw < MAX_INT64 && IsNewest(Whitelist, names, mw) && IsNewest(Blacklist, names, mb)
    ensures var nw, nb, fw := NewName(Whitelist), NewName(Blacklist), FileName(Whitelist, mw + 1);
      var written := names + {nw} + {nb};
      IsNewest(Whitelist, written, mw) && IsNewest(Blacklist, written - {nw} + {fw}, mb)
  {
    NumberOfFileName(Whitelist, mw + 1);
    hide NumberOf, NewName, FileName, NumbersIn;
    var nw, nb, fw := NewName(Whitelist), NewName(Blacklist), FileName(Whitelist, mw + 1);
    NumberOfOtherKind(Whitelist, Blacklist, fw);
    forall k ensures NumbersIn(k, names + {nw} + {nb}) == NumbersIn(k, names + {nw} + {nb} - {nw}) == NumbersIn(k, names) {
      UnnumberedNames(k, Whitelist);
      UnnumberedNames(k, Blacklist);
      UnnumberedIgnored(k, names, nw);
      UnnumberedIgnored(k, names + {nw}, nb);
      UnnumberedIgnored(k, names + {nw} + {nb}, nw);
    }
    UnnumberedIgnored(Blacklist, names + {nw} + {nb} - {nw}, fw);
  }

  // ----- loading ------------------------------------------------------------------------------------

  function LoadEvents(id: nat, f: string): seq<Event> { [Select(id, Some(f)), Open(id), Publish(id)] }

  lemma LoadRun(keep: nat, s: State, id: nat, f: string, es: seq<Event>, t: State)
    requires id in s.reloads && s.reloads[id].Selecting? && ScanResult(s.reloads[id].kind, s.dir.Keys, Some(f))
    requires Runs(keep, PublishedBy(s.(reloads := s.reloads[id := Opened(s.reloads[id].kind, s.dir[f])]), id), es, t)
    ensures Runs(keep, s, LoadEvents(id, f) + es, t)
  {
    hide Runs, ScanResult, WithList;
    assert f in s.dir by { ScannedIsThere(s.reloads[id].kind, s.dir.Keys, f); }
    var s1 := Next(keep, s, Select(id, Some(f)));
    var s2 := Next(keep, s1, Open(id));
    assert s2 == s.(reloads := s.reloads[id := Opened(s.reloads[id].kind, s.dir[f])]);
    Then(keep, s2, Publish(id), es, t);
    Then(keep, s1, Open(id), [Publish(id)] + es, t);
    Then(keep, s, Select(id, Some(f)), [Open(id)] + ([Publish(id)] + es), t);
    assert [Select(id, Some(f))] + ([Open(id)] + ([Publish(id)] + es)) == LoadEvents(id, f) + es;
  }

  lemma ScannedIsThere(k: Kind, names: set<string>, f: string)
    requires ScanResult(k, names, Some(f))
    ensures f in names
  {
  }

  function ReloadEvents(id: nat, fw: string, fb: string, fa: string): seq<Event>
  {
    [StartReload(id)] + (LoadEvents(id, fw) + (LoadEvents(id, fb) + LoadEvents(id, fa)))
  }

  /** An undisturbed reload ends with the three newest files as the lists in force, each in its own
      place, and the server serving. */
  lemma ReloadLoads(keep: nat, s: State, id: nat, fw: string, fb: string, fa: string)
    requires id !in s.reloads
    requires ScanResult(Whitelist, s.dir.Keys, Some(fw)) && ScanResult(Blacklist, s.dir.Keys, Some(fb))
    requires ScanResult(Adslist, s.dir.Keys, Some(fa))
    ensures fw in s.dir && fb in s.dir && fa in s.dir
    ensures Runs(keep, s, ReloadEvents(id, fw, fb, fa),
      s.(lists := Published(Keys(s.dir[fw]), Keys(s.dir[fb]), Keys(s.dir[fa])), serving := true,
         gens := Generations(s.gens.white + [s.dir[fw]], s.gens.black + [s.dir[fb]], s.gens.ads + [s.dir[fa]])))
  {
    hide Runs, Keys, ScanResult;
    ScannedIsThere(Whitelist, s.dir.Keys, fw);
    ScannedIsThere(Blacklist, s.dir.Keys, fb);
    ScannedIsThere(Adslist, s.dir.Keys, fa);
    var s0 := s.(reloads := s.reloads[id := Selecting(Whitelist)]);
    var s1 := PublishedBy(s0.(reloads := s0.reloads[id := Opened(Whitelist, s.dir[fw])]), id);
    var s2 := PublishedBy(s1.(reloads := s1.reloads[id := Opened(Blacklist, s.dir[fb])]), id);
    var s3 := PublishedBy(s2.(reloads := s2.reloads[id := Opened(Adslist, s.dir[fa])]), id);
    assert s3.reloads == s.reloads;
    Done(keep, s3);
    LoadRun(keep, s2, id, fa, [], s3);
    assert LoadEvents(id, fa) + [] == LoadEvents(id, fa);
    LoadRun(keep, s1, id, fb, LoadEvents(id, fa), s3);
    LoadRun(keep, s0, id, fw, LoadEvents(id, fb) + LoadEvents(id, fa), s3);
    Then(keep, s, StartReload(id), LoadEvents(id, fw) + (LoadEvents(id, fb) + LoadEvents(id, fa)), s3);
  }

  /** So a cycle followed by a reload puts exactly what the updater wrote in force. */
  lemma CycleThenReload(keep: nat, s: State, white: string, black: string, mw: int, mb: int, id: nat, fa: string)
    requires s.updater == Writing(Whitelist) && -1 <= mw < MAX_INT64 && -1 <= mb < MAX_INT64 && id !in s.reloads
    requires IsNewest(Whitelist, s.dir.Keys, mw) && IsNewest(Blacklist, s.dir.Keys, mb)
    requires ScanResult(Adslist, s.dir.Keys, Some(fa))
    ensures fa in s.dir
    ensures var fw, fb := FileName(Whitelist, mw + 1), FileName(Blacklist, mb + 1);
      exists t :: Runs(keep, s, CycleEvents(white, black, mw, mb) + ReloadEvents(id, fw, fb, fa), t) &&
        t.lists == Published(Keys(white), Keys(black), Keys(s.dir[fa])) && t.serving && t.updater == Listing(Whitelist) &&
        t.dir == Cycled(s.dir, white, black, mw, mb)
  {
    hide Runs, Keys, NumberOf, NewName, FileName, NumbersIn, IsNewest, ScanResult;
    var fw, fb := FileName(Whitelist, mw + 1), FileName(Blacklist, mb + 1);
    var dir := Cycled(s.dir, white, black, mw, mb);
    CyclePublishes(keep, s, white, black, mw, mb);
    var s1 := s.(dir := dir, ever := s.ever[fw := white][fb := black], updater := Listing(Whitelist));
    CycleNames(mw, mb);
    ScannedIsThere(Adslist, s.dir.Keys, fa);
    CycleScans(s.dir.Keys, mw, mb, fa);
    assert dir.Keys == s.dir.Keys - {NewName(Whitelist), NewName(Blacklist)} + {fw} + {fb};
    ReloadLoads(keep, s1, id, fw, fb, fa);
    assert dir[fw] == white && dir[fb] == black && dir[fa] == s.dir[fa];
    var t := s1.(lists := Published(Keys(white), Keys(black), Keys(s.dir[fa])), serving := true,
      gens := Generations(s.gens.white + [white], s.gens.black + [black], s.gens.ads + [s.dir[fa]]));
    Chain(keep, s, CycleEvents(white, black, mw, mb), s1, ReloadEvents(id, fw, fb, fa), t);
  }

  lemma BareNumbers(k: Kind, names: set<string>)
    ensures NumbersIn(k, names - {NewName(Whitelist), NewName(Blacklist)}) == NumbersIn(k, names)
  {
    hide NumberOf, NewName, NumbersIn;
    var nw, nb := NewName(Whitelist), NewName(Blacklist);
    assert names - {nw, nb} == names - {nw} - {nb};
    UnnumberedNames(k, Whitelist);
    UnnumberedNames(k, Blacklist);
    UnnumberedIgnored(k, names, nw);
    UnnumberedIgnored(k, names - {nw}, nb);
  }

  lemma NumberUnder(k: Kind, j: Kind, n: nat)
    requires n <= MAX_INT64
    ensures NumberOf(k, FileName(j, n)) == if k == j then Some(n) else None
  {
    NumberOfFileName(j, n);
    hide NumberOf, FileName;
    if k != j { NumberOfOtherKind(j, k, FileName(j, n)); }
  }

  lemma CycleNumbers(k: Kind, names: set<string>, mw: int, mb: int)
    requires -1 <= mw < MAX_INT64 && -1 <= mb < MAX_INT64
    ensures var after := names - {NewName(Whitelist), NewName(Blacklist)} + {FileName(Whitelist, mw + 1)} + {FileName(Blacklist, mb + 1)};
      NumbersIn(k, after) == NumbersIn(k, names) +
        (if k.Whitelist? then {mw + 1} else if k.Blacklist? then {mb + 1} else {})
  {
    hide NumberOf, NewName, FileName, NumbersIn;
    var fw, fb := FileName(Whitelist, mw + 1), FileName(Blacklist, mb + 1);
    var bare := names - {NewName(Whitelist), NewName(Blacklist)};
    BareNumbers(k, names);
    NumberUnder(k, Whitelist, mw + 1);
    NumberUnder(k, Blacklist, mb + 1);
    NumbersInExtend(k, bare, fw);
    NumbersInExtend(k, bare + {fw}, fb);
  }

  lemma NowNewest(k: Kind, names: set<string>, after: set<string>, m: int, f: string)
    requires -1 <= m && IsNewest(k, names, m) && NumbersIn(k, after) == NumbersIn(k, names) + {m + 1}
    requires f in after && NumberOf(k, f) == Some(m + 1)
    ensures ScanResult(k, after, Some(f))
  {
    hide NumberOf, NumbersIn;
  }

  /** After the cycle a scan finds the new files, and the ads list as before. */
  lemma CycleScans(names: set<string>, mw: int, mb: int, fa: string)
    requires -1 <= mw < MAX_INT64 && -1 <= mb < MAX_INT64
    requires IsNewest(Whitelist, names, mw) && IsNewest(Blacklist, names, mb) && ScanResult(Adslist, names, Some(fa))
    ensures var fw, fb := FileName(Whitelist, mw + 1), FileName(Blacklist, mb + 1);
      var after := names - {NewName(Whitelist), NewName(Blacklist)} + {fw} + {fb};
      && ScanResult(Whitelist, after, Some(fw)) && ScanResult(Blacklist, after, Some(fb))
      && ScanResult(Adslist, after, Some(fa)) && fa != fw && fa != fb
  {
    NumberOfFileName(Whitelist, mw + 1);
    NumberOfFileName(Blacklist, mb + 1);
    hide NumberOf, NewName, FileName, NumbersIn, IsNewest, ScanResult;
    var fw, fb := FileName(Whitelist, mw + 1), FileName(Blacklist, mb + 1);
    var after := names - {NewName(Whitelist), NewName(Blacklist)} + {fw} + {fb};
    CycleNumbers(Whitelist, names, mw, mb);
    NowNewest(Whitelist, names, after, mw, fw);
    CycleNumbers(Blacklist, names, mw, mb);
    NowNewest(Blacklist, names, after, mb, fb);
    AdsStay(names, mw, mb, fa);
  }

  lemma AdsStay(names: set<string>, mw: int, mb: int, fa: string)
    requires -1 <= mw < MAX_INT64 && -1 <= mb < MAX_INT64 && ScanResult(Adslist, names, Some(fa))
    ensures var fw, fb := FileName(Whitelist, mw + 1), FileName(Blacklist, mb + 1);
      var after := names - {NewName(Whitelist), NewName(Blacklist)} + {fw} + {fb};
      ScanResult(Adslist, after, Some(fa)) && fa != fw && fa != fb
  {
    hide NumberOf, NewName, FileName, NumbersIn, IsNewest;
    var fw, fb := FileName(Whitelist, mw + 1), FileName(Blacklist, mb + 1);
    var after := names - {NewName(Whitelist), NewName(Blacklist)} + {fw} + {fb};
    CycleNumbers(Adslist, names, mw, mb);
    SameNewest(Adslist, names, after, NumberOf(Adslist, fa).value);
    AdsDiffer(mw, mb, fa);
  }

  lemma AdsDiffer(mw: int, mb: int, fa: string)
    requires -1 <= mw < MAX_INT64 && -1 <= mb < MAX_INT64 && NumberOf(Adslist, fa).Some?
    ensures fa != FileName(Whitelist, mw + 1) && fa != FileName(Blacklist, mb + 1)
    ensures fa != NewName(Whitelist) && fa != NewName(Blacklist)
  {
    NumberOfFileName(Whitelist, mw + 1);
    NumberOfFileName(Blacklist, mb + 1);
    hide NumberOf, NewName, FileName;
    NumberOfOtherKind(Whitelist, Adslist, FileName(Whitelist, mw + 1));
    NumberOfOtherKind(Blacklist, Adslist, FileName(Blacklist, mb + 1));
    UnnumberedNames(Adslist, Whitelist);
    UnnumberedNames(Adslist, Blacklist);
  }

  lemma SameNewest(k: Kind, names: set<string>, after: set<string>, m: int)
    requires NumbersIn(k, after) == NumbersIn(k, names) + {}
    ensures IsNewest(k, after, m) == IsNewest(k, names, m)
  {
    hide NumbersIn;
  }
}
