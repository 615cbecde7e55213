/** What every run of the list protocol guarantees. */
module ListsTheorems {
  import opened Text
  import opened Rotation
  import opened Lists
  import opened ListsProtocol

  /** A rename never replaces a numbered file, and the number it publishes is above every number
      that was ever visible in the run, removed files included. At the top of the 64-bit range the
      target stops being a numbered name at all. */
  lemma RenameNeverOverwrites(keep: nat, s: State)
    requires keep >= 1 && Reachable(keep, s) && Enabled(keep, s, Rename)
    ensures forall k, f :: f in s.dir && NumberOf(k, f).Some? ==>
      f in Renamed(s).dir && Renamed(s).dir[f] == s.dir[f]
    ensures var k, m := s.updater.kind, s.updater.max;
      var target := TargetName(k, m);
      (NumberOf(k, target).Some? <==> m < MAX_INT64) &&
      (m < MAX_INT64 ==> target !in s.dir && target !in s.ever) &&
      (m < MAX_INT64 ==> forall f :: f in s.ever && NumberOf(k, f).Some? ==> NumberOf(k, f).value < m + 1) &&
      (m < MAX_INT64 ==> NumberOf(k, target).value == m + 1)
  {
    ReachableInv(keep, s);
    var j, m := s.updater.kind, s.updater.max;
    assert KindInv(keep, j, s.dir, s.ever);
    hide NumberOf, FileName, TargetName, NewName, Reachable, NumbersIn, Renamed;
    TargetNumber(j, j, m);
    if m < MAX_INT64 { TargetIsFresh(keep, s.dir, s.ever, j, m); }
    forall k, f | f in s.dir && NumberOf(k, f).Some?
      ensures f in Renamed(s).dir && Renamed(s).dir[f] == s.dir[f]
    {
      assert KindInv(keep, k, s.dir, s.ever);
      if m < MAX_INT64 && k == j { assert f != TargetName(j, m); }
      RenameKeepsFile(s, k, f);
    }
  }

  lemma RenameKeepsFile(s: State, k: Kind, f: string)
    requires s.updater.Renaming? && -1 <= s.updater.max <= MAX_INT64 && NewName(s.updater.kind) in s.dir
    requires f in s.dir && NumberOf(k, f).Some?
    requires s.updater.max < MAX_INT64 && k == s.updater.kind ==> f != TargetName(s.updater.kind, s.updater.max)
    ensures f in Renamed(s).dir && Renamed(s).dir[f] == s.dir[f]
  {
    hide NumberOf, FileName, TargetName, NewName;
    UnnumberedNames(k, s.updater.kind);
    TargetNumber(k, s.updater.kind, s.updater.max);
  }

  /** Once visible under its number, a file never changes content for the rest of the run. */
  lemma ContentNeverChanges(keep: nat, s: State, es: seq<Event>, k: Kind, f: string)
    requires keep >= 1 && Reachable(keep, s) && Feasible(keep, s, es)
    requires f in s.ever && NumberOf(k, f).Some? && f in After(keep, s, es).dir
    ensures After(keep, s, es).dir[f] == s.ever[f]
    ensures f in s.dir ==> s.dir[f] == s.ever[f]
  {
    hide NumberOf, Reachable, Feasible, After;
    ReachableInv(keep, s);
    RunInv(keep, s, es);
    assert KindInv(keep, k, s.dir, s.ever);
    assert KindInv(keep, k, After(keep, s, es).dir, After(keep, s, es).ever);
  }

  lemma NumbersOfRename(keep: nat, k: Kind, s: State)
    requires Inv(keep, s) && Enabled(keep, s, Rename)
    ensures NumbersIn(k, Renamed(s).dir.Keys) == NumbersIn(k, s.dir.Keys) + PublishedNumber(k, s)
  {
    hide NumberOf, NewName, KindInv, NumbersIn, Renamed;
    assert KindInv(keep, k, s.dir, s.ever);
    RenameKeepsKind(keep, k, s);
  }

  /** No step other than a rename adds a number. */
  lemma StepNumbers(keep: nat, k: Kind, s: State, e: Event)
    requires Inv(keep, s) && Enabled(keep, s, e)
    ensures NumbersIn(k, Next(keep, s, e).dir.Keys) <=
            NumbersIn(k, s.dir.Keys) + (if e.Rename? then PublishedNumber(k, s) else {})
  {
    if e.Rename? {
      NumbersOfRename(keep, k, s);
    } else if e.Write? {
      UnnumberedNames(k, s.updater.kind);
      hide NumberOf, NewName, Inv;
      assert Next(keep, s, e).dir.Keys == s.dir.Keys + {NewName(s.updater.kind)};
      NumbersInExtend(k, s.dir.Keys, NewName(s.updater.kind));
    } else {
      hide NumberOf, Inv;
      assert Next(keep, s, e).dir.Keys <= s.dir.Keys by {
        hide Victims, Spared, Renamed, NewName, PublishedBy, IsNewest, NumbersIn;
      }
    }
  }

  /** The newest file of a kind is still there after any step. */
  lemma NewestNeverRemoved(keep: nat, s: State, e: Event, k: Kind, n: nat)
    requires keep >= 1 && Reachable(keep, s) && Enabled(keep, s, e)
    requires n in NumbersIn(k, s.dir.Keys) && IsNewest(k, s.dir.Keys, n)
    ensures FileName(k, n) in Next(keep, s, e).dir
  {
    ReachableInv(keep, s);
    var f :| f in s.dir.Keys && NumberOf(k, f) == Some(n);
    assert KindInv(keep, k, s.dir, s.ever);
    assert f == FileName(k, n) && f in s.ever;
    if e.Rename? {
      RenameNeverOverwrites(keep, s);
    } else {
      hide NumberOf, FileName, NumbersIn, Reachable, Enabled, Inv;
      var s' := Next(keep, s, e);
      StepInv(keep, s, e);
      StepNumbers(keep, k, s, e);
      NewestSuperseded(keep, s', k, f, n);
      assert Newer(NumbersIn(k, s'.dir.Keys), n) == {};
    }
  }

  lemma NewestSuperseded(keep: nat, s: State, k: Kind, f: string, n: nat)
    requires Inv(keep, s) && f in s.ever && NumberOf(k, f) == Some(n)
    ensures f in s.dir || |Newer(NumbersIn(k, s.dir.Keys), n)| >= keep
  {
    hide NumberOf, NumbersIn;
    assert KindInv(keep, k, s.dir, s.ever);
  }

  /** The numbers of kind k that renames publish along a run. */
  ghost function PublishedIn(keep: nat, k: Kind, s: State, es: seq<Event>): set<nat>
    requires Feasible(keep, s, es)
    decreases |es|
  {
    if es == [] then {}
    else (if es[0].Rename? then PublishedNumber(k, s) else {}) + PublishedIn(keep, k, Next(keep, s, es[0]), es[1..])
  }

  lemma {:induction false} RunNumbers(keep: nat, k: Kind, s: State, es: seq<Event>)
    requires Inv(keep, s) && keep >= 1 && Feasible(keep, s, es)
    ensures NumbersIn(k, After(keep, s, es).dir.Keys) <= NumbersIn(k, s.dir.Keys) + PublishedIn(keep, k, s, es)
    decreases |es|
  {
    if es == [] {
    } else {
      StepNumbers(keep, k, s, es[0]);
      StepInv(keep, s, es[0]);
      hide Inv, Next, NumbersIn, PublishedNumber, Enabled;
      RunNumbers(keep, k, Next(keep, s, es[0]), es[1..]);
    }
  }

  /** A file a reload selected as newest leaves the directory only after `keep` newer ones of its
      kind were published since the selection. */
  lemma SelectedOutlivesKeepPublications(keep: nat, s: State, id: nat, f: string, es: seq<Event>)
    requires keep >= 1 && Reachable(keep, s) && Enabled(keep, s, Select(id, Some(f)))
    requires Feasible(keep, Next(keep, s, Select(id, Some(f))), es)
    ensures var k, s1 := s.reloads[id].kind, Next(keep, s, Select(id, Some(f)));
      f !in After(keep, s1, es).dir ==>
        |PublishedIn(keep, k, s1, es)| >= keep &&
        |Newer(NumbersIn(k, After(keep, s1, es).dir.Keys), NumberOf(k, f).value)| >= keep
  {
    ReachableInv(keep, s);
    var k, s1 := s.reloads[id].kind, Next(keep, s, Select(id, Some(f)));
    StepInv(keep, s, Select(id, Some(f)));
    var n := NumberOf(k, f).value;
    assert f in s.ever && s1.dir == s.dir && s1.ever == s.ever by { assert KindInv(keep, k, s.dir, s.ever); }
    hide NumberOf, NumbersIn, Reachable, Inv, Enabled, Next, Feasible;
    RunInv(keep, s1, es);
    RunNumbers(keep, k, s1, es);
    var t := After(keep, s1, es);
    NewestSuperseded(keep, t, k, f, n);
    assert Newer(NumbersIn(k, t.dir.Keys), n) <= PublishedIn(keep, k, s1, es);
    SubsetCardinality(Newer(NumbersIn(k, t.dir.Keys), n), PublishedIn(keep, k, s1, es));
  }

  /** So an open that comes before that finds the name, and reads exactly the selected content. */
  lemma OpenReadsSelection(keep: nat, s: State, id: nat, f: string, es: seq<Event>)
    requires keep >= 1 && Reachable(keep, s) && Enabled(keep, s, Select(id, Some(f)))
    requires Feasible(keep, Next(keep, s, Select(id, Some(f))), es)
    requires |PublishedIn(keep, s.reloads[id].kind, Next(keep, s, Select(id, Some(f))), es)| < keep
    ensures var t := After(keep, Next(keep, s, Select(id, Some(f))), es); f in t.dir && t.dir[f] == s.dir[f]
  {
    var e := Select(id, Some(f));
    var k, s1 := s.reloads[id].kind, Next(keep, s, e);
    hide NumberOf, NumbersIn, Reachable, Feasible, After, PublishedIn, Next;
    SelectedOutlivesKeepPublications(keep, s, id, f, es);
    ReachableInv(keep, s);
    StepInv(keep, s, e);
    ReloadOnly(keep, s, e);
    RunInv(keep, s1, es);
    assert KindInv(keep, k, s.dir, s.ever);
    assert KindInv(keep, k, After(keep, s1, es).dir, After(keep, s1, es).ever);
  }

  /** Every published list is the initial empty one or the complete parse of one numbered file of
      its kind that was visible in the run: never a half-written or a mixed one. */
  lemma PublishedListsAreWholeFiles(keep: nat, s: State, k: Kind)
    requires keep >= 1 && Reachable(keep, s)
    ensures (ListOf(s.lists, k) == {} && s.gens.Of(k) == []) ||
      (exists f :: f in s.ever && NumberOf(k, f).Some? && ListOf(s.lists, k) == Keys(s.ever[f]))
    ensures s.serving ==> s.gens.Of(k) != []
  {
    hide NumberOf, Reachable, Keys;
    ReachableInv(keep, s);
    if s.gens.Of(k) != [] {
      var c := s.gens.Of(k)[|s.gens.Of(k)| - 1];
      assert FromFile(s.ever, k, c);
    }
  }

  /** In every state that serves requests, whatever reloads are half done: a name blacklisted and
      not whitelisted in all generations published so far is dropped; one that no published
      blacklist or ads list holds is kept. */
  lemma VerdictsStable(keep: nat, s: State, domain: string, categories: nat)
    requires keep >= 1 && Reachable(keep, s) && s.serving
    ensures (forall c :: c in s.gens.black ==> LookupKey(domain) in Keys(c)) &&
            (forall c :: c in s.gens.white ==> LookupKey(domain) !in Keys(c))
            ==> IsRestricted(s.lists, domain, categories)
    ensures (forall c :: c in s.gens.black ==> LookupKey(domain) !in Keys(c)) &&
            (forall c :: c in s.gens.ads ==> LookupKey(domain) !in Keys(c))
            ==> !IsRestricted(s.lists, domain, categories)
  {
    hide NumberOf, Reachable, Keys, LookupKey;
    ReachableInv(keep, s);
    assert s.gens.Of(Whitelist) == s.gens.white && s.gens.Of(Blacklist) == s.gens.black && s.gens.Of(Adslist) == s.gens.ads;
    assert ListOf(s.lists, Whitelist) == s.lists.white && ListOf(s.lists, Blacklist) == s.lists.black
      && ListOf(s.lists, Adslist) == s.lists.ads;
  }

  // ----- where the conditions bite ----------------------------------------------------------

  lemma {:induction false} CountFromNewest(numbers: seq<nat>, n: nat)
    requires forall i :: 0 <= i < |numbers| ==> numbers[i] <= n
    ensures CountFrom(numbers, n) == multiset(numbers)[n]
  {
    if numbers == [] {
    } else {
      CountFromNewest(numbers[..|numbers| - 1], n);
      assert numbers == numbers[..|numbers| - 1] + [numbers[|numbers| - 1]];
    }
  }

  /** In any directory, the name kept for the greatest number is pruned exactly when more than
      `keep` entries carry that number. */
  lemma NewestPrunedIff(k: Kind, names: seq<string>, keep: int, n: nat)
    requires n in NamesByNumber(k, names) && IsNewest(k, Elements(names), n)
    ensures NamesByNumber(k, names)[n] in Victims(k, names, keep) <==> multiset(Collected(k, names))[n] > keep
  {
    hide NumberOf, NumbersIn, Victims, Collected;
    VictimsExactly(k, names, keep, NamesByNumber(k, names)[n]);
    CollectedElements(k, names);
    var numbers := Collected(k, names);
    forall i | 0 <= i < |numbers| ensures numbers[i] <= n { assert numbers[i] in Elements(numbers); }
    CountFromNewest(numbers, n);
  }

  /** With canonical names that is exactly when `keep` is not positive. */
  lemma CanonicalNewestPrunedIff(k: Kind, names: seq<string>, keep: int, f: string)
    requires Distinct(names) && Canonical(k, Elements(names))
    requires f in names && NumberOf(k, f).Some? && IsNewest(k, Elements(names), NumberOf(k, f).value)
    ensures f in Victims(k, names, keep) <==> keep <= 0
  {
    hide NumberOf, NumbersIn, Victims, Canonical;
    CanonicalVictims(k, names, keep, f);
    assert Newer(NumbersIn(k, Elements(names)), NumberOf(k, f).value) == {};
  }

  /** With a leading zero in the directory the file a scan selects as newest can be pruned although
      nothing newer exists. */
  lemma LeadingZeroPrunesNewest()
    ensures var names := ["whitelist.5.txt", "whitelist.05.txt"];
      Victims(Whitelist, names, 1) == ["whitelist.05.txt"] &&
      NumberOf(Whitelist, "whitelist.05.txt") == Some(5) && IsNewest(Whitelist, Elements(names), 5)
  {
    LeadingZeroNumbers();
    hide NumberOf;
    var a, b := "whitelist.5.txt", "whitelist.05.txt";
    var names := [a, b];
    assert names[..1] == [a];
    assert Collected(Whitelist, [a]) == [5] && Collected(Whitelist, names) == [5, 5];
    assert [5, 5][..1] == [5];
    assert Sort([5]) == [5] && Insert(5, [5]) == [5, 5];
    assert Sort([5, 5]) == [5, 5];
    assert NamesByNumber(Whitelist, [a]) == map[5 := a];
    assert NamesByNumber(Whitelist, names) == map[5 := b];
    assert NumbersIn(Whitelist, Elements(names)) == {5};
  }

  lemma LeadingZeroNumbers()
    ensures NumberOf(Whitelist, "whitelist.5.txt") == Some(5) && NumberOf(Whitelist, "whitelist.05.txt") == Some(5)
  {
    var a, b := "whitelist.5.txt", "whitelist.05.txt";
    var p := "whitelist.";
    assert a[|p|..|a| - 4] == "5" && b[|p|..|b| - 4] == "05";
    assert a[..|p|] == p && b[..|p|] == p && a[|a| - 4..] == ".txt" && b[|b| - 4..] == ".txt";
    assert Numeral("5") == 5;
    assert "05"[..1] == "0" && Numeral("0") == 0 && Numeral("05") == 5;
  }
}
