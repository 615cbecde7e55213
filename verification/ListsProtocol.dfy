/** One updater and any number of server reloads over a shared directory, as a transition system.
    Every event is one atomic step; a run is any feasible sequence of events. */
module ListsProtocol {
  import opened Text
  import opened Rotation
  import opened Lists

  /** Where the updater is inside process(). `spared` records the numbers a pruning pass keeps. */
  datatype Updater =
    | Writing(kind: Kind)
    | Scanning(kind: Kind)
    | Renaming(kind: Kind, max: int)
    | Listing(kind: Kind)
    | Pruning(kind: Kind, victims: seq<string>, spared: set<nat>)

  /** Where one readLists call is. */
  datatype Reload =
    | Selecting(kind: Kind)
    | Selected(kind: Kind, name: string)
    | Opened(kind: Kind, content: string)

  /** The contents whose parse was published so far, list by list, oldest first. */
  datatype Generations = Generations(white: seq<string>, black: seq<string>, ads: seq<string>) {
    function Of(k: Kind): seq<string>
    {
      match k case Whitelist => white case Blacklist => black case Adslist => ads
    }
    function Add(k: Kind, content: string): Generations
    {
      match k
      case Whitelist => this.(white := white + [content])
      case Blacklist => this.(black := black + [content])
      case Adslist => this.(ads := ads + [content])
    }
  }

  /** `ever` and `gens` are history: every numbered file that was ever visible, every published content. */
  datatype State = State(
    dir: map<string, string>,
    updater: Updater,
    reloads: map<nat, Reload>,
    lists: Published,
    serving: bool,
    ever: map<string, string>,
    gens: Generations)

  datatype Event =
    | Write(content: string)                   // the .new file now holds this, complete or not
    | Written
    | Scan(max: int)
    | Rename
    | List(names: seq<string>)                 // what the directory read delivered, perhaps not all
    | Remove(refused: bool)
    | Abort                                    // any error return, or a restart of the updater
    | StartReload(id: nat)
    | Select(id: nat, choice: Option<string>)
    | Open(id: nat)
    | Publish(id: nat)
    | FailReload(id: nat)

  function ListOf(lists: Published, k: Kind): set<string>
  {
    match k case Whitelist => lists.white case Blacklist => lists.black case Adslist => lists.ads
  }

  ghost function WithList(lists: Published, k: Kind, content: string): Published
  {
    match k
    case Whitelist => lists.(white := Keys(content))
    case Blacklist => lists.(black := Keys(content))
    case Adslist => lists.(ads := Keys(content))
  }

  ghost predicate Init(s: State)
  {
    && (forall k :: Canonical(k, s.dir.Keys))
    && s.updater == Writing(Whitelist)
    && s.reloads == map[]
    && s.lists == Published({}, {}, {})
    && !s.serving
    && s.ever == (map f | f in s.dir && Numbered(f) :: s.dir[f])
    && s.gens == Generations([], [], [])
  }

  ghost predicate Numbered(f: string) { exists k :: NumberOf(k, f).Some? }

  // ----- the steps --------------------------------------------------------------------

  /** What the server's directory scan may return (the contract of Rotation.NewestName). */
  ghost predicate ScanResult(k: Kind, names: set<string>, choice: Option<string>)
  {
    match choice
    case None => NumbersIn(k, names) == {}
    case Some(f) => f in names && NumberOf(k, f).Some? && IsNewest(k, names, NumberOf(k, f).value)
  }

  function AfterPruning(k: Kind): Updater { if k.Whitelist? then Listing(Blacklist) else Writing(Whitelist) }

  ghost predicate Enabled(keep: nat, s: State, e: Event)
  {
    match e
    case Write(_) => s.updater.Writing?
    case Written => s.updater.Writing?
    case Scan(max) => s.updater.Scanning? && max <= MAX_INT64 && -1 <= max && IsNewest(s.updater.kind, s.dir.Keys, max)
    case Rename => s.updater.Renaming? && -1 <= s.updater.max <= MAX_INT64 && NewName(s.updater.kind) in s.dir
    case List(names) => s.updater.Listing? && Draws(names, s.dir.Keys)
    case Remove(_) => s.updater.Pruning? && s.updater.victims != []
    case Abort => true
    case StartReload(id) => id !in s.reloads
    case Select(id, choice) =>
      id in s.reloads && s.reloads[id].Selecting? && ScanResult(s.reloads[id].kind, s.dir.Keys, choice)
    case Open(id) => id in s.reloads && s.reloads[id].Selected?
    case Publish(id) => id in s.reloads && s.reloads[id].Opened?
    case FailReload(id) => id in s.reloads
  }

  ghost function Next(keep: nat, s: State, e: Event): State
    requires Enabled(keep, s, e)
  {
    match e
    case Write(content) => s.(dir := s.dir[NewName(s.updater.kind) := content])
    case Written => s.(updater := if s.updater.kind.Whitelist? then Writing(Blacklist) else Scanning(Whitelist))
    case Scan(max) => s.(updater := Renaming(s.updater.kind, max))
    case Rename => Renamed(s)
    case List(names) =>
      var k := s.updater.kind;
      var victims := Victims(k, names, keep);
      s.(updater := if victims == [] then AfterPruning(k) else Pruning(k, victims, Spared(k, names, keep)))
    case Remove(refused) => Removed(s, refused)
    case Abort => s.(updater := Writing(Whitelist))
    case StartReload(id) => s.(reloads := s.reloads[id := Selecting(Whitelist)])
    case Select(id, choice) =>
      if choice.None? then s.(reloads := s.reloads - {id})
      else s.(reloads := s.reloads[id := Selected(s.reloads[id].kind, choice.value)])
    case Open(id) =>
      var name := s.reloads[id].name;
      if name in s.dir then s.(reloads := s.reloads[id := Opened(s.reloads[id].kind, s.dir[name])])
      else s.(reloads := s.reloads - {id})
    case Publish(id) => PublishedBy(s, id)
    case FailReload(id) => s.(reloads := s.reloads - {id})
  }

  ghost function Renamed(s: State): State
    requires s.updater.Renaming? && -1 <= s.updater.max <= MAX_INT64 && NewName(s.updater.kind) in s.dir
  {
    var k, m := s.updater.kind, s.updater.max;
    var target, content := TargetName(k, m), s.dir[NewName(k)];
    s.(dir := (s.dir - {NewName(k)})[target := content],
       ever := if m < MAX_INT64 then s.ever[target := content] else s.ever,
       updater := if k.Whitelist? then Scanning(Blacklist) else Listing(Whitelist))
  }

  ghost function Removed(s: State, refused: bool): State
    requires s.updater.Pruning? && s.updater.victims != []
  {
    var u := s.updater;
    var rest := u.victims[1..];
    s.(dir := if refused then s.dir else s.dir - {u.victims[0]},
       updater := if rest != [] then u.(victims := rest) else AfterPruning(u.kind))
  }

  ghost function PublishedBy(s: State, id: nat): State
    requires id in s.reloads && s.reloads[id].Opened?
  {
    var Opened(k, content) := s.reloads[id];
    var t := s.(lists := WithList(s.lists, k, content), gens := s.gens.Add(k, content));
    match k
    case Whitelist => t.(reloads := s.reloads[id := Selecting(Blacklist)])
    case Blacklist => t.(reloads := s.reloads[id := Selecting(Adslist)])
    case Adslist => t.(reloads := s.reloads - {id}, serving := true)
  }

  ghost predicate Feasible(keep: nat, s: State, es: seq<Event>)
    decreases |es|
  {
    es == [] || (Enabled(keep, s, es[0]) && Feasible(keep, Next(keep, s, es[0]), es[1..]))
  }

  ghost function After(keep: nat, s: State, es: seq<Event>): State
    requires Feasible(keep, s, es)
    decreases |es|
  {
    if es == [] then s else After(keep, Next(keep, s, es[0]), es[1..])
  }

  ghost predicate Reachable(keep: nat, s: State)
  {
    exists s0, es :: Init(s0) && Feasible(keep, s0, es) && After(keep, s0, es) == s
  }

  // ----- the invariant ------------------------------------------------------------------

  /** At least `keep` numbers above n are in the directory. */
  ghost predicate Superseded(keep: nat, k: Kind, dir: set<string>, n: nat)
  {
    |Newer(NumbersIn(k, dir), n)| >= keep
  }

  ghost predicate FromFile(ever: map<string, string>, k: Kind, content: string)
  {
    exists f :: f in ever && NumberOf(k, f).Some? && ever[f] == content
  }

  /** The files of one kind: canonical, recorded as visible, and absent only when superseded. */
  ghost predicate KindInv(keep: nat, k: Kind, dir: map<string, string>, ever: map<string, string>)
  {
    && Canonical(k, dir.Keys)
    && Canonical(k, ever.Keys)
    && (forall f :: f in dir && NumberOf(k, f).Some? ==> f in ever && ever[f] == dir[f])
    && (forall f :: f in ever && NumberOf(k, f).Some? ==>
          f in dir || Superseded(keep, k, dir.Keys, NumberOf(k, f).value))
  }

  ghost predicate FilesInv(keep: nat, dir: map<string, string>, ever: map<string, string>)
  {
    forall k :: KindInv(keep, k, dir, ever)
  }

  ghost predicate UpdaterInv(keep: nat, dir: map<string, string>, u: Updater)
  {
    match u
    case Renaming(k, m) => IsNewest(k, dir.Keys, m)
    case Pruning(k, victims, spared) =>
      && (victims != [] ==> |spared| == keep)
      && spared <= NumbersIn(k, dir.Keys)
      && (forall v, x :: v in victims && x in spared ==> NumberOf(k, v).Some? && NumberOf(k, v).value < x)
    case _ => true
  }

  ghost predicate ReloadInv(ever: map<string, string>, gens: Generations, r: Reload)
  {
    && (r.Selected? ==> r.name in ever && NumberOf(r.kind, r.name).Some?)
    && (r.Opened? ==> FromFile(ever, r.kind, r.content))
    && (!r.kind.Whitelist? ==> gens.white != [])
    && (r.kind.Adslist? ==> gens.black != [])
  }

  ghost predicate ListsInv(ever: map<string, string>, gens: Generations, lists: Published, serving: bool)
  {
    && (forall k, c :: c in gens.Of(k) ==> FromFile(ever, k, c))
    && (forall k :: ListOf(lists, k) == if gens.Of(k) == [] then {} else Keys(gens.Of(k)[|gens.Of(k)| - 1]))
    && (serving ==> forall k :: gens.Of(k) != [])
  }

  ghost predicate Inv(keep: nat, s: State)
  {
    && FilesInv(keep, s.dir, s.ever)
    && UpdaterInv(keep, s.dir, s.updater)
    && (forall id :: id in s.reloads ==> ReloadInv(s.ever, s.gens, s.reloads[id]))
    && ListsInv(s.ever, s.gens, s.lists, s.serving)
  }

  lemma SubsetCardinality<T>(a: set<T>, b: set<T>)
    requires a <= b
    ensures |a| <= |b|
  {
    assert b == a + (b - a);
  }

  /** Numbered files of a kind unchanged, in both maps: the kind's invariant carries over. */
  lemma KindUnchanged(keep: nat, k: Kind, dir: map<string, string>, ever: map<string, string>,
                      dir': map<string, string>, ever': map<string, string>)
    requires KindInv(keep, k, dir, ever)
    requires forall f :: NumberOf(k, f).Some? ==> (f in dir <==> f in dir') && (f in ever <==> f in ever')
    requires forall f :: NumberOf(k, f).Some? && f in dir ==> dir[f] == dir'[f]
    requires forall f :: NumberOf(k, f).Some? && f in ever ==> ever[f] == ever'[f]
    ensures KindInv(keep, k, dir', ever') && NumbersIn(k, dir'.Keys) == NumbersIn(k, dir.Keys)
  {
    hide NumberOf, FileName;
    assert NumbersIn(k, dir'.Keys) == NumbersIn(k, dir.Keys);
  }

  lemma WriteKeepsFiles(keep: nat, dir: map<string, string>, ever: map<string, string>, j: Kind, content: string)
    requires FilesInv(keep, dir, ever)
    ensures FilesInv(keep, dir[NewName(j) := content], ever)
  {
    hide NumberOf, NewName, KindInv;
    var dir' := dir[NewName(j) := content];
    forall k ensures KindInv(keep, k, dir', ever) {
      assert KindInv(keep, k, dir, ever);
      UnnumberedNames(k, j);
      KindUnchanged(keep, k, dir, ever, dir', ever);
    }
  }

  /** A scan that found m, then the rename: the target is new to the whole run and newest. */
  lemma TargetIsFresh(keep: nat, dir: map<string, string>, ever: map<string, string>, j: Kind, m: int)
    requires KindInv(keep, j, dir, ever) && IsNewest(j, dir.Keys, m) && -1 <= m < MAX_INT64 && keep >= 1
    ensures TargetName(j, m) !in ever && TargetName(j, m) !in dir
    ensures NumberOf(j, TargetName(j, m)) == Some(m + 1)
    ensures forall f :: f in ever && NumberOf(j, f).Some? ==> NumberOf(j, f).value <= m
  {
    NumberOfFileName(j, m + 1);
    hide NumberOf, FileName;
    forall f | f in ever && NumberOf(j, f).Some? ensures NumberOf(j, f).value <= m {
      var n := NumberOf(j, f).value;
      if f !in dir {
        var newer := Newer(NumbersIn(j, dir.Keys), n);
        assert newer != {};
        var x :| x in newer;
        assert x <= m;
      }
    }
  }

  /** One more file, with a fresh canonical name. */
  lemma KindExtended(keep: nat, k: Kind, dir: map<string, string>, ever: map<string, string>, f: string, content: string)
    requires KindInv(keep, k, dir, ever)
    requires NumberOf(k, f).Some? && f == FileName(k, NumberOf(k, f).value)
    ensures KindInv(keep, k, dir[f := content], ever[f := content])
    ensures NumbersIn(k, dir[f := content].Keys) == NumbersIn(k, dir.Keys) + {NumberOf(k, f).value}
  {
    hide NumberOf, FileName;
    var dir' := dir[f := content];
    assert dir'.Keys == dir.Keys + {f};
    NumbersInExtend(k, dir.Keys, f);
    forall g | g in ever[f := content] && NumberOf(k, g).Some? && g !in dir'
      ensures Superseded(keep, k, dir'.Keys, NumberOf(k, g).value)
    {
      SubsetCardinality(Newer(NumbersIn(k, dir.Keys), NumberOf(k, g).value),
                        Newer(NumbersIn(k, dir'.Keys), NumberOf(k, g).value));
    }
  }

  /** The rename seen by one selector: its kind gains the fresh number, any other kind nothing. */
  lemma RenameKeepsKind(keep: nat, k: Kind, s: State)
    requires KindInv(keep, k, s.dir, s.ever) && s.updater.Renaming? && -1 <= s.updater.max <= MAX_INT64
    requires NewName(s.updater.kind) in s.dir
    ensures KindInv(keep, k, Renamed(s).dir, Renamed(s).ever)
    ensures NumbersIn(k, Renamed(s).dir.Keys) == NumbersIn(k, s.dir.Keys) + PublishedNumber(k, s)
  {
    hide NumberOf, NewName, FileName, TargetName, KindInv, NumbersIn;
    var j, m := s.updater.kind, s.updater.max;
    var target, content := TargetName(j, m), s.dir[NewName(j)];
    var moved := s.dir - {NewName(j)};
    UnnumberedNames(k, j);
    KindUnchanged(keep, k, s.dir, s.ever, moved, s.ever);
    TargetNumber(k, j, m);
    if k == j && m < MAX_INT64 {
      KindExtended(keep, k, moved, s.ever, target, content);
    } else {
      KindUnchanged(keep, k, moved, s.ever, Renamed(s).dir, Renamed(s).ever);
    }
  }

  lemma TargetNumber(k: Kind, j: Kind, m: int)
    requires -1 <= m <= MAX_INT64
    ensures NumberOf(k, TargetName(j, m)) == if k == j && m < MAX_INT64 then Some(m + 1) else None
    ensures m < MAX_INT64 ==> TargetName(j, m) == FileName(j, m + 1)
  {
    hide NumberOf;
    UnnumberedNames(k, j);
    if m < MAX_INT64 {
      NumberOfFileName(j, m + 1);
      if k != j { NumberOfOtherKind(j, k, TargetName(j, m)); }
    }
  }

  /** The number that a rename in state s makes visible under the selector of kind k. */
  ghost function PublishedNumber(k: Kind, s: State): set<nat>
    requires s.updater.Renaming? && -1 <= s.updater.max <= MAX_INT64
  {
    if s.updater.kind == k && s.updater.max < MAX_INT64 then {s.updater.max + 1} else {}
  }

  /** Removing one victim keeps the spared numbers, so everything absent stays superseded. */
  lemma RemoveKeepsKind(keep: nat, k: Kind, dir: map<string, string>, ever: map<string, string>, u: Updater)
    requires KindInv(keep, k, dir, ever) && UpdaterInv(keep, dir, u) && u.Pruning? && u.victims != [] && keep >= 1
    ensures KindInv(keep, k, dir - {u.victims[0]}, ever)
    ensures u.spared <= NumbersIn(u.kind, (dir - {u.victims[0]}).Keys)
  {
    hide NumberOf, FileName;
    var j, v := u.kind, u.victims[0];
    var dir' := dir - {v};
    assert dir'.Keys == dir.Keys - {v};
    assert u.spared != {};
    var y :| y in u.spared;
    assert v in u.victims;
    var d := NumberOf(j, v).value;
    forall x | x in u.spared ensures x in NumbersIn(j, dir'.Keys) {
      var f :| f in dir.Keys && NumberOf(j, f) == Some(x);
      assert f in dir'.Keys;
    }
    if k != j {
      NumberOfOtherKind(j, k, v);
      KindUnchanged(keep, k, dir, ever, dir', ever);
    } else {
      forall f | f in ever && NumberOf(k, f).Some? && f !in dir'
        ensures Superseded(keep, k, dir'.Keys, NumberOf(k, f).value)
      {
        var n := NumberOf(k, f).value;
        if f != v && d !in Newer(NumbersIn(k, dir.Keys), n) {
          NewerWithout(k, dir.Keys, v, n);
        } else {
          assert forall x :: x in u.spared ==> x > d >= n;
          SubsetCardinality(u.spared, Newer(NumbersIn(k, dir'.Keys), n));
        }
      }
    }
  }

  lemma NewerWithout(k: Kind, names: set<string>, v: string, n: nat)
    requires NumberOf(k, v).Some? && NumberOf(k, v).value !in Newer(NumbersIn(k, names), n)
    ensures Newer(NumbersIn(k, names - {v}), n) == Newer(NumbersIn(k, names), n)
  {
    hide NumberOf;
    forall x | x in Newer(NumbersIn(k, names), n) ensures x in NumbersIn(k, names - {v}) {
      var f :| f in names && NumberOf(k, f) == Some(x);
      assert f in names - {v};
    }
  }

  // ----- the invariant holds in every run -------------------------------------------------

  lemma InitInv(keep: nat, s: State)
    requires Init(s)
    ensures Inv(keep, s)
  {
    hide NumberOf, FileName;
    forall k ensures KindInv(keep, k, s.dir, s.ever) {
      assert Canonical(k, s.dir.Keys);
      assert forall f :: f in s.dir && NumberOf(k, f).Some? ==> Numbered(f);
    }
  }

  /** History only grows, and never changes what it recorded. */
  ghost predicate Grows(ever: map<string, string>, ever': map<string, string>)
  {
    forall f :: f in ever ==> f in ever' && ever'[f] == ever[f]
  }

  predicate IsUpdaterEvent(e: Event)
  {
    e.Write? || e.Written? || e.Scan? || e.Rename? || e.List? || e.Remove? || e.Abort?
  }

  lemma RenameStep(keep: nat, s: State)
    requires Inv(keep, s) && keep >= 1 && Enabled(keep, s, Rename)
    ensures FilesInv(keep, Renamed(s).dir, Renamed(s).ever) && Grows(s.ever, Renamed(s).ever)
  {
    var s' := Renamed(s);
    hide NumberOf, FileName, NewName, TargetName, KindInv, Renamed;
    forall k ensures KindInv(keep, k, s'.dir, s'.ever) {
      assert KindInv(keep, k, s.dir, s.ever);
      RenameKeepsKind(keep, k, s);
    }
    assert Grows(s.ever, s'.ever) by { RenameGrows(keep, s); }
  }

  lemma RenameGrows(keep: nat, s: State)
    requires Inv(keep, s) && keep >= 1 && Enabled(keep, s, Rename)
    ensures Grows(s.ever, Renamed(s).ever)
  {
    hide NumberOf, FileName, NewName, TargetName, NumbersIn;
    var k, m := s.updater.kind, s.updater.max;
    assert KindInv(keep, k, s.dir, s.ever);
    if m < MAX_INT64 {
      TargetIsFresh(keep, s.dir, s.ever, k, m);
    }
  }

  lemma RemoveStep(keep: nat, s: State, refused: bool)
    requires Inv(keep, s) && keep >= 1 && Enabled(keep, s, Remove(refused))
    ensures FilesInv(keep, Removed(s, refused).dir, s.ever)
    ensures UpdaterInv(keep, Removed(s, refused).dir, Removed(s, refused).updater)
  {
    hide NumberOf, FileName, KindInv, NumbersIn;
    var dir' := s.dir - {s.updater.victims[0]};
    forall k ensures KindInv(keep, k, dir', s.ever) {
      assert KindInv(keep, k, s.dir, s.ever);
      RemoveKeepsKind(keep, k, s.dir, s.ever, s.updater);
    }
    assert KindInv(keep, s.updater.kind, s.dir, s.ever);
    RemoveKeepsKind(keep, s.updater.kind, s.dir, s.ever, s.updater);
  }

  lemma UpdaterStep(keep: nat, s: State, e: Event)
    requires Inv(keep, s) && keep >= 1 && Enabled(keep, s, e) && IsUpdaterEvent(e)
    ensures var s' := Next(keep, s, e);
      FilesInv(keep, s'.dir, s'.ever) && UpdaterInv(keep, s'.dir, s'.updater) && Grows(s.ever, s'.ever)
  {
    hide NumberOf, FileName, NewName, TargetName, KindInv, NumbersIn, Victims, Spared, Renamed, Removed;
    match e
    case Write(content) => WriteKeepsFiles(keep, s.dir, s.ever, s.updater.kind, content);
    case Rename => RenameStep(keep, s); RenameLeaves(s);
    case List(names) =>
      assert KindInv(keep, s.updater.kind, s.dir, s.ever);
      ListStep(keep, s.updater.kind, s.dir, s.ever, names);
    case Remove(refused) => RemoveStep(keep, s, refused); RemoveLeaves(s, refused);
    case _ =>
  }

  lemma RenameLeaves(s: State)
    requires s.updater.Renaming? && -1 <= s.updater.max <= MAX_INT64 && NewName(s.updater.kind) in s.dir
    ensures Renamed(s).updater.Scanning? || Renamed(s).updater.Listing?
  {
    hide NewName, TargetName;
  }

  lemma RemoveLeaves(s: State, refused: bool)
    requires s.updater.Pruning? && s.updater.victims != []
    ensures Removed(s, refused).ever == s.ever
  {
  }

  lemma ListStep(keep: nat, k: Kind, dir: map<string, string>, ever: map<string, string>, names: seq<string>)
    requires KindInv(keep, k, dir, ever) && Draws(names, dir.Keys) && keep >= 1
    ensures UpdaterInv(keep, dir, Pruning(k, Victims(k, names, keep), Spared(k, names, keep)))
  {
    hide NumberOf, FileName, Victims, Spared;
    VictimsBelowSpared(k, names, keep);
    assert NumbersIn(k, Elements(names)) <= NumbersIn(k, dir.Keys);
  }

  lemma FromFileGrows(ever: map<string, string>, ever': map<string, string>, k: Kind, content: string)
    requires Grows(ever, ever') && FromFile(ever, k, content)
    ensures FromFile(ever', k, content)
  {
    hide NumberOf;
    var f :| f in ever && NumberOf(k, f).Some? && ever[f] == content;
    assert f in ever' && ever'[f] == content;
  }

  lemma HistoryGrows(keep: nat, s: State, ever': map<string, string>)
    requires Inv(keep, s) && Grows(s.ever, ever')
    ensures forall id :: id in s.reloads ==> ReloadInv(ever', s.gens, s.reloads[id])
    ensures ListsInv(ever', s.gens, s.lists, s.serving)
  {
    hide NumberOf, FilesInv, UpdaterInv, FromFile;
    forall id | id in s.reloads ensures ReloadInv(ever', s.gens, s.reloads[id]) {
      var r := s.reloads[id];
      assert ReloadInv(s.ever, s.gens, r);
      if r.Opened? { FromFileGrows(s.ever, ever', r.kind, r.content); }
    }
    forall k, c | c in s.gens.Of(k) ensures FromFile(ever', k, c) {
      FromFileGrows(s.ever, ever', k, c);
    }
  }

  lemma PublishedLists(ever: map<string, string>, gens: Generations, lists: Published, serving: bool, serving': bool,
                       j: Kind, content: string)
    requires ListsInv(ever, gens, lists, serving) && FromFile(ever, j, content)
    requires serving' ==> serving || (j.Adslist? && gens.white != [] && gens.black != [])
    ensures ListsInv(ever, gens.Add(j, content), WithList(lists, j, content), serving')
  {
    hide FromFile, Keys;
    var gens', lists' := gens.Add(j, content), WithList(lists, j, content);
    forall k
      ensures gens'.Of(k) == if k == j then gens.Of(k) + [content] else gens.Of(k)
      ensures ListOf(lists', k) == if k == j then Keys(content) else ListOf(lists, k)
    {
    }
    assert gens.Of(Whitelist) == gens.white && gens.Of(Blacklist) == gens.black;
    forall k, c | c in gens'.Of(k) ensures FromFile(ever, k, c) {
      assert c in gens.Of(k) || (k == j && c == content);
    }
  }

  lemma PublishStep(keep: nat, s: State, id: nat)
    requires Inv(keep, s) && Enabled(keep, s, Publish(id))
    ensures Inv(keep, PublishedBy(s, id))
  {
    hide NumberOf, FilesInv, UpdaterInv, FromFile, Keys, ListsInv, WithList;
    var s' := PublishedBy(s, id);
    var Opened(j, content) := s.reloads[id];
    assert ReloadInv(s.ever, s.gens, s.reloads[id]);
    PublishedLists(s.ever, s.gens, s.lists, s.serving, s'.serving, j, content);
    forall other | other in s'.reloads ensures ReloadInv(s'.ever, s'.gens, s'.reloads[other]) {
      if other != id { assert ReloadInv(s.ever, s.gens, s.reloads[other]); }
    }
  }

  lemma ReloadStep(keep: nat, s: State, e: Event)
    requires Inv(keep, s) && Enabled(keep, s, e) && !IsUpdaterEvent(e)
    ensures Inv(keep, Next(keep, s, e))
  {
    if e.Publish? {
      PublishStep(keep, s, e.id);
    } else {
      hide NumberOf, UpdaterInv, ListsInv, NumbersIn, FileName, Superseded;
      var s' := Next(keep, s, e);
      forall id | id in s'.reloads ensures ReloadInv(s'.ever, s'.gens, s'.reloads[id]) {
        if id in s.reloads { assert ReloadInv(s.ever, s.gens, s.reloads[id]); }
        if !e.StartReload? && id == e.id {
          assert KindInv(keep, s.reloads[id].kind, s.dir, s.ever);
        }
      }
    }
  }

  lemma StepInv(keep: nat, s: State, e: Event)
    requires Inv(keep, s) && keep >= 1 && Enabled(keep, s, e)
    ensures Inv(keep, Next(keep, s, e)) && Grows(s.ever, Next(keep, s, e).ever)
  {
    hide FilesInv, UpdaterInv, ReloadInv, ListsInv, Enabled;
    if IsUpdaterEvent(e) {
      UpdaterStep(keep, s, e);
      HistoryGrows(keep, s, Next(keep, s, e).ever);
      UpdaterOnly(keep, s, e);
    } else {
      ReloadStep(keep, s, e);
      ReloadOnly(keep, s, e);
    }
  }

  lemma UpdaterOnly(keep: nat, s: State, e: Event)
    requires Enabled(keep, s, e) && IsUpdaterEvent(e)
    ensures var s' := Next(keep, s, e);
      s'.reloads == s.reloads && s'.lists == s.lists && s'.serving == s.serving && s'.gens == s.gens
  {
    hide NewName, TargetName, Victims, Spared, Draws, IsNewest;
  }

  lemma ReloadOnly(keep: nat, s: State, e: Event)
    requires Enabled(keep, s, e) && !IsUpdaterEvent(e)
    ensures var s' := Next(keep, s, e); s'.dir == s.dir && s'.updater == s.updater && s'.ever == s.ever
  {
    hide NumberOf, NumbersIn, Keys;
  }

  /** A reload that finds no file, cannot open its selection or fails ends without a trace; an updater
      that fails starts over with the whitelist. */
  lemma FailureEnds(keep: nat, s: State, e: Event)
    requires Enabled(keep, s, e)
    requires e.Abort? || e.FailReload? || (e.Select? && e.choice.None?) || (e.Open? && s.reloads[e.id].name !in s.dir)
    ensures Next(keep, s, e) ==
      if e.Abort? then s.(updater := Writing(Whitelist)) else s.(reloads := s.reloads - {e.id})
  {
    hide NumberOf, NumbersIn;
  }

  /** The invariant, in every run. */
  lemma {:induction false} RunInv(keep: nat, s: State, es: seq<Event>)
    requires Inv(keep, s) && keep >= 1 && Feasible(keep, s, es)
    ensures Inv(keep, After(keep, s, es)) && Grows(s.ever, After(keep, s, es).ever)
    decreases |es|
  {
    hide Inv, Enabled, Next;
    if es == [] {
    } else {
      StepInv(keep, s, es[0]);
      RunInv(keep, Next(keep, s, es[0]), es[1..]);
    }
  }

  lemma ReachableInv(keep: nat, s: State)
    requires Reachable(keep, s) && keep >= 1
    ensures Inv(keep, s)
  {
    hide Inv, Enabled, Next, Init;
    var s0, es :| Init(s0) && Feasible(keep, s0, es) && After(keep, s0, es) == s;
    InitInv(keep, s0);
    RunInv(keep, s0, es);
  }
}
