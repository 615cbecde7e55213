/** Numbered list files: names, the newest-number scans, and the pruning of old files. */
module Rotation {
  import opened Text

  datatype Kind = Whitelist | Blacklist | Adslist

  function Prefix(k: Kind): string
  {
    match k
    case Whitelist => "whitelist"
    case Blacklist => "blacklist"
    case Adslist => "adslist"
  }

  function FileName(k: Kind, n: nat): string { Prefix(k) + "." + Decimal(n) + ".txt" }

  function NewName(k: Kind): string { Prefix(k) + ".new.txt" }

  /** The number that ^prefix\.(\d+)\.txt$ and Atoi give a name; None when either refuses it. */
  function NumberOf(k: Kind, name: string): (r: Option<nat>)
    ensures r.Some? ==> r.value <= MAX_INT64
  {
    var p := Prefix(k) + ".";
    if |name| >= |p| + 4 && HasPrefix(name, p) && HasSuffix(name, ".txt")
    then ParseUint(name[|p|..|name| - 4], MAX_INT64 + 1)
    else None
  }

  /** The name a rename after a scan that found m targets; the 64-bit sum wraps at the top. */
  function TargetName(k: Kind, m: int): string
    requires -1 <= m <= MAX_INT64
  {
    if m == MAX_INT64 then Prefix(k) + ".-" + Decimal(MAX_INT64 + 1) + ".txt" else FileName(k, m + 1)
  }

  lemma NumberOfFileName(k: Kind, n: nat)
    ensures NumberOf(k, FileName(k, n)) == if n <= 0x7fff_ffff_ffff_ffff then Some(n) else None
  {
    var name := FileName(k, n);
    var p := Prefix(k) + ".";
    assert name == p + Decimal(n) + ".txt";
    assert name[|p|..|name| - 4] == Decimal(n);
    DecimalRoundTrip(n);
  }

  /** The names as the two programs write them. */
  lemma NamesAre()
    ensures FileName(Whitelist, 7) == "whitelist.7.txt" && NewName(Whitelist) == "whitelist.new.txt"
    ensures FileName(Blacklist, 7) == "blacklist.7.txt" && NewName(Blacklist) == "blacklist.new.txt"
    ensures FileName(Adslist, 7) == "adslist.7.txt" && NewName(Adslist) == "adslist.new.txt"
  {
    assert Decimal(7) == "7";
  }

  /** A name carries a number under one selector only. */
  lemma NumberOfOtherKind(k: Kind, j: Kind, name: string)
    requires k != j && NumberOf(k, name).Some?
    ensures NumberOf(j, name) == None
  {
    assert name[0] == Prefix(k)[0];
  }

  lemma NewNameUnnumbered(k: Kind, j: Kind)
    ensures NumberOf(k, NewName(j)) == None
  {
    var a, p := NewName(j), Prefix(k) + ".";
    assert a[0] == Prefix(j)[0];
    if k == j {
      assert a == p + "new" + ".txt";
      assert a[|p|..|a| - 4][0] == 'n';
    }
  }

  lemma WrappedTargetUnnumbered(k: Kind, j: Kind)
    ensures NumberOf(k, TargetName(j, MAX_INT64)) == None
  {
    hide Decimal, Numeral;
    var b, p := TargetName(j, MAX_INT64), Prefix(k) + ".";
    assert b[0] == Prefix(j)[0];
    if k == j {
      assert b == p + ("-" + Decimal(MAX_INT64 + 1)) + ".txt";
      assert b[|p|..|b| - 4][0] == '-';
    }
  }

  /** Neither the file being written nor an overflowed target carries a number. */
  lemma UnnumberedNames(k: Kind, j: Kind)
    ensures NumberOf(k, NewName(j)) == None
    ensures NumberOf(k, TargetName(j, MAX_INT64)) == None
  {
    hide NumberOf, NewName, TargetName;
    NewNameUnnumbered(k, j);
    WrappedTargetUnnumbered(k, j);
  }

  // ----- scanning -------------------------------------------------------------------

  ghost function NumbersIn(k: Kind, names: set<string>): (ns: set<nat>)
    ensures forall f :: f in names && NumberOf(k, f).Some? ==> NumberOf(k, f).value in ns
    ensures forall n :: n in ns ==> exists f :: f in names && NumberOf(k, f) == Some(n)
  {
    set f | f in names && NumberOf(k, f).Some? :: NumberOf(k, f).value
  }

  /** m is the greatest number among the names, or -1 when there is none. */
  ghost predicate IsNewest(k: Kind, names: set<string>, m: int)
  {
    && (m == -1 || m in NumbersIn(k, names))
    && forall n :: n in NumbersIn(k, names) ==> n <= m
  }

  /** Every number is carried by exactly its own rendering: no leading zeros. */
  ghost predicate Canonical(k: Kind, names: set<string>)
  {
    forall f :: f in names && NumberOf(k, f).Some? ==> f == FileName(k, NumberOf(k, f).value)
  }

  ghost function Elements<T>(s: seq<T>): set<T> { set x | x in s }

  ghost predicate Distinct<T>(s: seq<T>) { forall i, j :: 0 <= i < j < |s| ==> s[i] != s[j] }

  /** names is one possible directory enumeration of the set: each entry once, in any order. */
  ghost predicate Enumerates(names: seq<string>, entries: set<string>)
  {
    Elements(names) == entries && Distinct(names)
  }

  /** names may stop short: what a directory read that failed midway has delivered. */
  ghost predicate Draws(names: seq<string>, entries: set<string>)
  {
    Elements(names) <= entries && Distinct(names)
  }

  lemma NumbersInExtend(k: Kind, names: set<string>, f: string)
    ensures NumbersIn(k, names + {f}) ==
            NumbersIn(k, names) + (if NumberOf(k, f).Some? then {NumberOf(k, f).value} else {})
  {
    var all := NumbersIn(k, names + {f});
    forall n | n in all
      ensures n in NumbersIn(k, names) + (if NumberOf(k, f).Some? then {NumberOf(k, f).value} else {})
    {
      var g :| g in names + {f} && NumberOf(k, g) == Some(n);
    }
  }

  lemma ElementsSnoc<T>(s: seq<T>, i: nat)
    requires i < |s|
    ensures Elements(s[..i + 1]) == Elements(s[..i]) + {s[i]}
  {
    assert s[..i + 1] == s[..i] + [s[i]];
  }

  method MaxNumber(k: Kind, names: seq<string>) returns (m: int)
    ensures -1 <= m <= MAX_INT64 && IsNewest(k, Elements(names), m)
  {
    hide NumberOf;
    m := -1;
    for i := 0 to |names|
      invariant -1 <= m <= MAX_INT64 && IsNewest(k, Elements(names[..i]), m)
    {
      ElementsSnoc(names, i);
      NumbersInExtend(k, Elements(names[..i]), names[i]);
      var number := NumberOf(k, names[i]);
      if number.Some? {
        if m < number.value { m := number.value; }
      }
    }
    assert names[..|names|] == names;
  }

  /** What the server's scan knows after some entries: the greatest number, and a name for each. */
  ghost predicate Scanned(k: Kind, seen: set<string>, m: int, nameOf: map<nat, string>)
  {
    && -1 <= m && IsNewest(k, seen, m)
    && nameOf.Keys == NumbersIn(k, seen)
    && forall n :: n in nameOf ==> nameOf[n] in seen && NumberOf(k, nameOf[n]) == Some(n)
  }

  lemma ScanStep(k: Kind, seen: set<string>, f: string, m: int, nameOf: map<nat, string>)
    requires Scanned(k, seen, m, nameOf)
    ensures match NumberOf(k, f)
      case None => Scanned(k, seen + {f}, m, nameOf)
      case Some(n) => Scanned(k, seen + {f}, if m < n then n else m, nameOf[n := f])
  {
    hide NumberOf;
    NumbersInExtend(k, seen, f);
    hide NumbersIn;
  }

  /** The server's scan: the name that carries the greatest number, or an error when none does. */
  method NewestName(k: Kind, names: seq<string>) returns (r: Option<string>)
    ensures r.None? <==> NumbersIn(k, Elements(names)) == {}
    ensures r.Some? ==> r.value in names && NumberOf(k, r.value).Some?
    ensures r.Some? ==> IsNewest(k, Elements(names), NumberOf(k, r.value).value)
  {
    hide NumberOf, NumbersIn, Scanned, Elements, IsNewest;
    var m: int := -1;
    var nameOf: map<nat, string> := map[];
    ScannedNothing(k);
    assert names[..0] == [];
    for i := 0 to |names|
      invariant Scanned(k, Elements(names[..i]), m, nameOf)
    {
      ElementsSnoc(names, i);
      ScanStep(k, Elements(names[..i]), names[i], m, nameOf);
      var number := NumberOf(k, names[i]);
      if number.Some? {
        nameOf := nameOf[number.value := names[i]];
        if m < number.value { m := number.value; }
      }
    }
    assert names[..|names|] == names;
    ScannedAll(k, names, m, nameOf);
    if m == -1 { return None; }
    return Some(nameOf[m]);
  }

  lemma ScannedNothing(k: Kind)
    ensures Scanned(k, Elements([]), -1, map[])
  {
  }

  lemma ScannedAll(k: Kind, names: seq<string>, m: int, nameOf: map<nat, string>)
    requires Scanned(k, Elements(names), m, nameOf)
    ensures m == -1 <==> NumbersIn(k, Elements(names)) == {}
    ensures m != -1 ==> m >= 0 && m in nameOf && nameOf[m] in names && NumberOf(k, nameOf[m]) == Some(m)
    ensures IsNewest(k, Elements(names), m)
  {
    hide NumberOf;
  }

  // ----- pruning --------------------------------------------------------------------

  function Insert(x: nat, s: seq<nat>): seq<nat>
  {
    if s == [] || x <= s[0] then [x] + s else [s[0]] + Insert(x, s[1..])
  }

  /** sort.Ints */
  function Sort(s: seq<nat>): seq<nat>
  {
    if s == [] then [] else Insert(s[|s| - 1], Sort(s[..|s| - 1]))
  }

  ghost predicate Ascending(s: seq<nat>) { forall i, j :: 0 <= i < j < |s| ==> s[i] <= s[j] }

  lemma {:induction false} InsertAdds(x: nat, s: seq<nat>)
    ensures multiset(Insert(x, s)) == multiset{x} + multiset(s) && |Insert(x, s)| == |s| + 1
  {
    if s == [] || x <= s[0] {
    } else {
      InsertAdds(x, s[1..]);
      assert s == [s[0]] + s[1..];
    }
  }

  lemma {:induction false} InsertKeepsOrder(x: nat, s: seq<nat>)
    requires Ascending(s)
    ensures Ascending(Insert(x, s))
  {
    if s == [] || x <= s[0] {
    } else {
      InsertKeepsOrder(x, s[1..]);
      var t := Insert(x, s[1..]);
      forall i | 0 <= i < |t| ensures s[0] <= t[i] {
        InsertAdds(x, s[1..]);
        assert t[i] in multiset(t);
        assert t[i] == x || t[i] in s[1..];
      }
    }
  }

  lemma {:induction false} SortSorts(s: seq<nat>)
    ensures Ascending(Sort(s)) && multiset(Sort(s)) == multiset(s) && |Sort(s)| == |s|
  {
    hide Insert;
    if s == [] {
    } else {
      SortSorts(s[..|s| - 1]);
      InsertAdds(s[|s| - 1], Sort(s[..|s| - 1]));
      InsertKeepsOrder(s[|s| - 1], Sort(s[..|s| - 1]));
      assert s == s[..|s| - 1] + [s[|s| - 1]];
    }
  }

  /** The numbers in enumeration order, as the loop collects them. */
  function Collected(k: Kind, names: seq<string>): seq<nat>
  {
    if names == [] then []
    else
      var before := Collected(k, names[..|names| - 1]);
      var number := NumberOf(k, names[|names| - 1]);
      if number.Some? then before + [number.value] else before
  }

  /** The last enumerated name of each number, as the map ends up. */
  function NamesByNumber(k: Kind, names: seq<string>): (m: map<nat, string>)
    ensures forall n :: n in m ==> m[n] in names && NumberOf(k, m[n]) == Some(n)
    ensures forall f :: f in names && NumberOf(k, f).Some? ==> NumberOf(k, f).value in m
  {
    if names == [] then map[]
    else
      var before := NamesByNumber(k, names[..|names| - 1]);
      var last := names[|names| - 1];
      assert names == names[..|names| - 1] + [last];
      if NumberOf(k, last).Some? then before[NumberOf(k, last).value := last] else before
  }

  lemma {:induction false} CollectedElements(k: Kind, names: seq<string>)
    ensures Elements(Collected(k, names)) == NumbersIn(k, Elements(names))
  {
    if names == [] {
    } else {
      var init, last := names[..|names| - 1], names[|names| - 1];
      CollectedElements(k, init);
      assert names == init + [last];
      assert Elements(names) == Elements(init) + {last};
      forall n | n in NumbersIn(k, Elements(names)) ensures n in Collected(k, names) {
        var f :| f in Elements(names) && NumberOf(k, f) == Some(n);
        if f in Elements(init) {
          assert n in NumbersIn(k, Elements(init));
          assert n in Elements(Collected(k, init));
        }
      }
      forall n | n in Collected(k, names) ensures n in NumbersIn(k, Elements(names)) {
        if n in Collected(k, init) {
          assert n in Elements(Collected(k, init));
        }
      }
    }
  }

  /** How many of the sorted numbers the pruning loop reaches. */
  function PruneCount(total: nat, keep: int): (c: nat)
    ensures c <= total
  {
    if total - keep <= 0 then 0 else if keep < 0 then total else total - keep
  }

  lemma SortedAreNamed(k: Kind, names: seq<string>)
    ensures forall x :: x in Sort(Collected(k, names)) ==> x in NamesByNumber(k, names)
  {
    hide NumberOf;
    SortSorts(Collected(k, names));
    CollectedElements(k, names);
    forall x | x in Sort(Collected(k, names)) ensures x in NamesByNumber(k, names) {
      assert x in multiset(Sort(Collected(k, names)));
      assert x in Elements(Collected(k, names));
    }
  }

  /** The names handed to os.Remove, oldest number first. */
  function Victims(k: Kind, names: seq<string>, keep: int): (vs: seq<string>)
    ensures |vs| == PruneCount(|Sort(Collected(k, names))|, keep)
    ensures forall i :: 0 <= i < |vs| ==>
      vs[i] in names && NumberOf(k, vs[i]) == Some(Sort(Collected(k, names))[i])
  {
    var sorted := Sort(Collected(k, names));
    SortedAreNamed(k, names);
    var byNumber := NamesByNumber(k, names);
    var vs := seq(PruneCount(|sorted|, keep), i requires 0 <= i < PruneCount(|sorted|, keep) => byNumber[sorted[i]]);
    assert forall i :: 0 <= i < |vs| ==> sorted[i] in byNumber && vs[i] == byNumber[sorted[i]];
    vs
  }

  /** The numbers the loop never reaches: the last `keep` of the sorted ones. */
  ghost function Spared(k: Kind, names: seq<string>, keep: int): set<nat>
  {
    var sorted := Sort(Collected(k, names));
    SortSorts(Collected(k, names));
    Elements(sorted[PruneCount(|sorted|, keep)..])
  }

  lemma {:induction false} DistinctCardinality<T>(s: seq<T>)
    requires Distinct(s)
    ensures |Elements(s)| == |s|
  {
    if s == [] {
    } else {
      var init := s[..|s| - 1];
      DistinctCardinality(init);
      ElementsSnoc(s, |s| - 1);
      assert s[..|s|] == s;
      assert s[|s| - 1] !in Elements(init);
    }
  }

  lemma {:induction false} CollectedDistinct(k: Kind, names: seq<string>)
    requires Distinct(names) && Canonical(k, Elements(names))
    ensures Distinct(Collected(k, names))
  {
    hide NumberOf, FileName;
    if names == [] {
    } else {
      var init, last := names[..|names| - 1], names[|names| - 1];
      ElementsSnoc(names, |names| - 1);
      assert names[..|names|] == names;
      CollectedDistinct(k, init);
      CollectedElements(k, init);
      if NumberOf(k, last).Some? {
        var n := NumberOf(k, last).value;
        forall f | f in Elements(init) && NumberOf(k, f).Some? ensures NumberOf(k, f).value != n {
          assert f in Elements(names) && last in Elements(names) && f != last;
        }
        assert n !in NumbersIn(k, Elements(init));
        assert n !in Elements(Collected(k, init));
      }
    }
  }

  lemma SortedDistinct(s: seq<nat>)
    requires Distinct(s)
    ensures Distinct(Sort(s)) && Elements(Sort(s)) == Elements(s)
  {
    SortSorts(s);
    hide Sort;
    var t := Sort(s);
    forall x ensures x in Elements(t) <==> x in Elements(s) {
      assert x in multiset(t) <==> x in multiset(s);
    }
    forall x ensures multiset(t)[x] <= 1 {
      MultiplicityOfDistinct(s, x);
    }
    DistinctByMultiplicity(t);
  }

  lemma {:induction false} DistinctByMultiplicity(s: seq<nat>)
    requires forall x :: multiset(s)[x] <= 1
    ensures Distinct(s)
  {
    if s == [] {
    } else {
      assert s == [s[0]] + s[1..];
      assert multiset(s) == multiset{s[0]} + multiset(s[1..]);
      forall x ensures multiset(s[1..])[x] <= 1 {
        assert multiset(s)[x] <= 1;
      }
      DistinctByMultiplicity(s[1..]);
      assert multiset(s)[s[0]] <= 1;
      assert s[0] !in multiset(s[1..]);
    }
  }

  lemma {:induction false} MultiplicityOfDistinct(s: seq<nat>, x: nat)
    requires Distinct(s)
    ensures multiset(s)[x] <= 1
  {
    if s == [] {
    } else {
      MultiplicityOfDistinct(s[1..], x);
      assert s == [s[0]] + s[1..];
      assert x == s[0] ==> x !in s[1..];
    }
  }

  /** The numbers above n. */
  ghost function Newer(numbers: set<nat>, n: nat): set<nat> { set x | x in numbers && x > n }

  /** f is numbered and at least `keep` numbers are above its own. */
  ghost predicate Outdated(k: Kind, names: set<string>, keep: int, f: string)
  {
    NumberOf(k, f).Some? && |Newer(NumbersIn(k, names), NumberOf(k, f).value)| >= keep
  }

  lemma NewerInSorted(s: seq<nat>, i: nat)
    requires Ascending(s) && Distinct(s) && i < |s|
    ensures |Newer(Elements(s), s[i])| == |s| - 1 - i
  {
    var rest := s[i + 1..];
    DistinctCardinality(rest);
    forall x ensures x in Newer(Elements(s), s[i]) <==> x in Elements(rest) {
      if x in Newer(Elements(s), s[i]) {
        var j :| 0 <= j < |s| && s[j] == x;
        assert rest[j - i - 1] == x;
      }
    }
    assert Newer(Elements(s), s[i]) == Elements(rest);
  }

  /** How many entries are at least n; a number carried by several names counts each time. */
  function CountFrom(numbers: seq<nat>, n: nat): (c: nat)
    ensures c <= |numbers|
  {
    if numbers == [] then 0
    else CountFrom(numbers[..|numbers| - 1], n) + (if numbers[|numbers| - 1] >= n then 1 else 0)
  }

  lemma {:induction false} CountFromCons(x: nat, s: seq<nat>, n: nat)
    ensures CountFrom([x] + s, n) == (if x >= n then 1 else 0) + CountFrom(s, n)
  {
    if s == [] {
      assert [x] + s == [x] && [x][..0] == [];
    } else {
      CountFromCons(x, s[..|s| - 1], n);
      assert ([x] + s)[..|s|] == [x] + s[..|s| - 1];
    }
  }

  lemma {:induction false} CountFromInsert(x: nat, s: seq<nat>, n: nat)
    ensures CountFrom(Insert(x, s), n) == (if x >= n then 1 else 0) + CountFrom(s, n)
  {
    CountFromCons(x, s, n);
    if s == [] || x <= s[0] {
    } else {
      CountFromInsert(x, s[1..], n);
      CountFromCons(s[0], Insert(x, s[1..]), n);
      CountFromCons(s[0], s[1..], n);
      assert s == [s[0]] + s[1..];
    }
  }

  lemma {:induction false} CountFromSort(s: seq<nat>, n: nat)
    ensures CountFrom(Sort(s), n) == CountFrom(s, n)
  {
    if s == [] {
    } else {
      CountFromSort(s[..|s| - 1], n);
      CountFromInsert(s[|s| - 1], Sort(s[..|s| - 1]), n);
    }
  }

  /** In ascending order the entries from n on are the last ones. */
  lemma {:induction false} CountFromSplits(s: seq<nat>, n: nat)
    requires Ascending(s)
    ensures forall i :: 0 <= i < |s| ==> (s[i] >= n <==> i >= |s| - CountFrom(s, n))
  {
    if s == [] {
    } else {
      var init, last := s[..|s| - 1], s[|s| - 1];
      CountFromSplits(init, n);
      if last < n {
        forall i | 0 <= i < |init| ensures init[i] < n { assert s[i] <= s[|s| - 1]; }
        assert init != [] ==> init[|init| - 1] < n;
      }
      forall i | 0 <= i < |s| ensures s[i] >= n <==> i >= |s| - CountFrom(s, n) {
        if i < |init| { assert init[i] == s[i]; }
      }
    }
  }

  /** f is the last enumerated name of its number n, and more than `keep` entries have a number of
      at least n. */
  ghost predicate Prunable(k: Kind, names: seq<string>, keep: int, f: string)
  {
    && f in names && NumberOf(k, f).Some?
    && NamesByNumber(k, names)[NumberOf(k, f).value] == f
    && CountFrom(Collected(k, names), NumberOf(k, f).value) > keep
  }

  /** Pruning removes exactly the prunable names, for every directory and every `keep`. */
  lemma VictimsExactly(k: Kind, names: seq<string>, keep: int, f: string)
    ensures f in Victims(k, names, keep) <==> Prunable(k, names, keep, f)
  {
    hide NumberOf, Collected, Sort, CountFrom, Insert;
    var numbers := Collected(k, names);
    var sorted := Sort(numbers);
    var byNumber := NamesByNumber(k, names);
    SortSorts(numbers);
    SortedAreNamed(k, names);
    var vs := Victims(k, names, keep);
    if f in vs {
      var i :| 0 <= i < |vs| && vs[i] == f;
      var n := NumberOf(k, f).value;
      CountFromSort(numbers, n);
      CountFromSplits(sorted, n);
    }
    if Prunable(k, names, keep, f) {
      var n := NumberOf(k, f).value;
      CountFromSort(numbers, n);
      CountFromSplits(sorted, n);
      NumberIsSorted(k, names, f);
      var j :| 0 <= j < |sorted| && sorted[j] == n;
      var i := |sorted| - CountFrom(sorted, n);
      assert i <= j && n <= sorted[i] <= sorted[j];
      assert vs[i] == byNumber[sorted[i]];
    }
  }

  lemma NumberIsSorted(k: Kind, names: seq<string>, f: string)
    requires f in names && NumberOf(k, f).Some?
    ensures NumberOf(k, f).value in Sort(Collected(k, names))
  {
    hide NumberOf;
    var numbers, n := Collected(k, names), NumberOf(k, f).value;
    CollectedElements(k, names);
    assert f in Elements(names);
    assert n in Elements(numbers);
    SortSorts(numbers);
    assert n in multiset(Sort(numbers));
  }

  /** With canonical names: exactly the files that have at least `keep` newer ones. */
  lemma CanonicalVictims(k: Kind, names: seq<string>, keep: int, f: string)
    requires Distinct(names) && Canonical(k, Elements(names))
    ensures f in Victims(k, names, keep) <==> f in names && Outdated(k, Elements(names), keep, f)
  {
    hide NumberOf, FileName, Victims;
    VictimsExactly(k, names, keep, f);
    if f in names && NumberOf(k, f).Some? {
      var numbers, n := Collected(k, names), NumberOf(k, f).value;
      assert f in Elements(names) && NamesByNumber(k, names)[n] in Elements(names);
      assert NamesByNumber(k, names)[n] == FileName(k, n) == f;
      CanonicalCount(k, names, f);
    }
  }

  lemma CanonicalCount(k: Kind, names: seq<string>, f: string)
    requires Distinct(names) && Canonical(k, Elements(names)) && f in names && NumberOf(k, f).Some?
    ensures var n := NumberOf(k, f).value;
      CountFrom(Collected(k, names), n) == |Newer(NumbersIn(k, Elements(names)), n)| + 1
  {
    hide NumberOf, FileName, Collected, Sort, CountFrom, Canonical, NumbersIn;
    var numbers, n := Collected(k, names), NumberOf(k, f).value;
    var sorted := Sort(numbers);
    CollectedDistinct(k, names);
    CollectedElements(k, names);
    SortedDistinct(numbers);
    SortSorts(numbers);
    NumberIsSorted(k, names, f);
    CountFromSort(numbers, n);
    CountFromSplits(sorted, n);
    var j :| 0 <= j < |sorted| && sorted[j] == n;
    NewerInSorted(sorted, j);
    assert j == |sorted| - CountFrom(sorted, n) by {
      var i := |sorted| - CountFrom(sorted, n);
      assert i <= j && n <= sorted[i] <= sorted[j];
    }
  }

  /** Oldest first: what is still to be removed is older than everything spared. */
  lemma VictimsBelowSpared(k: Kind, names: seq<string>, keep: int)
    requires Distinct(names) && Canonical(k, Elements(names)) && keep >= 1
    ensures Spared(k, names, keep) <= NumbersIn(k, Elements(names))
    ensures Victims(k, names, keep) != [] ==> |Spared(k, names, keep)| == keep
    ensures forall v, x :: v in Victims(k, names, keep) && x in Spared(k, names, keep) ==>
      NumberOf(k, v).Some? && NumberOf(k, v).value < x
  {
    hide NumberOf, FileName, Collected, NamesByNumber, Sort, NumbersIn, Canonical, Victims, Elements;
    var numbers := Collected(k, names);
    var sorted := Sort(numbers);
    CollectedDistinct(k, names);
    CollectedElements(k, names);
    SortedDistinct(numbers);
    SortSorts(numbers);
    SortedElements(numbers);
    var c := PruneCount(|sorted|, keep);
    TopOfSorted(sorted, c);
    forall v, x | v in Victims(k, names, keep) && x in Spared(k, names, keep)
      ensures NumberOf(k, v).Some? && NumberOf(k, v).value < x
    {
      var i :| 0 <= i < c && Victims(k, names, keep)[i] == v;
      assert sorted[i] == NumberOf(k, v).value;
    }
  }

  /** The top of distinct ascending numbers is above the rest. */
  lemma TopOfSorted(s: seq<nat>, c: nat)
    requires Ascending(s) && Distinct(s) && c <= |s|
    ensures Elements(s[c..]) <= Elements(s) && |Elements(s[c..])| == |s| - c
    ensures forall i, x :: 0 <= i < c && x in Elements(s[c..]) ==> s[i] < x
  {
    DistinctCardinality(s[c..]);
    forall i, x | 0 <= i < c && x in Elements(s[c..]) ensures s[i] < x {
      var j :| 0 <= j < |s[c..]| && s[c..][j] == x;
      assert s[c + j] == x;
    }
  }

  lemma SortedElements(s: seq<nat>)
    ensures Elements(Sort(s)) == Elements(s)
  {
    hide Sort;
    SortSorts(s);
    forall x ensures x in Sort(s) <==> x in s {
      assert x in multiset(Sort(s)) <==> x in multiset(s);
    }
  }

  /** The first loop of removeOld. */
  method Collect(k: Kind, names: seq<string>) returns (numbers: seq<nat>, nameOf: map<nat, string>)
    ensures numbers == Collected(k, names) && nameOf == NamesByNumber(k, names)
  {
    hide NumberOf;
    nameOf := map[];
    numbers := [];
    for i := 0 to |names|
      invariant numbers == Collected(k, names[..i]) && nameOf == NamesByNumber(k, names[..i])
    {
      assert names[..i + 1][..i] == names[..i];
      var number := NumberOf(k, names[i]);
      if number.Some? {
        numbers := numbers + [number.value];
        nameOf := nameOf[number.value := names[i]];
      }
    }
    assert names[..|names|] == names;
  }

  /** The working directory, changed in place by rename and remove. */
  class Directory {
    var files: map<string, string>

    constructor (initial: map<string, string>)
      ensures files == initial
    { files := initial; }

    /** removeOld on the names the directory read delivered, all of them or, after an error, the
        first few; `stuck` are the names whose removal the system refuses. A negative `keep` runs
        the loop past the slice and panics. */
    method RemoveOld(k: Kind, keep: int, names: seq<string>, stuck: set<string>) returns (panicked: bool)
      requires Draws(names, files.Keys)
      modifies this
      ensures panicked <==> keep < 0
      ensures files == old(files) - (Elements(Victims(k, names, keep)) - stuck)
      ensures forall f :: f in old(files) ==> (f !in files <==> f !in stuck && Prunable(k, names, keep, f))
      ensures Canonical(k, Elements(names)) ==>
        forall f :: f in names ==> (f !in files <==> f !in stuck && Outdated(k, Elements(names), keep, f))
    {
      hide NumberOf, FileName, Collected, NamesByNumber, Sort, NumbersIn, Canonical, Outdated, Prunable;
      var numbers, nameOf := Collect(k, names);
      SortedAreNamed(k, names);
      numbers := Sort(numbers);
      ghost var vs := Victims(k, names, keep);
      var i := 0;
      panicked := false;
      while i < |numbers| - keep && !panicked
        invariant 0 <= i <= |vs|
        invariant files == old(files) - (Elements(vs[..i]) - stuck)
        invariant panicked ==> keep < 0 && i == |vs|
        decreases |numbers| - keep - i, !panicked
      {
        if i == |numbers| {
          panicked := true;
        } else {
          var filename := nameOf[numbers[i]];
          assert vs[i] == filename;
          ElementsSnoc(vs, i);
          if filename !in stuck {
            files := files - {filename};
          }
          i := i + 1;
        }
      }
      assert vs[..|vs|] == vs;
      forall f ensures f in vs <==> Prunable(k, names, keep, f) { VictimsExactly(k, names, keep, f); }
      if Canonical(k, Elements(names)) {
        forall f | f in names ensures f in vs <==> Outdated(k, Elements(names), keep, f) {
          CanonicalVictims(k, names, keep, f);
        }
        assert forall f :: f in names ==> f in Elements(names);
      }
    }
  }
}
