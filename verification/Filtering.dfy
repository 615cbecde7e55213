/** Response filtering: every record is decided under the lists published at that moment. */
module Filtering {
  import opened Dns
  import opened Lists
  import opened JsonDns
  import opened ListsProtocol
  import opened ListsTheorems
  import opened JsonTheorems

  /** The lists in force at each decision; reloads may publish between any two of them. */
  type Views = nat -> Published

  function Filtered(rrs: seq<RR>, views: Views, from: nat, categories: nat): seq<RR>
  {
    if rrs == [] then []
    else
      var n := |rrs| - 1;
      Filtered(rrs[..n], views, from, categories)
      + (if IsRestricted(views(from + n), rrs[n].name, categories) then [] else [rrs[n]])
  }

  function PostLooked(msg: Msg, views: Views, categories: nat): Msg
  {
    msg.(authoritative := false,
         answer := Filtered(msg.answer, views, 0, categories),
         ns := [],
         extra := Filtered(msg.extra, views, |msg.answer|, categories))
  }

  method FilterSection(rrs: seq<RR>, views: Views, from: nat, categories: nat) returns (kept: seq<RR>)
    ensures kept == Filtered(rrs, views, from, categories)
  {
    hide IsRestricted;
    kept := [];
    for i := 0 to |rrs|
      invariant kept == Filtered(rrs[..i], views, from, categories)
    {
      assert rrs[..i + 1][..i] == rrs[..i];
      if IsRestricted(views(from + i), rrs[i].name, categories) {
        continue;
      }
      kept := kept + [rrs[i]];
    }
    assert rrs[..|rrs|] == rrs;
  }

  class Request {
    var response: Msg
    const categories: nat

    constructor (response: Msg, categories: nat)
      ensures this.response == response && this.categories == categories
    {
      this.response, this.categories := response, categories;
    }

    method PostLookup(views: Views)
      modifies this
      ensures response == PostLooked(old(response), views, categories)
      ensures !response.authoritative && response.ns == []
    {
      response := response.(authoritative := false);
      var answer := FilterSection(response.answer, views, 0, categories);
      var additional := FilterSection(response.extra, views, |response.answer|, categories);
      response := response.(answer := answer);
      response := response.(extra := additional);
      response := response.(ns := []);
    }
  }

  // ----- under any interleaving of reloads ----------------------------------------------------

  lemma {:induction false} AlwaysRestricted(rrs: seq<RR>, views: Views, from: nat, categories: nat, name: string)
    requires forall k: nat :: IsRestricted(views(k), name, categories)
    ensures forall i :: 0 <= i < |Filtered(rrs, views, from, categories)| ==>
      Filtered(rrs, views, from, categories)[i].name != name
  {
    hide IsRestricted;
    if rrs == [] {
    } else {
      AlwaysRestricted(rrs[..|rrs| - 1], views, from, categories, name);
    }
  }

  /** The records of one owner name, in order. */
  function Owned(rrs: seq<RR>, name: string): seq<RR>
  {
    if rrs == [] then []
    else Owned(rrs[..|rrs| - 1], name) + (if rrs[|rrs| - 1].name == name then [rrs[|rrs| - 1]] else [])
  }

  lemma OwnedSnoc(rrs: seq<RR>, rr: RR, name: string)
    ensures Owned(rrs + [rr], name) == Owned(rrs, name) + (if rr.name == name then [rr] else [])
  {
    assert (rrs + [rr])[..|rrs|] == rrs;
  }

  lemma {:induction false} NeverRestricted(rrs: seq<RR>, views: Views, from: nat, categories: nat, name: string)
    requires forall k: nat :: !IsRestricted(views(k), name, categories)
    ensures Owned(Filtered(rrs, views, from, categories), name) == Owned(rrs, name)
  {
    hide IsRestricted;
    if rrs == [] {
    } else {
      var n := |rrs| - 1;
      var before := Filtered(rrs[..n], views, from, categories);
      NeverRestricted(rrs[..n], views, from, categories, name);
      assert rrs == rrs[..n] + [rrs[n]];
      var all := Filtered(rrs, views, from, categories);
      if IsRestricted(views(from + n), rrs[n].name, categories) {
        assert rrs[n].name != name;
        assert all == before;
        assert Owned(rrs, name) == Owned(rrs[..n], name);
      } else {
        assert all == before + [rrs[n]];
        OwnedSnoc(before, rrs[n], name);
        OwnedSnoc(rrs[..n], rrs[n], name);
      }
    }
  }

  /** A response filtered while reloads run: a name that is blacklisted and not whitelisted in
      every generation any decision could have seen is gone, and one that no such blacklist or
      ads list holds keeps all its records in order. */
  lemma FilteredUnderReloads(keep: nat, states: nat -> State, msg: Msg, categories: nat, name: string)
    requires keep >= 1 && forall k: nat :: Reachable(keep, states(k)) && states(k).serving
    ensures var out := PostLooked(msg, (k: nat) => states(k).lists, categories);
      && ((forall k: nat, c :: c in states(k).gens.black ==> LookupKey(name) in Keys(c)) &&
          (forall k: nat, c :: c in states(k).gens.white ==> LookupKey(name) !in Keys(c)) ==>
            (forall i :: 0 <= i < |out.answer| ==> out.answer[i].name != name) &&
            (forall i :: 0 <= i < |out.extra| ==> out.extra[i].name != name))
      && ((forall k: nat, c :: c in states(k).gens.black ==> LookupKey(name) !in Keys(c)) &&
          (forall k: nat, c :: c in states(k).gens.ads ==> LookupKey(name) !in Keys(c)) ==>
            Owned(out.answer, name) == Owned(msg.answer, name) && Owned(out.extra, name) == Owned(msg.extra, name))
  {
    hide IsRestricted, Keys, LookupKey, Reachable, Filtered, Owned;
    var views: Views := (k: nat) => states(k).lists;
    forall k: nat
      ensures (forall c :: c in states(k).gens.black ==> LookupKey(name) in Keys(c)) &&
              (forall c :: c in states(k).gens.white ==> LookupKey(name) !in Keys(c)) ==>
              IsRestricted(views(k), name, categories)
      ensures (forall c :: c in states(k).gens.black ==> LookupKey(name) !in Keys(c)) &&
              (forall c :: c in states(k).gens.ads ==> LookupKey(name) !in Keys(c)) ==>
              !IsRestricted(views(k), name, categories)
    {
      VerdictsStable(keep, states(k), name, categories);
    }
    if forall k: nat :: IsRestricted(views(k), name, categories) {
      AlwaysRestricted(msg.answer, views, 0, categories, name);
      AlwaysRestricted(msg.extra, views, |msg.answer|, categories, name);
    }
    if forall k: nat :: !IsRestricted(views(k), name, categories) {
      NeverRestricted(msg.answer, views, 0, categories, name);
      NeverRestricted(msg.extra, views, |msg.answer|, categories, name);
    }
  }

  // ----- filtering and marshalling ----------------------------------------------------------------

  /** The unrestricted records under fixed lists. */
  function Unrestricted(rrs: seq<RR>, lists: Published, categories: nat): seq<RR>
  {
    if rrs == [] then []
    else
      var n := |rrs| - 1;
      Unrestricted(rrs[..n], lists, categories) + (if IsRestricted(lists, rrs[n].name, categories) then [] else [rrs[n]])
  }

  lemma {:induction false} FixedViews(rrs: seq<RR>, lists: Published, from: nat, categories: nat)
    ensures Filtered(rrs, k => lists, from, categories) == Unrestricted(rrs, lists, categories)
  {
    hide IsRestricted;
    if rrs == [] {
    } else {
      FixedViews(rrs[..|rrs| - 1], lists, from, categories);
    }
  }

  lemma UnrestrictedSnoc(rrs: seq<RR>, rr: RR, lists: Published, categories: nat)
    ensures Unrestricted(rrs + [rr], lists, categories) ==
      Unrestricted(rrs, lists, categories) + (if IsRestricted(lists, rr.name, categories) then [] else [rr])
  {
    assert (rrs + [rr])[..|rrs|] == rrs;
  }

  lemma {:induction false} UnrestrictedIsStable(rrs: seq<RR>, lists: Published, categories: nat)
    ensures Unrestricted(Unrestricted(rrs, lists, categories), lists, categories) == Unrestricted(rrs, lists, categories)
  {
    hide IsRestricted;
    if rrs == [] {
    } else {
      var n := |rrs| - 1;
      var before := Unrestricted(rrs[..n], lists, categories);
      UnrestrictedIsStable(rrs[..n], lists, categories);
      UnrestrictedSnoc(before, rrs[n], lists, categories);
      assert before + [] == before;
    }
  }

  /** Filtering twice under the same lists is filtering once. */
  lemma PostLookupIsIdempotent(msg: Msg, lists: Published, categories: nat)
    ensures var once := PostLooked(msg, k => lists, categories);
      PostLooked(once, k => lists, categories) == once
  {
    hide IsRestricted, Filtered, Unrestricted;
    var once := PostLooked(msg, k => lists, categories);
    FixedViews(msg.answer, lists, 0, categories);
    FixedViews(msg.extra, lists, |msg.answer|, categories);
    UnrestrictedIsStable(msg.answer, lists, categories);
    UnrestrictedIsStable(msg.extra, lists, categories);
    FixedViews(once.answer, lists, 0, categories);
    FixedViews(once.extra, lists, |once.answer|, categories);
  }

  ghost predicate OptsAtRoot(extra: seq<RR>) { forall i :: 0 <= i < |extra| && extra[i].Opt? ==> extra[i].name == "." }

  lemma NonOptSnoc(rrs: seq<RR>, rr: RR)
    ensures NonOpt(rrs + [rr]) == NonOpt(rrs) + (if rr.Opt? then [] else [rr])
  {
    assert (rrs + [rr])[..|rrs|] == rrs;
  }

  lemma {:induction false} NonOptCommutes(extra: seq<RR>, lists: Published, categories: nat)
    ensures NonOpt(Unrestricted(extra, lists, categories)) == Unrestricted(NonOpt(extra), lists, categories)
  {
    hide IsRestricted;
    if extra == [] {
    } else {
      var n := |extra| - 1;
      var rr, before := extra[n], Unrestricted(extra[..n], lists, categories);
      NonOptCommutes(extra[..n], lists, categories);
      NonOptSnoc(before, rr);
      UnrestrictedSnoc(NonOpt(extra[..n]), rr, lists, categories);
      assert before + [] == before && NonOpt(extra[..n]) + [] == NonOpt(extra[..n]);
    }
  }

  /** With the root name unrestricted, filtering the additional section leaves OPT handling as is. */
  lemma {:induction false} StatusCommutes(extra: seq<RR>, rcode: bv32, lists: Published, categories: nat)
    requires OptsAtRoot(extra) && !IsRestricted(lists, ".", categories)
    ensures StatusAfter(rcode, Unrestricted(extra, lists, categories)) == StatusAfter(rcode, extra)
  {
    hide IsRestricted, ExtendStatus;
    if extra == [] {
    } else {
      var n := |extra| - 1;
      var rr, before := extra[n], Unrestricted(extra[..n], lists, categories);
      StatusCommutes(extra[..n], rcode, lists, categories);
      assert (before + [rr])[..|before|] == before;
      assert before + [] == before;
    }
  }

  lemma {:induction false} SubnetCommutes(env: Env, extra: seq<RR>, lists: Published, categories: nat)
    requires OptsAtRoot(extra) && !IsRestricted(lists, ".", categories)
    ensures SubnetAfter(env, Unrestricted(extra, lists, categories)) == SubnetAfter(env, extra)
  {
    hide IsRestricted, OptionsText;
    if extra == [] {
    } else {
      var n := |extra| - 1;
      var rr, before := extra[n], Unrestricted(extra[..n], lists, categories);
      SubnetCommutes(env, extra[..n], lists, categories);
      assert (before + [rr])[..|before|] == before;
      assert before + [] == before;
    }
  }

  /** Marshalling a filtered response: exactly the unrestricted answers and additional records in
      order, no authority, the status and client subnet of the unfiltered response, and a least
      TTL that is the exact minimum over the survivors. */
  lemma FilteringCommutesWithMarshal(env: Env, msg: Msg, lists: Published, categories: nat, now: int)
    requires OptsAtRoot(msg.extra) && !IsRestricted(lists, ".", categories)
    ensures var out, plain := Marshalled(env, PostLooked(msg, k => lists, categories), now), Marshalled(env, msg, now);
      var answers, extras := Unrestricted(msg.answer, lists, categories), Unrestricted(NonOpt(msg.extra), lists, categories);
      var survivors := answers + extras;
      && out.answer == MarshalAll(env, answers, now) && out.authority == []
      && out.additional == MarshalAll(env, extras, now)
      && out.status == plain.status && out.subnet == plain.subnet
      && (out.haveTtl <==> survivors != [])
      && (forall i :: 0 <= i < |survivors| ==> out.leastTtl <= survivors[i].Ttl())
      && (out.haveTtl ==> exists i :: 0 <= i < |survivors| && survivors[i].Ttl() == out.leastTtl)
  {
    hide IsRestricted, Filtered, Unrestricted, MarshalAll, StatusAfter, SubnetAfter, Least, NonOpt;
    FixedViews(msg.answer, lists, 0, categories);
    FixedViews(msg.extra, lists, |msg.answer|, categories);
    NonOptCommutes(msg.extra, lists, categories);
    StatusCommutes(msg.extra, msg.rcode, lists, categories);
    SubnetCommutes(env, msg.extra, lists, categories);
    var m := PostLooked(msg, k => lists, categories);
    var answers, extras := Unrestricted(msg.answer, lists, categories), Unrestricted(NonOpt(msg.extra), lists, categories);
    assert Counted(m) == answers + extras;
    LeastIsMinimum(answers + extras);
    assert Marshalled(env, m, now).authority == [] by { MarshalNothing(env, now); }
  }

  lemma MarshalNothing(env: Env, now: int)
    ensures MarshalAll(env, [], now) == []
  {
  }

  /** A list that restricts the root name drops every OPT record. */
  lemma {:induction false} RestrictedRootDropsOpt(extra: seq<RR>, lists: Published, categories: nat)
    requires OptsAtRoot(extra) && IsRestricted(lists, ".", categories)
    ensures forall i :: 0 <= i < |Unrestricted(extra, lists, categories)| ==> Unrestricted(extra, lists, categories)[i].Record?
  {
    hide IsRestricted;
    if extra == [] {
    } else {
      RestrictedRootDropsOpt(extra[..|extra| - 1], lists, categories);
    }
  }

  /** The additional section holds one OPT record, and that sits at the root name. */
  ghost predicate OneOpt(extra: seq<RR>, before: seq<RR>, opt: RR, after: seq<RR>)
  {
    && extra == before + [opt] + after && opt.Opt? && opt.name == "."
    && (forall i :: 0 <= i < |before| ==> before[i].Record?)
    && (forall i :: 0 <= i < |after| ==> after[i].Record?)
  }

  lemma OneOptAtRoot(extra: seq<RR>, before: seq<RR>, opt: RR, after: seq<RR>)
    requires OneOpt(extra, before, opt, after)
    ensures OptsAtRoot(extra)
  {
    assert forall i :: 0 <= i < |extra| && i != |before| ==> extra[i].Record?;
  }

  lemma ExtensionVisible(rcode: bv32, flags: bv32)
    requires rcode < 16
    ensures ExtendStatus(rcode, flags) == rcode <==> flags & 0xff00_0000 == 0
  {
  }

  lemma FilteredStatus(env: Env, msg: Msg, lists: Published, categories: nat, now: int)
    ensures Marshalled(env, PostLooked(msg, k => lists, categories), now).status ==
      StatusAfter(msg.rcode, Unrestricted(msg.extra, lists, categories))
    ensures Marshalled(env, PostLooked(msg, k => lists, categories), now).subnet ==
      SubnetAfter(env, Unrestricted(msg.extra, lists, categories))
  {
    hide IsRestricted, Filtered, Unrestricted, MarshalAll, StatusAfter, SubnetAfter, Least, NonOpt, Counted;
    FixedViews(msg.extra, lists, |msg.answer|, categories);
  }

  /** For a response with one OPT record and a four-bit code: filtering leaves the marshalled status
      as it was exactly when the root name is unrestricted or there is no extension to lose. */
  lemma StatusKeptIff(env: Env, msg: Msg, before: seq<RR>, opt: RR, after: seq<RR>,
                      lists: Published, categories: nat, now: int)
    requires OneOpt(msg.extra, before, opt, after) && msg.rcode < 16
    ensures Marshalled(env, PostLooked(msg, k => lists, categories), now).status == Marshalled(env, msg, now).status <==>
      !IsRestricted(lists, ".", categories) || opt.flags & 0xff00_0000 == 0
  {
    hide IsRestricted, PostLooked, Marshalled, Unrestricted, ExtendStatus;
    OneOptAtRoot(msg.extra, before, opt, after);
    FilteredStatus(env, msg, lists, categories, now);
    EncodedStatusOfOneOpt(env, msg, before, opt, after, now);
    if IsRestricted(lists, ".", categories) {
      var kept := Unrestricted(msg.extra, lists, categories);
      RestrictedRootDropsOpt(msg.extra, lists, categories);
      StatusOverRecords(msg.rcode, [], kept);
      assert [] + kept == kept;
      ExtensionVisible(msg.rcode, opt.flags);
    } else {
      StatusCommutes(msg.extra, msg.rcode, lists, categories);
      PlainStatus(env, msg, now);
    }
  }

  lemma PlainStatus(env: Env, msg: Msg, now: int)
    ensures Marshalled(env, msg, now).status == StatusAfter(msg.rcode, msg.extra)
    ensures Marshalled(env, msg, now).subnet == SubnetAfter(env, msg.extra)
  {
    hide StatusAfter, SubnetAfter, MarshalAll, Least, NonOpt, Counted;
  }

  lemma {:induction false} SubnetShown(env: Env, options: seq<EdnsOption>)
    ensures OptionsText(env, options, "") == "" <==> forall i :: 0 <= i < |options| ==> options[i].OtherOption?
  {
    if options == [] {
    } else {
      var last := options[|options| - 1];
      SubnetShown(env, options[..|options| - 1]);
      if last.SubnetOption? {
        assert |SubnetText(env, last.subnet)| > 0;
      }
    }
  }

  lemma {:induction false} SubnetOfRecords(env: Env, records: seq<RR>)
    requires forall i :: 0 <= i < |records| ==> records[i].Record?
    ensures SubnetAfter(env, records) == ""
  {
    if records == [] {
    } else {
      SubnetOfRecords(env, records[..|records| - 1]);
    }
  }

  lemma {:induction false} SubnetOfOneOpt(env: Env, before: seq<RR>, opt: RR, after: seq<RR>)
    requires opt.Opt?
    requires forall i :: 0 <= i < |before| ==> before[i].Record?
    requires forall i :: 0 <= i < |after| ==> after[i].Record?
    ensures SubnetAfter(env, before + [opt] + after) == OptionsText(env, opt.options, "")
  {
    hide OptionsText;
    var extra := before + [opt] + after;
    if after == [] {
      assert extra[..|extra| - 1] == before;
      SubnetOfRecords(env, before);
    } else {
      assert extra[..|extra| - 1] == before + [opt] + after[..|after| - 1];
      SubnetOfOneOpt(env, before, opt, after[..|after| - 1]);
    }
  }

  /** Likewise the client subnet stays exactly when the root name is unrestricted or the OPT record
      carries no subnet option. */
  lemma SubnetKeptIff(env: Env, msg: Msg, before: seq<RR>, opt: RR, after: seq<RR>,
                      lists: Published, categories: nat, now: int)
    requires OneOpt(msg.extra, before, opt, after)
    ensures Marshalled(env, PostLooked(msg, k => lists, categories), now).subnet == Marshalled(env, msg, now).subnet <==>
      !IsRestricted(lists, ".", categories) || forall i :: 0 <= i < |opt.options| ==> opt.options[i].OtherOption?
  {
    hide IsRestricted, PostLooked, Marshalled, Unrestricted, SubnetAfter, OptionsText;
    OneOptAtRoot(msg.extra, before, opt, after);
    FilteredStatus(env, msg, lists, categories, now);
    PlainStatus(env, msg, now);
    if IsRestricted(lists, ".", categories) {
      RestrictedRootDropsOpt(msg.extra, lists, categories);
      SubnetOfRecords(env, Unrestricted(msg.extra, lists, categories));
      SubnetOfOneOpt(env, before, opt, after);
      SubnetShown(env, opt.options);
    } else {
      SubnetCommutes(env, msg.extra, lists, categories);
    }
  }

  /** A response with extended status 16 under a blacklist that holds the root name: status and
      subnet are both lost. */
  lemma RootListedLosesBoth(env: Env, msg: Msg, now: int, subnet: Subnet)
    requires msg.rcode == 0 && msg.extra == [Opt(".", 4096, 0x0100_0000, [SubnetOption(subnet)])]
    ensures var out := Marshalled(env, PostLooked(msg, k => Published({}, {"."}, {}), 0), now);
      Marshalled(env, msg, now).status == 16 && out.status == 0 && out.subnet != Marshalled(env, msg, now).subnet
  {
    var lists, opt := Published({}, {"."}, {}), msg.extra[0];
    RootRestricted();
    assert OneOpt(msg.extra, [], opt, []);
    EncodedStatusOfOneOpt(env, msg, [], opt, [], now);
    BadVersion();
    SubnetKeptIff(env, msg, [], opt, [], lists, 0, now);
    FilteredStatus(env, msg, lists, 0, now);
    RestrictedRootDropsOpt(msg.extra, lists, 0);
    var kept := Unrestricted(msg.extra, lists, 0);
    StatusOverRecords(msg.rcode, [], kept);
    hide IsRestricted, PostLooked, Marshalled, Unrestricted, SubnetAfter, OptionsText, ExtendStatus;
    assert [] + kept == kept;
    assert opt.options[0].SubnetOption?;
  }

  lemma RootRestricted()
    ensures IsRestricted(Published({}, {"."}, {}), ".", 0)
  {
    assert LookupKey(".") == ".";
  }

  lemma BadVersion()
    ensures ExtendStatus(0, 0x0100_0000) == 16
  {
  }
}
