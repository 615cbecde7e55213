/** The OPT record and client subnet that both sides add to a query on its way. */
module Edns {
  import opened Text
  import opened Dns

  /** IsEdns0 looks from the end. */
  function LastOpt(extra: seq<RR>): (i: Option<nat>)
    ensures i.Some? ==> i.value < |extra| && extra[i.value].Opt?
  {
    if extra == [] then None
    else if extra[|extra| - 1].Opt? then Some(|extra| - 1) else LastOpt(extra[..|extra| - 1])
  }

  predicate HasSubnet(options: seq<EdnsOption>) { exists i :: 0 <= i < |options| && options[i].SubnetOption? }

  /** The first subnet option. */
  function FirstSubnet(options: seq<EdnsOption>): (s: Option<Subnet>)
    ensures s.Some? <==> HasSubnet(options)
    ensures s.Some? ==>
      exists i :: 0 <= i < |options| && options[i] == SubnetOption(s.value) && forall j :: 0 <= j < i ==> options[j].OtherOption?
  {
    if options == [] then None
    else if options[0].SubnetOption? then Some(options[0].subnet)
    else
      var rest := FirstSubnet(options[1..]);
      assert rest.Some? ==>
          exists i :: 0 <= i < |options| && options[i] == SubnetOption(rest.value) && forall j :: 0 <= j < i ==> options[j].OtherOption? by {
        if rest.Some? {
          var i :| 0 <= i < |options[1..]| && options[1..][i] == SubnetOption(rest.value) &&
            forall j :: 0 <= j < i ==> options[1..][j].OtherOption?;
          assert options[i + 1] == SubnetOption(rest.value);
          forall j | 0 <= j < i + 1 ensures options[j].OtherOption? {
            if j > 0 { assert options[1..][j - 1].OtherOption?; }
          }
        }
      }
      assert HasSubnet(options) ==> HasSubnet(options[1..]) by {
        if HasSubnet(options) {
          var i :| 0 <= i < |options| && options[i].SubnetOption?;
          assert options[1..][i - 1].SubnetOption?;
        }
      }
      rest
  }

  /** The subnet a query brings itself. */
  function OwnSubnet(msg: Msg): Option<Subnet>
  {
    if LastOpt(msg.extra).None? then None else FirstSubnet(msg.extra[LastOpt(msg.extra).value].options)
  }

  function WithOpt(extra: seq<RR>): seq<RR>
  {
    if LastOpt(extra).Some? then extra else [Opt(".", 4096, 0, [])] + extra
  }

  function ExtraWithSubnet(extra: seq<RR>, subnet: Option<Subnet>): seq<RR>
  {
    var e := WithOpt(extra);
    var at := LastOpt(e);
    if at.None? || subnet.None? || HasSubnet(e[at.value].options) then e
    else
      var opt := e[at.value];
      e[at.value := opt.(options := opt.options + [SubnetOption(subnet.value)])]
  }

  /** The outgoing query: an OPT record and, unless it has one, the client subnet. */
  function WithSubnet(msg: Msg, subnet: Option<Subnet>): Msg { msg.(extra := ExtraWithSubnet(msg.extra, subnet)) }

  lemma {:induction false} LastOptSkips(front: seq<RR>, opt: RR, rest: seq<RR>)
    requires opt.Opt? && forall i :: 0 <= i < |rest| ==> rest[i].Record?
    ensures LastOpt(front + [opt] + rest) == Some(|front|)
  {
    var all := front + [opt] + rest;
    if rest == [] {
    } else {
      var init := rest[..|rest| - 1];
      assert all[..|all| - 1] == front + [opt] + init;
      LastOptSkips(front, opt, init);
    }
  }

  lemma {:induction false} LastOptSplits(extra: seq<RR>)
    ensures LastOpt(extra).None? <==> forall i :: 0 <= i < |extra| ==> extra[i].Record?
    ensures LastOpt(extra).Some? ==> forall i :: LastOpt(extra).value < i < |extra| ==> extra[i].Record?
  {
    if extra == [] || extra[|extra| - 1].Opt? {
    } else {
      LastOptSplits(extra[..|extra| - 1]);
    }
  }

  lemma OptEnsured(extra: seq<RR>)
    ensures LastOpt(WithOpt(extra)).Some?
    ensures LastOpt(extra).Some? ==> WithOpt(extra) == extra
    ensures LastOpt(extra).None? ==> LastOpt(WithOpt(extra)) == Some(0) && WithOpt(extra)[1..] == extra
  {
    hide LastOpt;
    LastOptSplits(extra);
    if LastOpt(extra).None? {
      var opt := Opt(".", 4096, 0, []);
      assert WithOpt(extra) == [] + [opt] + extra;
      LastOptSkips([], opt, extra);
    }
  }

  /** Changing the options of the last OPT record leaves it the last one. */
  lemma OptReplaced(extra: seq<RR>, opt: RR)
    requires LastOpt(extra).Some? && opt.Opt?
    ensures LastOpt(extra[LastOpt(extra).value := opt]) == LastOpt(extra)
  {
    hide LastOpt;
    LastOptSplits(extra);
    var at := LastOpt(extra).value;
    assert extra[at := opt] == extra[..at] + [opt] + extra[at + 1..];
    LastOptSkips(extra[..at], opt, extra[at + 1..]);
  }

  /** out has msg's additional section, with an OPT record put in front if there was none, and only
      the last OPT record possibly changed. */
  ghost predicate OnlyLastOptChanged(before: seq<RR>, after: seq<RR>)
  {
    && LastOpt(after).Some?
    && |after| == |before| + (if LastOpt(before).None? then 1 else 0)
    && forall i :: 0 <= i < |after| && i != LastOpt(after).value ==>
         |before| - |after| + i >= 0 && after[i] == before[|before| - |after| + i]
  }

  /** Every query leaves with an OPT record; a known client subnet is in it unless the query brought
      one of its own, which is left untouched; no other record changes. */
  lemma OutgoingEdns(extra: seq<RR>, subnet: Option<Subnet>)
    ensures var out := ExtraWithSubnet(extra, subnet);
      && OnlyLastOptChanged(extra, out)
      && (subnet.Some? ==> HasSubnet(out[LastOpt(out).value].options))
      && (LastOpt(extra).Some? && HasSubnet(extra[LastOpt(extra).value].options) ==> out == extra)
  {
    hide LastOpt, HasSubnet, WithOpt, OnlyLastOptChanged;
    OptEnsured(extra);
    var e := WithOpt(extra);
    var at := LastOpt(e).value;
    OptAdded(extra, e[at]);
    assert e[at := e[at]] == e;
    if subnet.Some? && !HasSubnet(e[at].options) {
      var opt := e[at].(options := e[at].options + [SubnetOption(subnet.value)]);
      OptReplaced(e, opt);
      OptAdded(extra, opt);
      SubnetAppended(e[at].options, subnet.value);
    }
  }

  lemma OptAdded(extra: seq<RR>, opt: RR)
    requires opt.Opt? && LastOpt(WithOpt(extra)).Some?
    ensures OnlyLastOptChanged(extra, WithOpt(extra)[LastOpt(WithOpt(extra)).value := opt])
  {
    hide LastOpt;
    OptEnsured(extra);
    OptReplaced(WithOpt(extra), opt);
  }

  /** The OPT record that leaves: the query's own, or a fresh one announcing 4096 bytes, and the given
      subnet appended to its options unless it brought one. */
  lemma OutgoingOpt(extra: seq<RR>, subnet: Option<Subnet>)
    ensures var out := ExtraWithSubnet(extra, subnet);
      var before := if LastOpt(extra).Some? then extra[LastOpt(extra).value] else Opt(".", 4096, 0, []);
      && LastOpt(out).Some?
      && out[LastOpt(out).value] ==
         if subnet.Some? && !HasSubnet(before.options) then before.(options := before.options + [SubnetOption(subnet.value)])
         else before
  {
    hide LastOpt, HasSubnet;
    OptEnsured(extra);
    var e := WithOpt(extra);
    var opt := e[LastOpt(e).value];
    if subnet.Some? && !HasSubnet(opt.options) {
      OptReplaced(e, opt.(options := opt.options + [SubnetOption(subnet.value)]));
    }
  }

  lemma SubnetAppended(options: seq<EdnsOption>, s: Subnet)
    ensures HasSubnet(options + [SubnetOption(s)])
  {
    assert (options + [SubnetOption(s)])[|options|].SubnetOption?;
  }
}
