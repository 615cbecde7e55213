/** Replacement of the shared HTTP client under the read-write lock, with its rate limit. */
module HttpClientSwap {

  import opened Text

  /** One goroutine: idle, holding the read lock, inside Do with the client it picked up, or inside
      newHTTPClient holding the write lock before and after the age check. */
  datatype Routine = Idle | Reading | Doing(client: nat) | Checking | Replacing

  /** `client` numbers the clients created so far; `created` lists their creation times (history);
      `lastCreate` is httpClientLastCreate, absent for the zero time. */
  datatype State = State(
    routines: map<nat, Routine>,
    client: nat,
    hasLast: bool,
    lastCreate: nat,
    now: nat,
    created: seq<nat>)

  datatype Event =
    | Pass(ns: nat)        // time passes
    | RLock(g: nat)
    | DoStart(g: nat)
    | DoEnd(g: nat)        // and RUnlock
    | Lock(g: nat)
    | Check(g: nat)        // too young: return, else go on
    | Replace(g: nat)      // assign the client and the creation time, then Unlock
    | Fail(g: nat)         // ConfigureTransport refuses: Unlock without a new client

  predicate HoldsRead(r: Routine) { r.Reading? || r.Doing? }
  predicate HoldsWrite(r: Routine) { r.Checking? || r.Replacing? }

  predicate Is(s: State, g: nat, r: Routine) { g in s.routines && s.routines[g] == r }

  /** sync.RWMutex: readers exclude writers, a writer excludes everyone. */
  predicate Enabled(s: State, e: Event)
  {
    match e
    case Pass(_) => true
    case RLock(g) => Is(s, g, Idle) && forall h :: h in s.routines ==> !HoldsWrite(s.routines[h])
    case DoStart(g) => Is(s, g, Reading)
    case DoEnd(g) => g in s.routines && s.routines[g].Doing?
    case Lock(g) => Is(s, g, Idle) && forall h :: h in s.routines ==> !HoldsRead(s.routines[h]) && !HoldsWrite(s.routines[h])
    case Check(g) => Is(s, g, Checking)
    case Replace(g) => Is(s, g, Replacing)
    case Fail(g) => Is(s, g, Replacing)
  }

  function Set(s: State, g: nat, r: Routine): State { s.(routines := s.routines[g := r]) }

  /** Times are nanoseconds of the monotonic clock; the configured timeout is in seconds. */
  predicate TooYoung(s: State, timeout: nat) { s.hasLast && s.now - s.lastCreate < timeout * SECOND }

  function Step(timeout: nat, s: State, e: Event): State
    requires Enabled(s, e)
  {
    match e
    case Pass(ns) => s.(now := s.now + ns)
    case RLock(g) => Set(s, g, Reading)
    case DoStart(g) => Set(s, g, Doing(s.client))
    case DoEnd(g) => Set(s, g, Idle)
    case Lock(g) => Set(s, g, Checking)
    case Check(g) => Set(s, g, if TooYoung(s, timeout) then Idle else Replacing)
    case Fail(g) => Set(s, g, Idle)
    case Replace(g) =>
      Set(s, g, Idle).(client := s.client + 1, hasLast := true, lastCreate := s.now, created := s.created + [s.now])
  }

  /** Before NewClient's own newHTTPClient call: no client yet, zero creation time. */
  ghost predicate Init(s: State)
  {
    && (forall g :: g in s.routines ==> s.routines[g].Idle?)
    && s.client == 0 && !s.hasLast && s.created == []
  }

  ghost predicate Feasible(timeout: nat, s: State, es: seq<Event>)
    decreases |es|
  {
    es == [] || (Enabled(s, es[0]) && Feasible(timeout, Step(timeout, s, es[0]), es[1..]))
  }

  ghost function After(timeout: nat, s: State, es: seq<Event>): State
    requires Feasible(timeout, s, es)
    decreases |es|
  {
    if es == [] then s else After(timeout, Step(timeout, s, es[0]), es[1..])
  }

  ghost predicate Reachable(timeout: nat, s: State)
  {
    exists s0, es :: Init(s0) && Feasible(timeout, s0, es) && After(timeout, s0, es) == s
  }

  // ----- invariant --------------------------------------------------------------------------

  ghost predicate Spaced(timeout: nat, created: seq<nat>)
  {
    forall i, j :: 0 <= i < j < |created| ==> created[j] - created[i] >= timeout * SECOND
  }

  ghost predicate Inv(timeout: nat, s: State)
  {
    && (forall g, h :: g in s.routines && h in s.routines && g != h && HoldsWrite(s.routines[g]) ==>
          !HoldsWrite(s.routines[h]) && !HoldsRead(s.routines[h]))
    && (forall g :: g in s.routines && s.routines[g].Doing? ==> s.routines[g].client == s.client)
    && (forall g :: g in s.routines && s.routines[g].Replacing? ==> !TooYoung(s, timeout))
    && (s.hasLast <==> s.created != [])
    && (s.hasLast ==> s.lastCreate == s.created[|s.created| - 1] <= s.now)
    && s.client == |s.created|
    && (forall i :: 0 <= i < |s.created| ==> s.created[i] <= s.now)
    && (timeout >= 1 ==> Spaced(timeout, s.created))
  }

  lemma ReplaceInv(timeout: nat, s: State, g: nat)
    requires Inv(timeout, s) && Enabled(s, Replace(g))
    ensures Inv(timeout, Step(timeout, s, Replace(g)))
  {
    var last := |s.created| - 1;
    forall i | 0 <= i < |s.created| && timeout >= 1 ensures s.now - s.created[i] >= timeout * SECOND {
      assert s.created[i] <= s.created[last];
    }
  }

  lemma OtherInv(timeout: nat, s: State, e: Event)
    requires Inv(timeout, s) && Enabled(s, e) && !e.Replace?
    ensures Inv(timeout, Step(timeout, s, e))
  {
    hide Spaced;
  }

  lemma StepInv(timeout: nat, s: State, e: Event)
    requires Inv(timeout, s) && Enabled(s, e)
    ensures Inv(timeout, Step(timeout, s, e))
  {
    hide Inv, Enabled, Step;
    if e.Replace? {
      ReplaceInv(timeout, s, e.g);
    } else {
      OtherInv(timeout, s, e);
    }
  }

  lemma {:induction false} RunInv(timeout: nat, s: State, es: seq<Event>)
    requires Inv(timeout, s) && Feasible(timeout, s, es)
    ensures Inv(timeout, After(timeout, s, es))
    decreases |es|
  {
    hide Inv, Step, Enabled;
    if es == [] {
    } else {
      StepInv(timeout, s, es[0]);
      RunInv(timeout, Step(timeout, s, es[0]), es[1..]);
    }
  }

  lemma ReachableInv(timeout: nat, s: State)
    requires Reachable(timeout, s)
    ensures Inv(timeout, s)
  {
    hide Step, Enabled;
    var s0, es :| Init(s0) && Feasible(timeout, s0, es) && After(timeout, s0, es) == s;
    RunInv(timeout, s0, es);
  }

  /** No replacement happens while any Do is in flight. */
  lemma NoDoDuringReplacement(timeout: nat, s: State, g: nat)
    requires Reachable(timeout, s) && Enabled(s, Replace(g))
    ensures forall h :: h in s.routines ==> !s.routines[h].Doing?
  {
    ReachableInv(timeout, s);
  }

  /** A Do that is still running after any steps runs on the client that is current then. */
  lemma DoEndsOnCurrentClient(timeout: nat, s: State, g: nat)
    requires Reachable(timeout, s) && Enabled(s, DoEnd(g))
    ensures s.routines[g] == Doing(s.client)
  {
    ReachableInv(timeout, s);
  }

  /** Any window shorter than the timeout holds at most one replacement. */
  lemma AtMostOneReplacementPerWindow(timeout: nat, s: State, from: nat, until: nat, i: nat, j: nat)
    requires Reachable(timeout, s) && timeout >= 1
    requires from <= until < from + timeout * SECOND
    requires i < |s.created| && j < |s.created|
    requires from <= s.created[i] <= until && from <= s.created[j] <= until
    ensures i == j
  {
    ReachableInv(timeout, s);
    assert Spaced(timeout, s.created);
  }

  lemma {:induction false} RunAppend(timeout: nat, s: State, es: seq<Event>, more: seq<Event>)
    requires Feasible(timeout, s, es) && Feasible(timeout, After(timeout, s, es), more)
    ensures Feasible(timeout, s, es + more)
    ensures After(timeout, s, es + more) == After(timeout, After(timeout, s, es), more)
    decreases |es|
  {
    hide Step, Enabled;
    if es == [] {
      assert es + more == more;
    } else {
      RunAppend(timeout, Step(timeout, s, es[0]), es[1..], more);
      assert (es + more)[0] == es[0] && (es + more)[1..] == es[1..] + more;
    }
  }

  lemma ReachableAfter(timeout: nat, s: State, es: seq<Event>)
    requires Reachable(timeout, s) && Feasible(timeout, s, es)
    ensures Reachable(timeout, After(timeout, s, es))
  {
    hide Step, Enabled, Init;
    var s0, before :| Init(s0) && Feasible(timeout, s0, before) && After(timeout, s0, before) == s;
    RunAppend(timeout, s0, before, es);
  }

  /** One undisturbed call by goroutine g: the age check at time `checked`, the rest by `stamped`. */
  function Call(g: nat, now: nat, checked: nat, stamped: nat, young: bool, refused: bool): seq<Event>
    requires now <= checked <= stamped
  {
    [Lock(g), Pass(checked - now), Check(g)] +
    if young then [] else [Pass(stamped - checked), if refused then Fail(g) else Replace(g)]
  }

  lemma CallRuns(timeout: nat, s: State, g: nat, checked: nat, stamped: nat, refused: bool)
    requires Enabled(s, Lock(g)) && s.now <= checked <= stamped
    ensures var young := TooYoung(s.(now := checked), timeout);
      var es := Call(g, s.now, checked, stamped, young, refused);
      && Feasible(timeout, s, es)
      && (young || refused ==>
            After(timeout, s, es) == s.(routines := s.routines[g := Idle], now := if young then checked else stamped))
      && (!young && !refused ==>
            After(timeout, s, es) == s.(routines := s.routines[g := Idle], now := stamped, client := s.client + 1,
              hasLast := true, lastCreate := stamped, created := s.created + [stamped]))
  {
    var young := TooYoung(s.(now := checked), timeout);
    var es := Call(g, s.now, checked, stamped, young, refused);
    var s1 := Step(timeout, s, es[0]);
    var s2 := Step(timeout, s1, es[1]);
    var s3 := Step(timeout, s2, es[2]);
    if young {
      assert s3.routines == s.routines[g := Idle];
    } else {
      var s4 := Step(timeout, s3, es[3]);
      var s5 := Step(timeout, s4, es[4]);
      assert s5.routines == s.routines[g := Idle];
      First(timeout, s4, es[4..]);
      First(timeout, s3, es[3..]);
    }
    First(timeout, s2, es[2..]);
    First(timeout, s1, es[1..]);
    First(timeout, s, es);
  }

  /** In clock terms: a call that checks at least the timeout after the last creation (or before any),
      and whose transport is accepted, replaces the client; one that checks earlier keeps it, whatever
      the transport. */
  lemma LateCallReplaces(timeout: nat, s: State, g: nat, checked: nat, stamped: nat, refused: bool)
    requires Enabled(s, Lock(g)) && s.now <= checked <= stamped
    ensures var late := !s.hasLast || checked - s.lastCreate >= timeout * 1_000_000_000;
      var es := [Lock(g), Pass(checked - s.now), Check(g)] +
        if late then [Pass(stamped - checked), if refused then Fail(g) else Replace(g)] else [];
      && Feasible(timeout, s, es)
      && After(timeout, s, es).client == s.client + (if late && !refused then 1 else 0)
      && After(timeout, s, es).created == s.created + (if late && !refused then [stamped] else [])
  {
    hide Enabled, Feasible, After;
    CallRuns(timeout, s, g, checked, stamped, refused);
    assert s.created + [] == s.created;
  }

  lemma First(timeout: nat, s: State, es: seq<Event>)
    requires es != [] && Enabled(s, es[0]) && Feasible(timeout, Step(timeout, s, es[0]), es[1..])
    ensures Feasible(timeout, s, es)
    ensures After(timeout, s, es) == After(timeout, Step(timeout, s, es[0]), es[1..])
  {
  }

  /** The fields that newHTTPClient updates under the write lock. */
  class Client {
    var httpClient: nat
    var hasLast: bool
    var lastCreate: nat

    ghost predicate Represents(s: State)
      reads this
    {
      httpClient == s.client && hasLast == s.hasLast && (hasLast ==> lastCreate == s.lastCreate)
    }

    constructor ()
      ensures forall s :: Init(s) ==> Represents(s)
    {
      httpClient, hasLast, lastCreate := 0, false, 0;
    }

    /** A call in any reachable state is a run of the protocol that ends in the fields' new values, so
        everything proved of reachable states holds after it. `checked` and `stamped` are its two clock
        readings; `refused` says that ConfigureTransport returns an error. An error leaves the old
        client in place with its old creation time. */
    method NewHttpClient(timeout: nat, checked: nat, stamped: nat, refused: bool, ghost s: State, ghost g: nat)
      returns (ok: bool)
      requires Represents(s) && Reachable(timeout, s) && Enabled(s, Lock(g))
      requires s.now <= checked <= stamped
      modifies this
      ensures var young := TooYoung(s.(now := checked), timeout);
        var es := Call(g, s.now, checked, stamped, young, refused);
        && ok == (young || !refused)
        && Feasible(timeout, s, es)
        && Represents(After(timeout, s, es)) && Reachable(timeout, After(timeout, s, es))
        && (Replace(g) in es <==> httpClient != old(httpClient))
      ensures old(hasLast) && httpClient != old(httpClient) ==> lastCreate - old(lastCreate) >= timeout * SECOND
    {
      hide Enabled, Step, Init, Feasible, After, Reachable;
      ghost var young := TooYoung(s.(now := checked), timeout);
      CallRuns(timeout, s, g, checked, stamped, refused);
      ReachableAfter(timeout, s, Call(g, s.now, checked, stamped, young, refused));
      if hasLast && checked - lastCreate < timeout * SECOND {
        return true;
      }
      if refused {
        return false;
      }
      httpClient := httpClient + 1;
      hasLast, lastCreate := true, stamped;
      return true;
    }
  }
}
