/** Ageing of TTLs on the client, against the freshness lifetime the server announced. */
module Freshness {
  import opened Text
  import opened Dns
  import opened JsonDns
  import opened JsonUnmarshal

  // ----- the client's age -------------------------------------------------------------------------

  /** The clock the client goes by: the Date header, or its own. */
  function Clock(date: Option<int>, local: int): int { if date.Some? then date.value else local }

  /** parseResponseIETF: Date (or the local clock) minus Last-Modified (or that same time), not
      below zero. An unparsable header counts as missing. */
  function Age(date: Option<int>, lastModified: Option<int>, local: int): (delta: nat)
  {
    var now := Clock(date, local);
    var since := if lastModified.Some? then lastModified.value else now;
    var delta := Elapsed(now, since);
    if delta < 0 then 0 else delta
  }

  /** fixRecordTTL's arithmetic. */
  function AgedTtl(ttl: nat, delta: nat): (r: nat)
    ensures r <= ttl
  {
    var left := ttl * SECOND - delta;
    if left > 0 then left / SECOND else 0
  }

  /** The 64-bit duration arithmetic of fixRecordTTL cannot overflow. */
  lemma AgeingStaysIn64Bits(ttl: nat, delta: nat)
    requires ttl < U32 && delta <= MAX_INT64
    ensures MIN_INT64 <= ttl * SECOND - delta <= MAX_INT64 && ttl * SECOND <= MAX_INT64
    ensures AgedTtl(ttl, delta) < U32
  {
  }

  /** The age is the time since Last-Modified by that clock: exact as long as it fits a duration, and
      zero exactly when the clock is not past it (or there is nothing to compare with). */
  lemma AgeIsTimeSinceModified(date: Option<int>, lastModified: Option<int>, local: int)
    ensures Age(date, lastModified, local) <= MAX_INT64
    ensures Age(date, lastModified, local) == 0 <==>
      lastModified.None? || Clock(date, local) <= lastModified.value
    ensures lastModified.Some? && 0 <= Clock(date, local) - lastModified.value <= MAX_INT64 ==>
      lastModified.value + Age(date, lastModified, local) == Clock(date, local)
  {
  }

  /** generateResponseIETF: one reading of the clock, cut to the second, goes into both headers. */
  datatype TimeHeaders = TimeHeaders(date: Option<int>, lastModified: Option<int>)

  function Stamped(clock: int): TimeHeaders
  {
    var second := clock / SECOND * SECOND;
    TimeHeaders(Some(second), Some(second))
  }

  /** Both headers name the last whole second. */
  lemma StampedIsWholeSecond(clock: int)
    ensures var h := Stamped(clock);
      h.date.Some? && h.lastModified == h.date && h.date.value % SECOND == 0 && h.date.value <= clock < h.date.value + SECOND
  {
  }

  // ----- 32-bit TTL fields --------------------------------------------------------------------------

  lemma {:induction false} HasBits(n: nat) returns (b: bv32)
    requires n < U32
    ensures b as nat == n
  {
    if n == 0 {
      b := 0;
    } else {
      var half := HasBits(n / 2);
      Doubled(half);
      b := if n % 2 == 0 then half << 1 else (half << 1) | 1;
    }
  }

  lemma Doubled(b: bv32)
    requires b as nat < 0x8000_0000
    ensures (b << 1) as nat == 2 * (b as nat) && ((b << 1) | 1) as nat == 2 * (b as nat) + 1
  {
    assert b < 0x8000_0000;
  }

  lemma BitsKept(b: bv32)
    ensures (b as nat) as bv32 == b
  {
  }

  /** The conversion to the 32-bit field loses nothing. */
  lemma FieldKept(n: nat)
    requires n < U32
    ensures (n as bv32) as nat == n
  {
    var b := HasBits(n);
    BitsKept(b);
  }

  // ----- records and sections -----------------------------------------------------------------------

  /** fixRecordTTL. On an OPT record the field holds the extended code and flags. */
  function AgedRecord(rr: RR, delta: nat): (r: RR)
    ensures r.Ttl() == AgedTtl(rr.Ttl(), delta)
    ensures r.Opt? == rr.Opt? && (delta == 0 ==> r == rr)
    ensures r.name == rr.name && r.Type() == rr.Type()
    ensures if rr.Opt? then r.udpSize == rr.udpSize && r.options == rr.options else r.cls == rr.cls && r.data == rr.data
  {
    hide AgedTtl;
    var ttl := AgedTtl(rr.Ttl(), delta);
    Unaged(rr.Ttl());
    if rr.Opt? then
      FieldKept(ttl);
      BitsKept(rr.flags);
      rr.(flags := ttl as bv32)
    else rr.(ttl := ttl)
  }

  lemma Unaged(ttl: nat)
    ensures AgedTtl(ttl, 0) == ttl
  {
  }

  /** A section with its records aged; the additional section's OPT records are passed over. */
  function AgedAll(rrs: seq<RR>, delta: nat, skipOpt: bool): (r: seq<RR>)
    ensures |r| == |rrs|
    ensures forall i :: 0 <= i < |rrs| ==> r[i] == if skipOpt && rrs[i].Opt? then rrs[i] else AgedRecord(rrs[i], delta)
  {
    seq(|rrs|, i requires 0 <= i < |rrs| => if skipOpt && rrs[i].Opt? then rrs[i] else AgedRecord(rrs[i], delta))
  }

  /** One loop of parseResponseIETF, rewriting the record headers in place. */
  method AgeSection(section: array<RR>, delta: nat, skipOpt: bool)
    modifies section
    ensures section[..] == AgedAll(old(section[..]), delta, skipOpt)
  {
    hide AgedTtl, AgedRecord;
    for i := 0 to section.Length
      invariant section[..i] == AgedAll(old(section[..]), delta, skipOpt)[..i]
      invariant section[i..] == old(section[..])[i..]
    {
      assert section[i] == old(section[..])[i] by { assert section[i..][0] == section[i]; }
      if skipOpt && section[i].Opt? {
        continue;
      }
      section[i] := AgedRecord(section[i], delta);
    }
  }

  /** The reply as the client passes it on: the query's ID, every record aged. */
  function Aged(msg: Msg, id: nat, delta: nat): Msg
  {
    msg.(id := id, answer := AgedAll(msg.answer, delta, false), ns := AgedAll(msg.ns, delta, false),
      extra := AgedAll(msg.extra, delta, true))
  }

  lemma {:induction false} NonOptAged(extra: seq<RR>, delta: nat)
    ensures NonOpt(AgedAll(extra, delta, true)) == AgedAll(NonOpt(extra), delta, false)
  {
    hide AgedTtl, AgedRecord;
    if extra == [] {
    } else {
      var n := |extra| - 1;
      NonOptAged(extra[..n], delta);
      assert AgedAll(extra, delta, true)[..n] == AgedAll(extra[..n], delta, true);
    }
  }

  lemma AgedMonotone(a: nat, b: nat, delta: nat)
    requires a <= b
    ensures AgedTtl(a, delta) <= AgedTtl(b, delta)
  {
    if a * SECOND - delta > 0 {
      assert (a * SECOND - delta) / SECOND <= (b * SECOND - delta) / SECOND;
    }
  }

  /** Ageing commutes with the minimum, whatever the age. */
  lemma {:induction false} LeastAged(rrs: seq<RR>, delta: nat)
    ensures Least(AgedAll(rrs, delta, false)) ==
      if Least(rrs).None? then None else Some(AgedTtl(Least(rrs).value, delta))
  {
    hide AgedRecord;
    if rrs == [] {
    } else {
      var n := |rrs| - 1;
      LeastAged(rrs[..n], delta);
      assert AgedAll(rrs, delta, false)[..n] == AgedAll(rrs[..n], delta, false);
      var t, before := rrs[n].Ttl(), Least(rrs[..n]);
      if before.Some? {
        if t < before.value { AgedMonotone(t, before.value, delta); }
        else { AgedMonotone(before.value, t, delta); }
      }
      hide AgedTtl;
    }
  }

  lemma CountedAged(msg: Msg, id: nat, delta: nat)
    ensures Counted(Aged(msg, id, delta)) == AgedAll(Counted(msg), delta, false)
  {
    hide AgedTtl, AgedRecord;
    NonOptAged(msg.extra, delta);
  }

  /** End to end (section 5.1 of RFC 8484). The server announces its least TTL as the freshness
      lifetime; while the age the client computes is within it, no record is clamped, each new TTL
      is the old one less the age rounded down, and the least TTL of the aged message is the
      announced lifetime aged by the same amount. */
  lemma FreshWithinMaxAge(env: Env, msg: Msg, sent: int, maxAge: nat, id: nat, delta: nat)
    requires Least(Counted(msg)) == Some(maxAge) && delta <= maxAge * SECOND
    ensures Marshalled(env, msg, sent).haveTtl && Marshalled(env, msg, sent).leastTtl == maxAge
    ensures var counted, aged := Counted(msg), Counted(Aged(msg, id, delta));
      && |aged| == |counted|
      && (forall i :: 0 <= i < |counted| ==>
            delta <= counted[i].Ttl() * SECOND && aged[i].Ttl() == (counted[i].Ttl() * SECOND - delta) / SECOND)
      && Least(aged) == Some((maxAge * SECOND - delta) / SECOND)
  {
    hide Counted, Least, MarshalAll, StatusAfter, SubnetAfter, Aged, AgedAll, AgedTtl, AgedRecord;
    var counted := Counted(msg);
    CountedAged(msg, id, delta);
    FreshRecords(counted, maxAge, delta);
  }

  lemma FreshRecords(counted: seq<RR>, maxAge: nat, delta: nat)
    requires Least(counted) == Some(maxAge) && delta <= maxAge * SECOND
    ensures forall i :: 0 <= i < |counted| ==> delta <= counted[i].Ttl() * SECOND
    ensures forall i :: 0 <= i < |counted| ==>
      AgedAll(counted, delta, false)[i].Ttl() == (counted[i].Ttl() * SECOND - delta) / SECOND
    ensures Least(AgedAll(counted, delta, false)) == Some((maxAge * SECOND - delta) / SECOND)
  {
    hide AgedRecord;
    LeastIsMinimum(counted);
    LeastAged(counted, delta);
    hide Least;
    forall i | 0 <= i < |counted|
      ensures delta <= counted[i].Ttl() * SECOND
      ensures AgedAll(counted, delta, false)[i].Ttl() == (counted[i].Ttl() * SECOND - delta) / SECOND
    {
      assert maxAge <= counted[i].Ttl();
    }
  }

  /** Past the announced lifetime the least record is clamped to zero. */
  lemma StaleIsZero(ttl: nat, delta: nat)
    ensures AgedTtl(ttl, delta) == 0 <==> delta > (ttl - 1) * SECOND
  {
  }

  lemma AllUnaged(rrs: seq<RR>, skipOpt: bool)
    ensures AgedAll(rrs, 0, skipOpt) == rrs
  {
    hide AgedTtl;
  }

  /** With the headers the server writes, whatever it read from its clock and whatever the client's
      says, the client passes every TTL on unchanged. */
  lemma OwnHeadersMeanAgeZero(clock: int, local: int, msg: Msg, id: nat)
    ensures var h := Stamped(clock); Aged(msg, id, Age(h.date, h.lastModified, local)) == msg.(id := id)
  {
    var h := Stamped(clock);
    AgeIsTimeSinceModified(h.date, h.lastModified, local);
    hide Age, AgedAll;
    AllUnaged(msg.answer, false);
    AllUnaged(msg.ns, false);
    AllUnaged(msg.extra, true);
  }
}
