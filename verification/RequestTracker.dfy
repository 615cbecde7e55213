/** The request log: a bounded channel, a byte buffer and an append-only file. */
module RequestTracker {
  import opened Text

  const CAPACITY: nat := 1000
  const FLUSH_AT: nat := 2048

  /** `stamp` is the formatted UTC time with its separator. */
  datatype Entry = Entry(stamp: string, domain: string)

  function Render(e: Entry): string { e.stamp + e.domain + "\n" }

  function RenderAll(es: seq<Entry>): string
  {
    if es == [] then "" else RenderAll(es[..|es| - 1]) + Render(es[|es| - 1])
  }

  /** `accepted` (all saved entries in order) and `lost` (bytes a failed write dropped) are history. */
  datatype Log = Log(channel: seq<Entry>, buf: string, file: string, accepted: seq<Entry>, lost: nat)

  /** `stored` is how many of the offered bytes a write put into the file; fewer means an error. */
  datatype Event = Save(entry: Entry) | Tick(stored: nat) | Receive(stored: nat)

  function Flush(log: Log, stored: nat): Log
    requires stored <= |log.buf|
  {
    log.(file := log.file + log.buf[..stored], buf := "", lost := log.lost + |log.buf| - stored)
  }

  function Buffered(log: Log): Log
    requires log.channel != []
  {
    log.(channel := log.channel[1..], buf := log.buf + Render(log.channel[0]))
  }

  predicate Enabled(log: Log, e: Event)
  {
    match e
    case Save(_) => |log.channel| < CAPACITY
    case Tick(stored) => stored <= |log.buf|
    case Receive(stored) => log.channel != [] && stored <= |Buffered(log).buf|
  }

  function Step(log: Log, e: Event): Log
    requires Enabled(log, e)
  {
    match e
    case Save(entry) => log.(channel := log.channel + [entry], accepted := log.accepted + [entry])
    case Tick(stored) => Flush(log, stored)
    case Receive(stored) => if |Buffered(log).buf| >= FLUSH_AT then Flush(Buffered(log), stored) else Buffered(log)
  }

  /** A step that writes, and stores less than it was offered. */
  predicate ShortWrite(log: Log, e: Event)
    requires Enabled(log, e)
  {
    match e
    case Save(_) => false
    case Tick(stored) => stored < |log.buf|
    case Receive(stored) => |Buffered(log).buf| >= FLUSH_AT && stored < |Buffered(log).buf|
  }

  ghost predicate Feasible(log: Log, es: seq<Event>)
    decreases |es|
  {
    es == [] || (Enabled(log, es[0]) && Feasible(Step(log, es[0]), es[1..]))
  }

  ghost function After(log: Log, es: seq<Event>): Log
    requires Feasible(log, es)
    decreases |es|
  {
    if es == [] then log else After(Step(log, es[0]), es[1..])
  }

  ghost predicate SomeShortWrite(log: Log, es: seq<Event>)
    requires Feasible(log, es)
    decreases |es|
  {
    es != [] && (ShortWrite(log, es[0]) || SomeShortWrite(Step(log, es[0]), es[1..]))
  }

  function Started(existing: string): Log { Log([], "", existing, [], 0) }

  // ----- conservation ---------------------------------------------------------------------

  /** File bytes, then buffer bytes, then the rendered channel. */
  function Pipeline(log: Log): string { log.file + log.buf + RenderAll(log.channel) }

  ghost predicate Conserved(existing: string, log: Log)
  {
    Pipeline(log) == existing + RenderAll(log.accepted)
  }

  ghost predicate Inv(existing: string, log: Log)
  {
    && |log.buf| < FLUSH_AT && |log.channel| <= CAPACITY
    && |Pipeline(log)| + log.lost == |existing| + |RenderAll(log.accepted)|
    && (log.lost == 0 ==> Conserved(existing, log))
  }

  lemma RenderAllSnoc(es: seq<Entry>, e: Entry)
    ensures RenderAll(es + [e]) == RenderAll(es) + Render(e)
  {
    assert (es + [e])[..|es|] == es;
  }

  lemma {:induction false} RenderAllCons(es: seq<Entry>)
    requires es != []
    ensures RenderAll(es) == Render(es[0]) + RenderAll(es[1..])
  {
    hide Render;
    var init, last := es[..|es| - 1], es[|es| - 1];
    if |es| == 1 {
      assert init == [] && es[1..] == [];
      assert RenderAll(es) == "" + Render(last);
    } else {
      RenderAllCons(init);
      assert es[1..] == init[1..] + [last];
      RenderAllSnoc(init[1..], last);
      assert RenderAll(es) == RenderAll(init) + Render(last);
    }
  }

  lemma SaveInv(existing: string, log: Log, entry: Entry)
    requires Inv(existing, log) && |log.channel| < CAPACITY
    ensures Inv(existing, log.(channel := log.channel + [entry], accepted := log.accepted + [entry]))
  {
    hide RenderAll, Render;
    var log' := log.(channel := log.channel + [entry], accepted := log.accepted + [entry]);
    RenderAllSnoc(log.channel, entry);
    RenderAllSnoc(log.accepted, entry);
    assert Pipeline(log') == Pipeline(log) + Render(entry);
    assert existing + RenderAll(log'.accepted) == existing + RenderAll(log.accepted) + Render(entry);
  }

  /** Taking an entry off the channel moves its bytes into the buffer. */
  lemma BufferedKeepsPipeline(log: Log)
    requires log.channel != []
    ensures Pipeline(Buffered(log)) == Pipeline(log)
  {
    hide RenderAll, Render;
    RenderAllCons(log.channel);
    var b := Buffered(log);
    assert log.file + (log.buf + Render(log.channel[0])) + RenderAll(log.channel[1..])
      == log.file + log.buf + (Render(log.channel[0]) + RenderAll(log.channel[1..]));
  }

  lemma FlushInv(existing: string, log: Log, stored: nat)
    requires stored <= |log.buf| && |log.channel| <= CAPACITY
    requires |Pipeline(log)| + log.lost == |existing| + |RenderAll(log.accepted)|
    requires log.lost == 0 ==> Conserved(existing, log)
    ensures Inv(existing, Flush(log, stored))
  {
    hide RenderAll;
    if stored == |log.buf| {
      assert log.buf[..stored] == log.buf;
      assert log.file + log.buf + "" == log.file + log.buf;
    }
  }

  lemma StepInv(existing: string, log: Log, e: Event)
    requires Inv(existing, log) && Enabled(log, e)
    ensures Inv(existing, Step(log, e))
    ensures Step(log, e).lost > log.lost <==> ShortWrite(log, e)
    ensures Step(log, e).lost >= log.lost
  {
    hide RenderAll, Render;
    match e
    case Save(entry) => SaveInv(existing, log, entry);
    case Tick(stored) => FlushInv(existing, log, stored);
    case Receive(stored) =>
      BufferedKeepsPipeline(log);
      if |Buffered(log).buf| >= FLUSH_AT {
        FlushInv(existing, Buffered(log), stored);
      }
  }

  lemma {:induction false} RunInv(existing: string, log: Log, es: seq<Event>)
    requires Inv(existing, log) && Feasible(log, es)
    ensures Inv(existing, After(log, es)) && After(log, es).lost >= log.lost
    ensures After(log, es).lost > log.lost <==> SomeShortWrite(log, es)
    decreases |es|
  {
    hide Inv, Step, Enabled, ShortWrite;
    if es == [] {
    } else {
      StepInv(existing, log, es[0]);
      RunInv(existing, Step(log, es[0]), es[1..]);
    }
  }

  /** In every run: file, buffer and channel hold exactly the accepted entries in order, once
      each, if and only if no write fell short; the buffer stays below 2048 bytes and the channel
      within 1000 entries either way. */
  lemma NothingLostIffNoShortWrite(existing: string, es: seq<Event>)
    requires Feasible(Started(existing), es)
    ensures var log := After(Started(existing), es);
      && (Conserved(existing, log) <==> !SomeShortWrite(Started(existing), es))
      && |log.buf| < 2048 && |log.channel| <= 1000
  {
    assert Inv(existing, Started(existing));
    RunInv(existing, Started(existing), es);
  }

  // ----- the file read back ---------------------------------------------------------------

  predicate OneLine(e: Entry) { '\n' !in e.stamp && '\n' !in e.domain }

  /** Stamp and domain of every entry, line by line. */
  function LinesOf(es: seq<Entry>): seq<string>
  {
    if es == [] then [] else [es[0].stamp + es[0].domain] + LinesOf(es[1..])
  }

  lemma {:induction false} LogLines(es: seq<Entry>)
    requires forall i :: 0 <= i < |es| ==> OneLine(es[i])
    ensures Split(RenderAll(es), '\n') == LinesOf(es) + [""]
  {
    if es == [] {
      SplitWhole("", '\n');
    } else {
      RenderAllCons(es);
      LogLines(es[1..]);
      hide Split, RenderAll;
      var line := es[0].stamp + es[0].domain;
      assert OneLine(es[0]);
      SplitFirst(line, '\n', RenderAll(es[1..]));
      assert RenderAll(es) == line + ['\n'] + RenderAll(es[1..]);
    }
  }

  /** After a run in which no write fell short and everything was written out, the file has its old
      lines and then stamp and domain of the accepted entries, in order. */
  lemma LogReadsBack(existing: string, es: seq<Event>)
    requires existing == "" || existing[|existing| - 1] == '\n'
    requires Feasible(Started(existing), es) && !SomeShortWrite(Started(existing), es)
    requires var log := After(Started(existing), es);
      log.channel == [] && log.buf == "" && forall i :: 0 <= i < |log.accepted| ==> OneLine(log.accepted[i])
    ensures var log, was := After(Started(existing), es), Split(existing, '\n');
      Split(log.file, '\n') == was[..|was| - 1] + LinesOf(log.accepted) + [""]
  {
    var log := After(Started(existing), es);
    NothingLostIffNoShortWrite(existing, es);
    LogLines(log.accepted);
    assert RenderAll([]) == "";
    hide Split, RenderAll, After, Feasible, SomeShortWrite;
    assert Pipeline(log) == log.file;
    AppendedLines(existing, RenderAll(log.accepted), LinesOf(log.accepted));
  }

  lemma AppendedLines(existing: string, added: string, lines: seq<string>)
    requires existing == "" || existing[|existing| - 1] == '\n'
    requires Split(added, '\n') == lines + [""]
    ensures var was := Split(existing, '\n'); Split(existing + added, '\n') == was[..|was| - 1] + lines + [""]
  {
    hide Split;
    SplitWhole("", '\n');
    var was := Split(existing, '\n');
    if existing == "" {
      assert existing + added == added;
      assert was[..|was| - 1] == [];
      assert [] + lines == lines;
    } else {
      var front := existing[..|existing| - 1];
      assert existing == front + ['\n'] + "";
      SplitConcat(front, '\n', "");
      assert was[..|was| - 1] == Split(front, '\n');
      SplitConcat(front, '\n', added);
      assert existing + added == front + ['\n'] + added;
      assert Split(front, '\n') + (lines + [""]) == Split(front, '\n') + lines + [""];
    }
  }

  /** A later event keeps earlier accepted entries and appends the one it saves, in order. */
  lemma AcceptedInOrder(log: Log, e: Event)
    requires Enabled(log, e)
    ensures Step(log, e).accepted == if e.Save? then log.accepted + [e.entry] else log.accepted
  {
  }

  // ----- the object -----------------------------------------------------------------------

  class Tracker {
    var entries: seq<Entry>
    var buf: string
    var file: string
    ghost var accepted: seq<Entry>
    ghost var lost: nat

    ghost function View(): Log
      reads this
    {
      Log(entries, buf, file, accepted, lost)
    }

    /** NewTracker: the file is opened for appending. */
    constructor (existing: string)
      ensures View() == Started(existing)
    {
      entries, buf, file := [], "", existing;
      accepted, lost := [], 0;
    }

    /** The send proceeds once the channel has room. */
    method SaveDomain(entry: Entry)
      requires |entries| < CAPACITY
      modifies this
      ensures View() == Step(old(View()), Save(entry))
    {
      entries := entries + [entry];
      accepted := accepted + [entry];
    }

    /** buf.WriteTo then buf.Reset: what was not stored is forgotten. */
    method WriteOut(stored: nat)
      requires stored <= |buf|
      modifies this
      ensures View() == Flush(old(View()), stored)
    {
      file := file + buf[..stored];
      lost := lost + |buf| - stored;
      buf := "";
    }

    method OnTick(stored: nat)
      requires stored <= |buf|
      modifies this
      ensures View() == Step(old(View()), Tick(stored))
    {
      WriteOut(stored);
    }

    method OnEntry(stored: nat)
      requires entries != [] && stored <= |buf + Render(entries[0])|
      modifies this
      ensures View() == Step(old(View()), Receive(stored))
    {
      var entry := entries[0];
      entries := entries[1..];
      buf := buf + entry.stamp;
      buf := buf + entry.domain;
      buf := buf + "\n";
      assert buf == old(buf) + Render(entry);
      if |buf| >= FLUSH_AT {
        WriteOut(stored);
      }
    }
  }
}
