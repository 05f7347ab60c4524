/** Writing all pages (page -1) at one process and then reading all pages at the other. */
module DsmBroadcast {
  import opened DsmModel
  import opened DsmCoherence
  import opened DsmSerial
  import opened DsmResults
  import opened DsmCompletion

  /** What writing `bytes` to the first `k` pages logs: each page is written and then printed. */
  function WriteAllLog(i: Id, bytes: seq<Byte>, k: nat): seq<Event> {
    if k == 0 then [] else WriteAllLog(i, bytes, k - 1) + [Wrote(i, k - 1, bytes)] + [Saw(i, k - 1, bytes)]
  }

  /** What reading the first `k` pages logs: each page is copied and then printed. */
  function ReadAllLog(i: Id, bytes: seq<Byte>, k: nat): (r: seq<Event>)
    ensures forall j :: 0 <= j < |r| ==> r[j].Saw?
  {
    if k == 0 then [] else ReadAllLog(i, bytes, k - 1) + [Saw(i, k - 1, bytes)] + [Saw(i, k - 1, bytes)]
  }

  /** Two events a page, in page order: the write and the print. */
  lemma {:induction false} WriteAllLogIs(i: Id, bytes: seq<Byte>, k: nat)
    ensures |WriteAllLog(i, bytes, k)| == 2 * k
    ensures forall p :: 0 <= p < k ==>
      WriteAllLog(i, bytes, k)[2 * p] == Wrote(i, p, bytes) && WriteAllLog(i, bytes, k)[2 * p + 1] == Saw(i, p, bytes)
  {
    if k > 0 {
      WriteAllLogIs(i, bytes, k - 1);
    }
  }

  /** Two events a page, in page order: the copy and the print. */
  lemma {:induction false} ReadAllLogIs(i: Id, bytes: seq<Byte>, k: nat)
    ensures |ReadAllLog(i, bytes, k)| == 2 * k
    ensures forall p :: 0 <= p < k ==>
      ReadAllLog(i, bytes, k)[2 * p] == Saw(i, p, bytes) && ReadAllLog(i, bytes, k)[2 * p + 1] == Saw(i, p, bytes)
  {
    if k > 0 {
      ReadAllLogIs(i, bytes, k - 1);
    }
  }

  /** The part of the log that is due to writing all pages, when the main thread stands at `main`. */
  function WriteLogAt(c: Config, i: Id, bytes: seq<Byte>, main: Main): seq<Event> {
    match main
    case Idle => WriteAllLog(i, bytes, c.pages)
    case Loop(_, k) => WriteAllLog(i, bytes, k)
    case Busy(stage, p, _, _) =>
      if stage == Send then WriteAllLog(i, bytes, p + 1)
      else if stage == Touch then WriteAllLog(i, bytes, p)
      else WriteAllLog(i, bytes, p) + [Wrote(i, p, bytes)]
  }

  function ReadLogAt(c: Config, i: Id, bytes: seq<Byte>, main: Main): (r: seq<Event>)
    ensures forall j :: 0 <= j < |r| ==> r[j].Saw?
  {
    match main
    case Idle => ReadAllLog(i, bytes, c.pages)
    case Loop(_, k) => ReadAllLog(i, bytes, k)
    case Busy(stage, p, _, _) =>
      if stage == Touch then ReadAllLog(i, bytes, p) else ReadAllLog(i, bytes, p) + [Saw(i, p, bytes)]
  }

  /** The main thread runs `op` on all pages, or has finished. */
  predicate RunsAll(c: Config, main: Main, op: Op) {
    match main
    case Idle => true
    case Loop(op', k) => op' == op && k <= c.pages
    case Busy(_, _, op', all) => op' == op && all
  }

  /** Process `i` is writing all pages, or has finished; the peer is at its prompt. */
  predicate WritingAll(s: System, i: Id, message: seq<Byte>, base: seq<Event>)
    requires Valid(s) && |message| < s.config.pageSize
  {
    && s.At(i.Peer()).main.Idle?
    && RunsAll(s.config, s.At(i).main, Write(message))
    && s.log == base + WriteLogAt(s.config, i, Pad(s.config, message), s.At(i).main)
  }

  /** Process `i` is reading all pages, or has finished; the peer is at its prompt. */
  predicate ReadingAll(s: System, i: Id, bytes: seq<Byte>, base: seq<Event>)
    requires Valid(s)
  {
    && s.At(i.Peer()).main.Idle?
    && RunsAll(s.config, s.At(i).main, Read)
    && s.log == base + ReadLogAt(s.config, i, bytes, s.At(i).main)
  }

  lemma OneReadMore(base: seq<Event>, i: Id, bytes: seq<Byte>, k: nat)
    requires 0 < k
    ensures base + ReadAllLog(i, bytes, k)
         == (base + ReadAllLog(i, bytes, k - 1)) + [Saw(i, k - 1, bytes)] + [Saw(i, k - 1, bytes)]
  {
  }

  lemma OneWriteMore(base: seq<Event>, i: Id, bytes: seq<Byte>, k: nat)
    requires 0 < k
    ensures base + WriteAllLog(i, bytes, k)
         == (base + WriteAllLog(i, bytes, k - 1)) + [Wrote(i, k - 1, bytes)] + [Saw(i, k - 1, bytes)]
  {
  }

  /** Looking at pages never changes the flat array. */
  lemma {:induction false} LooksKeepFlat(c: Config, base: seq<Event>, looks: seq<Event>, q: nat)
    requires forall j :: 0 <= j < |looks| ==> looks[j].Saw?
    ensures Flat(c, base + looks, q) == Flat(c, base, q)
    decreases |looks|
  {
    if looks == [] {
      assert base + looks == base;
    } else {
      var k := |looks| - 1;
      LooksKeepFlat(c, base, looks[..k], q);
      LogAppend(c, base + looks[..k], looks[k], q);
      assert base + looks == (base + looks[..k]) + [looks[k]];
    }
  }

  /** A look by one process makes a page common that the other one owned. */
  lemma {:induction false} ReadsShare(c: Config, base: seq<Event>, i: Id, bytes: seq<Byte>, k: nat, q: nat)
    requires HistoryOf(base, q) == Owned(i.Peer())
    ensures HistoryOf(base + ReadAllLog(i, bytes, k), q) == if q < k then Common else Owned(i.Peer())
    decreases k
  {
    if k == 0 {
      assert base + ReadAllLog(i, bytes, k) == base;
    } else {
      hide HistoryOf, Flat, ReadAllLog;
      var before, e := base + ReadAllLog(i, bytes, k - 1), Saw(i, k - 1, bytes);
      ReadsShare(c, base, i, bytes, k - 1, q);
      OneReadMore(base, i, bytes, k);
      LogAppend(c, before, e, q);
      LogAppend(c, before + [e], e, q);
    }
  }

  lemma {:induction false} WritesSetFlat(c: Config, base: seq<Event>, i: Id, bytes: seq<Byte>, k: nat, q: nat)
    requires q < k
    ensures Flat(c, base + WriteAllLog(i, bytes, k), q) == bytes
    ensures HistoryOf(base + WriteAllLog(i, bytes, k), q) == Owned(i)
  {
    var before := base + WriteAllLog(i, bytes, k - 1);
    if q < k - 1 {
      WritesSetFlat(c, base, i, bytes, k - 1, q);
    }
    LogAppend(c, before, Wrote(i, k - 1, bytes), q);
    LogAppend(c, before + [Wrote(i, k - 1, bytes)], Saw(i, k - 1, bytes), q);
    OneWriteMore(base, i, bytes, k);
  }

  lemma AtPromptNothing(c: Config, i: Id, n: Node)
    requires ValidNode(c, n) && n.main.Idle?
    ensures MainNext(c, i, n) == (n, [])
  {
  }

  /** How one step changes the main threads and the log when nobody starts a command. */
  lemma MainsAndLog(s: System, i: Id, j: Id, a: Action)
    requires Coherent(s) && !a.Start? && s.At(i.Peer()).main.Idle?
    ensures
      var s' := SerialStep(s, j, a);
      && s'.At(i.Peer()).main.Idle?
      && (|| (s'.At(i).main == s.At(i).main && s'.log == s.log)
          || (&& j == i
              && s'.At(i).main == MainNext(s.config, i, s.At(i)).0.main
              && s'.log == s.log + MainNext(s.config, i, s.At(i)).1))
  {
    assert Valid(s);
    hide Coherent, Begins, Quiet, MainNext, HandlerNext, ServerNext;
    AtPromptNothing(s.config, i.Peer(), s.At(i.Peer()));
    OthersKeepMains(s.config, s.At(j), s.At(j.Peer()));
    assert s.log + [] == s.log;
  }

  lemma WriteLogAdvances(c: Config, i: Id, n: Node, message: seq<Byte>)
    requires ValidNode(c, n) && |message| < c.pageSize && RunsAll(c, n.main, Write(message))
    requires
      var events := MainNext(c, i, n).1;
      events != [] && events[0].Saw? ==> events[0].bytes == Pad(c, message)
    ensures
      var (n', events) := MainNext(c, i, n);
      var bytes := Pad(c, message);
      && RunsAll(c, n'.main, Write(message))
      && WriteLogAt(c, i, bytes, n'.main) == WriteLogAt(c, i, bytes, n.main) + events
  {
  }

  lemma ReadLogAdvances(c: Config, i: Id, n: Node, bytes: seq<Byte>)
    requires ValidNode(c, n) && RunsAll(c, n.main, Read)
    requires
      var events := MainNext(c, i, n).1;
      events != [] ==> events[0].bytes == bytes
    ensures
      var (n', events) := MainNext(c, i, n);
      && RunsAll(c, n'.main, Read)
      && ReadLogAt(c, i, bytes, n'.main) == ReadLogAt(c, i, bytes, n.main) + events
  {
  }

  /** The page that is printed after the write shows what was written. */
  lemma PrintShowsMessage(s: System, i: Id, message: seq<Byte>, base: seq<Event>)
    requires Coherent(s) && |message| < s.config.pageSize
    requires WritingAll(s, i, message, base)
    ensures
      var events := MainNext(s.config, i, s.At(i)).1;
      events != [] && events[0].Saw? ==> events[0].bytes == Pad(s.config, message)
  {
    var c, main, bytes := s.config, s.At(i).main, Pad(s.config, message);
    if main.Busy? && main.stage == Print {
      MainStepLogs(s, i);
      var before, e := base + WriteAllLog(i, bytes, main.page), Wrote(i, main.page, bytes);
      LogAppend(c, before, e, main.page);
      assert s.log == before + [e];
    }
  }

  lemma WritingAllStep(s: System, i: Id, message: seq<Byte>, base: seq<Event>, j: Id, a: Action)
    requires Coherent(s) && !a.Start? && |message| < s.config.pageSize
    requires WritingAll(s, i, message, base)
    ensures WritingAll(SerialStep(s, j, a), i, message, base)
  {
    assert Valid(s);
    hide Coherent, SerialStep, MainNext, RunsAll, WriteLogAt, Pad;
    MainsAndLog(s, i, j, a);
    PrintShowsMessage(s, i, message, base);
    WriteLogAdvances(s.config, i, s.At(i), message);
    Associate(base, WriteLogAt(s.config, i, Pad(s.config, message), s.At(i).main), MainNext(s.config, i, s.At(i)).1);
  }

  lemma Associate<T>(a: seq<T>, b: seq<T>, c: seq<T>)
    ensures (a + b) + c == a + (b + c)
  {
  }

  lemma {:induction false} WritingAllExec(s: System, i: Id, message: seq<Byte>, base: seq<Event>, sched: Schedule)
    requires Coherent(s) && NoStart(sched) && |message| < s.config.pageSize
    requires WritingAll(s, i, message, base)
    ensures Coherent(ExecSerial(s, sched)) && WritingAll(ExecSerial(s, sched), i, message, base)
    decreases |sched|
  {
    if sched != [] {
      CoherentStep(s, sched[0].0, sched[0].1);
      WritingAllStep(s, i, message, base, sched[0].0, sched[0].1);
      WritingAllExec(SerialStep(s, sched[0].0, sched[0].1), i, message, base, sched[1..]);
    }
  }

  lemma {:induction false} WritingAllRounds(s: System, i: Id, message: seq<Byte>, base: seq<Event>,
                                            rounds: seq<Schedule>)
    requires Coherent(s) && |message| < s.config.pageSize
    requires forall k :: 0 <= k < |rounds| ==> Round(rounds[k])
    requires WritingAll(s, i, message, base)
    ensures WritingAll(ExecRounds(s, rounds), i, message, base)
    decreases |rounds|
  {
    if rounds != [] {
      WritingAllExec(s, i, message, base, rounds[0]);
      WritingAllRounds(ExecSerial(s, rounds[0]), i, message, base, rounds[1..]);
    }
  }

  /** What is seen while all pages are read is what the flat array held before. */
  lemma ReadSees(s: System, i: Id, bytes: seq<Byte>, base: seq<Event>)
    requires Coherent(s) && ReadingAll(s, i, bytes, base)
    requires forall q :: 0 <= q < s.config.pages ==> Flat(s.config, base, q) == bytes
    ensures
      var events := MainNext(s.config, i, s.At(i)).1;
      events != [] ==> events[0].bytes == bytes
  {
    var main := s.At(i).main;
    if main.Busy? {
      hide MainNext, ReadLogAt, Flat;
      MainStepLogs(s, i);
      LooksKeepFlat(s.config, base, ReadLogAt(s.config, i, bytes, main), main.page);
    }
  }

  lemma ReadingAllStep(s: System, i: Id, bytes: seq<Byte>, base: seq<Event>, j: Id, a: Action)
    requires Coherent(s) && !a.Start?
    requires forall q :: 0 <= q < s.config.pages ==> Flat(s.config, base, q) == bytes
    requires ReadingAll(s, i, bytes, base)
    ensures ReadingAll(SerialStep(s, j, a), i, bytes, base)
  {
    assert Valid(s);
    hide Coherent, SerialStep, MainNext, RunsAll, ReadLogAt, Flat;
    MainsAndLog(s, i, j, a);
    ReadSees(s, i, bytes, base);
    ReadLogAdvances(s.config, i, s.At(i), bytes);
    Associate(base, ReadLogAt(s.config, i, bytes, s.At(i).main), MainNext(s.config, i, s.At(i)).1);
  }

  lemma {:induction false} ReadingAllExec(s: System, i: Id, bytes: seq<Byte>, base: seq<Event>, sched: Schedule)
    requires Coherent(s) && NoStart(sched)
    requires forall q :: 0 <= q < s.config.pages ==> Flat(s.config, base, q) == bytes
    requires ReadingAll(s, i, bytes, base)
    ensures Coherent(ExecSerial(s, sched)) && ReadingAll(ExecSerial(s, sched), i, bytes, base)
    decreases |sched|
  {
    if sched != [] {
      CoherentStep(s, sched[0].0, sched[0].1);
      ReadingAllStep(s, i, bytes, base, sched[0].0, sched[0].1);
      ReadingAllExec(SerialStep(s, sched[0].0, sched[0].1), i, bytes, base, sched[1..]);
    }
  }

  lemma {:induction false} ReadingAllRounds(s: System, i: Id, bytes: seq<Byte>, base: seq<Event>,
                                            rounds: seq<Schedule>)
    requires Coherent(s)
    requires forall k :: 0 <= k < |rounds| ==> Round(rounds[k])
    requires forall q :: 0 <= q < s.config.pages ==> Flat(s.config, base, q) == bytes
    requires ReadingAll(s, i, bytes, base)
    ensures ReadingAll(ExecRounds(s, rounds), i, bytes, base)
    decreases |rounds|
  {
    if rounds != [] {
      ReadingAllExec(s, i, bytes, base, rounds[0]);
      ReadingAllRounds(ExecSerial(s, rounds[0]), i, bytes, base, rounds[1..]);
    }
  }

  // ---------- Reading unmaps nothing ----------

  /** No invalidation by `n` is in its stream or at the server of `m`. */
  predicate NoInvalidation(n: Node, m: Node) {
    && (forall k :: 0 <= k < |n.requests| ==> n.requests[k].Fetch?)
    && !(m.server.SGot? && m.server.request.Invalidate?) && !m.server.SInvalid?
  }

  /** The pages that a command on all pages has copied. */
  function Passed(c: Config, main: Main): nat {
    match main
    case Idle => c.pages
    case Loop(_, k) => k
    case Busy(stage, p, _, _) => if stage == Touch then p else p + 1
  }

  /** While `n` reads all pages that `m` has mapped, it has every page mapped that it has passed. */
  predicate Spreading(c: Config, n: Node, m: Node)
    requires ValidNode(c, n) && ValidNode(c, m)
  {
    && m.main.Idle? && RunsAll(c, n.main, Read)
    && NoInvalidation(n, m) && NoInvalidation(m, n)
    && (forall p :: 0 <= p < c.pages ==> m.maps[p].Mapped?)
    && (forall p :: 0 <= p < c.pages && p < Passed(c, n.main) ==> n.maps[p].Mapped?)
  }

  lemma SpreadingMain(c: Config, i: Id, n: Node, m: Node)
    requires ValidNode(c, n) && ValidNode(c, m) && Spreading(c, n, m)
    ensures Spreading(c, MainNext(c, i, n).0, m) && MainNext(c, i, m).0 == m
  {
  }

  lemma SpreadingHandler(c: Config, n: Node, m: Node)
    requires ValidNode(c, n) && ValidNode(c, m) && Spreading(c, n, m)
    ensures Spreading(c, HandlerNext(c, n, m).0, HandlerNext(c, n, m).1)
  {
  }

  lemma SpreadingPeerHandler(c: Config, n: Node, m: Node)
    requires ValidNode(c, n) && ValidNode(c, m) && Spreading(c, n, m)
    ensures Spreading(c, HandlerNext(c, m, n).1, HandlerNext(c, m, n).0)
  {
  }

  lemma SpreadingServer(c: Config, n: Node, m: Node)
    requires ValidNode(c, n) && ValidNode(c, m) && Spreading(c, n, m)
    ensures Spreading(c, ServerNext(c, n, m).0, ServerNext(c, n, m).1)
  {
  }

  lemma SpreadingPeerServer(c: Config, n: Node, m: Node)
    requires ValidNode(c, n) && ValidNode(c, m) && Spreading(c, n, m)
    ensures Spreading(c, ServerNext(c, m, n).1, ServerNext(c, m, n).0)
  {
  }

  lemma SpreadingStep(s: System, i: Id, j: Id, a: Action)
    requires Valid(s) && !a.Start? && Spreading(s.config, s.At(i), s.At(i.Peer()))
    ensures var s' := SerialStep(s, j, a); Spreading(s.config, s'.At(i), s'.At(i.Peer()))
  {
    hide Spreading, MainNext, HandlerNext, ServerNext, Begins, Quiet;
    SpreadingMain(s.config, j, s.At(i), s.At(i.Peer()));
    if j == i {
      SpreadingHandler(s.config, s.At(i), s.At(i.Peer()));
      SpreadingServer(s.config, s.At(i), s.At(i.Peer()));
    } else {
      SpreadingPeerHandler(s.config, s.At(i), s.At(i.Peer()));
      SpreadingPeerServer(s.config, s.At(i), s.At(i.Peer()));
    }
  }

  lemma {:induction false} SpreadingExec(s: System, i: Id, sched: Schedule)
    requires Valid(s) && NoStart(sched) && Spreading(s.config, s.At(i), s.At(i.Peer()))
    ensures var s' := ExecSerial(s, sched); Spreading(s.config, s'.At(i), s'.At(i.Peer()))
    decreases |sched|
  {
    hide Spreading, SerialStep;
    if sched != [] {
      SpreadingStep(s, i, sched[0].0, sched[0].1);
      SpreadingExec(SerialStep(s, sched[0].0, sched[0].1), i, sched[1..]);
    }
  }

  lemma {:induction false} SpreadingRounds(s: System, i: Id, rounds: seq<Schedule>)
    requires Valid(s) && Spreading(s.config, s.At(i), s.At(i.Peer()))
    requires forall k :: 0 <= k < |rounds| ==> Round(rounds[k])
    ensures var s' := ExecRounds(s, rounds); Spreading(s.config, s'.At(i), s'.At(i.Peer()))
    decreases |rounds|
  {
    hide Spreading, ExecSerial;
    if rounds != [] {
      SpreadingExec(s, i, rounds[0]);
      SpreadingRounds(ExecSerial(s, rounds[0]), i, rounds[1..]);
    }
  }

  // ---------- Main results ----------

  lemma DoneIsQuiet(s: System, p: nat)
    requires Done(s)
    ensures Quiet(s, p)
  {
  }

  lemma AllBegins(s: System, i: Id, op: Op)
    requires Coherent(s) && Done(s) && ValidOp(s.config, op)
    ensures
      var s' := SerialStep(s, i, Start(op, -1));
      && Coherent(s')
      && s'.log == s.log && s'.At(i).main == Loop(op, 0) && s'.At(i.Peer()).main.Idle?
  {
    CoherentStep(s, i, Start(op, -1));
  }

  /** What one page looks like after all pages were written. */
  lemma PageIsWritten(s: System, i: Id, bytes: seq<Byte>, base: seq<Event>, p: nat)
    requires Coherent(s) && Done(s) && p < s.config.pages
    requires s.log == base + WriteAllLog(i, bytes, s.config.pages)
    ensures HistoryOf(s.log, p) == Owned(i) && Flat(s.config, s.log, p) == bytes
    ensures s.At(i).msi[p] == Modified && s.At(i).maps[p] == Mapped(bytes)
    ensures s.At(i.Peer()).msi[p] == Invalid && s.At(i.Peer()).maps[p].Unmapped?
  {
    hide Coherent, HistoryOf, Flat, WriteAllLog, Quiet, Done;
    WritesSetFlat(s.config, base, i, bytes, s.config.pages, p);
    DoneIsQuiet(s, p);
    QuietFollowsHistory(s, i, p);
  }

  /**
  Writing all pages at one process: once a fair run has finished, whatever the interleaving, the
  writer holds every page MODIFIED with the padded message, the peer holds every page INVALID
  without a copy, and the log has exactly one write and one print per page, in order.
  */
  lemma WriteAll(s: System, i: Id, message: seq<Byte>, rounds: seq<Schedule>)
    requires Coherent(s) && Done(s) && |message| < s.config.pageSize
    requires |rounds| > Work(SerialStep(s, i, Start(Write(message), -1)))
    requires forall k :: 0 <= k < |rounds| ==> Round(rounds[k])
    ensures
      var s' := ExecRounds(SerialStep(s, i, Start(Write(message), -1)), rounds);
      var bytes := Pad(s.config, message);
      && Coherent(s') && Done(s')
      && s'.log == s.log + WriteAllLog(i, bytes, s.config.pages)
      && forall p :: 0 <= p < s.config.pages ==>
           && HistoryOf(s'.log, p) == Owned(i) && Flat(s.config, s'.log, p) == bytes
           && s'.At(i).msi[p] == Modified && s'.At(i).maps[p] == Mapped(bytes)
           && s'.At(i.Peer()).msi[p] == Invalid && s'.At(i.Peer()).maps[p].Unmapped?
  {
    var c, bytes, begun := s.config, Pad(s.config, message), SerialStep(s, i, Start(Write(message), -1));
    AllBegins(s, i, Write(message));
    assert s.log + [] == s.log;
    hide SerialStep, ExecRounds, Work, Round, Coherent, HistoryOf, Flat, WriteAllLog;
    FairRunsComplete(begun, rounds);
    WritingAllRounds(begun, i, message, s.log, rounds);
    var s' := ExecRounds(begun, rounds);
    forall p | 0 <= p < c.pages
      ensures
        && HistoryOf(s'.log, p) == Owned(i) && Flat(c, s'.log, p) == bytes
        && s'.At(i).msi[p] == Modified && s'.At(i).maps[p] == Mapped(bytes)
        && s'.At(i.Peer()).msi[p] == Invalid && s'.At(i.Peer()).maps[p].Unmapped?
    {
      PageIsWritten(s', i, bytes, s.log, p);
    }
  }

  /** What one page looks like after all pages were read. */
  lemma PageIsRead(s: System, i: Id, bytes: seq<Byte>, base: seq<Event>, p: nat)
    requires Coherent(s) && Done(s) && p < s.config.pages && Spreading(s.config, s.At(i), s.At(i.Peer()))
    requires s.log == base + ReadAllLog(i, bytes, s.config.pages)
    requires HistoryOf(base, p) == Owned(i.Peer()) && Flat(s.config, base, p) == bytes
    ensures forall k: Id :: s.At(k).msi[p] == Shared && s.At(k).maps[p] == Mapped(bytes)
  {
    assert Valid(s) && s.At(i).maps[p].Mapped? && s.At(i.Peer()).maps[p].Mapped?;
    hide Coherent, HistoryOf, Flat, ReadAllLog, Quiet;
    LooksKeepFlat(s.config, base, ReadAllLog(i, bytes, s.config.pages), p);
    ReadsShare(s.config, base, i, bytes, s.config.pages, p);
    DoneIsQuiet(s, p);
    QuietFollowsHistory(s, First, p);
    forall k: Id
      ensures s.At(k).msi[p] == Shared && s.At(k).maps[p] == Mapped(bytes)
    {
      assert k == i || k == i.Peer();
    }
  }

  /** The peer starts with every page mapped. */
  lemma SpreadingBegins(s: System, i: Id)
    requires Coherent(s) && Done(s)
    requires forall p :: 0 <= p < s.config.pages ==> HistoryOf(s.log, p) == Owned(i.Peer())
    ensures var s' := SerialStep(s, i, Start(Read, -1)); Spreading(s.config, s'.At(i), s'.At(i.Peer()))
  {
    forall p | 0 <= p < s.config.pages
      ensures s.At(i.Peer()).maps[p].Mapped?
    {
      DoneIsQuiet(s, p);
      QuietFollowsHistory(s, i, p);
    }
    assert SerialStep(s, i, Start(Read, -1)).At(i.Peer()) == s.At(i.Peer());
  }

  /**
  Reading all pages at the peer after that: every page is printed with the message, twice per
  page and in order, and both processes end SHARED with the page mapped.
  */
  lemma ReadAllAfterWriteAll(s: System, i: Id, bytes: seq<Byte>, rounds: seq<Schedule>)
    requires Coherent(s) && Done(s)
    requires forall p :: 0 <= p < s.config.pages ==>
      HistoryOf(s.log, p) == Owned(i.Peer()) && Flat(s.config, s.log, p) == bytes
    requires |rounds| > Work(SerialStep(s, i, Start(Read, -1)))
    requires forall k :: 0 <= k < |rounds| ==> Round(rounds[k])
    ensures
      var s' := ExecRounds(SerialStep(s, i, Start(Read, -1)), rounds);
      && Coherent(s') && Done(s')
      && s'.log == s.log + ReadAllLog(i, bytes, s.config.pages)
      && forall p, k: Id :: 0 <= p < s.config.pages ==>
           s'.At(k).msi[p] == Shared && s'.At(k).maps[p] == Mapped(bytes)
  {
    var c, begun := s.config, SerialStep(s, i, Start(Read, -1));
    AllBegins(s, i, Read);
    SpreadingBegins(s, i);
    assert s.log + [] == s.log;
    hide SerialStep, ExecRounds, Work, Round, Coherent, HistoryOf, Flat, ReadAllLog, Spreading;
    FairRunsComplete(begun, rounds);
    ReadingAllRounds(begun, i, bytes, s.log, rounds);
    SpreadingRounds(begun, i, rounds);
    var s' := ExecRounds(begun, rounds);
    forall p, k: Id | 0 <= p < c.pages
      ensures s'.At(k).msi[p] == Shared && s'.At(k).maps[p] == Mapped(bytes)
    {
      PageIsRead(s', i, bytes, s.log, p);
    }
  }
}
