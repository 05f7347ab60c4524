/** What serialised runs promise: one flat array of pages, and MSI cells that follow history. */
module DsmResults {
  import opened DsmModel
  import opened DsmSafety
  import opened DsmCoherence
  import opened DsmSerial

  /** The one flat array that the two processes behave as. */
  function FlatArray(s: System): (r: seq<seq<Byte>>)
    ensures |r| == s.config.pages
  {
    seq(s.config.pages, p requires 0 <= p < s.config.pages => Flat(s.config, s.log, p))
  }

  /** What one step does to a flat array: nothing, one whole-page write, or one read. */
  predicate FlatStep(c: Config, before: System, after: System, i: Id)
    requires Valid(before) && Valid(after) && before.config == after.config == c
  {
    var main := before.At(i).main;
    || (after.log == before.log && FlatArray(after) == FlatArray(before))
    || (&& main.Busy? && main.op.Write? && main.stage == Touch
        && var bytes := Pad(c, main.op.message);
           && after.log == before.log + [Wrote(i, main.page, bytes)]
           && FlatArray(after) == FlatArray(before)[main.page := bytes])
    || (&& main.Busy?
        && after.log == before.log + [Saw(i, main.page, FlatArray(before)[main.page])]
        && FlatArray(after) == FlatArray(before))
  }

  lemma LogGrows(s: System, s': System, e: Event)
    requires s'.config == s.config && s'.log == s.log + [e] && e.page < s.config.pages
    ensures FlatArray(s') == if e.Wrote? then FlatArray(s)[e.page := e.bytes] else FlatArray(s)
  {
    forall p | 0 <= p < s.config.pages
      ensures FlatArray(s')[p] == if e.Wrote? && e.page == p then e.bytes else FlatArray(s)[p]
    {
      LogAppend(s.config, s.log, e, p);
    }
  }

  lemma OnlyMainLogs(s: System, i: Id, a: Action)
    requires Valid(s)
    ensures
      var s' := SerialStep(s, i, a);
      || s'.log == s.log
      || (s.At(i).main.Busy? && s'.log == s.log + MainNext(s.config, i, s.At(i)).1)
  {
  }

  /** What a main thread writes or sees at the page it works on. */
  lemma MainEvents(c: Config, i: Id, n: Node, m: Node, log: seq<Event>)
    requires SafePair(c, n, m) && n.main.Busy? && PageOk(c, i, n, m, log, n.main.page)
    ensures
      var events := MainNext(c, i, n).1;
      || events == []
      || events == [Saw(i, n.main.page, Flat(c, log, n.main.page))]
      || (&& n.main.stage == Touch && n.main.op.Write?
          && events == [Wrote(i, n.main.page, Pad(c, n.main.op.message))])
  {
    hide PageOk, SafePair, Flat;
    MainHere(c, i, n, m, log);
  }

  lemma MainStepLogs(s: System, i: Id)
    requires Coherent(s) && s.At(i).main.Busy?
    ensures
      var main, c := s.At(i).main, s.config;
      var events := MainNext(c, i, s.At(i)).1;
      || events == []
      || events == [Saw(i, main.page, Flat(c, s.log, main.page))]
      || (&& main.stage == Touch && main.op.Write?
          && events == [Wrote(i, main.page, Pad(c, main.op.message))])
  {
    var c, n, m := s.config, s.At(i), s.At(i.Peer());
    if i.Second? { PagesSwap(c, First, s.first, s.second, s.log); SafeSwap(c, s.first, s.second); }
    assert PageOk(c, i, n, m, s.log, n.main.page);
    MainEvents(c, i, n, m, s.log);
  }

  /** Each step of a coherent state is a step of the flat array. */
  lemma StepRefinesFlatArray(s: System, i: Id, a: Action)
    requires Coherent(s)
    ensures FlatStep(s.config, s, SerialStep(s, i, a), i)
  {
    var s' := SerialStep(s, i, a);
    OnlyMainLogs(s, i, a);
    if s'.log != s.log {
      MainStepLogs(s, i);
      LogGrows(s, s', MainNext(s.config, i, s.At(i)).1[0]);
    }
  }

  /**
  Every run that is serialised per page refines one flat array: what any command of either
  process sees of a page is the zero-padded message of the last write to it, or zeros.
  */
  lemma SerialRunsRefineFlatArray(c: Config, sched: Schedule, i: Id, a: Action)
    requires 0 < c.pageSize
    ensures
      var s := ExecSerial(Init(c), sched);
      ReadsFlat(c, s.log) && FlatStep(c, s, SerialStep(s, i, a), i)
  {
    EverySerialRunIsCoherent(c, sched);
    StepRefinesFlatArray(ExecSerial(Init(c), sched), i, a);
  }

  // ---------- Between commands ----------

  /** Between commands the MSI cells and the mappings of a page are what its history says. */
  lemma QuietFollowsHistory(s: System, i: Id, p: nat)
    requires Coherent(s) && p < s.config.pages && Quiet(s, p)
    ensures
      var n, m := s.At(i), s.At(i.Peer());
      Agrees(s.config, i, HistoryOf(s.log, p), n.msi[p], n.maps[p], m.msi[p], m.maps[p], Flat(s.config, s.log, p))
  {
    var c := s.config;
    assert PageOk(c, First, s.first, s.second, s.log, p);
    SidesSwap(c, First, SideOf(c, s.first, s.second, p), SideOf(c, s.second, s.first, p), p,
              HistoryOf(s.log, p), Flat(c, s.log, p));
  }

  /** The events of the log that concern page `p`. */
  predicate Touched(log: seq<Event>, p: nat) {
    exists k :: 0 <= k < |log| && log[k].page == p
  }

  lemma {:induction false} TouchedHasHistory(log: seq<Event>, p: nat)
    ensures Touched(log, p) <==> HistoryOf(log, p) != Untouched
  {
    if log != [] {
      var before := log[..|log| - 1];
      TouchedHasHistory(before, p);
      if Touched(before, p) {
        var k :| 0 <= k < |before| && before[k].page == p;
        assert log[k].page == p;
      }
      if Touched(log, p) && log[|log| - 1].page != p {
        var k :| 0 <= k < |log| && log[k].page == p;
        assert before[k].page == p;
      }
    }
  }

  /**
  Between commands a touched page is held with the flat bytes, every copy has these bytes, a page
  that is SHARED without being mapped is zero, and both are INVALID exactly on untouched pages.
  */
  lemma QuietPageIsWhole(c: Config, sched: Schedule, p: nat)
    requires 0 < c.pageSize && p < c.pages
    requires Quiet(ExecSerial(Init(c), sched), p)
    ensures
      var s := ExecSerial(Init(c), sched);
      var flat := Mapped(Flat(c, s.log, p));
      && (Touched(s.log, p) ==> s.first.maps[p] == flat || s.second.maps[p] == flat)
      && (Touched(s.log, p) <==> !(s.first.msi[p] == Invalid && s.second.msi[p] == Invalid))
      && (forall i: Id :: s.At(i).maps[p].Mapped? ==> s.At(i).maps[p] == flat)
      && (forall i: Id :: s.At(i).msi[p] == Shared && s.At(i).maps[p].Unmapped? ==> Flat(c, s.log, p) == Zeros(c))
  {
    EverySerialRunIsCoherent(c, sched);
    var s := ExecSerial(Init(c), sched);
    QuietFollowsHistory(s, First, p);
    TouchedHasHistory(s.log, p);
  }

  // ---------- At every moment ----------

  /**
  No data is lost, at any moment of a serialised run: once a page was read or written, a process
  has it mapped with the flat bytes, and the two processes are never both INVALID.
  */
  lemma NothingIsLost(c: Config, sched: Schedule, p: nat)
    requires 0 < c.pageSize && p < c.pages
    requires Touched(ExecSerial(Init(c), sched).log, p)
    ensures
      var s := ExecSerial(Init(c), sched);
      var flat := Mapped(Flat(c, s.log, p));
      && (s.first.maps[p] == flat || s.second.maps[p] == flat)
      && !(s.first.msi[p] == Invalid && s.second.msi[p] == Invalid)
  {
    EverySerialRunIsCoherent(c, sched);
    var s := ExecSerial(Init(c), sched);
    assert PageOk(c, First, s.first, s.second, s.log, p);
    TouchedHasHistory(s.log, p);
  }

  /** Process `m` has overwritten page `p`, and its invalidation is still to be carried out by `n`. */
  predicate Overwriting(m: Node, n: Node, p: nat) {
    || (m.main.Busy? && m.main.page == p && m.main.stage == Mark)
    || InvalidationPending(m, n, p)
  }

  lemma SharedWithoutCopy(c: Config, i: Id, x: Side, y: Side, p: nat, h: History, flat: seq<Byte>)
    requires PageSides(c, i, x, y, p, h, flat) && x.msi == Shared && x.copy.Unmapped?
    ensures flat != Zeros(c) <==>
      || (x.handler.HCopy? && x.handler.data != Zeros(c))
      || (&& y.copy != Mapped(Zeros(c))
          && (|| (y.main.Busy? && y.main.stage in {Mark, Print, Send})
              || Invalidate(p) in y.requests
              || x.server in {SGot(Invalidate(p)), SInvalid(p)}))
  {
  }

  lemma SharedUnmappedHere(c: Config, i: Id, n: Node, m: Node, log: seq<Event>, p: nat)
    requires ValidNode(c, n) && ValidNode(c, m) && p < c.pages && PageOk(c, i, n, m, log, p)
    requires n.msi[p] == Shared && n.maps[p].Unmapped?
    ensures Flat(c, log, p) == Zeros(c) <==>
      && !(n.handler.HCopy? && n.handler.page == p && n.handler.data != Zeros(c))
      && !(Overwriting(m, n, p) && m.maps[p] != Mapped(Zeros(c)))
  {
    hide Flat, HistoryOf, PageSides, Zeros, About;
    SharedWithoutCopy(c, i, SideOf(c, n, m, p), SideOf(c, m, n, p), p, HistoryOf(log, p), Flat(c, log, p));
    AboutIsInside(m.requests, Invalidate(p), p);
  }

  /**
  A page that is SHARED but unmapped is zero in the flat array at every moment of a serialised
  run, with exactly two exceptions: the process is about to map the bytes that it has fetched, or
  its peer has overwritten the page and the invalidation has not been carried out; and then only
  if those bytes are not zero.
  */
  lemma SharedUnmappedIsZero(c: Config, sched: Schedule, i: Id, p: nat)
    requires 0 < c.pageSize && p < c.pages
    requires
      var n := ExecSerial(Init(c), sched).At(i);
      n.msi[p] == Shared && n.maps[p].Unmapped?
    ensures
      var s := ExecSerial(Init(c), sched);
      var n, m := s.At(i), s.At(i.Peer());
      Flat(c, s.log, p) == Zeros(c) <==>
        && !(n.handler.HCopy? && n.handler.page == p && n.handler.data != Zeros(c))
        && !(Overwriting(m, n, p) && m.maps[p] != Mapped(Zeros(c)))
  {
    EverySerialRunIsCoherent(c, sched);
    var s := ExecSerial(Init(c), sched);
    var n, m := s.At(i), s.At(i.Peer());
    if i.Second? { CoherentSwap(c, First, s.first, s.second, s.log); }
    assert PageOk(c, i, n, m, s.log, p);
    hide PageOk, Overwriting, Flat, Zeros;
    SharedUnmappedHere(c, i, n, m, s.log, p);
  }

  lemma WriterIsAlone(c: Config, i: Id, x: Side, y: Side, p: nat, h: History, flat: seq<Byte>)
    requires PageSides(c, i, x, y, p, h, flat) && x.msi == Modified
    requires x.server.SShare? ==> x.server.page == p
    ensures x.server.SShare? && y.msi != Invalid ==>
      && x.requests == [] && !(x.main.Busy? && x.main.stage in {Print, Send})
      && y.server !in {SGot(Invalidate(p)), SInvalid(p)}
    ensures !(x.server.SShare? && y.msi != Invalid) ==>
      || (y.msi == Invalid && y.copy.Unmapped?)
      || (x.main.Busy? && x.main.stage in {Print, Send})
      || x.requests == [Invalidate(p)]
      || y.server in {SGot(Invalidate(p)), SInvalid(p)}
  {
  }

  lemma {:induction false} AboutIsInside(q: seq<Request>, r: Request, p: nat)
    ensures r in About(q, p) <==> r in q && r.page == p
  {
    if q != [] {
      AboutIsInside(q[1..], r, p);
      assert q == [q[0]] + q[1..];
    }
  }

  /**
  Single writer at every moment of a serialised run: while a process holds a page MODIFIED, the
  other one is INVALID without a copy, or an invalidation is on its way to it. There is exactly
  one exception: the holder has answered a fetch, has not yet marked the page SHARED, and the
  other one already has.
  */
  lemma SingleWriter(c: Config, sched: Schedule, i: Id, p: nat)
    requires 0 < c.pageSize && p < c.pages
    requires ExecSerial(Init(c), sched).At(i).msi[p] == Modified
    ensures
      var s := ExecSerial(Init(c), sched);
      var n, m := s.At(i), s.At(i.Peer());
      (m.msi[p] == Invalid && m.maps[p].Unmapped?) || InvalidationPending(n, m, p)
      <==> !(n.server == SShare(p) && m.msi[p] != Invalid)
  {
    EverySerialRunIsCoherent(c, sched);
    var s := ExecSerial(Init(c), sched);
    var n, m := s.At(i), s.At(i.Peer());
    if i.Second? { CoherentSwap(c, First, s.first, s.second, s.log); }
    assert PageOk(c, i, n, m, s.log, p);
    WriterIsAlone(c, i, SideOf(c, n, m, p), SideOf(c, m, n, p), p, HistoryOf(s.log, p), Flat(c, s.log, p));
    AboutIsInside(n.requests, Invalidate(p), p);
  }

  lemma SentIsMapped(c: Config, i: Id, n: Node, m: Node, log: seq<Event>, p: nat)
    requires SafePair(c, n, m) && n.server in {SOne(p), SBody(p)} && PageOk(c, i, n, m, log, p)
    ensures n.maps[p] == Mapped(Flat(c, log, p))
  {
    RequestIsActive(c, i, SideOf(c, n, m, p), SideOf(c, m, n, p), p, HistoryOf(log, p), Flat(c, log, p));
  }

  lemma InstalledIsFlat(c: Config, i: Id, n: Node, m: Node, log: seq<Event>, p: nat)
    requires SafePair(c, n, m) && n.handler.HCopy? && n.handler.page == p && PageOk(c, i, n, m, log, p)
    ensures n.maps[p].Unmapped? && n.handler.data == Flat(c, log, p)
  {
    HandlerIsActive(c, i, SideOf(c, n, m, p), SideOf(c, m, n, p), p, HistoryOf(log, p), Flat(c, log, p));
  }

  /**
  In serialised runs the server answers '1' only for a mapped page and sends only its flat bytes,
  so it never faults itself; and the handler never copies over a page that is mapped.
  */
  lemma TransfersAreSound(c: Config, sched: Schedule, i: Id)
    requires 0 < c.pageSize
    ensures
      var s := ExecSerial(Init(c), sched);
      var n := s.At(i);
      && (n.server.SOne? || n.server.SBody? ==> n.maps[n.server.page] == Mapped(Flat(c, s.log, n.server.page)))
      && (n.handler.HCopy? ==>
           && n.maps[n.handler.page].Unmapped?
           && n.handler.data == Flat(c, s.log, n.handler.page))
  {
    hide PageOk, Flat;
    EverySerialRunIsCoherent(c, sched);
    var s := ExecSerial(Init(c), sched);
    var n, m := s.At(i), s.At(i.Peer());
    if i.Second? { CoherentSwap(c, First, s.first, s.second, s.log); }
    if n.server.SOne? || n.server.SBody? {
      assert PageOk(c, i, n, m, s.log, n.server.page);
      SentIsMapped(c, i, n, m, s.log, n.server.page);
    }
    if n.handler.HCopy? {
      assert PageOk(c, i, n, m, s.log, n.handler.page);
      InstalledIsFlat(c, i, n, m, s.log, n.handler.page);
    }
  }
}
