/** Every step of a serialised run keeps the two processes coherent. */
module DsmSerial {
  import opened DsmModel
  import opened DsmSafety
  import opened DsmCoherence

  /** What is at stake for one pair of processes, seen from the one that takes the step. */
  predicate CoherentPair(c: Config, i: Id, n: Node, m: Node, log: seq<Event>) {
    && SafePair(c, n, m)
    && Pages(c, i, n, m, log)
    && ReadsFlat(c, log)
  }

  // ---------- Steps of the command loop ----------

  lemma MainElsewhere(c: Config, i: Id, n: Node, m: Node, p: nat)
    requires ValidNode(c, n) && ValidNode(c, m) && p < c.pages
    requires n.main.Busy? && p != n.main.page
    ensures
      var n' := MainNext(c, i, n).0;
      SideOf(c, n', m, p) == SideOf(c, n, m, p) && SideOf(c, m, n', p) == SideOf(c, m, n, p)
  {
    hide About;
    AboutElsewhere(n.requests, Invalidate(n.main.page), p);
  }

  lemma AboutElsewhere(q: seq<Request>, r: Request, p: nat)
    requires r.page != p
    ensures About(q + [r], p) == About(q, p)
  {
    AboutAppend(q, r, p);
  }

  /** The process whose main thread is on the page is the active one. */
  lemma MainIsActive(c: Config, i: Id, x: Side, y: Side, p: nat, h: History, flat: seq<Byte>)
    requires PageSides(c, i, x, y, p, h, flat) && x.main.Busy?
    ensures Active(c, i, x, y, p, h, flat) && !Invalidating(i, x, y, p, h, flat)
  {
  }

  lemma LookFaults(c: Config, i: Id, x: Side, y: Side, p: nat, h: History, flat: seq<Byte>, bytes: seq<Byte>)
    requires Looking(c, i, x, y, h, flat) && x.copy.Unmapped?
    ensures Faulting(c, i, x.(handler := HCheck(p), incoming := bytes), y, h, flat)
  {
  }

  lemma LookShowsFlat(c: Config, i: Id, x: Side, y: Side, h: History, flat: seq<Byte>)
    requires Looking(c, i, x, y, h, flat) && x.copy.Mapped?
    ensures x.copy == Mapped(flat)
  {
  }

  function Seen(h: History, i: Id): History {
    if h == Owned(i) then h else Common
  }

  lemma LookReads(c: Config, i: Id, x: Side, y: Side, h: History, flat: seq<Byte>, main': Main)
    requires Looking(c, i, x, y, h, flat) && x.copy.Mapped? && Passive(y) && x.server.SIdle?
    requires main'.Idle? || (main'.Busy? && main'.stage == Echo)
    ensures
      var x' := x.(main := main');
      if main'.Idle? then Resting(c, i, x', y, Seen(h, i), flat)
      else Looking(c, i, x', y, Seen(h, i), flat)
  {
  }

  lemma LookWrites(c: Config, i: Id, x: Side, y: Side, h: History, flat: seq<Byte>, main': Main,
                   page: seq<Byte>)
    requires Looking(c, i, x, y, h, flat) && x.copy.Mapped?
    requires main'.Busy? && main'.stage == Mark
    ensures Publishing(i, x.(main := main', copy := Mapped(page)), y, Owned(i), page)
  {
  }

  lemma MainReads(c: Config, i: Id, n: Node, m: Node, log: seq<Event>)
    requires ValidNode(c, n) && ValidNode(c, m)
    requires n.main.Busy? && n.main.stage in {Touch, Echo} && n.handler.HIdle? && n.main.op.Read?
    requires n.maps[n.main.page].Mapped?
    requires PageOk(c, i, n, m, log, n.main.page)
    ensures var (n', events) := MainNext(c, i, n); PageOk(c, i, n', m, log + events, n.main.page)
    ensures n.maps[n.main.page] == Mapped(Flat(c, log, n.main.page))
  {
    var p := n.main.page;
    var (n', events) := MainNext(c, i, n);
    var x, y, h, flat := SideOf(c, n, m, p), SideOf(c, m, n, p), HistoryOf(log, p), Flat(c, log, p);
    MainIsActive(c, i, x, y, p, h, flat);
    LookShowsFlat(c, i, x, y, h, flat);
    LogAppend(c, log, events[0], p);
    var x' := SideOf(c, n', m, p);
    LookReads(c, i, x, y, h, flat, x'.main);
    assert x' == x.(main := x'.main);
    assert SideOf(c, m, n', p) == y;
  }

  lemma MainWrites(c: Config, i: Id, n: Node, m: Node, log: seq<Event>)
    requires ValidNode(c, n) && ValidNode(c, m)
    requires n.main.Busy? && n.main.stage == Touch && n.handler.HIdle? && n.main.op.Write?
    requires n.maps[n.main.page].Mapped?
    requires PageOk(c, i, n, m, log, n.main.page)
    ensures var (n', events) := MainNext(c, i, n); PageOk(c, i, n', m, log + events, n.main.page)
  {
    var p := n.main.page;
    var (n', events) := MainNext(c, i, n);
    var x, y, h, flat := SideOf(c, n, m, p), SideOf(c, m, n, p), HistoryOf(log, p), Flat(c, log, p);
    MainIsActive(c, i, x, y, p, h, flat);
    LogAppend(c, log, events[0], p);
    var x' := SideOf(c, n', m, p);
    LookWrites(c, i, x, y, h, flat, x'.main, events[0].bytes);
    assert x' == x.(main := x'.main, copy := Mapped(events[0].bytes));
    assert SideOf(c, m, n', p) == y;
  }

  lemma MainFaults(c: Config, i: Id, n: Node, m: Node, log: seq<Event>)
    requires ValidNode(c, n) && ValidNode(c, m)
    requires n.main.Busy? && n.main.stage in {Touch, Echo} && n.handler.HIdle?
    requires n.maps[n.main.page].Unmapped?
    requires PageOk(c, i, n, m, log, n.main.page)
    ensures PageOk(c, i, MainNext(c, i, n).0, m, log, n.main.page)
  {
    var p := n.main.page;
    var n' := MainNext(c, i, n).0;
    var x, y, h, flat := SideOf(c, n, m, p), SideOf(c, m, n, p), HistoryOf(log, p), Flat(c, log, p);
    MainIsActive(c, i, x, y, p, h, flat);
    LookFaults(c, i, x, y, p, h, flat, m.replies);
    assert SideOf(c, n', m, p) == x.(handler := HCheck(p), incoming := m.replies);
    assert SideOf(c, m, n', p) == y;
  }

  lemma PublishGoesOn(c: Config, i: Id, x: Side, y: Side, p: nat, h: History, flat: seq<Byte>, main': Main)
    requires Publishing(i, x, y, h, flat)
    requires x.main.stage != Send ==>
      main'.Busy? && main'.stage == (if x.main.stage == Mark then Print else Send)
    requires x.main.stage == Send ==> main'.Idle?
    ensures
      match x.main.stage
      case Mark => Publishing(i, x.(msi := Modified, main := main'), y, h, flat)
      case Print => Publishing(i, x.(main := main'), y, h, flat) && x.copy == Mapped(flat)
      case _ => Invalidating(i, x.(main := main', requests := [Invalidate(p)]), y, p, h, flat)
  {
  }

  lemma MainMarks(c: Config, i: Id, n: Node, m: Node, log: seq<Event>)
    requires ValidNode(c, n) && ValidNode(c, m)
    requires n.main.Busy? && n.main.stage == Mark && PageOk(c, i, n, m, log, n.main.page)
    ensures PageOk(c, i, MainNext(c, i, n).0, m, log, n.main.page)
  {
    var p := n.main.page;
    var n' := MainNext(c, i, n).0;
    var x, y, h, flat := SideOf(c, n, m, p), SideOf(c, m, n, p), HistoryOf(log, p), Flat(c, log, p);
    MainIsActive(c, i, x, y, p, h, flat);
    PublishGoesOn(c, i, x, y, p, h, flat, n'.main);
    assert SideOf(c, n', m, p) == x.(msi := Modified, main := n'.main);
    assert SideOf(c, m, n', p) == y;
  }

  lemma MainPrints(c: Config, i: Id, n: Node, m: Node, log: seq<Event>)
    requires ValidNode(c, n) && ValidNode(c, m)
    requires n.main.Busy? && n.main.stage == Print && HandlerServesMain(n)
    requires PageOk(c, i, n, m, log, n.main.page)
    ensures n.handler.HIdle? && n.maps[n.main.page] == Mapped(Flat(c, log, n.main.page))
    ensures var (n', events) := MainNext(c, i, n); PageOk(c, i, n', m, log + events, n.main.page)
  {
    var p := n.main.page;
    var (n', events) := MainNext(c, i, n);
    var x, y, h, flat := SideOf(c, n, m, p), SideOf(c, m, n, p), HistoryOf(log, p), Flat(c, log, p);
    MainIsActive(c, i, x, y, p, h, flat);
    LogAppend(c, log, events[0], p);
    PublishGoesOn(c, i, x, y, p, h, flat, n'.main);
    assert SideOf(c, n', m, p) == x.(main := n'.main);
    assert SideOf(c, m, n', p) == y;
  }

  lemma MainSends(c: Config, i: Id, n: Node, m: Node, log: seq<Event>)
    requires ValidNode(c, n) && ValidNode(c, m)
    requires n.main.Busy? && n.main.stage == Send && PageOk(c, i, n, m, log, n.main.page)
    ensures PageOk(c, i, MainNext(c, i, n).0, m, log, n.main.page)
  {
    var p := n.main.page;
    var n' := MainNext(c, i, n).0;
    var x, y, h, flat := SideOf(c, n, m, p), SideOf(c, m, n, p), HistoryOf(log, p), Flat(c, log, p);
    MainIsActive(c, i, x, y, p, h, flat);
    AboutAppend(n.requests, Invalidate(p), p);
    PublishGoesOn(c, i, x, y, p, h, flat, Idle);
    assert SideOf(c, n', m, p) == x.(main := Idle, requests := [Invalidate(p)]);
    assert SideOf(c, m, n', p) == y;
  }

  /** One step of the command loop, at the page that it works on. */
  lemma MainHere(c: Config, i: Id, n: Node, m: Node, log: seq<Event>)
    requires SafePair(c, n, m) && n.main.Busy? && PageOk(c, i, n, m, log, n.main.page)
    ensures
      var (n', events) := MainNext(c, i, n);
      && PageOk(c, i, n', m, log + events, n.main.page)
      && (events == [] || (|events| == 1 && events[0].page == n.main.page))
      && (events != [] && events[0].Saw? ==> events[0].bytes == Flat(c, log, n.main.page))
  {
    assert log + [] == log;
    match n.main.stage {
      case Mark => MainMarks(c, i, n, m, log);
      case Print => MainPrints(c, i, n, m, log);
      case Send => MainSends(c, i, n, m, log);
      case _ =>
        if n.handler.HIdle? {
          if n.maps[n.main.page].Unmapped? {
            MainFaults(c, i, n, m, log);
          } else if n.main.op.Read? {
            MainReads(c, i, n, m, log);
          } else {
            MainWrites(c, i, n, m, log);
          }
        }
    }
  }

  // ---------- Steps of the fault handler ----------

  lemma HandlerElsewhere(c: Config, n: Node, m: Node, p: nat)
    requires ValidNode(c, n) && ValidNode(c, m) && p < c.pages
    requires !n.handler.HIdle? && p != n.handler.page
    ensures
      var (n', m') := HandlerNext(c, n, m);
      SideOf(c, n', m', p) == SideOf(c, n, m, p) && SideOf(c, m', n', p) == SideOf(c, m, n, p)
  {
    hide About;
    AboutElsewhere(n.requests, Fetch(n.handler.page), p);
  }

  lemma HandlerIsActive(c: Config, i: Id, x: Side, y: Side, p: nat, h: History, flat: seq<Byte>)
    requires PageSides(c, i, x, y, p, h, flat) && !x.handler.HIdle?
    ensures Passive(y) && x.server.SIdle? && Faulting(c, i, x, y, h, flat)
  {
  }

  lemma FaultIsChecked(c: Config, i: Id, x: Side, y: Side, h: History, flat: seq<Byte>, p: nat)
    requires Faulting(c, i, x, y, h, flat) && x.handler == HCheck(p)
    ensures
      var h' := if x.msi == Invalid then HAsk(p) else HCopy(p, Zeros(c));
      Faulting(c, i, x.(handler := h'), y, h, flat)
  {
  }

  lemma FaultIsSent(c: Config, i: Id, x: Side, y: Side, h: History, flat: seq<Byte>, p: nat)
    requires Faulting(c, i, x, y, h, flat) && x.handler == HAsk(p) && x.incoming == []
    ensures Faulting(c, i, x.(handler := HWait(p), requests := [Fetch(p)]), y, h, flat)
  {
  }

  lemma FaultReadsAnswer(c: Config, i: Id, x: Side, y: Side, h: History, flat: seq<Byte>, p: nat)
    requires Faulting(c, i, x, y, h, flat) && x.handler == HWait(p) && x.incoming != []
    ensures x.incoming[0] in {NO_COPY, COPY_FOLLOWS}
    ensures
      var h' := if x.incoming[0] == NO_COPY then HMark(p, Zeros(c)) else HBody(p);
      Faulting(c, i, x.(handler := h', incoming := x.incoming[1..]), y, h, flat)
  {
  }

  lemma FaultReadsPage(c: Config, i: Id, x: Side, y: Side, h: History, flat: seq<Byte>, p: nat)
    requires Faulting(c, i, x, y, h, flat) && x.handler == HBody(p)
    requires 0 < c.pageSize <= |x.incoming|
    requires y.copy.Mapped? ==> |y.copy.bytes| == c.pageSize
    ensures
      var x' := x.(handler := HMark(p, x.incoming[..c.pageSize]), incoming := x.incoming[c.pageSize..]);
      Faulting(c, i, x', y, h, flat)
  {
  }

  lemma FaultIsResolved(c: Config, i: Id, x: Side, y: Side, h: History, flat: seq<Byte>)
    requires Faulting(c, i, x, y, h, flat)
    ensures x.handler.HMark? ==>
      Faulting(c, i, x.(msi := Shared, handler := HCopy(x.handler.page, x.handler.data)), y, h, flat)
    ensures x.handler.HCopy? ==>
      Looking(c, i, x.(copy := Mapped(x.handler.data), handler := HIdle, incoming := []), y, h, flat)
  {
  }

  lemma HandlerAsks(c: Config, i: Id, n: Node, m: Node, log: seq<Event>)
    requires SafePair(c, n, m) && (n.handler.HCheck? || n.handler.HAsk?)
    requires PageOk(c, i, n, m, log, n.handler.page)
    ensures
      var (n', m') := HandlerNext(c, n, m);
      PageOk(c, i, n', m', log, n.handler.page)
  {
    var p := n.handler.page;
    var (n', m') := HandlerNext(c, n, m);
    var x, y, h, flat := SideOf(c, n, m, p), SideOf(c, m, n, p), HistoryOf(log, p), Flat(c, log, p);
    HandlerIsActive(c, i, x, y, p, h, flat);
    assert SideOf(c, m', n', p) == y;
    if n.handler.HCheck? {
      FaultIsChecked(c, i, x, y, h, flat, p);
      assert SideOf(c, n', m', p) == x.(handler := n'.handler);
    } else {
      FaultIsSent(c, i, x, y, h, flat, p);
      AboutAppend(n.requests, Fetch(p), p);
      assert SideOf(c, n', m', p) == x.(handler := HWait(p), requests := [Fetch(p)]);
    }
  }

  lemma HandlerReads(c: Config, i: Id, n: Node, m: Node, log: seq<Event>)
    requires SafePair(c, n, m) && Waiting(n)
    requires PageOk(c, i, n, m, log, n.handler.page)
    ensures
      var (n', m') := HandlerNext(c, n, m);
      PageOk(c, i, n', m', log, n.handler.page)
  {
    var p := n.handler.page;
    var (n', m') := HandlerNext(c, n, m);
    var x, y, h, flat := SideOf(c, n, m, p), SideOf(c, m, n, p), HistoryOf(log, p), Flat(c, log, p);
    HandlerIsActive(c, i, x, y, p, h, flat);
    assert SideOf(c, m', n', p) == y;
    if n.handler.HWait? && m.replies != [] {
      FaultReadsAnswer(c, i, x, y, h, flat, p);
      assert SideOf(c, n', m', p) == x.(handler := n'.handler, incoming := m.replies[1..]);
    } else if n.handler.HBody? && |m.replies| >= c.pageSize {
      FaultReadsPage(c, i, x, y, h, flat, p);
      assert SideOf(c, n', m', p) == x.(handler := n'.handler, incoming := m.replies[c.pageSize..]);
    }
  }

  lemma HandlerEnds(c: Config, i: Id, n: Node, m: Node, log: seq<Event>)
    requires SafePair(c, n, m) && (n.handler.HMark? || n.handler.HCopy?)
    requires PageOk(c, i, n, m, log, n.handler.page)
    ensures
      var (n', m') := HandlerNext(c, n, m);
      PageOk(c, i, n', m', log, n.handler.page)
  {
    var p := n.handler.page;
    var (n', m') := HandlerNext(c, n, m);
    var x, y, h, flat := SideOf(c, n, m, p), SideOf(c, m, n, p), HistoryOf(log, p), Flat(c, log, p);
    HandlerIsActive(c, i, x, y, p, h, flat);
    FaultIsResolved(c, i, x, y, h, flat);
    assert SideOf(c, m', n', p) == y;
    if n.handler.HMark? {
      assert SideOf(c, n', m', p) == x.(msi := Shared, handler := n'.handler);
    } else {
      assert SideOf(c, n', m', p) == x.(copy := Mapped(n.handler.data), handler := HIdle, incoming := []);
    }
  }

  lemma HandlerHere(c: Config, i: Id, n: Node, m: Node, log: seq<Event>)
    requires SafePair(c, n, m) && !n.handler.HIdle? && PageOk(c, i, n, m, log, n.handler.page)
    ensures
      var (n', m') := HandlerNext(c, n, m);
      PageOk(c, i, n', m', log, n.handler.page)
  {
    if n.handler.HCheck? || n.handler.HAsk? {
      HandlerAsks(c, i, n, m, log);
    } else if Waiting(n) {
      HandlerReads(c, i, n, m, log);
    } else {
      HandlerEnds(c, i, n, m, log);
    }
  }

  // ---------- Steps of the server ----------

  /** The page that the next server step is about. */
  function ServedPage(n: Node, m: Node): nat
    requires !n.server.SIdle? || m.requests != []
  {
    match n.server
    case SIdle => m.requests[0].page
    case SGot(r) => r.page
    case sv => sv.page
  }

  lemma ServerElsewhereMine(c: Config, n: Node, m: Node, p: nat)
    requires ValidNode(c, n) && ValidNode(c, m) && p < c.pages
    requires !n.server.SIdle? || m.requests != []
    requires p != ServedPage(n, m)
    ensures var (n', m') := ServerNext(c, n, m); SideOf(c, n', m', p) == SideOf(c, n, m, p)
  {
  }

  lemma ServerElsewhere(c: Config, n: Node, m: Node, p: nat)
    requires ValidNode(c, n) && ValidNode(c, m) && p < c.pages
    requires !n.server.SIdle? || m.requests != []
    requires p != ServedPage(n, m)
    requires Replying(n.server) ==> m.handler.HIdle? || m.handler.page != p
    ensures
      var (n', m') := ServerNext(c, n, m);
      SideOf(c, n', m', p) == SideOf(c, n, m, p) && SideOf(c, m', n', p) == SideOf(c, m, n, p)
  {
    ServerElsewhereMine(c, n, m, p);
  }

  lemma ReplyIsForWaiting(c: Config, n: Node, m: Node, p: nat)
    requires Framed(c, m, n) && (!n.server.SIdle? || m.requests != [])
    requires p != ServedPage(n, m) && Replying(n.server)
    ensures Waiting(m) && m.handler.page != p
  {
  }

  /** A request about a page belongs to the process that is active on it. */
  lemma RequestIsActive(c: Config, i: Id, x: Side, y: Side, p: nat, h: History, flat: seq<Byte>)
    requires PageSides(c, i, x, y, p, h, flat) && (y.requests != [] || !Lagging(x))
    ensures Passive(x) && y.server.SIdle?
    ensures Faulting(c, i.Peer(), y, x, h, flat) || Invalidating(i.Peer(), y, x, p, h, flat)
  {
  }

  lemma RequestIsTaken(c: Config, j: Id, x: Side, y: Side, p: nat, h: History, flat: seq<Byte>)
    requires Faulting(c, j, y, x, h, flat) || Invalidating(j, y, x, p, h, flat)
    requires y.requests != [] && x.server.SIdle?
    ensures
      var x', y' := x.(server := SGot(y.requests[0])), y.(requests := y.requests[1..]);
      Faulting(c, j, y', x', h, flat) || Invalidating(j, y', x', p, h, flat)
  {
  }

  lemma FetchIsAnswered(c: Config, j: Id, x: Side, y: Side, p: nat, h: History, flat: seq<Byte>)
    requires Faulting(c, j, y, x, h, flat) && y.requests == []
    ensures x.server == SGot(Fetch(p)) && y.handler == HWait(p) ==>
      var sv := if x.msi == Invalid then SZero(p) else SOne(p);
      Faulting(c, j, y, x.(server := sv), h, flat)
    ensures x.server == SZero(p) ==>
      Faulting(c, j, y.(incoming := y.incoming + [NO_COPY]), x.(server := SShare(p)), h, flat)
    ensures x.server == SOne(p) ==>
      Faulting(c, j, y.(incoming := y.incoming + [COPY_FOLLOWS]), x.(server := SBody(p)), h, flat)
    ensures x.server == SBody(p) ==>
      && x.copy == Mapped(flat)
      && Faulting(c, j, y.(incoming := y.incoming + flat), x.(server := SShare(p)), h, flat)
  {
  }

  lemma InvalidationIsDone(c: Config, j: Id, x: Side, y: Side, p: nat, h: History, flat: seq<Byte>)
    requires Invalidating(j, y, x, p, h, flat) && Passive(x) && y.server.SIdle?
    ensures x.server == SGot(Invalidate(p)) ==>
      Invalidating(j, y, x.(copy := Unmapped, server := SInvalid(p)), p, h, flat)
    ensures x.server == SInvalid(p) ==>
      Resting(c, j, y, x.(msi := Invalid, server := SIdle), h, flat)
  {
  }

  lemma LagEnds(c: Config, i: Id, x: Side, y: Side, p: nat, h: History, flat: seq<Byte>)
    requires PageSides(c, i, x, y, p, h, flat) && x.server.SShare?
    ensures PageSides(c, i, x.(msi := Shared, server := SIdle), y, p, h, flat)
  {
  }

  lemma ServerTakes(c: Config, i: Id, n: Node, m: Node, log: seq<Event>, p: nat)
    requires ValidNode(c, n) && ValidNode(c, m) && n.server.SIdle?
    requires m.requests != [] && m.requests[0].page == p
    requires PageOk(c, i, n, m, log, p)
    ensures
      var (n', m') := ServerNext(c, n, m);
      PageOk(c, i, n', m', log, p)
  {
    var (n', m') := ServerNext(c, n, m);
    var x, y, h, flat := SideOf(c, n, m, p), SideOf(c, m, n, p), HistoryOf(log, p), Flat(c, log, p);
    assert y.requests == [m.requests[0]] + About(m.requests[1..], p);
    RequestIsActive(c, i, x, y, p, h, flat);
    RequestIsTaken(c, i.Peer(), x, y, p, h, flat);
    assert SideOf(c, n', m', p) == x.(server := SGot(y.requests[0]));
    assert SideOf(c, m', n', p) == y.(requests := y.requests[1..]);
  }

  lemma ServerChecks(c: Config, i: Id, n: Node, m: Node, log: seq<Event>, p: nat)
    requires SafePair(c, n, m) && n.server == SGot(Fetch(p))
    requires PageOk(c, i, n, m, log, p)
    ensures
      var (n', m') := ServerNext(c, n, m);
      PageOk(c, i, n', m', log, p)
  {
    var (n', m') := ServerNext(c, n, m);
    var x, y, h, flat := SideOf(c, n, m, p), SideOf(c, m, n, p), HistoryOf(log, p), Flat(c, log, p);
    RequestIsActive(c, i, x, y, p, h, flat);
    assert Framed(c, m, n);
    FetchIsAnswered(c, i.Peer(), x, y, p, h, flat);
    assert SideOf(c, n', m', p) == x.(server := n'.server);
    assert SideOf(c, m', n', p) == y;
  }

  /** The server writes an answer byte or the page; the page it sends is mapped. */
  lemma ServerAnswers(c: Config, i: Id, n: Node, m: Node, log: seq<Event>, p: nat)
    requires SafePair(c, n, m) && n.server in {SZero(p), SOne(p), SBody(p)}
    requires PageOk(c, i, n, m, log, p)
    ensures n.server == SBody(p) ==> n.maps[p] == Mapped(Flat(c, log, p))
    ensures
      var (n', m') := ServerNext(c, n, m);
      PageOk(c, i, n', m', log, p)
  {
    var (n', m') := ServerNext(c, n, m);
    var x, y, h, flat := SideOf(c, n, m, p), SideOf(c, m, n, p), HistoryOf(log, p), Flat(c, log, p);
    RequestIsActive(c, i, x, y, p, h, flat);
    assert Framed(c, m, n);
    FetchIsAnswered(c, i.Peer(), x, y, p, h, flat);
    assert y.incoming == n.replies;
    assert SideOf(c, n', m', p) == x.(server := n'.server);
    assert SideOf(c, m', n', p) == y.(incoming := n'.replies);
  }

  lemma ServerInvalidates(c: Config, i: Id, n: Node, m: Node, log: seq<Event>, p: nat)
    requires SafePair(c, n, m) && n.server in {SGot(Invalidate(p)), SInvalid(p)}
    requires PageOk(c, i, n, m, log, p)
    ensures
      var (n', m') := ServerNext(c, n, m);
      PageOk(c, i, n', m', log, p)
  {
    var (n', m') := ServerNext(c, n, m);
    var x, y, h, flat := SideOf(c, n, m, p), SideOf(c, m, n, p), HistoryOf(log, p), Flat(c, log, p);
    RequestIsActive(c, i, x, y, p, h, flat);
    InvalidationIsDone(c, i.Peer(), x, y, p, h, flat);
    var x' := SideOf(c, n', m', p);
    assert n.server == SInvalid(p) ==> x' == x.(msi := Invalid, server := SIdle);
    assert n.server != SInvalid(p) ==> x' == x.(copy := Unmapped, server := SInvalid(p));
    assert SideOf(c, m', n', p) == y;
    SidesSwap(c, i.Peer(), y, x', p, h, flat);
  }

  lemma ServerHere(c: Config, i: Id, n: Node, m: Node, log: seq<Event>)
    requires SafePair(c, n, m) && (!n.server.SIdle? || m.requests != [])
    requires PageOk(c, i, n, m, log, ServedPage(n, m))
    ensures
      var (n', m') := ServerNext(c, n, m);
      PageOk(c, i, n', m', log, ServedPage(n, m))
  {
    var p := ServedPage(n, m);
    if n.server.SIdle? {
      ServerTakes(c, i, n, m, log, p);
    } else if n.server.SShare? {
      var (n', m') := ServerNext(c, n, m);
      var x, y, h, flat := SideOf(c, n, m, p), SideOf(c, m, n, p), HistoryOf(log, p), Flat(c, log, p);
      LagEnds(c, i, x, y, p, h, flat);
      assert SideOf(c, n', m', p) == x.(msi := Shared, server := SIdle);
      assert SideOf(c, m', n', p) == y;
    } else if n.server == SGot(Fetch(p)) {
      ServerChecks(c, i, n, m, log, p);
    } else if n.server in {SZero(p), SOne(p), SBody(p)} {
      ServerAnswers(c, i, n, m, log, p);
    } else {
      ServerInvalidates(c, i, n, m, log, p);
    }
  }

  // ---------- A command begins ----------

  lemma LookBegins(c: Config, i: Id, x: Side, y: Side, p: nat, h: History, flat: seq<Byte>, main': Main)
    requires PageSides(c, i, x, y, p, h, flat)
    requires Passive(x) && Passive(y) && x.server.SIdle? && y.server.SIdle?
    requires main'.Busy? && main'.stage == Touch
    ensures Looking(c, i, x.(main := main'), y, h, flat)
  {
  }

  /** The main thread of `n` begins work on a quiet page, or on none. */
  lemma BeginKeepsPages(c: Config, i: Id, n: Node, m: Node, log: seq<Event>, main': Main)
    requires ValidNode(c, n) && ValidNode(c, m) && ValidNode(c, n.(main := main'))
    requires Pages(c, i, n, m, log) && !n.main.Busy?
    requires main'.Busy? ==>
      main'.stage == Touch && QuietAt(n, main'.page) && QuietAt(m, main'.page)
    ensures Pages(c, i, n.(main := main'), m, log)
  {
    var n' := n.(main := main');
    forall p | 0 <= p < c.pages
      ensures PageOk(c, i, n', m, log, p)
    {
      assert PageOk(c, i, n, m, log, p);
      assert SideOf(c, m, n', p) == SideOf(c, m, n, p);
      if main'.Busy? && main'.page == p {
        LookBegins(c, i, SideOf(c, n, m, p), SideOf(c, m, n, p), p, HistoryOf(log, p), Flat(c, log, p), main');
        assert SideOf(c, n', m, p) == SideOf(c, n, m, p).(main := main');
      } else {
        assert SideOf(c, n', m, p) == SideOf(c, n, m, p);
      }
    }
  }

  // ---------- Every step ----------

  lemma MainKeepsCoherent(c: Config, i: Id, n: Node, m: Node, log: seq<Event>)
    requires CoherentPair(c, i, n, m, log)
    requires n.main.Loop? && n.main.next < c.pages ==> QuietAt(n, n.main.next) && QuietAt(m, n.main.next)
    ensures var (n', events) := MainNext(c, i, n); CoherentPair(c, i, n', m, log + events)
  {
    var (n', events) := MainNext(c, i, n);
    SafeMain(c, i, n, m);
    assert log + [] == log;
    if n.main.Busy? {
      var page := n.main.page;
      assert PageOk(c, i, n, m, log, page);
      MainHere(c, i, n, m, log);
      forall p | 0 <= p < c.pages
        ensures PageOk(c, i, n', m, log + events, p)
      {
        if p != page {
          assert PageOk(c, i, n, m, log, p);
          MainElsewhere(c, i, n, m, p);
          if events != [] {
            assert events == [events[0]];
            LogAppend(c, log, events[0], p);
          }
        }
      }
      if events != [] {
        assert events == [events[0]];
        ReadsFlatAppend(c, log, events[0]);
      }
    } else {
      BeginKeepsPages(c, i, n, m, log, n'.main);
      assert n' == n.(main := n'.main);
    }
  }

  lemma HandlerKeepsCoherent(c: Config, i: Id, n: Node, m: Node, log: seq<Event>)
    requires CoherentPair(c, i, n, m, log)
    ensures var (n', m') := HandlerNext(c, n, m); CoherentPair(c, i, n', m', log)
  {
    var (n', m') := HandlerNext(c, n, m);
    SafeHandler(c, n, m);
    if !n.handler.HIdle? {
      assert PageOk(c, i, n, m, log, n.handler.page);
      HandlerHere(c, i, n, m, log);
      forall p | 0 <= p < c.pages && p != n.handler.page
        ensures PageOk(c, i, n', m', log, p)
      {
        assert PageOk(c, i, n, m, log, p);
        HandlerElsewhere(c, n, m, p);
      }
    }
  }

  lemma ServerKeepsCoherent(c: Config, i: Id, n: Node, m: Node, log: seq<Event>)
    requires CoherentPair(c, i, n, m, log)
    ensures var (n', m') := ServerNext(c, n, m); CoherentPair(c, i, n', m', log)
  {
    var (n', m') := ServerNext(c, n, m);
    SafeServer(c, n, m);
    if !n.server.SIdle? || m.requests != [] {
      var page := ServedPage(n, m);
      assert PageOk(c, i, n, m, log, page);
      ServerHere(c, i, n, m, log);
      forall p | 0 <= p < c.pages && p != page
        ensures PageOk(c, i, n', m', log, p)
      {
        assert PageOk(c, i, n, m, log, p);
        if Replying(n.server) { ReplyIsForWaiting(c, n, m, p); }
        ServerElsewhere(c, n, m, p);
      }
    }
  }

  lemma StartKeepsCoherent(c: Config, i: Id, n: Node, m: Node, log: seq<Event>, op: Op, which: int)
    requires CoherentPair(c, i, n, m, log)
    requires
      var p := Begins(c, n, Start(op, which));
      p >= 0 ==> QuietAt(n, p) && QuietAt(m, p)
    ensures CoherentPair(c, i, StartNext(c, n, op, which), m, log)
  {
    var n' := StartNext(c, n, op, which);
    SafeStart(c, n, m, op, which);
    if n' != n {
      assert n' == n.(main := n'.main);
      BeginKeepsPages(c, i, n, m, log, n'.main);
    }
  }

  lemma CoherentSwap(c: Config, i: Id, n: Node, m: Node, log: seq<Event>)
    requires CoherentPair(c, i, n, m, log)
    ensures CoherentPair(c, i.Peer(), m, n, log)
  {
    SafeSwap(c, n, m);
    PagesSwap(c, i, n, m, log);
  }

  lemma CoherentStep(s: System, i: Id, a: Action)
    requires Coherent(s)
    ensures Coherent(SerialStep(s, i, a))
  {
    var c, n, m, log := s.config, s.At(i), s.At(i.Peer()), s.log;
    var s' := SerialStep(s, i, a);
    if i.Second? { CoherentSwap(c, First, s.first, s.second, log); }
    if s' != s {
      match a {
        case Start(op, which) => StartKeepsCoherent(c, i, n, m, log, op, which);
        case MainStep => MainKeepsCoherent(c, i, n, m, log);
        case HandlerStep => HandlerKeepsCoherent(c, i, n, m, log);
        case ServerStep => ServerKeepsCoherent(c, i, n, m, log);
      }
      if i.Second? { CoherentSwap(c, Second, s'.second, s'.first, s'.log); }
    }
  }

  lemma {:induction false} CoherentExec(s: System, sched: Schedule)
    requires Coherent(s)
    ensures Coherent(ExecSerial(s, sched))
    decreases |sched|
  {
    if sched != [] {
      CoherentStep(s, sched[0].0, sched[0].1);
      CoherentExec(SerialStep(s, sched[0].0, sched[0].1), sched[1..]);
    }
  }

  lemma EverySerialRunIsCoherent(c: Config, sched: Schedule)
    requires 0 < c.pageSize
    ensures Coherent(ExecSerial(Init(c), sched))
  {
    var s := Init(c);
    forall p | 0 <= p < c.pages
      ensures PageOk(c, First, s.first, s.second, s.log, p)
    {
      assert Resting(c, First, SideOf(c, s.first, s.second, p), SideOf(c, s.second, s.first, p), Untouched, Zeros(c));
    }
    CoherentExec(s, sched);
  }

  lemma OthersKeepMains(c: Config, n: Node, m: Node)
    requires ValidNode(c, n) && ValidNode(c, m)
    ensures HandlerNext(c, n, m).0.main == n.main && HandlerNext(c, n, m).1.main == m.main
    ensures ServerNext(c, n, m).0.main == n.main && ServerNext(c, n, m).1.main == m.main
  {
  }
}
