/**
Serialised runs finish: a count of work left falls with every step that does anything and is
not a new command, a state in which no thread can step has nothing left to do, and so every
fair run completes all commands and delivers all messages.
*/
module DsmCompletion {
  import opened DsmModel
  import opened DsmSafety
  import opened DsmCoherence
  import opened DsmSerial

  // ---------- The work that is left ----------

  function QueueWork(q: seq<Request>): nat {
    if q == [] then 0 else (if q[0].Fetch? then 5 else 3) + QueueWork(q[1..])
  }

  function ServerLeft(sv: Server): nat {
    match sv
    case SIdle => 0
    case SGot(Fetch(_)) => 4
    case SGot(Invalidate(_)) => 2
    case SZero(_) => 2
    case SOne(_) => 3
    case SBody(_) => 2
    case SShare(_) => 1
    case SInvalid(_) => 1
  }

  function HandlerLeft(h: Handler): nat {
    match h
    case HIdle => 0
    case HCheck(_) => 11
    case HAsk(_) => 10
    case HWait(_) => 4
    case HBody(_) => 3
    case HMark(_, _) => 2
    case HCopy(_, _) => 1
  }

  function LoopLeft(c: Config, next: nat): nat {
    if next < c.pages then (c.pages - next) * 20 + 1 else 1
  }

  function StageLeft(stage: Stage, op: Op, all: bool): nat {
    match stage
    case Touch => if op.Write? then 7 else if all then 2 else 1
    case Echo => 1
    case Mark => 6
    case Print => 5
    case Send => 4
  }

  function MainLeft(c: Config, n: Node): nat
    requires ValidNode(c, n)
  {
    match n.main
    case Idle => 0
    case Loop(_, next) => LoopLeft(c, next)
    case Busy(stage, p, op, all) =>
      StageLeft(stage, op, all)
      + (if stage != Send && n.maps[p].Unmapped? && n.handler.HIdle? then 12 else 0)
      + (if all then LoopLeft(c, p + 1) else 0)
  }

  function NodeWork(c: Config, n: Node): nat
    requires ValidNode(c, n)
  {
    MainLeft(c, n) + HandlerLeft(n.handler) + ServerLeft(n.server) + QueueWork(n.requests)
  }

  function Work(s: System): nat
    requires Valid(s)
  {
    NodeWork(s.config, s.first) + NodeWork(s.config, s.second)
  }

  lemma {:induction false} QueueWorkAppend(q: seq<Request>, r: Request)
    ensures QueueWork(q + [r]) == QueueWork(q) + if r.Fetch? then 5 else 3
  {
    if q == [] {
      assert q + [r] == [r] && [r][1..] == [];
    } else {
      assert (q + [r])[0] == q[0] && (q + [r])[1..] == q[1..] + [r];
      QueueWorkAppend(q[1..], r);
    }
  }

  lemma MainLowersWork(c: Config, i: Id, n: Node)
    requires ValidNode(c, n)
    ensures var n' := MainNext(c, i, n).0; n' == n || NodeWork(c, n') < NodeWork(c, n)
  {
    if n.main.Busy? {
      QueueWorkAppend(n.requests, Invalidate(n.main.page));
    }
  }

  lemma HandlerLowersWork(c: Config, n: Node, m: Node)
    requires ValidNode(c, n) && ValidNode(c, m) && HandlerServesMain(n)
    ensures
      var (n', m') := HandlerNext(c, n, m);
      && (n' == n ==> m' == m)
      && (n' != n ==> NodeWork(c, n') < NodeWork(c, n))
      && NodeWork(c, m') == NodeWork(c, m)
  {
    if n.handler.HAsk? {
      QueueWorkAppend(n.requests, Fetch(n.handler.page));
    }
  }

  /** An invalidation reaches a process only while it has no command on that page. */
  lemma InvalidationFindsNoCommand(c: Config, i: Id, n: Node, m: Node, log: seq<Event>, p: nat)
    requires ValidNode(c, n) && ValidNode(c, m)
    requires n.server == SGot(Invalidate(p)) && PageOk(c, i, n, m, log, p)
    ensures !(n.main.Busy? && n.main.page == p)
  {
    RequestIsActive(c, i, SideOf(c, n, m, p), SideOf(c, m, n, p), p, HistoryOf(log, p), Flat(c, log, p));
  }

  lemma ServerLowersWork(c: Config, n: Node, m: Node)
    requires ValidNode(c, n) && ValidNode(c, m)
    requires n.server.SGot? && n.server.request.Invalidate? ==>
      !(n.main.Busy? && n.main.page == n.server.request.page)
    ensures
      var (n', m') := ServerNext(c, n, m);
      && (n' == n ==> m' == m)
      && (n' != n ==> NodeWork(c, n') + NodeWork(c, m') < NodeWork(c, n) + NodeWork(c, m))
  {
    var (n', m') := ServerNext(c, n, m);
    assert MainLeft(c, n') <= MainLeft(c, n);
  }

  lemma ServerStepLowersWork(s: System, i: Id)
    requires Coherent(s)
    ensures
      var n, m := s.At(i), s.At(i.Peer());
      var (n', m') := ServerNext(s.config, n, m);
      && (n' == n ==> m' == m)
      && (n' != n ==> NodeWork(s.config, n') + NodeWork(s.config, m') < NodeWork(s.config, n) + NodeWork(s.config, m))
  {
    hide NodeWork, ServerNext, PageOk;
    var c, n, m := s.config, s.At(i), s.At(i.Peer());
    if i.Second? { PagesSwap(c, First, s.first, s.second, s.log); }
    if n.server.SGot? && n.server.request.Invalidate? {
      assert PageOk(c, i, n, m, s.log, n.server.request.page);
      InvalidationFindsNoCommand(c, i, n, m, s.log, n.server.request.page);
    }
    ServerLowersWork(c, n, m);
  }

  lemma StepLowersWork(s: System, i: Id, a: Action)
    requires Coherent(s) && !a.Start?
    ensures SerialStep(s, i, a) == s || Work(SerialStep(s, i, a)) < Work(s)
  {
    hide NodeWork, MainNext, HandlerNext, ServerNext, Pages, Begins;
    var c, n, m := s.config, s.At(i), s.At(i.Peer());
    assert s.log + [] == s.log;
    match a {
      case Start(_, _) =>
      case MainStep =>
        MainLowersWork(c, i, n);
        if MainNext(c, i, n).0 == n {
          MainStandsStill(c, i, n);
        }
      case HandlerStep => HandlerLowersWork(c, n, m);
      case ServerStep => ServerStepLowersWork(s, i);
    }
  }

  lemma MainStandsStill(c: Config, i: Id, n: Node)
    requires ValidNode(c, n) && MainNext(c, i, n).0 == n
    ensures MainNext(c, i, n).1 == []
  {
  }

  // ---------- A run that cannot step is complete ----------

  predicate NodeDone(n: Node) {
    n.main.Idle? && n.handler.HIdle? && n.server.SIdle? && n.requests == [] && n.replies == []
  }

  /** Both command loops are at their prompts and nothing is under way anywhere. */
  predicate Done(s: System) {
    NodeDone(s.first) && NodeDone(s.second)
  }

  /** No thread can take a step that changes anything. */
  predicate Stuck(s: System)
    requires Valid(s)
  {
    forall i: Id, a: Action :: a in {MainStep, HandlerStep, ServerStep} ==> SerialStep(s, i, a) == s
  }

  lemma ServersIdle(s: System, i: Id)
    requires Valid(s) && SerialStep(s, i, ServerStep) == s
    ensures s.At(i).server.SIdle? && s.At(i.Peer()).requests == []
  {
    var n, m := s.At(i), s.At(i.Peer());
    var (n', m') := ServerNext(s.config, n, m);
    assert n' == n;
  }

  lemma HandlerMoves(c: Config, i: Id, n: Node, m: Node, log: seq<Event>)
    requires SafePair(c, n, m) && !n.handler.HIdle? && PageOk(c, i, n, m, log, n.handler.page)
    requires n.requests == [] && m.server.SIdle?
    ensures HandlerNext(c, n, m).0.handler != n.handler
  {
    var p := n.handler.page;
    HandlerIsActive(c, i, SideOf(c, n, m, p), SideOf(c, m, n, p), p, HistoryOf(log, p), Flat(c, log, p));
  }

  lemma HandlersIdle(s: System, i: Id)
    requires Coherent(s) && SerialStep(s, i, HandlerStep) == s
    requires s.At(i).requests == [] && s.At(i.Peer()).server.SIdle?
    ensures s.At(i).handler.HIdle? && s.At(i.Peer()).replies == []
  {
    var c, n, m := s.config, s.At(i), s.At(i.Peer());
    if i.Second? { PagesSwap(c, First, s.first, s.second, s.log); SafeSwap(c, s.first, s.second); }
    assert Framed(c, n, m);
    if !n.handler.HIdle? {
      assert PageOk(c, i, n, m, s.log, n.handler.page);
      HandlerMoves(c, i, n, m, s.log);
    }
  }

  lemma BusyMoves(c: Config, i: Id, n: Node)
    requires ValidNode(c, n) && n.main.Busy? && n.handler.HIdle?
    ensures MainNext(c, i, n).0 != n
  {
  }

  lemma NotBusy(s: System, i: Id)
    requires Valid(s) && SerialStep(s, i, MainStep) == s && s.At(i).handler.HIdle?
    ensures !s.At(i).main.Busy?
  {
    if s.At(i).main.Busy? {
      BusyMoves(s.config, i, s.At(i));
    }
  }

  lemma NotLooping(s: System, i: Id)
    requires Valid(s) && SerialStep(s, i, MainStep) == s
    requires QuietNode(s.first) && QuietNode(s.second)
    ensures !s.At(i).main.Loop?
  {
    var p := Begins(s.config, s.At(i), MainStep);
    assert p >= 0 ==> Quiet(s, p);
  }

  /** The process has nothing under way about any page. */
  predicate QuietNode(n: Node) {
    !n.main.Busy? && n.handler.HIdle? && n.server.SIdle? && n.requests == []
  }

  lemma StuckIsDone(s: System)
    requires Coherent(s) && Stuck(s)
    ensures Done(s)
  {
    ServersIdle(s, First);
    ServersIdle(s, Second);
    HandlersIdle(s, First);
    HandlersIdle(s, Second);
    NotBusy(s, First);
    NotBusy(s, Second);
    NotLooping(s, First);
    NotLooping(s, Second);
  }

  // ---------- Fair runs ----------

  predicate NoStart(sched: Schedule) {
    forall k :: 0 <= k < |sched| ==> !sched[k].1.Start?
  }

  /** Every one of the six threads is scheduled at least once, in any order. */
  predicate Round(sched: Schedule) {
    && NoStart(sched)
    && forall i: Id, a: Action :: a in {MainStep, HandlerStep, ServerStep} ==> (i, a) in sched
  }

  function ExecRounds(s: System, rounds: seq<Schedule>): (r: System)
    requires Valid(s)
    ensures Valid(r) && r.config == s.config
    decreases |rounds|
  {
    if rounds == [] then s else ExecRounds(ExecSerial(s, rounds[0]), rounds[1..])
  }

  lemma {:induction false} ScheduleLowersWork(s: System, sched: Schedule)
    requires Coherent(s) && NoStart(sched)
    ensures Coherent(ExecSerial(s, sched))
    ensures Work(ExecSerial(s, sched)) <= Work(s)
    ensures Work(ExecSerial(s, sched)) == Work(s) ==>
      ExecSerial(s, sched) == s && forall x :: x in sched ==> SerialStep(s, x.0, x.1) == s
    decreases |sched|
  {
    if sched != [] {
      var x := sched[0];
      CoherentStep(s, x.0, x.1);
      StepLowersWork(s, x.0, x.1);
      ScheduleLowersWork(SerialStep(s, x.0, x.1), sched[1..]);
      assert forall y :: y in sched ==> y == x || y in sched[1..];
    }
  }

  lemma RoundLowersWork(s: System, round: Schedule)
    requires Coherent(s) && Round(round)
    ensures Coherent(ExecSerial(s, round))
    ensures Work(ExecSerial(s, round)) < Work(s) || (Done(s) && ExecSerial(s, round) == s)
  {
    ScheduleLowersWork(s, round);
    if Work(ExecSerial(s, round)) == Work(s) {
      forall i: Id, a: Action | a in {MainStep, HandlerStep, ServerStep}
        ensures SerialStep(s, i, a) == s
      {
        assert (i, a) in round;
      }
      StuckIsDone(s);
    }
  }

  /**
  Every command completes: from any coherent state, as many fair rounds as there is work left
  bring both processes back to their prompts with every message delivered.
  */
  lemma {:induction false} FairRunsComplete(s: System, rounds: seq<Schedule>)
    requires Coherent(s) && |rounds| > Work(s)
    requires forall k :: 0 <= k < |rounds| ==> Round(rounds[k])
    ensures Coherent(ExecRounds(s, rounds)) && Done(ExecRounds(s, rounds))
    decreases |rounds|
  {
    RoundLowersWork(s, rounds[0]);
    var s' := ExecSerial(s, rounds[0]);
    if s' == s {
      DoneStays(s, rounds);
    } else {
      FairRunsComplete(s', rounds[1..]);
    }
  }

  lemma {:induction false} DoneStays(s: System, rounds: seq<Schedule>)
    requires Coherent(s) && Done(s)
    requires forall k :: 0 <= k < |rounds| ==> NoStart(rounds[k])
    ensures ExecRounds(s, rounds) == s
    decreases |rounds|
  {
    if rounds != [] {
      DoneStaysInSchedule(s, rounds[0]);
      DoneStays(s, rounds[1..]);
    }
  }

  lemma {:induction false} DoneStaysInSchedule(s: System, sched: Schedule)
    requires Valid(s) && Done(s) && NoStart(sched)
    ensures ExecSerial(s, sched) == s
    decreases |sched|
  {
    if sched != [] {
      assert s.log + [] == s.log;
      assert SerialStep(s, sched[0].0, sched[0].1) == s;
      DoneStaysInSchedule(s, sched[1..]);
    }
  }
}
