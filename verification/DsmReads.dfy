/**
What serialised runs promise, said with the log and the commands alone: every look at a page
shows the last command that wrote it, or zero bytes.
*/
module DsmReads {
  import opened DsmModel
  import opened DsmCoherence
  import opened DsmSerial

  predicate WritesTo(e: Event, p: nat) {
    e.Wrote? && e.page == p
  }

  /** The position of the last write of a page, or -1. */
  function LastWriteOf(log: seq<Event>, p: nat): (j: int)
    ensures -1 <= j < |log|
  {
    if log == [] then -1
    else if WritesTo(log[|log| - 1], p) then |log| - 1
    else LastWriteOf(log[..|log| - 1], p)
  }

  lemma {:induction false} LastWriteIsLast(log: seq<Event>, p: nat)
    ensures LastWriteOf(log, p) >= 0 ==> WritesTo(log[LastWriteOf(log, p)], p)
    ensures forall k :: LastWriteOf(log, p) < k < |log| ==> !WritesTo(log[k], p)
  {
    if log != [] && !WritesTo(log[|log| - 1], p) {
      LastWriteIsLast(log[..|log| - 1], p);
      assert forall k :: 0 <= k < |log| - 1 ==> log[k] == log[..|log| - 1][k];
    }
  }

  /** The flat array has the bytes of the last write, or zero bytes if there was none. */
  lemma {:induction false} FlatIsLastWrite(c: Config, log: seq<Event>, p: nat)
    ensures Flat(c, log, p) == if LastWriteOf(log, p) >= 0 then log[LastWriteOf(log, p)].bytes else Zeros(c)
  {
    if log != [] && !WritesTo(log[|log| - 1], p) {
      FlatIsLastWrite(c, log[..|log| - 1], p);
    }
  }

  /**
  Every look of every serialised run: if nobody wrote the page before, it shows a page of zero
  bytes, and otherwise the bytes of the last write before it.
  */
  lemma EveryReadIsRight(c: Config, sched: Schedule, k: nat)
    requires 0 < c.pageSize
    requires var log := ExecSerial(Init(c), sched).log; k < |log| && log[k].Saw?
    ensures
      var log := ExecSerial(Init(c), sched).log;
      var p := log[k].page;
      && ((forall j :: 0 <= j < k ==> !(log[j].Wrote? && log[j].page == p)) ==>
            |log[k].bytes| == c.pageSize && forall b :: 0 <= b < c.pageSize ==> log[k].bytes[b] == 0)
      && ((exists j :: 0 <= j < k && log[j].Wrote? && log[j].page == p) ==>
            exists j :: && 0 <= j < k && log[j].Wrote? && log[j].page == p && log[j].bytes == log[k].bytes
              && forall l :: j < l < k ==> !(log[l].Wrote? && log[l].page == p))
  {
    EverySerialRunIsCoherent(c, sched);
    var log := ExecSerial(Init(c), sched).log;
    hide Coherent, ExecSerial, Flat, LastWriteOf;
    var p, before := log[k].page, log[..k];
    FlatIsLastWrite(c, before, p);
    LastWriteIsLast(before, p);
    assert forall j :: 0 <= j < k ==> before[j] == log[j];
    if LastWriteOf(before, p) >= 0 {
      var j := LastWriteOf(before, p);
      assert log[j].Wrote? && log[j].page == p && log[j].bytes == log[k].bytes;
    }
  }

  // ---------- Where the bytes come from ----------

  /** The command that a main thread is working on, or none. */
  predicate MainCommanded(i: Id, main: Main, cmds: seq<(Id, Action)>) {
    match main
    case Idle => true
    case Loop(op, _) => (i, Start(op, -1)) in cmds
    case Busy(_, p, op, all) => (i, Start(op, if all then -1 else p)) in cmds
  }

  /** A write of the log carries out a command: its message up to the first zero byte, then zeros. */
  ghost predicate WriteCommanded(c: Config, e: Event, cmds: seq<(Id, Action)>) {
    e.Wrote? ==> exists message: seq<Byte>, which: int ::
      && (e.node, Start(Write(message), which)) in cmds && (which == -1 || which == e.page)
      && |message| < c.pageSize && |e.bytes| == c.pageSize
      && forall k :: 0 <= k < c.pageSize ==>
           e.bytes[k] == if k < |message| && 0 !in message[..k] then message[k] else 0
  }

  ghost predicate Commanded(s: System, cmds: seq<(Id, Action)>) {
    && MainCommanded(First, s.first.main, cmds) && MainCommanded(Second, s.second.main, cmds)
    && forall k :: 0 <= k < |s.log| ==> WriteCommanded(s.config, s.log[k], cmds)
  }

  lemma MainStepCommanded(c: Config, i: Id, n: Node, cmds: seq<(Id, Action)>)
    requires ValidNode(c, n) && MainCommanded(i, n.main, cmds)
    ensures
      var (n', events) := MainNext(c, i, n);
      && MainCommanded(i, n'.main, cmds)
      && forall k :: 0 <= k < |events| ==> WriteCommanded(c, events[k], cmds)
  {
  }

  lemma StepCommanded(s: System, i: Id, a: Action, cmds: seq<(Id, Action)>)
    requires Valid(s) && Commanded(s, cmds) && (i, a) in cmds
    ensures Commanded(Step(s, i, a), cmds)
  {
    hide WriteCommanded, HandlerNext, ServerNext, MainNext;
    var c, n, m := s.config, s.At(i), s.At(i.Peer());
    match a {
      case Start(_, _) =>
      case MainStep => MainStepCommanded(c, i, n, cmds);
      case HandlerStep => OthersKeepMains(c, n, m);
      case ServerStep => OthersKeepMains(c, n, m);
    }
  }

  lemma {:induction false} ExecCommanded(s: System, sched: Schedule, cmds: seq<(Id, Action)>)
    requires Valid(s) && Commanded(s, cmds) && forall x :: x in sched ==> x in cmds
    ensures Commanded(ExecSerial(s, sched), cmds)
    decreases |sched|
  {
    hide Commanded, Step;
    if sched != [] {
      StepCommanded(s, sched[0].0, sched[0].1, cmds);
      ExecCommanded(SerialStep(s, sched[0].0, sched[0].1), sched[1..], cmds);
    }
  }

  /** Every write of a serialised run is the padded message of a write command of that process. */
  lemma EveryWriteIsCommanded(c: Config, sched: Schedule, k: nat)
    requires 0 < c.pageSize
    requires var log := ExecSerial(Init(c), sched).log; k < |log| && log[k].Wrote?
    ensures
      var e := ExecSerial(Init(c), sched).log[k];
      exists message: seq<Byte>, which: int ::
        && (e.node, Start(Write(message), which)) in sched && (which == -1 || which == e.page)
        && |message| < c.pageSize && |e.bytes| == c.pageSize
        && forall b :: 0 <= b < c.pageSize ==>
             e.bytes[b] == if b < |message| && 0 !in message[..b] then message[b] else 0
  {
    ExecCommanded(Init(c), sched, sched);
    assert WriteCommanded(c, ExecSerial(Init(c), sched).log[k], sched);
  }
}
