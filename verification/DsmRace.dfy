/**
Why runs have to be serialised: invalidations are not acknowledged, so two processes that write
the same page at the same time invalidate each other and the page is lost on both sides.
*/
module DsmRace {
  import opened DsmModel
  import opened DsmCoherence
  import opened DsmSerial
  import opened DsmCompletion
  import opened DsmBroadcast

  /** A process that has written `p` and sent its invalidation, and is back at its prompt. */
  function AfterWrite(c: Config, n: Node, p: nat, message: seq<Byte>): Node
    requires ValidNode(c, n) && p < c.pages && |message| < c.pageSize
  {
    n.(msi := n.msi[p := Modified],
       maps := n.maps[p := Mapped(Pad(c, message))],
       requests := n.requests + [Invalidate(p)])
  }

  function WriteEvents(c: Config, i: Id, p: nat, message: seq<Byte>): seq<Event>
    requires |message| < c.pageSize
  {
    [Wrote(i, p, Pad(c, message)), Saw(i, p, Pad(c, message))]
  }

  /** A write to a mapped page, from the prompt back to the prompt. */
  function WriteSchedule(i: Id, p: nat, message: seq<Byte>): Schedule {
    [(i, Start(Write(message), p)), (i, MainStep)] + ([(i, MainStep), (i, MainStep)] + [(i, MainStep)])
  }

  function ServeSchedule(i: Id): Schedule {
    [(i, ServerStep), (i, ServerStep), (i, ServerStep)]
  }

  /** Both processes write `p`; only then do the two invalidations arrive. */
  function CrossingWrites(p: nat, m1: seq<Byte>, m2: seq<Byte>): Schedule {
    WriteSchedule(First, p, m1) + WriteSchedule(Second, p, m2) + ServeSchedule(First) + ServeSchedule(Second)
  }

  lemma {:induction false} ExecAppend(s: System, a: Schedule, b: Schedule)
    requires Valid(s)
    ensures Exec(s, a + b) == Exec(Exec(s, a), b)
    decreases |a|
  {
    if a == [] {
      assert a + b == b;
    } else {
      assert (a + b)[1..] == a[1..] + b;
      ExecAppend(Step(s, a[0].0, a[0].1), a[1..], b);
    }
  }

  lemma ServeSteps(c: Config, n: Node, m: Node, p: nat)
    requires ValidNode(c, n) && ValidNode(c, m) && p < c.pages
    requires n.server.SIdle? && m.requests == [Invalidate(p)]
    ensures
      var (n1, m1) := ServerNext(c, n, m);
      var (n2, m2) := ServerNext(c, n1, m1);
      var (n3, m3) := ServerNext(c, n2, m2);
      && n3 == n.(msi := n.msi[p := Invalid], maps := n.maps[p := Unmapped])
      && m3 == m.(requests := [])
  {
  }

  lemma ExecThree(s: System, x: (Id, Action), y: (Id, Action), z: (Id, Action))
    requires Valid(s)
    ensures Exec(s, [x, y, z]) == Step(Step(Step(s, x.0, x.1), y.0, y.1), z.0, z.1)
  {
    var s1 := Step(s, x.0, x.1);
    var s2 := Step(s1, y.0, y.1);
    assert [x, y, z][1..] == [y, z] && [y, z][1..] == [z] && [z][1..] == [];
    assert Exec(s2, [z]) == Exec(Step(s2, z.0, z.1), []);
    assert Exec(s1, [y, z]) == Exec(s2, [z]);
    assert Exec(s, [x, y, z]) == Exec(s1, [y, z]);
  }

  lemma ExecOne(s: System, x: (Id, Action))
    requires Valid(s)
    ensures Exec(s, [x]) == Step(s, x.0, x.1)
  {
    assert [x][1..] == [];
  }

  lemma ExecTwo(s: System, x: (Id, Action), y: (Id, Action))
    requires Valid(s)
    ensures Exec(s, [x, y]) == Step(Step(s, x.0, x.1), y.0, y.1)
  {
    ExecOne(Step(s, x.0, x.1), y);
    assert [x, y][1..] == [y];
  }

  /** The page is overwritten. */
  lemma WriteBegins(s: System, i: Id, p: nat, message: seq<Byte>)
    requires Valid(s) && p < s.config.pages && |message| < s.config.pageSize
    requires var n := s.At(i); n.main.Idle? && n.handler.HIdle? && n.maps[p].Mapped?
    ensures
      var n, bytes := s.At(i), Pad(s.config, message);
      var n' := n.(maps := n.maps[p := Mapped(bytes)], main := Busy(Mark, p, Write(message), false));
      Exec(s, [(i, Start(Write(message), p)), (i, MainStep)])
        == s.With(i, n').(log := s.log + [Wrote(i, p, bytes)])
  {
    ExecTwo(s, (i, Start(Write(message), p)), (i, MainStep));
  }

  /** The page is marked and printed. */
  lemma WriteGoesOn(s: System, i: Id, p: nat, bytes: seq<Byte>)
    requires Valid(s) && p < s.config.pages
    requires
      var n := s.At(i);
      n.main.Busy? && n.main.stage == Mark && n.main.page == p && n.handler.HIdle? && n.maps[p] == Mapped(bytes)
    ensures
      var n := s.At(i);
      var n' := n.(msi := n.msi[p := Modified], main := n.main.(stage := Send));
      Exec(s, [(i, MainStep), (i, MainStep)]) == s.With(i, n').(log := s.log + [Saw(i, p, bytes)])
  {
    ExecTwo(s, (i, MainStep), (i, MainStep));
    assert s.log + [] == s.log;
  }

  /** The invalidation is sent. */
  lemma WriteEnds(s: System, i: Id, p: nat)
    requires Valid(s) && p < s.config.pages
    requires var main := s.At(i).main; main.Busy? && main.stage == Send && main.page == p && !main.all
    ensures
      var n := s.At(i);
      Exec(s, [(i, MainStep)]) == s.With(i, n.(requests := n.requests + [Invalidate(p)], main := Idle))
  {
    ExecOne(s, (i, MainStep));
    assert s.log + [] == s.log;
  }

  lemma ServerRunsOnce(s: System, i: Id, n: Node, m: Node)
    requires Valid(s) && ValidNode(s.config, n) && ValidNode(s.config, m)
    ensures Valid(s.With(i, n).With(i.Peer(), m))
    ensures
      var (n', m') := ServerNext(s.config, n, m);
      Step(s.With(i, n).With(i.Peer(), m), i, ServerStep) == s.With(i, n').With(i.Peer(), m')
  {
  }

  lemma WriteRuns(s: System, i: Id, p: nat, message: seq<Byte>)
    requires Valid(s) && p < s.config.pages && |message| < s.config.pageSize
    requires var n := s.At(i); n.main.Idle? && n.handler.HIdle? && n.maps[p].Mapped?
    ensures Exec(s, WriteSchedule(i, p, message))
         == s.With(i, AfterWrite(s.config, s.At(i), p, message)).(log := s.log + WriteEvents(s.config, i, p, message))
  {
    hide Step, Exec;
    var x, y, z := [(i, Start(Write(message), p)), (i, MainStep)], [(i, MainStep), (i, MainStep)], [(i, MainStep)];
    var bytes := Pad(s.config, message);
    ExecAppend(s, x, y + z);
    WriteBegins(s, i, p, message);
    var s1 := Exec(s, x);
    ExecAppend(s1, y, z);
    WriteGoesOn(s1, i, p, bytes);
    WriteEnds(Exec(s1, y), i, p);
    assert (s.log + [Wrote(i, p, bytes)]) + [Saw(i, p, bytes)] == s.log + WriteEvents(s.config, i, p, message);
  }

  lemma ServeRuns(s: System, i: Id, p: nat)
    requires Valid(s) && p < s.config.pages
    requires s.At(i).server.SIdle? && s.At(i.Peer()).requests == [Invalidate(p)]
    ensures
      var n, m := s.At(i), s.At(i.Peer());
      var n' := n.(msi := n.msi[p := Invalid], maps := n.maps[p := Unmapped]);
      Exec(s, ServeSchedule(i)) == s.With(i, n').With(i.Peer(), m.(requests := []))
  {
    var c, n, m, step := s.config, s.At(i), s.At(i.Peer()), (i, ServerStep);
    ServeSteps(c, n, m, p);
    var (n1, m1) := ServerNext(c, n, m);
    var (n2, m2) := ServerNext(c, n1, m1);
    ServerRunsOnce(s, i, n, m);
    ServerRunsOnce(s, i, n1, m1);
    ServerRunsOnce(s, i, n2, m2);
    ExecThree(s, step, step, step);
    assert s.With(i, n).With(i.Peer(), m) == s;
  }

  /**
  From any settled state in which both processes have page `p` mapped, writes by both that cross
  leave both of them INVALID without a copy: the last message is in neither memory, although
  everything is delivered and both processes are at their prompts.
  */
  lemma CrossingWritesLoseThePage(s: System, p: nat, m1: seq<Byte>, m2: seq<Byte>)
    requires Valid(s) && Done(s) && p < s.config.pages
    requires |m1| < s.config.pageSize && |m2| < s.config.pageSize
    requires s.first.maps[p].Mapped? && s.second.maps[p].Mapped?
    ensures
      var s' := Exec(s, CrossingWrites(p, m1, m2));
      && Done(s')
      && Flat(s.config, s'.log, p) == Pad(s.config, m2)
      && s'.first.msi[p] == Invalid && s'.first.maps[p].Unmapped?
      && s'.second.msi[p] == Invalid && s'.second.maps[p].Unmapped?
  {
    hide Step, Exec;
    var c := s.config;
    var a, b, d, e := WriteSchedule(First, p, m1), WriteSchedule(Second, p, m2), ServeSchedule(First), ServeSchedule(Second);
    ExecAppend(s, a + b + d, e);
    ExecAppend(s, a + b, d);
    ExecAppend(s, a, b);
    var s1 := Exec(s, a);
    var s2 := Exec(s, a + b);
    var s3 := Exec(s, a + b + d);
    WriteRuns(s, First, p, m1);
    WriteRuns(s1, Second, p, m2);
    ServeRuns(s2, First, p);
    ServeRuns(s3, Second, p);
    var wrote, saw := WriteEvents(c, Second, p, m2)[0], WriteEvents(c, Second, p, m2)[1];
    assert s2.log == (s1.log + [wrote]) + [saw];
    LogAppend(c, s1.log + [wrote], saw, p);
    LogAppend(c, s1.log, wrote, p);
  }

  /** A serialised run is one of the unrestricted runs. */
  lemma {:induction false} SerialRunIsRun(s: System, sched: Schedule) returns (run: Schedule)
    requires Valid(s)
    ensures Exec(s, run) == ExecSerial(s, sched)
    decreases |sched|
  {
    if sched == [] {
      run := [];
    } else {
      var s' := SerialStep(s, sched[0].0, sched[0].1);
      var rest := SerialRunIsRun(s', sched[1..]);
      if s' == s {
        run := rest;
      } else {
        run := [sched[0]] + rest;
        assert run[1..] == rest;
      }
    }
  }

  lemma {:induction false} RoundsAreRun(s: System, rounds: seq<Schedule>) returns (run: Schedule)
    requires Valid(s)
    ensures Exec(s, run) == ExecRounds(s, rounds)
    decreases |rounds|
  {
    if rounds == [] {
      run := [];
    } else {
      var first := SerialRunIsRun(s, rounds[0]);
      var rest := RoundsAreRun(ExecSerial(s, rounds[0]), rounds[1..]);
      ExecAppend(s, first, rest);
      run := first + rest;
    }
  }

  /** Enough rounds in which each of the six threads runs once. */
  lemma FairRounds(count: nat) returns (rounds: seq<Schedule>)
    ensures |rounds| == count && forall k :: 0 <= k < |rounds| ==> Round(rounds[k])
  {
    var round := [(First, MainStep), (First, HandlerStep), (First, ServerStep),
                  (Second, MainStep), (Second, HandlerStep), (Second, ServerStep)];
    forall i: Id, a: Action | a in {MainStep, HandlerStep, ServerStep}
      ensures (i, a) in round
    {
      var k := (if i.First? then 0 else 3) + (if a.MainStep? then 0 else if a.HandlerStep? then 1 else 2);
      assert round[k] == (i, a);
    }
    rounds := seq(count, _ => round);
  }

  /** A command on all pages runs to its end, as a run from `s`. */
  lemma AllRuns(s: System, i: Id, op: Op) returns (run: Schedule, rounds: seq<Schedule>)
    requires Coherent(s) && Done(s) && ValidOp(s.config, op)
    ensures |rounds| > Work(SerialStep(s, i, Start(op, -1)))
    ensures forall k :: 0 <= k < |rounds| ==> Round(rounds[k])
    ensures Exec(s, run) == ExecRounds(SerialStep(s, i, Start(op, -1)), rounds)
  {
    var begun := SerialStep(s, i, Start(op, -1));
    rounds := FairRounds(Work(begun) + 1);
    var rest := RoundsAreRun(begun, rounds);
    ExecOne(s, (i, Start(op, -1)));
    ExecAppend(s, [(i, Start(op, -1))], rest);
    run := [(i, Start(op, -1))] + rest;
  }

  lemma AllWritten(c: Config) returns (run: Schedule)
    requires 2 <= c.pageSize
    ensures
      var s := Exec(Init(c), run);
      && Coherent(s) && Done(s)
      && forall p :: 0 <= p < c.pages ==> HistoryOf(s.log, p) == Owned(First) && Flat(c, s.log, p) == Pad(c, [1])
  {
    EverySerialRunIsCoherent(c, []);
    var rounds;
    run, rounds := AllRuns(Init(c), First, Write([1]));
    WriteAll(Init(c), First, [1], rounds);
  }

  /** One process writes all pages and the other reads them: both then hold page 0. */
  lemma BothCanHold(c: Config) returns (run: Schedule)
    requires 2 <= c.pageSize && 1 <= c.pages
    ensures
      var s := Exec(Init(c), run);
      Done(s) && s.first.maps[0].Mapped? && s.second.maps[0].Mapped?
  {
    hide Step, Exec, Work, Pad, Coherent, HistoryOf, Flat;
    var write := AllWritten(c);
    var written := Exec(Init(c), write);
    var read, rounds := AllRuns(written, Second, Read);
    ReadAllAfterWriteAll(written, Second, Pad(c, [1]), rounds);
    ExecAppend(Init(c), write, read);
    run := write + read;
    var s := ExecRounds(SerialStep(written, Second, Start(Read, -1)), rounds);
    assert s.At(First).maps[0].Mapped? && s.At(Second).maps[0].Mapped?;
  }

  /**
  The loss is reachable from the initial state for every page count and every page size that
  has room for a message: all is delivered, a page was written, and neither process holds it.
  */
  lemma PageCanBeLost(c: Config) returns (run: Schedule)
    requires 2 <= c.pageSize && 1 <= c.pages
    ensures
      var s := Exec(Init(c), run);
      && Done(s) && Flat(c, s.log, 0) != Zeros(c)
      && s.first.msi[0] == Invalid && s.first.maps[0].Unmapped?
      && s.second.msi[0] == Invalid && s.second.maps[0].Unmapped?
  {
    hide Step, Exec;
    var held := BothCanHold(c);
    CrossingWritesLoseThePage(Exec(Init(c), held), 0, [1], [1]);
    ExecAppend(Init(c), held, CrossingWrites(0, [1], [1]));
    assert Pad(c, [1])[0] == 1 && Zeros(c)[0] == 0;
    run := held + CrossingWrites(0, [1], [1]);
  }
}
