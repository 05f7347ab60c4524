/**
The one exception to the single-writer property is real: the server answers a fetch before it
marks its own page, so for a moment the old owner still says MODIFIED beside a SHARED page; and
that page is not yet mapped, so SHARED and unmapped does not always mean zero.
*/
module DsmHandover {
  import opened DsmModel
  import opened DsmCoherence
  import opened DsmSerial
  import opened DsmCompletion
  import opened DsmBroadcast
  import opened DsmRace
  import opened DsmStale

  /** Steps of handlers and servers only. */
  predicate NoMain(sched: Schedule) {
    forall k :: 0 <= k < |sched| ==> sched[k].1 in {HandlerStep, ServerStep}
  }

  lemma {:induction false} NoMainIsSerial(s: System, sched: Schedule)
    requires Valid(s) && NoMain(sched)
    ensures ExecSerial(s, sched) == Exec(s, sched)
    decreases |sched|
  {
    if sched != [] {
      assert SerialStep(s, sched[0].0, sched[0].1) == Step(s, sched[0].0, sched[0].1);
      NoMainIsSerial(Step(s, sched[0].0, sched[0].1), sched[1..]);
    }
  }

  lemma {:induction false} SerialAppend(s: System, a: Schedule, b: Schedule)
    requires Valid(s)
    ensures ExecSerial(s, a + b) == ExecSerial(ExecSerial(s, a), b)
    decreases |a|
  {
    if a == [] {
      assert a + b == b;
    } else {
      assert (a + b)[1..] == a[1..] + b;
      SerialAppend(SerialStep(s, a[0].0, a[0].1), a[1..], b);
    }
  }

  lemma {:induction false} RoundsAreSerial(s: System, rounds: seq<Schedule>) returns (run: Schedule)
    requires Valid(s)
    ensures ExecSerial(s, run) == ExecRounds(s, rounds)
    decreases |rounds|
  {
    run := [];
    if rounds != [] {
      var rest := RoundsAreSerial(ExecSerial(s, rounds[0]), rounds[1..]);
      SerialAppend(s, rounds[0], rest);
      run := rounds[0] + rest;
    }
  }

  lemma SerialOne(s: System, x: (Id, Action))
    requires Valid(s)
    ensures ExecSerial(s, [x]) == SerialStep(s, x.0, x.1)
  {
    assert [x][1..] == [];
  }

  lemma SerialTwo(s: System, x: (Id, Action), y: (Id, Action))
    requires Valid(s)
    ensures ExecSerial(s, [x, y]) == SerialStep(SerialStep(s, x.0, x.1), y.0, y.1)
  {
    hide SerialStep;
    SerialOne(SerialStep(s, x.0, x.1), y);
    assert [x, y][1..] == [y];
  }

  /** A command on one page is no longer about to begin once it was accepted. */
  lemma StartedIsBegun(s: System, i: Id, op: Op, p: nat)
    requires Valid(s) && s.At(i).main.Idle? && p < s.config.pages
    ensures Begins(s.config, Step(s, i, Start(op, p)).At(i), MainStep) == -1
  {
  }

  lemma SerialIsStep(s: System, i: Id, a: Action)
    requires Valid(s)
    requires var p := Begins(s.config, s.At(i), a); p == -1 || Quiet(s, p)
    ensures SerialStep(s, i, a) == Step(s, i, a)
  {
    hide Step, Quiet, Begins;
  }

  /** From a settled state a command may begin on any page. */
  lemma CommandBeginsSerially(s: System, i: Id, op: Op, p: nat)
    requires Valid(s) && Done(s) && p < s.config.pages
    ensures
      var begin := [(i, Start(op, p)), (i, MainStep)];
      ExecSerial(s, begin) == Exec(s, begin)
  {
    hide Step, Exec, ExecSerial, SerialStep, Quiet;
    DoneIsQuiet(s, p);
    SerialIsStep(s, i, Start(op, p));
    StartedIsBegun(s, i, op, p);
    SerialIsStep(Step(s, i, Start(op, p)), i, MainStep);
    SerialTwo(s, (i, Start(op, p)), (i, MainStep));
    ExecTwo(s, (i, Start(op, p)), (i, MainStep));
  }

  /** The rest of the fetch, up to where only the owner's own mark is missing. */
  function Handover(i: Id): Schedule {
    var h, v := (i, HandlerStep), (i.Peer(), ServerStep);
    [h, h] + [v, v, v] + [v] + [h, h] + [h]
  }

  lemma HandlerRuns(s: System, i: Id)
    requires Valid(s)
    ensures
      var (n1, m1) := HandlerNext(s.config, s.At(i), s.At(i.Peer()));
      Exec(s, [(i, HandlerStep)]) == s.With(i, n1).With(i.Peer(), m1)
  {
    WithBoth(s, i);
    HandlerRunsOnce(s, i, s.At(i), s.At(i.Peer()));
    ExecOne(s, (i, HandlerStep));
  }

  lemma ServerRuns(s: System, i: Id)
    requires Valid(s)
    ensures
      var (n1, m1) := ServerNext(s.config, s.At(i), s.At(i.Peer()));
      Exec(s, [(i, ServerStep)]) == s.With(i, n1).With(i.Peer(), m1)
  {
    WithBoth(s, i);
    ServerRunsOnce(s, i, s.At(i), s.At(i.Peer()));
    ExecOne(s, (i, ServerStep));
  }

  /** The owner has sent the page and not yet marked it. */
  lemma OwnerSends(s: System, j: Id, p: nat, bytes: seq<Byte>)
    requires Valid(s) && p < s.config.pages
    requires
      var n, m := s.At(j), s.At(j.Peer());
      && n.server.SIdle? && n.replies == [] && n.msi[p] != Invalid && n.maps[p] == Mapped(bytes)
      && m.requests == [Fetch(p)]
    ensures
      var n, m := s.At(j), s.At(j.Peer());
      var v := (j, ServerStep);
      Exec(s, [v, v, v] + [v])
        == s.With(j, n.(replies := [COPY_FOLLOWS] + bytes, server := SShare(p))).With(j.Peer(), m.(requests := []))
  {
    hide Step, Exec, ServerNext;
    var n, m, v := s.At(j), s.At(j.Peer()), (j, ServerStep);
    AnswerSteps(s.config, n, m, p, bytes);
    ServerRunsThrice(s, j);
    SendStep(s.config, n.(server := SBody(p), replies := [COPY_FOLLOWS]), m.(requests := []), p, bytes);
    ServerRuns(Exec(s, [v, v, v]), j);
    ExecAppend(s, [v, v, v], [v]);
  }

  lemma SendStep(c: Config, n: Node, m: Node, p: nat, bytes: seq<Byte>)
    requires ValidNode(c, n) && ValidNode(c, m) && n.server == SBody(p) && n.maps[p] == Mapped(bytes)
    ensures ServerNext(c, n, m) == (n.(replies := n.replies + bytes, server := SShare(p)), m)
  {
    assert n.maps[p := Mapped(bytes)] == n.maps;
  }

  lemma MarkStep(c: Config, n: Node, m: Node, p: nat, bytes: seq<Byte>)
    requires ValidNode(c, n) && ValidNode(c, m) && n.handler == HMark(p, bytes)
    ensures HandlerNext(c, n, m) == (n.(msi := n.msi[p := Shared], handler := HCopy(p, bytes)), m)
  {
  }

  lemma ReaderMarks(s: System, i: Id, p: nat, bytes: seq<Byte>)
    requires Valid(s) && p < s.config.pages && |bytes| == s.config.pageSize
    requires s.At(i).handler == HWait(p) && s.At(i.Peer()).replies == [COPY_FOLLOWS] + bytes
    ensures
      var n, h := s.At(i), (i, HandlerStep);
      Exec(s, [h, h] + [h])
        == s.With(i, n.(msi := n.msi[p := Shared], handler := HCopy(p, bytes)))
            .With(i.Peer(), s.At(i.Peer()).(replies := []))
  {
    hide Step, Exec, HandlerNext;
    var c, n, m, h := s.config, s.At(i), s.At(i.Peer()), (i, HandlerStep);
    ReadsReply(c, n, m, p, bytes);
    HandlerRunsTwice(s, i);
    MarkStep(c, n.(handler := HMark(p, bytes)), m.(replies := []), p, bytes);
    HandlerRuns(Exec(s, [h, h]), i);
    ExecAppend(s, [h, h], [h]);
  }

  /**
  From any settled state with one owner, a read passes through the exception; the reader is then
  SHARED without a copy, although the page need not be zero.
  */
  lemma OwnerLagsBehind(s: System, i: Id, p: nat, bytes: seq<Byte>)
    requires Valid(s) && Done(s) && p < s.config.pages
    requires s.At(i).msi[p] == Invalid && s.At(i).maps[p].Unmapped?
    requires s.At(i.Peer()).msi[p] == Modified && s.At(i.Peer()).maps[p] == Mapped(bytes)
    ensures
      var s' := ExecSerial(s, [(i, Start(Read, p)), (i, MainStep)] + Handover(i));
      && s'.At(i.Peer()).msi[p] == Modified && s'.At(i.Peer()).server == SShare(p)
      && s'.At(i).msi[p] == Shared && s'.At(i).maps[p].Unmapped? && s'.At(i).handler == HCopy(p, bytes)
      && s'.log == s.log
  {
    hide Step, Exec, ExecSerial, HandlerNext, ServerNext;
    var h, v := (i, HandlerStep), (i.Peer(), ServerStep);
    var begin, ask, send, mark := [(i, Start(Read, p)), (i, MainStep)], [h, h], [v, v, v] + [v], [h, h] + [h];
    CommandBeginsSerially(s, i, Read, p);
    SerialAppend(s, begin, Handover(i));
    NoMainIsSerial(Exec(s, begin), Handover(i));
    assert Handover(i) == ask + send + mark;
    assert AskSchedule(i, p) == begin + ask;
    Asks(s, i, p);
    ExecAppend(s, begin, ask);
    var s1 := Exec(s, AskSchedule(i, p));
    OwnerSends(s1, i.Peer(), p, bytes);
    ReaderMarks(Exec(s1, send), i, p, bytes);
    ExecAppend(Exec(s, begin), ask + send, mark);
    ExecAppend(Exec(s, begin), ask, send);
  }

  /** The first process writes all pages, as a serialised run. */
  lemma WrittenSerially(c: Config) returns (run: Schedule)
    requires 2 <= c.pageSize && 1 <= c.pages
    ensures
      var s := ExecSerial(Init(c), run);
      && Done(s) && s.first.msi[0] == Modified && s.first.maps[0] == Mapped(Pad(c, [1]))
      && s.second.msi[0] == Invalid && s.second.maps[0].Unmapped? && Flat(c, s.log, 0) == Pad(c, [1])
  {
    hide Step, Exec, ExecSerial, SerialStep, Work;
    EverySerialRunIsCoherent(c, []);
    NothingRuns(Init(c));
    var start := (First, Start(Write([1]), -1));
    var begun := SerialStep(Init(c), start.0, start.1);
    var rounds := FairRounds(Work(begun) + 1);
    WriteAll(Init(c), First, [1], rounds);
    var rest := RoundsAreSerial(begun, rounds);
    SerialOne(Init(c), start);
    SerialAppend(Init(c), [start], rest);
    run := [start] + rest;
    var s := ExecRounds(begun, rounds);
    assert s.At(First).msi[0] == Modified && s.At(First.Peer()).msi[0] == Invalid;
  }

  /** The exception is reached by a serialised run from the start. */
  lemma SingleWriterHasException(c: Config) returns (sched: Schedule)
    requires 2 <= c.pageSize && 1 <= c.pages
    ensures
      var s := ExecSerial(Init(c), sched);
      && s.first.msi[0] == Modified && s.first.server == SShare(0) && s.second.msi[0] == Shared
      && s.second.maps[0].Unmapped? && Flat(c, s.log, 0) != Zeros(c)
  {
    hide Step, Exec, ExecSerial, SerialStep;
    var write := WrittenSerially(c);
    OwnerLagsBehind(ExecSerial(Init(c), write), Second, 0, Pad(c, [1]));
    var read := [(Second, Start(Read, 0)), (Second, MainStep)] + Handover(Second);
    SerialAppend(Init(c), write, read);
    sched := write + read;
    assert Pad(c, [1])[0] == 1 && Zeros(c)[0] == 0;
  }

  lemma NothingRuns(s: System)
    requires Valid(s)
    ensures ExecSerial(s, []) == s
  {
  }
}
