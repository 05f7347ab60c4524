/**
A page that nobody had becomes SHARED at both processes but mapped at one only. When that one
writes it, the other one is SHARED without a copy of bytes that are no longer zero, until the
invalidation has been carried out.
*/
module DsmZeroPage {
  import opened DsmModel
  import opened DsmCoherence
  import opened DsmResults
  import opened DsmCompletion
  import opened DsmRace
  import opened DsmStale
  import opened DsmHandover

  /** The handler's and the peer's part of the first read of a page. */
  function FirstFetch(i: Id): Schedule {
    var h, v := (i, HandlerStep), (i.Peer(), ServerStep);
    [h, h] + ([v, v, v] + [v]) + ([h, h] + [h])
  }

  function BeginRead(i: Id, p: nat): Schedule {
    [(i, Start(Read, p)), (i, MainStep)]
  }

  function BeginWrite(i: Id, p: nat, message: seq<Byte>): Schedule {
    [(i, Start(Write(message), p)), (i, MainStep)]
  }

  /** The server answers '0' and marks the page SHARED. */
  lemma DeclineSteps(c: Config, n: Node, m: Node, p: nat)
    requires ValidNode(c, n) && ValidNode(c, m) && p < c.pages
    requires n.server.SIdle? && n.replies == [] && n.msi[p] == Invalid && m.requests == [Fetch(p)]
    ensures
      var (n1, m1) := ServerNext(c, n, m);
      var (n2, m2) := ServerNext(c, n1, m1);
      var (n3, m3) := ServerNext(c, n2, m2);
      ServerNext(c, n3, m3) == (n.(msi := n.msi[p := Shared], replies := [NO_COPY]), m.(requests := []))
  {
    assert n.replies + [NO_COPY] == [NO_COPY];
  }

  lemma Declines(s: System, j: Id, p: nat)
    requires Valid(s) && p < s.config.pages
    requires
      var n, m := s.At(j), s.At(j.Peer());
      n.server.SIdle? && n.replies == [] && n.msi[p] == Invalid && m.requests == [Fetch(p)]
    ensures
      var n, m, v := s.At(j), s.At(j.Peer()), (j, ServerStep);
      Exec(s, [v, v, v] + [v])
        == s.With(j, n.(msi := n.msi[p := Shared], replies := [NO_COPY])).With(j.Peer(), m.(requests := []))
  {
    hide Step, Exec, ServerNext;
    var v := (j, ServerStep);
    DeclineSteps(s.config, s.At(j), s.At(j.Peer()), p);
    ServerRunsThrice(s, j);
    ServerRuns(Exec(s, [v, v, v]), j);
    ExecAppend(s, [v, v, v], [v]);
  }

  lemma ZeroSteps(c: Config, n: Node, m: Node, p: nat)
    requires ValidNode(c, n) && ValidNode(c, m) && p < c.pages
    requires n.handler == HWait(p) && n.maps[p].Unmapped? && m.replies == [NO_COPY]
    ensures
      var (n1, m1) := HandlerNext(c, n, m);
      var (n2, m2) := HandlerNext(c, n1, m1);
      HandlerNext(c, n2, m2)
        == (n.(msi := n.msi[p := Shared], maps := n.maps[p := Mapped(Zeros(c))], handler := HIdle),
            m.(replies := []))
  {
    assert m.replies[1..] == [];
  }

  lemma MapsZeros(s: System, i: Id, p: nat)
    requires Valid(s) && p < s.config.pages
    requires s.At(i).handler == HWait(p) && s.At(i).maps[p].Unmapped? && s.At(i.Peer()).replies == [NO_COPY]
    ensures
      var n, m, h := s.At(i), s.At(i.Peer()), (i, HandlerStep);
      var n' := n.(msi := n.msi[p := Shared], maps := n.maps[p := Mapped(Zeros(s.config))], handler := HIdle);
      Exec(s, [h, h] + [h]) == s.With(i, n').With(i.Peer(), m.(replies := []))
  {
    hide Step, Exec, HandlerNext;
    var h := (i, HandlerStep);
    ZeroSteps(s.config, s.At(i), s.At(i.Peer()), p);
    HandlerRunsTwice(s, i);
    HandlerRuns(Exec(s, [h, h]), i);
    ExecAppend(s, [h, h], [h]);
  }

  /** The first read of a page, from command to prompt. */
  lemma FirstRead(s: System, i: Id, p: nat)
    requires Valid(s) && Done(s) && p < s.config.pages
    requires s.At(i).msi[p] == Invalid && s.At(i).maps[p].Unmapped? && s.At(i.Peer()).msi[p] == Invalid
    ensures
      var n, m := s.At(i), s.At(i.Peer());
      Exec(s, BeginRead(i, p) + FirstFetch(i) + [(i, MainStep)])
        == s.With(i, n.(msi := n.msi[p := Shared], maps := n.maps[p := Mapped(Zeros(s.config))]))
            .With(i.Peer(), m.(msi := m.msi[p := Shared]))
            .(log := s.log + [Saw(i, p, Zeros(s.config))])
  {
    hide Step, Exec, HandlerNext, ServerNext;
    var h, v := (i, HandlerStep), (i.Peer(), ServerStep);
    var decline, install := [v, v, v] + [v], [h, h] + [h];
    Asks(s, i, p);
    var s1 := Exec(s, AskSchedule(i, p));
    Declines(s1, i.Peer(), p);
    var s2 := Exec(s1, decline);
    MapsZeros(s2, i, p);
    ReadEnds(Exec(s2, install), i, p, Zeros(s.config));
    assert BeginRead(i, p) + FirstFetch(i) == AskSchedule(i, p) + decline + install;
    ExecAppend(s, AskSchedule(i, p), decline);
    ExecAppend(s, AskSchedule(i, p) + decline, install);
    ExecAppend(s, BeginRead(i, p) + FirstFetch(i), [(i, MainStep)]);
  }

  lemma LookIsSerial(s: System, i: Id)
    requires Valid(s) && s.At(i).main.Busy?
    ensures ExecSerial(s, [(i, MainStep)]) == Exec(s, [(i, MainStep)])
  {
    hide Step, Exec, ExecSerial, SerialStep, Quiet;
    assert Begins(s.config, s.At(i), MainStep) == -1;
    SerialIsStep(s, i, MainStep);
    SerialOne(s, (i, MainStep));
    ExecOne(s, (i, MainStep));
  }

  lemma StepKeepsMain(s: System, i: Id, j: Id, a: Action)
    requires Valid(s) && a in {HandlerStep, ServerStep}
    ensures Step(s, j, a).At(i).main == s.At(i).main
  {
  }

  /** Handlers and servers never send the main thread back to its prompt. */
  lemma {:induction false} MainStaysBusy(s: System, i: Id, sched: Schedule)
    requires Valid(s) && NoMain(sched)
    ensures Exec(s, sched).At(i).main == s.At(i).main
    decreases |sched|
  {
    hide Step;
    if sched != [] {
      StepKeepsMain(s, i, sched[0].0, sched[0].1);
      MainStaysBusy(Step(s, sched[0].0, sched[0].1), i, sched[1..]);
    }
  }

  lemma FirstReadIsSerial(s: System, i: Id, p: nat)
    requires Valid(s) && Done(s) && p < s.config.pages && s.At(i).maps[p].Unmapped?
    ensures
      var read := BeginRead(i, p) + FirstFetch(i) + [(i, MainStep)];
      ExecSerial(s, read) == Exec(s, read)
  {
    hide Step, Exec, ExecSerial;
    var begin, fetch, look := BeginRead(i, p), FirstFetch(i), [(i, MainStep)];
    CommandBeginsSerially(s, i, Read, p);
    ReadBegins(s, i, p);
    NoMainIsSerial(Exec(s, begin), fetch);
    MainStaysBusy(Exec(s, begin), i, fetch);
    LookIsSerial(Exec(Exec(s, begin), fetch), i);
    SerialAppend(s, begin, fetch);
    SerialAppend(s, begin + fetch, look);
    ExecAppend(s, begin, fetch);
    ExecAppend(s, begin + fetch, look);
  }

  /**
  From any settled state in which nobody has page `p`: process `i` reads it and begins to write
  it, and its peer is SHARED without a copy while the flat array has the new bytes.
  */
  lemma ShareOutlivesZeros(s: System, i: Id, p: nat, message: seq<Byte>)
    requires Valid(s) && Done(s) && p < s.config.pages && |message| < s.config.pageSize
    requires forall k: Id :: s.At(k).msi[p] == Invalid && s.At(k).maps[p].Unmapped?
    ensures
      var run := BeginRead(i, p) + FirstFetch(i) + [(i, MainStep)] + BeginWrite(i, p, message);
      var s' := ExecSerial(s, run);
      && s'.At(i.Peer()).msi[p] == Shared && s'.At(i.Peer()).maps[p].Unmapped? && s'.At(i.Peer()).handler.HIdle?
      && s'.At(i).maps[p] == Mapped(Pad(s.config, message)) && Overwriting(s'.At(i), s'.At(i.Peer()), p)
      && Flat(s.config, s'.log, p) == Pad(s.config, message)
  {
    hide Step, Exec, ExecSerial, Zeros, Pad;
    var read, write := BeginRead(i, p) + FirstFetch(i) + [(i, MainStep)], BeginWrite(i, p, message);
    FirstRead(s, i, p);
    FirstReadIsSerial(s, i, p);
    SerialAppend(s, read, write);
    CommandBeginsSerially(Exec(s, read), i, Write(message), p);
    WriteBegins(Exec(s, read), i, p, message);
    LogAppend(s.config, Exec(s, read).log, Wrote(i, p, Pad(s.config, message)), p);
  }

  /** The start is such a state. */
  lemma SharedNeedNotBeZero(c: Config) returns (sched: Schedule)
    requires 2 <= c.pageSize && 1 <= c.pages
    ensures
      var s := ExecSerial(Init(c), sched);
      && s.second.msi[0] == Shared && s.second.maps[0].Unmapped? && s.second.handler.HIdle?
      && Flat(c, s.log, 0) != Zeros(c)
  {
    hide Step, Exec, ExecSerial;
    ShareOutlivesZeros(Init(c), First, 0, [1]);
    sched := BeginRead(First, 0) + FirstFetch(First) + [(First, MainStep)] + BeginWrite(First, 0, [1]);
    assert Pad(c, [1])[0] == 1 && Zeros(c)[0] == 0;
  }
}
