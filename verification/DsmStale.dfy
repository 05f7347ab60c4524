/**
The second way in which unserialised runs go wrong: replies and invalidations travel on
different streams, so a fetched page can be installed after the invalidation that outdates it.
*/
module DsmStale {
  import opened DsmModel
  import opened DsmCoherence
  import opened DsmResults
  import opened DsmCompletion
  import opened DsmBroadcast
  import opened DsmRace

  /** A command and its fault, up to the request. */
  function AskSchedule(i: Id, p: nat): Schedule {
    [(i, Start(Read, p)), (i, MainStep)] + [(i, HandlerStep), (i, HandlerStep)]
  }

  function AnswerSchedule(j: Id): Schedule {
    [(j, ServerStep), (j, ServerStep), (j, ServerStep)] + [(j, ServerStep), (j, ServerStep)]
  }

  function InstallSchedule(i: Id): Schedule {
    [(i, HandlerStep), (i, HandlerStep)] + [(i, MainStep)]
  }

  /** Up to where the reply is read, but not yet installed. */
  function FetchSchedule(i: Id, p: nat): Schedule {
    AskSchedule(i, p) + AnswerSchedule(i.Peer()) + [(i, HandlerStep), (i, HandlerStep)]
  }

  /** Process `i` reads; its peer answers and writes again before the handler of `i` goes on. */
  function StaleRead(i: Id, p: nat, message: seq<Byte>): Schedule {
    FetchSchedule(i, p) + (WriteSchedule(i.Peer(), p, message) + ServeSchedule(i)) + InstallSchedule(i)
  }

  lemma HandlerRunsOnce(s: System, i: Id, n: Node, m: Node)
    requires Valid(s) && ValidNode(s.config, n) && ValidNode(s.config, m)
    ensures Valid(s.With(i, n).With(i.Peer(), m))
    ensures
      var (n', m') := HandlerNext(s.config, n, m);
      Step(s.With(i, n).With(i.Peer(), m), i, HandlerStep) == s.With(i, n').With(i.Peer(), m')
  {
  }

  lemma WithBoth(s: System, i: Id)
    ensures s.With(i, s.At(i)).With(i.Peer(), s.At(i.Peer())) == s
  {
  }

  lemma HandlerRunsTwice(s: System, i: Id)
    requires Valid(s)
    ensures
      var (n1, m1) := HandlerNext(s.config, s.At(i), s.At(i.Peer()));
      var (n2, m2) := HandlerNext(s.config, n1, m1);
      Exec(s, [(i, HandlerStep), (i, HandlerStep)]) == s.With(i, n2).With(i.Peer(), m2)
  {
    hide Step, Exec, HandlerNext;
    var n, m := s.At(i), s.At(i.Peer());
    var (n1, m1) := HandlerNext(s.config, n, m);
    WithBoth(s, i);
    HandlerRunsOnce(s, i, n, m);
    HandlerRunsOnce(s, i, n1, m1);
    ExecTwo(s, (i, HandlerStep), (i, HandlerStep));
  }

  lemma ServerRunsThrice(s: System, i: Id)
    requires Valid(s)
    ensures
      var (n1, m1) := ServerNext(s.config, s.At(i), s.At(i.Peer()));
      var (n2, m2) := ServerNext(s.config, n1, m1);
      var (n3, m3) := ServerNext(s.config, n2, m2);
      && Exec(s, [(i, ServerStep), (i, ServerStep)]) == s.With(i, n2).With(i.Peer(), m2)
      && Exec(s, [(i, ServerStep), (i, ServerStep), (i, ServerStep)]) == s.With(i, n3).With(i.Peer(), m3)
  {
    hide Step, Exec, ServerNext;
    var c, n, m, step := s.config, s.At(i), s.At(i.Peer()), (i, ServerStep);
    var (n1, m1) := ServerNext(c, n, m);
    var (n2, m2) := ServerNext(c, n1, m1);
    WithBoth(s, i);
    ServerRunsOnce(s, i, n, m);
    ServerRunsOnce(s, i, n1, m1);
    ServerRunsOnce(s, i, n2, m2);
    ExecTwo(s, step, step);
    ExecThree(s, step, step, step);
  }

  lemma ReadBegins(s: System, i: Id, p: nat)
    requires Valid(s) && p < s.config.pages
    requires var n := s.At(i); n.main.Idle? && n.handler.HIdle? && n.maps[p].Unmapped?
    ensures
      Exec(s, [(i, Start(Read, p)), (i, MainStep)])
        == s.With(i, s.At(i).(main := Busy(Touch, p, Read, false), handler := HCheck(p)))
  {
    ExecTwo(s, (i, Start(Read, p)), (i, MainStep));
    assert s.log + [] == s.log;
  }

  lemma Asks(s: System, i: Id, p: nat)
    requires Valid(s) && p < s.config.pages
    requires
      var n := s.At(i);
      n.main.Idle? && n.handler.HIdle? && n.maps[p].Unmapped? && n.msi[p] == Invalid && n.requests == []
    ensures
      Exec(s, AskSchedule(i, p))
        == s.With(i, s.At(i).(main := Busy(Touch, p, Read, false), handler := HWait(p), requests := [Fetch(p)]))
  {
    hide Step, Exec;
    ReadBegins(s, i, p);
    var s1 := Exec(s, [(i, Start(Read, p)), (i, MainStep)]);
    HandlerRunsTwice(s1, i);
    ExecAppend(s, [(i, Start(Read, p)), (i, MainStep)], [(i, HandlerStep), (i, HandlerStep)]);
  }

  /** The server of `j` answers the one fetch of its peer with its copy. */
  lemma AnswerSteps(c: Config, n: Node, m: Node, p: nat, bytes: seq<Byte>)
    requires ValidNode(c, n) && ValidNode(c, m) && p < c.pages
    requires n.server.SIdle? && n.replies == [] && n.msi[p] != Invalid && n.maps[p] == Mapped(bytes)
    requires m.requests == [Fetch(p)]
    ensures
      var (n1, m1) := ServerNext(c, n, m);
      var (n2, m2) := ServerNext(c, n1, m1);
      var (n3, m3) := ServerNext(c, n2, m2);
      n3 == n.(server := SBody(p), replies := [COPY_FOLLOWS]) && m3 == m.(requests := [])
  {
  }

  lemma AnswerEnds(c: Config, n: Node, m: Node, p: nat, bytes: seq<Byte>)
    requires ValidNode(c, n) && ValidNode(c, m) && p < c.pages
    requires n.server == SBody(p) && n.replies == [COPY_FOLLOWS] && n.maps[p] == Mapped(bytes)
    ensures
      var (n1, m1) := ServerNext(c, n, m);
      var (n2, m2) := ServerNext(c, n1, m1);
      && n2 == n.(server := SIdle, replies := [COPY_FOLLOWS] + bytes, msi := n.msi[p := Shared]) && m2 == m
  {
    assert n.maps[p := Mapped(bytes)] == n.maps;
  }

  lemma Answers(s: System, j: Id, p: nat, bytes: seq<Byte>)
    requires Valid(s) && p < s.config.pages
    requires
      var n, m := s.At(j), s.At(j.Peer());
      && n.server.SIdle? && n.replies == [] && n.msi[p] != Invalid && n.maps[p] == Mapped(bytes)
      && m.requests == [Fetch(p)]
    ensures
      var n, m := s.At(j), s.At(j.Peer());
      Exec(s, AnswerSchedule(j))
        == s.With(j, n.(replies := [COPY_FOLLOWS] + bytes, msi := n.msi[p := Shared]))
            .With(j.Peer(), m.(requests := []))
  {
    hide Step, Exec, ServerNext;
    var n, m := s.At(j), s.At(j.Peer());
    AnswerSteps(s.config, n, m, p, bytes);
    ServerRunsThrice(s, j);
    var three, two := [(j, ServerStep), (j, ServerStep), (j, ServerStep)], [(j, ServerStep), (j, ServerStep)];
    var s1 := Exec(s, three);
    AnswerEnds(s.config, s1.At(j), s1.At(j.Peer()), p, bytes);
    ServerRunsThrice(s1, j);
    ExecAppend(s, three, two);
  }

  lemma ReadsReply(c: Config, n: Node, m: Node, p: nat, bytes: seq<Byte>)
    requires ValidNode(c, n) && ValidNode(c, m) && |bytes| == c.pageSize && p < c.pages
    requires n.handler == HWait(p) && m.replies == [COPY_FOLLOWS] + bytes
    ensures
      var (n1, m1) := HandlerNext(c, n, m);
      var (n2, m2) := HandlerNext(c, n1, m1);
      n2 == n.(handler := HMark(p, bytes)) && m2 == m.(replies := [])
  {
    assert m.replies[1..] == bytes;
    assert bytes[..c.pageSize] == bytes;
  }

  lemma InstallSteps(c: Config, n: Node, m: Node, p: nat, bytes: seq<Byte>)
    requires ValidNode(c, n) && ValidNode(c, m) && p < c.pages && |bytes| == c.pageSize
    requires n.handler == HMark(p, bytes) && n.maps[p].Unmapped?
    ensures
      var (n1, m1) := HandlerNext(c, n, m);
      var (n2, m2) := HandlerNext(c, n1, m1);
      && n2 == n.(msi := n.msi[p := Shared], maps := n.maps[p := Mapped(bytes)], handler := HIdle) && m2 == m
  {
  }

  lemma ReadEnds(s: System, i: Id, p: nat, bytes: seq<Byte>)
    requires Valid(s) && p < s.config.pages
    requires
      var n := s.At(i);
      n.main == Busy(Touch, p, Read, false) && n.handler.HIdle? && n.maps[p] == Mapped(bytes)
    ensures Exec(s, [(i, MainStep)]) == s.With(i, s.At(i).(main := Idle)).(log := s.log + [Saw(i, p, bytes)])
  {
    ExecOne(s, (i, MainStep));
  }

  lemma Installs(s: System, i: Id, p: nat, bytes: seq<Byte>)
    requires Valid(s) && p < s.config.pages && |bytes| == s.config.pageSize
    requires
      var n := s.At(i);
      n.main == Busy(Touch, p, Read, false) && n.handler == HMark(p, bytes) && n.maps[p].Unmapped?
    ensures
      var n := s.At(i);
      var n' := n.(msi := n.msi[p := Shared], maps := n.maps[p := Mapped(bytes)], handler := HIdle, main := Idle);
      Exec(s, InstallSchedule(i)) == s.With(i, n').(log := s.log + [Saw(i, p, bytes)])
  {
    hide Step, Exec, HandlerNext;
    InstallSteps(s.config, s.At(i), s.At(i.Peer()), p, bytes);
    HandlerRunsTwice(s, i);
    var both := [(i, HandlerStep), (i, HandlerStep)];
    ReadEnds(Exec(s, both), i, p, bytes);
    ExecAppend(s, both, [(i, MainStep)]);
  }

  lemma PageIsFetched(s: System, i: Id, p: nat, bytes: seq<Byte>)
    requires Valid(s) && Done(s) && p < s.config.pages
    requires s.At(i).msi[p] == Invalid && s.At(i).maps[p].Unmapped?
    requires s.At(i.Peer()).msi[p] != Invalid && s.At(i.Peer()).maps[p] == Mapped(bytes)
    ensures
      var n, m := s.At(i), s.At(i.Peer());
      Exec(s, FetchSchedule(i, p))
        == s.With(i, n.(main := Busy(Touch, p, Read, false), handler := HMark(p, bytes)))
            .With(i.Peer(), m.(msi := m.msi[p := Shared]))
  {
    hide Step, Exec, HandlerNext, ServerNext;
    var j, two := i.Peer(), [(i, HandlerStep), (i, HandlerStep)];
    var s1 := Exec(s, AskSchedule(i, p));
    Asks(s, i, p);
    var s2 := Exec(s1, AnswerSchedule(j));
    Answers(s1, j, p, bytes);
    ReadsReply(s.config, s2.At(i), s2.At(j), p, bytes);
    HandlerRunsTwice(s2, i);
    ExecAppend(s, AskSchedule(i, p), AnswerSchedule(j));
    ExecAppend(s, AskSchedule(i, p) + AnswerSchedule(j), two);
  }

  /** The peer writes and its invalidation is carried out, whatever `i` is waiting for. */
  lemma IsOutdated(s: System, i: Id, p: nat, message: seq<Byte>)
    requires Valid(s) && p < s.config.pages && |message| < s.config.pageSize
    requires s.At(i).server.SIdle? && NodeDone(s.At(i.Peer())) && s.At(i.Peer()).maps[p].Mapped?
    ensures
      var c, n, m := s.config, s.At(i), s.At(i.Peer());
      Exec(s, WriteSchedule(i.Peer(), p, message) + ServeSchedule(i))
        == s.With(i, n.(msi := n.msi[p := Invalid], maps := n.maps[p := Unmapped]))
            .With(i.Peer(), AfterWrite(c, m, p, message).(requests := []))
            .(log := s.log + WriteEvents(c, i.Peer(), p, message))
  {
    hide Step, Exec, WriteSchedule, ServeSchedule;
    var j := i.Peer();
    WriteRuns(s, j, p, message);
    ServeRuns(Exec(s, WriteSchedule(j, p, message)), i, p);
    ExecAppend(s, WriteSchedule(j, p, message), ServeSchedule(i));
  }

  /** The moment at which the old page is about to be installed. */
  lemma IsFetchedThenOutdated(s: System, i: Id, p: nat, bytes: seq<Byte>, message: seq<Byte>)
    requires Valid(s) && Done(s) && p < s.config.pages && |message| < s.config.pageSize
    requires s.At(i).msi[p] == Invalid && s.At(i).maps[p].Unmapped?
    requires s.At(i.Peer()).msi[p] != Invalid && s.At(i.Peer()).maps[p] == Mapped(bytes)
    ensures
      var s' := Exec(s, FetchSchedule(i, p) + (WriteSchedule(i.Peer(), p, message) + ServeSchedule(i)));
      var n, m := s'.At(i), s'.At(i.Peer());
      && n.main == Busy(Touch, p, Read, false) && n.handler == HMark(p, bytes) && n.maps[p].Unmapped?
      && n.server.SIdle? && n.requests == [] && n.replies == [] && NodeDone(m)
      && m.msi[p] == Modified && m.maps[p] == Mapped(Pad(s.config, message))
      && s'.log == s.log + WriteEvents(s.config, i.Peer(), p, message)
  {
    hide Step, Exec, FetchSchedule, WriteSchedule, ServeSchedule, Pad;
    var fetch, outdate := FetchSchedule(i, p), WriteSchedule(i.Peer(), p, message) + ServeSchedule(i);
    PageIsFetched(s, i, p, bytes);
    IsOutdated(Exec(s, fetch), i, p, message);
    ExecAppend(s, fetch, outdate);
  }

  /**
  From any settled state in which `i` has no copy of page `p` and its peer has one: the run ends
  settled, the peer has the page MODIFIED with its new message, and `i` keeps it SHARED with the
  old bytes, which it has just printed after the write.
  */
  lemma StaleCopySurvives(s: System, i: Id, p: nat, bytes: seq<Byte>, message: seq<Byte>)
    requires Valid(s) && Done(s) && p < s.config.pages && |message| < s.config.pageSize
    requires s.At(i).msi[p] == Invalid && s.At(i).maps[p].Unmapped?
    requires s.At(i.Peer()).msi[p] != Invalid && s.At(i.Peer()).maps[p] == Mapped(bytes)
    ensures
      var s' := Exec(s, StaleRead(i, p, message));
      && Done(s')
      && s'.At(i).msi[p] == Shared && s'.At(i).maps[p] == Mapped(bytes)
      && s'.At(i.Peer()).msi[p] == Modified && s'.At(i.Peer()).maps[p] == Mapped(Pad(s.config, message))
      && s'.log == s.log + WriteEvents(s.config, i.Peer(), p, message) + [Saw(i, p, bytes)]
  {
    hide Step, Exec, FetchSchedule, WriteSchedule, ServeSchedule, InstallSchedule, Pad, WriteEvents;
    var before := FetchSchedule(i, p) + (WriteSchedule(i.Peer(), p, message) + ServeSchedule(i));
    IsFetchedThenOutdated(s, i, p, bytes, message);
    Installs(Exec(s, before), i, p, bytes);
    ExecAppend(s, before, InstallSchedule(i));
  }

  /** Such a read is reachable from the initial state, and the flat array does not have its bytes. */
  lemma ReadCanBeStale(c: Config) returns (run: Schedule)
    requires 2 <= c.pageSize && 1 <= c.pages
    ensures
      var s := Exec(Init(c), run);
      Done(s) && !ReadsFlat(c, s.log)
  {
    hide Step, Exec;
    var write := AllWritten(c);
    var s := Exec(Init(c), write);
    DoneIsQuiet(s, 0);
    QuietFollowsHistory(s, First, 0);
    StaleCopySurvives(s, Second, 0, Pad(c, [1]), [2]);
    ExecAppend(Init(c), write, StaleRead(Second, 0, [2]));
    run := write + StaleRead(Second, 0, [2]);
    var before := s.log + WriteEvents(c, First, 0, [2]);
    var log := before + [Saw(Second, 0, Pad(c, [1]))];
    var wrote, saw := WriteEvents(c, First, 0, [2])[0], WriteEvents(c, First, 0, [2])[1];
    assert before == (s.log + [wrote]) + [saw];
    LogAppend(c, s.log + [wrote], saw, 0);
    LogAppend(c, s.log, wrote, 0);
    assert Pad(c, [1])[0] == 1 && Pad(c, [2])[0] == 2;
    assert log[..|before|] == before && log[|before|].Saw?;
  }
}
