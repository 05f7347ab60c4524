/**
Every fault is answered, after a number of server turns that the position of its fetch in the
request stream fixes exactly: no other thread, and no traffic behind the fetch, can change it.
*/
module DsmProgress {
  import opened DsmModel
  import opened DsmSafety

  /** The answer to the fault of `n` is completely in the stream. */
  predicate Answered(c: Config, n: Node, m: Node) {
    || (n.handler.HWait? && WholeAnswer(c, m.replies))
    || (n.handler.HBody? && |m.replies| == c.pageSize)
  }

  predicate AnsweredIn(s: System, i: Id) {
    Answered(s.config, s.At(i), s.At(i.Peer()))
  }

  // ---------- Distances ----------

  /** Turns of the server's loop up to the one that takes the fetch; 0 if no fetch is queued. */
  function TurnsLeft(q: seq<Request>): nat {
    if Fetches(q) == [] then 0
    else if q[0].Fetch? then 1
    else 1 + TurnsLeft(q[1..])
  }

  /**
  A lower and an upper count of server steps. What is not known beforehand is the answer: a
  fetch costs three steps if the server finds the page INVALID and four if it has to send it.
  */
  datatype Bound = AtLeast | AtMost {
    function Fetch(): nat { if AtLeast? then 3 else 4 }
  }

  /** Server steps that take and answer the oldest fetch of a request stream. */
  function AnswerCost(q: seq<Request>, b: Bound): nat
    requires Fetches(q) != []
  {
    if q[0].Fetch? then b.Fetch() else 3 + AnswerCost(q[1..], b)
  }

  /** Server steps left for the request that the server has taken. */
  function ServerWork(sv: Server, b: Bound): nat {
    match sv
    case SIdle => 0
    case SGot(Fetch(_)) => b.Fetch() - 1
    case SGot(Invalidate(_)) => 2
    case SZero(_) => 1
    case SOne(_) => 2
    case SBody(_) => 1
    case SShare(_) => 1
    case SInvalid(_) => 1
  }

  /** Steps of the server of `m` up to the answer that `n` waits for. */
  function Rank(n: Node, m: Node, b: Bound): nat {
    if Fetches(n.requests) != [] then ServerWork(m.server, b) + AnswerCost(n.requests, b)
    else if Replying(m.server) then ServerWork(m.server, b)
    else 0
  }

  lemma {:induction false} FetchIsCounted(q: seq<Request>, k: nat)
    requires k < |q| && q[k].Fetch?
    ensures Fetches(q) != []
  {
    if k > 0 {
      FetchIsCounted(q[1..], k - 1);
    }
  }

  /** A stream with one fetch has only invalidations in front of it. */
  lemma {:induction false} OnlyFetch(q: seq<Request>, k: nat)
    requires |Fetches(q)| <= 1 && k < |q| && q[k].Fetch?
    ensures forall j :: 0 <= j < k ==> q[j].Invalidate?
  {
    if k > 0 {
      FetchIsCounted(q[1..], k - 1);
      OnlyFetch(q[1..], k - 1);
      assert forall j :: 0 < j < k ==> q[j] == q[1..][j - 1];
    }
  }

  /** A fetch behind `k` invalidations is taken in turn `k + 1`. */
  lemma {:induction false} DistanceByPosition(q: seq<Request>, k: nat, b: Bound)
    requires k < |q| && q[k].Fetch? && forall j :: 0 <= j < k ==> q[j].Invalidate?
    ensures Fetches(q) != [] && TurnsLeft(q) == k + 1 && AnswerCost(q, b) == 3 * k + b.Fetch()
  {
    if k > 0 {
      DistanceByPosition(q[1..], k - 1, b);
    }
  }

  // ---------- One step ----------

  /** This step begins a turn of the server that works for process `i`. */
  predicate Takes(s: System, i: Id, j: Id, a: Action) {
    j == i.Peer() && a.ServerStep? && s.At(j).server.SIdle? && s.At(i).requests != []
  }

  /** This step runs the server that works for process `i`. */
  predicate Serves(i: Id, j: Id, a: Action) {
    j == i.Peer() && a.ServerStep?
  }

  lemma ServerStepDistance(c: Config, n: Node, m: Node)
    requires SafePair(c, n, m) && Waiting(n) && !Answered(c, n, m)
    ensures
      var (m', n') := ServerNext(c, m, n);
      && Waiting(n')
      && TurnsLeft(n'.requests) == TurnsLeft(n.requests) - (if m.server.SIdle? && n.requests != [] then 1 else 0)
      && Rank(n', m', AtMost) <= Rank(n, m, AtMost) - 1
      && Rank(n', m', AtLeast) >= Rank(n, m, AtLeast) - 1
  {
    if m.server.SIdle? {
      assert Fetches(n.requests) != [];
    }
  }

  /** The distances are the same. */
  predicate SameDistance(n: Node, m: Node, n': Node, m': Node) {
    && Waiting(n')
    && TurnsLeft(n'.requests) == TurnsLeft(n.requests)
    && forall b: Bound :: Rank(n', m', b) == Rank(n, m, b)
  }

  lemma OwnStepsKeepDistance(c: Config, me: Id, n: Node, m: Node)
    requires ValidNode(c, n) && ValidNode(c, m) && HandlerServesMain(n) && Waiting(n)
    ensures MainNext(c, me, n).0 == n
    ensures var (n', m') := ServerNext(c, n, m); SameDistance(n, m, n', m')
  {
  }

  lemma OwnHandlerKeepsDistance(c: Config, n: Node, m: Node)
    requires SafePair(c, n, m) && Waiting(n) && !Answered(c, n, m)
    ensures var (n', m') := HandlerNext(c, n, m); SameDistance(n, m, n', m')
  {
  }

  lemma PeerStepsKeepDistance(c: Config, me: Id, n: Node, m: Node)
    requires ValidNode(c, n) && ValidNode(c, m) && Waiting(n)
    ensures var m' := MainNext(c, me, m).0; SameDistance(n, m, n, m')
    ensures var (m', n') := HandlerNext(c, m, n); SameDistance(n, m, n', m')
  {
  }

  lemma OwnStepDistance(s: System, i: Id, a: Action)
    requires Safe(s) && Waiting(s.At(i)) && !AnsweredIn(s, i)
    ensures
      var s' := Step(s, i, a);
      SameDistance(s.At(i), s.At(i.Peer()), s'.At(i), s'.At(i.Peer()))
  {
    var n, m := s.At(i), s.At(i.Peer());
    if i.Second? { SafeSwap(s.config, s.first, s.second); }
    hide Answered, SameDistance, MainNext, HandlerNext, ServerNext;
    if a.HandlerStep? {
      OwnHandlerKeepsDistance(s.config, n, m);
    } else {
      OwnStepsKeepDistance(s.config, i, n, m);
    }
  }

  lemma PeerStepDistance(s: System, i: Id, a: Action)
    requires Safe(s) && Waiting(s.At(i)) && !AnsweredIn(s, i)
    ensures
      var j := i.Peer();
      var n, m, n', m' := s.At(i), s.At(j), Step(s, j, a).At(i), Step(s, j, a).At(j);
      && Waiting(n')
      && TurnsLeft(n'.requests) == TurnsLeft(n.requests) - (if Takes(s, i, j, a) then 1 else 0)
      && (a.ServerStep? ==>
            && Rank(n', m', AtMost) <= Rank(n, m, AtMost) - 1
            && Rank(n', m', AtLeast) >= Rank(n, m, AtLeast) - 1)
      && (!a.ServerStep? ==> SameDistance(n, m, n', m'))
  {
    var j := i.Peer();
    var n, m := s.At(i), s.At(j);
    if i.Second? { SafeSwap(s.config, s.first, s.second); }
    hide Answered, MainNext, HandlerNext, ServerNext, TurnsLeft;
    if a.ServerStep? {
      ServerStepDistance(s.config, n, m);
    } else {
      PeerStepsKeepDistance(s.config, j, n, m);
    }
  }

  /**
  The distance in turns falls by exactly one when the peer's server takes a request, and no
  other step of any thread changes it. The two step counts enclose what is left: every step of
  that server lowers the upper one and takes at most one off the lower one.
  */
  lemma StepDistance(s: System, i: Id, j: Id, a: Action)
    requires Safe(s) && Waiting(s.At(i)) && !AnsweredIn(s, i)
    ensures
      var n, m, n', m' := s.At(i), s.At(i.Peer()), Step(s, j, a).At(i), Step(s, j, a).At(i.Peer());
      && Waiting(n')
      && TurnsLeft(n'.requests) == TurnsLeft(n.requests) - (if Takes(s, i, j, a) then 1 else 0)
      && (Serves(i, j, a) ==>
            && Rank(n', m', AtMost) <= Rank(n, m, AtMost) - 1
            && Rank(n', m', AtLeast) >= Rank(n, m, AtLeast) - 1)
      && (!Serves(i, j, a) ==> SameDistance(n, m, n', m'))
  {
    hide Safe, AnsweredIn, Rank, TurnsLeft, Step;
    if j == i {
      OwnStepDistance(s, i, a);
    } else {
      PeerStepDistance(s, i, a);
    }
  }

  // ---------- Whole schedules ----------

  /** How many turns the server that works for `i` begins during a schedule. */
  function Turns(s: System, i: Id, sched: Schedule): nat
    requires Valid(s)
    decreases |sched|
  {
    if sched == [] then 0
    else
      (if Takes(s, i, sched[0].0, sched[0].1) then 1 else 0)
      + Turns(Step(s, sched[0].0, sched[0].1), i, sched[1..])
  }

  /** How many steps it takes. */
  function ServerSteps(i: Id, sched: Schedule): nat {
    if sched == [] then 0
    else (if Serves(i, sched[0].0, sched[0].1) then 1 else 0) + ServerSteps(i, sched[1..])
  }

  /** The answer is complete at the end of the schedule and at no moment before. */
  predicate AnsweredFirst(s: System, i: Id, sched: Schedule)
    requires Valid(s)
  {
    && AnsweredIn(Exec(s, sched), i)
    && forall k :: 0 <= k < |sched| ==> !AnsweredIn(Exec(s, sched[..k]), i)
  }

  lemma AnsweredFirstTail(s: System, i: Id, sched: Schedule)
    requires Valid(s) && sched != []
    ensures AnsweredFirst(s, i, sched) <==>
      !AnsweredIn(s, i) && AnsweredFirst(Step(s, sched[0].0, sched[0].1), i, sched[1..])
  {
    hide AnsweredIn, Step;
    var s', rest := Step(s, sched[0].0, sched[0].1), sched[1..];
    assert sched[..0] == [];
    forall k | 0 <= k < |rest|
      ensures Exec(s, sched[..k + 1]) == Exec(s', rest[..k])
    {
      assert sched[..k + 1][1..] == rest[..k];
    }
    if AnsweredFirst(s, i, sched) {
      assert !AnsweredIn(Exec(s, sched[..0]), i);
      forall k | 0 <= k < |rest|
        ensures !AnsweredIn(Exec(s', rest[..k]), i)
      {
        assert !AnsweredIn(Exec(s, sched[..k + 1]), i);
      }
    }
    if !AnsweredIn(s, i) && AnsweredFirst(s', i, rest) {
      forall k | 0 <= k < |sched|
        ensures !AnsweredIn(Exec(s, sched[..k]), i)
      {
        if k > 0 {
          assert !AnsweredIn(Exec(s', rest[..k - 1]), i);
        }
      }
    }
  }

  lemma AnsweredIsNear(s: System, i: Id)
    requires Safe(s) && Waiting(s.At(i))
    ensures Valid(s)
    ensures
      var n, m := s.At(i), s.At(i.Peer());
      && (AnsweredIn(s, i) ==> TurnsLeft(n.requests) == 0 && forall b: Bound :: Rank(n, m, b) == 0)
      && (!AnsweredIn(s, i) ==> Rank(n, m, AtMost) > 0)
  {
    if i.Second? { SafeSwap(s.config, s.first, s.second); }
  }

  /**
  However the six threads are scheduled: when the answer to a waiting handler becomes complete,
  the peer's server has begun exactly as many turns as the fetch was away, and has run for a
  number of steps between the two counts, which differ by the one step of sending a page.
  */
  lemma {:induction false} AnsweredAfterExactly(s: System, i: Id, sched: Schedule)
    requires Safe(s) && Waiting(s.At(i)) && AnsweredFirst(s, i, sched)
    ensures Turns(s, i, sched) == TurnsLeft(s.At(i).requests)
    ensures Rank(s.At(i), s.At(i.Peer()), AtLeast) <= ServerSteps(i, sched) <= Rank(s.At(i), s.At(i.Peer()), AtMost)
    decreases |sched|
  {
    hide Safe, Rank, TurnsLeft, Step, Takes, Serves, AnsweredIn;
    AnsweredIsNear(s, i);
    if sched != [] {
      var x := sched[0];
      AnsweredFirstTail(s, i, sched);
      hide AnsweredFirst;
      StepDistance(s, i, x.0, x.1);
      SafeStep(s, x.0, x.1);
      AnsweredAfterExactly(Step(s, x.0, x.1), i, sched[1..]);
    }
  }

  /** A schedule that runs the peer's server often enough does complete the answer. */
  lemma {:induction false} WaitingIsAnswered(s: System, i: Id, sched: Schedule) returns (k: nat)
    requires Safe(s) && Waiting(s.At(i))
    requires ServerSteps(i, sched) >= Rank(s.At(i), s.At(i.Peer()), AtMost)
    ensures k <= |sched| && AnsweredFirst(s, i, sched[..k])
    decreases |sched|
  {
    hide Safe, Rank, TurnsLeft, Step, Takes, Serves;
    AnsweredIsNear(s, i);
    k := 0;
    if AnsweredIn(s, i) {
      assert sched[..0] == [];
    } else {
      var x := sched[0];
      StepDistance(s, i, x.0, x.1);
      SafeStep(s, x.0, x.1);
      assert Valid(Step(s, x.0, x.1));
      var rest := WaitingIsAnswered(Step(s, x.0, x.1), i, sched[1..]);
      k := rest + 1;
      assert sched[..k][1..] == sched[1..][..rest];
      AnsweredFirstTail(s, i, sched[..k]);
    }
  }

  /**
  The fetch protocol as a whole, in every run: a handler that waits for a fetch with `k` requests
  in front of it, while the peer's server is between turns, has its answer after exactly `k + 1`
  turns of that server, which are three steps for each of those requests and three or four more.
  */
  lemma FetchTakesItsTurn(c: Config, run: Schedule, i: Id, k: nat, sched: Schedule)
    requires 0 < c.pageSize
    requires
      var n := Exec(Init(c), run).At(i);
      Waiting(n) && k < |n.requests| && n.requests[k].Fetch?
    requires AnsweredFirst(Exec(Init(c), run), i, sched)
    ensures
      var s := Exec(Init(c), run);
      && Turns(s, i, sched) == k + 1
      && (s.At(i.Peer()).server.SIdle? ==> 3 * k + 3 <= ServerSteps(i, sched) <= 3 * k + 4)
  {
    hide Step, Exec, AnsweredFirst, Turns, ServerSteps;
    var s := Exec(Init(c), run);
    EveryRunIsSafe(c, run);
    AnsweredAfterExactly(s, i, sched);
    OnlyFetch(s.At(i).requests, k);
    DistanceByPosition(s.At(i).requests, k, AtLeast);
    DistanceByPosition(s.At(i).requests, k, AtMost);
  }
}
