/**
What holds in every interleaving of the six threads, with no assumption about who uses which
page when: replies are framed and matched, faults are answered within a bounded number of
server steps, and two MODIFIED copies never survive once the invalidations are delivered.
*/
module DsmSafety {
  import opened DsmModel

  // ---------- Framing of the two socket directions ----------

  /** The pages asked for in a request stream, oldest first. */
  function Fetches(q: seq<Request>): seq<nat> {
    if q == [] then []
    else if q[0].Fetch? then [q[0].page] + Fetches(q[1..])
    else Fetches(q[1..])
  }

  lemma {:induction false} FetchesAppend(q: seq<Request>, r: Request)
    ensures Fetches(q + [r]) == Fetches(q) + if r.Fetch? then [r.page] else []
  {
    if q == [] {
      assert q + [r] == [r] && [r][1..] == [];
    } else {
      assert (q + [r])[0] == q[0] && (q + [r])[1..] == q[1..] + [r];
      FetchesAppend(q[1..], r);
    }
  }

  /** The server has taken a fetch of `p` and has not yet written an answer byte. */
  predicate Holds(sv: Server, p: nat) {
    sv == SGot(Fetch(p)) || sv == SZero(p) || sv == SOne(p)
  }

  /** The server still owes bytes for a fetch it has taken. */
  predicate Replying(sv: Server) {
    (sv.SGot? && sv.request.Fetch?) || sv.SZero? || sv.SOne? || sv.SBody?
  }

  /** A whole answer: the byte '0', or the byte '1' and exactly one page. */
  predicate WholeAnswer(c: Config, bytes: seq<Byte>) {
    bytes == [NO_COPY] || (|bytes| == 1 + c.pageSize && bytes[0] == COPY_FOLLOWS)
  }

  /**
  The fetch of process `n` and the answer of its peer `m`: at most one is under way, the reply
  stream holds nothing else, and the answer is for the page that `n` waits for.
  */
  predicate Framed(c: Config, n: Node, m: Node) {
    var asked := Fetches(n.requests);
    match n.handler
    case HWait(p) =>
      || (asked == [p] && !Replying(m.server) && m.replies == [])
      || (asked == [] && Holds(m.server, p) && m.replies == [])
      || (asked == [] && m.server == SBody(p) && m.replies == [COPY_FOLLOWS])
      || (asked == [] && !Replying(m.server) && WholeAnswer(c, m.replies))
    case HBody(p) =>
      || (asked == [] && m.server == SBody(p) && m.replies == [])
      || (asked == [] && !Replying(m.server) && |m.replies| == c.pageSize)
    case _ => asked == [] && !Replying(m.server) && m.replies == []
  }

  /** The handler works only for its own main thread, which is stopped at the faulting page. */
  predicate HandlerServesMain(n: Node) {
    !n.handler.HIdle? ==> Touches(n.main) && n.main.page == n.handler.page
  }

  // ---------- Two MODIFIED copies ----------

  /** An invalidation of `p` by `n` is still to be sent, in the stream, or being done by `m`. */
  predicate InvalidationPending(n: Node, m: Node, p: nat) {
    || (n.main.Busy? && n.main.page == p && n.main.stage in {Print, Send})
    || Invalidate(p) in n.requests
    || m.server == SGot(Invalidate(p))
    || m.server == SInvalid(p)
  }

  predicate ModifiedTwiceIsTransient(c: Config, n: Node, m: Node)
    requires ValidNode(c, n) && ValidNode(c, m)
  {
    forall p :: 0 <= p < c.pages && n.msi[p] == Modified && m.msi[p] == Modified ==>
      InvalidationPending(n, m, p) || InvalidationPending(m, n, p)
  }

  // ---------- The invariant of every interleaving ----------

  predicate SafePair(c: Config, n: Node, m: Node) {
    && 0 < c.pageSize && ValidNode(c, n) && ValidNode(c, m)
    && Framed(c, n, m) && Framed(c, m, n)
    && HandlerServesMain(n) && HandlerServesMain(m)
    && ModifiedTwiceIsTransient(c, n, m)
  }

  predicate Safe(s: System) {
    SafePair(s.config, s.first, s.second)
  }

  lemma FramedMain(c: Config, me: Id, n: Node, m: Node)
    requires SafePair(c, n, m)
    ensures Framed(c, MainNext(c, me, n).0, m) && Framed(c, m, MainNext(c, me, n).0)
  {
    if n.main.Busy? {
      FetchesAppend(n.requests, Invalidate(n.main.page));
    }
  }

  lemma FramedHandler(c: Config, n: Node, m: Node)
    requires SafePair(c, n, m)
    ensures Framed(c, HandlerNext(c, n, m).0, HandlerNext(c, n, m).1)
    ensures Framed(c, HandlerNext(c, n, m).1, HandlerNext(c, n, m).0)
  {
    if n.handler.HAsk? {
      FetchesAppend(n.requests, Fetch(n.handler.page));
    }
  }

  lemma FramedTake(c: Config, n: Node, m: Node)
    requires SafePair(c, n, m) && n.server.SIdle?
    ensures Framed(c, ServerNext(c, n, m).1, ServerNext(c, n, m).0)
  {
    if m.requests != [] {
      var asked, rest := Fetches(m.requests), Fetches(m.requests[1..]);
      if m.requests[0].Fetch? {
        assert asked[0] == m.requests[0].page && rest == asked[1..];
      } else {
        assert rest == asked;
      }
    }
  }

  lemma FramedServer(c: Config, n: Node, m: Node)
    requires SafePair(c, n, m)
    ensures Framed(c, ServerNext(c, n, m).1, ServerNext(c, n, m).0)
  {
    if n.server.SIdle? {
      FramedTake(c, n, m);
    } else if Replying(n.server) {
      assert m.handler.HWait? || m.handler.HBody?;
    }
  }

  /** Pending invalidations and the pages they excuse, across one step of either process. */
  lemma ModifiedTwiceKept(c: Config, n: Node, m: Node, n': Node, m': Node)
    requires ValidNode(c, n) && ValidNode(c, m) && ValidNode(c, n') && ValidNode(c, m')
    requires ModifiedTwiceIsTransient(c, n, m)
    requires forall p :: 0 <= p < c.pages && n'.msi[p] == Modified && m'.msi[p] == Modified ==>
      || InvalidationPending(n', m', p)
      || InvalidationPending(m', n', p)
      || (&& n.msi[p] == Modified && m.msi[p] == Modified
          && (InvalidationPending(n, m, p) ==> InvalidationPending(n', m', p))
          && (InvalidationPending(m, n, p) ==> InvalidationPending(m', n', p)))
    ensures ModifiedTwiceIsTransient(c, n', m')
  {
  }

  lemma SafeMain(c: Config, me: Id, n: Node, m: Node)
    requires SafePair(c, n, m)
    ensures SafePair(c, MainNext(c, me, n).0, m)
  {
    FramedMain(c, me, n, m);
    hide Framed, ModifiedTwiceIsTransient;
    var n' := MainNext(c, me, n).0;
    ModifiedTwiceKept(c, n, m, n', m);
  }

  lemma HandlerKeepsDiscipline(c: Config, n: Node, m: Node)
    requires ValidNode(c, n) && ValidNode(c, m) && HandlerServesMain(n) && HandlerServesMain(m)
    ensures var (n', m') := HandlerNext(c, n, m); HandlerServesMain(n') && HandlerServesMain(m')
  {
  }

  lemma HandlerAtPage(c: Config, n: Node, m: Node, p: nat)
    requires ValidNode(c, n) && ValidNode(c, m) && p < c.pages
    ensures
      var (n', m') := HandlerNext(c, n, m);
      && (n'.msi[p] == Modified ==> n.msi[p] == Modified) && m'.msi[p] == m.msi[p]
      && (InvalidationPending(n, m, p) ==> InvalidationPending(n', m', p))
      && (InvalidationPending(m, n, p) ==> InvalidationPending(m', n', p))
  {
  }

  lemma HandlerKeepsInvalidations(c: Config, n: Node, m: Node)
    requires ValidNode(c, n) && ValidNode(c, m) && ModifiedTwiceIsTransient(c, n, m)
    ensures var (n', m') := HandlerNext(c, n, m); ModifiedTwiceIsTransient(c, n', m')
  {
    hide HandlerNext, InvalidationPending;
    var (n', m') := HandlerNext(c, n, m);
    forall p | 0 <= p < c.pages && n'.msi[p] == Modified && m'.msi[p] == Modified
      ensures InvalidationPending(n', m', p) || InvalidationPending(m', n', p)
    {
      HandlerAtPage(c, n, m, p);
    }
  }

  lemma SafeHandler(c: Config, n: Node, m: Node)
    requires SafePair(c, n, m)
    ensures SafePair(c, HandlerNext(c, n, m).0, HandlerNext(c, n, m).1)
  {
    hide Framed, ModifiedTwiceIsTransient, HandlerServesMain, HandlerNext;
    FramedHandler(c, n, m);
    HandlerKeepsDiscipline(c, n, m);
    HandlerKeepsInvalidations(c, n, m);
  }

  /** The server does not touch the fault of its own process. */
  lemma ServerKeepsOwnFault(c: Config, n: Node, m: Node)
    requires ValidNode(c, n) && ValidNode(c, m)
    ensures
      var (n', m') := ServerNext(c, n, m);
      && Framed(c, n', m') == Framed(c, n, m)
      && HandlerServesMain(n') == HandlerServesMain(n) && HandlerServesMain(m') == HandlerServesMain(m)
  {
  }

  lemma ServerKeepsInvalidations(c: Config, n: Node, m: Node)
    requires ValidNode(c, n) && ValidNode(c, m) && ModifiedTwiceIsTransient(c, n, m)
    ensures var (n', m') := ServerNext(c, n, m); ModifiedTwiceIsTransient(c, n', m')
  {
    hide ModifiedTwiceIsTransient;
    var (n', m') := ServerNext(c, n, m);
    ModifiedTwiceKept(c, n, m, n', m');
  }

  lemma SafeServer(c: Config, n: Node, m: Node)
    requires SafePair(c, n, m)
    ensures SafePair(c, ServerNext(c, n, m).0, ServerNext(c, n, m).1)
  {
    hide Framed, ModifiedTwiceIsTransient, HandlerServesMain, ServerNext;
    FramedServer(c, n, m);
    ServerKeepsOwnFault(c, n, m);
    ServerKeepsInvalidations(c, n, m);
  }

  lemma SafeStart(c: Config, n: Node, m: Node, op: Op, which: int)
    requires SafePair(c, n, m)
    ensures SafePair(c, StartNext(c, n, op, which), m)
  {
    ModifiedTwiceKept(c, n, m, StartNext(c, n, op, which), m);
  }

  lemma SafeSwap(c: Config, n: Node, m: Node)
    requires SafePair(c, n, m)
    ensures SafePair(c, m, n)
  {
  }

  lemma SafeStep(s: System, i: Id, a: Action)
    requires Safe(s)
    ensures Safe(Step(s, i, a))
  {
    var c, n, m := s.config, s.At(i), s.At(i.Peer());
    if i.Second? { SafeSwap(c, s.first, s.second); }
    match a {
      case Start(op, which) => SafeStart(c, n, m, op, which);
      case MainStep => SafeMain(c, i, n, m);
      case HandlerStep => SafeHandler(c, n, m);
      case ServerStep => SafeServer(c, n, m);
    }
    var s' := Step(s, i, a);
    if i.Second? { SafeSwap(c, s'.second, s'.first); }
  }

  lemma {:induction false} SafeExec(s: System, sched: Schedule)
    requires Safe(s)
    ensures Safe(Exec(s, sched))
    decreases |sched|
  {
    if sched != [] {
      SafeStep(s, sched[0].0, sched[0].1);
      SafeExec(Step(s, sched[0].0, sched[0].1), sched[1..]);
    }
  }

  // ---------- Main results ----------

  lemma EveryRunIsSafe(c: Config, sched: Schedule)
    requires 0 < c.pageSize
    ensures Safe(Exec(Init(c), sched))
  {
    SafeExec(Init(c), sched);
  }

  predicate Waiting(n: Node) {
    n.handler.HWait? || n.handler.HBody?
  }

  /** Fetches of `n` that are under way: asked for, being answered, or answered and unread. */
  function Outstanding(n: Node, m: Node): nat {
    |Fetches(n.requests)|
    + (if Replying(m.server) then 1 else 0)
    + (if m.replies != [] && !Replying(m.server) then 1 else 0)
  }

  /** The page of the fetch that the server is answering. */
  function PageServed(sv: Server): nat
    requires Replying(sv)
  {
    if sv.SGot? then sv.request.page else sv.page
  }

  /**
  In every run a process has exactly one fetch under way while its handler waits and none
  otherwise; that fetch, and the answer that the peer's server is writing, are for the page that
  faulted; what the handler finds in its reply stream is a whole answer or the start of one, and
  the stream is empty whenever no fault is waiting.
  */
  lemma RepliesAreMatched(c: Config, sched: Schedule, i: Id)
    requires 0 < c.pageSize
    ensures
      var s := Exec(Init(c), sched);
      var n, m := s.At(i), s.At(i.Peer());
      && Outstanding(n, m) == (if Waiting(n) then 1 else 0)
      && (Waiting(n) ==> Fetches(n.requests) in {[], [n.handler.page]})
      && (Waiting(n) && Replying(m.server) ==> PageServed(m.server) == n.handler.page)
      && (!Waiting(n) ==> m.replies == [])
      && (n.handler.HWait? && m.replies != [] && !Replying(m.server) ==>
            m.replies == ['0' as int] || (|m.replies| == 1 + c.pageSize && m.replies[0] == '1' as int))
      && (n.handler.HBody? && m.replies != [] ==> |m.replies| == c.pageSize)
  {
    EveryRunIsSafe(c, sched);
  }

  /** A wait that ends has taken everything from its reply stream: a '0', or exactly one page. */
  lemma AnswerIsReadWhole(c: Config, sched: Schedule, i: Id)
    requires 0 < c.pageSize
    requires var s := Exec(Init(c), sched); Waiting(s.At(i)) && !Waiting(Step(s, i, HandlerStep).At(i))
    ensures
      var s := Exec(Init(c), sched);
      var s' := Step(s, i, HandlerStep);
      && s'.At(i.Peer()).replies == []
      && s'.At(i).handler.HMark?
      && s'.At(i).handler.page == s.At(i).handler.page
      && |s'.At(i).handler.data| == c.pageSize
      && (s.At(i).handler.HWait? ==>
            && s.At(i.Peer()).replies == ['0' as int]
            && forall k :: 0 <= k < c.pageSize ==> s'.At(i).handler.data[k] == 0)
      && (s.At(i).handler.HBody? ==> s'.At(i).handler.data == s.At(i.Peer()).replies)
  {
    EveryRunIsSafe(c, sched);
  }

  /** Two MODIFIED copies: one of the two invalidations is unsent, in its stream or being done. */
  lemma ModifiedTwiceIsAnnounced(c: Config, sched: Schedule, p: nat)
    requires 0 < c.pageSize && p < c.pages
    requires var s := Exec(Init(c), sched); s.first.msi[p] == Modified && s.second.msi[p] == Modified
    ensures
      var s := Exec(Init(c), sched);
      exists i: Id ::
        || (s.At(i).main.Busy? && s.At(i).main.page == p && s.At(i).main.stage in {Print, Send})
        || Invalidate(p) in s.At(i).requests
        || s.At(i.Peer()).server in {SGot(Invalidate(p)), SInvalid(p)}
  {
    EveryRunIsSafe(c, sched);
    var s := Exec(Init(c), sched);
    var i := if InvalidationPending(s.first, s.second, p) then First else Second;
    assert InvalidationPending(s.At(i), s.At(i.Peer()), p);
  }

  /** Whatever raced before, once everything is delivered a page has at most one MODIFIED copy. */
  lemma SettledSingleWriter(c: Config, sched: Schedule, p: nat)
    requires 0 < c.pageSize && p < c.pages
    requires
      var s := Exec(Init(c), sched);
      && s.first.requests == [] && s.first.server.SIdle? && !s.first.main.Busy?
      && s.second.requests == [] && s.second.server.SIdle? && !s.second.main.Busy?
    ensures var s := Exec(Init(c), sched); !(s.first.msi[p] == Modified && s.second.msi[p] == Modified)
  {
    EveryRunIsSafe(c, sched);
    var s := Exec(Init(c), sched);
    assert !InvalidationPending(s.first, s.second, p);
    assert !InvalidationPending(s.second, s.first, p);
  }
}
