/**
Runs that are serialised per page: a command on a page begins only when no command, fault or
message about that page is under way. Commands and messages about other pages overlap freely.
In these runs the two processes behave as one flat array of pages.
*/
module DsmCoherence {
  import opened DsmModel
  import opened DsmSafety

  // ---------- Serialised runs ----------

  /** The requests of a stream that are about page `p`. */
  function About(q: seq<Request>, p: nat): seq<Request> {
    if q == [] then []
    else if q[0].page == p then [q[0]] + About(q[1..], p)
    else About(q[1..], p)
  }

  predicate ServerAt(sv: Server, p: nat) {
    match sv
    case SIdle => false
    case SGot(r) => r.page == p
    case _ => sv.page == p
  }

  /** Process `n` has no command, fault, request or served request about page `p`. */
  predicate QuietAt(n: Node, p: nat) {
    && !(n.main.Busy? && n.main.page == p)
    && !(!n.handler.HIdle? && n.handler.page == p)
    && !ServerAt(n.server, p)
    && About(n.requests, p) == []
  }

  predicate Quiet(s: System, p: nat) {
    QuietAt(s.first, p) && QuietAt(s.second, p)
  }

  /**
  The page on which this step begins a command, or -1. Reading or writing all pages begins one
  command per page, in order.
  */
  function Begins(c: Config, n: Node, a: Action): (p: int)
    ensures -1 <= p < c.pages
  {
    match a
    case Start(op, which) =>
      if n.main.Idle? && ValidOp(c, op) && 0 <= which < c.pages then which else -1
    case MainStep => if n.main.Loop? && n.main.next < c.pages then n.main.next else -1
    case _ => -1
  }

  function SerialStep(s: System, i: Id, a: Action): (r: System)
    requires Valid(s)
    ensures Valid(r) && r.config == s.config
  {
    var p := Begins(s.config, s.At(i), a);
    if p >= 0 && !Quiet(s, p) then s else Step(s, i, a)
  }

  function ExecSerial(s: System, sched: Schedule): (r: System)
    requires Valid(s)
    ensures Valid(r) && r.config == s.config
    decreases |sched|
  {
    if sched == [] then s
    else ExecSerial(SerialStep(s, sched[0].0, sched[0].1), sched[1..])
  }

  // ---------- The flat memory that a log describes ----------

  /** The bytes of page `p` in one flat array after the writes of the log. */
  function Flat(c: Config, log: seq<Event>, p: nat): seq<Byte> {
    if log == [] then Zeros(c)
    else
      var e := log[|log| - 1];
      if e.Wrote? && e.page == p then e.bytes else Flat(c, log[..|log| - 1], p)
  }

  /** Every look at a page shows what the flat array holds at that moment. */
  predicate ReadsFlat(c: Config, log: seq<Event>) {
    forall k :: 0 <= k < |log| && log[k].Saw? ==> log[k].bytes == Flat(c, log[..k], log[k].page)
  }

  /** Who may hold a page: nobody yet, its last writer alone, or both. */
  datatype History = Untouched | Owned(owner: Id) | Common

  function HistoryOf(log: seq<Event>, p: nat): History {
    if log == [] then Untouched
    else
      var e, h := log[|log| - 1], HistoryOf(log[..|log| - 1], p);
      if e.page != p then h
      else if e.Wrote? then Owned(e.node)
      else if h == Owned(e.node) then h
      else Common
  }

  // ---------- What one page sees of the system ----------

  /** The part of process `n` that concerns one page; `incoming` waits for its handler. */
  datatype Side = Side(
    msi: Msi,
    copy: Mapping,
    main: Main,
    handler: Handler,
    server: Server,
    requests: seq<Request>,
    incoming: seq<Byte>)

  function SideOf(c: Config, n: Node, m: Node, p: nat): Side
    requires ValidNode(c, n) && p < c.pages
  {
    var faulting := !n.handler.HIdle? && n.handler.page == p;
    Side(
      n.msi[p],
      n.maps[p],
      if n.main.Busy? && n.main.page == p then n.main else Idle,
      if faulting then n.handler else HIdle,
      if ServerAt(n.server, p) then n.server else SIdle,
      About(n.requests, p),
      if faulting then m.replies else [])
  }

  /** The state of the page once the server has finished marking it SHARED. */
  function Effective(x: Side): Msi {
    if x.server.SShare? then Shared else x.msi
  }

  predicate Lagging(x: Side) {
    x.server.SIdle? || x.server.SShare?
  }

  /** A SHARED page holds the flat bytes; it may be unmapped only while these are zero. */
  predicate Holding(c: Config, copy: Mapping, flat: seq<Byte>) {
    copy == Mapped(flat) || (copy.Unmapped? && flat == Zeros(c))
  }

  /** The MSI cells and the mappings that go with a history, seen from process `i`. */
  predicate Agrees(c: Config, i: Id, h: History, mine: Msi, copy: Mapping, other: Msi, otherCopy: Mapping,
                   flat: seq<Byte>)
  {
    match h
    case Untouched =>
      mine == Invalid && other == Invalid && copy.Unmapped? && otherCopy.Unmapped? && flat == Zeros(c)
    case Owned(o) =>
      if o == i then
        mine == Modified && copy == Mapped(flat) && other == Invalid && otherCopy.Unmapped?
      else
        other == Modified && otherCopy == Mapped(flat) && mine == Invalid && copy.Unmapped?
    case Common =>
      && mine == Shared && other == Shared
      && Holding(c, copy, flat) && Holding(c, otherCopy, flat)
      && (copy.Mapped? || otherCopy.Mapped?)
  }

  /** No command and no request about the page is under way. */
  predicate Resting(c: Config, i: Id, x: Side, y: Side, h: History, flat: seq<Byte>) {
    && Passive(x) && Passive(y) && Lagging(x) && Lagging(y) && (x.server.SIdle? || y.server.SIdle?)
    && Agrees(c, i, h, Effective(x), x.copy, Effective(y), y.copy, flat)
  }

  predicate Passive(x: Side) {
    x.main.Idle? && x.handler.HIdle? && x.requests == []
  }

  /** The command is looking at the page; no fault is under way. */
  predicate Looking(c: Config, i: Id, x: Side, y: Side, h: History, flat: seq<Byte>) {
    && x.main.Busy? && x.main.stage in {Touch, Echo}
    && x.handler.HIdle? && x.requests == [] && Lagging(y)
    && (y.server.SShare? ==> x.copy.Mapped?)
    && (|| Agrees(c, i, h, x.msi, x.copy, Effective(y), y.copy, flat)
        || (x.msi == Shared && x.copy == Mapped(flat) && Served(c, i, y, h, flat)))
  }

  /** The peer has answered a fetch and both are about to share the page. */
  predicate Served(c: Config, i: Id, y: Side, h: History, flat: seq<Byte>) {
    Lagging(y) && Effective(y) == Shared && Holding(c, y.copy, flat) && h != Owned(i)
  }

  /** The command is stopped in a fault on the page. */
  predicate Faulting(c: Config, i: Id, x: Side, y: Side, h: History, flat: seq<Byte>) {
    var before := Agrees(c, i, h, x.msi, x.copy, y.msi, y.copy, flat);
    && x.main.Busy? && x.main.stage in {Touch, Echo} && x.copy.Unmapped?
    && match x.handler
       case HIdle => false
       case HCheck(_) => x.requests == [] && y.server.SIdle? && before
       case HAsk(_) => x.requests == [] && y.server.SIdle? && before && x.msi == Invalid
       case HWait(p) => x.msi == Invalid &&
         if x.requests != [] then
           x.requests == [Fetch(p)] && y.server.SIdle? && x.incoming == [] && before
         else if Lagging(y) then
           && Served(c, i, y, h, flat)
           && (|| (x.incoming == [NO_COPY] && flat == Zeros(c))
               || x.incoming == [COPY_FOLLOWS] + flat)
         else
           && before
           && (|| (x.incoming == [] && y.server == SGot(Fetch(p)))
               || (x.incoming == [] && y.server == SZero(p) && y.msi == Invalid)
               || (x.incoming == [] && y.server == SOne(p) && y.msi != Invalid)
               || (x.incoming == [COPY_FOLLOWS] && y.server == SBody(p) && y.msi != Invalid))
       case HBody(p) => x.msi == Invalid && x.requests == [] &&
         if Lagging(y) then Served(c, i, y, h, flat) && x.incoming == flat
         else before && x.incoming == [] && y.server == SBody(p) && y.msi != Invalid
       case HMark(_, data) =>
         x.msi == Invalid && x.requests == [] && data == flat && Served(c, i, y, h, flat)
       case HCopy(_, data) =>
         x.msi == Shared && x.requests == [] && data == flat && Served(c, i, y, h, flat)
  }

  /** The page is written and the invalidation not yet sent. */
  predicate Publishing(i: Id, x: Side, y: Side, h: History, flat: seq<Byte>) {
    && x.main.Busy? && x.main.stage in {Mark, Print, Send}
    && x.handler.HIdle? && x.requests == [] && Lagging(y)
    && x.copy == Mapped(flat) && h == Owned(i) && x.msi != Invalid && Effective(y) != Modified
    && (x.main.stage != Mark ==> x.msi == Modified)
    && (x.main.stage == Mark && x.msi == Modified ==> Effective(y) == Invalid && y.copy.Unmapped?)
  }

  /** The command is over and its invalidation has not been carried out yet. */
  predicate Invalidating(i: Id, x: Side, y: Side, p: nat, h: History, flat: seq<Byte>) {
    && x.main.Idle? && x.handler.HIdle?
    && x.msi == Modified && x.copy == Mapped(flat) && h == Owned(i) && Effective(y) != Modified
    && (|| (x.requests == [Invalidate(p)] && Lagging(y))
        || (x.requests == [] && y.server == SGot(Invalidate(p)))
        || (x.requests == [] && y.server == SInvalid(p) && y.copy.Unmapped?))
  }

  /** Process `i` has the one command on the page, or its invalidation, under way. */
  predicate Active(c: Config, i: Id, x: Side, y: Side, p: nat, h: History, flat: seq<Byte>) {
    && Passive(y) && x.server.SIdle?
    && (|| Looking(c, i, x, y, h, flat)
        || Faulting(c, i, x, y, h, flat)
        || Publishing(i, x, y, h, flat)
        || Invalidating(i, x, y, p, h, flat))
  }

  /** A page that was touched is somewhere, and somebody says so. */
  predicate Kept(x: Side, y: Side, h: History, flat: seq<Byte>) {
    h != Untouched ==>
      && (x.copy == Mapped(flat) || y.copy == Mapped(flat))
      && !(x.msi == Invalid && y.msi == Invalid)
  }

  predicate PageSides(c: Config, i: Id, x: Side, y: Side, p: nat, h: History, flat: seq<Byte>) {
    && Kept(x, y, h, flat)
    && (|| Resting(c, i, x, y, h, flat)
        || Active(c, i, x, y, p, h, flat)
        || Active(c, i.Peer(), y, x, p, h, flat))
  }

  predicate PageOk(c: Config, i: Id, n: Node, m: Node, log: seq<Event>, p: nat)
    requires ValidNode(c, n) && ValidNode(c, m) && p < c.pages
  {
    PageSides(c, i, SideOf(c, n, m, p), SideOf(c, m, n, p), p, HistoryOf(log, p), Flat(c, log, p))
  }

  predicate Pages(c: Config, i: Id, n: Node, m: Node, log: seq<Event>)
    requires ValidNode(c, n) && ValidNode(c, m)
  {
    forall p :: 0 <= p < c.pages ==> PageOk(c, i, n, m, log, p)
  }

  predicate Coherent(s: System) {
    && Safe(s)
    && Pages(s.config, First, s.first, s.second, s.log)
    && ReadsFlat(s.config, s.log)
  }

  lemma SidesSwap(c: Config, i: Id, x: Side, y: Side, p: nat, h: History, flat: seq<Byte>)
    requires PageSides(c, i, x, y, p, h, flat)
    ensures PageSides(c, i.Peer(), y, x, p, h, flat)
  {
  }

  lemma PagesSwap(c: Config, i: Id, n: Node, m: Node, log: seq<Event>)
    requires ValidNode(c, n) && ValidNode(c, m) && Pages(c, i, n, m, log)
    ensures Pages(c, i.Peer(), m, n, log)
  {
    forall p | 0 <= p < c.pages
      ensures PageOk(c, i.Peer(), m, n, log, p)
    {
      assert PageOk(c, i, n, m, log, p);
      SidesSwap(c, i, SideOf(c, n, m, p), SideOf(c, m, n, p), p, HistoryOf(log, p), Flat(c, log, p));
    }
  }

  lemma {:induction false} AboutAppend(q: seq<Request>, r: Request, p: nat)
    ensures About(q + [r], p) == About(q, p) + if r.page == p then [r] else []
  {
    if q == [] {
      assert q + [r] == [r] && [r][1..] == [];
    } else {
      assert (q + [r])[0] == q[0] && (q + [r])[1..] == q[1..] + [r];
      AboutAppend(q[1..], r, p);
    }
  }

  lemma LogAppend(c: Config, log: seq<Event>, e: Event, p: nat)
    ensures Flat(c, log + [e], p) == if e.Wrote? && e.page == p then e.bytes else Flat(c, log, p)
    ensures HistoryOf(log + [e], p) ==
      if e.page != p then HistoryOf(log, p)
      else if e.Wrote? then Owned(e.node)
      else if HistoryOf(log, p) == Owned(e.node) then Owned(e.node)
      else Common
  {
    assert (log + [e])[..|log|] == log;
  }

  lemma ReadsFlatAppend(c: Config, log: seq<Event>, e: Event)
    requires ReadsFlat(c, log)
    requires e.Saw? ==> e.bytes == Flat(c, log, e.page)
    ensures ReadsFlat(c, log + [e])
  {
    forall k | 0 <= k < |log + [e]| && (log + [e])[k].Saw?
      ensures (log + [e])[k].bytes == Flat(c, (log + [e])[..k], (log + [e])[k].page)
    {
      if k < |log| {
        assert (log + [e])[..k] == log[..k];
      } else {
        assert (log + [e])[..k] == log;
      }
    }
  }
}
