/**
The two-process shared memory of HW3P2/s2dsm_P2.c as a transition system.

Each process runs three threads: the command loop of `main`, the page-fault handler and the
server. One step of the system is one access of one thread to something another thread can
see: an MSI cell, a mapped page, or one end of a socket. The steps of all six threads may be
interleaved in any order.
*/
module DsmModel {

  type Byte = b: nat | b < 256

  /** The answer byte '0': the answering process holds no copy. */
  const NO_COPY: Byte := 48

  /** The answer byte '1': the bytes of the page follow. */
  const COPY_FOLLOWS: Byte := 49

  datatype Id = First | Second {
    function Peer(): Id { if First? then Second else First }
  }

  datatype Msi = Modified | Shared | Invalid

  /** What the page table of one process holds for one page. */
  datatype Mapping = Unmapped | Mapped(bytes: seq<Byte>)

  datatype Request = Fetch(page: nat) | Invalidate(page: nat)

  datatype Op = Read | Write(message: seq<Byte>)

  /**
  Where a command on one page stands: the whole-page copy that may fault, the second look at
  the page when all pages are read, and the marking, printing and sending after a write.
  */
  datatype Stage = Touch | Echo | Mark | Print | Send

  datatype Main =
    | Idle
    | Loop(op: Op, next: nat)
    | Busy(stage: Stage, page: nat, op: Op, all: bool)

  datatype Handler =
    | HIdle
    | HCheck(page: nat)
    | HAsk(page: nat)
    | HWait(page: nat)
    | HBody(page: nat)
    | HMark(page: nat, data: seq<Byte>)
    | HCopy(page: nat, data: seq<Byte>)

  datatype Server =
    | SIdle
    | SGot(request: Request)
    | SZero(page: nat)
    | SOne(page: nat)
    | SBody(page: nat)
    | SShare(page: nat)
    | SInvalid(page: nat)

  /** What reaches a page or the terminal: a page overwritten, or a page looked at. */
  datatype Event =
    | Wrote(node: Id, page: nat, bytes: seq<Byte>)
    | Saw(node: Id, page: nat, bytes: seq<Byte>)

  datatype Config = Config(pageSize: nat, pages: nat)

  /**
  One process. `requests` are written on its connect socket and not yet read by the peer's
  server; `replies` are written by its own server and not yet read by the peer's handler.
  */
  datatype Node = Node(
    msi: seq<Msi>,
    maps: seq<Mapping>,
    requests: seq<Request>,
    replies: seq<Byte>,
    main: Main,
    handler: Handler,
    server: Server)

  datatype System = System(config: Config, first: Node, second: Node, log: seq<Event>) {
    function At(i: Id): Node { if i.First? then first else second }

    function With(i: Id, n: Node): System {
      if i.First? then this.(first := n) else this.(second := n)
    }
  }

  datatype Action = Start(op: Op, which: int) | MainStep | HandlerStep | ServerStep

  function Zeros(c: Config): (r: seq<Byte>)
    ensures |r| == c.pageSize && forall k :: 0 <= k < c.pageSize ==> r[k] == 0
  {
    seq(c.pageSize, _ => 0)
  }

  /** `strncpy` to a whole page: the message up to its first zero byte, then zeros. */
  function Pad(c: Config, message: seq<Byte>): (r: seq<Byte>)
    requires |message| < c.pageSize
    ensures |r| == c.pageSize
    ensures forall k :: 0 <= k < c.pageSize ==>
      r[k] == if k < |message| && 0 !in message[..k] then message[k] else 0
  {
    seq(c.pageSize, k requires 0 <= k < c.pageSize =>
      if k < |message| && 0 !in message[..k] then message[k] else 0)
  }

  predicate ValidOp(c: Config, op: Op) {
    op.Write? ==> |op.message| < c.pageSize
  }

  predicate ValidMain(c: Config, m: Main) {
    match m
    case Idle => true
    case Loop(op, _) => ValidOp(c, op)
    case Busy(stage, page, op, all) =>
      && page < c.pages
      && ValidOp(c, op)
      && (stage == Echo ==> op.Read? && all)
      && (stage in {Mark, Print, Send} ==> op.Write?)
  }

  predicate ValidHandler(c: Config, h: Handler) {
    && (!h.HIdle? ==> h.page < c.pages)
    && (h.HMark? || h.HCopy? ==> |h.data| == c.pageSize)
  }

  predicate ValidServer(c: Config, s: Server) {
    match s
    case SIdle => true
    case SGot(r) => r.page < c.pages
    case _ => s.page < c.pages
  }

  predicate ValidNode(c: Config, n: Node) {
    && |n.msi| == |n.maps| == c.pages
    && (forall p :: 0 <= p < c.pages && n.maps[p].Mapped? ==> |n.maps[p].bytes| == c.pageSize)
    && (forall k :: 0 <= k < |n.requests| ==> n.requests[k].page < c.pages)
    && ValidMain(c, n.main)
    && ValidHandler(c, n.handler)
    && ValidServer(c, n.server)
  }

  predicate Valid(s: System) {
    && 0 < s.config.pageSize
    && ValidNode(s.config, s.first)
    && ValidNode(s.config, s.second)
  }

  function InitNode(c: Config): Node {
    Node(seq(c.pages, _ => Invalid), seq(c.pages, _ => Unmapped), [], [], Idle, HIdle, SIdle)
  }

  function Init(c: Config): System {
    System(c, InitNode(c), InitNode(c), [])
  }

  // ---------- The command loop of main ----------

  /** A parsed command is accepted when the main thread is at its prompt and the page exists. */
  function StartNext(c: Config, n: Node, op: Op, which: int): (r: Node)
    requires ValidNode(c, n)
    ensures ValidNode(c, r)
  {
    if !n.main.Idle? || !ValidOp(c, op) || which < -1 || which >= c.pages then n
    else if which == -1 then n.(main := Loop(op, 0))
    else n.(main := Busy(Touch, which, op, false))
  }

  /** The main thread after it is done with page `p`. */
  function After(p: nat, op: Op, all: bool): Main {
    if all then Loop(op, p + 1) else Idle
  }

  predicate Touches(m: Main) {
    m.Busy? && m.stage in {Touch, Echo, Print}
  }

  /** One step of the main thread, with what it wrote or saw. */
  function MainNext(c: Config, me: Id, n: Node): (r: (Node, seq<Event>))
    requires ValidNode(c, n)
    ensures ValidNode(c, r.0)
  {
    match n.main
    case Idle => (n, [])
    case Loop(op, next) =>
      if next < c.pages then (n.(main := Busy(Touch, next, op, true)), [])
      else (n.(main := Idle), [])
    case Busy(stage, p, op, all) =>
      if stage == Mark then
        (n.(msi := n.msi[p := Modified], main := Busy(Print, p, op, all)), [])
      else if stage == Send then
        (n.(requests := n.requests + [Invalidate(p)], main := After(p, op, all)), [])
      else if !n.handler.HIdle? then
        (n, [])  // suspended in the fault that the handler is resolving
      else if n.maps[p].Unmapped? then
        (n.(handler := HCheck(p)), [])
      else if stage == Touch && op.Write? then
        var page := Pad(c, op.message);
        (n.(maps := n.maps[p := Mapped(page)], main := Busy(Mark, p, op, all)), [Wrote(me, p, page)])
      else
        var main' :=
          if stage == Touch && all then Busy(Echo, p, op, all)
          else if stage == Print then Busy(Send, p, op, all)
          else After(p, op, all);
        (n.(main := main'), [Saw(me, p, n.maps[p].bytes)])
  }

  // ---------- The page-fault handler ----------

  /** One step of the handler; it also takes bytes off the peer's reply stream. */
  function HandlerNext(c: Config, n: Node, peer: Node): (r: (Node, Node))
    requires ValidNode(c, n) && ValidNode(c, peer)
    ensures ValidNode(c, r.0) && ValidNode(c, r.1)
  {
    match n.handler
    case HIdle => (n, peer)
    case HCheck(p) =>
      if n.msi[p] == Invalid then (n.(handler := HAsk(p)), peer)
      else (n.(handler := HCopy(p, Zeros(c))), peer)
    case HAsk(p) => (n.(requests := n.requests + [Fetch(p)], handler := HWait(p)), peer)
    case HWait(p) =>
      if peer.replies == [] then (n, peer)
      else
        var answer := peer.replies[0];
        var h :=
          if answer == NO_COPY then HMark(p, Zeros(c))
          else if answer == COPY_FOLLOWS then HBody(p)
          else HCopy(p, Zeros(c));
        (n.(handler := h), peer.(replies := peer.replies[1..]))
    case HBody(p) =>
      if |peer.replies| < c.pageSize then (n, peer)
      else
        (n.(handler := HMark(p, peer.replies[..c.pageSize])),
         peer.(replies := peer.replies[c.pageSize..]))
    case HMark(p, data) => (n.(msi := n.msi[p := Shared], handler := HCopy(p, data)), peer)
    case HCopy(p, data) =>
      // Copying over a page that is already mapped fails and ends the process.
      if n.maps[p].Mapped? then (n, peer)
      else (n.(maps := n.maps[p := Mapped(data)], handler := HIdle), peer)
  }

  // ---------- The server ----------

  /** One step of the server; it also takes requests off the peer's request stream. */
  function ServerNext(c: Config, n: Node, peer: Node): (r: (Node, Node))
    requires ValidNode(c, n) && ValidNode(c, peer)
    ensures ValidNode(c, r.0) && ValidNode(c, r.1)
  {
    match n.server
    case SIdle =>
      if peer.requests == [] then (n, peer)
      else
        (n.(server := SGot(peer.requests[0])), peer.(requests := peer.requests[1..]))
    case SGot(Fetch(p)) =>
      (n.(server := if n.msi[p] == Invalid then SZero(p) else SOne(p)), peer)
    case SZero(p) => (n.(replies := n.replies + [NO_COPY], server := SShare(p)), peer)
    case SOne(p) => (n.(replies := n.replies + [COPY_FOLLOWS], server := SBody(p)), peer)
    case SBody(p) =>
      // Reading an unmapped page here faults inside the kernel and is filled with zeros.
      var page := if n.maps[p].Mapped? then n.maps[p].bytes else Zeros(c);
      (n.(maps := n.maps[p := Mapped(page)], replies := n.replies + page, server := SShare(p)), peer)
    case SShare(p) => (n.(msi := n.msi[p := Shared], server := SIdle), peer)
    case SGot(Invalidate(p)) => (n.(maps := n.maps[p := Unmapped], server := SInvalid(p)), peer)
    case SInvalid(p) => (n.(msi := n.msi[p := Invalid], server := SIdle), peer)
  }

  // ---------- The system ----------

  /** One step of process `i`; a step that is not possible changes nothing. */
  function Step(s: System, i: Id, a: Action): (r: System)
    requires Valid(s)
    ensures Valid(r) && r.config == s.config
  {
    var n, m := s.At(i), s.At(i.Peer());
    match a
    case Start(op, which) => s.With(i, StartNext(s.config, n, op, which))
    case MainStep =>
      var r := MainNext(s.config, i, n);
      s.With(i, r.0).(log := s.log + r.1)
    case HandlerStep =>
      var r := HandlerNext(s.config, n, m);
      s.With(i, r.0).With(i.Peer(), r.1)
    case ServerStep =>
      var r := ServerNext(s.config, n, m);
      s.With(i, r.0).With(i.Peer(), r.1)
  }

  type Schedule = seq<(Id, Action)>

  /** The state after all steps of a schedule, taken from left to right. */
  function Exec(s: System, sched: Schedule): (r: System)
    requires Valid(s)
    ensures Valid(r) && r.config == s.config
    decreases |sched|
  {
    if sched == [] then s
    else Exec(Step(s, sched[0].0, sched[0].1), sched[1..])
  }
}
