/**
The process of HW3P2/s2dsm_P2.c with its globals as fields: the MSI array and the mapped pages
are updated in place, the sockets are queues. Each method is one step of one thread and is
proved against the step function of the model.
*/
module DsmProcess {
  import opened DsmModel

  class Process {
    const me: Id
    const config: Config
    const msiArray: array<Msi>
    const pageTable: array<Mapping>
    var requests: seq<Request>
    var replies: seq<Byte>
    var main: Main
    var handler: Handler
    var server: Server

    ghost function View(): Node
      reads this, msiArray, pageTable
    {
      Node(msiArray[..], pageTable[..], requests, replies, main, handler, server)
    }

    ghost predicate Valid()
      reads this, msiArray, pageTable
    {
      ValidNode(config, View())
    }

    /** All pages start INVALID and unmapped, all sockets empty. */
    constructor (me: Id, config: Config)
      ensures this.me == me && this.config == config
      ensures fresh(msiArray) && fresh(pageTable)
      ensures Valid() && View() == InitNode(config)
    {
      this.me := me;
      this.config := config;
      msiArray := new Msi[config.pages](_ => Modified);
      pageTable := new Mapping[config.pages](_ => Unmapped);
      requests, replies := [], [];
      main, handler, server := Idle, HIdle, SIdle;
      new;
      var ptr := 0;
      while ptr < config.pages
        invariant 0 <= ptr <= config.pages
        invariant forall k :: 0 <= k < ptr ==> msiArray[k] == Invalid
        invariant forall k :: 0 <= k < config.pages ==> pageTable[k] == Unmapped
        invariant requests == [] && replies == [] && main == Idle && handler == HIdle && server == SIdle
      {
        msiArray[ptr] := Invalid;
        ptr := ptr + 1;
      }
      assert msiArray[..] == seq(config.pages, _ => Invalid);
      assert pageTable[..] == seq(config.pages, _ => Unmapped);
    }

    method SentRequest(request: Request)
      modifies this`requests
      ensures requests == old(requests) + [request]
    {
      requests := requests + [request];
    }

    method StartCommand(op: Op, which: int)
      requires Valid()
      modifies this`main
      ensures Valid() && View() == StartNext(config, old(View()), op, which)
    {
      if main.Idle? && ValidOp(config, op) && -1 <= which < config.pages {
        main := if which == -1 then Loop(op, 0) else Busy(Touch, which, op, false);
      }
    }

    method MainThread() returns (events: seq<Event>)
      requires Valid()
      modifies this, msiArray, pageTable
      ensures Valid()
      ensures View() == MainNext(config, me, old(View())).0
      ensures events == MainNext(config, me, old(View())).1
    {
      events := [];
      match main {
        case Idle =>
        case Loop(op, next) =>
          main := if next < config.pages then Busy(Touch, next, op, true) else Idle;
        case Busy(stage, p, op, all) =>
          if stage == Mark {
            msiArray[p] := Modified;
            main := Busy(Print, p, op, all);
          } else if stage == Send {
            SentRequest(Invalidate(p));
            main := After(p, op, all);
          } else if handler.HIdle? {
            if pageTable[p].Unmapped? {
              handler := HCheck(p);
            } else if stage == Touch && op.Write? {
              pageTable[p] := Mapped(Pad(config, op.message));
              main := Busy(Mark, p, op, all);
              events := [Wrote(me, p, pageTable[p].bytes)];
            } else {
              events := [Saw(me, p, pageTable[p].bytes)];
              main := if stage == Touch && all then Busy(Echo, p, op, all)
                      else if stage == Print then Busy(Send, p, op, all)
                      else After(p, op, all);
            }
          }
      }
    }

    method FaultHandlerThread(peer: Process)
      requires Valid() && peer.Valid() && config == peer.config
      requires this != peer && pageTable != peer.pageTable && msiArray != peer.msiArray
      modifies this, msiArray, pageTable, peer`replies
      ensures Valid() && peer.Valid()
      ensures (View(), peer.View()) == HandlerNext(config, old(View()), old(peer.View()))
    {
      match handler {
        case HIdle =>
        case HCheck(p) =>
          handler := if msiArray[p] == Invalid then HAsk(p) else HCopy(p, Zeros(config));
        case HAsk(p) =>
          SentRequest(Fetch(p));
          handler := HWait(p);
        case HWait(p) =>
          if peer.replies != [] {
            var response := peer.replies[0];
            peer.replies := peer.replies[1..];
            handler := if response == NO_COPY then HMark(p, Zeros(config))
                       else if response == COPY_FOLLOWS then HBody(p)
                       else HCopy(p, Zeros(config));
          }
        case HBody(p) =>
          if |peer.replies| >= config.pageSize {
            handler := HMark(p, peer.replies[..config.pageSize]);
            peer.replies := peer.replies[config.pageSize..];
          }
        case HMark(p, data) =>
          msiArray[p] := Shared;
          handler := HCopy(p, data);
        case HCopy(p, data) =>
          if pageTable[p].Unmapped? {
            pageTable[p] := Mapped(data);
            handler := HIdle;
          }
      }
    }

    /** Writes a whole page to the peer; reading an unmapped page fills it with zeros first. */
    method SendPage(p: nat)
      requires Valid() && p < config.pages
      modifies pageTable, this`replies
      ensures
        var page := if old(pageTable[p]).Mapped? then old(pageTable[p]).bytes else Zeros(config);
        replies == old(replies) + page && pageTable[..] == old(pageTable[..])[p := Mapped(page)]
    {
      if pageTable[p].Unmapped? {
        pageTable[p] := Mapped(Zeros(config));
      }
      replies := replies + pageTable[p].bytes;
    }

    method ServerThread(peer: Process)
      requires Valid() && peer.Valid() && config == peer.config
      requires this != peer && pageTable != peer.pageTable && msiArray != peer.msiArray
      modifies this, msiArray, pageTable, peer`requests
      ensures Valid() && peer.Valid()
      ensures (View(), peer.View()) == ServerNext(config, old(View()), old(peer.View()))
    {
      match server {
        case SIdle =>
          if peer.requests != [] {
            server := SGot(peer.requests[0]);
            peer.requests := peer.requests[1..];
          }
        case SGot(Fetch(p)) =>
          server := if msiArray[p] == Invalid then SZero(p) else SOne(p);
        case SGot(Invalidate(p)) =>
          pageTable[p] := Unmapped;
          server := SInvalid(p);
        case SZero(p) =>
          replies := replies + [NO_COPY];
          server := SShare(p);
        case SOne(p) =>
          replies := replies + [COPY_FOLLOWS];
          server := SBody(p);
        case SBody(p) =>
          SendPage(p);
          server := SShare(p);
        case SShare(p) =>
          msiArray[p] := Shared;
          server := SIdle;
        case SInvalid(p) =>
          msiArray[p] := Invalid;
          server := SIdle;
      }
    }
  }
  /** The state of two running processes. */
  ghost function SystemOf(first: Process, second: Process, log: seq<Event>): System
    reads first, first.msiArray, first.pageTable, second, second.msiArray, second.pageTable
  {
    System(first.config, first.View(), second.View(), log)
  }

  ghost predicate Separate(first: Process, second: Process)
    reads first, first.msiArray, first.pageTable, second, second.msiArray, second.pageTable
  {
    && first.me == First && second.me == Second && first.config == second.config
    && first.config.pageSize > 0 && first.Valid() && second.Valid()
    && first.pageTable != second.pageTable && first.msiArray != second.msiArray
  }

  /** One step of one of the six threads. */
  method RunStep(first: Process, second: Process, i: Id, a: Action, ghost log: seq<Event>)
    returns (events: seq<Event>)
    requires Separate(first, second)
    modifies first, first.msiArray, first.pageTable, second, second.msiArray, second.pageTable
    ensures Separate(first, second)
    ensures SystemOf(first, second, log + events) == Step(old(SystemOf(first, second, log)), i, a)
  {
    var n, m := if i.First? then first else second, if i.First? then second else first;
    events := [];
    assert log + [] == log;
    match a {
      case Start(op, which) => n.StartCommand(op, which);
      case MainStep => events := n.MainThread();
      case HandlerStep => n.FaultHandlerThread(m);
      case ServerStep => n.ServerThread(m);
    }
  }

  /** Two freshly started processes run a schedule; what they log is what the model's run logs. */
  method Run(config: Config, sched: Schedule) returns (first: Process, second: Process, log: seq<Event>)
    requires 0 < config.pageSize
    ensures Separate(first, second)
    ensures SystemOf(first, second, log) == Exec(Init(config), sched)
  {
    first := new Process(First, config);
    second := new Process(Second, config);
    log := [];
    var k := 0;
    while k < |sched|
      invariant 0 <= k <= |sched|
      invariant fresh(first) && fresh(first.msiArray) && fresh(first.pageTable)
      invariant fresh(second) && fresh(second.msiArray) && fresh(second.pageTable)
      invariant Separate(first, second)
      invariant Exec(SystemOf(first, second, log), sched[k..]) == Exec(Init(config), sched)
    {
      assert sched[k..][1..] == sched[k + 1..];
      var events := RunStep(first, second, sched[k].0, sched[k].1, log);
      log := log + events;
      k := k + 1;
    }
  }
}
