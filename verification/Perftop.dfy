/** The probe handlers of HW4P2/perftop.c, its listing and its teardown. */
module Perftop {
  import opened RbTree
  import opened PerftopTrace
  import opened PerftopConservation
  import opened PerftopTable
  import opened PerftopIndex
  import opened PerftopListing

  /** A `task_struct` by its address, which may be NULL, and its pid. */
  datatype Task = Task(address: nat, pid: int)

  const NULL: nat := 0

  /** A switch is recorded when both tasks exist and differ. */
  predicate Recorded(prev: Task, next: Task) {
    prev.address != next.address && next.address != NULL && prev.address != NULL
  }

  class Profiler {
    const table: HashTable
    const tree: RbRoot
    var preCount: nat
    var postCount: nat
    var switches: nat
    ghost var trace: Trace

    ghost predicate Valid()
      reads this, table, tree, tree.Repr
    {
      && table.Valid() && tree.Valid()
      && Agrees(table.entries, tree.Nodes(), trace)
      && switches == |trace|
    }

    constructor (hash: int -> nat)
      ensures Valid() && trace == [] && tree.Nodes() == [] && preCount == postCount == 0
      ensures fresh(table) && fresh(tree) && fresh(tree.Repr)
    {
      table := new HashTable(hash);
      tree := new RbRoot();
      preCount, postCount, switches := 0, 0, 0;
      trace := [];
    }

    /** The entry handler: kernel threads are skipped, otherwise `prev` is kept for the return. */
    method EntryPickNextFair(hasMm: bool, prev: Task) returns (skip: bool, data: Task)
      modifies this`preCount
      ensures skip == !hasMm && data == prev
      ensures preCount == old(preCount) + if skip then 0 else 1
    {
      skip, data := !hasMm, prev;
      if hasMm {
        preCount := preCount + 1;
      }
    }

    /** The return handler, taken under the timing lock at time `now`. */
    method RetPickNextFair(prev: Task, next: Task, now: Word, ghost cpu: nat)
      requires Valid()
      modifies this, table, tree, tree.Repr
      ensures Valid() && fresh(tree.Repr - old(tree.Repr))
      ensures prev.address == next.address || prev.address == 0 || next.address == 0 ==> trace == old(trace)
      ensures prev.address != next.address && prev.address != 0 && next.address != 0 ==>
        trace == old(trace) + [Event(cpu, prev.pid, next.pid, now)]
      ensures postCount == old(postCount) + 1 && preCount == old(preCount)
    {
      if Recorded(prev, next) {
        RecordSwitch(prev.pid, next.pid, now, cpu);
      }
      postCount := postCount + 1;
    }

    /** The node of a task leaves the tree, and a new one with one more slice goes in. */
    method MoveNode(entry: Entry, now: Word) returns (node: RbNode)
      requires tree.Valid() && Ranked(tree.Nodes(), trace)
      requires entry.node != null ==> entry.node in tree.Nodes()
      modifies tree, tree.Repr
      ensures tree.Valid() && fresh(node) && fresh(tree.Repr - old(tree.Repr))
      ensures node.pid == entry.pid
      ensures node.key ==
        if entry.node != null then (entry.node.key + (now - entry.tsc)) % 0x1_0000_0000_0000_0000 else 0
      ensures tree.Nodes() ==
        Inserted(if entry.node != null then Without(old(tree.Nodes()), entry.node) else old(tree.Nodes()), node)
    {
      var elapsed := Elapsed(now, entry.tsc);
      var ttsc := 0;
      RankedIsSorted(tree.Nodes(), trace);
      if entry.node != null {
        InOrderSet(tree.shape, entry.node);
        ttsc := (entry.node.key + elapsed) % WORD;
        ModPlus(entry.node.key, entry.node.key, now - entry.tsc);
        WithoutRanked(tree.Nodes(), entry.node, trace);
        tree.Erase(entry.node);
        RankedIsSorted(tree.Nodes(), trace);
      }
      node := new RbNode(ttsc, entry.pid);
      tree.Insert(node);
    }

    method RecordSwitch(prev: int, next: int, now: Word, ghost cpu: nat)
      requires Valid()
      modifies this, table, tree, tree.Repr
      ensures Valid() && fresh(tree.Repr - old(tree.Repr))
      ensures trace == old(trace) + [Event(cpu, prev, next, now)]
      ensures postCount == old(postCount) && preCount == old(preCount)
    {
      hide Agrees, Ranked, HashTable.Valid, RbRoot.Valid, InOrder, Inserted, Without;
      ghost var e := Event(cpu, prev, next, now);
      PrevIsReady(table.entries, tree.Nodes(), trace, e);
      switches := switches + 1;
      var position, entry := table.FindOrAdd(prev, now);
      var node := MoveNode(entry, now);
      table.Put(position, entry.(node := node));
      table.Restart(next, now);
      SwitchKeepsAgreement(old(table.entries), old(tree.Nodes()), trace, e, node);
      trace := trace + [e];
    }

    /** The listing: from the last node backwards, at most ten rows. */
    method PerftopProcShow() returns (pre: nat, post: nat, counted: nat, rows: seq<Row>)
      requires Valid()
      ensures pre == preCount && post == postCount && counted == |trace|
      ensures TopList(rows, trace)
      ensures |rows| == if |Tasks(trace)| < 10 then |Tasks(trace)| else 10
      ensures forall i, j :: 0 <= i < j < |rows| ==> rows[i].pid != rows[j].pid && rows[i].ttsc >= rows[j].ttsc
    {
      hide Agrees, Total, LastOut, Tasks, TopList, RbRoot.Valid, HashTable.Valid, InOrder;
      pre, post, counted, rows := preCount, postCount, switches, [];
      var position := tree.Last();
      var i := 0;
      while i < ROWS && position != null
        invariant i == |rows| <= ROWS && |rows| <= |tree.Nodes()|
        invariant position == if i < |tree.Nodes()| then tree.Nodes()[|tree.Nodes()| - 1 - i] else null
        invariant forall k :: 0 <= k < |rows| ==> rows[k] == RowAt(tree.Nodes(), k)
        decreases ROWS - i
      {
        rows := rows + [Row(position.pid, position.key)];
        position := tree.Prev(position, |tree.Nodes()| - 1 - i);
        i := i + 1;
      }
      LastNodesAreTop(table.entries, tree.Nodes(), trace, rows);
      ListingMeans(rows, trace);
    }

    /** The teardown of the tree: it visits one node for each task, in order of the totals. */
    method PerftopExit() returns (visited: seq<RbNode>)
      requires Valid()
      modifies tree, tree.Repr
      ensures tree.Valid() && tree.Nodes() == [] && visited == old(tree.Nodes())
      ensures Agrees(table.entries, visited, trace)
    {
      visited := tree.Drain();
    }
  }

  /** One return of the probed function on some CPU. */
  datatype Call = Call(cpu: nat, prev: Task, next: Task, now: Word)

  /** The switches among the calls, in order. */
  function Switches(calls: seq<Call>): Trace {
    if calls == [] then []
    else
      var c, before := calls[|calls| - 1], Switches(calls[..|calls| - 1]);
      if Recorded(c.prev, c.next) then before + [Event(c.cpu, c.prev.pid, c.next.pid, c.now)] else before
  }

  /** A call is a switch exactly if both tasks exist and differ; it then adds one event. */
  lemma OneMoreCall(calls: seq<Call>, c: Call)
    ensures Switches([]) == []
    ensures c.prev.address == c.next.address || c.prev.address == 0 || c.next.address == 0 ==>
      Switches(calls + [c]) == Switches(calls)
    ensures c.prev.address != c.next.address && c.prev.address != 0 && c.next.address != 0 ==>
      Switches(calls + [c]) == Switches(calls) + [Event(c.cpu, c.prev.pid, c.next.pid, c.now)]
  {
    assert (calls + [c])[..|calls|] == calls;
  }

  /** After any calls whatever, the listing is the one that the switches among them determine. */
  method Profile(hash: int -> nat, calls: seq<Call>) returns (p: Profiler, rows: seq<Row>)
    ensures p.Valid() && p.trace == Switches(calls) && p.switches == |Switches(calls)|
    ensures p.postCount == |calls|
    ensures TopList(rows, Switches(calls))
  {
    p := new Profiler(hash);
    var k := 0;
    while k < |calls|
      invariant k <= |calls| && p.Valid() && p.trace == Switches(calls[..k]) && p.postCount == k
      invariant fresh(p) && fresh(p.table) && fresh(p.tree) && fresh(p.tree.Repr)
    {
      assert calls[..k + 1][..k] == calls[..k];
      var c := calls[k];
      p.RetPickNextFair(c.prev, c.next, c.now, c.cpu);
      k := k + 1;
    }
    assert calls[..k] == calls;
    var pre, post, counted;
    pre, post, counted, rows := p.PerftopProcShow();
  }
}
