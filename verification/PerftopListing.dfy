/**
What the listing of HW4P2/perftop.c says about the trace, and what the tree as a whole says
about time.
*/
module PerftopListing {
  import opened RbTree
  import opened Options
  import opened PerftopTrace
  import opened PerftopConservation
  import opened PerftopIndex

  const ROWS: nat := 10

  datatype Row = Row(pid: int, ttsc: int)

  /** `p` is listed above `q`: a larger total, or the same total from a later switch-out. */
  predicate Above(t: Trace, p: int, q: int) {
    && Total(t, p).Some? && Total(t, q).Some?
    && (|| Total(t, p).value > Total(t, q).value
        || (Total(t, p).value == Total(t, q).value && LastOut(t, p) > LastOut(t, q)))
  }

  predicate Lists(rows: seq<Row>, pid: int) {
    exists i :: 0 <= i < |rows| && rows[i].pid == pid
  }

  /** The rows are the first tasks of the ranking, in its order; only a full listing omits any. */
  ghost predicate TopList(rows: seq<Row>, t: Trace) {
    && |rows| <= ROWS
    && (forall i :: 0 <= i < |rows| ==> Total(t, rows[i].pid) == Some(rows[i].ttsc))
    && (forall i, j :: 0 <= i < j < |rows| ==> Above(t, rows[i].pid, rows[j].pid))
    && (forall pid :: Total(t, pid).Some? && !Lists(rows, pid) ==>
          |rows| == ROWS && forall i :: 0 <= i < |rows| ==> Above(t, rows[i].pid, pid))
  }

  /** Where two listings agree so far, the first has no row that the second has not. */
  lemma NextRow(a: seq<Row>, b: seq<Row>, t: Trace, k: nat)
    requires TopList(a, t) && TopList(b, t) && k < |a|
    requires k <= |b| && forall i :: 0 <= i < k ==> a[i] == b[i]
    ensures k < |b|
    ensures a[k] == b[k] || Above(t, b[k].pid, a[k].pid)
  {
    var p := a[k].pid;
    assert forall i :: 0 <= i < k ==> Above(t, a[i].pid, p);
    if Lists(b, p) {
      var i :| 0 <= i < |b| && b[i].pid == p;
    }
  }

  /** The trace alone decides the listing, ties included. */
  lemma {:induction false} ListingIsUnique(a: seq<Row>, b: seq<Row>, t: Trace)
    requires TopList(a, t) && TopList(b, t)
    ensures a == b
  {
    hide TopList, Total, LastOut;
    var k := 0;
    while k < |a|
      invariant k <= |a| && k <= |b| && forall i :: 0 <= i < k ==> a[i] == b[i]
    {
      NextRow(a, b, t, k);
      NextRow(b, a, t, k);
      k := k + 1;
    }
    if k < |b| {
      NextRow(b, a, t, k);
    }
  }

  /** The tasks that were ever switched from. */
  function Tasks(t: Trace): set<int> {
    set k | 0 <= k < |t| :: t[k].prev
  }

  lemma {:induction false} TasksHaveTotals(t: Trace, pid: int)
    ensures pid in Tasks(t) <==> Total(t, pid).Some?
  {
    if t != [] {
      var before, last := t[..|t| - 1], t[|t| - 1];
      TasksHaveTotals(before, pid);
      if pid in Tasks(t) {
        var k :| 0 <= k < |t| && t[k].prev == pid;
        assert k < |before| ==> before[k].prev == pid;
      } else {
        assert forall k :: 0 <= k < |before| ==> before[k] == t[k];
        assert pid !in Tasks(before);
      }
      if pid in Tasks(before) {
        var k :| 0 <= k < |before| && before[k].prev == pid;
        assert t[k].prev == pid;
      }
    }
  }

  lemma {:induction false} Listed(rows: seq<Row>) returns (pids: set<int>)
    requires forall i, j :: 0 <= i < j < |rows| ==> rows[i].pid != rows[j].pid
    ensures |pids| == |rows| && forall pid :: pid in pids <==> Lists(rows, pid)
  {
    if rows == [] {
      pids := {};
    } else {
      var last := |rows| - 1;
      var rest := Listed(rows[..last]);
      pids := rest + {rows[last].pid};
      assert !Lists(rows[..last], rows[last].pid);
      forall pid
        ensures pid in pids <==> Lists(rows, pid)
      {
        if pid in rest {
          var i :| 0 <= i < last && rows[..last][i].pid == pid;
          assert rows[i].pid == pid;
        }
        if Lists(rows, pid) && pid != rows[last].pid {
          var i :| 0 <= i < |rows| && rows[i].pid == pid;
          assert rows[..last][i].pid == pid;
        }
      }
    }
  }

  lemma SubsetSize(a: set<int>, b: set<int>)
    requires a <= b
    ensures |a| <= |b| && (|a| == |b| ==> a == b)
  {
    assert b == a + (b - a);
    assert |b| == |a| + |b - a|;
  }

  /** The listing has a row for every task, up to ten. */
  lemma ListingSize(rows: seq<Row>, t: Trace)
    requires TopList(rows, t)
    ensures |rows| == if |Tasks(t)| < 10 then |Tasks(t)| else 10
  {
    assert forall i, j :: 0 <= i < j < |rows| ==> Above(t, rows[i].pid, rows[j].pid);
    var pids := Listed(rows);
    forall pid
      ensures pid in pids ==> pid in Tasks(t)
      ensures pid in Tasks(t) && |rows| < ROWS ==> pid in pids
    {
      TasksHaveTotals(t, pid);
    }
    SubsetSize(pids, Tasks(t));
    if |rows| < ROWS {
      assert pids == Tasks(t);
    }
  }

  /**
  A listing in plain words: up to ten rows, one a task, with totals that never rise; equal totals
  stand by the later switch-out; and no task that is left out has a larger total.
  */
  lemma ListingMeans(rows: seq<Row>, t: Trace)
    requires TopList(rows, t)
    ensures |rows| == if |Tasks(t)| < 10 then |Tasks(t)| else 10
    ensures forall i :: 0 <= i < |rows| ==> rows[i].pid in Tasks(t) && Total(t, rows[i].pid) == Some(rows[i].ttsc)
    ensures forall i, j :: 0 <= i < j < |rows| ==>
      && rows[i].pid != rows[j].pid && rows[i].ttsc >= rows[j].ttsc
      && (rows[i].ttsc == rows[j].ttsc ==> LastOut(t, rows[i].pid) > LastOut(t, rows[j].pid))
    ensures forall pid :: pid in Tasks(t) && (forall i :: 0 <= i < |rows| ==> rows[i].pid != pid) ==>
      Total(t, pid).Some? && forall i :: 0 <= i < |rows| ==> rows[i].ttsc >= Total(t, pid).value
  {
    ListingSize(rows, t);
    forall i | 0 <= i < |rows|
      ensures rows[i].pid in Tasks(t)
    {
      TasksHaveTotals(t, rows[i].pid);
    }
    forall i, j | 0 <= i < j < |rows|
      ensures
        && rows[i].pid != rows[j].pid && rows[i].ttsc >= rows[j].ttsc
        && (rows[i].ttsc == rows[j].ttsc ==> LastOut(t, rows[i].pid) > LastOut(t, rows[j].pid))
    {
      assert Above(t, rows[i].pid, rows[j].pid);
    }
    forall pid | pid in Tasks(t) && forall i :: 0 <= i < |rows| ==> rows[i].pid != pid
      ensures Total(t, pid).Some? && forall i :: 0 <= i < |rows| ==> rows[i].ttsc >= Total(t, pid).value
    {
      TasksHaveTotals(t, pid);
      assert !Lists(rows, pid);
    }
  }

  /** Position `i` from the end of the order, as a row. */
  function RowAt(nodes: seq<RbNode>, i: nat): Row
    requires i < |nodes|
  {
    var n := nodes[|nodes| - 1 - i];
    Row(n.pid, n.key)
  }

  /** Every task with a total has a node, and the node has that total. */
  lemma NodesAreTotals(entries: Entries, nodes: seq<RbNode>, t: Trace)
    requires Agrees(entries, nodes, t)
    ensures forall i :: 0 <= i < |nodes| ==> Total(t, nodes[i].pid) == Some(nodes[i].key)
    ensures forall pid :: Total(t, pid).Some? ==> pid in entries && entries[pid].node != null && entries[pid].node in nodes
  {
    forall i | 0 <= i < |nodes|
      ensures Total(t, nodes[i].pid) == Some(nodes[i].key)
    {
      assert entries[nodes[i].pid].node == nodes[i];
      assert EntryAgrees(entries[nodes[i].pid], nodes[i].pid, nodes, t);
    }
    forall pid | Total(t, pid).Some?
      ensures pid in entries && entries[pid].node != null && entries[pid].node in nodes
    {
      SwitchedOut(t, pid);
      assert EntryAgrees(entries[pid], pid, nodes, t);
    }
  }

  /** Reading the tree from its end gives the listing. */
  lemma LastNodesAreTop(entries: Entries, nodes: seq<RbNode>, t: Trace, rows: seq<Row>)
    requires Agrees(entries, nodes, t)
    requires |rows| == if |nodes| < ROWS then |nodes| else ROWS
    requires forall i :: 0 <= i < |rows| ==> rows[i] == RowAt(nodes, i)
    ensures TopList(rows, t)
  {
    hide EntryAgrees, TableAgrees, NodesOwned, KeySum, Counted;
    var n := |nodes|;
    NodesAreTotals(entries, nodes, t);
    forall i, j | 0 <= i < j < n
      ensures Above(t, nodes[j].pid, nodes[i].pid)
    {
      assert Precedes(nodes[i], nodes[j], t);
    }
    forall i, j | 0 <= i < j < |rows|
      ensures Above(t, rows[i].pid, rows[j].pid)
    {
      assert n - 1 - j < n - 1 - i;
    }
    forall pid | Total(t, pid).Some? && !Lists(rows, pid)
      ensures |rows| == ROWS && forall i :: 0 <= i < |rows| ==> Above(t, rows[i].pid, pid)
    {
      Unlisted(entries, nodes, t, rows, pid);
    }
  }

  lemma Unlisted(entries: Entries, nodes: seq<RbNode>, t: Trace, rows: seq<Row>, pid: int)
    requires Agrees(entries, nodes, t)
    requires |rows| == if |nodes| < ROWS then |nodes| else ROWS
    requires forall i :: 0 <= i < |rows| ==> rows[i] == RowAt(nodes, i)
    requires Total(t, pid).Some? && !Lists(rows, pid)
    ensures |rows| == ROWS && forall i :: 0 <= i < |rows| ==> Above(t, rows[i].pid, pid)
  {
    NodesAreTotals(entries, nodes, t);
    var n := |nodes|;
    var k :| 0 <= k < n && nodes[k] == entries[pid].node;
    assert EntryAgrees(entries[pid], pid, nodes, t);
    assert n - 1 - k < |rows| ==> rows[n - 1 - k].pid == pid;
    forall i | 0 <= i < |rows|
      ensures Above(t, rows[i].pid, pid)
    {
      assert Precedes(nodes[k], nodes[n - 1 - i], t);
    }
  }

  /** The index agreement: one entry a pid, one node an entry, one entry a node, and ranked nodes. */
  lemma IndexAgreement(entries: Entries, nodes: seq<RbNode>, t: Trace)
    requires Agrees(entries, nodes, t)
    ensures forall pid :: pid in entries <==> Start(t, pid).Some?
    ensures forall pid :: pid in entries ==>
      && entries[pid].pid == pid && Start(t, pid) == Some(entries[pid].tsc)
      && (entries[pid].node == null <==> pid !in Tasks(t))
      && (entries[pid].node != null ==>
            && entries[pid].node in nodes && entries[pid].node.pid == pid
            && Total(t, pid) == Some(entries[pid].node.key))
    ensures forall i, pid :: 0 <= i < |nodes| && pid in entries ==>
      (entries[pid].node == nodes[i] <==> pid == nodes[i].pid)
    ensures forall i :: 0 <= i < |nodes| ==> nodes[i].pid in entries
    ensures Sorted(nodes) && forall i, j :: 0 <= i < j < |nodes| ==> nodes[i] != nodes[j] && nodes[i].pid != nodes[j].pid
  {
    forall pid | pid in entries
      ensures EntryAgrees(entries[pid], pid, nodes, t) && (pid in Tasks(t) <==> Total(t, pid).Some?)
    {
      TasksHaveTotals(t, pid);
    }
    RankedIsSorted(nodes, t);
    forall i, j | 0 <= i < j < |nodes|
      ensures nodes[i].pid != nodes[j].pid
    {
      assert entries[nodes[i].pid].node == nodes[i] && entries[nodes[j].pid].node == nodes[j];
    }
  }

  /** The totals in the tree and the dropped first slices are the time covered by all CPUs. */
  lemma TreeHoldsAllTime(entries: Entries, nodes: seq<RbNode>, t: Trace, cpus: nat)
    requires Agrees(entries, nodes, t) && Chained(t)
    requires forall k :: 0 <= k < |t| ==> t[k].cpu < cpus
    ensures (KeySum(nodes) + Dropped(t)) % 0x1_0000_0000_0000_0000 == Covered(t, cpus) % 0x1_0000_0000_0000_0000
  {
    SlicesCoverTime(t, cpus);
    ModSame(KeySum(nodes), Counted(t), Dropped(t));
  }

  /** On one CPU the time covered reaches from the first switch to the last. */
  lemma {:induction false} OneChainCovers(t: Trace)
    requires t != [] && forall k :: 0 <= k < |t| ==> t[k].cpu == 0
    ensures Covered(t, 1) == t[|t| - 1].now - t[0].now
  {
    assert Covered(t, 1) == Covered(t, 0) + Span(t, 0) == Span(t, 0);
    FirstIsFirst(t);
  }

  /** On one CPU a chain is what it looks like: each switch is from the task that the last one picked. */
  lemma {:induction false} OneChain(t: Trace)
    requires forall k :: 0 <= k < |t| ==> t[k].cpu == 0
    requires forall k :: 0 <= k < |t| - 1 ==> t[k].next == t[k + 1].prev
    ensures Chained(t)
  {
    if t != [] {
      var before := t[..|t| - 1];
      OneChain(before);
      forall c: nat | c != 0
        ensures Running(before, c).None?
      {
        RunningIs(before, c);
      }
    }
  }

  /**
  Time conservation on one CPU: the totals in the tree and the dropped first slices add up to the
  last timestamp minus the first, in 64 bits.
  */
  lemma OneChainConservesTime(entries: Entries, nodes: seq<RbNode>, t: Trace)
    requires Agrees(entries, nodes, t) && t != []
    requires forall k :: 0 <= k < |t| ==> t[k].cpu == 0
    requires forall k :: 0 <= k < |t| - 1 ==> t[k].next == t[k + 1].prev
    ensures (KeySum(nodes) + Dropped(t)) % 0x1_0000_0000_0000_0000
         == (t[|t| - 1].now - t[0].now) % 0x1_0000_0000_0000_0000
  {
    OneChain(t);
    TreeHoldsAllTime(entries, nodes, t, 1);
    OneChainCovers(t);
  }

  lemma {:induction false} FirstIsFirst(t: Trace)
    requires t != [] && forall k :: 0 <= k < |t| ==> t[k].cpu == 0
    ensures Running(t, 0).Some? && FirstTime(t, 0) == t[0].now
  {
    if |t| > 1 {
      FirstIsFirst(t[..|t| - 1]);
    }
  }
}
