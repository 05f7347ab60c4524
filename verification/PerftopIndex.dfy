/**
The two structures of HW4P2/perftop.c against the trace: what the hash table and the tree hold
after any sequence of switches.
*/
module PerftopIndex {
  import opened RbTree
  import opened Options
  import opened PerftopTrace
  import opened PerftopConservation
  import opened PerftopTable

  type Entries = map<int, Entry>

  /** Pids in the table are those seen so far, with the time that the next slice starts at. */
  ghost predicate TableAgrees(entries: Entries, t: Trace) {
    forall pid :: pid in entries <==> Start(t, pid).Some?
  }

  /** An entry has the start of its task, and a node with its pid and its total if it has one. */
  predicate EntryAgrees(e: Entry, pid: int, nodes: seq<RbNode>, t: Trace) {
    && e.pid == pid && Start(t, pid) == Some(e.tsc)
    && (e.node == null <==> Total(t, pid).None?)
    && (e.node != null ==> e.node in nodes && e.node.pid == pid && Total(t, pid) == Some(e.node.key))
  }

  /** `n` stands in front of `m`: a smaller total, or the same total from an earlier switch-out. */
  predicate Precedes(n: RbNode, m: RbNode, t: Trace) {
    n.key < m.key || (n.key == m.key && LastOut(t, n.pid) < LastOut(t, m.pid))
  }

  predicate Ranked(nodes: seq<RbNode>, t: Trace) {
    forall i, j :: 0 <= i < j < |nodes| ==> Precedes(nodes[i], nodes[j], t)
  }

  /** Every tree node belongs to the entry of its pid. */
  predicate NodesOwned(entries: Entries, nodes: seq<RbNode>) {
    forall i :: 0 <= i < |nodes| ==> nodes[i].pid in entries && entries[nodes[i].pid].node == nodes[i]
  }

  function KeySum(nodes: seq<RbNode>): int {
    if nodes == [] then 0 else nodes[0].key + KeySum(nodes[1..])
  }

  /** The whole agreement of table, tree and trace. */
  ghost predicate Agrees(entries: Entries, nodes: seq<RbNode>, t: Trace) {
    && TableAgrees(entries, t)
    && (forall pid :: pid in entries ==> EntryAgrees(entries[pid], pid, nodes, t))
    && NodesOwned(entries, nodes)
    && Ranked(nodes, t)
    && KeySum(nodes) % WORD == Counted(t) % WORD
  }

  // ---------- Sequences of nodes ----------

  lemma {:induction false} WithoutElements(q: seq<RbNode>, n: RbNode)
    requires forall i, j :: 0 <= i < j < |q| ==> q[i] != q[j]
    ensures forall i :: 0 <= i < |Without(q, n)| ==> Without(q, n)[i] in q && Without(q, n)[i] != n
    ensures forall i :: 0 <= i < |q| && q[i] != n ==> q[i] in Without(q, n)
  {
    if q != [] && q[0] != n {
      var rest := Without(q[1..], n);
      WithoutElements(q[1..], n);
      assert forall i :: 0 < i < |q| ==> q[i] == q[1..][i - 1];
      assert forall i :: 0 < i < |Without(q, n)| ==> Without(q, n)[i] == rest[i - 1];
    }
  }

  lemma {:induction false} WithoutRanked(q: seq<RbNode>, n: RbNode, t: Trace)
    requires Ranked(q, t)
    ensures Ranked(Without(q, n), t)
    ensures forall i :: 0 <= i < |Without(q, n)| ==> Without(q, n)[i] in q
  {
    if q != [] && q[0] != n {
      WithoutRanked(q[1..], n, t);
      var rest := Without(q[1..], n);
      forall j | 0 <= j < |rest|
        ensures Precedes(q[0], rest[j], t)
      {
        assert rest[j] in q[1..];
      }
    }
  }

  lemma {:induction false} WithoutSum(q: seq<RbNode>, n: RbNode)
    requires n in q
    ensures KeySum(Without(q, n)) == KeySum(q) - n.key
  {
    if q[0] != n {
      WithoutSum(q[1..], n);
      assert ([q[0]] + Without(q[1..], n))[1..] == Without(q[1..], n);
    }
  }

  lemma {:induction false} SumAppend(a: seq<RbNode>, b: seq<RbNode>)
    ensures KeySum(a + b) == KeySum(a) + KeySum(b)
  {
    if a == [] {
      assert a + b == b;
    } else {
      assert (a + b)[1..] == a[1..] + b;
      SumAppend(a[1..], b);
    }
  }

  lemma InsertedSum(q: seq<RbNode>, n: RbNode)
    ensures KeySum(Inserted(q, n)) == KeySum(q) + n.key
  {
    var k := UpTo(q, n.key);
    SumAppend(q[..k] + [n], q[k..]);
    SumAppend(q[..k], [n]);
    SumAppend(q[..k], q[k..]);
    assert q == q[..k] + q[k..];
  }

  lemma RankedIsSorted(q: seq<RbNode>, t: Trace)
    requires Ranked(q, t)
    ensures Sorted(q)
    ensures forall i, j :: 0 <= i < j < |q| ==> q[i] != q[j]
  {
    forall i, j | 0 <= i < j < |q|
      ensures q[i].key <= q[j].key && q[i] != q[j]
    {
      assert Precedes(q[i], q[j], t);
    }
  }

  lemma InsertedElements(q: seq<RbNode>, n: RbNode)
    ensures forall i :: 0 <= i < |Inserted(q, n)| ==> Inserted(q, n)[i] in q || Inserted(q, n)[i] == n
    ensures n in Inserted(q, n) && forall i :: 0 <= i < |q| ==> q[i] in Inserted(q, n)
  {
    InsertedAt(q, n);
    var k, r := UpTo(q, n.key), Inserted(q, n);
    forall i | 0 <= i < |q|
      ensures q[i] in r
    {
      assert q[i] == r[if i < k then i else i + 1];
    }
  }

  /** The new node goes behind all nodes with the same total, and it is the latest of them. */
  lemma InsertedRanked(q: seq<RbNode>, n: RbNode, t: Trace)
    requires Ranked(q, t) && forall i :: 0 <= i < |q| ==> LastOut(t, q[i].pid) < LastOut(t, n.pid)
    ensures Ranked(Inserted(q, n), t)
  {
    hide Inserted, LastOut;
    RankedIsSorted(q, t);
    UpToSplits(q, n.key);
    InsertedAt(q, n);
    var k, r := UpTo(q, n.key), Inserted(q, n);
    forall i, j | 0 <= i < j < |r|
      ensures Precedes(r[i], r[j], t)
    {
      if i == k {
        assert r[j] == q[j - 1];
      } else if j == k {
        assert r[i] == q[i];
      } else {
        assert Precedes(q[if i < k then i else i - 1], q[if j < k then j else j - 1], t);
      }
    }
  }

  // ---------- One switch ----------

  /** The table once the task that is switched from has an entry. */
  function WithPrev(entries: Entries, e: Event): Entries {
    if e.prev in entries then entries else entries[e.prev := Entry(e.now, e.prev, null)]
  }

  /** The total that the new node of the task gets. */
  function NewKey(entries: Entries, e: Event): int {
    var entry := WithPrev(entries, e)[e.prev];
    if entry.node != null then (entry.node.key + Elapsed(e.now, entry.tsc)) % WORD else 0
  }

  /** The nodes that stay in the tree. */
  function Remaining(entries: Entries, nodes: seq<RbNode>, e: Event): seq<RbNode> {
    var entry := WithPrev(entries, e)[e.prev];
    if entry.node != null then Without(nodes, entry.node) else nodes
  }

  function TreeAfter(entries: Entries, nodes: seq<RbNode>, e: Event, n: RbNode): seq<RbNode> {
    Inserted(Remaining(entries, nodes, e), n)
  }

  function TableAfter(entries: Entries, e: Event, n: RbNode): Entries {
    var filed := WithPrev(entries, e)[e.prev := WithPrev(entries, e)[e.prev].(node := n)];
    filed[e.next := if e.next in filed then filed[e.next].(tsc := e.now) else Entry(e.now, e.next, null)]
  }

  /** What the handler relies on when it has found or made the entry of the task. */
  lemma PrevIsReady(entries: Entries, nodes: seq<RbNode>, t: Trace, e: Event)
    requires Agrees(entries, nodes, t)
    ensures Ranked(nodes, t)
    ensures
      var entry := WithPrev(entries, e)[e.prev];
      entry.pid == e.prev && (entry.node != null ==> entry.node in nodes)
  {
    if e.prev in entries {
      assert EntryAgrees(entries[e.prev], e.prev, nodes, t);
    }
  }

  lemma RemainingIs(entries: Entries, nodes: seq<RbNode>, t: Trace, e: Event)
    requires Agrees(entries, nodes, t)
    ensures Ranked(Remaining(entries, nodes, e), t)
    ensures
      var rest := Remaining(entries, nodes, e);
      && (forall i :: 0 <= i < |rest| ==> rest[i] in nodes && rest[i].pid != e.prev)
      && (forall i :: 0 <= i < |nodes| && nodes[i].pid != e.prev ==> nodes[i] in rest)
  {
    RankedIsSorted(nodes, t);
    var entry := WithPrev(entries, e)[e.prev];
    forall i | 0 <= i < |nodes|
      ensures nodes[i].pid == e.prev <==> entry.node == nodes[i]
    {
      assert entries[nodes[i].pid].node == nodes[i];
      if entry.node == nodes[i] {
        assert EntryAgrees(entries[e.prev], e.prev, nodes, t);
      }
    }
    if entry.node != null {
      WithoutRanked(nodes, entry.node, t);
      WithoutElements(nodes, entry.node);
    }
  }

  lemma TreeAfterRanked(entries: Entries, nodes: seq<RbNode>, t: Trace, e: Event, n: RbNode)
    requires Agrees(entries, nodes, t) && n.pid == e.prev
    ensures Ranked(TreeAfter(entries, nodes, e, n), t + [e])
    ensures
      var nodes' := TreeAfter(entries, nodes, e, n);
      && (forall i :: 0 <= i < |nodes'| ==> nodes'[i] == n || (nodes'[i] in nodes && nodes'[i].pid != e.prev))
      && n in nodes' && (forall i :: 0 <= i < |nodes| && nodes[i].pid != e.prev ==> nodes[i] in nodes')
  {
    RemainingIs(entries, nodes, t, e);
    var rest := Remaining(entries, nodes, e);
    Append(t, e, e.prev);
    forall i | 0 <= i < |rest|
      ensures LastOut(t + [e], rest[i].pid) == LastOut(t, rest[i].pid) < |t|
    {
      Append(t, e, rest[i].pid);
    }
    forall i, j | 0 <= i < j < |rest|
      ensures Precedes(rest[i], rest[j], t + [e])
    {
      assert Precedes(rest[i], rest[j], t);
    }
    InsertedElements(rest, n);
    InsertedRanked(rest, n, t + [e]);
  }

  lemma TreeAfterSum(entries: Entries, nodes: seq<RbNode>, t: Trace, e: Event, n: RbNode)
    requires Agrees(entries, nodes, t) && n.pid == e.prev && n.key == NewKey(entries, e)
    ensures KeySum(TreeAfter(entries, nodes, e, n)) % WORD == Counted(t + [e]) % WORD
  {
    assert (t + [e])[..|t|] == t;
    var entry, rest := WithPrev(entries, e)[e.prev], Remaining(entries, nodes, e);
    InsertedSum(rest, n);
    if e.prev in entries {
      assert EntryAgrees(entries[e.prev], e.prev, nodes, t);
    } else {
      SwitchedOut(t, e.prev);
    }
    if entry.node != null {
      WithoutSum(nodes, entry.node);
      var slice := Elapsed(e.now, entry.tsc);
      assert Slice(t, e) == slice;
      ModPlus(KeySum(nodes) - entry.node.key, KeySum(nodes) - entry.node.key, entry.node.key + slice);
      ModSame(KeySum(nodes), Counted(t), slice);
    }
  }

  lemma ModSame(a: int, b: int, c: int)
    requires a % WORD == b % WORD
    ensures (a + c) % WORD == (b + c) % WORD
  {
    var q := a / WORD - b / WORD;
    assert a + c == (b + c) + WORD * q;
  }

  lemma EntriesAfter(entries: Entries, nodes: seq<RbNode>, t: Trace, e: Event, n: RbNode, pid: int)
    requires Agrees(entries, nodes, t) && n.pid == e.prev && n.key == NewKey(entries, e)
    ensures
      var after := TableAfter(entries, e, n);
      && (pid in after <==> Start(t + [e], pid).Some?)
      && (pid in after ==> EntryAgrees(after[pid], pid, TreeAfter(entries, nodes, e, n), t + [e]))
  {
    hide TreeAfter, Ranked, KeySum, Counted, Start, Total, LastOut, NodesOwned;
    Append(t, e, pid);
    TreeAfterRanked(entries, nodes, t, e, n);
    if pid in entries {
      assert EntryAgrees(entries[pid], pid, nodes, t);
    } else {
      SwitchedOut(t, pid);
    }
  }

  lemma NodesOwnedAfter(entries: Entries, nodes: seq<RbNode>, t: Trace, e: Event, n: RbNode)
    requires Agrees(entries, nodes, t) && n.pid == e.prev
    ensures NodesOwned(TableAfter(entries, e, n), TreeAfter(entries, nodes, e, n))
  {
    var after, nodes' := TableAfter(entries, e, n), TreeAfter(entries, nodes, e, n);
    TreeAfterRanked(entries, nodes, t, e, n);
    forall i | 0 <= i < |nodes'|
      ensures nodes'[i].pid in after && after[nodes'[i].pid].node == nodes'[i]
    {
      var m := nodes'[i];
      if m != n {
        var k :| 0 <= k < |nodes| && nodes[k] == m;
        assert entries[nodes[k].pid].node == nodes[k];
      }
    }
  }

  /** One switch keeps table, tree and trace in agreement. */
  lemma SwitchKeepsAgreement(entries: Entries, nodes: seq<RbNode>, t: Trace, e: Event, n: RbNode)
    requires Agrees(entries, nodes, t) && n.pid == e.prev && n.key == NewKey(entries, e)
    ensures Agrees(TableAfter(entries, e, n), TreeAfter(entries, nodes, e, n), t + [e])
  {
    var after, nodes' := TableAfter(entries, e, n), TreeAfter(entries, nodes, e, n);
    forall pid
      ensures pid in after <==> Start(t + [e], pid).Some?
      ensures pid in after ==> EntryAgrees(after[pid], pid, nodes', t + [e])
    {
      EntriesAfter(entries, nodes, t, e, n, pid);
    }
    TreeAfterRanked(entries, nodes, t, e, n);
    TreeAfterSum(entries, nodes, t, e, n);
    NodesOwnedAfter(entries, nodes, t, e, n);
  }
}
