/**
What HW4P2/perftop.c accounts, as a fold over the context switches alone: no hash table, no
tree. Timestamps and totals are 64-bit words.
*/
module PerftopTrace {
  import opened Options

  const WORD: nat := 0x1_0000_0000_0000_0000

  type Word = x: nat | x < WORD

  /** A recorded switch on one CPU, from the task `prev` to the task `next`. */
  datatype Event = Event(cpu: nat, prev: int, next: int, now: Word)

  type Trace = seq<Event>

  /** `current_tsc - start_tsc` on unsigned words. */
  function Elapsed(now: Word, start: Word): (r: Word)
    ensures (start + r - now) % 0x1_0000_0000_0000_0000 == 0
    ensures start <= now ==> r == now - start
  {
    (now - start) % WORD
  }

  function Plus(a: Word, b: Word): (r: Word)
    ensures (r - a - b) % 0x1_0000_0000_0000_0000 == 0
    ensures a + b < 0x1_0000_0000_0000_0000 ==> r == a + b
  {
    (a + b) % WORD
  }

  /** The latest time a task was switched to; if never, the first time it was switched from. */
  function Start(t: Trace, pid: int): Option<Word> {
    if t == [] then None
    else
      var e, before := t[|t| - 1], Start(t[..|t| - 1], pid);
      if e.next == pid then Some(e.now)
      else if e.prev == pid && before.None? then Some(e.now)
      else before
  }

  /** The slice that ends at event `e`, after the events of `t`. */
  function Slice(t: Trace, e: Event): Word {
    match Start(t, e.prev)
    case None => 0
    case Some(start) => Elapsed(e.now, start)
  }

  /** The total of a task: zero at its first switch-out, one more slice at each later one. */
  function Total(t: Trace, pid: int): Option<Word> {
    if t == [] then None
    else
      var e, before := t[|t| - 1], Total(t[..|t| - 1], pid);
      if e.prev != pid then before
      else if before.None? then Some(0)
      else Some(Plus(before.value, Slice(t[..|t| - 1], e)))
  }

  /** The position of the last switch-out of a task, or -1. */
  function LastOut(t: Trace, pid: int): (k: int)
    ensures -1 <= k < |t|
  {
    if t == [] then -1
    else if t[|t| - 1].prev == pid then |t| - 1
    else LastOut(t[..|t| - 1], pid)
  }

  lemma Append(t: Trace, e: Event, pid: int)
    ensures Start(t + [e], pid) ==
      if e.next == pid then Some(e.now)
      else if e.prev == pid && Start(t, pid).None? then Some(e.now)
      else Start(t, pid)
    ensures Total(t + [e], pid) ==
      if e.prev != pid then Total(t, pid)
      else if Total(t, pid).None? then Some(0)
      else Some(Plus(Total(t, pid).value, Slice(t, e)))
    ensures LastOut(t + [e], pid) == if e.prev == pid then |t| else LastOut(t, pid)
  {
    assert (t + [e])[..|t|] == t;
  }

  /** A task that was switched from has a start and a last switch-out. */
  lemma {:induction false} SwitchedOut(t: Trace, pid: int)
    ensures Total(t, pid).Some? <==> LastOut(t, pid) >= 0
    ensures Total(t, pid).Some? ==> Start(t, pid).Some?
  {
    if t != [] {
      SwitchedOut(t[..|t| - 1], pid);
    }
  }

  /** No later switch is from the task. */
  lemma {:induction false} LastOutIsLast(t: Trace, pid: int)
    ensures LastOut(t, pid) >= 0 ==> t[LastOut(t, pid)].prev == pid
    ensures forall k :: LastOut(t, pid) < k < |t| ==> t[k].prev != pid
  {
    if t != [] && t[|t| - 1].prev != pid {
      LastOutIsLast(t[..|t| - 1], pid);
      assert forall k :: 0 <= k < |t| - 1 ==> t[k] == t[..|t| - 1][k];
    }
  }

  predicate Mentions(t: Trace, pid: int) {
    exists k :: 0 <= k < |t| && (t[k].next == pid || t[k].prev == pid)
  }

  /** Event `k` is the latest pick of the task or, if it was never picked, its first switch-out. */
  predicate StartsAt(t: Trace, pid: int, k: nat)
    requires k < |t|
  {
    || (t[k].next == pid && forall j :: k < j < |t| ==> t[j].next != pid)
    || (&& t[k].prev == pid && (forall j :: 0 <= j < |t| ==> t[j].next != pid)
        && (forall j :: 0 <= j < k ==> t[j].prev != pid))
  }

  lemma StartsAtKeeps(t: Trace, e: Event, pid: int, k: nat)
    requires k < |t| && StartsAt(t, pid, k) && e.next != pid
    ensures StartsAt(t + [e], pid, k)
  {
    assert forall j :: 0 <= j < |t| ==> (t + [e])[j] == t[j];
  }

  /** What the start of a task means in terms of positions in the trace. */
  lemma {:induction false} StartIsLatestPick(t: Trace, pid: int)
    ensures Start(t, pid).None? <==> !Mentions(t, pid)
    ensures Start(t, pid).Some? ==>
      exists k :: 0 <= k < |t| && StartsAt(t, pid, k) && t[k].now == Start(t, pid).value
  {
    if t != [] {
      var n := |t| - 1;
      var before, e := t[..n], t[n];
      StartIsLatestPick(before, pid);
      assert t == before + [e];
      MentionsAppend(before, e, pid);
      if e.next == pid {
        assert StartsAt(t, pid, n);
      } else if Start(before, pid).Some? {
        var k :| 0 <= k < n && StartsAt(before, pid, k) && before[k].now == Start(before, pid).value;
        StartsAtKeeps(before, e, pid, k);
        assert t[k] == before[k];
      } else if e.prev == pid {
        assert forall j :: 0 <= j < n ==> t[j] == before[j];
        assert forall j :: 0 <= j < n ==> before[j].next != pid && before[j].prev != pid;
        assert StartsAt(t, pid, n);
      }
    }
  }

  lemma MentionsAppend(t: Trace, e: Event, pid: int)
    ensures Mentions(t + [e], pid) <==> Mentions(t, pid) || e.next == pid || e.prev == pid
  {
    var t' := t + [e];
    assert t'[|t|] == e;
    if Mentions(t, pid) {
      var k :| 0 <= k < |t| && (t[k].next == pid || t[k].prev == pid);
      assert t'[k] == t[k];
    }
  }
}
