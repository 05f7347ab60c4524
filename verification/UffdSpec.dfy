/**
The closed answer to the demand-paging demo of HW3P1/uffd/uffd.c: which lines its eight loops
print and which faults they take, from the number of pages alone.
*/
module UffdSpec {
  import opened Division

  /** The loops step over the region by this many bytes. */
  const STEP: nat := 1024

  datatype Event = Fault(page: nat) | Line(loop: nat, address: nat, c: char)

  /** What the pages hold: the letters of consecutive faults, or one character. */
  datatype Content = Letters(first: nat) | Same(c: char)

  /** What the handler fills a page with, by the number of faults before. */
  function Letter(count: nat): (c: char)
    ensures c as int == 'A' as int + count % 20
  {
    'A' + (count % 20) as char
  }

  function At(content: Content, page: nat): char {
    match content
    case Letters(first) => Letter(first + page)
    case Same(c) => c
  }

  /** The access number `i` of a loop, with `per` accesses to a page. */
  function Access(loop: nat, faults: bool, content: Content, per: nat, i: nat): seq<Event>
    requires per > 0
  {
    (if faults && i % per == 0 then [Fault(i / per)] else []) + [Line(loop, STEP * i, At(content, i / per))]
  }

  /** The first `k` accesses of a loop. */
  function Sweep(loop: nat, faults: bool, content: Content, per: nat, k: nat): seq<Event>
    requires per > 0
  {
    if k == 0 then []
    else Sweep(loop, faults, content, per, k - 1) + Access(loop, faults, content, per, k - 1)
  }

  // ---------- The eight loops ----------

  /** The region was discarded in front of the third and the fifth loop, and is new to the first. */
  predicate Discarded(loop: nat) {
    loop == 1 || loop == 3 || loop == 5
  }

  function ContentOf(loop: nat, n: nat): Content {
    if loop <= 2 then Letters(0)
    else if loop <= 4 then Letters(n)
    else if loop <= 6 then Same('@')
    else Same('^')
  }

  function Loop(loop: nat, n: nat, per: nat): seq<Event>
    requires per > 0
  {
    Sweep(loop, Discarded(loop), ContentOf(loop, n), per, n * per)
  }

  /** The run up to a loop. */
  function Runs(loops: nat, n: nat, per: nat): seq<Event>
    requires per > 0
  {
    if loops == 0 then [] else Runs(loops - 1, n, per) + Loop(loops, n, per)
  }

  // ---------- Pages and remainders ----------

  lemma PageBelow(i: nat, per: nat, pages: nat)
    requires per > 0 && i < pages * per
    ensures i / per < pages
  {
    var q := i / per;
    assert i == q * per + i % per;
    if pages < q {
      Below(pages, q, per);
    }
  }

  lemma NextPage(k: nat, per: nat)
    requires per > 0
    ensures (k + 1) % per == if k % per + 1 == per then 0 else k % per + 1
    ensures (k + 1) / per == k / per + if k % per + 1 == per then 1 else 0
  {
    var p, o := k / per, k % per;
    assert k == p * per + o;
    if o + 1 == per {
      Divided(k + 1, p + 1, 0, per);
    } else {
      Divided(k + 1, p, o + 1, per);
    }
  }

  /** The number of pages that `k` accesses reach. */
  function Reached(k: nat, per: nat): nat
    requires per > 0
  {
    (k + per - 1) / per
  }

  lemma ReachedNext(i: nat, per: nat)
    requires per > 0
    ensures Reached(i + 1, per) == i / per + 1
    ensures Reached(i, per) == i / per + if i % per == 0 then 0 else 1
    ensures Reached(0, per) == 0
  {
    var q, r := i / per, i % per;
    assert i == q * per + r;
    Divided(i + per, q + 1, r, per);
    if r == 0 {
      Divided(i + per - 1, q, per - 1, per);
    } else {
      Divided(i + per - 1, q + 1, r - 1, per);
    }
    Divided(per - 1, 0, per - 1, per);
  }

  lemma AllReached(n: nat, per: nat)
    requires per > 0
    ensures Reached(n * per, per) == n && (n * per) / per == n && (n * per) % per == 0
  {
    Divided(n * per + per - 1, n, per - 1, per);
    Divided(n * per, n, 0, per);
  }

  // ---------- Reading the answer off ----------

  /** The pages of the faults, in order. */
  function Faults(log: seq<Event>): seq<nat> {
    if log == [] then []
    else
      var e, before := log[|log| - 1], Faults(log[..|log| - 1]);
      if e.Fault? then before + [e.page] else before
  }

  /** The lines of one loop, in order. */
  function Lines(log: seq<Event>, loop: nat): seq<Event> {
    if log == [] then []
    else
      var e, before := log[|log| - 1], Lines(log[..|log| - 1], loop);
      if e.Line? && e.loop == loop then before + [e] else before
  }

  lemma {:induction false} LogAppend(a: seq<Event>, b: seq<Event>, loop: nat)
    ensures Faults(a + b) == Faults(a) + Faults(b)
    ensures Lines(a + b, loop) == Lines(a, loop) + Lines(b, loop)
  {
    if b == [] {
      assert a + b == a;
    } else {
      LogAppend(a, b[..|b| - 1], loop);
      assert (a + b)[..|a + b| - 1] == a + b[..|b| - 1] && (a + b)[|a + b| - 1] == b[|b| - 1];
    }
  }

  /** The pages below `n` in order. */
  function PagesUpTo(n: nat): (pages: seq<nat>)
    ensures |pages| == n && forall p :: 0 <= p < n ==> pages[p] == p
  {
    seq(n, p => p)
  }

  /** One line for each of the first `k` addresses, with the character of its page. */
  function LinesUpTo(loop: nat, content: Content, per: nat, k: nat): seq<Event>
    requires per > 0
  {
    seq(k, i requires 0 <= i < k => Line(loop, STEP * i, At(content, i / per)))
  }

  lemma OneMoreLine(loop: nat, content: Content, per: nat, k: nat)
    requires per > 0
    ensures LinesUpTo(loop, content, per, k + 1) ==
      LinesUpTo(loop, content, per, k) + [Line(loop, STEP * k, At(content, k / per))]
  {
  }

  lemma OneEvent(e: Event, loop: nat)
    ensures Faults([e]) == if e.Fault? then [e.page] else []
    ensures Lines([e], loop) == if e.Line? && e.loop == loop then [e] else []
  {
    assert [e][..0] == [];
  }

  lemma AccessIs(loop: nat, faults: bool, content: Content, per: nat, i: nat, other: nat)
    requires per > 0
    ensures
      var log := Access(loop, faults, content, per, i);
      && Lines(log, other) == (if other == loop then [Line(loop, STEP * i, At(content, i / per))] else [])
      && Faults(log) == if faults && i % per == 0 then [i / per] else []
  {
    hide Lines, Faults, At;
    var line := Line(loop, STEP * i, At(content, i / per));
    OneEvent(line, other);
    if faults && i % per == 0 {
      OneEvent(Fault(i / per), other);
      LogAppend([Fault(i / per)], [line], other);
    } else {
      assert Access(loop, faults, content, per, i) == [line];
    }
  }

  lemma ReachedMore(k: nat, per: nat)
    requires per > 0
    ensures k % per == 0 ==> PagesUpTo(Reached(k + 1, per)) == PagesUpTo(Reached(k, per)) + [k / per]
    ensures k % per != 0 ==> Reached(k + 1, per) == Reached(k, per)
  {
    ReachedNext(k, per);
  }

  lemma SweepBegins(loop: nat, faults: bool, content: Content, per: nat)
    requires per > 0
    ensures Sweep(loop, faults, content, per, 0) == []
  {
  }

  lemma SweepGoesOn(loop: nat, faults: bool, content: Content, per: nat, k: nat)
    requires per > 0
    ensures Sweep(loop, faults, content, per, k + 1)
         == Sweep(loop, faults, content, per, k) + Access(loop, faults, content, per, k)
  {
  }

  /** One more access, behind any log. */
  lemma OneMoreAccess(log: seq<Event>, loop: nat, faults: bool, content: Content, per: nat, k: nat, other: nat)
    requires per > 0
    ensures
      var more := log + Access(loop, faults, content, per, k);
      && (other == loop ==> Lines(more, other) == Lines(log, other) + [Line(loop, STEP * k, At(content, k / per))])
      && (other != loop ==> Lines(more, other) == Lines(log, other))
      && (faults && k % per == 0 ==> Faults(more) == Faults(log) + [k / per])
      && (!faults || k % per != 0 ==> Faults(more) == Faults(log))
  {
    hide Faults, Lines, Access;
    AccessIs(loop, faults, content, per, k, other);
    LogAppend(log, Access(loop, faults, content, per, k), other);
  }

  lemma NothingSeen(loop: nat, content: Content, per: nat, other: nat)
    requires per > 0
    ensures Lines([], other) == LinesUpTo(loop, content, per, 0) == []
    ensures Faults([]) == PagesUpTo(Reached(0, per)) == []
  {
    ReachedNext(0, per);
  }

  /** A loop prints one line for each access. */
  lemma {:induction false} SweepPrints(loop: nat, faults: bool, content: Content, per: nat, k: nat, other: nat)
    requires per > 0
    ensures Lines(Sweep(loop, faults, content, per, k), other) ==
      if other == loop then LinesUpTo(loop, content, per, k) else []
  {
    hide *;
    if k == 0 {
      SweepBegins(loop, faults, content, per);
      NothingSeen(loop, content, per, other);
    } else {
      SweepPrints(loop, faults, content, per, k - 1, other);
      SweepGoesOn(loop, faults, content, per, k - 1);
      OneMoreAccess(Sweep(loop, faults, content, per, k - 1), loop, faults, content, per, k - 1, other);
      OneMoreLine(loop, content, per, k - 1);
    }
  }

  /** A loop on missing pages faults once, at the first access to each page. */
  lemma {:induction false} SweepFaults(loop: nat, faults: bool, content: Content, per: nat, k: nat)
    requires per > 0
    ensures Faults(Sweep(loop, faults, content, per, k)) == if faults then PagesUpTo(Reached(k, per)) else []
  {
    hide *;
    if k == 0 {
      SweepBegins(loop, faults, content, per);
      NothingSeen(loop, content, per, loop);
    } else {
      SweepFaults(loop, faults, content, per, k - 1);
      SweepGoesOn(loop, faults, content, per, k - 1);
      OneMoreAccess(Sweep(loop, faults, content, per, k - 1), loop, faults, content, per, k - 1, loop);
      ReachedMore(k - 1, per);
    }
  }

  function LoopLines(loop: nat, n: nat, per: nat): seq<Event>
    requires per > 0
  {
    LinesUpTo(loop, ContentOf(loop, n), per, n * per)
  }

  lemma LoopIs(loop: nat, n: nat, per: nat, other: nat)
    requires per > 0
    ensures Lines(Loop(loop, n, per), other) ==
      if other == loop then LoopLines(loop, n, per) else []
    ensures Faults(Loop(loop, n, per)) == if Discarded(loop) then PagesUpTo(n) else []
  {
    SweepPrints(loop, Discarded(loop), ContentOf(loop, n), per, n * per, other);
    SweepFaults(loop, Discarded(loop), ContentOf(loop, n), per, n * per);
    AllReached(n, per);
  }

  lemma {:induction false} RunsPrint(loops: nat, n: nat, per: nat, loop: nat)
    requires per > 0 && 1 <= loop
    ensures Lines(Runs(loops, n, per), loop) == if loop <= loops then LoopLines(loop, n, per) else []
  {
    if loops > 0 {
      hide Lines, Faults, Loop, LoopLines, Discarded;
      RunsPrint(loops - 1, n, per, loop);
      LoopIs(loops, n, per, loop);
      LogAppend(Runs(loops - 1, n, per), Loop(loops, n, per), loop);
    }
  }

  /** The number of loops that found the region missing. */
  function Discards(loops: nat): nat {
    if loops == 0 then 0 else Discards(loops - 1) + if Discarded(loops) then 1 else 0
  }

  /** All pages in order, `rounds` times. */
  function Rounds(n: nat, rounds: nat): seq<nat> {
    if rounds == 0 then [] else Rounds(n, rounds - 1) + PagesUpTo(n)
  }

  lemma {:induction false} RunsFault(loops: nat, n: nat, per: nat)
    requires per > 0
    ensures Faults(Runs(loops, n, per)) == Rounds(n, Discards(loops))
  {
    if loops > 0 {
      hide Lines, Faults, Loop, PagesUpTo, Discarded;
      RunsFault(loops - 1, n, per);
      LoopIs(loops, n, per, loops);
      LogAppend(Runs(loops - 1, n, per), Loop(loops, n, per), loops);
    }
  }

  /**
  The answer: the run faults once a page and in page order in each of three rounds, 3n times in
  all; and every loop prints, at each of its n * per addresses, the character of its page.
  */
  lemma DemoAnswer(n: nat, per: nat, loop: nat)
    requires per > 0 && 1 <= loop <= 8
    ensures Faults(Runs(8, n, per)) == PagesUpTo(n) + PagesUpTo(n) + PagesUpTo(n)
    ensures |Faults(Runs(8, n, per))| == 3 * n
    ensures
      var lines := Lines(Runs(8, n, per), loop);
      && |lines| == n * per
      && (forall i :: 0 <= i < n * per ==> lines[i].Line? && lines[i].loop == loop && lines[i].address == 1024 * i)
      && (forall i :: 0 <= i < n * per && loop <= 2 ==> lines[i].c as int == 65 + (i / per) % 20)
      && (forall i :: 0 <= i < n * per && 3 <= loop <= 4 ==> lines[i].c as int == 65 + (n + i / per) % 20)
      && (forall i :: 0 <= i < n * per && 5 <= loop <= 6 ==> lines[i].c == '@')
      && (forall i :: 0 <= i < n * per && 7 <= loop ==> lines[i].c == '^')
  {
    hide *;
    RunsPrint(8, n, per, loop);
    RunsFault(8, n, per);
    ThreeRounds(n);
    LoopLinesAre(n, per, loop);
  }

  lemma ThreeRounds(n: nat)
    ensures Rounds(n, Discards(8)) == PagesUpTo(n) + PagesUpTo(n) + PagesUpTo(n)
    ensures |Rounds(n, Discards(8))| == 3 * n
  {
    assert Discards(4) == 2 && Discards(8) == 3;
    assert Rounds(n, 0) == [] && Rounds(n, 1) == PagesUpTo(n) && Rounds(n, 2) == PagesUpTo(n) + PagesUpTo(n);
  }

  lemma LoopLinesAre(n: nat, per: nat, loop: nat)
    requires per > 0 && 1 <= loop <= 8
    ensures
      var lines := LoopLines(loop, n, per);
      && |lines| == n * per
      && (forall i :: 0 <= i < n * per ==> lines[i].Line? && lines[i].loop == loop && lines[i].address == 1024 * i)
      && (forall i :: 0 <= i < n * per && loop <= 2 ==> lines[i].c as int == 65 + (i / per) % 20)
      && (forall i :: 0 <= i < n * per && 3 <= loop <= 4 ==> lines[i].c as int == 65 + (n + i / per) % 20)
      && (forall i :: 0 <= i < n * per && 5 <= loop <= 6 ==> lines[i].c == '@')
      && (forall i :: 0 <= i < n * per && 7 <= loop ==> lines[i].c == '^')
  {
  }
}
