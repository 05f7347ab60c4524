/**
The demand-paging demo of HW3P1/uffd/uffd.c: a region whose pages are filled by a fault handler
at their first touch, and the eight loops that read and overwrite it.
*/
module Uffd {
  import opened Options
  import opened Division
  import opened UffdSpec

  function Bytes(c: char, n: nat): (bytes: seq<char>)
    ensures |bytes| == n && forall x :: 0 <= x < n ==> bytes[x] == c
  {
    seq(n, _ => c)
  }

  /** The bytes from `from` on, `count` of them, overwritten with `c`. */
  function Overwritten(bytes: seq<char>, from: nat, count: nat, c: char): (r: seq<char>)
    ensures |r| == |bytes|
    ensures forall x :: 0 <= x < |r| ==> r[x] == if from <= x < from + count then c else bytes[x]
  {
    seq(|bytes|, x requires 0 <= x < |bytes| => if from <= x < from + count then c else bytes[x])
  }

  /** Where byte `j` behind address `STEP * i` lies. */
  lemma Place(i: nat, j: nat, per: nat)
    requires per > 0 && j < STEP
    ensures (STEP * i + j) / (STEP * per) == i / per
    ensures (STEP * i + j) % (STEP * per) == STEP * (i % per) + j
    ensures STEP * (i % per) + STEP <= STEP * per
  {
    var q, r := i / per, i % per;
    assert i == q * per + r;
    assert STEP * i == q * (STEP * per) + STEP * r;
    Divided(STEP * i + j, q, STEP * r + j, STEP * per);
  }

  class Region {
    const pages: nat
    const per: nat
    const pageSize: nat
    /** The registered pages; a missing one faults. */
    var memory: seq<Option<seq<char>>>
    /** The handler's own page, its counter, and what was reported so far. */
    var page: seq<char>
    var faultCnt: nat
    var log: seq<Event>

    predicate Valid()
      reads this`memory
    {
      && per > 0 && pageSize == STEP * per && |memory| == pages
      && (forall p :: 0 <= p < pages && memory[p].Some? ==> |memory[p].value| == pageSize)
    }

    constructor (pages: nat, per: nat)
      requires per > 0
      ensures Valid() && this.pages == pages && this.per == per
      ensures faultCnt == 0 && log == [] && AllMissing()
    {
      this.pages, this.per, this.pageSize := pages, per, STEP * per;
      memory := seq(pages, _ => None);
      page, faultCnt, log := [], 0, [];
    }

    predicate AllMissing()
      reads this`memory
    {
      forall p :: 0 <= p < |memory| ==> memory[p].None?
    }

    /** Every page is there with its content. */
    predicate AllFilled(content: Content)
      reads this`memory
    {
      forall p :: 0 <= p < |memory| ==> memory[p] == Some(Bytes(At(content, p), pageSize))
    }

    /** What page `p` holds once it is there. */
    function Base(p: nat): (bytes: seq<char>)
      reads this`memory, this`faultCnt
      requires Valid() && p < pages
      ensures |bytes| == pageSize
    {
      if memory[p].None? then Bytes(Letter(faultCnt), pageSize) else memory[p].value
    }

    /** The handler: fill its page with the next letter and copy it to where the address is. */
    method HandleFault(address: nat)
      requires Valid() && address / pageSize < pages && memory[address / pageSize].None?
      modifies this`memory, this`page, this`faultCnt, this`log
      ensures Valid() && faultCnt == old(faultCnt) + 1 && log == old(log) + [Fault(address / pageSize)]
      ensures memory == old(memory)[address / pageSize := Some(Bytes(Letter(old(faultCnt)), pageSize))]
      ensures forall x :: 0 <= x < pageSize ==>
        memory[address / pageSize].value[x] as int == 65 + old(faultCnt) % 20
    {
      page := Bytes(Letter(faultCnt), pageSize);
      faultCnt := faultCnt + 1;
      var dst := address - address % pageSize;
      Divided(dst, address / pageSize, 0, pageSize);
      memory := memory[dst / pageSize := Some(page)];
      log := log + [Fault(dst / pageSize)];
    }

    /** Any access to an address first makes its page present. */
    method Touch(address: nat)
      requires Valid() && address / pageSize < pages
      modifies this`memory, this`page, this`faultCnt, this`log
      ensures Valid()
      ensures memory == old(memory)[address / pageSize := Some(old(Base(address / pageSize)))]
      ensures faultCnt == old(faultCnt) + if old(memory)[address / pageSize].None? then 1 else 0
      ensures log == old(log) + if old(memory)[address / pageSize].None? then [Fault(address / pageSize)] else []
    {
      if memory[address / pageSize].None? {
        HandleFault(address);
      }
    }

    method Load(address: nat) returns (c: char)
      requires Valid() && address / pageSize < pages
      modifies this`memory, this`page, this`faultCnt, this`log
      ensures Valid()
      ensures memory == old(memory)[address / pageSize := Some(old(Base(address / pageSize)))]
      ensures faultCnt == old(faultCnt) + if old(memory)[address / pageSize].None? then 1 else 0
      ensures log == old(log) + if old(memory)[address / pageSize].None? then [Fault(address / pageSize)] else []
      ensures c == old(Base(address / pageSize))[address % pageSize]
    {
      Touch(address);
      c := memory[address / pageSize].value[address % pageSize];
    }

    /** `memset(addr + l, c, 1024)`, byte by byte. */
    method Memset(l: nat, c: char, ghost i: nat)
      requires Valid() && l == STEP * i && i / per < pages
      modifies this`memory, this`page, this`faultCnt, this`log
      ensures Valid()
      ensures memory == old(memory)[i / per :=
        Some(Overwritten(old(Base(i / per)), STEP * (i % per), STEP, c))]
      ensures faultCnt == old(faultCnt) + if old(memory)[i / per].None? then 1 else 0
      ensures log == old(log) + if old(memory)[i / per].None? then [Fault(i / per)] else []
    {
      ghost var p, o, base := i / per, STEP * (i % per), Base(i / per);
      var j := 0;
      while j < STEP
        invariant 0 <= j <= STEP && Valid()
        invariant j == 0 ==> memory == old(memory) && faultCnt == old(faultCnt) && log == old(log)
        invariant j > 0 ==> memory == old(memory)[p := Some(Overwritten(base, o, j, c))]
        invariant j > 0 ==> faultCnt == old(faultCnt) + if old(memory)[p].None? then 1 else 0
        invariant j > 0 ==> log == old(log) + if old(memory)[p].None? then [Fault(p)] else []
      {
        Place(i, j, per);
        Touch(l + j);
        var bytes := memory[(l + j) / pageSize].value;
        memory := memory[(l + j) / pageSize := Some(bytes[(l + j) % pageSize := c])];
        assert bytes[o + j := c] == Overwritten(base, o, j + 1, c);
        j := j + 1;
      }
    }

    /** The pages below `k`, or all if none was missing, hold their content; the others are missing. */
    ghost predicate FilledUpTo(content: Content, faults: bool, k: nat)
      reads this`memory
    {
      forall p :: 0 <= p < |memory| ==>
        memory[p] == if faults && p >= k then None else Some(Bytes(At(content, p), pageSize))
    }

    /** One step of a reading loop. */
    method ReadStep(loop: nat, l: nat, ghost faults: bool, ghost content: Content, ghost first: nat, ghost i: nat)
      requires Valid() && l == STEP * i && i / per < pages
      requires FilledUpTo(content, faults, Reached(i, per))
      requires faults ==> content == Letters(first) && faultCnt == first + Reached(i, per)
      modifies this`memory, this`page, this`faultCnt, this`log
      ensures Valid() && FilledUpTo(content, faults, Reached(i + 1, per))
      ensures faultCnt == old(faultCnt) + if faults then Reached(i + 1, per) - Reached(i, per) else 0
      ensures log == old(log) + Access(loop, faults, content, per, i)
    {
      Place(i, 0, per);
      ReachedNext(i, per);
      hide Reached;
      var c := Load(l);
      log := log + [Line(loop, l, c)];
    }

    /** A loop that reads one byte at each step and prints it. */
    method ReadLoop(loop: nat, ghost faults: bool, ghost content: Content)
      requires Valid()
      requires if faults then AllMissing() && content == Letters(faultCnt) else AllFilled(content)
      modifies this`memory, this`page, this`faultCnt, this`log
      ensures Valid() && AllFilled(content)
      ensures faultCnt == old(faultCnt) + if faults then pages else 0
      ensures log == old(log) + Sweep(loop, faults, content, per, pages * per)
    {
      hide Reached, Access, Sweep, At;
      var l, len := 0, pages * pageSize;
      ghost var i, accesses := 0, pages * per;
      LengthIs(pages, per);
      ReachedNext(0, per);
      SweepBegins(loop, faults, content, per);
      while l < len
        invariant l == STEP * i && i <= accesses && Valid()
        invariant FilledUpTo(content, faults, Reached(i, per))
        invariant faultCnt == old(faultCnt) + if faults then Reached(i, per) else 0
        invariant log == old(log) + Sweep(loop, faults, content, per, i)
        decreases len - l
      {
        PageBelow(i, per, pages);
        ReadStep(loop, l, faults, content, old(faultCnt), i);
        SweepGoesOn(loop, faults, content, per, i);
        l := l + 1024;
        i := i + 1;
      }
      AllReached(pages, per);
    }

    /** The first `i` steps of a writing loop are done, and nothing else was touched. */
    ghost predicate WrittenUpTo(c: char, faults: bool, i: nat)
      reads this`memory
      requires Valid()
    {
      && (forall p :: 0 <= p < pages ==> (memory[p].None? <==> faults && p >= Reached(i, per)))
      && (forall p, x :: 0 <= p < i / per && p < pages && 0 <= x < pageSize ==>
            memory[p].Some? && memory[p].value[x] == c)
      && (i / per < pages ==> forall x :: 0 <= x < STEP * (i % per) && x < pageSize ==>
            memory[i / per].Some? && memory[i / per].value[x] == c)
    }

    /** One step of a writing loop. */
    method WriteStep(loop: nat, l: nat, c: char, ghost faults: bool, ghost i: nat)
      requires Valid() && l == STEP * i && i / per < pages && WrittenUpTo(c, faults, i)
      modifies this`memory, this`page, this`faultCnt, this`log
      ensures Valid() && WrittenUpTo(c, faults, i + 1)
      ensures faultCnt == old(faultCnt) + if faults then Reached(i + 1, per) - Reached(i, per) else 0
      ensures log == old(log) + Access(loop, faults, Same(c), per, i)
    {
      Place(i, 0, per);
      ReachedNext(i, per);
      NextPage(i, per);
      ReachedNext(i + 1, per);
      hide Reached;
      Memset(l, c, i);
      var shown := Load(l);
      log := log + [Line(loop, l, shown)];
    }

    /** A loop that overwrites 1024 bytes at each step and prints the first of them. */
    method WriteLoop(loop: nat, c: char, ghost faults: bool)
      requires Valid()
      requires forall p :: 0 <= p < pages ==> (memory[p].None? <==> faults)
      modifies this`memory, this`page, this`faultCnt, this`log
      ensures Valid() && AllFilled(Same(c))
      ensures faultCnt == old(faultCnt) + if faults then pages else 0
      ensures log == old(log) + Sweep(loop, faults, Same(c), per, pages * per)
    {
      hide Reached, Access, Sweep;
      var l, len := 0, pages * pageSize;
      ghost var i, accesses := 0, pages * per;
      LengthIs(pages, per);
      ReachedNext(0, per);
      SweepBegins(loop, faults, Same(c), per);
      while l < len
        invariant l == STEP * i && i <= accesses && Valid()
        invariant WrittenUpTo(c, faults, i)
        invariant faultCnt == old(faultCnt) + if faults then Reached(i, per) else 0
        invariant log == old(log) + Sweep(loop, faults, Same(c), per, i)
        decreases len - l
      {
        PageBelow(i, per, pages);
        WriteStep(loop, l, c, faults, i);
        SweepGoesOn(loop, faults, Same(c), per, i);
        l := l + 1024;
        i := i + 1;
      }
      AllReached(pages, per);
      forall p | 0 <= p < pages
        ensures memory[p] == Some(Bytes(c, pageSize))
      {
        assert memory[p].value == Bytes(c, pageSize);
      }
    }

    /** `madvise` with `MADV_DONTNEED` over the whole region. */
    method Discard()
      requires Valid()
      modifies this`memory
      ensures Valid() && AllMissing()
    {
      memory := seq(pages, _ => None);
    }
  }

  lemma LengthIs(pages: nat, per: nat)
    ensures pages * (STEP * per) == STEP * (pages * per)
  {
  }

  lemma RunsMore(loop: nat, n: nat, per: nat)
    requires per > 0 && 1 <= loop
    ensures Runs(loop, n, per) == Runs(loop - 1, n, per) + Sweep(loop, Discarded(loop), ContentOf(loop, n), per, n * per)
  {
  }

  /** The program for `pages` pages of `STEP * per` bytes each. */
  method Demo(pages: nat, per: nat) returns (log: seq<Event>, faults: nat)
    requires per > 0
    ensures log == Runs(8, pages, per) && faults == 3 * pages
  {
    hide Runs, Sweep;
    var r := new Region(pages, per);
    assert r.log == Runs(0, pages, per) by { RunsNone(pages, per); }
    r.ReadLoop(1, true, ContentOf(1, pages));
    RunsMore(1, pages, per);
    r.ReadLoop(2, false, ContentOf(2, pages));
    RunsMore(2, pages, per);
    r.Discard();
    r.ReadLoop(3, true, ContentOf(3, pages));
    RunsMore(3, pages, per);
    r.ReadLoop(4, false, ContentOf(4, pages));
    RunsMore(4, pages, per);
    r.Discard();
    r.WriteLoop(5, '@', true);
    RunsMore(5, pages, per);
    r.ReadLoop(6, false, ContentOf(6, pages));
    RunsMore(6, pages, per);
    r.WriteLoop(7, '^', false);
    RunsMore(7, pages, per);
    r.ReadLoop(8, false, ContentOf(8, pages));
    RunsMore(8, pages, per);
    log, faults := r.log, r.faultCnt;
  }

  lemma RunsNone(n: nat, per: nat)
    requires per > 0
    ensures Runs(0, n, per) == []
  {
  }
}
