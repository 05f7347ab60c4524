/**
The passes of HW2/kds.c over the parsed numbers, one data structure each. The structures of the
kernel's libraries are maps and sets here; the tree is the one of RbTree. A pointer that a pass
allocates for the number at position k of the input is named by k.
*/
module KdsPasses {
  import opened Options
  import opened RbTree
  import opened KdsText
  import opened KdsOrder

  // ---------- Linked list ----------

  /** Every number goes to the head, and the list is read and emptied from its tail. */
  method PlayLinkedList(nums: array<int>, length: nat) returns (printed: seq<int>)
    requires length <= nums.Length
    ensures printed == nums[..length]
  {
    var list: seq<int> := [];
    var ptr := 0;
    while ptr < length
      invariant ptr == |list| <= length
      invariant forall k :: 0 <= k < ptr ==> list[k] == nums[ptr - 1 - k]
    {
      list := [nums[ptr]] + list;
      ptr := ptr + 1;
    }
    printed := [];
    while list != []
      invariant |printed| + |list| == length && printed == nums[..|printed|]
      invariant forall k :: 0 <= k < |list| ==> list[k] == nums[length - 1 - k]
      decreases |list|
    {
      printed := printed + [list[|list| - 1]];
      list := list[..|list| - 1];
    }
  }

  // ---------- Red-black tree ----------

  function Keys(nodes: seq<RbNode>): (keys: seq<int>)
    ensures |keys| == |nodes| && forall i :: 0 <= i < |nodes| ==> keys[i] == nodes[i].key
  {
    seq(|nodes|, i requires 0 <= i < |nodes| => nodes[i].key)
  }

  lemma InsertedKeys(q: seq<RbNode>, n: RbNode)
    ensures multiset(Keys(Inserted(q, n))) == multiset(Keys(q)) + multiset{n.key}
  {
    var k := UpTo(q, n.key);
    assert Keys(Inserted(q, n)) == Keys(q)[..k] + [n.key] + Keys(q)[k..];
    assert Keys(q) == Keys(q)[..k] + Keys(q)[k..];
  }

  lemma KeysInOrder(q: seq<RbNode>)
    ensures Sorted(q) <==> Rising(Keys(q))
    ensures q == [] ==> Keys(q) == [] && Sorted(q)
  {
  }

  lemma PrefixMore(q: seq<int>, k: nat)
    requires k < |q|
    ensures multiset(q[..k + 1]) == multiset(q[..k]) + multiset{q[k]}
  {
    assert q[..k + 1] == q[..k] + [q[k]];
  }

  /** A new struct with the number goes into the tree. */
  method InsertNumber(tree: RbRoot, x: int)
    requires tree.Valid() && Sorted(tree.Nodes())
    modifies tree, tree.Repr
    ensures tree.Valid() && fresh(tree.Repr - old(tree.Repr))
    ensures Sorted(tree.Nodes()) && multiset(Keys(tree.Nodes())) == multiset(Keys(old(tree.Nodes()))) + multiset{x}
  {
    hide Inserted, Keys, Sorted, InOrder, RbRoot.Valid;
    var node := new RbNode(x, 0);
    InsertedSorted(tree.Nodes(), node);
    InsertedKeys(tree.Nodes(), node);
    tree.Insert(node);
  }

  method FillTree(nums: array<int>, length: nat) returns (tree: RbRoot)
    requires length <= nums.Length
    ensures fresh(tree) && fresh(tree.Repr) && tree.Valid()
    ensures Sorted(tree.Nodes()) && multiset(Keys(tree.Nodes())) == multiset(nums[..length])
  {
    hide Keys, Sorted, InOrder, RbRoot.Valid, RbRoot.Nodes;
    tree := new RbRoot();
    ghost var q := nums[..length];
    var ptr := 0;
    KeysInOrder([]);
    while ptr < length
      invariant ptr <= length && tree.Valid() && fresh(tree) && fresh(tree.Repr)
      invariant Sorted(tree.Nodes()) && multiset(Keys(tree.Nodes())) == multiset(q[..ptr])
    {
      PrefixMore(q, ptr);
      InsertNumber(tree, nums[ptr]);
      ptr := ptr + 1;
    }
    assert q[..ptr] == q;
  }

  /** The tree prints its input in order, repetitions included, and is empty in the end. */
  method PlayRbTree(nums: array<int>, length: nat) returns (printed: seq<int>)
    requires length <= nums.Length
    ensures Rising(printed) && multiset(printed) == multiset(nums[..length])
  {
    hide Keys, Sorted, InOrder, RbRoot.Valid, RbRoot.Nodes, Rising;
    var tree := FillTree(nums, length);
    var visited := tree.Drain();
    KeysInOrder(visited);
    printed := Keys(visited);
  }

  // ---------- Indices and marks ----------

  /** An int as an `unsigned long` index. */
  function Index(x: int): (i: nat)
    ensures i < BITS64
  {
    x % BITS64
  }

  lemma IndexIsInjective(x: int, y: int)
    requires -BITS31 <= x < BITS31 && -BITS31 <= y < BITS31 && Index(x) == Index(y)
    ensures x == y
  {
  }

  lemma {:induction false} HasLeast(s: set<nat>) returns (m: nat)
    requires s != {}
    ensures m in s && forall i :: i in s ==> m <= i
  {
    m :| m in s;
    if s != {m} {
      var chosen := m;
      var least := HasLeast(s - {m});
      if least < m {
        m := least;
      }
      assert forall i :: i in s ==> i == chosen || i in s - {chosen};
    }
  }

  /** The least element that is not below `from`. */
  function NextIn(s: set<nat>, from: nat): (r: Option<nat>)
    ensures r.None? <==> forall i :: i in s ==> i < from
    ensures r.Some? ==> r.value in s && r.value >= from && forall i :: i in s && from <= i ==> r.value <= i
  {
    var c := set i | i in s && from <= i;
    if c == {} then
      assert forall i :: i in s ==> i in c || i < from;
      None
    else
      assert exists m :: m in c && forall i :: i in c ==> m <= i by { var m := HasLeast(c); }
      var m :| m in c && forall i :: i in c ==> m <= i;
      assert forall i :: i in s && from <= i ==> i in c;
      Some(m)
  }

  /** The least marked indices that are not below `from`, in order, but at most `room` of them. */
  function GangLookup(s: set<nat>, from: nat, room: nat): seq<nat>
    decreases room
  {
    if room == 0 then []
    else
      match NextIn(s, from)
      case None => []
      case Some(i) => [i] + GangLookup(s, i + 1, room - 1)
  }

  function From(s: set<nat>, from: nat): set<nat> {
    set i | i in s && from <= i
  }

  /** With room for all of them, all of them are found. */
  lemma {:induction false} GangLookupIs(s: set<nat>, from: nat, room: nat)
    ensures
      var found := GangLookup(s, from, room);
      && Ascending(found) && |found| <= room
      && (forall i: nat :: i in found ==> i in From(s, from))
      && (|From(s, from)| <= room ==> forall i: nat :: i in From(s, from) ==> i in found)
    decreases room
  {
    if room == 0 {
      assert |From(s, from)| == 0 ==> From(s, from) == {};
    } else if NextIn(s, from).Some? {
      var i := NextIn(s, from).value;
      GangLookupIs(s, i + 1, room - 1);
      assert From(s, from) == From(s, i + 1) + {i};
      var rest := GangLookup(s, i + 1, room - 1);
      forall k | 0 <= k < |rest|
        ensures i < rest[k]
      {
        assert rest[k] in rest;
      }
    }
  }

  // ---------- Radix tree and xarray ----------

  type Pointers = map<nat, nat>

  predicate FirstAt(q: seq<int>, k: nat) {
    k < |q| && forall j :: 0 <= j < k ==> q[j] != q[k]
  }

  predicate LastAt(q: seq<int>, k: nat) {
    k < |q| && forall j :: k < j < |q| ==> q[j] != q[k]
  }

  /** The indices are those of the numbers, and each leads to a place where its number is. */
  ghost predicate Leads(tree: Pointers, q: seq<int>) {
    && (forall k :: 0 <= k < |q| ==> Index(q[k]) in tree)
    && (forall i :: i in tree ==> tree[i] < |q| && Index(q[tree[i]]) == i)
    && |tree| <= |q|
  }

  ghost predicate ToFirst(tree: Pointers, q: seq<int>) {
    forall i :: i in tree ==> FirstAt(q, tree[i])
  }

  ghost predicate ToLast(tree: Pointers, q: seq<int>) {
    forall i :: i in tree ==> LastAt(q, tree[i])
  }

  /** `radix_tree_insert` refuses an index that is taken, `xa_store` replaces what it holds. */
  function Inserting(tree: Pointers, i: nat, pointer: nat, overwrites: bool): Pointers {
    if i in tree && !overwrites then tree else tree[i := pointer]
  }

  lemma InsertingLeads(tree: Pointers, q: seq<int>, x: int, overwrites: bool)
    requires Leads(tree, q)
    ensures Leads(Inserting(tree, Index(x), |q|, overwrites), q + [x])
  {
    hide Index;
    var q', tree' := q + [x], Inserting(tree, Index(x), |q|, overwrites);
    assert q'[|q|] == x;
    assert forall k :: 0 <= k < |q| ==> q'[k] == q[k];
    assert tree'.Keys == tree.Keys + {Index(x)};
    assert |tree'| == |tree'.Keys| && |tree| == |tree.Keys|;
  }

  lemma InsertingKeepsFirst(tree: Pointers, q: seq<int>, x: int)
    requires Leads(tree, q) && ToFirst(tree, q)
    ensures ToFirst(Inserting(tree, Index(x), |q|, false), q + [x])
  {
    hide Index;
    var q', tree' := q + [x], Inserting(tree, Index(x), |q|, false);
    forall i | i in tree'
      ensures FirstAt(q', tree'[i])
    {
      if i in tree {
        assert FirstAt(q, tree[i]);
      } else {
        assert forall j :: 0 <= j < |q| ==> Index(q[j]) in tree;
      }
    }
  }

  lemma InsertingKeepsLast(tree: Pointers, q: seq<int>, x: int)
    requires Leads(tree, q) && ToLast(tree, q)
    ensures ToLast(Inserting(tree, Index(x), |q|, true), q + [x])
  {
    hide Index;
    var q', tree' := q + [x], Inserting(tree, Index(x), |q|, true);
    forall i | i in tree'
      ensures LastAt(q', tree'[i])
    {
      if i != Index(x) {
        assert LastAt(q, tree[i]) && q'[tree[i]] != x;
      }
    }
  }

  method Fill(nums: array<int>, length: nat, overwrites: bool) returns (tree: Pointers)
    requires length <= nums.Length
    ensures Leads(tree, nums[..length])
    ensures if overwrites then ToLast(tree, nums[..length]) else ToFirst(tree, nums[..length])
  {
    hide Leads, ToFirst, ToLast, Inserting, Index;
    tree := map[];
    NothingLeads();
    var ptr := 0;
    while ptr < length
      invariant ptr <= length && Leads(tree, nums[..ptr])
      invariant if overwrites then ToLast(tree, nums[..ptr]) else ToFirst(tree, nums[..ptr])
    {
      assert nums[..ptr + 1] == nums[..ptr] + [nums[ptr]];
      InsertingLeads(tree, nums[..ptr], nums[ptr], overwrites);
      if overwrites {
        InsertingKeepsLast(tree, nums[..ptr], nums[ptr]);
      } else {
        InsertingKeepsFirst(tree, nums[..ptr], nums[ptr]);
      }
      tree := Inserting(tree, Index(nums[ptr]), ptr, overwrites);
      ptr := ptr + 1;
    }
  }

  lemma NothingLeads()
    ensures Leads(map[], []) && ToFirst(map[], []) && ToLast(map[], [])
  {
  }

  /** The marked indices are the odd numbers among these; none of them is negative. */
  ghost predicate MarksOdd(marks: set<nat>, q: seq<int>) {
    forall i: int :: (i in q && IsOddInC(i)) <==> (i >= 0 && i in marks)
  }

  lemma MarkingOdd(marks: set<nat>, q: seq<int>, x: int)
    requires MarksOdd(marks, q) && Ints([x])
    ensures MarksOdd(if IsOddInC(x) then marks + {Index(x)} else marks, q + [x])
  {
    assert [x][0] == x;
    assert IsOddInC(x) ==> Index(x) == x;
  }

  /** The second loop: each number is looked up and printed, and an odd one is marked. */
  method LookUp(tree: Pointers, nums: array<int>, length: nat) returns (printed: seq<int>, marks: set<nat>)
    requires length <= nums.Length && Ints(nums[..length]) && Leads(tree, nums[..length])
    ensures printed == nums[..length]
    ensures forall x: int :: (x in nums[..length] && x > 0 && x % 2 == 1) <==> (x >= 0 && x in marks)
    ensures MarksOdd(marks, nums[..length]) && marks <= tree.Keys
  {
    printed, marks := [], {};
    var ptr := 0;
    while ptr < length
      invariant ptr <= length && printed == nums[..ptr]
      invariant MarksOdd(marks, nums[..ptr]) && marks <= tree.Keys
    {
      var x := nums[ptr];
      assert nums[..length][ptr] == x;
      assert nums[..ptr + 1] == nums[..ptr] + [x];
      MarkingOdd(marks, nums[..ptr], x);
      assert Index(x) in tree;
      var ret := tree[Index(x)];
      assert nums[..length][ret] == nums[ret];
      IndexIsInjective(nums[ret], x);
      if IsOddInC(x) {
        marks := marks + {Index(x)};
      }
      printed := printed + [nums[ret]];
      ptr := ptr + 1;
    }
  }

  predicate Distinct(q: seq<nat>) {
    forall i, j :: 0 <= i < j < |q| ==> q[i] != q[j]
  }

  /** The last loop: each index is deleted and what it held is freed, once. */
  method Release(tree: Pointers, nums: array<int>, length: nat) returns (rest: Pointers, freed: seq<nat>)
    requires length <= nums.Length && Leads(tree, nums[..length])
    ensures rest == map[] && Distinct(freed)
    ensures forall k :: k in freed <==> k in tree.Values
  {
    rest, freed := tree, [];
    var ptr := 0;
    while ptr < length
      invariant ptr <= length && Distinct(freed)
      invariant forall i :: i in rest ==> i in tree && rest[i] == tree[i] && rest[i] !in freed
      invariant forall i :: i in tree && i !in rest ==> tree[i] in freed
      invariant forall k :: k in freed ==> k in tree.Values
      invariant forall k :: 0 <= k < ptr ==> Index(nums[k]) !in rest
    {
      var i := Index(nums[ptr]);
      if i in rest {
        freed := freed + [rest[i]];
        rest := rest - {i};
      }
      ptr := ptr + 1;
    }
    forall i | i in tree
      ensures i !in rest
    {
      assert nums[..length][tree[i]] == nums[tree[i]];
    }
  }

  lemma FreedFirst(tree: Pointers, q: seq<int>)
    requires Leads(tree, q) && ToFirst(tree, q) && Ints(q)
    ensures forall k: nat :: k in tree.Values <==> FirstAt(q, k)
  {
    forall k: nat | FirstAt(q, k)
      ensures k in tree.Values
    {
      var other := tree[Index(q[k])];
      IndexIsInjective(q[k], q[other]);
      assert FirstAt(q, other);
    }
  }

  lemma FreedLast(tree: Pointers, q: seq<int>)
    requires Leads(tree, q) && ToLast(tree, q) && Ints(q)
    ensures forall k: nat :: k in tree.Values <==> LastAt(q, k)
  {
    forall k: nat | LastAt(q, k)
      ensures k in tree.Values
    {
      var other := tree[Index(q[k])];
      IndexIsInjective(q[k], q[other]);
      assert LastAt(q, other);
    }
  }

  /** `length` slots are enough for the marked indices, so the lookup finds all of them. */
  lemma SlotsSuffice(tree: Pointers, marks: set<nat>, q: seq<int>)
    requires Leads(tree, q) && MarksOdd(marks, q) && marks <= tree.Keys
    ensures
      var found := GangLookup(marks, 0, |q|);
      && Ascending(found) && (forall x: int :: x in found <==> x in q && x > 0 && x % 2 == 1)
      && forall k :: 0 <= k < |found| ==> found[k] in marks
  {
    GangLookupIs(marks, 0, |q|);
    assert From(marks, 0) == marks;
    assert tree.Keys == marks + (tree.Keys - marks);
    assert |marks| <= |tree.Keys| == |tree| <= |q|;
  }

  /**
  The radix tree: the odd numbers in order, once each. It keeps the first pointer of a number,
  so the later ones are never freed.
  */
  method PlayRadixTree(nums: array<int>, length: nat)
    returns (printed: seq<int>, odd: seq<int>, freed: seq<nat>)
    requires length <= nums.Length && Ints(nums[..length])
    ensures printed == nums[..length]
    ensures Ascending(odd) && forall x :: x in odd <==> x in nums[..length] && x > 0 && x % 2 == 1
    ensures Distinct(freed) && forall k :: k in freed <==> FirstAt(nums[..length], k)
  {
    hide Leads, ToFirst, MarksOdd, GangLookup, Ascending, FirstAt, Odds;
    var tree := Fill(nums, length, false);
    var marks;
    printed, marks := LookUp(tree, nums, length);
    var results := GangLookup(marks, 0, length);
    SlotsSuffice(tree, marks, nums[..length]);
    odd := Contents(tree, nums, length, marks, results);
    FreedFirst(tree, nums[..length]);
    tree, freed := Release(tree, nums, length);
  }

  /** Prints what the found pointers point to. */
  method Contents(tree: Pointers, nums: array<int>, length: nat, ghost marks: set<nat>, results: seq<nat>)
    returns (printed: seq<int>)
    requires length <= nums.Length && Ints(nums[..length]) && Leads(tree, nums[..length])
    requires MarksOdd(marks, nums[..length]) && forall k :: 0 <= k < |results| ==> results[k] in marks
    ensures printed == results
  {
    printed := [];
    var k := 0;
    while k < |results|
      invariant k <= |results| && printed == results[..k]
    {
      printed := printed + [Pointed(tree, nums, length, marks, results[k])];
      k := k + 1;
    }
  }

  /** A marked index is the number that its pointer leads to. */
  function Pointed(tree: Pointers, nums: array<int>, length: nat, ghost marks: set<nat>, i: nat): (x: int)
    reads nums
    requires length <= nums.Length && Ints(nums[..length]) && Leads(tree, nums[..length])
    requires MarksOdd(marks, nums[..length]) && i in marks
    ensures x == i
  {
    assert i in nums[..length];
    assert Index(i) in tree && Index(i) == i;
    assert nums[..length][tree[i]] == nums[tree[i]];
    IndexIsInjective(i, nums[tree[i]]);
    nums[tree[i]]
  }

  /**
  The xarray: the same odd numbers, found by stepping from mark to mark. It keeps the last
  pointer of a number, so the earlier ones are never freed.
  */
  method PlayXarray(nums: array<int>, length: nat)
    returns (printed: seq<int>, odd: seq<int>, freed: seq<nat>)
    requires length <= nums.Length && Ints(nums[..length])
    ensures printed == nums[..length]
    ensures Ascending(odd) && forall x :: x in odd <==> x in nums[..length] && x > 0 && x % 2 == 1
    ensures Distinct(freed) && forall k :: k in freed <==> LastAt(nums[..length], k)
  {
    var tree := Fill(nums, length, true);
    var marks;
    printed, marks := LookUp(tree, nums, length);
    odd := ForEachMarked(tree, nums, length, marks);
    FreedLast(tree, nums[..length]);
    tree, freed := Release(tree, nums, length);
  }

  method ForEachMarked(tree: Pointers, nums: array<int>, length: nat, marks: set<nat>) returns (printed: seq<int>)
    requires length <= nums.Length && Ints(nums[..length]) && Leads(tree, nums[..length])
    requires MarksOdd(marks, nums[..length])
    ensures Ascending(printed) && forall x: int :: x in printed <==> x >= 0 && x in marks
  {
    hide NextIn, Ascending, Leads, MarksOdd, Ints, Pointed;
    printed := [];
    NothingAscending();
    var found := NextIn(marks, 0);
    ghost var from := 0;
    while found.Some?
      invariant found == NextIn(marks, from) && Ascending(printed)
      invariant forall x: int :: x in printed <==> 0 <= x < from && x in marks
      decreases |From(marks, from)|
    {
      var i := found.value;
      assert From(marks, from) == From(marks, i + 1) + {i};
      AscendingMore(printed, i);
      printed := printed + [Pointed(tree, nums, length, marks, i)];
      found := NextIn(marks, i + 1);
      from := i + 1;
    }
    forall x: int
      ensures x in printed <==> x >= 0 && x in marks
    {
      if x >= 0 && x in marks {
        assert x < from;
      }
    }
  }

  // ---------- Bitmap ----------

  /** 0 to 1000 inclusive. */
  const MAX_BITS: nat := 1001

  /** The first set bit that is not below `from`, or the number of bits. */
  method FindNextBit(bits: array<bool>, from: nat) returns (bit: nat)
    requires from <= bits.Length
    ensures from <= bit <= bits.Length && (bit < bits.Length ==> bits[bit])
    ensures forall k :: from <= k < bit ==> !bits[k]
  {
    bit := from;
    while bit < bits.Length && !bits[bit]
      invariant from <= bit <= bits.Length
      invariant forall k :: from <= k < bit ==> !bits[k]
    {
      bit := bit + 1;
    }
  }

  /** The bitmap prints each number once, in order. */
  method PlayBitmap(nums: array<int>, length: nat) returns (printed: seq<int>)
    requires length <= nums.Length && forall k :: 0 <= k < length ==> 0 <= nums[k] < MAX_BITS
    ensures Ascending(printed) && SameElements(printed, nums[..length])
  {
    var bits := new bool[MAX_BITS](_ => false);
    var ptr := 0;
    while ptr < length
      invariant ptr <= length
      invariant forall b :: 0 <= b < MAX_BITS ==> (bits[b] <==> b in nums[..ptr])
    {
      assert nums[..ptr + 1] == nums[..ptr] + [nums[ptr]];
      bits[nums[ptr]] := true;
      ptr := ptr + 1;
    }
    assert forall x :: x in nums[..length] ==> 0 <= x < MAX_BITS;
    ghost var filled := bits[..];
    printed := [];
    var bit := FindNextBit(bits, 0);
    while bit < MAX_BITS
      invariant bit <= MAX_BITS && (bit < MAX_BITS ==> bits[bit]) && Ascending(printed) && bits[..] == filled
      invariant forall x :: x in printed <==> 0 <= x < bit && bits[x]
      decreases MAX_BITS - bit
    {
      AscendingMore(printed, bit);
      printed := printed + [bit];
      bit := FindNextBit(bits, bit + 1);
    }
    forall x
      ensures x in printed <==> x in nums[..length]
    {
      assert 0 <= x < MAX_BITS ==> filled[x] == bits[x];
    }
  }
}
