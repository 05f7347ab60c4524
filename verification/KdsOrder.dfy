/** Orders of numbers, and what is the same in two orders of the same numbers. */
module KdsOrder {

  /** In order, with repetitions. */
  predicate Rising(q: seq<int>) {
    forall i, j :: 0 <= i < j < |q| ==> q[i] <= q[j]
  }

  /** In order, without. */
  predicate Ascending(q: seq<int>) {
    forall i, j :: 0 <= i < j < |q| ==> q[i] < q[j]
  }

  ghost predicate SameElements(a: seq<int>, b: seq<int>) {
    forall x :: x in a <==> x in b
  }

  /** `x % 2 == 1` in C, where the remainder takes the sign of `x`. */
  predicate IsOddInC(x: int): (odd: bool)
    ensures odd <==> x > 0 && x % 2 == 1
  {
    (if x < 0 then -((-x) % 2) else x % 2) == 1
  }

  /** These are the numbers 1, 3, 5 and so on. */
  lemma OddMeans(x: int, k: nat)
    ensures IsOddInC(x) ==> x == 2 * (x / 2) + 1 && x / 2 >= 0
    ensures IsOddInC(2 * k + 1)
  {
  }

  function Odds(q: seq<int>): seq<int> {
    if q == [] then []
    else if IsOddInC(q[0]) then [q[0]] + Odds(q[1..])
    else Odds(q[1..])
  }

  /** Only the last of equal neighbours. */
  function Deduplicated(q: seq<int>): seq<int> {
    if |q| <= 1 then q
    else if q[0] == q[1] then Deduplicated(q[1..])
    else [q[0]] + Deduplicated(q[1..])
  }

  lemma {:induction false} OddsAre(q: seq<int>)
    ensures forall x :: x in Odds(q) <==> x in q && IsOddInC(x)
    ensures Ascending(q) ==> Ascending(Odds(q))
  {
    if q != [] {
      OddsAre(q[1..]);
      var rest := Odds(q[1..]);
      if Ascending(q) {
        assert Ascending(q[1..]);
        forall k | 0 <= k < |rest|
          ensures q[0] < rest[k]
        {
          assert rest[k] in rest;
        }
      }
    }
  }

  lemma {:induction false} DeduplicatedIs(q: seq<int>)
    requires Rising(q)
    ensures Ascending(Deduplicated(q)) && SameElements(Deduplicated(q), q)
  {
    if |q| > 1 {
      assert Rising(q[1..]);
      DeduplicatedIs(q[1..]);
      var rest := Deduplicated(q[1..]);
      assert q == [q[0]] + q[1..];
      if q[0] != q[1] {
        forall k | 0 <= k < |rest|
          ensures q[0] < rest[k]
        {
          assert rest[k] in rest;
          assert rest[k] in q[1..] && q[1] == q[1..][0];
        }
      }
    }
  }

  lemma AscendingMore(q: seq<int>, x: int)
    requires Ascending(q) && forall y :: y in q ==> y < x
    ensures Ascending(q + [x])
  {
    assert forall i :: 0 <= i < |q| ==> q[i] in q;
  }

  lemma NothingAscending()
    ensures Ascending([])
  {
  }

  /** There is one way to put a set of numbers in order. */
  lemma {:induction false} AscendingIsUnique(a: seq<int>, b: seq<int>)
    requires Ascending(a) && Ascending(b) && SameElements(a, b)
    ensures a == b
  {
    if b != [] {
      assert b[0] in b;
    }
    if a != [] {
      assert a[0] in a;
      assert a[0] in b && b[0] in a;
      assert a[0] == b[0];
      forall x
        ensures x in a[1..] <==> x in b[1..]
      {
        TailElements(a, x);
        TailElements(b, x);
      }
      AscendingIsUnique(a[1..], b[1..]);
      assert a == [a[0]] + a[1..] && b == [b[0]] + b[1..];
    }
  }

  lemma TailElements(a: seq<int>, x: int)
    requires a != [] && Ascending(a)
    ensures x in a[1..] <==> x in a && x != a[0]
  {
    assert a == [a[0]] + a[1..];
  }

  lemma TailMultiset(a: seq<int>)
    requires a != []
    ensures multiset(a[1..]) == multiset(a) - multiset{a[0]}
  {
    assert a == [a[0]] + a[1..];
  }

  lemma HeadsAgree(a: seq<int>, b: seq<int>)
    requires Rising(a) && Rising(b) && multiset(a) == multiset(b) && a != [] && b != []
    ensures a[0] == b[0] && Rising(a[1..]) && Rising(b[1..])
  {
    assert a[0] in multiset(a) && b[0] in multiset(b);
    LeastIsFirst(a, b[0]);
    LeastIsFirst(b, a[0]);
  }

  lemma LeastIsFirst(a: seq<int>, x: int)
    requires Rising(a) && x in multiset(a)
    ensures a[0] <= x
  {
    assert x in a;
  }

  /** There is one way to put numbers in order, repetitions included. */
  lemma {:induction false} RisingIsUnique(a: seq<int>, b: seq<int>)
    requires Rising(a) && Rising(b) && multiset(a) == multiset(b)
    ensures a == b
  {
    assert |a| == |multiset(a)| == |multiset(b)| == |b|;
    if a != [] {
      hide Rising;
      HeadsAgree(a, b);
      TailMultiset(a);
      TailMultiset(b);
      RisingIsUnique(a[1..], b[1..]);
      assert a == [a[0]] + a[1..] && b == [b[0]] + b[1..];
    }
  }
}
