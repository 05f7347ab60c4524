/** The module of HW2/kds.c: the tokenizer, then every pass over its numbers, and how they relate. */
module Kds {
  import opened KdsText
  import opened KdsTokenizer
  import opened KdsOrder
  import opened KdsPasses

  datatype Report = Report(list: seq<int>, tree: seq<int>, radix: seq<int>, xarray: seq<int>, bitmap: seq<int>)

  /**
  How the outputs relate, in terms of each other: the list is the input, the tree puts it in
  order, the bitmap drops the repetitions, and the marked passes keep the odd numbers of that.
  */
  ghost predicate Agreeing(r: Report, nums: seq<int>) {
    && r.list == nums
    && Rising(r.tree) && multiset(r.tree) == multiset(nums)
    && r.bitmap == Deduplicated(r.tree)
    && r.radix == Odds(r.bitmap) && r.xarray == Odds(r.bitmap)
  }

  lemma PassesAgree(r: Report, nums: seq<int>)
    requires r.list == nums
    requires Rising(r.tree) && multiset(r.tree) == multiset(nums)
    requires Ascending(r.bitmap) && SameElements(r.bitmap, nums)
    requires Ascending(r.radix) && forall x :: x in r.radix <==> x in nums && x > 0 && x % 2 == 1
    requires Ascending(r.xarray) && forall x :: x in r.xarray <==> x in nums && x > 0 && x % 2 == 1
    ensures Agreeing(r, nums)
  {
    DeduplicatedIs(r.tree);
    forall x
      ensures x in r.tree <==> x in nums
    {
      assert x in multiset(r.tree) <==> x in multiset(nums);
    }
    AscendingIsUnique(r.bitmap, Deduplicated(r.tree));
    OddsAre(r.bitmap);
    AscendingIsUnique(r.radix, Odds(r.bitmap));
    AscendingIsUnique(r.xarray, Odds(r.bitmap));
  }

  /** The same in plain words: which numbers each output has, and in what order. */
  ghost predicate PlainlyAgreeing(r: Report, nums: seq<int>) {
    && r.list == nums
    && multiset(r.tree) == multiset(nums) && (forall i, j :: 0 <= i < j < |r.tree| ==> r.tree[i] <= r.tree[j])
    && (forall x :: x in r.bitmap <==> x in nums)
    && (forall i, j :: 0 <= i < j < |r.bitmap| ==> r.bitmap[i] < r.bitmap[j])
    && (forall x :: x in r.radix <==> x in nums && x > 0 && x % 2 == 1)
    && (forall i, j :: 0 <= i < j < |r.radix| ==> r.radix[i] < r.radix[j])
    && r.xarray == r.radix
  }

  /** Both forms say the same. */
  lemma AgreementMeans(r: Report, nums: seq<int>)
    ensures Agreeing(r, nums) <==> PlainlyAgreeing(r, nums)
  {
    if Rising(r.tree) && multiset(r.tree) == multiset(nums) {
      DeduplicatedIs(r.tree);
      OddsAre(Deduplicated(r.tree));
      forall x
        ensures x in r.tree <==> x in nums
      {
        assert x in multiset(r.tree) <==> x in multiset(nums);
      }
      if PlainlyAgreeing(r, nums) {
        AscendingIsUnique(r.bitmap, Deduplicated(r.tree));
        AscendingIsUnique(r.radix, Odds(r.bitmap));
      }
    }
  }

  /** The input, as a bag, decides every output but the list. */
  lemma OutputsForgetOrder(r: Report, s: Report, a: seq<int>, b: seq<int>)
    requires Agreeing(r, a) && Agreeing(s, b) && multiset(a) == multiset(b)
    ensures s == r.(list := b)
  {
    RisingIsUnique(r.tree, s.tree);
  }

  /** The numbers of a parameter as its bytes lie in memory. */
  function Numbers(text: string): Outcome {
    Convert(Words(CString(text)))
  }

  lemma {:induction false} JoinedHasNoNul(words: seq<string>)
    requires forall i :: 0 <= i < |words| ==> NUL !in words[i]
    ensures NUL !in Joined(words)
  {
    if |words| > 1 {
      JoinedHasNoNul(words[..|words| - 1]);
    }
  }

  /** A parameter that was printed from numbers gives these numbers, whatever follows its end. */
  lemma PrintedNumbersComeBack(nums: seq<int>, tail: string)
    requires Ints(nums) && |nums| <= MAX_SIZE
    ensures Numbers(Joined(Printed(nums)) + [NUL] + tail) == Outcome(nums, 0)
  {
    var s := Joined(Printed(nums));
    forall i | 0 <= i < |nums|
      ensures NUL !in Printed(nums)[i]
    {
      DecimalHasNoNul(nums[i]);
    }
    JoinedHasNoNul(Printed(nums));
    assert (s + [NUL] + tail)[..|s|] == s;
    CStringIs(s + [NUL] + tail, |s|);
    ParsingUndoesPrinting(nums);
  }

  lemma DecimalHasNoNul(x: int)
    ensures NUL !in Decimal(x)
  {
    var n := if x < 0 then -x else x;
    NaturalValue(n);
    assert forall c :: c in Natural(n) ==> IsDigit(c);
  }

  /**
  The whole initialisation. A bad word or a 65537th number ends it before any pass; otherwise
  every pass runs. The bitmap has room for 0 to 1000 only, and nothing in the module checks that.
  */
  method MyModuleInit(text: array<char>) returns (ret: int, report: Report)
    requires NUL in text[..]
    requires Numbers(text[..]).code == 0 ==>
      forall k :: 0 <= k < |Numbers(text[..]).nums| ==> 0 <= Numbers(text[..]).nums[k] <= 1000
    modifies text
    ensures ret == Numbers(old(text[..])).code
    ensures ret == 0 ==> Agreeing(report, Numbers(old(text[..])).nums)
    ensures ret == 0 ==>
      forall x :: x in report.radix <==> x in Numbers(old(text[..])).nums && x > 0 && x % 2 == 1
    ensures ret == 0 ==> report.xarray == report.radix
    ensures ret != 0 ==> report == Report([], [], [], [], [])
  {
    hide Convert, Words, CString, Rising, Ascending, SameElements, Odds, IsPiece, Cut;
    var nums := new int[MAX_SIZE];
    ghost var whole := text[..];
    report := Report([], [], [], [], []);
    var size, intStr;
    ghost var stop;
    ret, size, intStr, stop := Tokenize(text, nums);
    if ret != 0 {
      return;
    }
    ghost var q := nums[..size];
    assert Numbers(whole) == Outcome(q, 0);
    assert forall k :: 0 <= k < size ==> q[k] == nums[k];
    var list := PlayLinkedList(nums, size);
    var tree := PlayRbTree(nums, size);
    var looked, radix, freed := PlayRadixTree(nums, size);
    var loaded, xarray, freed' := PlayXarray(nums, size);
    var bitmap := PlayBitmap(nums, size);
    report := Report(list, tree, radix, xarray, bitmap);
    PassesAgree(report, q);
  }
}
