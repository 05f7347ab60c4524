/** The loop of HW2/kds.c that cuts its parameter into words, in place, and stores their numbers. */
module KdsTokenizer {
  import opened KdsText

  const NUL: char := '\0'

  /** What the C library sees of a buffer: everything in front of the first NUL. */
  function CString(s: string): (r: string)
    ensures |r| <= |s| && NUL !in r && r == s[..|r|] && (NUL in s ==> |r| < |s| && s[|r|] == NUL)
  {
    if s == [] || s[0] == NUL then [] else [s[0]] + CString(s[1..])
  }

  lemma {:induction false} CStringIs(s: string, k: nat)
    requires k < |s| && s[k] == NUL && NUL !in s[..k]
    ensures CString(s) == s[..k]
  {
    if k > 0 {
      assert s[..k][0] == s[0];
      assert s[1..][..k - 1] == s[..k][1..];
      CStringIs(s[1..], k - 1);
      assert s[..k] == [s[0]] + s[1..][..k - 1];
    }
  }

  /** A buffer whose spaces in front of `stop` are cut to terminators. */
  function Cut(s: string, stop: nat): (r: string)
    ensures |r| == |s|
    ensures forall i :: 0 <= i < |s| ==> r[i] == if i < stop && s[i] == ' ' then NUL else s[i]
  {
    seq(|s|, i requires 0 <= i < |s| => if i < stop && s[i] == ' ' then NUL else s[i])
  }

  /** A word of `s`, perhaps an empty one, begins at `first` and has no space in front of `p`. */
  predicate InPiece(s: string, first: nat, p: nat) {
    first <= p <= |s| && NoSpace(s[first..p]) && (first == 0 || s[first - 1] == ' ')
  }

  /** The whole word, up to a space or the end. */
  predicate IsPiece(s: string, first: nat, stop: nat) {
    InPiece(s, first, stop) && (stop < |s| ==> s[stop] == ' ')
  }

  lemma PieceGoesOn(s: string, first: nat, p: nat)
    requires InPiece(s, first, p) && p < |s|
    ensures s[p] == ' ' ==> InPiece(s, p + 1, p + 1)
    ensures s[p] != ' ' ==> InPiece(s, first, p + 1)
  {
    assert s[first..p + 1] == s[first..p] + [s[p]];
  }

  /** What is in front of a piece ends with a space, so it has its own words. */
  lemma WordsBefore(s: string, first: nat, p: nat)
    requires InPiece(s, first, p)
    ensures Words(s[..p]) == Words(s[..first]) + Word(s[first..p])
  {
    hide Words;
    WordsOfPiece(s[first..p]);
    WordsOfPiece([]);
    if first == 0 {
      assert s[..p] == s[first..p] && s[..first] == [];
    } else {
      var a := s[..first - 1];
      assert s[..p] == a + [' '] + s[first..p];
      assert s[..first] == a + [' '] + [];
      WordsSplit(a, s[first..p]);
      WordsSplit(a, []);
    }
  }

  lemma WordsPastSpace(s: string, p: nat)
    requires p < |s| && s[p] == ' '
    ensures Words(s[..p + 1]) == Words(s[..p]) && Words(s) == Words(s[..p]) + Words(s[p + 1..])
  {
    hide Words;
    WordsOfPiece([]);
    assert s[..p + 1] == s[..p] + [' '] + [];
    assert s == s[..p] + [' '] + s[p + 1..];
    WordsSplit(s[..p], []);
    WordsSplit(s[..p], s[p + 1..]);
  }

  /** The word that a cut buffer shows at the start of a piece. */
  lemma PieceIsCString(whole: string, s: string, first: nat, p: nat)
    requires s == CString(whole) && NUL in whole
    requires IsPiece(s, first, p)
    ensures CString(Cut(whole, p + 1)[first..]) == s[first..p]
  {
    var cut, k := Cut(whole, p + 1), p - first;
    var buffer := cut[first..];
    assert cut[p] == NUL && buffer[k] == cut[p];
    forall i | 0 <= i < k
      ensures buffer[i] == s[first..p][i] && buffer[i] != NUL
    {
      assert buffer[i] == cut[first + i] && s[first..p][i] == s[first + i];
      assert whole[first + i] == s[first + i] && s[first + i] in s;
    }
    assert buffer[..k] == s[first..p];
    CStringIs(buffer, k);
  }

  /** A refused word decides the outcome of the whole string. */
  lemma RefusedWordDecides(s: string, first: nat, stop: nat)
    requires IsPiece(s, first, stop) && first < stop
    requires Convert(Words(s[..first])).code == 0
    ensures Take(Convert(Words(s[..first])).nums, s[first..stop]).code != 0 ==>
      Convert(Words(s)) == Take(Convert(Words(s[..first])).nums, s[first..stop])
  {
    WordsBefore(s, first, stop);
    ConvertOneMore(Words(s[..first]), s[first..stop]);
    if Take(Convert(Words(s[..first])).nums, s[first..stop]).code != 0 {
      if stop < |s| {
        WordsPastSpace(s, stop);
        ConvertStops(Words(s[..stop]), Words(s[stop + 1..]));
      } else {
        assert s[..stop] == s;
      }
    }
  }

  /** Everything in front of `first` was stored. */
  ghost predicate Stored(s: string, first: nat, stored: seq<int>) {
    first <= |s| && Convert(Words(s[..first])) == Outcome(stored, 0)
  }

  /** The piece that ends at `p` as one more word, if it is one. */
  lemma PieceTaken(s: string, first: nat, p: nat, stored: seq<int>, after: Outcome)
    requires IsPiece(s, first, p) && first < p && Stored(s, first, stored)
    requires after == Take(stored, s[first..p])
    ensures after.code == 0 ==> Stored(s, p, after.nums)
    ensures after.code != 0 ==> after.nums == stored && Convert(Words(s)) == after
    ensures Convert(Words(s[..first])) == Outcome(stored, 0)
  {
    WordsBefore(s, first, p);
    ConvertOneMore(Words(s[..first]), s[first..p]);
    RefusedWordDecides(s, first, p);
  }

  lemma EmptyPieceStored(s: string, p: nat, stored: seq<int>)
    requires p < |s| && s[p] == ' ' && Stored(s, p, stored)
    ensures Stored(s, p + 1, stored)
  {
    WordsPastSpace(s, p);
  }

  lemma AllStored(s: string, stored: seq<int>)
    requires Stored(s, |s|, stored)
    ensures Convert(Words(s)) == Outcome(stored, 0)
  {
    assert s[..|s|] == s;
  }

  /** Parses one word and stores its number if there is room. */
  method StoreWord(word: string, nums: array<int>, size: nat) returns (ret: int, size': nat)
    requires nums.Length == MAX_SIZE && size <= MAX_SIZE
    modifies nums
    ensures size <= size' <= MAX_SIZE
    ensures Outcome(nums[..size'], ret) == Take(old(nums[..size]), word)
    ensures nums[size'..] == old(nums[..])[size'..]
  {
    hide Kstrtol, ToInt;
    ret, size' := 0, size;
    var parsed := Kstrtol(word);
    if parsed.Failure? {
      ret := parsed.code;
      FailureCode(word);
      return;
    }
    if size >= MAX_SIZE {
      ret := -EINVAL;
      return;
    }
    nums[size] := ToInt(parsed.value);
    size' := size + 1;
  }

  /**
  The tokenizer. `size` numbers are stored, `ret` is 0 or the error that ends the module's
  initialisation; the last piece looked at reaches from `intStr` to `stop`.
  */
  method Tokenize(text: array<char>, nums: array<int>) returns (ret: int, size: nat, intStr: nat, ghost stop: nat)
    requires NUL in text[..] && nums.Length == 65536
    modifies text, nums
    ensures size <= 65536
    ensures Outcome(nums[..size], ret) == Convert(Words(CString(old(text[..]))))
    ensures nums[size..] == old(nums[..])[size..]
    ensures IsPiece(CString(old(text[..])), intStr, stop)
    ensures ret == 0 ==> stop == |CString(old(text[..]))|
    ensures ret != 0 ==> Convert(Words(CString(old(text[..]))[..intStr])) == Outcome(nums[..size], 0)
    ensures text[..] == Cut(old(text[..]), stop + 1)
  {
    hide Words, Convert, Take, CString, NoSpace, Stored, Cut;
    ghost var whole := text[..];
    ghost var s := CString(whole);
    var temp := 0;
    ret, size, intStr := 0, 0, 0;
    NothingStored(s, nums[..size]);
    while true
      invariant temp <= |s| && InPiece(s, intStr, temp)
      invariant text[..] == Cut(whole, temp)
      invariant size <= MAX_SIZE && Stored(s, intStr, nums[..size]) && nums[size..] == old(nums[..])[size..]
      decreases |s| - temp
    {
      var currentChar := text[temp];
      stop := temp;
      assert currentChar == whole[temp] && (temp < |s| ==> currentChar == s[temp]);
      if currentChar == ' ' || currentChar == NUL {
        if currentChar == ' ' {
          text[temp] := NUL;
        }
        assert text[..] == Cut(whole, temp + 1);
        PieceIsCString(whole, s, intStr, temp);
        var word := CString(text[intStr..]);
        assert text[intStr..] == text[..][intStr..];
        if word != [] {
          ghost var stored := nums[..size];
          ret, size := StoreWord(word, nums, size);
          PieceTaken(s, intStr, temp, stored, Outcome(nums[..size], ret));
          if ret != 0 {
            return;
          }
        }
      }
      if currentChar == NUL {
        AllStored(s, nums[..size]);
        return;
      }
      PieceGoesOn(s, intStr, temp);
      temp := temp + 1;
      if currentChar == ' ' {
        EmptyPieceStored(s, temp - 1, nums[..size]);
        intStr := temp;
      }
    }
  }

  lemma NothingStored(s: string, stored: seq<int>)
    requires stored == []
    ensures Stored(s, 0, stored) && InPiece(s, 0, 0)
  {
    assert s[..0] == [];
  }

  /** No failure has the code 0. */
  lemma FailureCode(word: string)
    ensures Kstrtol(word).Failure? ==> Kstrtol(word).code < 0
  {
  }
}
