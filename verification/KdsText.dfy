/**
What HW2/kds.c makes of its string parameter: numbers in decimal, separated by spaces. The
parsing of one number follows the kernel's `kstrtol` in base 10.
*/
module KdsText {

  const EINVAL: int := 22
  const ERANGE: int := 34
  const MAX_SIZE: nat := 65536

  const BITS31: int := 0x8000_0000
  const BITS32: int := 0x1_0000_0000
  const BITS63: int := 0x8000_0000_0000_0000
  const BITS64: int := 0x1_0000_0000_0000_0000

  datatype Parsed = Number(value: int) | Failure(code: int)

  // ---------- One number ----------

  predicate IsDigit(c: char) {
    '0' <= c <= '9'
  }

  predicate AllDigits(s: string) {
    forall i :: 0 <= i < |s| ==> IsDigit(s[i])
  }

  function Value(s: string): nat
    requires AllDigits(s)
  {
    if s == [] then 0 else Value(s[..|s| - 1]) * 10 + (s[|s| - 1] - '0') as nat
  }

  /** The number of digits that `s` begins with. */
  function LeadingDigits(s: string): (k: nat)
    ensures k <= |s| && AllDigits(s[..k]) && (k < |s| ==> !IsDigit(s[k]))
  {
    if s == [] || !IsDigit(s[0]) then 0
    else
      var k := LeadingDigits(s[1..]);
      assert s[..k + 1] == [s[0]] + s[1..][..k];
      k + 1
  }

  /** Digits that fit 64 bits, then at most one newline, then the end. */
  function Unsigned(s: string): Parsed {
    var k := LeadingDigits(s);
    var v, rest := Value(s[..k]), s[k..];
    if v >= BITS64 then Failure(-ERANGE)
    else if k == 0 then Failure(-EINVAL)
    else if rest == [] || rest == ['\n'] then Number(v)
    else Failure(-EINVAL)
  }

  /** `kstrtol(s, 10, ..)` on a machine with 64-bit longs. */
  function Kstrtol(s: string): Parsed {
    if s != [] && s[0] == '-' then
      match Unsigned(s[1..])
      case Failure(c) => Failure(c)
      case Number(v) => if v > BITS63 then Failure(-ERANGE) else Number(-v)
    else
      match Unsigned(if s != [] && s[0] == '+' then s[1..] else s)
      case Failure(c) => Failure(c)
      case Number(v) => if v >= BITS63 then Failure(-ERANGE) else Number(v)
  }

  // ---------- What is a number ----------

  function Pow10(k: nat): nat {
    if k == 0 then 1 else 10 * Pow10(k - 1)
  }

  /** The digits by their places: the first of n digits counts 10^(n - 1) times. */
  function PlaceValue(s: string): nat
    requires forall i :: 0 <= i < |s| ==> '0' <= s[i] <= '9'
  {
    if s == [] then 0 else (s[0] - '0') as nat * Pow10(|s| - 1) + PlaceValue(s[1..])
  }

  lemma {:induction false} ValueFromLeft(s: string)
    requires AllDigits(s) && s != []
    ensures Value(s) == (s[0] - '0') as nat * Pow10(|s| - 1) + Value(s[1..])
  {
    if |s| > 1 {
      var most := s[..|s| - 1];
      ValueFromLeft(most);
      assert s[1..][..|s| - 2] == most[1..];
      assert Pow10(|s| - 1) == 10 * Pow10(|s| - 2);
      Shifted((s[0] - '0') as nat, Pow10(|s| - 2), Value(most[1..]));
    }
  }

  lemma Shifted(d: nat, p: nat, v: nat)
    ensures (d * p + v) * 10 == d * (10 * p) + v * 10
  {
    assert d * (10 * p) == 10 * (d * p);
  }

  lemma {:induction false} ValueIsPlaceValue(s: string)
    requires AllDigits(s)
    ensures Value(s) == PlaceValue(s)
  {
    if s != [] {
      ValueFromLeft(s);
      ValueIsPlaceValue(s[1..]);
    }
  }

  lemma {:induction false} LeadingDigitsAre(digits: string, rest: string)
    requires AllDigits(digits) && (rest != [] ==> !IsDigit(rest[0]))
    ensures LeadingDigits(digits + rest) == |digits|
  {
    if digits == [] {
      assert digits + rest == rest;
    } else {
      assert (digits + rest)[1..] == digits[1..] + rest;
      LeadingDigitsAre(digits[1..], rest);
    }
  }

  /** A word in three parts: a sign or none, all the digits behind it, and the rest. */
  predicate IsCut(s: string, sign: string, digits: string, rest: string) {
    && s == sign + digits + rest
    && sign in {"", "+", "-"} && (sign == "" ==> s == "" || s[0] !in {'+', '-'})
    && (forall i :: 0 <= i < |digits| ==> '0' <= digits[i] <= '9')
    && (rest != "" ==> !('0' <= rest[0] <= '9'))
  }

  lemma SignFirst(s: string) returns (sign: string, behind: string)
    ensures s == sign + behind && sign in {"", "+", "-"}
    ensures sign == "" ==> s == "" || s[0] !in {'+', '-'}
  {
    sign, behind := "", s;
    if s != "" && s[0] == '+' {
      sign, behind := "+", s[1..];
    } else if s != "" && s[0] == '-' {
      sign, behind := "-", s[1..];
    }
  }

  lemma DigitsFirst(s: string) returns (digits: string, rest: string)
    ensures s == digits + rest && (rest != "" ==> !('0' <= rest[0] <= '9'))
    ensures forall i :: 0 <= i < |digits| ==> '0' <= digits[i] <= '9'
  {
    var k := LeadingDigits(s);
    digits, rest := s[..k], s[k..];
    assert AllDigits(digits);
  }

  /** Every word can be cut in this way. */
  lemma CutExists(s: string) returns (sign: string, digits: string, rest: string)
    ensures IsCut(s, sign, digits, rest)
  {
    var behind;
    sign, behind := SignFirst(s);
    digits, rest := DigitsFirst(behind);
    assert sign + (digits + rest) == sign + digits + rest;
  }

  lemma UnsignedMeans(digits: string, rest: string)
    requires forall i :: 0 <= i < |digits| ==> '0' <= digits[i] <= '9'
    requires rest != "" ==> !('0' <= rest[0] <= '9')
    ensures Unsigned(digits + rest) ==
      if PlaceValue(digits) >= 0x1_0000_0000_0000_0000 then Failure(-34)
      else if digits == "" || (rest != "" && rest != "\n") then Failure(-22)
      else Number(PlaceValue(digits))
  {
    LeadingDigitsAre(digits, rest);
    ValueIsPlaceValue(digits);
    assert (digits + rest)[..|digits|] == digits && (digits + rest)[|digits|..] == rest;
  }

  /**
  Exactly the words with at least one digit and nothing behind the digits but one newline are
  numbers, if the signed value fits 64 bits. Digits beyond 2^64 are out of range whatever follows;
  otherwise a word of another form is invalid before its range is looked at.
  */
  lemma KstrtolMeans(s: string, sign: string, digits: string, rest: string)
    requires IsCut(s, sign, digits, rest)
    ensures
      var n: int := PlaceValue(digits);
      var v := if sign == "-" then -n else n;
      Kstrtol(s) ==
        if n >= 0x1_0000_0000_0000_0000 then Failure(-34)
        else if digits == "" || (rest != "" && rest != "\n") then Failure(-22)
        else if -0x8000_0000_0000_0000 <= v < 0x8000_0000_0000_0000 then Number(v)
        else Failure(-34)
  {
    hide Unsigned, PlaceValue;
    UnsignedMeans(digits, rest);
    var behind := digits + rest;
    assert s == sign + behind;
    if sign == "" {
      assert s == behind;
    } else {
      assert s[0] == sign[0] && s[1..] == behind;
    }
  }

  /** The conversion of a long to an int keeps the low 32 bits. */
  function ToInt(v: int): (r: int)
    ensures -0x8000_0000 <= r < 0x8000_0000 && (r - v) % 0x1_0000_0000 == 0
    ensures -0x8000_0000 <= v < 0x8000_0000 ==> r == v
  {
    (v + BITS31) % BITS32 - BITS31
  }

  // ---------- The words of a string ----------

  predicate NoSpace(s: string) {
    forall i :: 0 <= i < |s| ==> s[i] != ' '
  }

  function FirstSpace(s: string): (k: nat)
    ensures k <= |s| && NoSpace(s[..k]) && (k < |s| ==> s[k] == ' ')
  {
    if s == [] || s[0] == ' ' then 0
    else
      var k := FirstSpace(s[1..]);
      assert s[..k + 1] == [s[0]] + s[1..][..k];
      k + 1
  }

  /** The non-empty pieces between spaces. */
  function Words(s: string): seq<string>
    decreases |s|
  {
    var k := FirstSpace(s);
    if k == |s| then Word(s) else Word(s[..k]) + Words(s[k + 1..])
  }

  function Word(s: string): seq<string> {
    if s == [] then [] else [s]
  }

  lemma WordsOfPiece(s: string)
    requires NoSpace(s)
    ensures Words(s) == Word(s) == if s == "" then [] else [s]
  {
  }

  lemma {:induction false} FirstSpaceIs(s: string, k: nat)
    requires k < |s| && s[k] == ' ' && NoSpace(s[..k])
    ensures FirstSpace(s) == k
  {
    if k > 0 {
      assert s[..k][0] == s[0];
      assert s[1..][..k - 1] == s[..k][1..];
      FirstSpaceIs(s[1..], k - 1);
    }
  }

  /** A space separates: no word reaches across it. */
  lemma {:induction false} WordsSplit(a: string, b: string)
    ensures Words(a + [' '] + b) == Words(a) + Words(b)
    decreases |a|
  {
    var s, k := a + [' '] + b, FirstSpace(a);
    if k == |a| {
      assert s[..k] == a && s[k + 1..] == b;
      assert a[..k] == a;
      FirstSpaceIs(s, k);
    } else {
      assert s[..k] == a[..k];
      FirstSpaceIs(s, k);
      assert s[k + 1..] == a[k + 1..] + [' '] + b;
      WordsSplit(a[k + 1..], b);
    }
  }

  // ---------- The numbers of a string ----------

  /** The numbers stored, and 0 or the error that ended the parsing. */
  datatype Outcome = Outcome(nums: seq<int>, code: int)

  function Convert(words: seq<string>): Outcome {
    if words == [] then Outcome([], 0)
    else
      var before := Convert(words[..|words| - 1]);
      if before.code != 0 then before else Take(before.nums, words[|words| - 1])
  }

  /** One more word: parse it first, and only then look for room. */
  function Take(nums: seq<int>, word: string): Outcome {
    match Kstrtol(word)
    case Failure(c) => Outcome(nums, c)
    case Number(v) => if |nums| >= MAX_SIZE then Outcome(nums, -EINVAL) else Outcome(nums + [ToInt(v)], 0)
  }

  lemma ConvertOneMore(words: seq<string>, word: string)
    ensures Convert(words + [word]) ==
      if Convert(words).code != 0 then Convert(words) else Take(Convert(words).nums, word)
  {
    assert (words + [word])[..|words|] == words;
  }

  lemma {:induction false} ConvertStops(words: seq<string>, more: seq<string>)
    requires Convert(words).code != 0
    ensures Convert(words + more) == Convert(words)
  {
    if more == [] {
      assert words + more == words;
    } else {
      var last := |more| - 1;
      ConvertStops(words, more[..last]);
      ConvertOneMore(words + more[..last], more[last]);
      assert words + more == words + more[..last] + [more[last]];
    }
  }

  /** Errors are negative, so 0 is never an error. */
  lemma TakeCode(nums: seq<int>, word: string)
    ensures Take(nums, word).code != 0 ==> Take(nums, word) == Outcome(nums, Take(nums, word).code)
    ensures Take(nums, word).code == 0 <==> Kstrtol(word).Number? && |nums| < MAX_SIZE
  {
  }

  /**
  Every word before the first bad one counts, and at most 65536 do: a further word that parses
  is refused as such, and one that does not is refused for its own error.
  */
  lemma {:induction false} ConvertMeans(words: seq<string>)
    ensures
      var o, k := Convert(words), |Convert(words).nums|;
      && k <= 65536 && k <= |words|
      && (forall i :: 0 <= i < k ==> Kstrtol(words[i]).Number? && o.nums[i] == ToInt(Kstrtol(words[i]).value))
      && (o.code == 0 <==> k == |words|)
      && (k < |words| && Kstrtol(words[k]).Failure? ==> o.code == Kstrtol(words[k]).code)
      && (k < |words| && Kstrtol(words[k]).Number? ==> k == 65536 && o.code == -22)
  {
    if words != [] {
      var before := words[..|words| - 1];
      ConvertMeans(before);
      assert forall i :: 0 <= i < |before| ==> words[i] == before[i];
      TakeCode(Convert(before).nums, words[|words| - 1]);
    }
  }

  // ---------- Printing and parsing back ----------

  function Natural(n: nat): string {
    var digit := '0' + (n % 10) as char;
    if n < 10 then [digit] else Natural(n / 10) + [digit]
  }

  /** `%d`. */
  function Decimal(x: int): string {
    if x < 0 then ['-'] + Natural(-x) else Natural(x)
  }

  lemma {:induction false} NaturalValue(n: nat)
    ensures Natural(n) != [] && AllDigits(Natural(n)) && Value(Natural(n)) == n
  {
    if n >= 10 {
      NaturalValue(n / 10);
      var s := Natural(n);
      assert s[..|s| - 1] == Natural(n / 10);
    }
  }

  lemma {:induction false} LeadingAll(s: string)
    requires AllDigits(s)
    ensures LeadingDigits(s) == |s|
  {
    if s != [] {
      LeadingAll(s[1..]);
    }
  }

  /** Parsing undoes printing, for every 64-bit number. */
  lemma DecimalRoundTrip(x: int)
    requires -BITS63 <= x < BITS63
    ensures Kstrtol(Decimal(x)) == Number(x)
    ensures NoSpace(Decimal(x)) && Decimal(x) != []
  {
    var n := if x < 0 then -x else x;
    NaturalValue(n);
    LeadingAll(Natural(n));
    var s := Natural(n);
    assert s[..|s|] == s;
    assert Unsigned(s) == Number(n);
    if x < 0 {
      assert Decimal(x)[1..] == s;
    }
  }

  /** A minus sign for negative numbers only, then the digits of the absolute value without leading zeros. */
  lemma DecimalMeans(x: int)
    ensures
      var digits := if x < 0 then Decimal(x)[1..] else Decimal(x);
      && (x < 0 ==> Decimal(x)[0] == '-')
      && digits != [] && (forall i :: 0 <= i < |digits| ==> '0' <= digits[i] <= '9')
      && (digits[0] == '0' ==> digits == "0")
      && PlaceValue(digits) == if x < 0 then -x else x
  {
    var n := if x < 0 then -x else x;
    NaturalValue(n);
    NaturalHasNoLeadingZero(n);
    ValueIsPlaceValue(Natural(n));
    assert x < 0 ==> Decimal(x)[1..] == Natural(n);
  }

  lemma {:induction false} NaturalHasNoLeadingZero(n: nat)
    ensures Natural(n) != [] && (Natural(n)[0] == '0' ==> n == 0)
  {
    if n >= 10 {
      NaturalHasNoLeadingZero(n / 10);
    }
  }

  function Printed(nums: seq<int>): seq<string> {
    seq(|nums|, i requires 0 <= i < |nums| => Decimal(nums[i]))
  }

  /** Words with single spaces between them. */
  function Joined(words: seq<string>): string {
    if words == [] then []
    else if |words| == 1 then words[0]
    else Joined(words[..|words| - 1]) + [' '] + words[|words| - 1]
  }

  /** One space between two words, and none anywhere else. */
  lemma {:induction false} JoinedMeans(a: seq<string>, b: seq<string>)
    ensures Joined([]) == ""
    ensures |a| == 1 ==> Joined(a) == a[0]
    ensures a != [] && b != [] ==> Joined(a + b) == Joined(a) + " " + Joined(b)
  {
    if a != [] && |b| > 1 {
      var most, last := b[..|b| - 1], b[|b| - 1];
      JoinedMeans(a, most);
      assert (a + b)[..|a + b| - 1] == a + most;
      assert Joined(a) + " " + Joined(most) + " " + last == Joined(a) + " " + (Joined(most) + " " + last);
    } else if a != [] && |b| == 1 {
      assert (a + b)[..|a + b| - 1] == a;
    }
  }

  lemma {:induction false} WordsOfJoined(words: seq<string>)
    requires forall i :: 0 <= i < |words| ==> NoSpace(words[i]) && words[i] != []
    ensures Words(Joined(words)) == words
  {
    if |words| == 1 {
      WordsOfPiece(words[0]);
    } else if words != [] {
      var last := |words| - 1;
      WordsOfJoined(words[..last]);
      WordsSplit(Joined(words[..last]), words[last]);
      WordsOfPiece(words[last]);
    }
  }

  predicate Ints(nums: seq<int>) {
    forall i :: 0 <= i < |nums| ==> -BITS31 <= nums[i] < BITS31
  }

  lemma {:induction false} ConvertPrinted(nums: seq<int>)
    requires Ints(nums) && |nums| <= MAX_SIZE
    ensures Convert(Printed(nums)) == Outcome(nums, 0)
  {
    if nums == [] {
      assert Convert([]) == Outcome([], 0);
    } else {
      hide Convert, Kstrtol, Decimal, Printed;
      var most, x := nums[..|nums| - 1], nums[|nums| - 1];
      assert nums == most + [x];
      ConvertPrinted(most);
      DecimalRoundTrip(x);
      PrintedSplits(most, [x]);
      ConvertOneMore(Printed(most), Decimal(x));
    }
  }

  lemma PrintedSplits(a: seq<int>, b: seq<int>)
    ensures Printed(a + b) == Printed(a) + Printed(b)
    ensures |b| == 1 ==> Printed(b) == [Decimal(b[0])]
  {
  }

  lemma ConvertPrintedTooMany(nums: seq<int>)
    requires Ints(nums) && |nums| > MAX_SIZE
    ensures Convert(Printed(nums)) == Outcome(nums[..MAX_SIZE], -EINVAL)
  {
    hide Convert, Kstrtol, Decimal, Printed;
    var fit, over, more := nums[..MAX_SIZE], nums[MAX_SIZE], nums[MAX_SIZE + 1..];
    assert nums == fit + [over] + more;
    ConvertPrinted(fit);
    DecimalRoundTrip(over);
    ConvertOneMore(Printed(fit), Decimal(over));
    ConvertStops(Printed(fit) + [Decimal(over)], Printed(more));
    PrintedSplits(fit, [over]);
    PrintedSplits(fit + [over], more);
  }

  /** At most 65536 numbers come back as they were; of more, the first 65536 and an error. */
  lemma ParsingUndoesPrinting(nums: seq<int>)
    requires Ints(nums)
    ensures Convert(Words(Joined(Printed(nums)))) ==
      if |nums| <= 65536 then Outcome(nums, 0) else Outcome(nums[..65536], -22)
  {
    forall i | 0 <= i < |nums|
      ensures NoSpace(Printed(nums)[i]) && Printed(nums)[i] != []
    {
      DecimalRoundTrip(nums[i]);
    }
    WordsOfJoined(Printed(nums));
    if |nums| <= MAX_SIZE {
      ConvertPrinted(nums);
    } else {
      ConvertPrintedTooMany(nums);
    }
  }
}
