/** Deposit reference codes: Luhn modulo 32 over a hand-copyable alphabet. */
module DepositReference {
  import opened Wrappers
  import Text

  const ALPHABET := "ABCDEFGHJKLMNPQRSTUVWXYZ23456789"
  const N := 32
  const DATA_LENGTH := 8
  const CODE_LENGTH := 9

  /** String.prototype.indexOf for one character; None is the source's -1. */
  function IndexFrom(s: string, c: char, from: nat): (r: Option<nat>)
    requires from <= |s|
    ensures r.Some? ==> from <= r.value < |s| && s[r.value] == c
    ensures r.None? ==> forall i :: from <= i < |s| ==> s[i] != c
    decreases |s| - from
  {
    if from == |s| then None else if s[from] == c then Some(from) else IndexFrom(s, c, from + 1)
  }

  /** The alphabet's character at a value: four runs of consecutive characters. */
  function Symbol(v: nat): char
    requires v < N
  {
    if v < 8 then 'A' + v as char
    else if v < 13 then 'J' + (v - 8) as char
    else if v < 24 then 'P' + (v - 13) as char
    else '2' + (v - 24) as char
  }

  /** A character's place in the alphabet. */
  function IndexOf(c: char): (r: Option<nat>)
    ensures r.Some? ==> r.value < N && Symbol(r.value) == c
  {
    if 'A' <= c <= 'H' then Some(c as int - 'A' as int)
    else if 'J' <= c <= 'N' then Some(c as int - 'J' as int + 8)
    else if 'P' <= c <= 'Z' then Some(c as int - 'P' as int + 13)
    else if '2' <= c <= '9' then Some(c as int - '2' as int + 24)
    else None
  }

  lemma SymbolIndex(v: nat)
    requires v < N
    ensures IndexOf(Symbol(v)) == Some(v)
  {
  }

  /** The runs spell the alphabet, and a character's place in them is what searching the alphabet finds. */
  lemma AlphabetExactly(c: char)
    ensures |ALPHABET| == N && forall v :: 0 <= v < N ==> ALPHABET[v] == Symbol(v)
    ensures IndexFrom(ALPHABET, c, 0) == IndexOf(c)
  {
    var found := IndexFrom(ALPHABET, c, 0);
    forall v | 0 <= v < N
      ensures ALPHABET[v] == Symbol(v)
    {
    }
    if found.Some? {
      SymbolIndex(found.value);
    }
  }

  predicate IsSymbol(c: char) {
    IndexOf(c).Some?
  }

  predicate AllSymbols(s: string) {
    forall i :: 0 <= i < |s| ==> IsSymbol(s[i])
  }

  /** A number's two digits in base 32, added up. */
  function Fold(addend: nat): nat {
    addend / N + addend % N
  }

  type Factor = f: nat | f == 1 || f == 2 witness 1

  /** What a value contributes under a weight: itself, or its double with the overflow folded back in. */
  function Part(factor: Factor, v: nat): nat
    requires v < N
  {
    if factor == 1 then v else if v < 16 then 2 * v else 2 * v - 31
  }

  lemma FoldInFull(factor: Factor, v: nat)
    requires v < N
    ensures Fold(if factor == 2 then 2 * v else v) == Part(factor, v)
  {
    assert v / N == 0;
    assert 2 * v / N == if v < 16 then 0 else 1;
  }

  /** A character's value; only the alphabet's characters have one of their own. */
  function Value(c: char): (v: nat)
    ensures v < N
  {
    if IsSymbol(c) then IndexOf(c).value else 0
  }

  /** The sum read from the right, weights alternating. */
  function Weighted(s: string, factor: Factor): nat
    decreases |s|
  {
    if s == [] then 0 else Weighted(s[..|s| - 1], 3 - factor) + Part(factor, Value(s[|s| - 1]))
  }

  /** None at a character outside the alphabet. */
  function LuhnSum(s: string, factor: Factor): Option<nat> {
    if AllSymbols(s) then Some(Weighted(s, factor)) else None
  }

  /** The loop over the characters from the last to the first. */
  method ComputeLuhnSum(input: string, startFactor: Factor) returns (r: Option<nat>)
    ensures r == LuhnSum(input, startFactor)
  {
    var factor := startFactor;
    var sum := 0;
    var i := |input|;
    assert input[..i] == input;
    while i > 0
      invariant i <= |input| && (factor == 1 || factor == 2)
      invariant forall k :: i <= k < |input| ==> IsSymbol(input[k])
      invariant Weighted(input, startFactor) == Weighted(input[..i], factor) + sum
    {
      i := i - 1;
      assert input[..i + 1][..i] == input[..i];
      var value := IndexOf(input[i]);
      if value.None? {
        return None;
      }
      var addend := if factor == 2 then 2 * value.value else value.value;
      FoldInFull(factor, value.value);
      factor := if factor == 2 then 1 else 2;
      sum := sum + (addend / N + addend % N);
    }
    r := Some(sum);
  }

  predicate Checks(code: string) {
    AllSymbols(code) && Weighted(code, 1) % N == 0
  }

  function CheckCharacter(data: string): Option<char> {
    var sum := LuhnSum(data, 2);
    if sum.None? then None else Some(Symbol((N - sum.value % N) % N))
  }

  // --- normalising and grouping ------------------------------------------------------------------

  function ToUpper(c: char): char {
    if 'a' <= c <= 'z' then 'A' + (c - 'a') else c
  }

  predicate Cosmetic(c: char) {
    Text.IsSpace(c) || c == '-'
  }

  function Normalize(s: string): string {
    if s == [] then []
    else if Cosmetic(s[0]) then Normalize(s[1..])
    else [ToUpper(s[0])] + Normalize(s[1..])
  }

  /** Groups of three joined by hyphens. */
  function Grouped(s: string): string
    decreases |s|
  {
    if |s| <= 3 then s else s[..3] + "-" + Grouped(s[3..])
  }

  function Format(reference: string): string {
    Grouped(Normalize(reference))
  }

  datatype Rejection = Empty | WrongLength | BadCharacter | CheckFailed

  function RejectionOf(input: string): Option<Rejection> {
    var normalized := Normalize(input);
    if |normalized| == 0 then Some(Empty)
    else if |normalized| != CODE_LENGTH then Some(WrongLength)
    else
      var sum := LuhnSum(normalized, 1);
      if sum.None? then Some(BadCharacter)
      else if sum.value % N != 0 then Some(CheckFailed)
      else None
  }

  // --- folding ---------------------------------------------------------------------------------------

  lemma SameSymbol(c: char, d: char)
    requires IsSymbol(c) && IsSymbol(d)
    ensures Value(c) == Value(d) <==> c == d
  {
    assert Symbol(Value(c)) == c && Symbol(Value(d)) == d;
  }

  /** Both weights permute the symbols' values. */
  lemma PartsApart(f: Factor, v: nat, w: nat)
    requires v < N && w < N
    ensures Part(f, v) % N == Part(f, w) % N <==> v == w
  {
    assert Part(f, v) < N && Part(f, w) < N;
  }

  predicate Ends(v: nat, w: nat) {
    (v == 0 && w == N - 1) || (v == N - 1 && w == 0)
  }

  /** What a swap of neighbours changes: the weights tell two values apart unless they are the first and last. */
  lemma FoldSwap(v: nat, w: nat)
    requires v < N && w < N
    ensures (Part(1, v) + Part(2, w)) % N == (Part(1, w) + Part(2, v)) % N <==> v == w || Ends(v, w)
  {
    var difference := Part(1, v) + Part(2, w) - Part(1, w) - Part(2, v);
    assert -2 * N < difference < 2 * N;
    Congruent(Part(1, v) + Part(2, w), Part(1, w) + Part(2, v));
  }

  lemma WeightedSwap(f: Factor, v: nat, w: nat)
    requires v < N && w < N
    ensures (Part(3 - f, v) + Part(f, w)) % N == (Part(3 - f, w) + Part(f, v)) % N <==> v == w || Ends(v, w)
  {
    FoldSwap(v, w);
  }

  lemma EndSymbols(c: char, d: char)
    requires IsSymbol(c) && IsSymbol(d) && c != d
    ensures Ends(IndexOf(c).value, IndexOf(d).value) <==> (c == 'A' && d == '9') || (c == '9' && d == 'A')
  {
  }

  lemma Congruent(p: nat, q: nat)
    requires -2 * N < p - q < 2 * N
    ensures p % N == q % N <==> p == q || p == q + N || p + N == q
  {
  }

  // --- sums of concatenations ----------------------------------------------------------------------

  function FactorAfter(factor: Factor, length: nat): Factor {
    if length % 2 == 0 then factor else 3 - factor
  }

  lemma FactorShift(factor: Factor, length: nat)
    requires length > 0
    ensures FactorAfter(3 - factor, length - 1) == FactorAfter(factor, length)
  {
  }

  lemma {:induction false} WeightedConcat(x: string, y: string, factor: Factor)
    ensures Weighted(x + y, factor) == Weighted(x, FactorAfter(factor, |y|)) + Weighted(y, factor)
    decreases |y|
  {
    if y == [] {
      assert x + y == x;
    } else {
      var front := y[..|y| - 1];
      assert (x + y)[..|x + y| - 1] == x + front;
      WeightedConcat(x, front, 3 - factor);
      FactorShift(factor, |y|);
    }
  }

  lemma WeightedOne(c: char, factor: Factor)
    ensures Weighted([c], factor) == Part(factor, Value(c))
  {
    assert [c][..0] == [];
  }

  lemma WeightedTwo(c: char, d: char, factor: Factor)
    ensures Weighted([c, d], factor) == Part(3 - factor, Value(c)) + Part(factor, Value(d))
  {
    assert [c, d] == [c] + [d];
    WeightedConcat([c], [d], factor);
    WeightedOne(c, 3 - factor);
    WeightedOne(d, factor);
  }

  lemma WeightedAround(x: string, mid: string, y: string)
    ensures var f := FactorAfter(1, |y|);
            Weighted(x + mid + y, 1) == Weighted(x, FactorAfter(f, |mid|)) + Weighted(mid, f) + Weighted(y, 1)
  {
    var front := x + mid;
    WeightedConcat(x, mid, FactorAfter(1, |y|));
    WeightedConcat(front, y, 1);
  }

  lemma SymbolsAround(x: string, mid: string, y: string)
    ensures AllSymbols(x + mid + y) <==> AllSymbols(x) && AllSymbols(mid) && AllSymbols(y)
  {
    var s := x + mid + y;
    assert forall i :: 0 <= i < |x| ==> s[i] == x[i];
    assert forall i :: 0 <= i < |mid| ==> s[|x| + i] == mid[i];
    assert forall i :: 0 <= i < |y| ==> s[|x| + |mid| + i] == y[i];
  }

  // --- what the check character catches ------------------------------------------------------------

  lemma Complement(sum: nat, v: nat)
    requires v < N
    ensures (sum + v) % N == 0 <==> v == (N - sum % N) % N
  {
    var r := sum % N;
    assert sum + v == N * (sum / N) + (r + v);
    assert (sum + v) % N == (r + v) % N;
    assert (r + v) % N == if r + v < N then r + v else r + v - N;
  }

  /** For data of any length, exactly one character completes it to a code that checks. */
  lemma OneCheckCharacter(data: string, c: char)
    requires AllSymbols(data)
    ensures CheckCharacter(data).Some?
    ensures Checks(data + [c]) <==> c == CheckCharacter(data).value
  {
    var sum := Weighted(data, 2);
    SymbolIndex((N - sum % N) % N);
    assert AllSymbols(data + [c]) <==> IsSymbol(c) by {
      assert (data + [c])[|data|] == c;
    }
    WeightedConcat(data, [c], 1);
    WeightedOne(c, 1);
    Complement(sum, Value(c));
  }

  lemma ModShift(k: int, r: int)
    ensures (N * k + r) % N == r % N
  {
  }

  /** Residues tell two middles apart when everything around them is the same. */
  lemma SameResidue(s: nat, t: nat, a: nat, b: nat, p: nat, q: nat)
    requires s == a + p + b && t == a + q + b && s % N == 0
    ensures t % N == 0 <==> p % N == q % N
  {
    assert t == N * (s / N) + (q - p);
    ModShift(s / N, q - p);
    assert q - p == N * (q / N - p / N) + (q % N - p % N);
    ModShift(q / N - p / N, q % N - p % N);
  }

  lemma WeightReplaced(x: string, mid: string, other: string, y: string)
    requires |mid| == |other| && Weighted(x + mid + y, 1) % N == 0
    ensures var f := FactorAfter(1, |y|);
            Weighted(x + other + y, 1) % N == 0 <==> Weighted(mid, f) % N == Weighted(other, f) % N
  {
    var f := FactorAfter(1, |y|);
    WeightedAround(x, mid, y);
    WeightedAround(x, other, y);
    SameResidue(Weighted(x + mid + y, 1), Weighted(x + other + y, 1),
                Weighted(x, FactorAfter(f, |mid|)), Weighted(y, 1), Weighted(mid, f), Weighted(other, f));
  }

  /** Replacing the middle of a code by another of the same length keeps the check exactly when their sums agree. */
  lemma MiddleReplaced(x: string, mid: string, other: string, y: string)
    requires |mid| == |other| && AllSymbols(other) && Checks(x + mid + y)
    ensures var f := FactorAfter(1, |y|);
            Checks(x + other + y) <==> Weighted(mid, f) % N == Weighted(other, f) % N
  {
    SymbolsAround(x, mid, y);
    SymbolsAround(x, other, y);
    WeightReplaced(x, mid, other, y);
  }

  /** A code of any length with any one character replaced no longer checks. */
  lemma SubstitutionIsCaught(x: string, c: char, d: char, y: string)
    requires Checks(x + [c] + y) && c != d
    ensures !Checks(x + [d] + y)
  {
    SymbolsAround(x, [c], y);
    SymbolsAround(x, [d], y);
    assert [c][0] == c && [d][0] == d;
    if IsSymbol(d) {
      MiddleReplaced(x, [c], [d], y);
      OneSymbolApart(c, d, FactorAfter(1, |y|));
    }
  }

  lemma OneSymbolApart(c: char, d: char, f: Factor)
    requires IsSymbol(c) && IsSymbol(d) && c != d
    ensures Weighted([c], f) % N != Weighted([d], f) % N
  {
    SameSymbol(c, d);
    PartsApart(f, Value(c), Value(d));
    WeightedOne(c, f);
    WeightedOne(d, f);
  }

  /**
   * A code of any length with two different neighbours swapped still checks exactly when the two are the
   * alphabet's first and last characters, A and 9.
   */
  lemma SwapIsCaughtExceptA9(x: string, c: char, d: char, y: string)
    requires Checks(x + [c, d] + y) && c != d
    ensures Checks(x + [d, c] + y) <==> (c == 'A' && d == '9') || (c == '9' && d == 'A')
  {
    var f := FactorAfter(1, |y|);
    SymbolsAround(x, [c, d], y);
    assert [c, d][0] == c && [c, d][1] == d;
    MiddleReplaced(x, [c, d], [d, c], y);
    WeightedTwo(c, d, f);
    WeightedTwo(d, c, f);
    WeightedSwap(f, Value(c), Value(d));
    SameSymbol(c, d);
    EndSymbols(c, d);
  }

  // --- round trips ---------------------------------------------------------------------------------

  /** A string normalising leaves alone. */
  predicate Clean(s: string) {
    forall i :: 0 <= i < |s| ==> !Cosmetic(s[i]) && ToUpper(s[i]) == s[i]
  }

  lemma {:induction false} NormalizeCleans(s: string)
    ensures Clean(Normalize(s)) && |Normalize(s)| <= |s|
  {
    if s != [] {
      NormalizeCleans(s[1..]);
    }
  }

  lemma {:induction false} CleanIsNormal(s: string)
    requires Clean(s)
    ensures Normalize(s) == s
  {
    if s != [] {
      CleanIsNormal(s[1..]);
    }
  }

  lemma {:induction false} NormalizeConcat(s: string, t: string)
    ensures Normalize(s + t) == Normalize(s) + Normalize(t)
  {
    if s == [] {
      assert s + t == t;
    } else {
      assert (s + t)[1..] == s[1..] + t;
      NormalizeConcat(s[1..], t);
    }
  }

  lemma {:induction false} GroupingIsCosmetic(s: string)
    requires Clean(s)
    ensures Normalize(Grouped(s)) == s
    decreases |s|
  {
    if |s| <= 3 {
      CleanIsNormal(s);
    } else {
      NormalizeConcat(s[..3] + "-", Grouped(s[3..]));
      NormalizeConcat(s[..3], "-");
      assert Normalize("-") == [] by {
        assert "-"[1..] == [];
      }
      CleanIsNormal(s[..3]);
      GroupingIsCosmetic(s[3..]);
    }
  }

  predicate SameLetter(c: char, d: char) {
    c == d || ('a' <= c <= 'z' && d as int == c as int - 32) || ('a' <= d <= 'z' && c as int == d as int - 32)
  }

  /** Typed in any mixture of cases, a reference means the same and is judged the same. */
  lemma CaseDoesNotMatter(s: string, t: string)
    requires |s| == |t| && forall i :: 0 <= i < |s| ==> SameLetter(s[i], t[i])
    ensures Normalize(s) == Normalize(t) && RejectionOf(s) == RejectionOf(t)
  {
    SameNormalForm(s, t);
  }

  lemma {:induction false} SameNormalForm(s: string, t: string)
    requires |s| == |t| && forall i :: 0 <= i < |s| ==> SameLetter(s[i], t[i])
    ensures Normalize(s) == Normalize(t)
  {
    if s != [] {
      SameNormalForm(s[1..], t[1..]);
    }
  }

  /** Nor do spaces and hyphens, wherever they are typed; and every other character is kept. */
  lemma SpacingDoesNotMatter(x: string, c: char, y: string)
    requires c in {' ', '-', '\t', '\n', '\r', '\U{A0}'}
    ensures Normalize(x + [c] + y) == Normalize(x + y) && RejectionOf(x + [c] + y) == RejectionOf(x + y)
  {
    NormalizeAround(x, [c], y);
    NormalizeOne(c);
    NormalizeConcat(x, y);
  }

  lemma OthersAreKept(s: string)
    requires forall i :: 0 <= i < |s| ==> '!' <= s[i] <= '~' && s[i] != '-' && !('a' <= s[i] <= 'z')
    ensures Normalize(s) == s
  {
    CleanIsNormal(s);
  }

  /** Formatted, a reference stands in threes, with a hyphen at every fourth place. */
  lemma {:induction false} GroupsOfThree(s: string, i: nat)
    requires i < |Grouped(s)|
    ensures |Grouped(s)| == |s| + (if s == [] then 0 else (|s| - 1) / 3)
    ensures 0 <= i - i / 4 && (i % 4 != 3 ==> i - i / 4 < |s|)
    ensures Grouped(s)[i] == if i % 4 == 3 then '-' else s[i - i / 4]
    decreases |s|
  {
    if |s| > 3 {
      GroupsOfThree(s[3..], if i < 4 then 0 else i - 4);
    }
  }

  /** Formatting for display never changes which code is meant, nor whether it is accepted. */
  lemma FormatRoundTrip(reference: string)
    ensures Normalize(Format(reference)) == Normalize(reference)
    ensures RejectionOf(Format(reference)) == RejectionOf(reference)
    ensures Format(Format(reference)) == Format(reference)
  {
    NormalizeCleans(reference);
    GroupingIsCosmetic(Normalize(reference));
  }

  lemma SymbolsAreClean(s: string)
    requires AllSymbols(s)
    ensures Clean(s)
  {
    forall i | 0 <= i < |s|
      ensures !Cosmetic(s[i]) && ToUpper(s[i]) == s[i]
    {
      assert Symbol(IndexOf(s[i]).value) == s[i];
    }
  }

  lemma AcceptedExactly(input: string)
    ensures RejectionOf(input).None? <==> |Normalize(input)| == CODE_LENGTH && Checks(Normalize(input))
    ensures RejectionOf(input) == Some(BadCharacter) <==>
            |Normalize(input)| == CODE_LENGTH && !AllSymbols(Normalize(input))
    ensures RejectionOf(input) == Some(WrongLength) <==>
            |Normalize(input)| != 0 && |Normalize(input)| != CODE_LENGTH
  {
  }

  // --- what a person copying a code is told --------------------------------------------------------

  /** What one typed character leaves of itself. */
  function Left(c: char): string {
    if Cosmetic(c) then [] else [ToUpper(c)]
  }

  lemma NormalizeOne(c: char)
    ensures Normalize([c]) == Left(c)
  {
    assert [c][1..] == [];
  }

  lemma NormalizeAround(x: string, mid: string, y: string)
    ensures Normalize(x + mid + y) == Normalize(x) + Normalize(mid) + Normalize(y)
  {
    NormalizeConcat(x + mid, y);
    NormalizeConcat(x, mid);
  }

  lemma NormalizeTwo(c: char, d: char)
    ensures Normalize([c, d]) == Left(c) + Left(d)
  {
    assert [c, d] == [c] + [d];
    NormalizeConcat([c], [d]);
    NormalizeOne(c);
    NormalizeOne(d);
  }

  lemma ReplacedSymbol(x: string, u: char, v: char, y: string)
    requires Checks(x + [u] + y) && u != v
    ensures !Checks(x + [v] + y)
    ensures AllSymbols(x + [v] + y) <==> IsSymbol(v)
  {
    SubstitutionIsCaught(x, u, v, y);
    SymbolsAround(x, [u], y);
    SymbolsAround(x, [v], y);
    assert [v][0] == v;
  }

  /**
   * One character of an accepted reference typed wrong, in whatever spacing and case: a space or hyphen in its
   * place is a wrong length, a character outside the alphabet is named as one, any other symbol fails the check,
   * and only the same letter in the other case passes.
   */
  lemma TypoIsNamed(x: string, c: char, d: char, y: string)
    requires RejectionOf(x + [c] + y).None? && !Cosmetic(c)
    ensures RejectionOf(x + [d] + y) ==
            if Cosmetic(d) then Some(WrongLength)
            else if ToUpper(d) == ToUpper(c) then None
            else if IsSymbol(ToUpper(d)) then Some(CheckFailed)
            else Some(BadCharacter)
  {
    NormalizeAround(x, [c], y);
    NormalizeAround(x, [d], y);
    NormalizeOne(c);
    NormalizeOne(d);
    AcceptedExactly(x + [c] + y);
    AcceptedExactly(x + [d] + y);
    if !Cosmetic(d) && ToUpper(d) != ToUpper(c) {
      ReplacedSymbol(Normalize(x), ToUpper(c), ToUpper(d), Normalize(y));
    }
  }

  lemma SwappedSymbols(x: string, u: char, v: char, y: string)
    requires Checks(x + [u, v] + y)
    ensures AllSymbols(x + [v, u] + y)
    ensures Checks(x + [v, u] + y) <==> u == v || (u == 'A' && v == '9') || (u == '9' && v == 'A')
  {
    SymbolsAround(x, [u, v], y);
    SymbolsAround(x, [v, u], y);
    assert [u, v][0] == u && [u, v][1] == v;
    if u != v {
      SwapIsCaughtExceptA9(x, u, v, y);
    }
  }

  /**
   * Two neighbouring characters of an accepted reference typed in the other order: the slip is refused as a
   * failed check, except where it changes nothing (one of them is spacing, or they are one letter) and for A and
   * 9, in either case.
   */
  lemma SlipIsNamed(x: string, c: char, d: char, y: string)
    requires RejectionOf(x + [c, d] + y).None?
    ensures var u, v := ToUpper(c), ToUpper(d);
            RejectionOf(x + [d, c] + y) ==
            if Cosmetic(c) || Cosmetic(d) || u == v || (u == 'A' && v == '9') || (u == '9' && v == 'A')
            then None else Some(CheckFailed)
  {
    NormalizeAround(x, [c, d], y);
    NormalizeAround(x, [d, c], y);
    NormalizeTwo(c, d);
    NormalizeTwo(d, c);
    AcceptedExactly(x + [c, d] + y);
    AcceptedExactly(x + [d, c] + y);
    if !Cosmetic(c) && !Cosmetic(d) {
      assert Left(c) + Left(d) == [ToUpper(c), ToUpper(d)];
      assert Left(d) + Left(c) == [ToUpper(d), ToUpper(c)];
      SwappedSymbols(Normalize(x), ToUpper(c), ToUpper(d), Normalize(y));
    } else {
      assert Left(c) + Left(d) == Left(d) + Left(c);
    }
  }

  // --- generating -------------------------------------------------------------------------------------

  type Byte = b: nat | b < 256

  function DataOf(bytes: seq<Byte>): (s: string)
    ensures |s| == |bytes|
    ensures forall i :: 0 <= i < |bytes| ==> s[i] == Symbol(bytes[i] % N)
  {
    seq(|bytes|, i requires 0 <= i < |bytes| => Symbol(bytes[i] % N))
  }

  lemma DataIsSymbols(bytes: seq<Byte>)
    ensures AllSymbols(DataOf(bytes))
  {
    forall i | 0 <= i < |bytes|
      ensures IsSymbol(DataOf(bytes)[i])
    {
      SymbolIndex(bytes[i] % N);
    }
  }

  /** The data characters followed by their check character. */
  function CodeOf(bytes: seq<Byte>): string {
    DataIsSymbols(bytes);
    DataOf(bytes) + [CheckCharacter(DataOf(bytes)).value]
  }

  /**
   * Draw a fresh reference. No byte is ever thrown away, because 32 divides 256, so the first eight drawn
   * are the eight used; the result always passes its own check.
   */
  method NewDepositReference(randomBytes: nat -> seq<Byte>) returns (reference: string)
    requires forall k :: |randomBytes(k)| == DATA_LENGTH
    ensures reference == Format(CodeOf(randomBytes(0)))
    ensures RejectionOf(reference).None? && |reference| == 11
  {
    var data := "";
    var draw := 0;
    while |data| < DATA_LENGTH
      invariant draw == 0 ==> data == ""
      invariant draw > 0 ==> data == DataOf(randomBytes(0))
    {
      var bytes := randomBytes(draw);
      draw := draw + 1;
      for k := 0 to |bytes|
        invariant data == DataOf(bytes)[..k]
      {
        if |data| == DATA_LENGTH {
          break;
        }
        var byte := bytes[k];
        if byte >= 256 - 256 % N {
          continue;
        }
        data := data + [Symbol(byte % N)];
      }
    }
    DataIsSymbols(randomBytes(0));
    OneCheckCharacter(data, CheckCharacter(data).value);
    var code := data + [CheckCharacter(data).value];
    GeneratedIsAccepted(code);
    reference := Format(code);
  }

  lemma GeneratedIsAccepted(code: string)
    requires |code| == CODE_LENGTH && Checks(code)
    ensures RejectionOf(Format(code)).None? && |Format(code)| == 11
  {
    SymbolsAreClean(code);
    CleanIsNormal(code);
    FormatRoundTrip(code);
    assert |Grouped(code)| == 11 by {
      assert |Grouped(code[3..])| == 7 by {
        assert Grouped(code[3..][3..]) == code[3..][3..];
      }
    }
  }

  /** Every code that checks is one some eight bytes give: generation reaches exactly the well-formed codes. */
  lemma EveryCodeIsDrawn(code: string) returns (bytes: seq<Byte>)
    requires |code| == CODE_LENGTH && Checks(code)
    ensures |bytes| == DATA_LENGTH
    ensures code == CodeOf(bytes)
  {
    bytes := seq(DATA_LENGTH, i requires 0 <= i < DATA_LENGTH => IndexOf(code[i]).value);
    assert DataOf(bytes) == code[..DATA_LENGTH];
    DataIsSymbols(bytes);
    assert code == DataOf(bytes) + [code[DATA_LENGTH]];
    OneCheckCharacter(DataOf(bytes), code[DATA_LENGTH]);
  }
}
