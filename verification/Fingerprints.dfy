/** The 32-bit FNV-1a fingerprint, and why one changed character always changes it. */
module Fingerprints {

  /** A UTF-16 code unit, and a string of them. */
  type Unit = n: nat | n < 0x1_0000
  type Utf16 = seq<Unit>

  const WORD := 0x1_0000_0000

  type Word = n: nat | n < 0x1_0000_0000

  const OFFSET_BASIS: Word := 0x811c_9dc5
  const PRIME := 0x0100_0193

  /** The prime's inverse modulo 2^32. */
  const INVERSE := 899_433_627

  /** Bitwise exclusive-or of two naturals, from the lowest bit up. */
  function Xor(a: nat, b: nat): nat
    decreases a + b
  {
    if a == 0 && b == 0 then 0 else (if a % 2 == b % 2 then 0 else 1) + 2 * Xor(a / 2, b / 2)
  }

  function Doubled(k: nat): nat {
    if k == 0 then 1 else 2 * Doubled(k - 1)
  }

  lemma {:induction false} XorBounded(a: nat, b: nat, k: nat)
    requires a < Doubled(k) && b < Doubled(k)
    ensures Xor(a, b) < Doubled(k)
    decreases k
  {
    if k > 0 {
      XorBounded(a / 2, b / 2, k - 1);
    }
  }

  lemma XorIsWord(h: Word, u: Unit)
    ensures Xor(h, u) < WORD
  {
    assert Doubled(8) == 0x100;
    assert Doubled(16) == 0x1_0000;
    assert Doubled(24) == 0x100_0000;
    assert Doubled(32) == WORD;
    XorBounded(h, u, 32);
  }

  /** One step of the loop: exclusive-or the unit in, then multiply by the prime, wrapping at 32 bits. */
  function Mix(hash: Word, unit: Unit): Word {
    (Xor(hash, unit) * PRIME) % WORD
  }

  /** The hash after every unit of the input, from any starting value. */
  function HashFrom(hash: Word, input: Utf16): Word
    decreases |input|
  {
    if input == [] then hash else HashFrom(Mix(hash, input[0]), input[1..])
  }

  function HexDigit(d: nat): char
    requires d < 16
  {
    if d < 10 then '0' + d as char else 'a' + (d - 10) as char
  }

  /** Number.prototype.toString(16): the leading digits, then the last one. */
  function ToHex(n: nat): string {
    if n < 16 then [HexDigit(n)] else ToHex(n / 16) + [HexDigit(n % 16)]
  }

  function PadStart(s: string, width: nat): (r: string)
    ensures |r| >= width
    decreases width - |s|
  {
    if |s| >= width then s else PadStart(['0'] + s, width)
  }

  function Fingerprint(input: Utf16): string {
    PadStart(ToHex(HashFrom(OFFSET_BASIS, input)), 8)
  }

  /** The loop itself: one exclusive-or and one wrapping multiplication a unit. */
  method ComputeFingerprint(input: Utf16) returns (mark: string)
    ensures mark == Fingerprint(input)
  {
    var hash: Word := OFFSET_BASIS;
    var i := 0;
    assert input[0..] == input;
    while i < |input|
      invariant i <= |input|
      invariant HashFrom(hash, input[i..]) == HashFrom(OFFSET_BASIS, input)
    {
      assert input[i..][0] == input[i] && input[i..][1..] == input[i + 1..];
      XorIsWord(hash, input[i]);
      var mixed: Word := Xor(hash, input[i]);
      hash := (mixed * PRIME) % WORD;
      i := i + 1;
    }
    assert input[i..] == [];
    mark := PadStart(ToHex(hash), 8);
  }

  // --- against the published values ------------------------------------------------------------

  lemma {:induction false} XorNothing(a: nat)
    ensures Xor(a, 0) == a
  {
    if a > 0 {
      XorNothing(a / 2);
    }
  }

  lemma XorOfA()
    ensures Xor(0x811c9dc5, 0x61) == 0x811c9da4
  {
    XorNothing(0x102393b);
    assert Xor(0x102393b, 0x0) == 0x102393b;
    assert Xor(0x2047277, 0x1) == 0x2047276;
    assert Xor(0x408e4ee, 0x3) == 0x408e4ed;
    assert Xor(0x811c9dc, 0x6) == 0x811c9da;
    assert Xor(0x102393b8, 0xc) == 0x102393b4;
    assert Xor(0x20472771, 0x18) == 0x20472769;
    assert Xor(0x408e4ee2, 0x30) == 0x408e4ed2;
    assert Xor(0x811c9dc5, 0x61) == 0x811c9da4;
  }

  lemma HashOfA()
    ensures HashFrom(OFFSET_BASIS, [0x61]) == 0xe40c292c
  {
    XorOfA();
    assert 0x811c9da4 * PRIME == WORD * 0x811d68 + 0xe40c292c;
    assert Mix(OFFSET_BASIS, 0x61) == 0xe40c292c;
    assert [0x61][1..] == [];
  }

  lemma HexStep(n: nat, d: nat)
    requires 0 < n && d < 16
    ensures ToHex(16 * n + d) == ToHex(n) + [HexDigit(d)]
  {
  }

  lemma HexOfBasis()
    ensures ToHex(0x811c9dc5) == "811c9dc5"
  {
    HexStep(0x8, 0x1);
    HexStep(0x81, 0x1);
    HexStep(0x811, 0xc);
    HexStep(0x811c, 0x9);
    HexStep(0x811c9, 0xd);
    HexStep(0x811c9d, 0xc);
    HexStep(0x811c9dc, 0x5);
  }

  lemma HexOfA()
    ensures ToHex(0xe40c292c) == "e40c292c"
  {
    HexStep(0xe, 0x4);
    HexStep(0xe4, 0x0);
    HexStep(0xe40, 0xc);
    HexStep(0xe40c, 0x2);
    HexStep(0xe40c2, 0x9);
    HexStep(0xe40c29, 0x2);
    HexStep(0xe40c292, 0xc);
  }

  /** The hash of nothing, and of the letter a, as FNV's authors list them. */
  lemma PublishedValues()
    ensures Fingerprint([]) == "811c9dc5"
    ensures Fingerprint([0x61]) == "e40c292c"
  {
    HashOfA();
    HexOfBasis();
    HexOfA();
  }

  // --- every step is a bijection ------------------------------------------------------------

  lemma {:induction false} XorInjective(a: nat, b: nat, c: nat, d: nat)
    requires Xor(a, b) == Xor(c, d)
    ensures a == c <==> b == d
    decreases a + b + c + d
  {
    if a + b + c + d > 0 {
      XorInjective(a / 2, b / 2, c / 2, d / 2);
    }
  }

  lemma WrapsTo(x: Word, k: int)
    ensures (x + WORD * k) % WORD == x
  {
  }

  /** The prime has an inverse modulo 2^32, so multiplying by it loses nothing. */
  lemma PrimeInverts(x: Word)
    ensures ((x * PRIME) % WORD * INVERSE) % WORD == x
  {
    var q := (x * PRIME) / WORD;
    assert (x * PRIME) % WORD == x * PRIME - q * WORD;
    assert (x * PRIME - q * WORD) * INVERSE == x + WORD * (x * 3_513_497 - q * INVERSE);
    WrapsTo(x, x * 3_513_497 - q * INVERSE);
  }

  lemma MixInjective(g: Word, h: Word, a: Unit, b: Unit)
    requires Mix(g, a) == Mix(h, b)
    ensures g == h <==> a == b
  {
    XorIsWord(g, a);
    XorIsWord(h, b);
    PrimeInverts(Xor(g, a));
    PrimeInverts(Xor(h, b));
    XorInjective(g, a, h, b);
  }

  /** A difference in the hash survives any common ending. */
  lemma {:induction false} DifferenceSurvives(g: Word, h: Word, rest: Utf16)
    ensures HashFrom(g, rest) == HashFrom(h, rest) <==> g == h
    decreases |rest|
  {
    if rest != [] {
      var c := rest[0];
      DifferenceSurvives(Mix(g, c), Mix(h, c), rest[1..]);
      if Mix(g, c) == Mix(h, c) {
        MixInjective(g, h, c, c);
      }
    }
  }

  lemma {:induction false} HashOfConcat(hash: Word, s: Utf16, t: Utf16)
    ensures HashFrom(hash, s + t) == HashFrom(HashFrom(hash, s), t)
    decreases |s|
  {
    if s == [] {
      assert s + t == t;
    } else {
      assert (s + t)[1..] == s[1..] + t;
      HashOfConcat(Mix(hash, s[0]), s[1..], t);
    }
  }

  // --- the rendering -----------------------------------------------------------------------------

  function DigitValue(c: char): int {
    if c <= '9' then c as int - '0' as int else c as int - 'a' as int + 10
  }

  /** Reading hexadecimal back. */
  function Parse(s: string): int {
    if s == [] then 0 else Parse(s[..|s| - 1]) * 16 + DigitValue(s[|s| - 1])
  }

  lemma {:induction false} ParseHex(n: nat)
    ensures Parse(ToHex(n)) == n
  {
    var s := ToHex(n);
    if n < 16 {
      assert s[..|s| - 1] == [];
    } else {
      assert s[..|s| - 1] == ToHex(n / 16);
      ParseHex(n / 16);
    }
  }

  lemma {:induction false} ParseSkipsZero(s: string)
    ensures Parse(['0'] + s) == Parse(s)
    decreases |s|
  {
    var t := ['0'] + s;
    if s == [] {
      assert t[..0] == [];
    } else {
      assert t[..|t| - 1] == ['0'] + s[..|s| - 1];
      ParseSkipsZero(s[..|s| - 1]);
    }
  }

  lemma {:induction false} ParsePadded(s: string, width: nat)
    ensures Parse(PadStart(s, width)) == Parse(s)
    decreases width - |s|
  {
    if |s| < width {
      ParseSkipsZero(s);
      ParsePadded(['0'] + s, width);
    }
  }

  /** The printed characters determine the hash. */
  lemma RenderingInjective(g: Word, h: Word)
    ensures PadStart(ToHex(g), 8) == PadStart(ToHex(h), 8) <==> g == h
  {
    ParsePadded(ToHex(g), 8);
    ParsePadded(ToHex(h), 8);
    ParseHex(g);
    ParseHex(h);
  }

  predicate HexDigits(s: string) {
    forall i :: 0 <= i < |s| ==> '0' <= s[i] <= '9' || 'a' <= s[i] <= 'f'
  }

  function Power16(k: nat): nat {
    if k == 0 then 1 else 16 * Power16(k - 1)
  }

  lemma {:induction false} HexLength(n: nat, k: nat)
    requires k > 0 && n < Power16(k)
    ensures HexDigits(ToHex(n)) && |ToHex(n)| <= k
  {
    if n >= 16 {
      assert n / 16 < Power16(k - 1);
      HexLength(n / 16, k - 1);
    }
  }

  lemma {:induction false} PadLength(s: string, width: nat)
    requires HexDigits(s) && |s| <= width
    ensures HexDigits(PadStart(s, width)) && |PadStart(s, width)| == width
    decreases width - |s|
  {
    if |s| < width {
      PadLength(['0'] + s, width);
    }
  }

  /** A fingerprint is eight hexadecimal digits, whatever the input. */
  lemma FingerprintIsEightDigits(input: Utf16)
    ensures |Fingerprint(input)| == 8 && HexDigits(Fingerprint(input))
  {
    var hash := HashFrom(OFFSET_BASIS, input);
    assert Power16(4) == 0x1_0000;
    assert Power16(8) == WORD;
    HexLength(hash, 8);
    PadLength(ToHex(hash), 8);
  }

  // --- the theorem ----------------------------------------------------------------------------------

  lemma HashAround(before: Utf16, c: Unit, after: Utf16)
    ensures HashFrom(OFFSET_BASIS, before + [c] + after) == HashFrom(Mix(HashFrom(OFFSET_BASIS, before), c), after)
  {
    var h := HashFrom(OFFSET_BASIS, before);
    HashOfConcat(OFFSET_BASIS, before + [c], after);
    HashOfConcat(OFFSET_BASIS, before, [c]);
    assert HashFrom(h, [c]) == HashFrom(Mix(h, c), [c][1..]);
  }

  /** Two inputs that differ in exactly one unit, anywhere in strings of any length, never share a fingerprint. */
  lemma OneUnitAlwaysShows(before: Utf16, a: Unit, b: Unit, after: Utf16)
    ensures Fingerprint(before + [a] + after) == Fingerprint(before + [b] + after) <==> a == b
  {
    var h := HashFrom(OFFSET_BASIS, before);
    HashAround(before, a, after);
    HashAround(before, b, after);
    RenderingInjective(HashFrom(Mix(h, a), after), HashFrom(Mix(h, b), after));
    DifferenceSurvives(Mix(h, a), Mix(h, b), after);
    if Mix(h, a) == Mix(h, b) {
      MixInjective(h, h, a, b);
    }
  }
}
