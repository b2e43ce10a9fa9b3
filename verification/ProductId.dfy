/** Reading a product id back into its network, kind and descriptor. */
module ProductId {
  import opened Wrappers

  datatype Kind = Airtime | Topup | Data

  datatype Parsed = Parsed(network: string, kind: Kind, descriptor: string)

  function KindName(k: Kind): string {
    match k
    case Airtime => "AIRTIME"
    case Topup => "TOPUP"
    case Data => "DATA"
  }

  /** The catalog's spelling of a product. */
  function Show(p: Parsed): string {
    p.network + "_" + KindName(p.kind) + "_" + p.descriptor
  }

  /** The characters the pattern's dot does not match. */
  predicate LineBreak(c: char) {
    c in {'\n', '\r', '\U{2028}', '\U{2029}'}
  }

  predicate OneLine(s: string) {
    forall i :: 0 <= i < |s| ==> !LineBreak(s[i])
  }

  predicate Has(s: string, at: nat, word: string) {
    at + |word| <= |s| && s[at..at + |word|] == word
  }

  /** The kind marked off by underscores at a place, if one is. */
  function KindAt(s: string, at: nat): Option<Kind> {
    if Has(s, at, "_AIRTIME_") then Some(Airtime)
    else if Has(s, at, "_TOPUP_") then Some(Topup)
    else if Has(s, at, "_DATA_") then Some(Data)
    else None
  }

  /** The pattern's lazy first group: try each split from the left, leaving something on both sides. */
  function ParseFrom(s: string, at: nat): Option<Parsed>
    decreases |s| - at
  {
    if at >= |s| then None
    else
      var k := KindAt(s, at);
      if k.Some? && at + |KindName(k.value)| + 2 < |s| then
        Some(Parsed(s[..at], k.value, s[at + |KindName(k.value)| + 2..]))
      else ParseFrom(s, at + 1)
  }

  function ParseProductId(s: string): Option<Parsed> {
    if OneLine(s) then ParseFrom(s, 1) else None
  }

  // --- reading and writing ------------------------------------------------------------------------------

  lemma MarkReprints(s: string, at: nat, k: Kind)
    requires Has(s, at, "_" + KindName(k) + "_")
    ensures at + |KindName(k)| + 2 <= |s|
    ensures Show(Parsed(s[..at], k, s[at + |KindName(k)| + 2..])) == s
  {
    var n := at + |KindName(k)| + 2;
    assert s == s[..at] + s[at..n] + s[n..];
  }

  lemma KindAtHas(s: string, at: nat)
    ensures KindAt(s, at).Some? ==> Has(s, at, "_" + KindName(KindAt(s, at).value) + "_")
  {
    assert "_AIRTIME_" == "_" + KindName(Airtime) + "_";
    assert "_TOPUP_" == "_" + KindName(Topup) + "_";
    assert "_DATA_" == "_" + KindName(Data) + "_";
  }

  lemma {:induction false} ParseReprints(s: string, at: nat)
    requires at >= 1
    ensures ParseFrom(s, at).Some? ==>
              var p := ParseFrom(s, at).value; Show(p) == s && p.network != "" && p.descriptor != ""
    decreases |s| - at
  {
    if at < |s| {
      var k := KindAt(s, at);
      if k.Some? && at + |KindName(k.value)| + 2 < |s| {
        KindAtHas(s, at);
        MarkReprints(s, at, k.value);
      } else {
        ParseReprints(s, at + 1);
      }
    }
  }

  predicate Printable(p: Parsed) {
    p.network != "" && p.descriptor != "" && OneLine(p.network) && OneLine(p.descriptor)
  }

  lemma PartsAreOneLine(p: Parsed)
    requires OneLine(Show(p))
    ensures OneLine(p.network) && OneLine(p.descriptor)
  {
    var s, n := Show(p), |p.network| + |KindName(p.kind)| + 2;
    assert forall i :: 0 <= i < |p.network| ==> s[i] == p.network[i];
    assert forall i :: 0 <= i < |p.descriptor| ==> s[n + i] == p.descriptor[i];
  }

  /** Whatever parses is printable and prints back to what was parsed. */
  lemma ParsedReprints(s: string)
    ensures ParseProductId(s).Some? ==> Printable(ParseProductId(s).value) && Show(ParseProductId(s).value) == s
  {
    ParseReprints(s, 1);
    if ParseProductId(s).Some? {
      PartsAreOneLine(ParseProductId(s).value);
    }
  }

  /** A network in which, read with its separator, no kind is marked off after the first character. */
  predicate NoEarlierKind(network: string) {
    forall at :: 1 <= at < |network| ==> KindAt(network + "_", at).None?
  }

  predicate NoUnderscore(s: string) {
    forall i :: 0 <= i < |s| ==> s[i] != '_'
  }

  lemma HasCharacter(s: string, at: nat, word: string, i: nat)
    requires i < |word| && at + i < |s|
    ensures Has(s, at, word) ==> s[at + i] == word[i]
  {
    if Has(s, at, word) {
      assert s[at + i] == s[at..at + |word|][i];
    }
  }

  /** A marked-off word cannot reach past the separator that ends the network. */
  lemma WordEndsByUnderscore(s: string, at: nat, word: string, bar: nat)
    requires NoUnderscore(word) && at < bar < |s| && s[bar] == '_'
    requires Has(s, at, "_" + word + "_")
    ensures at + |word| + 1 <= bar
  {
    var marked := "_" + word + "_";
    if bar - at < |marked| {
      HasCharacter(s, at, marked, bar - at);
    }
  }

  lemma PrefixHas(s: string, end: nat, at: nat, word: string)
    requires end <= |s|
    ensures Has(s[..end], at, word) <==> Has(s, at, word) && at + |word| <= end
  {
    if at + |word| <= end {
      assert s[..end][at..at + |word|] == s[at..at + |word|];
    }
  }

  lemma MarkBeforeSeparator(p: Parsed, at: nat, k: Kind)
    requires at < |p.network|
    ensures Has(Show(p), at, "_" + KindName(k) + "_") <==> Has(p.network + "_", at, "_" + KindName(k) + "_")
  {
    var s, bar := Show(p), |p.network|;
    var word := "_" + KindName(k) + "_";
    assert s[..bar + 1] == p.network + "_" && s[bar] == '_';
    if Has(s, at, word) {
      WordEndsByUnderscore(s, at, KindName(k), bar);
    }
    PrefixHas(s, bar + 1, at, word);
  }

  /** Before the separator, a whole id marks off a kind exactly where its network does. */
  lemma KindsBeforeSeparator(p: Parsed, at: nat)
    requires at < |p.network|
    ensures KindAt(Show(p), at) == KindAt(p.network + "_", at)
  {
    MarkBeforeSeparator(p, at, Airtime);
    MarkBeforeSeparator(p, at, Topup);
    MarkBeforeSeparator(p, at, Data);
    assert "_AIRTIME_" == "_" + KindName(Airtime) + "_";
    assert "_TOPUP_" == "_" + KindName(Topup) + "_";
    assert "_DATA_" == "_" + KindName(Data) + "_";
  }

  lemma KindAtSeparator(p: Parsed)
    ensures KindAt(Show(p), |p.network|) == Some(p.kind)
    ensures Show(p)[..|p.network|] == p.network
    ensures Show(p)[|p.network| + |KindName(p.kind)| + 2..] == p.descriptor
  {
    var s, at := Show(p), |p.network|;
    var n := |KindName(p.kind)| + 2;
    assert s[at..at + n] == "_" + KindName(p.kind) + "_";
    assert s[at + 1] == KindName(p.kind)[0];
    match p.kind
    case Airtime => assert "_AIRTIME_" == "_" + KindName(Airtime) + "_";
    case Topup =>
      assert "_TOPUP_" == "_" + KindName(Topup) + "_";
      HasCharacter(s, at, "_AIRTIME_", 1);
    case Data =>
      assert "_DATA_" == "_" + KindName(Data) + "_";
      HasCharacter(s, at, "_AIRTIME_", 1);
      HasCharacter(s, at, "_TOPUP_", 1);
  }

  lemma {:induction false} SkipsTo(s: string, at: nat, stop: nat)
    requires at <= stop <= |s|
    requires forall i :: at <= i < stop ==> KindAt(s, i).None?
    ensures ParseFrom(s, at) == ParseFrom(s, stop)
    decreases stop - at
  {
    if at < stop {
      SkipsTo(s, at + 1, stop);
    }
  }

  /** A kind marked off before the separator always leaves something after it, so the parser stops there. */
  lemma {:induction false} StopsEarly(p: Parsed, at: nat, early: nat)
    requires Printable(p) && 1 <= at <= early < |p.network| && KindAt(Show(p), early).Some?
    ensures ParseFrom(Show(p), at).Some? && |ParseFrom(Show(p), at).value.network| <= early
    decreases early - at
  {
    var s := Show(p);
    var k := KindAt(s, at);
    if k.Some? {
      KindsBeforeSeparator(p, at);
      assert at + |KindName(k.value)| + 2 <= |p.network| + 1;
    } else {
      StopsEarly(p, at + 1, early);
    }
  }

  /** Parsing undoes printing exactly when the network marks off no kind of its own after its first character. */
  lemma PrintThenParse(p: Parsed)
    requires Printable(p)
    ensures ParseProductId(Show(p)) == Some(p) <==> NoEarlierKind(p.network)
  {
    var s := Show(p);
    ShowIsOneLine(p);
    KindAtSeparator(p);
    if NoEarlierKind(p.network) {
      forall i | 1 <= i < |p.network|
        ensures KindAt(s, i).None?
      {
        KindsBeforeSeparator(p, i);
      }
      SkipsTo(s, 1, |p.network|);
    } else {
      var early: nat :| 1 <= early < |p.network| && KindAt(p.network + "_", early).Some?;
      KindsBeforeSeparator(p, early);
      StopsEarly(p, 1, early);
    }
  }

  lemma ShowIsOneLine(p: Parsed)
    requires OneLine(p.network) && OneLine(p.descriptor)
    ensures OneLine(Show(p))
  {
    assert OneLine(KindName(p.kind)) by {
      match p.kind
      case Airtime =>
      case Topup =>
      case Data =>
    }
  }

  /** The parser finds a split that is there, this one or one before it. */
  lemma {:induction false} FindsBy(s: string, at: nat, stop: nat)
    requires at <= stop < |s|
    requires KindAt(s, stop).Some? && stop + |KindName(KindAt(s, stop).value)| + 2 < |s|
    ensures ParseFrom(s, at).Some?
    decreases stop - at
  {
    if at < stop {
      FindsBy(s, at + 1, stop);
    }
  }

  /** Exactly the strings that some printable product prints to are parsed at all. */
  lemma ParsesExactly(s: string)
    ensures ParseProductId(s).Some? <==> exists p :: Printable(p) && Show(p) == s
  {
    ParsedReprints(s);
    if p :| Printable(p) && Show(p) == s {
      ShowIsOneLine(p);
      KindAtSeparator(p);
      FindsBy(s, 1, |p.network|);
    }
  }
}
