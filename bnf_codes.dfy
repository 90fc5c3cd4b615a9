/**
 * The generic equivalent of a BNF presentation code
 * (frontend/price_per_unit/substitution_sets.py, lines 71-108 and 153-170).
 *
 * A BNF code of a presentation is 15 characters long: characters 0-8 name the
 * sub-paragraph and chemical, characters 13-14 the strength and formulation of
 * the generic the presentation is equivalent to. The generic code itself has
 * "AA" in positions 9-10 and the strength-and-formulation pair twice.
 */
module BnfCodes {
  import opened Wrappers

  /** Length of a presentation's BNF code. */
  const CodeLength: nat := 15

  /** The suffix a code ends with when there is no generic of that strength and formulation. */
  const NoGenericSuffix: string := "A0"

  /**
   * One alternative of the exclusion pattern, matched from the first character
   * of a code. `Fixed` lists one pattern character per position, where `.`
   * stands for any character but a line break (a regular-expression dot);
   * `Prefix(p)` is the pattern `p.*`, which matches whatever follows `p`.
   */
  datatype Rule = Fixed(pattern: string) | Prefix(prefix: string)

  /** `rule` matches `code` from its first character on. */
  predicate Matches(rule: Rule, code: string) {
    match rule
    case Fixed(p) =>
      |p| <= |code| &&
      forall i :: 0 <= i < |p| ==> if p[i] == '.' then code[i] != '\n' else code[i] == p[i]
    case Prefix(p) =>
      |p| <= |code| && code[..|p|] == p
  }

  /** The alternatives of the exclusion pattern, in the order they are listed. */
  function Exclusions(): seq<Rule> {
    [
      Fixed("0302000C0....BE"),
      Fixed("0302000C0....BF"),
      Fixed("0302000C0....BH"),
      Fixed("0302000C0....BG"),
      Prefix("0904010H0"),
      Fixed("1311070S0....AA"),
      Fixed("1311020L0....BS"),
      Fixed("0301020S0....AA"),
      Fixed("190700000BBCJA0"),
      Fixed("0604011L0BGAAAH"),
      Fixed("1502010J0....BY"),
      Fixed("1201010F0AAAAAA"),
      Fixed("0107010S0AAAGAG"),
      Fixed("060016000BBAAA0"),
      Fixed("190201000AABJBJ"),
      Fixed("190201000AABKBK"),
      Fixed("190201000AABLBL"),
      Fixed("190201000AABMBM"),
      Fixed("190201000AABNBN"),
      Fixed("190202000AAADAD")
    ]
  }

  /** A match looks only at the first characters of a code: whatever follows them does not change it. */
  lemma MatchIgnoresRest(rule: Rule, code: string, rest: string)
    requires (if rule.Fixed? then |rule.pattern| else |rule.prefix|) <= |code|
    ensures Matches(rule, code + rest) <==> Matches(rule, code)
  {
    match rule
    case Fixed(p) =>
      assert forall i :: 0 <= i < |p| ==> (code + rest)[i] == code[i];
    case Prefix(p) =>
      assert (code + rest)[..|p|] == code[..|p|];
  }

  /**
   * There are twenty alternatives; all but one are fifteen positions wide, one
   * per character of a code, and the fifth is the nine-character prefix rule.
   */
  lemma ExclusionWidths()
    ensures |Exclusions()| == 20
    ensures forall i :: 0 <= i < |Exclusions()| && i != 4 ==> Exclusion(i).Fixed? && |Exclusion(i).pattern| == CodeLength
    ensures Exclusion(4) == Prefix("0904010H0")
  {
  }

  /** The `i`th alternative of the exclusion pattern. */
  function Exclusion(i: nat): Rule
    requires i < |Exclusions()|
  {
    Exclusions()[i]
  }

  /** Some alternative of the exclusion pattern matches `code`. */
  predicate Excluded(code: string) {
    exists i :: 0 <= i < |Exclusions()| && Matches(Exclusion(i), code)
  }

  /**
   * Sub-paragraphs all of whose presentations are interchangeable, with the
   * name of the whole group.
   */
  function GenericSubParagraphs(): map<string, string> {
    map[
      "0601060U0" := "Urine Testing Reagents",
      "0601060D0" := "Glucose Blood Testing Reagents"
    ]
  }

  /** `code` has the shape of a generic code: "AA" at 9-10 and its strength-and-formulation pair twice. */
  predicate GenericShaped(code: string) {
    |code| == CodeLength && code[9..11] == "AA" && code[11..13] == code[13..15]
  }

  /**
   * `generic_equivalent_for_bnf_code`: the generic code a presentation code
   * belongs to, or `None`.
   */
  function GenericEquivalent(code: string): (r: Option<string>)
    ensures r.Some? <==>
      |code| == CodeLength && !Excluded(code) &&
      (code[13..15] != NoGenericSuffix || code[..9] in GenericSubParagraphs())
    ensures r.Some? ==>
      GenericShaped(r.value) && r.value[..9] == code[..9] && r.value[13..15] == code[13..15]
  {
    if |code| != CodeLength then None
    else if Excluded(code) then None
    else
      var subParagraphAndChemical := code[0..9];
      var strengthAndFormulation := code[13..15];
      if strengthAndFormulation != NoGenericSuffix || subParagraphAndChemical in GenericSubParagraphs() then
        Some(subParagraphAndChemical + "AA" + strengthAndFormulation + strengthAndFormulation)
      else
        None
  }

  /** A code whose length is not 15 has no generic equivalent. */
  lemma WrongLengthHasNoEquivalent(code: string)
    requires |code| != CodeLength
    ensures GenericEquivalent(code) == None
  {
  }

  /** A code matched by an exclusion rule has no generic equivalent, whatever its suffix. */
  lemma ExcludedHasNoEquivalent(code: string)
    requires Excluded(code)
    ensures GenericEquivalent(code) == None
  {
  }

  /**
   * A code ending in "A0" has a generic equivalent exactly when it is not
   * excluded and its sub-paragraph is one of the whole-sub-paragraph groups;
   * that equivalent is the sub-paragraph's code followed by "AAA0A0".
   */
  lemma NoGenericSuffixEquivalent(code: string)
    requires |code| == CodeLength && code[13..15] == NoGenericSuffix
    ensures GenericEquivalent(code).Some? <==> !Excluded(code) && code[..9] in GenericSubParagraphs()
    ensures GenericEquivalent(code).Some? ==> GenericEquivalent(code).value == code[..9] + "AAA0A0"
  {
  }

  /**
   * The generic code is a fixed point: classifying it again gives it back,
   * unless it is itself matched by an exclusion rule.
   */
  lemma GenericIsFixedPoint(code: string)
    requires GenericEquivalent(code).Some?
    ensures var g := GenericEquivalent(code).value;
      GenericEquivalent(g) == if Excluded(g) then None else Some(g)
  {
    var g := GenericEquivalent(code).value;
    if !Excluded(g) {
      assert g[0..9] == code[..9] && g[13..15] == code[13..15];
      assert g == g[0..9] + "AA" + g[13..15] + g[13..15] by {
        assert g == g[0..9] + g[9..11] + g[11..13] + g[13..15];
      }
    }
  }

  /**
   * The codes the swaps file may list, those equal to their own generic
   * equivalent, are exactly the non-excluded generic-shaped codes whose suffix
   * is not "A0" or whose sub-paragraph is a whole-sub-paragraph group.
   */
  lemma FixedPoints(code: string)
    ensures GenericEquivalent(code) == Some(code) <==>
      GenericShaped(code) && !Excluded(code) &&
      (code[13..15] != NoGenericSuffix || code[..9] in GenericSubParagraphs())
  {
    if GenericShaped(code) && !Excluded(code) &&
       (code[13..15] != NoGenericSuffix || code[..9] in GenericSubParagraphs()) {
      assert code == code[0..9] + code[9..11] + code[11..13] + code[13..15];
    }
  }

  /** Position `k` of `code` defeats `rule`: the rule has a literal there that `code` does not. */
  predicate MismatchAt(rule: Rule, code: string, k: nat) {
    match rule
    case Fixed(p) => k < |p| && k < |code| && p[k] != '.' && code[k] != p[k]
    case Prefix(p) => k < |p| && k < |code| && code[k] != p[k]
  }

  lemma Mismatch(rule: Rule, code: string, k: nat)
    requires MismatchAt(rule, code, k)
    ensures !Matches(rule, code)
  {
    if rule.Prefix? && |rule.prefix| <= |code| {
      assert code[..|rule.prefix|][k] == code[k];
    }
  }

  /** `code` is matched by no exclusion rule when each rule has a literal at `ks[i]` that `code` misses. */
  lemma NoRuleMatches(code: string, ks: seq<nat>)
    requires |ks| == |Exclusions()| && forall i :: 0 <= i < |Exclusions()| ==> MismatchAt(Exclusions()[i], code, ks[i])
    ensures !Excluded(code)
  {
    forall i | 0 <= i < |Exclusions()| ensures !Matches(Exclusions()[i], code) {
      Mismatch(Exclusions()[i], code, ks[i]);
    }
  }

  /** Every exclusion rule starts with a chapter whose second digit is 1, 2, 3, 5, 6 or 9. */
  lemma ExcludedSecondDigit(code: string)
    requires |code| > 1 && code[1] !in "123569"
    ensures !Excluded(code)
  {
    var ks := seq(|Exclusions()|, i => 1);
    forall i | 0 <= i < |Exclusions()| ensures MismatchAt(Exclusions()[i], code, ks[i]) {
      if i < 10 {
        SecondDigitFirstRules(code, i);
      } else {
        SecondDigitLastRules(code, i);
      }
    }
    NoRuleMatches(code, ks);
  }

  lemma SecondDigitFirstRules(code: string, i: int)
    requires |code| > 1 && code[1] !in "123569" && 0 <= i < 10
    ensures MismatchAt(Exclusions()[i], code, 1)
  {
    assert i == 0 || i == 1 || i == 2 || i == 3 || i == 4 || i == 5 || i == 6 || i == 7 || i == 8 || i == 9;
  }

  lemma SecondDigitLastRules(code: string, i: int)
    requires |code| > 1 && code[1] !in "123569" && 10 <= i < |Exclusions()|
    ensures MismatchAt(Exclusions()[i], code, 1)
  {
    assert i == 10 || i == 11 || i == 12 || i == 13 || i == 14 || i == 15 || i == 16 || i == 17 || i == 18 || i == 19;
  }

  /** A tablet and a capsule generic of tramadol are their own generic equivalents. */
  lemma TramadolGenericsAreFixedPoints()
    ensures GenericEquivalent("040702040AAACAC") == Some("040702040AAACAC")
    ensures GenericEquivalent("040702040AAAHAH") == Some("040702040AAAHAH")
  {
    ExcludedSecondDigit("040702040AAACAC");
    ExcludedSecondDigit("040702040AAAHAH");
    assert "040702040AAACAC"[13..15][1] != NoGenericSuffix[1];
    assert "040702040AAAHAH"[13..15][1] != NoGenericSuffix[1];
    FixedPoints("040702040AAACAC");
    FixedPoints("040702040AAAHAH");
  }

  /** A brand of an excluded sodium-chloride preparation (issue 10) gets no generic equivalent. */
  lemma ExcludedExample()
    ensures GenericEquivalent("0302000C0AAABBE") == None
  {
    assert Matches(Exclusion(0), "0302000C0AAABBE");
  }

  /** The positions at which the exclusion rules defeat "190201000ABCDBJ". */
  const BrandMisses: seq<nat> := [0, 0, 0, 0, 0, 1, 1, 0, 3, 0, 1, 1, 0, 0, 10, 10, 10, 10, 10, 5]

  lemma BrandMissesFirstRules(i: int)
    requires 0 <= i < 10
    ensures MismatchAt(Exclusions()[i], "190201000ABCDBJ", BrandMisses[i])
  {
    assert i == 0 || i == 1 || i == 2 || i == 3 || i == 4 || i == 5 || i == 6 || i == 7 || i == 8 || i == 9;
  }

  lemma BrandMissesLastRules(i: int)
    requires 10 <= i < |Exclusions()|
    ensures MismatchAt(Exclusions()[i], "190201000ABCDBJ", BrandMisses[i])
  {
    assert i == 10 || i == 11 || i == 12 || i == 13 || i == 14 || i == 15 || i == 16 || i == 17 || i == 18 || i == 19;
  }

  /** "190201000ABCDBJ", a brand of an excluded generic, is not itself excluded. */
  lemma BrandOfExcludedGenericNotExcluded()
    ensures !Excluded("190201000ABCDBJ")
  {
    forall i | 0 <= i < |Exclusions()| ensures MismatchAt(Exclusions()[i], "190201000ABCDBJ", BrandMisses[i]) {
      if i < 10 {
        BrandMissesFirstRules(i);
      } else {
        BrandMissesLastRules(i);
      }
    }
    NoRuleMatches("190201000ABCDBJ", BrandMisses);
  }

  /**
   * The fixed-point property fails for generics listed literally among the
   * exclusions: a brand of "190201000AABJBJ" maps to it, but it maps to nothing.
   */
  lemma ExcludedGenericIsNotFixed()
    ensures GenericEquivalent("190201000ABCDBJ") == Some("190201000AABJBJ")
    ensures GenericEquivalent("190201000AABJBJ") == None
  {
    assert Matches(Exclusion(14), "190201000AABJBJ");
    BrandOfExcludedGenericNotExcluded();
    var c := "190201000ABCDBJ";
    assert c[13..15] == "BJ";
    assert c[13..15][1] != NoGenericSuffix[1];
    assert c[0..9] + "AA" + "BJ" + "BJ" == "190201000AABJBJ";
  }
}
