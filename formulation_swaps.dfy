/**
 * The formulation-swaps file (frontend/price_per_unit/substitution_sets.py,
 * lines 173-242): curated rows saying that two generic codes of different
 * formulations are interchangeable, combined into groups, then into the
 * `swaps` map (every code of a group to the group's smallest code) and the
 * `swap_descriptions` map (smallest code to "Cap / Tab"-style text).
 */
module FormulationSwaps {
  import opened Wrappers
  import opened Collections
  import opened Strings
  import opened BnfCodes
  import opened Groups

  /** A row of the file, every field already stripped of surrounding white space. */
  datatype SwapRow = SwapRow(
    code: string,
    alternativeCode: string,
    formulation: string,
    alternativeFormulation: string,
    reallyEquivalent: string)

  /** The assertion of lines 228-230 that stops the load. */
  datatype LoadError =
    | NotGeneric(code: string)   // a listed code is not its own generic equivalent
    | SameCode(code: string)     // a row pairs a code with itself

  /** What the row loop collects: the pairs of codes and the latest formulation of each code. */
  datatype Loaded = Loaded(pairs: seq<(string, string)>, formulations: map<string, string>)

  /** The file may only list generic codes: codes that are their own generic equivalent. */
  predicate IsGeneric(code: string) {
    GenericEquivalent(code) == Some(code)
  }

  /** Line 223: only rows marked "Y" in "Really equivalent?" are used. */
  predicate Accepted(row: SwapRow) {
    row.reallyEquivalent == "Y"
  }

  /** The first of the assertions of lines 228-230 that `row` fails, if any. */
  function RowError(row: SwapRow): (r: Option<LoadError>)
    ensures r.None? <==> IsGeneric(row.code) && IsGeneric(row.alternativeCode) && row.code != row.alternativeCode
    ensures !IsGeneric(row.code) ==> r == Some(NotGeneric(row.code))
    ensures IsGeneric(row.code) && !IsGeneric(row.alternativeCode) ==> r == Some(NotGeneric(row.alternativeCode))
    ensures IsGeneric(row.code) && IsGeneric(row.alternativeCode) && row.code == row.alternativeCode ==>
      r == Some(SameCode(row.code))
  {
    if !IsGeneric(row.code) then Some(NotGeneric(row.code))
    else if !IsGeneric(row.alternativeCode) then Some(NotGeneric(row.alternativeCode))
    else if row.code == row.alternativeCode then Some(SameCode(row.code))
    else None
  }

  /** The effect of the row loop (lines 222-233) on `rows`, row by row. */
  function Load(rows: seq<SwapRow>): Result<Loaded, LoadError>
    decreases |rows|
  {
    if rows == [] then Ok(Loaded([], map[]))
    else
      var row := rows[|rows| - 1];
      match Load(rows[..|rows| - 1])
      case Err(e) => Err(e)
      case Ok(l) =>
        if !Accepted(row) then Ok(l)
        else match RowError(row)
          case Some(e) => Err(e)
          case None =>
            Ok(Loaded(l.pairs + [(row.code, row.alternativeCode)],
              l.formulations[row.code := row.formulation][row.alternativeCode := row.alternativeFormulation]))
  }

  /**
   * Reference for the formulation recorded for `c`: the one given by the last
   * accepted row listing `c`, its alternative column winning within a row.
   */
  function LastFormulation(rows: seq<SwapRow>, c: string): Option<string>
    decreases |rows|
  {
    if rows == [] then None
    else
      var row := rows[|rows| - 1];
      if Accepted(row) && row.alternativeCode == c then Some(row.alternativeFormulation)
      else if Accepted(row) && row.code == c then Some(row.formulation)
      else LastFormulation(rows[..|rows| - 1], c)
  }

  /** Once a prefix of the rows fails, the whole load fails with the same error. */
  lemma {:induction false} LoadErrorPersists(rows: seq<SwapRow>, n: nat)
    requires n <= |rows| && Load(rows[..n]).Err?
    ensures Load(rows) == Load(rows[..n])
    decreases |rows| - n
  {
    if n < |rows| {
      assert rows[..n + 1][..n] == rows[..n];
      LoadErrorPersists(rows, n + 1);
    } else {
      assert rows[..n] == rows;
    }
  }

  /** The load succeeds exactly when every accepted row passes the assertions. */
  lemma {:induction false} LoadSucceeds(rows: seq<SwapRow>)
    ensures Load(rows).Ok? <==> forall i :: 0 <= i < |rows| && Accepted(rows[i]) ==> RowError(rows[i]).None?
  {
    if rows != [] {
      var init := rows[..|rows| - 1];
      LoadSucceeds(init);
      assert forall i :: 0 <= i < |init| ==> init[i] == rows[i];
    }
  }

  /** Row `i` is the first accepted row failing an assertion, and `e` is what it fails. */
  predicate FirstBadRow(rows: seq<SwapRow>, i: int, e: LoadError) {
    0 <= i < |rows| && Accepted(rows[i]) && RowError(rows[i]) == Some(e) &&
    (forall j :: 0 <= j < i && Accepted(rows[j]) ==> RowError(rows[j]).None?)
  }

  /** A failed load reports the first failing assertion of the first accepted row that fails one. */
  lemma {:induction false} LoadFailsAtFirstBadRow(rows: seq<SwapRow>)
    requires Load(rows).Err?
    ensures exists i :: FirstBadRow(rows, i, Load(rows).error)
  {
    var n := |rows| - 1;
    var init := rows[..n];
    assert forall i :: 0 <= i < |init| ==> init[i] == rows[i];
    if Load(init).Err? {
      LoadFailsAtFirstBadRow(init);
      var i :| FirstBadRow(init, i, Load(init).error);
      assert FirstBadRow(rows, i, Load(rows).error);
    } else {
      LoadSucceeds(init);
      assert FirstBadRow(rows, n, Load(rows).error);
    }
  }

  /** A loaded pair comes from an accepted row, and both its codes are distinct generic codes. */
  ghost predicate PairsFromRows(rows: seq<SwapRow>, pairs: seq<(string, string)>) {
    (forall j :: 0 <= j < |pairs| ==>
      IsGeneric(pairs[j].0) && IsGeneric(pairs[j].1) && pairs[j].0 != pairs[j].1) &&
    (forall i :: 0 <= i < |rows| && Accepted(rows[i]) ==> (rows[i].code, rows[i].alternativeCode) in pairs) &&
    (forall p :: p in pairs ==> exists i :: 0 <= i < |rows| && Accepted(rows[i]) && p == (rows[i].code, rows[i].alternativeCode))
  }

  /** The pairs of a successful load are those of the accepted rows. */
  lemma {:induction false} LoadedPairs(rows: seq<SwapRow>)
    requires Load(rows).Ok?
    ensures PairsFromRows(rows, Load(rows).value.pairs)
  {
    if rows != [] {
      var n := |rows| - 1;
      var init := rows[..n];
      assert forall i :: 0 <= i < |init| ==> init[i] == rows[i];
      LoadedPairs(init);
      var ps := Load(init).value.pairs;
      var qs := Load(rows).value.pairs;
      forall p | p in qs
        ensures exists i :: 0 <= i < |rows| && Accepted(rows[i]) && p == (rows[i].code, rows[i].alternativeCode)
      {
        if p in ps {
          var i :| 0 <= i < |init| && Accepted(init[i]) && p == (init[i].code, init[i].alternativeCode);
          assert rows[i] == init[i];
        } else {
          assert p == (rows[n].code, rows[n].alternativeCode);
        }
      }
      forall j | 0 <= j < |qs| ensures IsGeneric(qs[j].0) && IsGeneric(qs[j].1) && qs[j].0 != qs[j].1 {
        if j < |ps| {
          assert qs[j] == ps[j];
        }
      }
    }
  }

  /** The formulation a successful load records for `c` is the reference one. */
  lemma {:induction false} LoadedFormulations(rows: seq<SwapRow>, c: string)
    requires Load(rows).Ok?
    ensures var fs := Load(rows).value.formulations;
      (c in fs <==> LastFormulation(rows, c).Some?) &&
      (c in fs ==> fs[c] == LastFormulation(rows, c).value)
  {
    if rows != [] {
      LoadedFormulations(rows[..|rows| - 1], c);
    }
  }

  /** A successful load records a formulation for exactly the codes of its pairs. */
  lemma {:induction false} FormulationsCoverPairs(rows: seq<SwapRow>)
    requires Load(rows).Ok?
    ensures Load(rows).value.formulations.Keys == Elements(Load(rows).value.pairs)
  {
    if rows != [] {
      var init := rows[..|rows| - 1];
      FormulationsCoverPairs(init);
      var ps := Load(init).value.pairs;
      if Accepted(rows[|rows| - 1]) {
        ElementsSnoc(Load(rows).value.pairs, |ps|);
        assert Load(rows).value.pairs[..|ps|] == ps;
        assert Load(rows).value.pairs[..|ps| + 1] == Load(rows).value.pairs;
      }
    }
  }

  /** Lines 222-233: the row loop, stopping at the first failed assertion. */
  method ReadRows(rows: seq<SwapRow>) returns (r: Result<Loaded, LoadError>)
    ensures r == Load(rows)
  {
    var pairs: seq<(string, string)> := [];
    var formulations: map<string, string> := map[];
    for i := 0 to |rows|
      invariant Load(rows[..i]) == Ok(Loaded(pairs, formulations))
    {
      var row := rows[i];
      assert rows[..i + 1][..i] == rows[..i];
      if row.reallyEquivalent != "Y" {
        continue;
      }
      var code := row.code;
      var alternativeCode := row.alternativeCode;
      if code != GenericEquivalent(code).GetOr("") || GenericEquivalent(code).None? {
        LoadErrorPersists(rows, i + 1);
        return Err(NotGeneric(code));
      }
      if alternativeCode != GenericEquivalent(alternativeCode).GetOr("") || GenericEquivalent(alternativeCode).None? {
        LoadErrorPersists(rows, i + 1);
        return Err(NotGeneric(alternativeCode));
      }
      if code == alternativeCode {
        LoadErrorPersists(rows, i + 1);
        return Err(SameCode(code));
      }
      pairs := pairs + [(code, alternativeCode)];
      formulations := formulations[code := row.formulation];
      formulations := formulations[alternativeCode := row.alternativeFormulation];
    }
    assert rows[..|rows|] == rows;
    r := Ok(Loaded(pairs, formulations));
  }

  /** A group of interchangeable generic codes and the distinct non-empty formulations among them. */
  datatype SwapGroup = SwapGroup(codes: seq<string>, formulations: seq<string>)

  /** The two maps `get_formulation_swaps` returns. */
  datatype Swaps = Swaps(swaps: map<string, string>, descriptions: map<string, string>)

  /** Lines 238-240: the non-empty formulations recorded for `codes`, without repetition. */
  function GroupFormulations(formulations: map<string, string>, codes: set<string>): set<string> {
    set c | c in codes && c in formulations && formulations[c] != "" :: formulations[c]
  }

  /** The code lists of `groups`, in order. */
  function Codes(groups: seq<SwapGroup>): (r: seq<seq<string>>)
    ensures |r| == |groups| && forall t :: 0 <= t < |groups| ==> r[t] == groups[t].codes
  {
    seq(|groups|, t requires 0 <= t < |groups| => groups[t].codes)
  }

  /**
   * What `read_formulation_swaps_file` yields for a successful load: the
   * equivalence classes of the pairs, each with a listing of its formulations.
   */
  ghost predicate GroupsOf(l: Loaded, groups: seq<SwapGroup>) {
    EquivalenceClasses(l.pairs, Codes(groups)) &&
    forall t :: 0 <= t < |groups| ==>
      Enumerates(groups[t].formulations, GroupFormulations(l.formulations, Support(groups[t].codes)))
  }

  /** Line 240: `[f for f in found if f]`, the values found that are present and not empty, once each. */
  method NonEmpty(found: set<Option<string>>) returns (fs: seq<string>)
    ensures NoDup(fs)
    ensures forall f :: f in fs <==> Some(f) in found && f != ""
  {
    var rest := found;
    fs := [];
    while rest != {}
      invariant rest <= found && NoDup(fs)
      invariant forall f :: f in fs <==> Some(f) in found - rest && f != ""
      decreases |rest|
    {
      var f :| f in rest;
      rest := rest - {f};
      if f.Some? && f.value != "" {
        fs := fs + [f.value];
      }
    }
  }

  /** Lines 237-241: `[f for f in set(map(formulations.get, code_group)) if f]`. */
  method FormulationsForGroup(formulations: map<string, string>, codeGroup: seq<string>) returns (fs: seq<string>)
    ensures Enumerates(fs, GroupFormulations(formulations, Support(codeGroup)))
  {
    var found: set<Option<string>> := {};
    for i := 0 to |codeGroup|
      invariant found == set c | c in codeGroup[..i] :: Wrappers.Get(formulations, c)
    {
      assert codeGroup[..i + 1] == codeGroup[..i] + [codeGroup[i]];
      found := found + {Wrappers.Get(formulations, codeGroup[i])};
    }
    assert codeGroup[..|codeGroup|] == codeGroup;
    fs := NonEmpty(found);
    forall f ensures f in Support(fs) <==> f in GroupFormulations(formulations, Support(codeGroup)) {
      if f in GroupFormulations(formulations, Support(codeGroup)) {
        var c :| c in codeGroup && c in formulations && formulations[c] != "" && formulations[c] == f;
        assert Wrappers.Get(formulations, c) == Some(f);
      }
    }
  }

  /** `read_formulation_swaps_file` (lines 197-242): the load, then the groups and their formulations. */
  method ReadFormulationSwapsFile(rows: seq<SwapRow>) returns (r: Result<seq<SwapGroup>, LoadError>)
    ensures r.Err? <==> Load(rows).Err?
    ensures r.Err? ==> r.error == Load(rows).error
    ensures r.Ok? ==> GroupsOf(Load(rows).value, r.value)
  {
    var loaded := ReadRows(rows);
    if loaded.Err? {
      return Err(loaded.error);
    }
    var classes := GroupsFromPairs(loaded.value.pairs);
    var groups: seq<SwapGroup> := [];
    for t := 0 to |classes|
      invariant |groups| == t
      invariant forall u :: 0 <= u < t ==>
        groups[u].codes == classes[u] &&
        Enumerates(groups[u].formulations, GroupFormulations(loaded.value.formulations, Support(classes[u])))
    {
      var fs := FormulationsForGroup(loaded.value.formulations, classes[t]);
      groups := groups + [SwapGroup(classes[t], fs)];
    }
    assert Codes(groups) == classes;
    r := Ok(groups);
  }

  /** The code representing a group: the smallest of its codes, the first of them among equals. */
  function Primary(codes: seq<string>): (p: string)
    requires |codes| > 0
    ensures p in codes
    decreases |codes|
  {
    if |codes| == 1 then codes[0]
    else
      var m := Primary(codes[1..]);
      if LessEq(codes[0], m) then codes[0] else m
  }

  /** No code of the group is smaller than its primary code. */
  lemma {:induction false} PrimaryIsLeast(codes: seq<string>)
    requires |codes| > 0
    ensures forall c :: c in codes ==> LessEq(Primary(codes), c)
    decreases |codes|
  {
    if |codes| == 1 {
      LessEqReflexive(codes[0]);
    } else {
      var m := Primary(codes[1..]);
      PrimaryIsLeast(codes[1..]);
      assert forall c :: c in codes ==> c == codes[0] || c in codes[1..];
      LessEqTotal(codes[0], m);
      LessEqReflexive(codes[0]);
      if LessEq(codes[0], m) {
        forall c | c in codes[1..] ensures LessEq(codes[0], c) {
          LessEqTransitive(codes[0], m, c);
        }
      }
    }
  }

  /** The primary code is `sorted(codes)[0]`, the head of the sorted group. */
  lemma PrimaryIsSortedHead(codes: seq<string>)
    requires |codes| > 0
    ensures Primary(codes) == SortSeq(codes)[0]
  {
    SortedHeadIsSmallest(codes);
    PrimaryIsLeast(codes);
    LessEqAntisymmetric(Primary(codes), SortSeq(codes)[0]);
  }

  /** `" / ".join(sorted(formulations))`. */
  function Description(formulations: seq<string>): string {
    Join(" / ", SortSeq(formulations))
  }

  /** Two lists with the same elements have the same smallest one. */
  lemma PrimaryOfSupport(a: seq<string>, b: seq<string>)
    requires |a| > 0 && Support(a) == Support(b)
    ensures |b| > 0 && Primary(a) == Primary(b)
  {
    assert Primary(a) in Support(b);
    assert Primary(b) in Support(a);
    PrimaryIsLeast(a);
    PrimaryIsLeast(b);
    LessEqAntisymmetric(Primary(a), Primary(b));
  }

  /**
   * The description depends only on the set of formulations: it is the text
   * of their strictly increasing listing joined by " / ".
   */
  lemma DescriptionOfSet(a: seq<string>, xs: set<string>)
    requires Enumerates(a, xs)
    ensures StrictlySorted(SortSeq(a)) && Enumerates(SortSeq(a), xs) && Description(a) == Join(" / ", SortSeq(a))
    ensures forall b :: Enumerates(b, xs) ==> Description(b) == Description(a)
  {
    SortDistinct(a);
    forall b | Enumerates(b, xs) ensures Description(b) == Description(a) {
      EnumerationsArePermutations(a, b, xs);
      SortSeqPermutationInvariant(a, b);
    }
  }

  /** Group `u` among the first `t` has a description, keyed by its primary code `d`. */
  ghost predicate DescribedIn(groups: seq<SwapGroup>, t: int, d: string) {
    exists u :: 0 <= u < t && u < |groups| && |groups[u].formulations| > 1 &&
      |groups[u].codes| > 0 && d == Primary(groups[u].codes)
  }

  /** The codes of the first `t` groups. */
  function UnionUpTo(groups: seq<SwapGroup>, t: nat): (r: set<string>)
    requires t <= |groups|
    ensures forall c :: c in r <==> exists u :: 0 <= u < t && c in groups[u].codes
  {
    if t == 0 then {} else UnionUpTo(groups, t - 1) + Support(groups[t - 1].codes)
  }

  /**
   * Lines 183-193, for the groups read from the file: every code of a group
   * maps to the group's primary code, and the primary code of each group with
   * more than one formulation maps to the description of its formulations.
   */
  ghost predicate SwapsFromGroups(l: Loaded, groups: seq<SwapGroup>, s: Swaps) {
    GroupsOf(l, groups) &&
    s.swaps.Keys == Elements(l.pairs) &&
    (forall t, c :: 0 <= t < |groups| && c in groups[t].codes ==>
      c in s.swaps && s.swaps[c] == Primary(groups[t].codes)) &&
    (forall d :: d in s.descriptions <==> DescribedIn(groups, |groups|, d)) &&
    (forall t :: 0 <= t < |groups| && |groups[t].formulations| > 1 && |groups[t].codes| > 0 ==>
      Primary(groups[t].codes) in s.descriptions &&
      s.descriptions[Primary(groups[t].codes)] == Description(groups[t].formulations))
  }

  /** `s` is what `get_formulation_swaps` computes from the groups of some run of the group reader. */
  ghost predicate FormulationSwapsOf(l: Loaded, s: Swaps) {
    exists groups :: SwapsFromGroups(l, groups, s)
  }

  /** Two groups of a result sharing a code are the same group. */
  lemma SameGroup(l: Loaded, groups: seq<SwapGroup>, t: int, u: int, x: string)
    requires GroupsOf(l, groups) && 0 <= t < |groups| && 0 <= u < |groups|
    requires x in groups[t].codes && x in groups[u].codes
    ensures t == u
  {
    var classes := Codes(groups);
    assert !Apart(classes[t], classes[u]);
  }

  /** The codes of all the groups are the codes of the pairs. */
  lemma UnionOfGroups(l: Loaded, groups: seq<SwapGroup>)
    requires GroupsOf(l, groups)
    ensures UnionUpTo(groups, |groups|) == Elements(l.pairs)
  {
    var classes := Codes(groups);
    forall c | c in Elements(l.pairs) ensures c in UnionUpTo(groups, |groups|) {
      assert Classified(c, classes);
    }
  }

  /** The groups are non-empty, and no code is in two of them. */
  ghost predicate Partitioned(groups: seq<SwapGroup>) {
    (forall t :: 0 <= t < |groups| ==> |groups[t].codes| > 0) &&
    (forall t, u {:trigger Apart(groups[t].codes, groups[u].codes)} ::
      0 <= t < |groups| && 0 <= u < |groups| && t != u ==> Apart(groups[t].codes, groups[u].codes))
  }

  lemma GroupsPartitioned(l: Loaded, groups: seq<SwapGroup>)
    requires GroupsOf(l, groups)
    ensures Partitioned(groups)
  {
    var classes := Codes(groups);
    forall t | 0 <= t < |groups| ensures |groups[t].codes| > 0 {
      assert classes[t] == groups[t].codes;
    }
    forall t, u | 0 <= t < |groups| && 0 <= u < |groups| && t != u ensures Apart(groups[t].codes, groups[u].codes) {
      assert Apart(classes[t], classes[u]);
    }
  }

  /** A code of group `u` is in no other group `t`. */
  lemma Outside(groups: seq<SwapGroup>, t: nat, u: nat, x: string)
    requires Partitioned(groups) && t < |groups| && u < |groups| && t != u && x in groups[u].codes
    ensures x !in groups[t].codes
  {
    assert Apart(groups[u].codes, groups[t].codes);
  }

  /** `primaries[u]` is a code of group `u`, for every group. */
  ghost predicate Chosen(groups: seq<SwapGroup>, primaries: seq<string>) {
    |primaries| == |groups| && forall u :: 0 <= u < |groups| ==> primaries[u] in groups[u].codes
  }

  /** Group `u` among the first `t` has a description, keyed by `primaries[u]`. */
  ghost predicate DescribedBy(groups: seq<SwapGroup>, primaries: seq<string>, t: int, d: string) {
    exists u :: 0 <= u < t && u < |groups| && u < |primaries| && |groups[u].formulations| > 1 && d == primaries[u]
  }

  /**
   * The maps hold what lines 187-193 record for the first `t` groups, group
   * `u` being represented by `primaries[u]` and described by `texts[u]`.
   */
  ghost predicate RecordedUpTo(groups: seq<SwapGroup>, primaries: seq<string>, texts: seq<string>, t: nat,
                               swaps: map<string, string>, descriptions: map<string, string>)
    requires t <= |groups| && Chosen(groups, primaries) && |texts| == |groups|
  {
    SwapsRecorded(groups, primaries, t, swaps) && DescriptionsRecorded(groups, primaries, texts, t, descriptions)
  }

  /** `swaps` maps the codes of the first `t` groups, each to its group's representative. */
  ghost predicate SwapsRecorded(groups: seq<SwapGroup>, primaries: seq<string>, t: nat, swaps: map<string, string>)
    requires t <= |groups| && Chosen(groups, primaries)
  {
    swaps.Keys == UnionUpTo(groups, t) &&
    forall u, c :: 0 <= u < t && c in groups[u].codes ==> c in swaps && swaps[c] == primaries[u]
  }

  /** `descriptions` describes exactly those of the first `t` groups with more than one formulation. */
  ghost predicate DescriptionsRecorded(groups: seq<SwapGroup>, primaries: seq<string>, texts: seq<string>, t: nat,
                                       descriptions: map<string, string>)
    requires t <= |groups| && Chosen(groups, primaries) && |texts| == |groups|
  {
    (forall d :: d in descriptions <==> DescribedBy(groups, primaries, t, d)) &&
    (forall u :: 0 <= u < t && |groups[u].formulations| > 1 ==>
      primaries[u] in descriptions && descriptions[primaries[u]] == texts[u])
  }

  /** Lines 189-190: `swaps[code] = primary_code` for every code of the group. */
  method MapAll(swaps: map<string, string>, codes: seq<string>, primaryCode: string) returns (swaps': map<string, string>)
    ensures swaps'.Keys == swaps.Keys + Support(codes)
    ensures forall c :: c in swaps' ==> swaps'[c] == if c in codes then primaryCode else swaps[c]
  {
    swaps' := swaps;
    for i := 0 to |codes|
      invariant swaps'.Keys == swaps.Keys + Support(codes[..i])
      invariant forall c :: c in swaps' ==> swaps'[c] == if c in codes[..i] then primaryCode else swaps[c]
    {
      assert codes[..i + 1] == codes[..i] + [codes[i]];
      swaps' := swaps'[codes[i] := primaryCode];
    }
    assert codes[..|codes|] == codes;
  }

  /** Mapping the codes of group `t` to its representative records the first `t + 1` groups. */
  lemma SwapsRecordedStep(groups: seq<SwapGroup>, primaries: seq<string>, t: nat,
                          swaps: map<string, string>, swaps': map<string, string>)
    requires Partitioned(groups) && Chosen(groups, primaries) && t < |groups|
    requires SwapsRecorded(groups, primaries, t, swaps)
    requires swaps'.Keys == swaps.Keys + Support(groups[t].codes)
    requires forall c :: c in swaps' ==> swaps'[c] == if c in groups[t].codes then primaries[t] else swaps[c]
    ensures SwapsRecorded(groups, primaries, t + 1, swaps')
  {
    forall u, c | 0 <= u < t && c in groups[u].codes ensures c !in groups[t].codes {
      Outside(groups, t, u, c);
    }
  }

  /** Lines 184-193 for group `t`, whose smallest code is `primaryCode` and whose description is `text`. */
  method RecordGroup(groups: seq<SwapGroup>, ghost primaries: seq<string>, ghost texts: seq<string>, t: nat,
                     primaryCode: string, text: string, swaps: map<string, string>, descriptions: map<string, string>)
    returns (swaps': map<string, string>, descriptions': map<string, string>)
    requires Partitioned(groups) && Chosen(groups, primaries) && |texts| == |groups| && t < |groups|
    requires primaryCode == primaries[t] && text == texts[t]
    requires RecordedUpTo(groups, primaries, texts, t, swaps, descriptions)
    ensures RecordedUpTo(groups, primaries, texts, t + 1, swaps', descriptions')
  {
    var formulations := groups[t].formulations;
    swaps' := MapAll(swaps, groups[t].codes, primaryCode);
    SwapsRecordedStep(groups, primaries, t, swaps, swaps');
    descriptions' := descriptions;
    if |formulations| > 1 {
      descriptions' := descriptions[primaryCode := text];
    }
    DescriptionsRecordedStep(groups, primaries, texts, t, descriptions, descriptions');
  }

  /** Describing group `t`, when it has more than one formulation, records the first `t + 1` groups. */
  lemma DescriptionsRecordedStep(groups: seq<SwapGroup>, primaries: seq<string>, texts: seq<string>, t: nat,
                                 descriptions: map<string, string>, descriptions': map<string, string>)
    requires Partitioned(groups) && Chosen(groups, primaries) && |texts| == |groups| && t < |groups|
    requires DescriptionsRecorded(groups, primaries, texts, t, descriptions)
    requires descriptions' ==
      if |groups[t].formulations| > 1 then descriptions[primaries[t] := texts[t]] else descriptions
    ensures DescriptionsRecorded(groups, primaries, texts, t + 1, descriptions')
  {
    forall u | 0 <= u < t ensures primaries[u] != primaries[t] {
      Outside(groups, t, u, primaries[u]);
    }
    forall d ensures d in descriptions' <==> DescribedBy(groups, primaries, t + 1, d) {
      DescribedStep(groups, primaries, t, d);
    }
  }

  lemma DescribedStep(groups: seq<SwapGroup>, primaries: seq<string>, t: nat, d: string)
    requires t < |groups| && t < |primaries|
    ensures DescribedBy(groups, primaries, t + 1, d) <==>
      DescribedBy(groups, primaries, t, d) || (|groups[t].formulations| > 1 && d == primaries[t])
  {
  }

  /** Group `u` is represented by its primary code. */
  ghost function Primaries(groups: seq<SwapGroup>): (primaries: seq<string>)
    requires Partitioned(groups)
    ensures Chosen(groups, primaries)
    ensures forall u :: 0 <= u < |groups| ==> primaries[u] == Primary(groups[u].codes)
  {
    seq(|groups|, u requires 0 <= u < |groups| => Primary(groups[u].codes))
  }

  /**
   * `get_formulation_swaps` (lines 173-194): `swaps` maps every code of a
   * group to the group's smallest code; `swap_descriptions` gives the groups
   * with more than one formulation a description, under their smallest code.
   */
  method GetFormulationSwaps(rows: seq<SwapRow>) returns (r: Result<Swaps, LoadError>)
    ensures r.Err? <==> Load(rows).Err?
    ensures r.Err? ==> r.error == Load(rows).error
    ensures r.Ok? ==> FormulationSwapsOf(Load(rows).value, r.value)
  {
    var read := ReadFormulationSwapsFile(rows);
    if read.Err? {
      return Err(read.error);
    }
    var groups := read.value;
    ghost var l := Load(rows).value;
    GroupsPartitioned(l, groups);
    ghost var primaries := Primaries(groups);
    ghost var texts := seq(|groups|, u requires 0 <= u < |groups| => Description(groups[u].formulations));
    var swaps: map<string, string> := map[];
    var swapDescriptions: map<string, string> := map[];
    for t := 0 to |groups|
      invariant RecordedUpTo(groups, primaries, texts, t, swaps, swapDescriptions)
    {
      var primaryCode := Primary(groups[t].codes);
      var text := Description(groups[t].formulations);
      swaps, swapDescriptions := RecordGroup(groups, primaries, texts, t, primaryCode, text, swaps, swapDescriptions);
    }
    RecordedAll(l, groups, primaries, texts, swaps, swapDescriptions);
    r := Ok(Swaps(swaps, swapDescriptions));
  }

  /** Once every group is recorded, the maps are those the groups give. */
  lemma RecordedAll(l: Loaded, groups: seq<SwapGroup>, primaries: seq<string>, texts: seq<string>,
                    swaps: map<string, string>, descriptions: map<string, string>)
    requires GroupsOf(l, groups) && Partitioned(groups) && primaries == Primaries(groups)
    requires texts == seq(|groups|, u requires 0 <= u < |groups| => Description(groups[u].formulations))
    requires RecordedUpTo(groups, primaries, texts, |groups|, swaps, descriptions)
    ensures SwapsFromGroups(l, groups, Swaps(swaps, descriptions))
  {
    UnionOfGroups(l, groups);
    forall d ensures DescribedBy(groups, primaries, |groups|, d) <==> DescribedIn(groups, |groups|, d) {
    }
  }

  /** The codes `swaps` maps to `d`. */
  function Fiber(swaps: map<string, string>, d: string): set<string> {
    set c | c in swaps && swaps[c] == d
  }

  /** Every code of the maps is in one of the groups. */
  lemma GroupOfCode(l: Loaded, groups: seq<SwapGroup>, s: Swaps, c: string) returns (t: nat)
    requires SwapsFromGroups(l, groups, s) && c in s.swaps
    ensures t < |groups| && c in groups[t].codes
  {
    assert Classified(c, Codes(groups));
    t :| 0 <= t < |groups| && c in Codes(groups)[t];
  }

  /** The codes mapped to a group's primary code are the codes of that group. */
  lemma FiberIsGroup(l: Loaded, groups: seq<SwapGroup>, s: Swaps, t: nat)
    requires SwapsFromGroups(l, groups, s) && t < |groups| && |groups[t].codes| > 0
    ensures Fiber(s.swaps, Primary(groups[t].codes)) == Support(groups[t].codes)
  {
    var p := Primary(groups[t].codes);
    forall c | c in Fiber(s.swaps, p) ensures c in groups[t].codes {
      var u := GroupOfCode(l, groups, s, c);
      SameGroup(l, groups, t, u, p);
    }
  }

  /** The representative of every code is a code that represents itself. */
  lemma SwapsIdempotent(l: Loaded, s: Swaps)
    requires FormulationSwapsOf(l, s)
    ensures forall c :: c in s.swaps ==> s.swaps[c] in s.swaps && s.swaps[s.swaps[c]] == s.swaps[c]
  {
    var groups: seq<SwapGroup> :| SwapsFromGroups(l, groups, s);
    forall c | c in s.swaps ensures s.swaps[c] in s.swaps && s.swaps[s.swaps[c]] == s.swaps[c] {
      var t := GroupOfCode(l, groups, s, c);
      assert Primary(groups[t].codes) in groups[t].codes;
    }
  }

  /** The two codes of every pair of the file get the same representative. */
  lemma PairsSharePrimary(l: Loaded, s: Swaps)
    requires FormulationSwapsOf(l, s)
    ensures forall j :: 0 <= j < |l.pairs| ==>
      l.pairs[j].0 in s.swaps && l.pairs[j].1 in s.swaps && s.swaps[l.pairs[j].0] == s.swaps[l.pairs[j].1]
  {
    var groups: seq<SwapGroup> :| SwapsFromGroups(l, groups, s);
    forall j | 0 <= j < |l.pairs|
      ensures l.pairs[j].0 in s.swaps && l.pairs[j].1 in s.swaps && s.swaps[l.pairs[j].0] == s.swaps[l.pairs[j].1]
    {
      assert InOneClass(l.pairs[j], Codes(groups));
      var t :| 0 <= t < |groups| && l.pairs[j].0 in Codes(groups)[t] && l.pairs[j].1 in Codes(groups)[t];
    }
  }

  /** A code's representative is no greater than the code, and no greater than any code sharing it. */
  lemma PrimaryIsSmallest(l: Loaded, s: Swaps)
    requires FormulationSwapsOf(l, s)
    ensures forall c, d :: c in s.swaps && d in s.swaps && s.swaps[c] == s.swaps[d] ==> LessEq(s.swaps[c], d)
  {
    var groups: seq<SwapGroup> :| SwapsFromGroups(l, groups, s);
    forall c, d | c in s.swaps && d in s.swaps && s.swaps[c] == s.swaps[d] ensures LessEq(s.swaps[c], d) {
      var t := GroupOfCode(l, groups, s, d);
      PrimaryIsLeast(groups[t].codes);
    }
  }

  /**
   * A description exists for a representative exactly when the codes it
   * represents have more than one distinct non-empty formulation, and it is
   * those formulations in increasing order joined by " / ".
   */
  lemma DescriptionsDescribe(l: Loaded, s: Swaps, d: string)
    requires FormulationSwapsOf(l, s) && d in s.swaps && s.swaps[d] == d
    ensures var fs := GroupFormulations(l.formulations, Fiber(s.swaps, d));
      (d in s.descriptions <==> |fs| > 1) &&
      (d in s.descriptions ==>
        exists names :: StrictlySorted(names) && Enumerates(names, fs) && s.descriptions[d] == Join(" / ", names))
  {
    var groups: seq<SwapGroup> :| SwapsFromGroups(l, groups, s);
    var t := GroupOfCode(l, groups, s, d);
    var g := groups[t];
    assert Primary(g.codes) == d;
    FiberIsGroup(l, groups, s, t);
    var fs := GroupFormulations(l.formulations, Fiber(s.swaps, d));
    assert Enumerates(g.formulations, fs);
    NoDupCard(g.formulations);
    if d in s.descriptions {
      assert DescribedIn(groups, |groups|, d);
      var u :| 0 <= u < |groups| && |groups[u].formulations| > 1 && |groups[u].codes| > 0 && d == Primary(groups[u].codes);
      SameGroup(l, groups, t, u, d);
      DescriptionOfSet(g.formulations, fs);
    }
    if |fs| > 1 {
      assert DescribedIn(groups, |groups|, d);
    }
  }

  /** Only representatives have descriptions. */
  lemma DescriptionsOfPrimaries(l: Loaded, s: Swaps)
    requires FormulationSwapsOf(l, s)
    ensures forall d :: d in s.descriptions ==> d in s.swaps && s.swaps[d] == d
  {
    var groups: seq<SwapGroup> :| SwapsFromGroups(l, groups, s);
    forall d | d in s.descriptions ensures d in s.swaps && s.swaps[d] == d {
      assert DescribedIn(groups, |groups|, d);
      var u :| 0 <= u < |groups| && |groups[u].formulations| > 1 && |groups[u].codes| > 0 && d == Primary(groups[u].codes);
    }
  }

  /** `a` and `b` hold the same codes, so the same representative, formulations and description. */
  ghost predicate SameGroupAs(a: SwapGroup, b: SwapGroup) {
    Support(a.codes) == Support(b.codes) && |a.codes| > 0 && |b.codes| > 0 && Primary(a.codes) == Primary(b.codes) &&
    |a.formulations| == |b.formulations| && Description(a.formulations) == Description(b.formulations)
  }

  /** Any group of one result has a counterpart in any other result for the same load. */
  lemma Counterpart(l: Loaded, g1: seq<SwapGroup>, g2: seq<SwapGroup>, t: nat) returns (u: nat)
    requires GroupsOf(l, g1) && GroupsOf(l, g2) && t < |g1|
    ensures u < |g2| && SameGroupAs(g1[t], g2[u])
  {
    ClassesUnique(l.pairs, Codes(g1), Codes(g2), t);
    u :| 0 <= u < |g2| && Support(Codes(g1)[t]) == Support(Codes(g2)[u]);
    var a, b := g1[t], g2[u];
    assert Codes(g1)[t] == a.codes && Codes(g2)[u] == b.codes;
    PrimaryOfSupport(a.codes, b.codes);
    var fs := GroupFormulations(l.formulations, Support(a.codes));
    NoDupCard(a.formulations);
    NoDupCard(b.formulations);
    DescriptionOfSet(a.formulations, fs);
  }

  /** The descriptions of one result are descriptions, with the same text, in another. */
  lemma DescriptionsIncluded(l: Loaded, g1: seq<SwapGroup>, s1: Swaps, g2: seq<SwapGroup>, s2: Swaps)
    requires SwapsFromGroups(l, g1, s1) && SwapsFromGroups(l, g2, s2)
    ensures forall d :: d in s1.descriptions ==> d in s2.descriptions && s2.descriptions[d] == s1.descriptions[d]
  {
    forall d | d in s1.descriptions ensures d in s2.descriptions && s2.descriptions[d] == s1.descriptions[d] {
      assert DescribedIn(g1, |g1|, d);
      var t :| 0 <= t < |g1| && |g1[t].formulations| > 1 && |g1[t].codes| > 0 && d == Primary(g1[t].codes);
      var u := Counterpart(l, g1, g2, t);
      assert DescribedIn(g2, |g2|, d);
    }
  }

  /**
   * The maps do not depend on the order in which the groups were found or
   * listed: every run over the same load gives the same `swaps` and
   * `swap_descriptions`.
   */
  lemma SwapsUnique(l: Loaded, s1: Swaps, s2: Swaps)
    requires FormulationSwapsOf(l, s1) && FormulationSwapsOf(l, s2)
    ensures s1 == s2
  {
    var g1: seq<SwapGroup> :| SwapsFromGroups(l, g1, s1);
    var g2: seq<SwapGroup> :| SwapsFromGroups(l, g2, s2);
    SwapsIncluded(l, g1, s1, g2, s2);
    DescriptionsIncluded(l, g1, s1, g2, s2);
    DescriptionsIncluded(l, g2, s2, g1, s1);
  }

  /** The `swaps` maps of two results for the same load agree. */
  lemma SwapsIncluded(l: Loaded, g1: seq<SwapGroup>, s1: Swaps, g2: seq<SwapGroup>, s2: Swaps)
    requires SwapsFromGroups(l, g1, s1) && SwapsFromGroups(l, g2, s2)
    ensures s1.swaps == s2.swaps
  {
    forall c | c in s1.swaps ensures s2.swaps[c] == s1.swaps[c] {
      var t := GroupOfCode(l, g1, s1, c);
      var u := Counterpart(l, g1, g2, t);
      assert c in Support(g2[u].codes);
    }
  }
  /**
   * The `swaps` map depends only on the relation the loaded pairs state:
   * two loads whose pairs relate the same codes give the same `swaps`.
   */
  lemma SwapsDependOnRelationOnly(l1: Loaded, s1: Swaps, l2: Loaded, s2: Swaps)
    requires SameRelation(l1.pairs, l2.pairs)
    requires FormulationSwapsOf(l1, s1) && FormulationSwapsOf(l2, s2)
    ensures s1.swaps == s2.swaps
  {
    var g1: seq<SwapGroup> :| SwapsFromGroups(l1, g1, s1);
    var g2: seq<SwapGroup> :| SwapsFromGroups(l2, g2, s2);
    SwapsAgree(l1, g1, s1, l2, g2, s2);
  }

  /** The `swaps` maps of results for two loads stating the same relation agree. */
  lemma SwapsAgree(l1: Loaded, g1: seq<SwapGroup>, s1: Swaps, l2: Loaded, g2: seq<SwapGroup>, s2: Swaps)
    requires SameRelation(l1.pairs, l2.pairs)
    requires SwapsFromGroups(l1, g1, s1) && SwapsFromGroups(l2, g2, s2)
    ensures s1.swaps == s2.swaps
  {
    SameElements(l1.pairs, l2.pairs);
    SameRelationClasses(l1.pairs, l2.pairs, Codes(g2));
    forall c | c in s1.swaps ensures c in s2.swaps && s2.swaps[c] == s1.swaps[c] {
      SwapOfCode(l1, g1, s1, l2, g2, s2, c);
    }
    SameMaps(s1.swaps, s2.swaps);
  }

  /** Maps with the same keys that agree on each of them are equal. */
  lemma SameMaps(m1: map<string, string>, m2: map<string, string>)
    requires m1.Keys == m2.Keys
    requires forall c :: c in m1 ==> c in m2 && m2[c] == m1[c]
    ensures m1 == m2
  {
  }

  /** A code mapped by one result is mapped alike by a result whose groups are also classes of the first load's pairs. */
  lemma SwapOfCode(l1: Loaded, g1: seq<SwapGroup>, s1: Swaps, l2: Loaded, g2: seq<SwapGroup>, s2: Swaps, c: string)
    requires SwapsFromGroups(l1, g1, s1) && SwapsFromGroups(l2, g2, s2)
    requires EquivalenceClasses(l1.pairs, Codes(g2)) && c in s1.swaps
    ensures c in s2.swaps && s2.swaps[c] == s1.swaps[c]
  {
    var t := GroupOfCode(l1, g1, s1, c);
    ClassesUnique(l1.pairs, Codes(g1), Codes(g2), t);
    var u :| 0 <= u < |g2| && Support(Codes(g1)[t]) == Support(Codes(g2)[u]);
    assert Codes(g1)[t] == g1[t].codes && Codes(g2)[u] == g2[u].codes;
    PrimaryOfSupport(g1[t].codes, g2[u].codes);
    assert c in Support(g2[u].codes);
  }

  /**
   * Reordering the rows of the file changes neither whether it loads nor the
   * relation its accepted pairs state.
   */
  lemma PermutedRowsLoad(rows1: seq<SwapRow>, rows2: seq<SwapRow>)
    requires multiset(rows1) == multiset(rows2) && Load(rows1).Ok?
    ensures Load(rows2).Ok? && SameRelation(Load(rows1).value.pairs, Load(rows2).value.pairs)
  {
    forall r ensures r in rows1 <==> r in rows2 {
      assert r in rows1 <==> r in multiset(rows1);
      assert r in rows2 <==> r in multiset(rows2);
    }
    LoadSucceeds(rows1);
    LoadSucceeds(rows2);
    forall i | 0 <= i < |rows2| && Accepted(rows2[i]) ensures RowError(rows2[i]).None? {
      assert rows2[i] in rows1;
    }
    LoadedPairs(rows1);
    LoadedPairs(rows2);
    var p, q := Load(rows1).value.pairs, Load(rows2).value.pairs;
    forall x, y ensures (x, y) in p <==> (x, y) in q {
      if (x, y) in p {
        var i :| 0 <= i < |rows1| && Accepted(rows1[i]) && (x, y) == (rows1[i].code, rows1[i].alternativeCode);
        assert rows1[i] in rows2;
      }
      if (x, y) in q {
        var i :| 0 <= i < |rows2| && Accepted(rows2[i]) && (x, y) == (rows2[i].code, rows2[i].alternativeCode);
        assert rows2[i] in rows1;
      }
    }
  }

  /**
   * The order of the rows of the file does not matter to `swaps`: a
   * permutation of a loadable file loads, and every result for it has the
   * same `swaps` map.
   */
  lemma RowOrderKeepsSwaps(rows1: seq<SwapRow>, rows2: seq<SwapRow>)
    requires multiset(rows1) == multiset(rows2) && Load(rows1).Ok?
    ensures Load(rows2).Ok?
    ensures forall s1, s2 :: FormulationSwapsOf(Load(rows1).value, s1) && FormulationSwapsOf(Load(rows2).value, s2) ==>
      s1.swaps == s2.swaps
  {
    PermutedRowsLoad(rows1, rows2);
    forall s1, s2 | FormulationSwapsOf(Load(rows1).value, s1) && FormulationSwapsOf(Load(rows2).value, s2)
      ensures s1.swaps == s2.swaps
    {
      SwapsDependOnRelationOnly(Load(rows1).value, s1, Load(rows2).value, s2);
    }
  }
}
