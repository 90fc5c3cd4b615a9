/**
 * The substitution-set builder (frontend/price_per_unit/substitution_sets.py,
 * lines 28-49 and 118-150): presentations are bucketed by their generic
 * equivalent, passed through the formulation swaps, named, and each bucket
 * with more than one presentation becomes a set.
 */
module SubstitutionSets {
  import opened Wrappers
  import opened Collections
  import opened Strings
  import opened BnfCodes
  import opened FormulationSwaps

  /** A set of presentations that can be substituted for one another. */
  datatype SubstitutionSet = SubstitutionSet(
    id: string,                      // the swapped generic code the presentations share
    presentations: seq<string>,      // their BNF codes
    name: string,                    // a human-readable name for the set
    formulationSwaps: Option<string>)  // e.g. "Cap / Tab" when formulations are mixed

  /** The suffix of the invented code standing for a whole sub-paragraph. */
  const WholeSubParagraphSuffix: string := "AAA0A0"

  /** Lines 148-149: the name given to the invented code `id` of a whole sub-paragraph, if it is one. */
  function OverrideName(id: string): (r: Option<string>)
    ensures r.Some? <==> exists sp :: sp in GenericSubParagraphs() && id == sp + WholeSubParagraphSuffix
    ensures forall sp :: sp in GenericSubParagraphs() && id == sp + WholeSubParagraphSuffix ==>
      r == Some(GenericSubParagraphs()[sp])
  {
    if |id| == 15 && id[9..] == WholeSubParagraphSuffix && id[..9] in GenericSubParagraphs() then
      assert id == id[..9] + WholeSubParagraphSuffix;
      Some(GenericSubParagraphs()[id[..9]])
    else
      None
  }

  /** The keys of the sub-paragraph table, in the order the table lists them. */
  const SubParagraphs: seq<string> := ["0601060U0", "0601060D0"]

  /** The listing holds each sub-paragraph of the table once. */
  lemma SubParagraphsListed()
    ensures Enumerates(SubParagraphs, GenericSubParagraphs().Keys)
  {
    assert SubParagraphs[0] in GenericSubParagraphs() && SubParagraphs[1] in GenericSubParagraphs();
    assert Support(SubParagraphs) == GenericSubParagraphs().Keys;
  }

  /** `id` is the invented code of one of the first `i` sub-paragraphs. */
  ghost predicate AmongFirst(i: nat, id: string)
    requires i <= |SubParagraphs|
  {
    |id| == 15 && id[9..] == WholeSubParagraphSuffix && id[..9] in SubParagraphs[..i]
  }

  /** Taking one more sub-paragraph adds exactly its invented code. */
  lemma AmongFirstStep(i: nat, id: string)
    requires i < |SubParagraphs|
    ensures AmongFirst(i + 1, id) <==> AmongFirst(i, id) || id == SubParagraphs[i] + WholeSubParagraphSuffix
  {
    var code := SubParagraphs[i] + WholeSubParagraphSuffix;
    assert SubParagraphs[..i + 1] == SubParagraphs[..i] + [SubParagraphs[i]];
    assert |code| == 15 && code[..9] == SubParagraphs[i] && code[9..] == WholeSubParagraphSuffix;
    if |id| == 15 {
      assert id == id[..9] + id[9..];
    }
  }

  /** All the sub-paragraphs taken give exactly the override names. */
  lemma AmongAll(id: string)
    ensures AmongFirst(|SubParagraphs|, id) <==> OverrideName(id).Some?
    ensures AmongFirst(|SubParagraphs|, id) ==> OverrideName(id).value == GenericSubParagraphs()[id[..9]]
  {
    assert SubParagraphs[..|SubParagraphs|] == SubParagraphs;
    SubParagraphsListed();
    if |id| == 15 {
      assert id[..9] in SubParagraphs <==> id[..9] in Support(SubParagraphs);
    }
  }

  /**
   * `get_names_for_bnf_codes` (lines 144-150): the looked-up names of the
   * codes, `table` standing for the presentation table, with the names of the
   * whole sub-paragraphs written over them.
   */
  method GetNamesForBnfCodes(bnfCodes: set<string>, table: map<string, string>) returns (names: map<string, string>)
    ensures forall id :: id in names <==> (id in bnfCodes && id in table) || OverrideName(id).Some?
    ensures forall id :: id in names ==>
      names[id] == if OverrideName(id).Some? then OverrideName(id).value else table[id]
  {
    names := map c | c in bnfCodes && c in table :: table[c];
    for i := 0 to |SubParagraphs|
      invariant forall id :: id in names <==> (id in bnfCodes && id in table) || AmongFirst(i, id)
      invariant forall id :: id in names ==>
        names[id] == if AmongFirst(i, id) then GenericSubParagraphs()[id[..9]] else table[id]
    {
      var subPara := SubParagraphs[i];
      var id := subPara + WholeSubParagraphSuffix;
      assert id[..9] == subPara;
      forall x ensures AmongFirst(i + 1, x) <==> AmongFirst(i, x) || x == id {
        AmongFirstStep(i, x);
      }
      names := names[id := GenericSubParagraphs()[subPara]];
    }
    forall id ensures AmongFirst(|SubParagraphs|, id) <==> OverrideName(id).Some?
      ensures AmongFirst(|SubParagraphs|, id) ==> OverrideName(id).value == GenericSubParagraphs()[id[..9]]
    {
      AmongAll(id);
    }
  }

  /** Lines 126-128: the key a presentation is bucketed under: its generic code passed through `swaps`, or the generic itself when `swaps` has no entry for it. */
  function SetKey(swaps: map<string, string>, code: string): (r: Option<string>)
    ensures r.Some? <==> GenericEquivalent(code).Some?
    ensures r.Some? ==> r.value == GenericEquivalent(code).value || r.value in swaps.Values
    ensures r.Some? && GenericEquivalent(code).value !in swaps ==> r.value == GenericEquivalent(code).value
    ensures r.Some? && GenericEquivalent(code).value in swaps ==> r.value == swaps[GenericEquivalent(code).value]
  {
    match GenericEquivalent(code)
    case None => None
    case Some(g) => Some(if g in swaps then swaps[g] else g)
  }

  /** The presentations of `codes` bucketed under `id`, in the order they come. */
  function Bucket(swaps: map<string, string>, codes: seq<string>, id: string): seq<string>
    decreases |codes|
  {
    if codes == [] then []
    else
      var last := codes[|codes| - 1];
      Bucket(swaps, codes[..|codes| - 1], id) + if SetKey(swaps, last) == Some(id) then [last] else []
  }

  /** A bucket holds exactly the codes whose key is its id. */
  lemma {:induction false} BucketMembers(swaps: map<string, string>, codes: seq<string>, id: string, x: string)
    ensures x in Bucket(swaps, codes, id) <==> x in codes && SetKey(swaps, x) == Some(id)
    decreases |codes|
  {
    if codes != [] {
      var init := codes[..|codes| - 1];
      BucketMembers(swaps, init, id, x);
      assert codes == init + [codes[|codes| - 1]];
    }
  }

  /** The ids of `sets`, in order. */
  function Ids(sets: seq<SubstitutionSet>): (r: seq<string>)
    ensures |r| == |sets| && forall k :: 0 <= k < |sets| ==> r[k] == sets[k].id
  {
    seq(|sets|, k requires 0 <= k < |sets| => sets[k].id)
  }

  /** Line 132: the name of the set `id`, "unknown" when neither an override nor the table has one. */
  function SetName(table: map<string, string>, id: string): (r: string)
    ensures OverrideName(id).Some? ==> r == OverrideName(id).value
    ensures OverrideName(id).None? ==> r == Get(table, id).GetOr("unknown")
  {
    if OverrideName(id).Some? then OverrideName(id).value
    else if id in table then table[id]
    else "unknown"
  }

  /** `ss` is the substitution set lines 130-135 build for the bucket of its id. */
  ghost predicate SetFrom(bnfCodes: seq<string>, s: Swaps, table: map<string, string>, ss: SubstitutionSet) {
    |ss.presentations| > 1 && Sorted(ss.presentations) &&
    multiset(ss.presentations) == multiset(Bucket(s.swaps, bnfCodes, ss.id)) &&
    ss.name == SetName(table, ss.id) &&
    ss.formulationSwaps == Get(s.descriptions, ss.id)
  }

  /**
   * `sets` lists, once each, a set for every bucket of more than one
   * presentation (lines 136-140), and nothing else.
   */
  ghost predicate SetsFrom(bnfCodes: seq<string>, s: Swaps, table: map<string, string>, sets: seq<SubstitutionSet>) {
    NoDup(Ids(sets)) &&
    (forall k :: 0 <= k < |sets| ==> SetFrom(bnfCodes, s, table, sets[k])) &&
    (forall id :: |Bucket(s.swaps, bnfCodes, id)| > 1 ==> id in Ids(sets))
  }

  /** Lines 123-129: the `presentation_sets` dict after the first `i` codes, `order` being its key order. */
  ghost predicate Bucketed(swaps: map<string, string>, codes: seq<string>, order: seq<string>,
                           presentationSets: map<string, seq<string>>) {
    NoDup(order) && Support(order) == presentationSets.Keys &&
    (forall id :: id in presentationSets ==> presentationSets[id] == Bucket(swaps, codes, id)) &&
    (forall id :: id !in presentationSets ==> Bucket(swaps, codes, id) == [])
  }

  /** Appending a code to the list appends it to its own bucket and to no other. */
  lemma BucketSnoc(swaps: map<string, string>, codes: seq<string>, x: string, id: string)
    ensures Bucket(swaps, codes + [x], id) ==
      Bucket(swaps, codes, id) + if SetKey(swaps, x) == Some(id) then [x] else []
  {
    assert (codes + [x])[..|codes|] == codes;
  }

  /** A code without a key leaves every bucket as it was. */
  lemma BucketedSkip(swaps: map<string, string>, codes: seq<string>, x: string,
                     order: seq<string>, presentationSets: map<string, seq<string>>)
    requires Bucketed(swaps, codes, order, presentationSets) && SetKey(swaps, x).None?
    ensures Bucketed(swaps, codes + [x], order, presentationSets)
  {
    forall id ensures Bucket(swaps, codes + [x], id) == Bucket(swaps, codes, id) {
      BucketSnoc(swaps, codes, x, id);
    }
  }

  /** A code with key `id` is appended to the bucket `id` when there is one. */
  lemma BucketedAppend(swaps: map<string, string>, codes: seq<string>, x: string, id: string,
                       order: seq<string>, presentationSets: map<string, seq<string>>)
    requires Bucketed(swaps, codes, order, presentationSets) && SetKey(swaps, x) == Some(id)
    requires id in presentationSets
    ensures Bucketed(swaps, codes + [x], order, presentationSets[id := presentationSets[id] + [x]])
  {
    var after := presentationSets[id := presentationSets[id] + [x]];
    forall k | k in after ensures after[k] == Bucket(swaps, codes + [x], k) {
      BucketSnoc(swaps, codes, x, k);
    }
    forall k | k !in after ensures Bucket(swaps, codes + [x], k) == [] {
      BucketSnoc(swaps, codes, x, k);
    }
  }

  /** A code with key `id` makes a new bucket `id`, last in order, when there is none. */
  lemma BucketedOpen(swaps: map<string, string>, codes: seq<string>, x: string, id: string,
                     order: seq<string>, presentationSets: map<string, seq<string>>)
    requires Bucketed(swaps, codes, order, presentationSets) && SetKey(swaps, x) == Some(id)
    requires id !in presentationSets
    ensures Bucketed(swaps, codes + [x], order + [id], presentationSets[id := [x]])
  {
    var after := presentationSets[id := [x]];
    assert id !in Support(order);
    NoDupSnoc(order, id);
    forall k | k in after ensures after[k] == Bucket(swaps, codes + [x], k) {
      BucketSnoc(swaps, codes, x, k);
    }
    forall k | k !in after ensures Bucket(swaps, codes + [x], k) == [] {
      BucketSnoc(swaps, codes, x, k);
    }
  }

  /** Lines 125-129, one pass of the loop: the `i`th code appended to its bucket, if it has one. */
  method AddPresentation(swaps: map<string, string>, bnfCodes: seq<string>, i: nat,
                         order: seq<string>, presentationSets: map<string, seq<string>>)
    returns (order': seq<string>, presentationSets': map<string, seq<string>>)
    requires i < |bnfCodes| && Bucketed(swaps, bnfCodes[..i], order, presentationSets)
    ensures Bucketed(swaps, bnfCodes[..i + 1], order', presentationSets')
  {
    order', presentationSets' := order, presentationSets;
    var bnfCode := bnfCodes[i];
    assert bnfCodes[..i + 1] == bnfCodes[..i] + [bnfCode];
    var genericCode := GenericEquivalent(bnfCode);
    if genericCode.Some? {
      var code := Wrappers.Get(swaps, genericCode.value).GetOr(genericCode.value);
      if code !in presentationSets' {
        order' := order' + [code];
        presentationSets' := presentationSets'[code := []];
      }
      presentationSets' := presentationSets'[code := presentationSets'[code] + [bnfCode]];
      if code in presentationSets {
        BucketedAppend(swaps, bnfCodes[..i], bnfCode, code, order, presentationSets);
      } else {
        assert presentationSets'[code] == [] + [bnfCode] == [bnfCode];
        assert presentationSets' == presentationSets[code := [bnfCode]];
        BucketedOpen(swaps, bnfCodes[..i], bnfCode, code, order, presentationSets);
      }
    } else {
      BucketedSkip(swaps, bnfCodes[..i], bnfCode, order, presentationSets);
    }
  }

  /** Lines 124-129: the presentations bucketed by their swapped generic code. */
  method BucketPresentations(swaps: map<string, string>, bnfCodes: seq<string>)
    returns (order: seq<string>, presentationSets: map<string, seq<string>>)
    ensures Bucketed(swaps, bnfCodes, order, presentationSets)
  {
    order := [];
    presentationSets := map[];
    for i := 0 to |bnfCodes|
      invariant Bucketed(swaps, bnfCodes[..i], order, presentationSets)
    {
      order, presentationSets := AddPresentation(swaps, bnfCodes, i, order, presentationSets);
    }
    assert bnfCodes[..|bnfCodes|] == bnfCodes;
  }

  /** The names looked up for the bucket ids give each set its name. */
  lemma NamesGiveSetNames(ids: set<string>, table: map<string, string>, names: map<string, string>)
    requires forall id :: id in names <==> (id in ids && id in table) || OverrideName(id).Some?
    requires forall id :: id in names ==>
      names[id] == if OverrideName(id).Some? then OverrideName(id).value else table[id]
    ensures forall id :: id in ids ==> Get(names, id).GetOr("unknown") == SetName(table, id)
  {
  }

  /** Adding a set adds its id to the ids. */
  lemma IdsSnoc(sets: seq<SubstitutionSet>, ss: SubstitutionSet)
    ensures Ids(sets + [ss]) == Ids(sets) + [ss.id]
  {
    assert forall k :: 0 <= k < |sets| ==> (sets + [ss])[k] == sets[k];
  }

  /** Lines 131-134: the set built for a bucket of more than one presentation is the set of that bucket. */
  lemma BucketSet(bnfCodes: seq<string>, s: Swaps, table: map<string, string>, order: seq<string>,
                  presentationSets: map<string, seq<string>>, code: string, name: string)
    requires Bucketed(s.swaps, bnfCodes, order, presentationSets)
    requires code in presentationSets && |presentationSets[code]| > 1 && name == SetName(table, code)
    ensures SetFrom(bnfCodes, s, table,
      SubstitutionSet(code, SortSeq(presentationSets[code]), name, Get(s.descriptions, code)))
  {
    var sorted := SortSeq(presentationSets[code]);
    assert |multiset(sorted)| == |sorted| && |multiset(presentationSets[code])| == |presentationSets[code]|;
  }

  /** `sets` holds, once each, the sets for the buckets of more than one presentation among `done`. */
  ghost predicate Collected(bnfCodes: seq<string>, s: Swaps, table: map<string, string>, done: seq<string>,
                            sets: seq<SubstitutionSet>) {
    NoDup(Ids(sets)) &&
    (forall j :: 0 <= j < |sets| ==> SetFrom(bnfCodes, s, table, sets[j]) && sets[j].id in done) &&
    (forall id :: id in done && |Bucket(s.swaps, bnfCodes, id)| > 1 ==> id in Ids(sets))
  }

  /** A bucket of at most one presentation adds no set. */
  lemma CollectedSkip(bnfCodes: seq<string>, s: Swaps, table: map<string, string>, done: seq<string>,
                      sets: seq<SubstitutionSet>, code: string)
    requires Collected(bnfCodes, s, table, done, sets) && |Bucket(s.swaps, bnfCodes, code)| <= 1
    ensures Collected(bnfCodes, s, table, done + [code], sets)
  {
  }

  /** The set of a bucket not seen before is added once. */
  lemma CollectedAdd(bnfCodes: seq<string>, s: Swaps, table: map<string, string>, done: seq<string>,
                     sets: seq<SubstitutionSet>, ss: SubstitutionSet)
    requires Collected(bnfCodes, s, table, done, sets) && SetFrom(bnfCodes, s, table, ss) && ss.id !in done
    ensures Collected(bnfCodes, s, table, done + [ss.id], sets + [ss])
  {
    IdsSnoc(sets, ss);
    assert ss.id !in Ids(sets);
    NoDupSnoc(Ids(sets), ss.id);
  }

  /** Once every bucket is seen, the sets are those of every bucket of more than one presentation. */
  lemma CollectedAll(bnfCodes: seq<string>, s: Swaps, table: map<string, string>, order: seq<string>,
                     presentationSets: map<string, seq<string>>, sets: seq<SubstitutionSet>)
    requires Bucketed(s.swaps, bnfCodes, order, presentationSets)
    requires Collected(bnfCodes, s, table, order, sets)
    ensures SetsFrom(bnfCodes, s, table, sets)
  {
    forall id | |Bucket(s.swaps, bnfCodes, id)| > 1 ensures id in Ids(sets) {
      assert id in presentationSets;
      assert id in Support(order);
    }
  }

  /** Lines 130-141: a set for every bucket of more than one presentation, in the buckets' order. */
  method CollectSets(bnfCodes: seq<string>, s: Swaps, table: map<string, string>, order: seq<string>,
                     presentationSets: map<string, seq<string>>, names: map<string, string>)
    returns (sets: seq<SubstitutionSet>)
    requires Bucketed(s.swaps, bnfCodes, order, presentationSets)
    requires forall id :: id in presentationSets ==> Get(names, id).GetOr("unknown") == SetName(table, id)
    ensures SetsFrom(bnfCodes, s, table, sets)
  {
    sets := [];
    for k := 0 to |order|
      invariant Collected(bnfCodes, s, table, order[..k], sets)
    {
      sets := CollectBucket(bnfCodes, s, table, order, presentationSets, names, k, sets);
    }
    assert order[..|order|] == order;
    CollectedAll(bnfCodes, s, table, order, presentationSets, sets);
  }

  /** One pass of the comprehension at lines 131-141: the `k`th bucket becomes a set if it has more than one presentation. */
  method CollectBucket(bnfCodes: seq<string>, s: Swaps, table: map<string, string>, order: seq<string>,
                       presentationSets: map<string, seq<string>>, names: map<string, string>,
                       k: nat, sets: seq<SubstitutionSet>)
    returns (sets': seq<SubstitutionSet>)
    requires Bucketed(s.swaps, bnfCodes, order, presentationSets)
    requires forall id :: id in presentationSets ==> Get(names, id).GetOr("unknown") == SetName(table, id)
    requires k < |order| && Collected(bnfCodes, s, table, order[..k], sets)
    ensures Collected(bnfCodes, s, table, order[..k + 1], sets')
  {
    var code := order[k];
    var presentations := presentationSets[code];
    assert order[..k + 1] == order[..k] + [code];
    if |presentations| > 1 {
      var ss := SubstitutionSet(
        code,
        SortSeq(presentations),
        Wrappers.Get(names, code).GetOr("unknown"),
        Wrappers.Get(s.descriptions, code));
      BucketSet(bnfCodes, s, table, order, presentationSets, code, ss.name);
      assert code !in order[..k];
      CollectedAdd(bnfCodes, s, table, order[..k], sets, ss);
      sets' := sets + [ss];
    } else {
      CollectedSkip(bnfCodes, s, table, order[..k], sets, code);
      sets' := sets;
    }
  }

  /**
   * `get_substitution_sets_from_bnf_codes` (lines 118-141), with the swaps
   * file given as its rows and the presentation table's names as `table`.
   * It fails exactly when loading the swaps file fails.
   */
  method GetSubstitutionSetsFromBnfCodes(bnfCodes: seq<string>, rows: seq<SwapRow>, table: map<string, string>)
    returns (r: Result<seq<SubstitutionSet>, LoadError>)
    ensures r.Err? <==> Load(rows).Err?
    ensures r.Err? ==> r.error == Load(rows).error
    ensures r.Ok? ==> exists s :: FormulationSwapsOf(Load(rows).value, s) && SetsFrom(bnfCodes, s, table, r.value)
  {
    var loaded := GetFormulationSwaps(rows);
    if loaded.Err? {
      return Err(loaded.error);
    }
    var s := loaded.value;
    var order, presentationSets := BucketPresentations(s.swaps, bnfCodes);
    var names := GetNamesForBnfCodes(presentationSets.Keys, table);
    NamesGiveSetNames(presentationSets.Keys, table, names);
    var sets := CollectSets(bnfCodes, s, table, order, presentationSets, names);
    r := Ok(sets);
  }

  /** A set holds exactly the given codes whose swapped generic code is its id. */
  lemma SetMembers(bnfCodes: seq<string>, s: Swaps, table: map<string, string>, ss: SubstitutionSet, p: string)
    requires SetFrom(bnfCodes, s, table, ss)
    ensures p in ss.presentations <==> p in bnfCodes && SetKey(s.swaps, p) == Some(ss.id)
  {
    assert p in ss.presentations <==> p in multiset(ss.presentations);
    assert p in Bucket(s.swaps, bnfCodes, ss.id) <==> p in multiset(Bucket(s.swaps, bnfCodes, ss.id));
    BucketMembers(s.swaps, bnfCodes, ss.id, p);
  }

  /** A code with no generic equivalent is in no set. */
  lemma NoGenericInNoSet(bnfCodes: seq<string>, s: Swaps, table: map<string, string>, sets: seq<SubstitutionSet>, p: string)
    requires SetsFrom(bnfCodes, s, table, sets) && GenericEquivalent(p).None?
    ensures forall k :: 0 <= k < |sets| ==> p !in sets[k].presentations
  {
    forall k | 0 <= k < |sets| ensures p !in sets[k].presentations {
      SetMembers(bnfCodes, s, table, sets[k], p);
    }
  }

  /** No code is in two sets. */
  lemma SetsDisjoint(bnfCodes: seq<string>, s: Swaps, table: map<string, string>, sets: seq<SubstitutionSet>,
                     k: nat, m: nat, p: string)
    requires SetsFrom(bnfCodes, s, table, sets) && k < |sets| && m < |sets|
    requires p in sets[k].presentations && p in sets[m].presentations
    ensures k == m
  {
    SetMembers(bnfCodes, s, table, sets[k], p);
    SetMembers(bnfCodes, s, table, sets[m], p);
    assert Ids(sets)[k] == Ids(sets)[m];
  }

  /** A code shares its swapped generic code with some other given code exactly when it is in a set. */
  lemma CodeInSomeSet(bnfCodes: seq<string>, s: Swaps, table: map<string, string>, sets: seq<SubstitutionSet>, p: string)
    requires SetsFrom(bnfCodes, s, table, sets) && p in bnfCodes && SetKey(s.swaps, p).Some?
    ensures |Bucket(s.swaps, bnfCodes, SetKey(s.swaps, p).value)| > 1 <==>
      exists k :: 0 <= k < |sets| && p in sets[k].presentations
  {
    var id := SetKey(s.swaps, p).value;
    if |Bucket(s.swaps, bnfCodes, id)| > 1 {
      var k :| 0 <= k < |sets| && Ids(sets)[k] == id;
      SetMembers(bnfCodes, s, table, sets[k], p);
    }
    if exists k :: 0 <= k < |sets| && p in sets[k].presentations {
      var k :| 0 <= k < |sets| && p in sets[k].presentations;
      SetMembers(bnfCodes, s, table, sets[k], p);
      assert |multiset(sets[k].presentations)| == |sets[k].presentations|;
      assert |multiset(Bucket(s.swaps, bnfCodes, id))| == |Bucket(s.swaps, bnfCodes, id)|;
    }
  }

  /** The swaps map every code they map to a code they leave where it is. */
  ghost predicate Idempotent(swaps: map<string, string>) {
    forall c :: c in swaps ==> swaps[c] in swaps && swaps[swaps[c]] == swaps[c]
  }

  /** The key of a code is a code idempotent swaps map to itself, when they map it at all. */
  lemma KeyIsRepresentative(swaps: map<string, string>, p: string)
    requires Idempotent(swaps) && SetKey(swaps, p).Some?
    ensures SetKey(swaps, p).value in swaps ==> swaps[SetKey(swaps, p).value] == SetKey(swaps, p).value
  {
    var g := GenericEquivalent(p).value;
    if g in swaps {
      assert SetKey(swaps, p).value == swaps[g];
    }
  }

  /** The id of a set whose generic code is swapped is a code the swaps map to themselves. */
  lemma SetIdsAreRepresentatives(bnfCodes: seq<string>, l: Loaded, s: Swaps, table: map<string, string>,
                                 sets: seq<SubstitutionSet>, k: nat)
    requires FormulationSwapsOf(l, s) && SetsFrom(bnfCodes, s, table, sets) && k < |sets|
    ensures sets[k].id in s.swaps ==> s.swaps[sets[k].id] == sets[k].id
  {
    var p := sets[k].presentations[0];
    SetMembers(bnfCodes, s, table, sets[k], p);
    SwapsIdempotent(l, s);
    KeyIsRepresentative(s.swaps, p);
  }
}
