# Substitution sets and monthly-alert error batching (openprescribing)

This project models two parts of openprescribing, the prescribing-data site.

**Substitution sets.** The price-per-unit pages compare a practice's spending
against the cheapest interchangeable presentation, and these sets say which
presentations are interchangeable. A presentation is known by its 15-character
BNF code. The builder:

- maps each code to its generic equivalent, except codes on a curated
  exclusion list;
- passes that generic through the *formulation swaps*, a curated file that
  declares generics of different formulations interchangeable, and sends each
  group of them to its lexically smallest code;
- buckets the presentations by the resulting code and names each bucket;
- keeps every bucket of more than one presentation as a `SubstitutionSet`.

**Monthly alerts.** The alert command sends one mail per bookmark. An
`EmailRetrier` records failed sends. It aborts with `BatchedEmailErrors` once
more than `max_errors` have failed, and again at the end of the batch if any
failed at all. The command's options are checked before anything is sent.

Modules, each in its own file:

- `Wrappers`: `Option`, `Result` and map lookup.
- `Collections`: lists without repetition and what they enumerate.
- `Strings`: the string order, insertion sort, `join`, and decimal text.
- `BnfCodes`: the exclusion rules and `generic_equivalent_for_bnf_code`.
- `Groups`: `groups_from_pairs`. It is an imperative merge over shared list
  objects, proved to give the equivalence classes of the pairs.
- `FormulationSwaps`: the row loop of the swaps file, the groups and the two
  maps built from them.
- `SubstitutionSets`: bucketing, names and the sets.
- `MonthlyAlerts`: option validation, the `BatchedEmailErrors` message and the
  `EmailRetrier` class.

The code is modelled as follows:

- The mutating loops of the source are methods with loop invariants.
- Each method is proved against a specification predicate or function, and
  lemmas state what the source promises about it.
- The swaps file is given as its rows, each field already stripped.
- The presentation table's names are a `map` from code to name.
- A mail callback is a `Delivery`: it either sends or fails with an exception.
  The exception is represented by its formatted text.

## Model

| member | source | states |
|---|---|---|
| BnfCodes.Matches | openprescribing/frontend/price_per_unit/substitution_sets.py:73-99 | no contract of its own: one alternative of `EXCLUSIONS_RE` matched from the start of the code, `.` standing for any character but a line break, and `0904010H0.*` a prefix test |
| BnfCodes.MatchIgnoresRest | openprescribing/frontend/price_per_unit/substitution_sets.py:162-163 | a rule only looks at as many leading characters as it is wide: the match is anchored at the start and nothing after the rule's width changes it |
| BnfCodes.Exclusions | openprescribing/frontend/price_per_unit/substitution_sets.py:73-99 | no contract of its own: the twenty alternatives of `EXCLUSIONS_RE`, in the order listed, as fixed-width matchers and one prefix rule |
| BnfCodes.ExclusionWidths | openprescribing/frontend/price_per_unit/substitution_sets.py:73-99 | there are twenty rules; every one but the fifth is fifteen positions wide, and the fifth is the prefix rule `0904010H0` |
| BnfCodes.GenericSubParagraphs | openprescribing/frontend/price_per_unit/substitution_sets.py:105-108 | no contract of its own: `GENERIC_SUB_PARAGRAPHS`, the two sub-paragraphs 0601060U0 and 0601060D0 with their display names |
| BnfCodes.GenericEquivalent | openprescribing/frontend/price_per_unit/substitution_sets.py:153-170 | a result exists iff the code has 15 characters, is not excluded, and its last two characters are not "A0" or its first nine are a whole-sub-paragraph override; a result is generic-shaped and keeps the first nine and last two characters |
| BnfCodes.WrongLengthHasNoEquivalent | openprescribing/frontend/price_per_unit/substitution_sets.py:159-160 | a code whose length is not 15 has no generic equivalent |
| BnfCodes.ExcludedHasNoEquivalent | openprescribing/frontend/price_per_unit/substitution_sets.py:161-163 | a code matched, from its start, by any exclusion rule has no generic equivalent |
| BnfCodes.NoGenericSuffixEquivalent | openprescribing/frontend/price_per_unit/substitution_sets.py:164-170 | for a code ending in "A0", a result exists iff the code is not excluded and its prefix is 0601060U0 or 0601060D0; the result is then that prefix followed by "AAA0A0" |
| BnfCodes.GenericIsFixedPoint | openprescribing/frontend/price_per_unit/substitution_sets.py:164-170 | classifying a generic equivalent again gives it back, unless an exclusion rule matches it |
| BnfCodes.FixedPoints | openprescribing/frontend/price_per_unit/substitution_sets.py:227-229 | the codes that are their own generic equivalent, the only codes the swaps file may list, are exactly the non-excluded generic-shaped codes whose suffix is not "A0" or whose prefix is an override |
| BnfCodes.ExcludedSecondDigit | openprescribing/frontend/price_per_unit/substitution_sets.py:73-99 | no exclusion rule matches a code whose second character is not 1, 2, 3, 5, 6 or 9 |
| BnfCodes.TramadolGenericsAreFixedPoints | openprescribing/frontend/price_per_unit/substitution_sets.py:209-210 | the tramadol 100mg tablet and capsule generics are their own generic equivalents |
| BnfCodes.ExcludedExample | openprescribing/frontend/price_per_unit/substitution_sets.py:76 | "0302000C0AAABBE", matched by a rule with wildcards, has no generic equivalent |
| BnfCodes.BrandOfExcludedGenericNotExcluded | openprescribing/frontend/price_per_unit/substitution_sets.py:73-99 | no exclusion rule matches the brand code "190201000ABCDBJ" |
| BnfCodes.ExcludedGenericIsNotFixed | openprescribing/frontend/price_per_unit/substitution_sets.py:90 | that brand maps to "190201000AABJBJ", which is itself excluded and maps to nothing: the fixed-point property needs its exclusion proviso |
| Groups.Group.constructor | openprescribing/frontend/price_per_unit/substitution_sets.py:262-263 | a new group list holds just its element |
| Groups.SetDefault | openprescribing/frontend/price_per_unit/substitution_sets.py:262 | `setdefault` returns the element's group, opening a one-element group when it has none, and keeps the dictionary a partition of the elements seen |
| Groups.Get | openprescribing/frontend/price_per_unit/substitution_sets.py:263 | `get` returns the other element's group, or a new one-element list left out of the dictionary, holding that element |
| Groups.Unite | openprescribing/frontend/price_per_unit/substitution_sets.py:264-267 | merging two distinct groups, or leaving one group alone, makes the current pair lie in one group and keeps the partition |
| Groups.Merge | openprescribing/frontend/price_per_unit/substitution_sets.py:264-267 | the first group's list is extended by the other's, and every member of the other is re-pointed to the first |
| Groups.AddPair | openprescribing/frontend/price_per_unit/substitution_sets.py:261-267 | one pass over a pair keeps the dictionary and the shared lists a partition of the elements seen so far |
| Groups.ListGroups | openprescribing/frontend/price_per_unit/substitution_sets.py:268-274 | yields, once each, the list of every element that is the first member of its group, and those lists only |
| Groups.GroupsFromPairs | openprescribing/frontend/price_per_unit/substitution_sets.py:245-274 | the groups yielded are the equivalence classes of the pairs: non-empty, without repetition, pairwise disjoint, covering exactly the elements of the pairs, each pair inside one group, each group connected by the pairs |
| Groups.ClassesUnique | openprescribing/frontend/price_per_unit/substitution_sets.py:257-258 | the equivalence classes are determined by the pairs: any two results list the same sets |
| Groups.SameRelationClasses | openprescribing/frontend/price_per_unit/substitution_sets.py:257-258 | lists of pairs that relate the same elements, whatever their order, orientation and repetitions, have the same equivalence classes |
| Groups.ExampleGroups | openprescribing/frontend/price_per_unit/substitution_sets.py:249-255 | the documented example gives exactly two groups, one with the elements {1, 2, 3, 4} and one with {5, 6}, in whichever order |
| FormulationSwaps.RowError | openprescribing/frontend/price_per_unit/substitution_sets.py:227-230 | an accepted row fails iff one of its codes is not its own generic equivalent or the two codes are equal, and the error names the code that fails first |
| FormulationSwaps.ReadRows | openprescribing/frontend/price_per_unit/substitution_sets.py:222-233 | the row loop computes the load, stopping at the first failed assertion |
| FormulationSwaps.LoadSucceeds | openprescribing/frontend/price_per_unit/substitution_sets.py:223-230 | the load succeeds iff every row marked "Y" passes the assertions; other rows are skipped |
| FormulationSwaps.LoadFailsAtFirstBadRow | openprescribing/frontend/price_per_unit/substitution_sets.py:227-230 | a failed load reports the error of the first accepted row that fails |
| FormulationSwaps.LoadedPairs | openprescribing/frontend/price_per_unit/substitution_sets.py:231 | the loaded pairs are exactly the code pairs of the accepted rows, each two distinct generic codes |
| FormulationSwaps.LoadedFormulations | openprescribing/frontend/price_per_unit/substitution_sets.py:232-233 | the formulation recorded for a code is the one given by the last accepted row listing it, the alternative column winning within a row |
| FormulationSwaps.FormulationsCoverPairs | openprescribing/frontend/price_per_unit/substitution_sets.py:231-233 | a formulation is recorded for exactly the codes of the pairs |
| FormulationSwaps.NonEmpty | openprescribing/frontend/price_per_unit/substitution_sets.py:239-241 | the list holds, once each, the formulations found that are present and not empty |
| FormulationSwaps.FormulationsForGroup | openprescribing/frontend/price_per_unit/substitution_sets.py:237-241 | the formulations of a group list, once each, the non-empty formulations of its codes |
| FormulationSwaps.ReadFormulationSwapsFile | openprescribing/frontend/price_per_unit/substitution_sets.py:198-242 | fails exactly as the load does; otherwise yields the equivalence classes of the pairs, each with its distinct non-empty formulations |
| FormulationSwaps.Primary | openprescribing/frontend/price_per_unit/substitution_sets.py:190 | the primary code is one of the group's codes; PrimaryIsLeast and PrimaryIsSortedHead state which |
| FormulationSwaps.Description | openprescribing/frontend/price_per_unit/substitution_sets.py:194 | carries no contract of its own; DescriptionOfSet states what the text is |
| FormulationSwaps.PrimaryIsLeast | openprescribing/frontend/price_per_unit/substitution_sets.py:188-190 | the primary code of a group is no greater than any of its codes |
| FormulationSwaps.PrimaryIsSortedHead | openprescribing/frontend/price_per_unit/substitution_sets.py:190 | the primary code is the first of the sorted codes |
| FormulationSwaps.DescriptionOfSet | openprescribing/frontend/price_per_unit/substitution_sets.py:194 | the description is the strictly increasing listing of the formulations joined by " / ", whatever order they were found in |
| FormulationSwaps.MapAll | openprescribing/frontend/price_per_unit/substitution_sets.py:191-192 | every code of the group now maps to the primary code and nothing else changes |
| FormulationSwaps.RecordGroup | openprescribing/frontend/price_per_unit/substitution_sets.py:187-194 | recording one more group keeps the maps equal to what the groups so far give |
| FormulationSwaps.GetFormulationSwaps | openprescribing/frontend/price_per_unit/substitution_sets.py:173-195 | fails exactly as the load does; otherwise every code of a group maps to the group's primary code, and exactly the groups with more than one formulation are described, under their primary code |
| FormulationSwaps.SwapsIdempotent | openprescribing/frontend/price_per_unit/substitution_sets.py:190-192 | `swaps[swaps[c]] == swaps[c]` for every mapped code |
| FormulationSwaps.PairsSharePrimary | openprescribing/frontend/price_per_unit/substitution_sets.py:187-192 | both codes of every loaded pair map to the same code |
| FormulationSwaps.PrimaryIsSmallest | openprescribing/frontend/price_per_unit/substitution_sets.py:188-192 | the code a group maps to is no greater than any code mapped to it |
| FormulationSwaps.DescriptionsDescribe | openprescribing/frontend/price_per_unit/substitution_sets.py:193-194 | a representative has a description iff the codes it represents have more than one distinct non-empty formulation, and the description is those formulations sorted and joined by " / " |
| FormulationSwaps.DescriptionsOfPrimaries | openprescribing/frontend/price_per_unit/substitution_sets.py:193-194 | only codes that map to themselves have descriptions |
| FormulationSwaps.SwapsUnique | openprescribing/frontend/price_per_unit/substitution_sets.py:237-242 | the two maps do not depend on the order in which the groups and their formulations are listed |
| FormulationSwaps.SwapsDependOnRelationOnly | openprescribing/frontend/price_per_unit/substitution_sets.py:183-192 | two loads whose pairs relate the same codes give the same `swaps` map |
| FormulationSwaps.PermutedRowsLoad | openprescribing/frontend/price_per_unit/substitution_sets.py:222-233 | a reordering of the file's rows loads iff the file does, and its pairs relate the same codes |
| FormulationSwaps.RowOrderKeepsSwaps | openprescribing/frontend/price_per_unit/substitution_sets.py:173-233 | reordering the rows of a loadable file leaves the `swaps` map unchanged |
| SubstitutionSets.SubstitutionSet | openprescribing/frontend/price_per_unit/substitution_sets.py:28-48 | no contract of its own: the datatype with the `id`, `presentations`, `name` and `formulation_swaps` attributes set in the constructor |
| SubstitutionSets.OverrideName | openprescribing/frontend/price_per_unit/substitution_sets.py:148-149 | a code has an override name iff it is an override prefix followed by "AAA0A0", and the name is that prefix's entry |
| SubstitutionSets.SubParagraphsListed | openprescribing/frontend/price_per_unit/substitution_sets.py:105-108 | the listing of the override table holds each of its keys once |
| SubstitutionSets.GetNamesForBnfCodes | openprescribing/frontend/price_per_unit/substitution_sets.py:144-150 | a code is named iff it was asked for and the table names it, or it has an override name; override names win over looked-up ones |
| SubstitutionSets.SetKey | openprescribing/frontend/price_per_unit/substitution_sets.py:126-128 | a code has a key iff it has a generic equivalent g; the key is `swaps[g]` when `swaps` has an entry for g and g itself otherwise, as `swaps.get(generic_code, generic_code)` |
| SubstitutionSets.SetName | openprescribing/frontend/price_per_unit/substitution_sets.py:134 | the override name when there is one, else the looked-up name, else "unknown" |
| SubstitutionSets.BucketMembers | openprescribing/frontend/price_per_unit/substitution_sets.py:125-129 | a bucket holds exactly the codes whose swapped generic code is its id |
| SubstitutionSets.AddPresentation | openprescribing/frontend/price_per_unit/substitution_sets.py:125-129 | one pass appends the code to the bucket of its swapped generic code, opening a bucket when needed, and leaves codes without an equivalent out |
| SubstitutionSets.BucketPresentations | openprescribing/frontend/price_per_unit/substitution_sets.py:124-129 | the buckets hold, in order, the codes of each swapped generic code, and their ids are listed once each |
| SubstitutionSets.NamesGiveSetNames | openprescribing/frontend/price_per_unit/substitution_sets.py:134 | the name looked up for a bucket is its override name, else its table name, else "unknown" |
| SubstitutionSets.CollectBucket | openprescribing/frontend/price_per_unit/substitution_sets.py:131-141 | one pass of the comprehension keeps the sets made so far equal to those of the buckets seen: a bucket of more than one presentation adds its sorted, named, described set, any other adds nothing |
| SubstitutionSets.CollectSets | openprescribing/frontend/price_per_unit/substitution_sets.py:131-141 | one set for every bucket of more than one presentation and no other, ids distinct, presentations sorted, named, with their formulation description |
| SubstitutionSets.GetSubstitutionSetsFromBnfCodes | openprescribing/frontend/price_per_unit/substitution_sets.py:118-141 | fails exactly when loading the swaps file fails; otherwise returns the sets of the buckets built with the swaps of that file |
| SubstitutionSets.SetMembers | openprescribing/frontend/price_per_unit/substitution_sets.py:125-135 | a set holds exactly the given codes whose generic code, passed through the swaps, is its id |
| SubstitutionSets.NoGenericInNoSet | openprescribing/frontend/price_per_unit/substitution_sets.py:126-127 | a code with no generic equivalent is in no set |
| SubstitutionSets.SetsDisjoint | openprescribing/frontend/price_per_unit/substitution_sets.py:124-141 | no code is in two sets |
| SubstitutionSets.CodeInSomeSet | openprescribing/frontend/price_per_unit/substitution_sets.py:139-140 | a code with a generic equivalent is in a set iff its bucket has more than one presentation |
| SubstitutionSets.SetIdsAreRepresentatives | openprescribing/frontend/price_per_unit/substitution_sets.py:128 | the id of a set, when the swaps map it at all, maps to itself |
| MonthlyAlerts.ValidateOptions | openprescribing/frontend/management/commands/send_monthly_alerts.py:124-133 | fails with the recipient message iff a URL, CCG or practice is given without a recipient; any other result is success or the URL message |
| MonthlyAlerts.AcceptedOptions | openprescribing/frontend/management/commands/send_monthly_alerts.py:124-133 | the options pass iff no test target is given, or a recipient is given with a URL alone or with a CCG or practice but no URL |
| MonthlyAlerts.UrlExcludesOrganisation | openprescribing/frontend/management/commands/send_monthly_alerts.py:130-133 | a URL with a CCG or practice always fails, with the URL message once a recipient is given |
| MonthlyAlerts.Report | openprescribing/frontend/management/commands/send_monthly_alerts.py:172-175 | the message starts with "Encountered ", the count and the space after it, and ends with the joined texts and a closing backquote |
| MonthlyAlerts.Listing | openprescribing/frontend/management/commands/send_monthly_alerts.py:175 | iterating a set lists each of its elements once |
| MonthlyAlerts.BatchedEmailErrors | openprescribing/frontend/management/commands/send_monthly_alerts.py:164-178 | for several failures, the message reports their count, duplicates included, and lists each distinct text once; for one failure, it is its text; with none, the final `pop` fails and there is no message |
| MonthlyAlerts.RepeatedFailure | openprescribing/frontend/management/commands/send_monthly_alerts.py:171-175 | the same failure repeated is counted every time and listed once |
| MonthlyAlerts.TwiceTheSameFailure | openprescribing/frontend/management/commands/send_monthly_alerts.py:171-175 | two equal "SMTPError" failures give "Encountered 2 mail exceptions (showing last traceback only): `SMTPError`" |
| MonthlyAlerts.EmailRetrier.constructor | openprescribing/frontend/management/commands/send_monthly_alerts.py:182-184 | a retrier starts with no failure and the given limit, 3 by default |
| MonthlyAlerts.EmailRetrier.TryEmail | openprescribing/frontend/management/commands/send_monthly_alerts.py:186-194 | a successful send changes nothing and does not raise; a failed one appends exactly its text and raises iff the count now exceeds the limit, with the batch message; the limit never changes |
| MonthlyAlerts.EmailRetrier.Exit | openprescribing/frontend/management/commands/send_monthly_alerts.py:199-204 | leaving the block raises iff some failure was recorded, with the batch message |
| MonthlyAlerts.EmailRetrier.TryEach | openprescribing/frontend/management/commands/send_monthly_alerts.py:137-161 | sending one mail after another raises iff the failures exceed the limit; if not, all failures are recorded, and if so, those up to the one that raised |
| MonthlyAlerts.SendAll | openprescribing/frontend/management/commands/send_monthly_alerts.py:137-161 | the batch ends in `BatchedEmailErrors` iff some mail failed, and its message covers the failures up to the first one over the limit |
| MonthlyAlerts.ExceedsAsWritten | openprescribing/frontend/management/commands/send_monthly_alerts.py:192 | as written, only the default limit is ever exceeded; a typed limit never is |
| MonthlyAlerts.AsWrittenIsNumeric | openprescribing/frontend/management/commands/send_monthly_alerts.py:60-63 | for at most n failures, the test as written is the numeric test against 3 for the default and against n for a typed limit |
| MonthlyAlerts.SendAllAsWritten | openprescribing/frontend/management/commands/send_monthly_alerts.py:60-63 | as written, a batch raises iff some mail failed; with the default it reports the first failures up to the fourth, with a typed limit every failure |
| MonthlyAlerts.MaxErrorsValue | openprescribing/frontend/management/commands/send_monthly_alerts.py:60-63 | the intended reading of the limit: 3 by default, and a typed limit that is a number is never negative |
| MonthlyAlerts.TypedLimitIgnored | openprescribing/frontend/management/commands/send_monthly_alerts.py:60-63 | as written, ten failures do not exceed a limit of 3 typed on the command line |
| MonthlyAlerts.DecimalRoundTrip | openprescribing/frontend/management/commands/send_monthly_alerts.py:60-63 | reading back the decimal text of a number gives the number |
| MonthlyAlerts.TypedLimitRead | openprescribing/frontend/management/commands/send_monthly_alerts.py:60-63 | with the limit read as a number, a typed limit of n is the limit n |

## Left out

- `get_substitution_sets` and the `memoize` cache (substitution_sets.py lines 51-54 and 111-115) are a database query and process-wide caching. The builder takes the list of codes as a parameter.
- `Presentation.names_for_bnf_codes` (line 145) is a database lookup. It is a `map` from code to name restricted to the codes asked for.
- Opening and parsing the CSV file and stripping its fields (lines 218-226) are file I/O. The rows are records whose fields are already stripped.
- The Python `re` engine is replaced by one matcher per alternative of the exclusion pattern. Each matcher is anchored at the first character; a pattern dot is any character but a line break; `0904010H0.*` is a prefix rule.
- The `assert` statements of lines 228-230 become a `LoadError` result, carrying the first failing assertion of the first accepted row that fails.
- The order of dictionary and set iteration (lines 138, 148, 175, 240 and 268) is not fixed.
  - Results are stated up to order: the groups, the formulations of a group, the listing in the batch message and the order of the sets.
  - The two override sub-paragraphs are written in the order the table lists them. Their invented codes are distinct, so the resulting names do not depend on that order.
- Groups.ExampleGroups: states the example's groups as sets. The doctest's lists also fix the order of the members, which `extend` sets (line 265), and the order of the groups, which comes from dictionary iteration (line 268). GroupsFromPairs states neither order.
- FormulationSwaps.RowOrderKeepsSwaps: states only that `swaps` is unchanged. `swap_descriptions` can change when the rows are reordered, because the last accepted row that lists a code sets its formulation (LoadedFormulations).
- SubstitutionSets.CollectSets: does not state the order of the sets, only that they are the sets of the buckets once each.
- `SubstitutionSet` with no name (line 35: `name=None`) does not occur, because the builder always passes a name. The model's name is a plain string.
- `handle`, `get_org_bookmarks` and `get_search_bookmarks` (send_monthly_alerts.py lines 65-161) are database queries, mail composition and sending, and logging. A mail callback is a `Delivery`, and `SendAll` is the `with` block over the outcome of each callback.
- The exceptions of `sys.exc_info()` and their traceback formatting (lines 169-170 and 190) are represented by their formatted text. The tracebacks attached when raising are dropped.
- Python 2's tuple `raise` (lines 193-194 and 202-204) is raising the `BatchedEmailErrors` it holds. A raise from inside the block is replaced by the one raised on leaving it, over the same failures, which is what `SendAll` states.
- `logger.exception` and `logger.info` are logging.
- `add_arguments` (lines 28-63) is left out apart from how `--max_errors` reaches the retrier; see Findings.
- MonthlyAlerts.MaxErrorsValue: reads only plain digit strings. `int()` would also accept a sign and surrounding spaces.
- `convert_hscic_prescribing.py`, `bookmark_views.py` and the migration are not part of this model: they are storage, web views and schema.

## Findings

| source | as written | input that shows it | evidently intended | confidence | as-written member | corrected member |
|---|---|---|---|---|---|---|
| openprescribing/frontend/management/commands/send_monthly_alerts.py:60-63 | `--max_errors` has no `type=`, so a limit given on the command line reaches line 192 as a string. Python 2 orders every number below every string, so `len(self.exceptions) > self.max_errors` is then always false | `--max_errors 3` and ten failed mails: no failure raises, and the batch runs to the end | the typed limit read as a number (`type=int`), like the default 3, so the fourth failure aborts the batch | high, not executed | MonthlyAlerts.TypedLimitIgnored | MonthlyAlerts.TypedLimitRead |

`EmailRetrier` and `SendAll` take the limit as an integer, which is what `MaxErrorsValue` gives on the intended reading. The code as written is modelled by `ExceedsAsWritten`. `AsWrittenIsNumeric` shows that a typed limit then acts as a limit no batch reaches, and `SendAllAsWritten` runs the batch on that limit.
