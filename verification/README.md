# BI aggregation trees and the local-check parser, in Dafny

This project models two parts of Checkmk.

**Business Intelligence (BI) compiled trees** (`cmk/bi/trees.py`). A compiled aggregation is a tree with three kinds of node:

- leaves, which stand for a host or one of its services;
- rules, which fold their children's states through an aggregation function;
- "remaining" wildcards, which post-processing replaces with the services of their hosts that no explicit leaf names.

The model covers:

- computing a node's status from a status snapshot, including the optional second pass with operator-assumed states;
- the identifiers handed out to the nodes of a tree;
- post-processing, which expands the wildcards;
- the elements a subtree requires;
- computing all branches of an aggregation;
- the type tag and title of the result tree's nodes.

**The `<<<local>>>` agent section parser** (`cmk/base/plugins/agent_based/local.py`). Every line a local check prints is parsed into one of two things:

- an error entry, for a malformed line;
- a result. A result holds the state, the item name, the performance data, the text, and the cache information taken from an optional `cached(CREATION,INTERVAL)` prefix.

The model also covers the label maker for metric names and the split of a result's text into summary and details.

Modules and files:

| file | module | contents |
|---|---|---|
| `bi_nodes.dfy` | `BiNodes` | the node tree, snapshot and result types; required elements; pre-order |
| `bi_compute.dfy` | `BiCompute` | leaf and rule computation, the assumed pass, fold laws |
| `bi_identifiers.dfy` | `BiIdentifiers` | `get_identifiers` as methods over a threaded used-id set |
| `bi_postprocess.dfy` | `BiPostprocess` | `services_of_host`, wildcard expansion, sorting, `compile_postprocess` |
| `bi_aggregation.dfy` | `BiAggregation` | `compute_branches`, `eval_result_node` |
| `local_text.dfy` | `LocalText` | string splitting/joining, stripping, newline unescaping, `_labelify` |
| `local_parse.dfy` | `LocalParse` | state tokens, line validity, cache prefix, perfdata, the section |

Some collaborators are code outside this model. They are parameters, not definitions:

- `Collaborators` bundles three of them:
  - `aggregate`, the rule's aggregation function, which is uninterpreted;
  - `hostStateName` and `serviceStateName`, which name states.
- `StatusSnapshot` stands for the status fetcher's data: host and service states plus the assumed states.
- A map of `SearchedHost` stands for the searcher's hosts.
- `Externals` bundles Python's `float()`, `shlex.split` and `repr`. The first two return `None` where the library raises `ValueError`.
- `time.time()` is the parameter `now`.
- Numbers in the parser are reals. Positive and negative infinity appear as `PosInf` and `NegInf` levels.

The downtime value of a rule is the opposite of a leaf's for the same option: a leaf in downtime reports 1 when downtimes escalate as WARN and 2 otherwise (`cmk/bi/trees.py:159`), while a rule whose folded downtime is positive reports 2 when they escalate as WARN and 1 otherwise (`cmk/bi/trees.py:393`). The model keeps both as written; `BiCompute.DowntimeLevelsAlternate` states it.

## Model

| member | source | states |
|---|---|---|
| BiNodes.Somes | cmk/bi/trees.py:357-364 | keeps exactly the present child bundles: every kept one was present, every present one is kept, none is kept exactly when none is present |
| BiNodes.FlattenMembers | cmk/bi/trees.py:329-333 | an element is in the concatenation of the children's lists exactly when it is in one of them |
| BiNodes.FlattenConcat | cmk/bi/trees.py:319-320 | extending the list child by child concatenates the lists in order |
| BiNodes.UnionAll | cmk/bi/trees.py:341 | the set comprehension over children contains exactly the members of the children's sets |
| BiNodes.RequiredElementsAreLeaves | cmk/bi/trees.py:340-341 | an element is required by a subtree exactly when a leaf for that site, host and service occurs in it (a wildcard contributes none) |
| BiNodes.RequiredElements | cmk/bi/trees.py:108-110 | `required_elements` of leaf, rule (trees.py:340-341) and wildcard (trees.py:503-504); `RequiredElementsAreLeaves` states that it is exactly the set of leaf entities in the subtree |
| BiCompute.MapHostStateToBiState | cmk/bi/trees.py:204-211 | UP maps to OK, DOWN to CRIT, and every other value (UNREACHABLE included) to UNKNOWN; the map is total |
| BiCompute.GetEntity | cmk/bi/trees.py:216-227 | a host without a status row gives neither depth nor entity; otherwise the depth is the host's, a host leaf references the host row, and a service leaf finds an entity iff the row lists the service, and that entity is the row's entry for the service |
| BiCompute.StateName | cmk/bi/trees.py:213-214 | service state names for a leaf with a non-empty service, host state names otherwise; it feeds the assumed text whose presence `ComputeLeaf` states |
| BiCompute.ComputeLeaf | cmk/bi/trees.py:122-202 | a missing entity (no status, no host downtime depth, no state or no hard state) gives a fixed UNKNOWN bundle with "Host  not found"/"Service not found" when aggregations are frozen and nothing otherwise; downtime is 0 iff the entity's depth is 0 and the host's depth is at most 0, else the leaf escalation value; never-checked gives PENDING, else hard or soft state, remapped only for host leaves; the actual result carries the entity's acknowledgement, service-period flag and plugin output; an assumed result exists iff the pass is on and the exact (site, host, service) key is overridden, and then shares downtime and acknowledgement, carries the entity's service-period flag and reads "Assumed to be " followed by the assumed state's name |
| BiCompute.HostLeafStates | cmk/bi/trees.py:161-168 | a host leaf only reports PENDING, OK, CRIT or UNKNOWN |
| BiCompute.ProcessResults | cmk/bi/trees.py:384-420 | state is the aggregate of child states; a positive folded downtime becomes the rule escalation value and any other folded value (0 when no child is in downtime) is kept; acknowledged iff not OK and the aggregate with acknowledged children zeroed is 0; in service period iff the aggregate of 0/2 flags is 0; output is the state's message |
| BiCompute.Compute | cmk/bi/trees.py:351-382 | a wildcard computes to nothing; a result belongs to its node; without the assumed pass there is no assumed result, and a rule result carries one exactly when the pass is on |
| BiCompute.RulePruning | cmk/bi/trees.py:357-382 | a rule is pruned iff every child is; otherwise it nests exactly the present child bundles in order, folds their actual results, and in the assumed pass folds each child's assumed result if present, else its actual one |
| BiCompute.ActualIgnoresAssumedPass | cmk/bi/trees.py:367-372 | requesting the assumed pass changes neither which nodes are pruned nor any actual result |
| BiCompute.AssumedPassWithoutOverrides | cmk/bi/trees.py:171-187 | with no override on any required element of a subtree, the assumed pass's effective result equals the plain pass's actual result |
| BiCompute.RuleOkIffChildrenOk | cmk/bi/trees.py:387-396 | under a worst-of style aggregation a rule is OK iff all children are OK, and an OK rule is never acknowledged |
| BiCompute.AcknowledgedIffProblemsAcknowledged | cmk/bi/trees.py:395-402 | under a worst-of style aggregation a non-OK rule is acknowledged iff every non-OK child is acknowledged |
| BiCompute.InServicePeriodIffAllChildren | cmk/bi/trees.py:404-409 | under a worst-of style aggregation a rule is in its service period iff every child is |
| BiCompute.DowntimeReescalated | cmk/bi/trees.py:389-393 | under a worst-of style aggregation over non-negative downtime values, a rule over a child in downtime reports the rule's own escalation value, whatever value the child carried |
| BiCompute.NoChildDowntimeNoRuleDowntime | cmk/bi/trees.py:389-393 | under a worst-of style aggregation a rule none of whose children is in downtime is not in downtime |
| BiCompute.DowntimeLevelsAlternate | cmk/bi/trees.py:157-159 | as written, a leaf in downtime and the rule above it use opposite values for the same option (1 and 2, or 2 and 1) |
| BiIdentifiers.FreeCounter | cmk/bi/trees.py:83-85 | the loop finds the smallest k >= 1 whose full identifier is not yet used, which is `FirstFree` from 1 |
| BiIdentifiers.FirstFreeSmallest | cmk/bi/trees.py:313-315 | the counter `FirstFree` picks is the smallest one from the start value on whose identifier below the parent is unused |
| BiIdentifiers.GetIdentifiers | cmk/bi/trees.py:311-321 | returns exactly `Identifiers`: every leaf and rule gets its parent's identifier (its own rule's, or `parentId` for the root) plus its own segment with the smallest free counter at that moment, children after their rule in child order; the identifiers follow the pre-order, are new, pairwise distinct and added to the used set, each extends `parentId` and ends in a segment naming its node, and a rule's descendants lie below it |
| BiIdentifiers.ChildIdentifiers | cmk/bi/trees.py:319-320 | returns exactly `ChildrenIdentifiers`: each child's identifiers below the rule's, the used set threaded from child to child; they cover the children's pre-orders and are fresh and below the rule's identifier |
| BiIdentifiers.Identifiers | cmk/bi/trees.py:82-88 | the identifiers and used set of `get_identifiers` for a leaf (trees.py:82-88), a rule (trees.py:311-321) and a wildcard (none); `GetIdentifiers` returns exactly it and states its freshness, distinctness and pre-order |
| BiIdentifiers.ChildrenIdentifiers | cmk/bi/trees.py:319-320 | the children's identifiers of a rule, the used set threaded from child to child; `ChildIdentifiers` returns exactly it and states their freshness and order |
| BiIdentifiers.AppendIdentifiers | cmk/bi/trees.py:320 | extending by a second batch of identifiers taken after the first keeps all of them distinct and fresh |
| BiIdentifiers.OwnIdentifier | cmk/bi/trees.py:86-88 | a node's own identifier, unused before, is fresh, one segment below the parent and carries the chosen counter |
| BiIdentifiers.ExtendsTransitive | cmk/bi/trees.py:316 | an identifier below one below the parent is below the parent |
| BiPostprocess.ServicesOfHostAreRequiredServices | cmk/bi/trees.py:95-98 | a service of a host is named by a subtree iff it is non-empty and some site's element for that host and service is required by the subtree |
| BiPostprocess.ServicesOfHost | cmk/bi/trees.py:343-344 | `services_of_host` of leaf (trees.py:95-98), rule and wildcard (trees.py:506-507); `ServicesOfHostAreRequiredServices` states it is exactly the non-empty services of the subtree's required elements on that host |
| BiPostprocess.StrLeTotal | cmk/bi/trees.py:79-80 | the comparable-name order is total |
| BiPostprocess.StrLeTransitive | cmk/bi/trees.py:79-80 | the comparable-name order is transitive |
| BiPostprocess.ComparableName | cmk/bi/trees.py:79-80 | the sort key of a leaf (site, host and service joined by ":"), a rule (trees.py:308-309) and a wildcard (trees.py:478-479); `SortByName` sorts by it, ordered by the total and transitive `StrLe` |
| BiPostprocess.InsertByName | cmk/bi/trees.py:499 | inserting into a name-sorted list keeps it sorted and adds exactly that node |
| BiPostprocess.SortByName | cmk/bi/trees.py:499 | the result is sorted by comparable name and is a permutation of the input |
| BiPostprocess.ExpansionMembers | cmk/bi/trees.py:488-498 | a node comes out of a wildcard iff it is a service leaf of a listed host for a service that host's used set does not hold |
| BiPostprocess.UnusedServiceLeaves | cmk/bi/trees.py:489-498 | exactly one service leaf, on the host's site, per service of the host not in its used set |
| BiPostprocess.ExpandRemaining | cmk/bi/trees.py:481-500 | the wildcard's replacement is sorted by comparable name and holds, as a multiset, the unused-service leaves of every listed host |
| BiPostprocess.CompilePostprocess | cmk/bi/trees.py:323-338 | a leaf stays itself, a wildcard becomes its sorted expansion, a rule stays one rule whose children are the in-order concatenation of its children's post-processed lists |
| BiPostprocess.RuleParts | cmk/bi/trees.py:329-337 | a post-processed rule is a single rule whose children split into the children's post-processed lists |
| BiPostprocess.PostprocessRemovesWildcards | cmk/bi/trees.py:329-333 | no wildcard is left anywhere after post-processing |
| BiPostprocess.PostprocessRequiredElements | cmk/bi/trees.py:334-341 | after post-processing the required elements are those before plus exactly the entities the wildcards expanded to |
| BiPostprocess.RuleRequiredElements | cmk/bi/trees.py:340-341 | the same for a rule, by the union over its rewritten children |
| BiPostprocess.RemainingRequiredElements | cmk/bi/trees.py:503-504 | the required elements of a wildcard's replacement are exactly the expanded service entities |
| BiPostprocess.RuleChildrenRequiredElements | cmk/bi/trees.py:329-341 | a rewritten rule requires an element iff the original required it or one of its wildcards expanded to it |
| BiPostprocess.ExpansionAvoidsExplicitLeaves | cmk/bi/trees.py:490-491 | when the used sets come from the branch's own named services, an expanded element is a service no explicit leaf of the branch already names |
| BiPostprocess.ExpandedElementsUnused | cmk/bi/trees.py:489-491 | every expanded element is a service of a known host, on that host's site, and not in its used set |
| BiAggregation.ComputeBranches | cmk/bi/trees.py:552-565 | the present branch results in branch order, each branch computed with the assumed pass iff an override touches one of its required elements |
| BiAggregation.BranchResultsAssumedIffOverride | cmk/bi/trees.py:555-561 | every branch result belongs to a branch, and carries an assumed result iff an override touches that branch |
| BiAggregation.BranchesEffectiveAsFullAssumedPass | cmk/bi/trees.py:558-561 | deciding the pass per branch gives the same effective results as requesting it for every branch |
| BiAggregation.BranchesActualAsPlainPass | cmk/bi/trees.py:560-564 | the actual branch results equal those of a pass without assumed states |
| BiAggregation.EvalResultNode | cmk/bi/trees.py:628-657 | type tag 1 and no children for a leaf, tag 2 and, as child i, the evaluation of child i for a rule |
| BiAggregation.EvalSucceedsIffNoWildcard | cmk/bi/trees.py:645-657 | evaluation succeeds exactly when no wildcard is left in the tree |
| BiAggregation.EvalTitles | cmk/bi/trees.py:638-647 | a leaf's title is its host, or host, " - " and service; a rule's is its title property |
| LocalParse.SanitizeState | cmk/base/plugins/agent_based/local.py:124-132 | "0" to "3" map to that code and "P" to passive, with no message; any other token maps to code 3 with a non-empty message |
| LocalParse.InvalidStatusNamesToken | cmk/base/plugins/agent_based/local.py:132 | the message for an invalid token is 23 characters longer than the token and reads "Invalid plugin status ", then the token, then a final "." |
| LocalParse.GetViolationReason | cmk/base/plugins/agent_based/local.py:110-121 | empty exactly for valid lines (4+ tokens, or 3 starting with "P"); the empty-line reason for no tokens, the wrong-format reason otherwise |
| LocalParse.IsValidLine | cmk/base/plugins/agent_based/local.py:110-111 | at least four tokens, or exactly three starting with "P"; `GetViolationReason` is empty exactly for these lines |
| LocalParse.ParseCache | cmk/base/plugins/agent_based/local.py:97-107 | a line without a `cached(` token is returned unchanged with no cache info; a line with one succeeds iff both fields parse and the interval is not 0, and then yields the cache info (the age since creation, the interval, the elapsed percentage) and the line without that token |
| LocalParse.ParseCacheOutcome | cmk/base/plugins/agent_based/local.py:100-107 | a line whose `cached(` token parses always reports cache info; a failing line fails with ZeroDivisionError exactly when both fields parsed (a zero interval), and with the parse error otherwise |
| LocalParse.CacheInfoOf | cmk/base/plugins/agent_based/local.py:104-107 | keeps age and interval, and the percentage times the interval is 100 times the age |
| LocalParse.CacheRoundTrip | cmk/base/plugins/agent_based/local.py:97-107 | parsing `cached(C,I)` in front of a line gives back the rest of the line and the info for C and I |
| LocalParse.CacheTokenFields | cmk/base/plugins/agent_based/local.py:103 | the fields of a well-formed cache token are its two numbers |
| LocalParse.FloatIgnoreUom | cmk/base/plugins/agent_based/local.py:80-87 | the loop computes the value of the longest parsable prefix, or 0 |
| LocalParse.UomValueIsLongestParsablePrefix | cmk/base/plugins/agent_based/local.py:82-87 | that value is 0 when no prefix parses, else the number of the longest prefix that parses |
| LocalParse.TryFloat | cmk/base/plugins/agent_based/local.py:90-94 | a level exactly when the text parses, and then its number |
| LocalParse.LevelPair | cmk/base/plugins/agent_based/local.py:162-175 | a pair exactly when warn or crit is present; a crit-only bound is copied into warn, a warn-only bound gets the infinite crit; warn and crit are both present or both absent |
| LocalParse.ReadLevels | cmk/base/plugins/agent_based/local.py:147-159 | the four level slots hold the upper and lower parts of the warn and crit fields |
| LocalParse.FillLevels | cmk/base/plugins/agent_based/local.py:161-175 | the upper and lower level pairs after filling in missing bounds |
| LocalParse.ParsePerfentry | cmk/base/plugins/agent_based/local.py:135-184 | the method computes the specification of a perfdata entry |
| LocalParse.PerfEntry | cmk/base/plugins/agent_based/local.py:135-184 | the perfdata entry `_parse_perfentry` returns, or the exception it raises; `PerfEntryParsesIff` and `PerfEntryOfFields` state when it parses and what it yields |
| LocalParse.PerfEntryParsesIff | cmk/base/plugins/agent_based/local.py:141-184 | an entry parses iff it has a `=` after trailing `;` are stripped and any minimum and maximum parse; the name is the text before the first `=` and the value that of the first field |
| LocalParse.PerfEntryOfFields | cmk/base/plugins/agent_based/local.py:141-184 | `name=value;warn;crit` gives the upper levels (warn, crit), no lower levels and no boundaries |
| LocalParse.ParsePerftxt | cmk/base/plugins/agent_based/local.py:187-200 | the loop computes the specification of a perfdata text |
| LocalParse.PerfTxt | cmk/base/plugins/agent_based/local.py:187-200 | the parsed entries and the message about the rejected ones; `PerfEntriesCount`, `RejectedAreFailures`, `ParsedAreSuccesses` and `PerfMessageEmptyIff` state which entries go where and when the message is empty |
| LocalParse.PerfEntriesCount | cmk/base/plugins/agent_based/local.py:193-197 | every entry is either kept or rejected |
| LocalParse.RejectedAreFailures | cmk/base/plugins/agent_based/local.py:193-197 | the rejected entries are exactly those that fail to parse |
| LocalParse.ParsedAreSuccesses | cmk/base/plugins/agent_based/local.py:193-197 | the kept perfdata are exactly the results of entries that parse |
| LocalParse.PerfMessageEmptyIff | cmk/base/plugins/agent_based/local.py:187-200 | "-" gives no perfdata and no message; the message is empty iff every entry parses, and otherwise starts "Invalid performance data: " |
| LocalParse.LineResult | cmk/base/plugins/agent_based/local.py:238-252 | a valid line's result has its item, cache info and perfdata; levels apply iff the state is "P" and nothing was rejected, and then the state is OK |
| LocalParse.LineResultText | cmk/base/plugins/agent_based/local.py:241-247 | with a state or perfdata message the state is UNKNOWN and the text is the messages, "Output is: " and the text; otherwise the token's state and the joined text with escaped newlines restored |
| LocalParse.ParseLocalPure | cmk/base/plugins/agent_based/local.py:208-256 | the loop computes the section the specification folds from the line outcomes |
| LocalParse.ParseLine | cmk/base/plugins/agent_based/local.py:218-252 | one iteration of the loop: tokens, cache prefix, then an error entry or a result; `ParseLineValid` states a valid line yields `LineResult`, whose contract and `LineResultText` state its fields |
| LocalParse.ParseLocal | cmk/base/plugins/agent_based/local.py:208-256 | the section folded from the line outcomes; `CollectFailsAtFirstFailure`, `CollectErrors`, `CollectItems` and `CollectLastWins` state its errors, its items and which line wins |
| LocalParse.CollectFailsAtFirstFailure | cmk/base/plugins/agent_based/local.py:215-228 | the section is built iff no line raises, and otherwise the first exception is the result |
| LocalParse.CollectErrors | cmk/base/plugins/agent_based/local.py:229-236 | the errors are the invalid lines' error entries, in line order |
| LocalParse.CollectItems | cmk/base/plugins/agent_based/local.py:238-252 | an item has a result iff some valid line names it |
| LocalParse.CollectLastWins | cmk/base/plugins/agent_based/local.py:245-252 | a line's result is stored under its item unless a later line names the same item |
| LocalParse.SingleLine | cmk/base/plugins/agent_based/local.py:215-256 | a table of one valid line gives no errors and just that line's result |
| LocalParse.ParseLocalExample | cmk/base/plugins/agent_based/local.py:210-211 | the first doctest of parse_local_pure: an OK result for "Service Name" with text "arbitrary info text", no cache info and no perfdata |
| LocalParse.ParseLocalCachedExample | cmk/base/plugins/agent_based/local.py:212-213 | the second doctest: the same with cache info (0.0, 0.0, 1617883538.0) |
| LocalParse.CreatedNow | cmk/base/plugins/agent_based/local.py:103-107 | a cache created now has age 0 and elapsed percentage 0 |
| LocalText.SplitOnce | cmk/base/plugins/agent_based/local.py:142 | splitting at the first separator gives a part without it and the rest, which join back to the input; no separator gives the input alone |
| LocalText.JoinSplit | cmk/base/plugins/agent_based/local.py:193-199 | joining the pieces of a split with the separator gives back the text |
| LocalText.SplitJoin | cmk/base/plugins/agent_based/local.py:193-199 | splitting pieces free of the separator after joining them gives them back |
| LocalText.SplitPiecesFree | cmk/base/plugins/agent_based/local.py:143 | no piece of a split holds the separator |
| LocalText.RStrip | cmk/base/plugins/agent_based/local.py:141 | the result is a prefix of the input that does not end in the character, and only that character was removed |
| LocalText.NoEscapedNewlineLeft | cmk/base/plugins/agent_based/local.py:243 | no backslash-n pair is left after unescaping |
| LocalText.UnescapeIdentity | cmk/base/plugins/agent_based/local.py:243 | a text without a backslash-n pair is unchanged |
| LocalText.UnescapeNewlines | cmk/base/plugins/agent_based/local.py:243 | never lengthens the text; `NoEscapedNewlineLeft` and `UnescapeIdentity` state that no backslash-n is left and that text without one is unchanged |
| LocalText.SummaryDetails | cmk/base/plugins/agent_based/local.py:326-329 | the summary holds no newline; with a newline, summary, newline and details give back the text; without one, the summary is the text and the details are empty |
| LocalText.SplitSummary | cmk/base/plugins/agent_based/local.py:326-329 | summary and details of a result text; `SummaryDetails` states the summary is the first line and summary, newline and details rebuild the text |
| LocalText.Strip | cmk/base/plugins/agent_based/local.py:307 | the result is the input without leading and trailing whitespace |
| LocalText.ReplaceCharMeaning | cmk/base/plugins/agent_based/local.py:307 | the length is kept, a text without the character is unchanged, no occurrence survives (unless the replacement is the character itself), and the only changes turn the character into the replacement |
| LocalText.LowercaseWordLabel | cmk/base/plugins/agent_based/local.py:298-307 | an all-lowercase word is labelled by capitalising its first letter |
| LocalText.Labelify | cmk/base/plugins/agent_based/local.py:287-307 | `_labelify`; `LowercaseWordLabel` and the four doctest lemmas below state its value on all-lowercase words and on the documented examples |
| LocalText.LabelifyWeekIncidence | cmk/base/plugins/agent_based/local.py:289-290 | "weekIncidence" becomes "Week incidence" |
| LocalText.LabelifyCasesPer100k | cmk/base/plugins/agent_based/local.py:291-292 | "casesPer100k" becomes "Cases per 100 k" |
| LocalText.LabelifyAcronym | cmk/base/plugins/agent_based/local.py:293-294 | "WHOrecommendation4" becomes "WHO recommendation 4" |
| LocalText.LabelifyUnderscore | cmk/base/plugins/agent_based/local.py:295-296 | "zombie_apocalypse" becomes "Zombie apocalypse" |

## Left out

- BICompiledRule.compile_postprocess rewrites `self.nodes` in place. The model returns the rewritten tree as a new value, because a rule owns its children. Aliasing between trees is therefore not modelled.
- The `instance_method_lru_cache` on `required_elements` and its `cache_clear` are not modelled. `RequiredElements` is a plain function, so it always agrees with the current children. `PostprocessRequiredElements` shows why the cache must be cleared.
- `used_ids` is shared and mutated by the source. Here it is threaded through the methods as a set that goes in and a set that comes out.
- `BIRemainingResult.get_identifiers` lives in the bi library, which is not part of this model. A wildcard is taken to contribute no identifier.
- Marshmallow schemas, `serialize`, `parse_schema`, `__str__` and `__repr__` are wire formats and library code.
- `convert_result_to_legacy_format`, `create_aggr_tree` and `get_required_hosts` build presentation data.
- BiAggregation.EvalResultNode keeps only the type tag, the title and the children. It drops `frozen_marker`, `host`, `service`, `reqhosts`, `docu_url`, `rule_id`, `rule_layout_style` and `icon`.
- The concrete aggregation functions are not part of this model. `aggregate` is uninterpreted. The fold lemmas that need more assume a worst-of style function, stated as an explicit precondition.
- The status fetcher, the searcher and the state-name functions are collaborators, passed as values. The translation of the "Assumed to be %s" text through `sites_callback.translate` is left out: the text is the untranslated English one.
- `NodeComputeResult.custom_infos` is always empty in the modelled code, so it is not kept.
- PENDING and the host state codes are defined in the bi library, which is not part of this model. Their values are taken to be -1, 0, 1 and 2.
- `bi_branch_root` is passed through compile_postprocess but never read, so the model leaves it out.
- BiPostprocess.ExpandRemaining requires every listed host to be known to the searcher (`AllKnown`). The source raises `KeyError` for an unknown host, and that error path is not modelled.
- BiPostprocess.SortByName is a functional insertion sort. It gives the same order as `list.sort` up to ties between equal comparable names. Stability is not modelled.
- Comparable names order by character codes. The source's `__lt__` lives in the bi library, which is not part of this model.
- Python's `float()`, `shlex.split` and `%r` are abstract functions. IEEE floating point, NaN and infinite inputs are not modelled: numbers are reals, and only the two infinite levels are distinguished.
- `time.time()` in `parse_local` is the parameter `now`.
- `check_local`'s metrics, `check_levels`, rendering, `discover_local`, `cluster_check_local`, `_aggregate_worst`/`_aggregate_best` and the `register` calls are left out. Of `check_local`, only the summary/details split is modelled.
- LocalText.Labelify requires a non-empty word. For an empty word the source raises `IndexError`, and that error path is not modelled.
- `str.isupper`, `str.islower`, `str.isdigit`, `str.lower` and `str.upper` are modelled for ASCII only. `str.strip` removes Python's whitespace characters, listed by code point in `LocalText.IsSpace`.
- LocalParse.ParseLocal keeps `data` as a map. The insertion order of the source's dictionary is not kept.
- `six.ensure_text` and `six.ensure_str` are identities on the modelled strings.
- BiNodes.StatusSnapshot keeps the assumed states as a map to integers, so an override whose value is `None` cannot be expressed. The leaf would treat such an override as absent, while `compute_branches` would still count its key when choosing the assumed pass.
