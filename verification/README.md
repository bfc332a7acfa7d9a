# Trial matching: a Dafny model of the filtering pipeline

This project models the decision logic of the hackworld-poc trial matcher.
The matcher takes a patient's lab results and a list of candidate clinical
trials. It decides which trials the patient meets by reading the blood-count
conditions out of each trial's free-text inclusion criteria. It also fetches
the inputs it works on. It walks the patient's FHIR `Observation` pages for
three LOINC lab codes, maps the patient's condition codes to NCI thesaurus
codes through the UMLS crosswalk, and pages through the NCI clinical-trials
search.

Modules, in the order the program uses them:

- `Wrappers`: `Option`, and `Result` with a `Fault` naming the Python exception that escapes.
- `Text`: the string functions the code relies on.
  - `str.lower` and the `str.replace` calls.
  - Python's `<` on `str`.
  - `str(int)` and reading it back.
  - `rchop`.
- `Chunking`: `split_description`, as a generic `Split`, and the gluing `Concat`.
- `PyDict`: a Python `dict` as an insertion-ordered list of pairs, with `get`, assignment and repeated assignment.
- `Bags`: multiset bookkeeping for "what is filed under a code".
- `Expressions`: `convert_expressions`, and the `eval` of its result, read as a typed comparison.
- `Extraction`: `find_conditions` and `get_mapping_with_aws_comprehend`, including the `get_description` chunker.
- `Filtering`: `filter_trials_from_description` and `filter_by_inclusion_criteria`, including the fan-out into tasks of at most 10 trials and the merge by NCIt code.
- `Observations`: `get_lab_observations_by_patient`.
- `Umls`: `UmlsApi.get_crosswalk` and `UmlsApi.get_matches`.
- `Nci`: `NciApi._get_trials_page`, `_add_disease_list` and `get_trials`.

Everything outside the pure logic is a parameter of the model:

- The regular-expression engine behind `find_conditions` is `findall`.
- The entity-detection service is `detect`. A call may fail.
- The FHIR page fetch is `fetch`.
- The UMLS lookup is `lookup`.
- The NCI page request is `fetch`.

The order in which spawned greenlets finish (`iwait`) is an input sequence. It must be a permutation of what was spawned. No property depends on which permutation it is.

An uncaught Python exception is an `Err` carrying the exception's kind. A generator that raises part-way through is a `Stream`: the items yielded before the raise, and the fault.

## Model

| member | source | states |
|---|---|---|
| Text.Rchop | patient.py:37-40 | When `s` ends with a non-empty `ending`, the result with `ending` put back is `s`. Otherwise `s` is returned unchanged. An empty `ending` yields the empty string, because of Python's `s[:-0]`. |
| Text.StrLessTotal | patient.py:175 | The string order used to compare `effectiveDateTime` values is total on distinct strings. |
| Text.ReplaceCrlfCounts | patient.py:301 | `replace('\r\n', ' ')` turns each CRLF pair into one blank. Every other character is kept, as a multiset. |
| Text.ReplaceCrlfNoCrlf | patient.py:301 | A text without a CRLF pair is left unchanged. |
| Text.DecimalValueOfIntToString | apis.py:81-86 | `str(i)` of every integer reads back as `i`. This holds for the page offset and the age sent as query parameters. |
| Chunking.Split | patient.py:316-322 | The pieces glue back to the input. Every piece has at most `limit` items. Every piece but the last has exactly `limit`. There is at least one piece. The pieces are all non-empty when the input is. The count is 1 for an empty input and ceil(n / limit) otherwise. |
| Chunking.CeilDivBounds | patient.py:201-216 | `CeilDiv(n, k)` pieces of size `k` hold `n` items, and one piece fewer does not. |
| Expressions.MatchAt | patient.py:366 | A match found at position `i` is a well-formed fragment: optional blank, operator run, optional blank, digits, optional `,` or `.`, digits. It occurs verbatim in the text at `i`. Every run is greedy, as the regex engine makes it: no part could have taken one more character. |
| Expressions.MatchAtComplete | patient.py:366 | Whenever some well-formed fragment occurs at `i`, the matcher finds a match at `i`. |
| Expressions.MatchAtUnique | patient.py:366 | A well-formed, greedy fragment occurring at `i` is exactly the match found at `i`. |
| Expressions.FirstFragment | patient.py:366-370 | The match returned is the one at the leftmost matching position, and no earlier position matches. There is none exactly when no position matches. |
| Expressions.FirstFragmentIsFirstMatch | patient.py:366-372 | `findall(...)[0]` is characterised by the pattern alone: the result is `f` exactly when `f` is a well-formed greedy fragment occurring at some position before which no well-formed fragment occurs. |
| Expressions.NoFragmentIff | patient.py:366-371 | The pattern finds nothing exactly when no operator character is followed by a digit, directly or after one blank. |
| Expressions.Evaluate | patient.py:281 | `eval(lab_value + converted_condition)`. Blanks other than a space, tab or form feed, and an integer threshold with a leading zero, are syntax errors. For a comparison `>`, `>=`, `<`, `<=`, `==`, evaluation succeeds exactly when the text is accepted, and the result is that comparison of the lab number with the comma-free threshold. For `<<` and `>>` it succeeds exactly when the text is accepted and both the lab value and the threshold are integers. The result is the truth of the shifted value, and a float operand raises a TypeError. Any other operator run is a syntax error. |
| Expressions.ShiftLeftNonZero | patient.py:281 | `x << n` is non-zero exactly when `x` is. |
| Expressions.ShiftRightNonZero | patient.py:281 | Python's floor shift `x >> n` is non-zero exactly when `x` lies outside `[0, 2^n)`. |
| Expressions.ConvertExpressions | patient.py:356-374 | The result is the `("0", "")` sentinel exactly when the condition has no operator-and-number fragment. Otherwise it is the lab's number beside the first match of the pattern in the condition. The text returned is that match with its commas removed: its blanks and operator followed by the number literal `Evaluate` reads. |
| Expressions.StrippedIsEvalText | patient.py:372 | `.replace(',', '')` on a match removes only a `,` separator. The text is the match's blanks and operator followed by the integer digits and, for a `.` separator, `.` and the fraction digits. |
| Expressions.ThousandsSeparatorExample | patient.py:366-374 | `ANC >= 100,000` against a lab of 150000 converts to the fragment ` >= 100,000`. The threshold reads as 100000 with the comma removed, and the comparison holds. |
| Expressions.FirstComparisonExample | patient.py:369-372 | Of `<= 5 or >= 7`, only the first fragment, `<= 5`, is used. |
| Extraction.InclusionDescriptions | patient.py:299-300 | A text is selected exactly when some criterion with `inclusion_indicator` true has it as its description. A single criterion gives its description or nothing, according to its flag. |
| Extraction.InclusionDescriptionsAppend | patient.py:299-300 | The filter keeps document order: the descriptions of two criterion lists one after the other are the descriptions of each, concatenated. |
| Extraction.MentionTexts | patient.py:301-302 | The selected texts are non-empty. None are selected exactly when no description mentions a cell type. A single description gives its lower-cased, CRLF-free text exactly when it mentions a cell type. |
| Extraction.MentionTextsAppend | patient.py:301-302 | The comprehension keeps order: the texts of two description lists one after the other are the texts of each, concatenated. |
| Extraction.Normalize | patient.py:330 | A normalised description holds no comma and no upper-case letter. Its characters are those of the lower-cased, CRLF-replaced description with every comma removed, as a multiset. |
| Extraction.NormalizePlain | patient.py:330 | A description without CRLF, comma or upper-case letter is unchanged. |
| Extraction.GetDescription | patient.py:326-339 | The chunker yields at least one chunk. Every chunk is within the 19999-character limit. Every chunk but the last is non-empty. Together the chunks are exactly as long as the normalised descriptions. |
| Extraction.ChunksKeepCharacters | patient.py:326-339 | The chunks hold exactly the characters of the descriptions, as a multiset. Nothing is lost or duplicated. |
| Extraction.Applied | patient.py:346-349 | The entities processed before the `try` block is left are a prefix of the list. When it is shorter, the next entity raises a KeyError: it has no `Text`, or it is a cell type whose first attribute has no `Text`. |
| Extraction.CollectEntitiesIsPutAll | patient.py:346-349 | One chunk's entity loop assigns the recognised pairs, in order, of the entities before the first that raises. |
| Extraction.EntityFailureKeepsEarlier | patient.py:344-351 | An entity that raises ends its chunk. Assignments already made by earlier entities stay, and later entities of that chunk are not looked at. |
| Extraction.CollectChunksIsPutAll | patient.py:341-352 | The entity loop over the chunks is the assignment of the recognised entities' pairs in order. A chunk whose service call raised is skipped, and a chunk is cut short at an entity that raises. |
| Extraction.FailedChunkSkipped | patient.py:343-352 | A chunk whose service call fails contributes nothing: the result is as if it were absent. |
| Extraction.MappingWithComprehend | patient.py:325-353 | The fallback mapping has one entry per key. Every key is a cell type up to case. |
| Extraction.FallbackLastEntityWins | patient.py:348-350 | For a recognised entity that no later recognised entity with the same text overrides, the mapping holds that entity's text followed by its first attribute. |
| Extraction.FallbackKeysFromEntities | patient.py:348-350 | A key that no recognised entity carries is absent from the fallback mapping. |
| Extraction.FindConditions | patient.py:296-313 | The conditions have one entry per key. |
| Extraction.NoMentionNoConditions | patient.py:301-313 | No inclusion description mentions a cell type exactly when the joined text is empty. Then there are no conditions. |
| Extraction.RegexFastPath | patient.py:304-309 | When the regular expression yields all three cell types, its result is returned and the entity service is never consulted. |
| Extraction.FallbackPath | patient.py:304-312 | When the joined text is non-empty and the regular expression does not yield three distinct cell types, the result is the entity-service mapping over all inclusion descriptions. |
| Extraction.ConditionKeysAreCellTypes | patient.py:296-313 | Every condition key is a cell type up to case. |
| Filtering.ConditionOutcome | patient.py:276-285 | A cell type without a lab result passes. A lab of integer zero fails. A condition without an operator-and-number fragment fails. When the operator is a comparison, the outcome is an error exactly when `eval` rejects the text, and otherwise it is that comparison. Only evaluation can raise. |
| Filtering.SourceContextNoMention | patient.py:290-313 | A trial none of whose inclusion descriptions mentions a cell type evaluates to the single record `('No Inclusion Criteria Found', True)`. |
| Filtering.RecordConditions | patient.py:275-285 | There is one record per condition, in dict order. Each record carries the condition text and its outcome. The loop raises exactly when some condition's evaluation raises. |
| Filtering.EvaluateTrial | patient.py:271-292 | A trial without conditions gets the single record `('No Inclusion Criteria Found', True)`. Otherwise it gets one record per condition. |
| Filtering.FilterTrials | patient.py:268-293 | The kept and excluded lists together are as long as the input. Every kept trial passed all its conditions. Every excluded trial failed one. |
| Filtering.FilterTrialsIsStablePartition | patient.py:268-293 | Filtering succeeds exactly when every trial can be evaluated. The kept list is then the passing trials in input order, and the excluded list the failing ones in input order. |
| Filtering.FilterTrialsKeepsTrials | patient.py:268-293 | The kept and excluded trials together are the input trials, as a multiset. |
| Filtering.NoConditionsKept | patient.py:290-292 | A trial without conditions is kept, with the no-criteria record. |
| Filtering.ExcludedIffSomeConditionFails | patient.py:274-289 | A trial with conditions is excluded exactly when some condition's outcome is False. |
| Filtering.TakeRun | patient.py:209-214 | The inner loop collects the next `min(10, remaining)` trials, starting at the cursor, in order. |
| Filtering.ChunkTrials | patient.py:202-216 | A trial set is cut exactly as `split_description` would cut it with limit 10. It is one chunk when it has at most 10 trials and ceil(n / 10) chunks otherwise. The chunks glue back to the trial set, and each holds at most 10 trials. |
| Filtering.ChunkRuns | patient.py:207-216 | The `while` loop cuts a non-empty trial set into consecutive runs of 10 trials and a final shorter run. These are exactly the pieces `split_description` makes with limit 10. |
| Filtering.TaskCount | patient.py:203-216 | A trial set of n trials spawns one task when n <= 10 and ceil(n / 10) tasks otherwise. |
| Filtering.TasksKeepTrials | patient.py:201-216 | The tasks spawned for a code carry exactly the trials of the trial sets with that code, as a multiset. |
| Filtering.MergeTasksFails | patient.py:228-243 | The merge raises exactly when some finished task raised. |
| Filtering.MergeTasksFiles | patient.py:228-243 | The merge state keeps one entry per code. Each entry keeps passing trials in its kept list and failing trials in its excluded list. The codes present are those seen so far. |
| Filtering.MergeTasksKeepsTrials | patient.py:228-243 | After the merge, a code's entry holds its earlier trials plus exactly the trials of the finished tasks with that code. |
| Filtering.FilterByInclusionCriteria | patient.py:187-258 | No trial sets give two empty lists. Otherwise the two lists are equally long and list the same codes at the same positions. |
| Filtering.FilterByInclusionCriteriaFiles | patient.py:187-258 | The lists name each input code exactly once. Kept entries hold only passing trials and excluded entries only failing ones. For each code, the kept and excluded trials together are the trials of the input sets with that code, as a multiset. |
| Filtering.FilterByInclusionCriteriaFails | patient.py:228-240 | The whole call raises exactly when filtering some spawned task raises. |
| Observations.CellTypeOfIsLoinc | patient.py:24-28 | The code table knows exactly the three LOINC codes and maps each to its cell type. |
| Observations.ReadEntry | patient.py:166-171 | An empty `coding` list raises. A missing key skips the entry. Otherwise the reading carries the entry's code, value, unit and time. |
| Observations.Record | patient.py:174-175 | Only known codes are stored. A code's entry is replaced exactly when it is absent or strictly older. Every other code is untouched. |
| Observations.ScanIsRecordReadings | patient.py:162-175 | Scanning a page raises exactly when some entry has an empty `coding`. Otherwise it records the page's complete readings in order. |
| Observations.LatestReadingWins | patient.py:174-175 | A reading is what remains stored for its code when it is newer than what was stored, newer than every earlier reading of that code, and not older than any later one. |
| Observations.RecordAllNeverOlder | patient.py:174-175 | A stored code never goes back to an older time. |
| Observations.FollowLinksResult | patient.py:179-181 | The link loop raises a KeyError exactly when some link has no `relation`, or is a `next` link without `url`. Otherwise it ends with the last `next` link's `url`, or with the URL it started from when there is none. |
| Observations.NextUrl | patient.py:178-181 | The loop raises a KeyError exactly when some link lacks `relation`, or is a `next` link lacking `url`. Otherwise there is no next URL exactly when no link has relation `next`, and the URL is that of the last such link. |
| Observations.ScanPage | patient.py:159-180 | A missing `entry` raises a TypeError. A missing `link`, or a broken link, raises a KeyError. On success, the page's readings are recorded and the last `next` link is followed. Only LOINC codes are kept. |
| Observations.Crawl | patient.py:158-180 | The walk keeps one entry per code, only for the three LOINC codes, and never loses a code. |
| Observations.CrawlNeverOlder | patient.py:158-180 | Across the walk, no code's stored time ever moves backward. |
| Observations.LoincKeysAtMostThree | patient.py:158 | At most three codes are stored. Exactly three are stored exactly when all three LOINC codes are present, which is the loop's stopping test. |
| Observations.ByCellType | patient.py:182-183 | Every stored code's value appears under its cell type. Every cell type present comes from a stored code. |
| Observations.LabObservations | patient.py:153-184 | Every key of the result is one of the three cell types. |
| Umls.FirstAccepted | apis.py:30 | The filter followed by `[0]`: the first candidate that is not TCGA, OMFAQ or MPN-SAF, or none when all are excluded. |
| Umls.GetCrosswalk | apis.py:38-47 | A status other than 200 gives `(None, None)`. With status 200 the call raises exactly when there is no `result` or no candidate is accepted. Otherwise it returns the first accepted candidate's `ui` and `name`. |
| Umls.MatchOf | apis.py:57-62 | There is a match exactly when both the code and the description are non-empty strings. The match carries them. |
| Umls.YieldMatches | apis.py:55-62 | Items follow the completion order, one per finished lookup, each the match of that lookup. The stream stops at the first lookup that raised, and it is complete exactly when none did. |
| Umls.GetMatches | apis.py:49-53 | A condition without `codeset` or `description` raises a KeyError before anything is yielded. |
| Umls.GetMatchesOncePerCode | apis.py:49-62 | A complete stream yields every condition code exactly once. |
| Umls.MatchMeansAcceptedCandidate | apis.py:38-62 | Every yielded match is an accepted candidate of a status-200 response for that code. |
| Nci.Range | apis.py:108 | `range(start, stop, 50)`: the elements step by 50 from `start`, all below `stop`, and the last one is within 50 of `stop`. |
| Nci.PagesCoverTotal | apis.py:100-110 | For a total of at least 1, the page starts 1, 51, 101, … reach the total. The last start s satisfies s <= total < s + 50. There are ceil(total / 50) pages. |
| Nci.TrialsPageQuery | apis.py:79-87 | The query asks for 50 trials, the requested disease codes, and the patient's gender or `BOTH`. |
| Nci.PageQueryReadsBack | apis.py:81-86 | The offset and both age bounds are sent as decimal text that reads back as the given numbers. |
| Nci.AddDiseaseList | apis.py:89-93 | A trial without diseases raises. The tag is the requested codes that the trial lists as diseases. The call raises exactly when that set is empty and the trial has no `nci_id`. |
| Nci.TagAllAppend | apis.py:102-116 | Tagging two trial lists one after the other tags their concatenation. |
| Nci.YieldPage | apis.py:102-104 | The yielded items are the page's trials in order, each tagged. The page completes exactly when every trial can be tagged. |
| Nci.YieldPageTaggedRight | apis.py:89-104 | Every item a page yields carries a disease list, and its tag is exactly the requested codes among that trial's disease concept ids. |
| Nci.LaterPagesTagged | apis.py:89-116 | Every item the `iwait` loop yields is tagged with exactly the requested codes among its trial's disease concept ids. |
| Nci.GetTrialsTagged | apis.py:89-116 | Every yielded trial is tagged with exactly the requested codes among its disease concept ids, and so with a subset of the requested codes. |
| Nci.LaterPagesAllPages | apis.py:110-116 | A later-page loop that ends cleanly had every request succeed with a `trials` list. It yielded exactly the trials of those pages, in completion order, each tagged. |
| Nci.GetTrialsComplete | apis.py:95-116 | Every request is the page query built for the search. A stream that ends cleanly had a first response with `trials` and `total`. It yielded exactly the first page's trials, then, when `total` exceeds 50, every later page's trials in completion order, each tagged. The pages requested are exactly 1, 51, 101, … up to the total. |

## Left out

- I/O is not modelled. This covers HTTP (`get_api`, `Api._get`), reading files, `load_conditions`, the other patient loaders, and FHIR/CMS authentication (`authenticate_cms.py`). Services are function parameters.
- The regular-expression engine for the `find_conditions` pattern and the JSONPath and JMESPath engines are not modelled. `find_conditions`' pattern is a `findall` parameter, assumed only to report a cell type as its group where `Extraction.ConditionKeysAreCellTypes` says so. The `convert_expressions` pattern and the JSONPath query `$.eligibility.unstructured[?inclusion_indicator=true].description` of patient.py:299 (`Extraction.InclusionDescriptions`) are written out by hand. The JMESPath query `diseases[*].nci_thesaurus_concept_id` of apis.py:70 is `Nci.ConceptIds`.
- `Text.Lower` and `\d` are ASCII only, and `\s` is read as under `re.ASCII` (space, `\t`, `\n`, `\r`, `\v`, `\f`). The pattern has no flags, so Python also counts `\x1c`–`\x1f` and non-ASCII blanks as `\s`; those, non-ASCII case mapping and Unicode digits are not modelled.
- `Expressions.Evaluate`: the lab number is a Python `int` or `float`, read as a real. `str(float)` formatting is not modelled, and neither are `inf`, `nan` or exponent notation in `str(value)`. The `OverflowError` or `MemoryError` of huge shift counts is not modelled. Operator runs are modelled as Python's tokenizer reads them; `<>`, `=<` and longer runs are syntax errors.
- `Filtering.FilterByInclusionCriteria`: the contract on the function itself is structural only. What the lists contain is stated by `Filtering.FilterByInclusionCriteriaFiles` and `Filtering.FilterByInclusionCriteriaFails`.
- Filtering: the source re-runs the merge after spawning each trial set's tasks, over all tasks so far. Only the last merge's result is returned, so the model performs that one merge over all tasks.
- `Trial.filter_condition` is a mutable attribute that the source resets and appends to. The model returns the records beside the trial (`Evaluated`) instead of mutating it.
- Observations: an entry without a `resource` key, a `valueQuantity` whose `value` is JSON `null`, and JSON shapes other than objects and lists are not modelled.
- `Observations.Crawl` follows at most `fuel` pages. A server whose `next` links never end is not modelled. When the fuel runs out, the walk stops as if there were no next link.
- `Observations.LabObservations`: the contract states only the keys. The values are stated per code by `Observations.ByCellType` and the recording lemmas.
- `Umls.GetMatches`: the contract on the function itself covers only the case of a condition without `codeset` or `description`. The items are stated by `Umls.YieldMatches`, `Umls.GetMatchesOncePerCode` and `Umls.MatchMeansAcceptedCandidate`.
- Logging, the UMLS ticket handling (`getst`, `gettgt`), Flask's `g` and `app.config` are not modelled.
- `Chunking.Split` requires `limit > 0`. The source only ever passes 19999 or 10.

## Where the code differs from its description

- A lab result whose value prints as `0` fails every condition on its cell type. This happens because `convert_expressions` uses `"0"` as its no-fragment sentinel. A condition without an operator-and-number fragment also fails, and does not pass.
- A trial set with no trials still spawns one task and still gets an entry with two empty lists.
- In `find_conditions`, a regular expression that finds only some of the three cell types sends the trial to the entity service. Only the full set of three is used directly.
- Keys produced by the entity service keep the entity's original case. A key such as `Hemoglobin` therefore never finds a lab result, and its condition passes.
- The chunker concatenates descriptions with no separator. A description longer than the limit is yielded, split, before the text accumulated so far.
- `get_crosswalk` raises when a status-200 response has no acceptable candidate, rather than returning `(None, None)`. In `get_matches`, that exception ends the stream.
