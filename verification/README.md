# Contract comparison and obligation extraction, modelled in Dafny

This project models two parts of a legal-document assistant's backend and proves properties of
them.

- **Clause alignment** (`backend/comparison_router.py`).
  - A document's text is split into clauses at blank-line runs (`re.split(r'\n\s*\n+')`). Each
    piece is stripped, and pieces of ten characters or fewer are dropped.
  - Every revised clause takes the original clause that its row of the cosine-similarity matrix
    scores highest. A tie goes to the first such original, as numpy's `argmax` does.
  - When the best score reaches the threshold (0.75), the two clauses become a matched pair and
    that original is consumed. Otherwise the revised clause is reported as added. Originals never
    consumed are reported as deleted.
  - Matched pairs whose stripped texts differ are sent to a generative model. Each reply is cut
    from its first `{` to its last `}` and decoded; when that fails, a `Neutral` placeholder is
    used.
  - The report lists the additions, the deletions and the analysed changes, with their counts.
  - The request is refused with 400 when a name does not end in `.pdf`, when text extraction
    fails, or when a document has no clause. It is refused with 500 when embedding fails.
- **Rule-based obligation extraction** (`backend/obligation_tracker.py`).
  - The text is split into sentences at `[.!?]\s+`.
  - Every stripped sentence that has at least twenty characters and an obligation keyword
    becomes an obligation record. The record holds a cleaned action text, the responsible
    party, a priority, a type, the context and a section label.
  - The records can then be turned into calendar events, which are sorted by date with Python's
    stable sort, and into summary counts.

Modules, one per file:

- `Base` (`base.dfy`): `Option`, `Result`, and the positions of a list that pass a test.
- `Text` (`text.dfy`): Python's `str.isspace`, `strip`, `lower`, the substring test `in`,
  `s[:n]`, `str(n)` and string ordering.
- `RegexSplit` (`regex_split.dfy`): `re.split` for the two delimiter patterns. It is a leftmost,
  non-overlapping scan, proved equal to the unique tiling of the text by pieces and matches.
- `ClauseSegmenter`, `SemanticMatcher`, `ChangeAnalysis` and `DocumentComparison`: the
  comparison router.
- `ActionText`, `ObligationRules`, `Obligations`, `Timeline` and `Summary`: the obligation
  tracker.
- `StableSort` (`stable_sort.dfy`): Python's stable `list.sort(key=...)` over string keys,
  which the timeline uses with the event's date as the key.

Where the source changes state step by step, the model is a method with a loop. It is proved
equal to a function of its inputs, and the lemmas state what that function guarantees. This
covers:

- the cleaning loop of the segmenter;
- the matcher's loop;
- the changed-pair loop and the in-place write of the analyses;
- the sentence loop of the rule-based extractor;
- the event loop and the in-place sort of the timeline;
- the dictionary-filling loops of the summary.

The sort works on an `array`, by insertion. It is generic over the element type and takes the
key as a function.

Whatever the code reads from outside is a parameter:

- the similarity of two clauses;
- the model's reply, or the exception it raised;
- whether `json.loads` accepts a string;
- the outcome of each gathered task;
- the deadline patterns, `hash()` and the consequence patterns of the extractor;
- the clock and `strftime`.

Two behaviours of the code are proved that a reader might not expect:

- The matching is many-to-one. Two revised clauses may both take the same original, which is
  then not deleted (`SemanticMatcher.ManyToOne`).
- Comparing a document with itself can still report a deletion. When a clause occurs twice,
  `argmax` sends both revised copies to the first original copy, and the second original copy
  is reported deleted (`SemanticMatcher.RepeatedClauseReportedDeleted`). Without repeated
  clauses, so that each row peaks first at its own position, a self-comparison reports nothing
  (`DocumentComparison.SelfComparison`).

The type rules have two quirks, both proved:

- `"notify"` is a REPORTING keyword before it is a NOTIFICATION keyword, so no sentence saying
  "notify" is typed NOTIFICATION.
- `"end"` is a TERMINATION keyword and occurs inside `"vendor"`.

## Model

| member | source | states |
|---|---|---|
| RegexSplit.SplitTiles | backend/comparison_router.py:94 | re.split's scan yields pieces that cover the text; each gap between consecutive pieces is a delimiter match, and no match starts inside a piece |
| RegexSplit.TilesUnique | backend/comparison_router.py:94 | only one split has those properties, so the tiling characterises re.split's result |
| RegexSplit.ParagraphPiecesUnbroken | backend/comparison_router.py:94 | no piece of the paragraph split holds a blank line (two newlines with only whitespace between them) |
| RegexSplit.ParagraphSplitKeepsText | backend/comparison_router.py:94 | the paragraph split drops only whitespace: the non-space characters of the pieces, in order, are those of the text |
| RegexSplit.SentencePiecesUnbroken | backend/obligation_tracker.py:227 | no piece of the sentence split holds a `.`, `!` or `?` directly followed by whitespace |
| ClauseSegmenter.SegmentIntoClauses | backend/comparison_router.py:83-103 | the loop returns the stripped paragraphs longer than ten characters; each clause is trimmed, longer than ten characters and free of blank lines |
| ClauseSegmenter.KeptIndicesSpec | backend/comparison_router.py:96-103 | the k-th clause is the stripped paragraph at the k-th kept position; positions increase; a position is kept exactly when its stripped paragraph exceeds ten characters |
| ClauseSegmenter.KeptClausesShape | backend/comparison_router.py:98-101 | every kept clause is trimmed and longer than ten characters |
| ClauseSegmenter.NoClausesIff | backend/comparison_router.py:96-103 | no clause is returned exactly when every paragraph is ten characters or fewer once stripped |
| ClauseSegmenter.KeptClausesUnbroken | backend/comparison_router.py:94-101 | a clause cut from a paragraph without a blank line has none either |
| SemanticMatcher.ArgMax | backend/comparison_router.py:178-180 | argmax returns the first position where the row attains its maximum |
| SemanticMatcher.FindSemanticMatches | backend/comparison_router.py:171-206 | the loop over revised clauses computes the matched pairs, added clauses and deleted clauses of the reference definition |
| SemanticMatcher.MatchedPairsSound | backend/comparison_router.py:176-191 | each pair joins a revised clause with the first original its row scores highest, with that score at or above the threshold; pairs follow revised order |
| SemanticMatcher.AddedClausesSound | backend/comparison_router.py:192-194 | each added clause is a revised clause whose every score is below the threshold; added clauses follow revised order |
| SemanticMatcher.RevisedPartition | backend/comparison_router.py:176-194 | every revised clause is matched or added and not both; matched plus added equals the number of revised clauses |
| SemanticMatcher.DeletedClausesSound | backend/comparison_router.py:196-200 | the deleted clauses are, in ascending index order, exactly the originals that no matched pair names |
| SemanticMatcher.ThresholdMonotone | backend/comparison_router.py:182-194 | a higher threshold consumes no more originals, matches no more and adds no fewer clauses |
| SemanticMatcher.DeletedMonotone | backend/comparison_router.py:196-200 | fewer consumed originals leave at least the same deletions |
| SemanticMatcher.Diagonal | backend/comparison_router.py:176-200 | when each row peaks first at its own position at or above the threshold, clause k matches clause k and nothing is added or deleted |
| SemanticMatcher.ManyToOne | backend/comparison_router.py:184-191 | two revised clauses above the threshold against one original are both matched to it, and it is not deleted |
| SemanticMatcher.RepeatedClauseReportedDeleted | backend/comparison_router.py:178-200 | a clause repeated in both documents: both revised copies take the first original copy, and the second original copy is deleted |
| ChangeAnalysis.FindFirst | backend/comparison_router.py:241 | str.find: the position of the first occurrence of the character |
| ChangeAnalysis.FindLast | backend/comparison_router.py:242 | str.rfind: the position of the last occurrence of the character |
| ChangeAnalysis.DecodedIsBraced | backend/comparison_router.py:238-244 | a decoded analysis is the stripped reply's text from its first `{` through its last `}`, and the decoder accepted it |
| ChangeAnalysis.BracedIsDecoded | backend/comparison_router.py:240-244 | conversely, such a span that the decoder accepts is what is returned |
| ChangeAnalysis.BracedAtIsFirstLast | backend/comparison_router.py:241-242 | the positions named by the span are those find and rfind return |
| ChangeAnalysis.FallbacksNeutral | backend/comparison_router.py:245-266 | every analysis that was not decoded is classified Neutral, with one of the two fallback summaries |
| ChangeAnalysis.PlainReplyKept | backend/comparison_router.py:245-251 | a stripped reply lacking a `{` or a `}` becomes the implication, stripped, and loses only whitespace |
| ChangeAnalysis.BracelessReplyKept | backend/comparison_router.py:245-251 | in particular a reply with no `{` at all becomes the stripped implication |
| ChangeAnalysis.UndecodableReplyKeptRaw | backend/comparison_router.py:252-258 | a braced reply that does not decode (even with `}` before `{`) is kept unstripped as the implication |
| ChangeAnalysis.FailureReported | backend/comparison_router.py:260-266 | a failed call reports "Analysis failed" with the error message after a fixed prefix |
| DocumentComparison.PdfNameIff | backend/comparison_router.py:285-288 | a name passes exactly when it ends in a dot and p, d, f in either case |
| DocumentComparison.Rejection | backend/comparison_router.py:284-302 | no refusal exactly when both uploads are admissible; every such refusal is a 400 |
| DocumentComparison.SelectChanged | backend/comparison_router.py:318-324 | the loop collects the matched pairs whose stripped texts differ, in order |
| DocumentComparison.ChangedPairsSpec | backend/comparison_router.py:318-324 | the changes are the matched pairs whose stripped texts differ, one each, in matched-pair order: the k-th change is the pair at the k-th of a strictly increasing list of positions, and a position is listed exactly when its pair changed; never more changes than pairs |
| DocumentComparison.CombineAnalyses | backend/comparison_router.py:326-340 | the k-th changed pair receives the k-th task's analysis; a raised task gets "Analysis failed"; no slot keeps the "No changes detected" default |
| DocumentComparison.AnalysisNeverDefault | backend/comparison_router.py:331-354 | no task outcome produces the report's "No changes detected" default |
| DocumentComparison.BuildReport | backend/comparison_router.py:308-365 | steps 4 to 6 compute the report of the reference definition |
| DocumentComparison.CompareDocuments | backend/comparison_router.py:268-377 | the endpoint computes the answer of the reference definition |
| DocumentComparison.SucceedsIff | backend/comparison_router.py:284-306 | success exactly when both names are .pdf, both extractions succeed, both hold a clause and embedding succeeds; a 500 exactly when only embedding failed, carrying its message; otherwise a 400 |
| DocumentComparison.ReportCounts | backend/comparison_router.py:343-365 | the summary counts are the lengths of the lists; changes plus additions never exceed the revised clauses; deletions never exceed the original clauses |
| DocumentComparison.ChangesAreAnalysedChanges | backend/comparison_router.py:318-354 | every reported change has differing stripped texts and carries its own task's analysis, never the default |
| DocumentComparison.SelfComparison | backend/comparison_router.py:308-365 | a document compared with itself, each row peaking first at its own position above the threshold, reports no change, addition or deletion |
| DocumentComparison.NoneChanged | backend/comparison_router.py:318-324 | pairs with identical texts are never sent for analysis |
| ActionText.CollapseSingleSpaced | backend/obligation_tracker.py:356 | `' '.join(text.split())` separates words with exactly one space and has no space at either end |
| ActionText.CollapseKeepsText | backend/obligation_tracker.py:356 | collapsing whitespace keeps every non-space character, in order |
| ActionText.CollapseIdempotent | backend/obligation_tracker.py:356 | collapsing collapsed text changes nothing |
| ActionText.CleanActionTextLength | backend/obligation_tracker.py:358-362 | the action has at most 150 characters; it is the collapsed text exactly when that fits, and otherwise its first 147 characters followed by `...` |
| ActionText.CleanActionTextSingleSpaced | backend/obligation_tracker.py:351-362 | the cleaned action is single-spaced |
| ActionText.CleanActionTextKeepsText | backend/obligation_tracker.py:351-362 | a cleaned action that was not cut keeps every non-space character of the sentence |
| ActionText.CleanActionTextIdempotent | backend/obligation_tracker.py:351-362 | cleaning an already cleaned action, cut or not, changes nothing |
| ObligationRules.FirstContained | backend/obligation_tracker.py:376-378 | the position of the first keyword of the list that occurs in the text |
| ObligationRules.ExtractPartySpec | backend/obligation_tracker.py:364-380 | the party is the first name in list order (not sentence order) occurring in the lower-cased sentence, title-cased, or "Party" when none occurs |
| ObligationRules.DefaultPartyIff | backend/obligation_tracker.py:376-380 | "Party" is returned exactly when no party name occurs |
| ObligationRules.LowerTitle | backend/obligation_tracker.py:378 | title-casing a lower-case name upper-cases its first letter only, and lower-casing gives the name back |
| ObligationRules.PriorityPrecedence | backend/obligation_tracker.py:382-399 | a critical keyword gives CRITICAL whatever else occurs; HIGH needs a high keyword and no critical one; MEDIUM needs neither; LOW needs no keyword at all |
| ObligationRules.PriorityMonotone | backend/obligation_tracker.py:382-399 | adding text around a sentence never lowers its priority |
| ObligationRules.MustIsHighPriority | backend/obligation_tracker.py:389-394 | a sentence saying "must" is at least HIGH |
| ObligationRules.FirstListContained | backend/obligation_tracker.py:417-419 | the position of the first keyword list that has a keyword in the text |
| ObligationRules.InferTypeSpec | backend/obligation_tracker.py:401-421 | the type is the first type, in the dictionary's order, with a keyword in the sentence, or GENERAL |
| ObligationRules.NotifyIsNotNotification | backend/obligation_tracker.py:410-414 | a sentence saying "notify" is never NOTIFICATION |
| ObligationRules.VendorIsTermination | backend/obligation_tracker.py:408-411 | a sentence naming the vendor is PAYMENT, DELIVERY, REPORTING or TERMINATION, because "end" occurs in "vendor" |
| ObligationRules.PriorityWeightOrder | backend/obligation_tracker.py:443-453 | the weights are critical 4, high 3, medium 2, low 1; every priority weighs more than 0; weights order the priorities most urgent first; equal weights mean equal priorities |
| ObligationRules.UnknownPriorityWeightless | backend/obligation_tracker.py:452 | a string that is no priority's value weighs 0 |
| Obligations.ContextSentences | backend/obligation_tracker.py:250 | `sentences[idx:idx+3]` holds one to three pieces and starts with the sentence itself |
| Obligations.ExtractWithRules | backend/obligation_tracker.py:220-260 | the sentence loop returns the obligations of the reference definition |
| Obligations.ObligationsSpec | backend/obligation_tracker.py:227-257 | the k-th obligation comes from the k-th selected sentence; positions increase; a sentence is selected exactly when, stripped, it has at least 20 characters and an obligation keyword |
| Obligations.SkippedSentences | backend/obligation_tracker.py:230-236 | a stripped sentence shorter than 20 characters, or one without any keyword, yields no obligation |
| Obligations.ObligationAtWellFormed | backend/obligation_tracker.py:240-253 | a recorded obligation has a single-spaced action of at most 150 characters, a 20-to-200-character context that does not start with whitespace, a positively weighted priority, an enum type, and the id and section prefixes |
| Obligations.ObligationsWellFormed | backend/obligation_tracker.py:229-257 | every extracted obligation has that shape |
| Obligations.MustSentenceIsHighPriority | backend/obligation_tracker.py:236-248 | a long enough sentence saying "must" is extracted, with priority weight at least 3 |
| Timeline.GenerateTimelineEvents | backend/obligation_tracker.py:455-482 | the loop and the in-place sort return the scheduled obligations' events, sorted by the reference insertion sort |
| StableSort.SortInPlace | backend/obligation_tracker.py:480 | the in-place insertion sort leaves the array equal to the reference sort of its old contents |
| StableSort.InsertAt | backend/obligation_tracker.py:480 | one insertion step puts a[i] after the last earlier element whose key is not greater, and leaves the rest of the array alone |
| StableSort.SortByKeySpec | backend/obligation_tracker.py:480 | the reference sort is ascending by key string and a permutation of its input |
| StableSort.SortByKeyStable | backend/obligation_tracker.py:480 | the reference sort is stable: elements sharing a key keep their order |
| Timeline.ScheduledEventsMembers | backend/obligation_tracker.py:460-477 | an event is collected exactly when it is the event of an obligation whose deadline type is not "none" |
| Timeline.ScheduledEventsCount | backend/obligation_tracker.py:460-477 | one event per scheduled obligation, so never more events than obligations |
| Timeline.TimelineSpec | backend/obligation_tracker.py:455-482 | the timeline holds exactly the events of the scheduled obligations, in ascending date order and stably; titles are at most 80 and descriptions at most 200 characters |
| Timeline.UnscheduledLeftOut | backend/obligation_tracker.py:461-463 | obligations that all have deadline type "none" give an empty timeline |
| Summary.GenerateSummary | backend/obligation_tracker.py:496-536 | an empty list gives total 0 and empty maps; otherwise the total is the length, each dictionary maps every enum value to its count, and the upcoming count is that of the reference definition |
| Summary.TallyEntries | backend/obligation_tracker.py:508-518 | each dictionary's keys are exactly the enum's values, each mapped to the number of obligations carrying it |
| Summary.SummaryBounded | backend/obligation_tracker.py:508-518 | every priority and type count is at most the total |
| Summary.CountKeyBounded | backend/obligation_tracker.py:509-518 | a count is at most the number of obligations, and 0 exactly when no obligation carries the value |
| Summary.CountsPartition | backend/obligation_tracker.py:508-518 | when every key is one of a list of distinct values, the counts of those values add up to the total |
| Summary.SummaryPartitions | backend/obligation_tracker.py:508-518 | for rule-extracted obligations, the priority counts and the type counts each add up to the total |
| Summary.UpcomingBounded | backend/obligation_tracker.py:522-529 | the upcoming count is at most the total, and 0 exactly when no obligation is due within thirty days |
| Summary.LatestNeverUpcoming | backend/obligation_tracker.py:526-528 | an obligation whose sort key is datetime.max is never upcoming |

## Left out

- PDF text extraction (PyMuPDF). An upload is given as its name and either the extracted text
  or the error message.
- Vertex AI embeddings and the cosine-similarity computation (floating point through numpy and
  sklearn). The similarity of revised clause r and original clause o is a parameter, and
  embedding failure is an optional error message.
- The generative model call, the prompt text and the lazy model singletons. The reply, or the
  exception it raised, is a parameter.
- `json.loads`: whether a string decodes is a parameter, and a decoded analysis is kept as the
  decoded slice, not as the parsed object.
- `asyncio.gather`: only its positional result is modelled, as a function from a task's position
  to its outcome.
- The catch-all 500 "Document comparison failed" of compare_documents. Once the earlier checks
  pass, no modelled step raises.
- The authentication dependency of the endpoint.
- `_extract_deadline_from_sentence`, `_parse_deadline_for_sort` and `_parse_date_string`: the date
  patterns are a parameter that returns the deadline, its type, its value and its sort key.
- `_extract_consequences`: a parameter over the sentence and its context pieces.
- Python's `hash()` of the sentence prefix, which is randomised per process: a parameter.
- `datetime.now()` and `strftime('%Y-%m-%d')`: the current instant and the formatting of an
  instant are parameters. Instants are integers counted in seconds.
- The AI extraction path `_extract_with_ai`, and the orchestration in `extract_obligations`:
  the sort by priority weight and deadline, and the result dictionary with its timestamp.
- Missing dictionary keys. Every record holds every field, so the `.get` defaults in the
  timeline (`'general'`, `'low'`, `'Unknown'`, `''`, `'Not specified'`, `'9999-12-31'`) never apply.
- `lower()` and `title()` map ASCII letters only. Every keyword tested is ASCII, but a non-ASCII
  upper-case letter is not lower-cased here.
- Summary.GenerateSummary: the `by_priority` and `by_type` dictionaries are `map`s, so the key
  order of the Python dicts (enum declaration order, visible in the JSON output) is not kept.
  The names are still visited in that order, and the `Tally` function records it.
- Logging.
