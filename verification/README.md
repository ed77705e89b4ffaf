# Dafny model of the Omni router and its benchmark metrics

The project models the parts of the repository whose results are hard to see from one body,
and proves what they compute or keep. Four components:

1. **Diarization scoring.** `Segments`, `DiarizationSweep`, `DiarizationMapping`,
   `DiarizationResults` and `DiarizationLimits` parse timestamped speaker tokens, choose the hypothesis-to-reference
   speaker mapping and sweep the elementary intervals. `Levenshtein`, `CharacterErrors` and
   `CpCerReports` are the edit distance and the permutation-minimal character error rate (cpCER). The assignment solver is
   any function with the contract `Assignment.Solves` (some cheapest assignment of size
   min(rows, columns)); every theorem holds for whichever optimum it returns.
2. **Large-JSON metadata.** `JsonText` and `JsonGrammar` define the relaxed grammar of
   RFC 8259 as trees; `JsonScanner` is the recursive-descent skipper, proved to decide the
   grammar exactly. `JsonStandard` builds numbers, string literals and UTF-8 from their parts,
   and `JsonFullParse` and `JsonLanguage` say in these terms which texts are accepted and how what
   is read compares with a full parse. `LargeRequests` is
   the capability inference and the pre-check that compensates for what the scanner cannot see.
3. **Router state.** `RouterWorker` (counters and health), `WorkerSelection` (the two
   deterministic policies), and two step systems in which one step is the code between two
   awaits: `DataPlane` (any number of interleaved requests) and `AdminBroadcast` (any number
   of admin broadcasts, with routing, health changes and pool changes in between;
   `BroadcastSelection` ties the routing to the selector).
4. **Load generator and stream framing.** `LoadGenerator` (scheduled and closed-loop
   stages, for every timing of completions) and `StreamFraming` (the line reader and the
   HTTP-chunk regrouper, for every way the network cuts the bytes).

Code that updates state is modelled by methods and classes that update it in the same order;
each is proved against a specification that does not name its body, and the main results are
lemmas about that specification. Times are integers: a transcript's decimal timestamps are
whole numbers of some power-of-ten tick, and a tick stands for a half-open interval.

Several natural statements are false of the code. Each has an input that shows it and a
theorem that says exactly when the code does meet it:

- The scanner keeps the last *usable* value of a repeated metadata key, a full parse the last
  value (`JsonFullParse.RepeatedKeyDisagrees`); they agree if and only if the last value of each key
  decides. And of the UTF-8 texts without a byte-order mark that the full parser accepts, the
  scanner accepts those, and only those, in which each number token has at most 128 bytes, its
  128-byte window decodes and the values nest within the recursion limit
  (`JsonFullParse.ScannerAgreesIff`). A body that the full parser would read as UTF-16, UTF-32 or
  UTF-8 with a byte-order mark is always refused (`JsonFullParse.OtherEncodingsAreRefused`).
- A probe that is already waiting can bring a dead worker back: `RouterWorker.RevivesIff`. Clearing
  also resets the failure count of a worker that was not dead, so "fewer failures than the
  threshold since the last good probe" is not what health means:
  `RouterWorker.ClearForgetsFailures`, `RouterWorker.HealthyIff`.
- A worker without a model name can be passed over by the large-body path although the
  small-body path would select it (`LargeRequests.UnnamedWorkerIsPassedOver`), and so can a worker
  that does not name the header's model, which the small-body path ignores
  (`LargeRequests.HeaderModelNarrows`). Exactly when the large-body path serves the payload:
  `LargeRequests.LargeBodyServesIff`, and `LargeRequests.SameModelServesIff` when both paths ask for
  the same model.
- Four things each leave a worker count raised for ever (`DataPlane.CountsAtRest`): a send that is
  aborted by anything but `httpx.HTTPError`; a header value that is not Latin-1, on which the
  constructor of the relayed response raises, and a `request_id` in the body is enough for that
  (`DataPlane.RequestIdLeaksIff`); a close that raises while headers are built; and a response that
  is collected without being called. The workers can be made to carry more than the bound if and
  only if some request lost its slot and still counts: `DataPlane.OverloadIff`, with a run in
  `DataPlane.FinalizerOverloads`.
- An operator's write to `disabled` during an update broadcast can expose a target
  (`AdminBroadcast.PutHeldExposes`), exactly when it is the last since the disable and writes false
  (`AdminBroadcast.HeldIsSelectedIff`), and the restore always loses it
  (`AdminBroadcast.RestoreForgetsWrites`).
- The best mapping need not report the least confusion: the overlap matrix counts a speaker's own
  overlapping segments twice, and counts time inside the collar
  (`DiarizationLimits.SelfOverlapMisleads`, `DiarizationLimits.CollarMisleads`). Of two mappings the
  one that agrees longer outside the collar reports less: `DiarizationResults.LessConfusionIff`.
  Without self-overlap and collar this is the overlap: `DiarizationResults.ConfusionIsLeast`. A
  perfect score needs neither hypothesis: `DiarizationResults.SelfScoreIsZero`.

## Model

| member | source | states |
|---|---|---|
| Segments.ParseTimestampedSpeakerSegments | benchmarks/metrics/transcribe_diarize_metrics.py:741-765 | the index loop returns the segments of the declarative reading of the token list: times in pairs, each with the last tag between them or the previous kept speaker |
| Segments.ParsedPositive | benchmarks/metrics/transcribe_diarize_metrics.py:759-763 | on any token list every parsed segment ends after it starts |
| Segments.ParsedIff | benchmarks/metrics/transcribe_diarize_metrics.py:741-765 | a list is the parse of the tokens exactly when the tokens are pairs of times that stand for it, plus a remainder: tags before a start count for nothing, the last tag between two times decides, a pair without one inherits the speaker of the segment before, and an empty, reversed or speakerless pair adds nothing and leaves that speaker alone |
| Segments.TakenApart | benchmarks/metrics/transcribe_diarize_metrics.py:741-765 | every list of tokens is made up so |
| Segments.RoundTrip | benchmarks/metrics/transcribe_diarize_metrics.py:741-765 | printing any list of positive segments, leaving out any repeated speakers, and parsing the tokens gives the list back |
| Segments.OverlapIsInnerProduct | benchmarks/metrics/transcribe_diarize_metrics.py:886-905 | an entry of the overlap matrix is the inner product over time of how many of each speaker's segments are active, so self-overlap counts twice |
| Segments.CountActive | benchmarks/metrics/transcribe_diarize_metrics.py:945-954 | a speaker is active at a tick, and passes the interval test on the unit interval from it, exactly when one of its segments contains the tick |
| DiarizationSweep.MergeIntervals | benchmarks/metrics/transcribe_diarize_metrics.py:926-935 | the merged intervals have the same union as the input, are sorted and do not touch |
| DiarizationSweep.ReferenceCollarRegions | benchmarks/metrics/transcribe_diarize_metrics.py:913-923 | the regions cover exactly the ticks near a reference boundary |
| DiarizationResults.CollarIff | benchmarks/metrics/transcribe_diarize_metrics.py:908-923 | a tick is unscored exactly when it is not negative and its middle is nearer than the collar to a start or end of a reference segment, on either side |
| DiarizationSweep.ElementaryConstant | benchmarks/metrics/transcribe_diarize_metrics.py:831-839 | the active sets and collar membership are constant on each elementary interval |
| DiarizationSweep.Sweep | benchmarks/metrics/transcribe_diarize_metrics.py:818-868 | each reported number is the sum over all ticks of its per-tick definition, for any mapping and collar |
| DiarizationMapping.OverlapMatrix | benchmarks/metrics/transcribe_diarize_metrics.py:883-893 | every entry of the matrix filled in place is the summed overlap of its two speakers |
| DiarizationMapping.MappingOfPairs | benchmarks/metrics/transcribe_diarize_metrics.py:895-898 | the dictionary maps the label of each chosen column to the label of its row |
| DiarizationMapping.BestHypToRefMapping | benchmarks/metrics/transcribe_diarize_metrics.py:871-898 | the mapping is injective, has the size of the smaller side and collects the greatest overlap of all such mappings |
| DiarizationMapping.TimestampDerOne | benchmarks/metrics/transcribe_diarize_metrics.py:808-868 | from tokens to numbers: the tick sums under some best mapping |
| DiarizationResults.Conservation | benchmarks/metrics/transcribe_diarize_metrics.py:846-860 | reference time minus hypothesis time is missed minus false alarm; missed plus confusion never exceeds the reference time |
| DiarizationResults.RateIsUnmatchedTime | benchmarks/metrics/transcribe_diarize_metrics.py:861-864 | the three errors together are the speaker time of the larger side without a mapped partner, and the rate is that time divided by the reference time, absent exactly without reference time |
| DiarizationResults.TotalIsSpeakerTime | benchmarks/metrics/transcribe_diarize_metrics.py:831-846 | the total is the sum over speakers of the measure of the union of their segments outside the collar |
| DiarizationResults.ConfusionIsSharedMinusOverlap | benchmarks/metrics/transcribe_diarize_metrics.py:842-860 | without self-overlap and collar, confusion is shared speaker time minus the overlap the mapping collects |
| DiarizationResults.ConfusionIsSharedMinusAgreed | benchmarks/metrics/transcribe_diarize_metrics.py:831-860 | for any matching, overlaps and collar, confusion is shared scored time minus the time the mapped pairs speak together outside the collar |
| DiarizationResults.LessConfusionIff | benchmarks/metrics/transcribe_diarize_metrics.py:842-860 | of any two matchings one reports no more confusion than the other if and only if it agrees at least as long |
| DiarizationResults.BestAmongPartial | benchmarks/metrics/transcribe_diarize_metrics.py:894-898 | a best full mapping is also best among all partial injective mappings |
| DiarizationResults.ConfusionIsLeast | benchmarks/metrics/transcribe_diarize_metrics.py:831-898 | without self-overlap and collar, the reported confusion is the least over all partial injective mappings and does not depend on how the solver breaks ties |
| DiarizationLimits.SelfOverlapMisleads | benchmarks/metrics/transcribe_diarize_metrics.py:886-893 | an input with self-overlap where the best mapping reports 8 and the other 6 |
| DiarizationLimits.CollarMisleads | benchmarks/metrics/transcribe_diarize_metrics.py:836-837 | an input with collar 2 where the best mapping reports 1 and the other 0 |
| DiarizationResults.EqualCounts | benchmarks/metrics/transcribe_diarize_metrics.py:886-898 | equality in Cauchy-Schwarz: a permutation collecting as much as the identity joins only speakers with equal counts at every tick |
| DiarizationResults.SelfScoreIsZero | benchmarks/metrics/transcribe_diarize_metrics.py:808-898 | a transcript against itself with speakers renamed scores no false alarm, miss or confusion, for any overlaps, collar and optimum |
| Levenshtein.LevenshteinDistance | benchmarks/metrics/transcribe_diarize_metrics.py:565-582 | the two-row loop returns the edit distance |
| Levenshtein.DistanceIsShortestScript | benchmarks/metrics/transcribe_diarize_metrics.py:565-582 | the distance is the length of a shortest script of single inserts, deletes and substitutions |
| Levenshtein.Symmetry | benchmarks/metrics/transcribe_diarize_metrics.py:565-582 | the distance is symmetric |
| Levenshtein.TriangleInequality | benchmarks/metrics/transcribe_diarize_metrics.py:565-582 | the distance obeys the triangle inequality |
| Levenshtein.ZeroIffEqual | benchmarks/metrics/transcribe_diarize_metrics.py:565-582 | the distance is zero exactly between equal strings |
| Levenshtein.LengthBounds | benchmarks/metrics/transcribe_diarize_metrics.py:565-582 | the distance lies between the length difference and the longer length |
| CharacterErrors.SplitTurns | benchmarks/metrics/transcribe_diarize_metrics.py:423-431 | one entry for each speaker who says something, with all they say in order, in the order in which the speakers first say something |
| CpCerReports.TextsConcatenate | benchmarks/metrics/transcribe_diarize_metrics.py:430-431 | the text of a speaker over two runs of turns is the concatenation of the two texts, in order |
| CharacterErrors.StatsOf | benchmarks/metrics/transcribe_diarize_metrics.py:460-476 | lengths and edit distance, also for an empty reference |
| CharacterErrors.SumAssigned | benchmarks/metrics/transcribe_diarize_metrics.py:390-394 | the summed statistics of the chosen pairs |
| CharacterErrors.LeastPairing | benchmarks/metrics/transcribe_diarize_metrics.py:380-394 | the errors are the minimum over all pairings of summed edit distances |
| CharacterErrors.CpCerStatsOf | benchmarks/metrics/transcribe_diarize_metrics.py:364-403 | the report, with its two error cases, for every solver and every order of the speakers |
| CpCerReports.ReportedLengths | benchmarks/metrics/transcribe_diarize_metrics.py:364-403 | a report is valid exactly when the reference is tagged and says something; it counts every character of the reference and, in the error reports too, of the prediction, whose untagged text counts in full |
| CpCerReports.UntaggedIsOneSpeaker | benchmarks/metrics/transcribe_diarize_metrics.py:418-422 | the report for an untagged prediction is the one for any single speaker who says the same |
| CpCerReports.PerfectIff | benchmarks/metrics/transcribe_diarize_metrics.py:380-394 | there are no errors exactly when the texts of the prediction are those of the reference, rearranged |
| CpCerReports.RateIsErrorsPerCharacter | benchmarks/metrics/transcribe_diarize_metrics.py:511-520 | a valid report has a rate, and it is the errors for each reference character |
| CharacterErrors.PairingLengths | benchmarks/metrics/transcribe_diarize_metrics.py:376-377 | the summed reference and prediction lengths do not depend on the pairing |
| CharacterErrors.ErrorsBoundLengths | benchmarks/metrics/transcribe_diarize_metrics.py:389-400 | the errors are at least the difference of the total lengths |
| CharacterErrors.OrderDoesNotMatter | benchmarks/metrics/transcribe_diarize_metrics.py:373-394 | reordering the speakers of either side does not change the errors |
| CharacterErrors.NamesDoNotMatter | benchmarks/metrics/transcribe_diarize_metrics.py:364-403 | the whole report is unchanged when the prediction's speakers are renamed injectively, whatever optimum each call picks |
| JsonGrammar.UniqueValue | sglang_omni_router/route_metadata.py:350-413 | at most one grammar tree fits the bytes at a position |
| JsonGrammar.EndsAreUnique | sglang_omni_router/route_metadata.py:350-413 | the end of a value is unique |
| JsonGrammar.FitsInside | sglang_omni_router/route_metadata.py:350-413 | a value is not empty and ends within the body |
| JsonStandard.NumberIff | sglang_omni_router/route_metadata.py:407-413 | the numbers recognized are exactly NaN, Infinity, -Infinity and an optional minus, an integer without leading zeros, an optional point with digits, an optional e or E with optional sign and digits |
| JsonStandard.StringIff | sglang_omni_router/route_metadata.py:334-348 | the string literals recognized are exactly quote, characters, quote, a character being any byte but quote, backslash and controls, or a backslash with any byte |
| JsonStandard.Utf8Iff | sglang_omni_router/route_metadata.py:407-410 | the bytes that decode are exactly the UTF-8 encodings of sequences of Unicode scalar values |
| JsonStandard.MarksAndBlanks | sglang_omni_router/route_metadata.py:321-405 | the marks, words and blanks as ASCII characters |
| JsonScanner.JsonTopLevelScanner.SkipWs | sglang_omni_router/route_metadata.py:321-324 | stops at the end of the run of white space |
| JsonScanner.JsonTopLevelScanner.SkipString | sglang_omni_router/route_metadata.py:334-348 | returns j exactly when a string literal with unchecked escapes ends at j |
| JsonScanner.JsonTopLevelScanner.SkipNumber | sglang_omni_router/route_metadata.py:407-413 | returns j exactly when the longest number in the 128-byte UTF-8 window ends at j |
| JsonScanner.JsonTopLevelScanner.SkipValue | sglang_omni_router/route_metadata.py:350-367 | terminates and advances; unless it runs out of depth, returns j exactly when the bytes up to j derive from the grammar; it returns one only if the value nests within the depth left, and runs out only if any value there nests deeper |
| JsonScanner.JsonTopLevelScanner.SkipObject | sglang_omni_router/route_metadata.py:369-388 | the same for objects |
| JsonScanner.JsonTopLevelScanner.SkipArray | sglang_omni_router/route_metadata.py:390-405 | the same for arrays |
| JsonScanner.JsonTopLevelScanner.ReadMetadataValue | sglang_omni_router/route_metadata.py:296-319 | the value of one metadata member: accepted exactly as the grammar and the literal decoder say, with its effect on the metadata, unless it nests beyond the limit |
| JsonScanner.JsonTopLevelScanner.ScanMember | sglang_omni_router/route_metadata.py:270-287 | one member: what is left to read at the mark after it is accepted exactly when the rest from the member on is, and a member without such a mark accepts nothing |
| JsonScanner.JsonTopLevelScanner.ScanMembers | sglang_omni_router/route_metadata.py:270-294 | the member loop accepts exactly the bodies whose rest is members, a closing brace and blanks, as long as no member nests beyond the limit |
| JsonScanner.JsonTopLevelScanner.ScanMetadata | sglang_omni_router/route_metadata.py:256-294 | accepts a body if and only if it is one object without trailing data that nests within the limit, and returns the metadata its members determine; the recursion error comes only for a body that nests deeper |
| JsonFullParse.PrintedFits | sglang_omni_router/route_metadata.py:350-413 | every printed tree whose number tokens have at most 128 bytes and decodable windows derives from the grammar |
| JsonFullParse.SameTree | sglang_omni_router/route_metadata.py:350-413 | no other tree fits where a value is printed, and then its number tokens are readable |
| JsonFullParse.ScannerAgreesIff | sglang_omni_router/route_metadata.py:256-413 | the UTF-8 text, without byte-order mark, of an object the full parser accepts is accepted, and then wholly consumed, if and only if each number token has at most 128 bytes, its window decodes and the values nest within the limit; and what is read equals what a full parse and the small-body lookups read if and only if the last value of each metadata key decides |
| JsonFullParse.AsciiIsAccepted | sglang_omni_router/route_metadata.py:256-413 | ASCII text built from the productions of numbers and literals, with number tokens of at most 128 bytes, is accepted under every limit it nests within |
| JsonLanguage.AcceptedIff | sglang_omni_router/route_metadata.py:256-413 | whatever the body: it is accepted exactly when it is the text of an object put together from the productions above, with blanks around it, short number tokens whose windows decode, nesting within the limit, and decodable keys and metadata strings |
| JsonFullParse.OtherEncodingsAreRefused | sglang_omni_router/route_metadata.py:231-262 | a body the full parser reads as UTF-16, UTF-32 or UTF-8 with a byte-order mark is never accepted by the scanner |
| JsonFullParse.RepeatedKeyDisagrees | sglang_omni_router/route_metadata.py:302-319 | the body `{"model":"a","model":""}`: accepted, and the two readings differ |
| JsonFullParse.ScannerAgrees | sglang_omni_router/route_metadata.py:86-110 | with each metadata key at most once the two agree |
| JsonFullParse.AcceptedOnce | sglang_omni_router/route_metadata.py:256-294 | a body determines its metadata |
| LargeRequests.LargeRequestExtraCapabilitiesOrError | sglang_omni_router/proxy.py:603-645 | refused for models exactly when none is requested and the candidates name different ones; refused for capabilities exactly when there are candidates, each lacks what another has and no header is present; otherwise the extra capabilities are those of a candidate that has all, or none if the candidates are alike |
| LargeRequests.UniqueMaximalIsGreatest | sglang_omni_router/proxy.py:634-640 | a unique maximal capability set contains every candidate's |
| LargeRequests.ChosenHasAllCapabilities | sglang_omni_router/proxy.py:326-347 | without a pre-check error and with a candidate, selection succeeds and every choice contains the capabilities of every candidate |
| LargeRequests.ChosenServesThePayload | sglang_omni_router/proxy.py:326-347 | if some candidate of the pre-check could serve what full payload inference requires, every choice can |
| LargeRequests.BasicIsContained | sglang_omni_router/route_metadata.py:416-452 | the payload only adds to the capabilities the path and the stream flag require |
| LargeRequests.InferredIff | sglang_omni_router/route_metadata.py:438-509 | capability by capability, which fields, message parts and modalities of a payload ask for it |
| LargeRequests.InferenceFailsIff | sglang_omni_router/route_metadata.py:492-509 | the inference raises exactly when the type of some message part is a list or a dictionary |
| LargeRequests.RequiredIff | sglang_omni_router/route_metadata.py:416-435 | a request requires the capability of its path, streaming, what the header names and what the payload asks for, and nothing else |
| LargeRequests.LargeBodyServesIff | sglang_omni_router/proxy.py:326-347 | the large-body path succeeds and every choice has all the payload requires if and only if some routable worker has all of it and may be chosen: no model is requested by body or header, it names the requested one, or no worker with the basic capabilities names any |
| LargeRequests.SameModelServesIff | sglang_omni_router/proxy.py:326-347 | if both paths ask for the same model and the small-body path can choose a worker for the payload, the large-body path serves the payload if and only if that very worker may be chosen |
| LargeRequests.HeaderModelNarrows | sglang_omni_router/route_metadata.py:86-129 | the model header, which the small-body path ignores, makes the large-body path pass over the one worker that can take the payload |
| LargeRequests.UnnamedWorkerIsPassedOver | sglang_omni_router/proxy.py:618-619 | a worker without a model name is passed over by the large-body path although the small-body path selects it |
| RouterWorker.Worker.RecordHealthResult | sglang_omni_router/worker.py:130-156 | one probe result acts on state and counters as the health machine says |
| RouterWorker.Worker.RecordRequestFailure | sglang_omni_router/worker.py:158-173 | one request failure does too |
| RouterWorker.Worker.DoMarkDead | sglang_omni_router/worker.py:86-91 | an operator's mark does to state and counters what the health machine says |
| RouterWorker.Worker.DoClearDead | sglang_omni_router/worker.py:93-99 | so does clearing the mark, whatever the state |
| RouterWorker.Worker.RecordRoutedRequest | sglang_omni_router/worker.py:115-120 | one more routed request, counted as successful for a status from 200 to 399 and as failed otherwise |
| RouterWorker.CountersAreRuns | sglang_omni_router/worker.py:145-182 | over every history the counters are the lengths of the current failure and success runs and are never both positive |
| RouterWorker.HealthyIff | sglang_omni_router/worker.py:86-187 | healthy if and only if some good probe completed a success run and since then there was no mark and no failure run of threshold length |
| RouterWorker.StateIff | sglang_omni_router/worker.py:86-187 | over every history: dead exactly when marked and since then not cleared and without a run of threshold length; unhealthy exactly when a failure run reached the threshold and since then no mark and no good run; unknown exactly when new or cleared while dead and nothing decided since |
| RouterWorker.ClearedIsRevived | sglang_omni_router/worker.py:93-182 | a cleared dead worker is healthy after as many good probes in a row as the success threshold, unhealthy after as many failures as the failure threshold, and unknown before |
| RouterWorker.ClearForgetsFailures | sglang_omni_router/worker.py:93-99 | a history with four failures since the last good probe and threshold three that leaves the worker healthy |
| RouterWorker.StaysDead | sglang_omni_router/health.py:74-112 | a dead worker whose waiting probes cannot complete a run stays dead until it is cleared |
| RouterWorker.RevivesIff | sglang_omni_router/health.py:75-112 | a dead worker can come back uncleared if and only if its waiting probes can complete a run |
| WorkerSelection.CandidatesAre | sglang_omni_router/selector.py:29-38 | membership of the filtered list |
| WorkerSelection.EligibleIff | sglang_omni_router/selector.py:29-38 | the candidates are the positions of the workers that are healthy, enabled and capable and pass the model rule |
| WorkerSelection.WorkerSelector.Select | sglang_omni_router/selector.py:22-52 | no worker exactly when none is healthy, enabled, capable and allowed by the model rule; otherwise such a worker, least loaded among them under least_request, and the new index |
| WorkerSelection.WorkerSelector.SelectRoundRobin | sglang_omni_router/selector.py:59-62 | the pick and the stored index after it |
| WorkerSelection.RoundRobinIsFair | sglang_omni_router/selector.py:59-62 | from any stored index n consecutive picks choose each of n workers once, and after any number of picks counts differ by at most one |
| WorkerSelection.LeastRequestMinimizesLargestLoad | sglang_omni_router/selector.py:45-52 | k dispatches reach a largest load no greater than any other assignment of k requests |
| WorkerSelection.LeastRequestKeepsSpread | sglang_omni_router/selector.py:45-52 | the spread never grows beyond max(1, initial spread) |
| DataPlane.AdmissionController.TryAcquire | sglang_omni_router/proxy.py:99-106 | a slot exactly when one is free, with the in-flight count, the peak and the rejected count |
| DataPlane.AdmissionController.Release | sglang_omni_router/proxy.py:116-118 | one slot freed |
| DataPlane.ReleaseOnce.Call | sglang_omni_router/proxy.py:128-132 | the first call frees a slot and later calls change nothing |
| DataPlane.RelayCleanup.Begin | sglang_omni_router/proxy.py:159-162 | only the first call goes on |
| DataPlane.RelayCleanup.Finish | sglang_omni_router/proxy.py:167-170 | does to the shared worker, the controller and the one-shot release what the step that ends a relay does, whether or not closing raised: one decrement, at most one release, one record, as successful for a status from 200 to 399 and as failed otherwise |
| DataPlane.BeginSend | sglang_omni_router/proxy.py:384-386 | does to the shared worker what the send step does |
| DataPlane.FailSend | sglang_omni_router/proxy.py:387-405 | does what the failed-send step does, counts one failed request, and records one failure unless the worker is dead |
| DataPlane.StepKeepsInv | sglang_omni_router/proxy.py:239-490 | every step, faults included, keeps: in-flight is the number of unreleased admitted requests and at most the bound, each worker's count is the number of requests charged to it, and how often each call was made |
| DataPlane.ReachableInv | sglang_omni_router/proxy.py:99-490 | no run reaches a failed assertion, and every reachable state keeps the invariant |
| DataPlane.PeakIsGreatest | sglang_omni_router/proxy.py:99-106 | in every run the reported peak is the greatest in-flight count at any moment so far |
| DataPlane.RelayedExactlyOnce | sglang_omni_router/proxy.py:159-170 | a finished relay was decremented, released and recorded exactly once |
| DataPlane.Conservation | sglang_omni_router/proxy.py:384-490 | total worker count plus requests still reading equals slots in use plus the requests that lost their slot but still count |
| DataPlane.ActiveWithinBound | sglang_omni_router/proxy.py:239-490 | without faults the workers together never carry more than the admitted requests, hence than the bound |
| DataPlane.OverloadIff | sglang_omni_router/proxy.py:271-490 | from any reachable state, some further run without faults that sends only to one given worker makes the workers carry more than the bound if and only if some request lost its slot and still counts; and if none did, no run without faults to any workers does |
| DataPlane.LeakedDrift | sglang_omni_router/proxy.py:384-478 | every leaked request is one of those |
| DataPlane.LeaksCounted | sglang_omni_router/proxy.py:271-478 | from any state each leak (an aborted send, a response whose headers are not Latin-1, a close that raises, a response collected uncalled) leaves one more request leaked for ever |
| DataPlane.CountsAtRest | sglang_omni_router/proxy.py:239-490 | when every request is over no slot is held, the worker counts sum to the number of leaks, header values that are not Latin-1 included, and all are zero if and only if there was none |
| DataPlane.RequestIdLeaksIff | sglang_omni_router/proxy.py:484-501 | with Latin-1 headers otherwise, a returned send leaks its request, whose slot is then free while its worker counts it, if and only if the request id holds a character outside Latin-1 |
| DataPlane.FinalizerOverloads | sglang_omni_router/proxy.py:274-274 | a run in which the finalizer lets one worker carry two requests under a bound of one |
| AdminBroadcast.DisableTargets | sglang_omni_router/app.py:511-515 | the flag remembered for a URL is the one found on the last target with it, and the targets end disabled |
| AdminBroadcast.RestoreAdminDisabledState | sglang_omni_router/app.py:548-569 | every target ends disabled exactly when its remembered flag was set, or a group-init raised or reported a failure for its URL |
| AdminBroadcast.RestoredFlags | sglang_omni_router/app.py:511-569 | disable and restore leave the flags from before plus the targets a group-init failed on, whatever was written to the targets meanwhile and although all matching is by URL |
| AdminBroadcast.StepKeepsInv | sglang_omni_router/app.py:445-569 | every step, operator writes included, keeps the lock, flag, target, memory and pool invariants, and no restore misses a key |
| AdminBroadcast.ArrivalIs | sglang_omni_router/app.py:443-490 | which workers an arriving broadcast targets, when it is over at once, and whether it waits for the lock |
| AdminBroadcast.AlwaysHasWork | sglang_omni_router/app.py:447-461 | in every run no broadcast works without targets and no group-init on more than one |
| AdminBroadcast.OneOwner | sglang_omni_router/app.py:469-490 | in every run at most one update broadcast is between acquire and release |
| AdminBroadcast.FlagsAtRest | sglang_omni_router/app.py:511-569 | in every run a worker no broadcast holds is disabled if and only if it was originally or a group-init failed on it |
| AdminBroadcast.AllOver | sglang_omni_router/app.py:469-569 | when all broadcasts are over the lock is free and every flag is at rest |
| AdminBroadcast.HistoryIsHistory | sglang_omni_router/app.py:548-569 | only an operator's write outside a broadcast changes what counts as original and only a failed group-init adds to the failed workers |
| AdminBroadcast.QueryKeepsFlags | sglang_omni_router/app.py:492-499 | a broadcast that is not an update changes neither flags nor lock |
| AdminBroadcast.PutHeldExposes | sglang_omni_router/app.py:512-515 | an operator can make a healthy target selectable while the broadcast runs |
| AdminBroadcast.HeldFlagIff | sglang_omni_router/app.py:512-532 | in every run a held worker's flag is off if and only if the operator's last write to it since the disable was false |
| AdminBroadcast.HeldIsSelectedIff | sglang_omni_router/app.py:512-532 | a target is selectable between its disable and its restore if and only if it is a healthy pool worker and that last write was false; without such writes it never is |
| BroadcastSelection.RouteIff | sglang_omni_router/selector.py:29-38 | the workers the step system routes to are those of the pool that are eligible for some request |
| BroadcastSelection.HeldIsEligibleIff | sglang_omni_router/app.py:512-532 | in every run a target between its disable and its restore is eligible for some request if and only if it is healthy and the last write to it since the disable was false |
| BroadcastSelection.SelectWorker | sglang_omni_router/proxy.py:343-348 | whatever the selector returns at any point of any run is a worker the step system routes to, and no target of a running update unless the last write to it was false |
| AdminBroadcast.RestoreForgetsWrites | sglang_omni_router/app.py:511-569 | whatever happens between disable and restore, any number of writes included, each target's flag ends as before the disable or true because a group-init failed on it |
| LoadGenerator.HarvestCompletedTasks | benchmarks/eval/benchmark_tts_serving.py:298-320 | one entry for each task, in any order |
| LoadGenerator.RunScheduledStage | benchmarks/eval/benchmark_tts_serving.py:155-240 | for every timing: a result for exactly the scenarios that found room and did not raise, a saturated entry with the bound for exactly those that found none, an exception for each other, nothing twice; and both reported peaks are the true peak |
| LoadGenerator.NeverAboveTheBound | benchmarks/eval/benchmark_tts_serving.py:194-214 | in flight never exceeds the bound, and an arrival is saturated exactly when it is reached at that instant |
| LoadGenerator.InFlightIff | benchmarks/eval/benchmark_tts_serving.py:163-214 | a scenario is in flight exactly from its own arrival, if there was room, until the wait in which it completes |
| LoadGenerator.InFlightNext | benchmarks/eval/benchmark_tts_serving.py:189-214 | the tasks in flight at the next arrival are those pending after this one that do not complete in between |
| LoadGenerator.Record | benchmarks/eval/benchmark_tts_serving.py:131-141 | the end of a scenario lowers the count and records it |
| LoadGenerator.TakeNext | benchmarks/eval/benchmark_tts_serving.py:125-128 | a worker starts the next scenario of the shared iterator or exits |
| LoadGenerator.Resume | benchmarks/eval/benchmark_tts_serving.py:124-141 | one step of a worker between awaits keeps the stage's variables those of the schedule so far |
| LoadGenerator.LoopInv | benchmarks/eval/benchmark_tts_serving.py:118-147 | in every order of resuming the workers: each scenario handed out runs once or is recorded once, no more run than the bound, no worker exits while scenarios are left, and each step hands one out or ends a worker |
| LoadGenerator.EachScenarioOnce | benchmarks/eval/benchmark_tts_serving.py:118-147 | in every order, when all workers have exited each scenario is recorded exactly once, after one step for each scenario and each worker |
| LoadGenerator.RunClosedLoopStage | benchmarks/eval/benchmark_tts_serving.py:118-147 | for every event loop the stage follows its schedule to the end, returns the results recorded along it, and reports the most scenarios that ran at a time along it |
| StreamFraming.ReadLines | benchmarks/tasks/tts.py:885-908 | however the response is cut, the lines are those of the whole stream plus a remainder that is not blank |
| StreamFraming.SplitIsUnique | benchmarks/tasks/tts.py:887-890 | there is only one way to split a stream at its newlines |
| StreamFraming.LinesSplit | benchmarks/tasks/tts.py:887-890 | lines and remainder, with the newlines put back, are the stream, and none contains a newline |
| StreamFraming.CutsDoNotMatter | benchmarks/tasks/tts.py:885-908 | with ReadLines: however the bytes are cut, the lines returned are any newline-free lines that rebuild the stream, plus the remainder unless it is nothing but ASCII white space |
| StreamFraming.IterResponseHttpChunks | benchmarks/tasks/tts.py:1080-1097 | one piece for each HTTP chunk that has bytes, with the time of its first byte |
| StreamFraming.OnePieceForEachChunk | benchmarks/tasks/tts.py:1080-1097 | for a response made up of HTTP chunks, the last one perhaps cut short: the pieces are, in order, all bytes of each chunk that has any, with the arrival of the first of them, or the closing time if that is zero |
| StreamFraming.MadeOfChunks | benchmarks/tasks/tts.py:1084-1084 | every response is made up so |
| StreamFraming.RegroupedIsTheInput | benchmarks/tasks/tts.py:1080-1097 | the pieces concatenate to the input and none is empty |
| StreamFraming.ReadCutsDoNotMatter | benchmarks/tasks/tts.py:1085-1094 | cutting one read in two inside an HTTP chunk changes no piece's bytes, and no start time either if both parts arrive when the whole did |

## Left out

- Segments.ParseTimestampedSpeakerSegments: starts from tokens; the two regular expressions and number parsing are not modelled.
- DiarizationSweep.Sweep: times are whole ticks, so binary floating-point rounding of sums and midpoints is not modelled.
- CharacterErrors.SplitTurns: starts from turns with cleaned content; tag canonicalization, cleaning and Unicode categories are not modelled.
- Levenshtein.LevenshteinDistance: the optional compiled library that replaces the loop is not modelled.
- JsonScanner.JsonTopLevelScanner.SkipValue: the recursion limit counts nested containers, for any limit; how many interpreter frames one level takes, and the full parser's own nesting limit, are not modelled.
- JsonFullParse.ScannerAgreesIff: about UTF-8 text without byte-order mark; for the other encodings json.loads detects only the scanner's refusal is stated, not which of them the full parser accepts.
- JsonScanner.JsonTopLevelScanner.ScanMetadata: the decoder of a string literal is an arbitrary function, and the kinds of error are not told apart, as the caller maps all of them to one message.
- LargeRequests.ChosenServesThePayload: the able worker has to be a candidate of the pre-check; LargeBodyServesIff is the exact statement for the others.
- RouterWorker.HealthyIff: last error, last status and time stamps are not modelled.
- DataPlane.StepKeepsInv: which response a client gets, status codes and the once-only flag for recording a worker failure are not modelled; the outcome of each await is nondeterministic.
- AdminBroadcast.StepKeepsInv: the asyncio lock and timeout are taken as atomic, worker identifiers are taken as the URLs they encode, and the aggregated response is not modelled.
- AdminBroadcast.DisableTargets: works on worker objects; the step system holds the flags of all workers as one set of references.
- LoadGenerator.RunScheduledStage: cancelling a task is not modelled; a scenario's response, its schedule metadata and the planned offsets are not modelled, and any wait may let any running tasks complete.
- StreamFraming.ReadLines: decoding, stripping and collecting each line is left to the caller.
- Corpus aggregation, percentiles, means, rates above 50 percent and all report printing: no hard property.
- The random policy and Poisson arrival offsets: randomness is not the claim.
- Header-conflict checks, URL and configuration validation, quantization keys, asset-cache markers: branch by branch.
- The probe of a newly created worker and the periodic health loop: only the probe events matter here.
- HTTP, ASGI, logging, timing, launchers, playground, dataset loaders and model-based evaluation.
