# Aniani: verified model

Aniani keeps logs, metrics and traces in memory and answers queries over them.
Its speed comes from redundant structures: label postings, identity maps, span
indexes, bounded heaps, batched ingestion, single-pass aggregation. This project
models those structures in Dafny and proves that each agrees with something
simpler.

`dafny verify dfyconfig.toml` checks everything.

## What is modelled

- **Stores.** `LogStore`, `MetricStore` and `TraceStore` are classes with the maps
  the program keeps. Every operation is proved to keep the whole invariant
  (postings, values, identity map, totals, sortedness, span indexes) and states its
  new state outright. `LogRuns` follows runs: entries are the stable time-sort of
  what survived, and the trace index is exact unless a service was cleared. `StoreRuns` does
  the same for metrics and traces and covers the eviction pass.
- **Index queries.** `PostingLists` and `LabelIndexing` prove matcher evaluation
  through merges equal to a plain scan. `TraceNarrowing`, `TraceQueries` and
  `Ancestry` do the same for TraceQL, structural operators over possibly circular
  parent links included; `IngestTraces` establishes the link between a span's
  service and its resource attributes that narrowing relies on. `SelectorAnswers` and
  `ExpressionAnswers` say on the results what each condition, stage and operator finds.
- **Log queries.** `LogMatching` says which stored entries a query wants and what it
  shows of them; `LogQueries` proves the unlimited evaluation to show all of them and
  the heap-bounded one the newest.
- **Ingestion.** `SentLogs` and `SentSpans` tie everything stored to what a request
  sends, field by field. `LogGrouping` and `IngestLogs` compare one append per group
  with one append per record.
- **Health.** `HealthScoring` holds the score and what errors cost; `Health` compares
  the single-pass overview with per-service summaries.
- **Trace trees.** `SpanWalks` and `TraceTree` count how often each span occurs in the
  capped forest, for any list of spans.
- **LogQL round trip.** `LogQLParser` holds the grammar, `LogQLPrinting` the printing of
  structured filters as the program does it, `LogQLRoundTrip` that of every expression;
  parsing undoes both.
- **Sequence numbers.** `IngestSeq` is a state machine over reservation, commit,
  eviction, checkpoint, snapshot and restart steps.
- **Quantiles.** `Quantiles` covers histogram and sample quantiles over reals.

Modelling conventions: the string interner is a growing duplicate-free list; hash
maps are Dafny maps visited in an arbitrary order; regexes, Unicode classes, number
and duration parsing, pipeline stages and attribute display are parameters; ids and
counters are unbounded; floats are reals; a panic is the
result `None`; 16- and 8-byte ids are numbers.

## Where the code does less than it promises

- Batching reorders equal-time entries when one stream is sent under differently
  ordered label vectors in one request (`IngestLogs.RequestBatchingAgreesIff` gives the exact
  condition, `IngestLogs.InterleavedRequestReorders` a request); the program's own
  comments present grouping as a matter of speed only.
- The health overview credits an error stream to its first `service` label only
  (`Health.OverviewMatchesSummariesIff`, `Health.SecondServiceIsOverlooked`), while its
  comment says the score mirrors the summaries exactly.
- Clearing a service leaves the log trace index stale iff a stream of that service holds
  a traced entry (`LogStore.LogStore.ClearService`, at an input in
  `LogStore.ClearServiceLeavesStaleTrace`).
- A log query over reversed bounds panics iff a selected stream holds an entry strictly
  between them (`LogQueries.EvaluateStreamQuery`, `LogQueries.ReversedQueryPanics`).
- A negated matcher whose pattern does not compile changes its verdict once its label
  name is first seen; no other matcher ever does (`LabelIndexing.VerdictKeptIff`,
  `LabelIndexing.InvalidPatternFlips`).
- Two buckets without a readable bound can make a histogram quantile infinite
  (`Quantiles.QuantilesInRangeIff`).
- A checkpoint token survives a restart iff the restored stores reach up to it
  (`IngestSeq.TokenSurvivesRestartIff`, `IngestSeq.TokenSeparatesAcrossIff`,
  `IngestSeq.RestartForgetsTokens`).
- With repeated span ids, as in a trace sent twice, the trace tree repeats spans; it does
  so iff a span hangs below two reachable spans of one id (`TraceTree.ShownAtMostOnceIff`,
  `TraceTree.ResentTraceRepeatsChildren`).
- A stage comparing a label named `json`, `logfmt`, `unwrap` or `regexp` is not read as
  one; every other plain label name is (`LogQLRoundTrip.LabelFilterReadIff`).

## Model

| member | source | states |
|---|---|---|
| PostingLists.PostingList.Insert | src/store/posting_list.rs:28-33 | the list gains exactly `id`, stays strictly ascending, and is untouched when it held `id` already |
| PostingLists.PostingList.Remove | src/store/posting_list.rs:36-44 | the list loses exactly `id`, the result tells whether it was there |
| PostingLists.PostingList.Contains | src/store/posting_list.rs:47-49 | the binary search finds `id` iff the list holds it |
| PostingLists.Difference | src/store/posting_list.rs:68-86 | the two-pointer merge yields exactly the ids of the first list missing from the second, ascending |
| PostingLists.IntersectTwo | src/store/posting_list.rs:113-128 | the two-pointer merge yields exactly the common ids, ascending |
| PostingLists.Intersect | src/store/posting_list.rs:90-110 | smallest-first pairwise intersection with early exit yields exactly the ids in all lists, ascending |
| PostingLists.Union | src/store/posting_list.rs:131-154 | the merge yields exactly the ids of either list, ascending and without repetition |
| PostingLists.AscendingUnique | src/store/posting_list.rs:21-25 | an ascending list is determined by its members, so index results are compared as sets without loss |
| Interning.Interner.InternCorrect | src/store/log_store.rs:109-112 | interning keeps every earlier id and gives the string exactly one id |
| Interning.Interner.GetResolve | src/store/log_store.rs:216-226 | in a valid interner string and id determine each other |
| LabelIndexing.InternLabelPairs | src/store/mod.rs:62-69 | pairs are interned in order and sorted stably by interned name; the interner only grows |
| LabelIndexing.PairsStable | src/store/mod.rs:62-69 | later growth of the interner never changes a label set already formed |
| LabelIdentity.SameLabelSetIff | src/store/mod.rs:62-69 | two label vectors get the same identity iff they give each name the same values in the same order |
| LabelIndexing.TrackLabelValues | src/store/mod.rs:71-78 | the known values gain exactly the pairs of the label set, no empty value set |
| LabelIndexing.RemoveFromLabelIndexes | src/store/mod.rs:80-100 | exactly this id leaves exactly these posting lists; emptied lists and value sets disappear, values stay exact |
| LabelIndexing.Identify | src/store/log_store.rs:111-139 | a known label set keeps its id, a new one gets the next id and enters every index; all indexes stay exact |
| LabelIndexing.UnlinkAll | src/store/log_store.rs:312-318 | dropping any list of ids leaves postings, values and identity map exact for the remaining label sets |
| LabelIndexing.IdentityMap | src/store/log_store.rs:94-106 | the rebuilt identity map is the inverse of the label sets and the next id lies above every id |
| LabelIndexing.IdsInverseUnique | src/store/log_store.rs:94-106 | only one map is inverse to the label sets, so a rebuild restores the map ingestion maintained |
| LabelIndexing.UnionOfPassing | src/store/mod.rs:158-194 | the union of posting lists of matching values is exactly the ids with a pair of that name passing the test |
| LabelIndexing.MatcherIds | src/store/mod.rs:126-195 | the list of one matcher equals a scan of every label set; the early exit happens only when nothing can match |
| LabelIndexing.SelectIndexedIds | src/store/mod.rs:102-198 | any matcher list selects exactly the ids a plain scan of all label sets selects, ascending when there is a matcher; invalid patterns included |
| LabelIndexing.MatcherMeans | src/store/mod.rs:126-195 | the four matchers said of the label pairs as strings: some pair of the name has the value or matches, or none does |
| LabelIndexing.VerdictKeptIff | src/store/mod.rs:126-195 | what a matcher says about a label set survives every growth of the interner iff it is not a negated invalid pattern on a name still unknown |
| LabelIndexing.InvalidPatternFlips | src/store/mod.rs:126-195 | a concrete stream and matcher whose verdict flips when the name is first seen |
| StableSorting.SortedUnique | src/store/log_store.rs:153-164 | an ascending sequence is determined by its per-key subsequences: stable sorting has one possible result |
| StableSorting.StableSortSorts | src/store/log_store.rs:153-164 | the stable sort ascends, is a permutation and keeps the order within each key |
| StableSorting.SortAppendSorted | src/store/log_store.rs:155-163 | re-sorting a sorted part with new elements equals sorting everything ever appended |
| StableSorting.SortAtLeast | src/store/log_store.rs:291-306 | cutting off old elements commutes with sorting |
| StableSorting.AtLeastIs | src/store/log_store.rs:291-306 | cutting keeps exactly the elements at or after the cutoff, in order |
| StableSorting.SortFilter | src/ingest/otlp_logs.rs:124-132 | selecting by any test commutes with stable sorting |
| TimeOrdered.BatchNeedsSortIffUnsorted | src/store/mod.rs:316-330 | given a sorted prefix, the boundary-and-batch test fires iff the whole vector is unsorted |
| TimeOrdered.AppendBatch | src/store/log_store.rs:155-163 | appending with the lazy sort gives the stable time-sort of old and new elements |
| TimeOrdered.DrainBefore | src/store/log_store.rs:294-302 | draining at the partition point leaves exactly the elements at or after the cutoff, in order |
| TimeOrdered.RangeDefinedIff | src/store/log_store.rs:199-210 | the `lo..hi` slice exists iff no element lies strictly between `end` and `start` |
| TimeOrdered.RangeIsWindow | src/store/log_store.rs:199-210 | on a sorted vector and `start <= end` the slice is exactly the elements in the closed window |
| TimeOrdered.SliceMeaning | src/store/log_store.rs:199-210 | for any bounds the slice panics iff an element lies between them reversed, and otherwise is the window |
| TimeOrdered.WindowIs | src/store/log_store.rs:199-210 | the window is exactly the elements whose time lies within the bounds, in order |
| StreamMaps.IngestInto | src/store/log_store.rs:109-165 | one ingest on the stream map: contents of that label set become the stable sort of old and new, everything else unchanged, totals and indexes exact |
| StreamMaps.RetainedContents | src/store/log_store.rs:291-320 | seen by label set, age eviction is the cut of every sequence |
| StreamMaps.LabelledStreams | src/store/log_store.rs:377-405 | the posting list of a pair is exactly the streams so labelled |
| StreamMaps.LabelValuesExact | src/store/log_store.rs:276-288 | the known values of a name are exactly those some stream carries |
| LogStore.LogStore.IngestStream | src/store/log_store.rs:109-165 | invariant kept; the new streams, ids, interner and total are stated outright; an exact trace index stays exact |
| LogStore.LogStore.QueryStreams | src/store/log_store.rs:188-196 | returns exactly the streams whose labels satisfy every matcher, each once |
| LogStore.LogStore.EvictBefore | src/store/log_store.rs:291-320 | every stream keeps exactly its entries at or after the cutoff, emptied streams are gone, indexes exact, trace index exact |
| LogStore.LogStore.EvictToMax | src/store/log_store.rs:323-362 | total becomes min(old, max); streams become suffixes, at most one partly drained, none with a first entry younger than that of an untouched one; indexes exact |
| LogStore.DrainOldest | src/store/log_store.rs:327-351 | the counted-down drain removes exactly the excess, whole streams in order of first entry and the last one partly |
| LogStore.DrainedToInOrder | src/store/log_store.rs:327-351 | any stopping point of the drain leaves suffixes drained in order |
| LogStore.LogStore.Clear | src/store/log_store.rs:365-374 | the store is empty and its identity counter restarts |
| LogStore.LogStore.ClearService | src/store/log_store.rs:377-405 | exactly the streams labelled with the service are gone, indexes and total exact; the trace index stays exact iff, before the call, no stream so labelled held a traced entry |
| LogStore.LostIffServiceTraced | src/store/log_store.rs:377-405 | clearing drops a stream with a traced entry iff one labelled with the service holds one |
| LogStore.StaleIffTracedStreamLost | src/store/log_store.rs:377-405 | dropping streams without touching the trace index leaves it exact iff nothing traced was dropped |
| LogStore.ClearServiceLeavesStaleTrace | src/store/log_store.rs:377-405 | a concrete store whose trace index is stale after clearing a service |
| LogStore.LogStore.RebuildTraceIndex | src/store/log_store.rs:176-185 | the rebuilt trace index lists exactly the streams holding an entry of each trace |
| LogStore.LogStore.RebuildStreamIds | src/store/log_store.rs:94-106 | restores the identity map; on a valid store it changes nothing but may lower the next id |
| LogStore.LogStore.StreamsForTrace | src/store/log_store.rs:168-173 | every stream holding an entry of the trace is returned, and only those while the trace index is exact |
| LogStore.LogStore.GetEntries | src/store/log_store.rs:199-210 | the entries within the closed window, in order; the slice panics iff an entry lies strictly between reversed bounds |
| LogRuns.RunIsSortedSurvivors | src/store/log_store.rs:143-164 | over any run of appends and age evictions, a label set holds the stable time-sort of all its batches minus what a later cutoff removed |
| LogRuns.Replay | src/store/log_store.rs:109-165 | a store driven through any such run holds exactly that |
| LogRuns.Drive | src/store/log_store.rs:94-405 | any run of all six operations keeps the whole invariant; the trace index always covers the streams and is exact unless a service was cleared since the last age eviction |
| MetricStore.MetricStore.IngestSamples | src/store/metric_store.rs:252-307 | same invariant and outright new state as for logs, with the name as first label |
| MetricStore.MetricStore.SelectSeries | src/store/metric_store.rs:311-319 | returns exactly the series whose labels satisfy every matcher |
| MetricStore.MetricStore.EvictToMax | src/store/metric_store.rs:383-412 | whole series only, exactly the excess, oldest first sample first; indexes and totals exact, metadata pruned to names in use |
| MetricStore.MetricStore.EvictBefore | src/store/metric_store.rs:415-444 | every series keeps exactly its samples at or after the cutoff; indexes exact |
| MetricStore.MetricStore.ClearService | src/store/metric_store.rs:460-508 | exactly the series labelled with the service are gone; indexes and totals exact, name registries pruned to names in use, or unchanged when no series was dropped |
| MetricStore.MetricStore.GetSamples | src/store/metric_store.rs:322-333 | the samples within the closed window; the slice panics iff one lies strictly between reversed bounds |
| MetricStore.MetricStore.RegisterMetricName | src/store/metric_store.rs:145-190 | a visible name keeps one source; a second source is refused and changes nothing |
| MetricStore.MetricStore.RebuildSeriesIds | src/store/metric_store.rs:130-142 | restores the identity map after loading a snapshot |
| MetricStore.Pruned | src/store/metric_store.rs:234-249 | registrations survive iff a series still carries the name |
| TraceStore.TraceStore.IngestSpans | src/store/trace_store.rs:198-228 | every span is appended to its trace; all four indexes and the span total stay exact |
| TraceStore.PushAllSpans | src/store/trace_store.rs:198-228 | each trace gains its own spans of the batch in order, other traces nothing |
| TraceIndexing.ReconcileIndex | src/store/trace_store.rs:497-533 | touching only the keys a trace lost makes the index exact again, without empty sets |
| TraceIndexing.ReconciledExact | src/store/trace_store.rs:497-533 | an index reconciled for the keys before and after is exact for the replaced trace |
| TraceStore.TraceStore.ReconcileTraceIndexes | src/store/trace_store.rs:497-533 | service, name and status index are exact again after one trace shrank or vanished |
| TraceStore.TraceStore.EvictToMax | src/store/trace_store.rs:299-340 | whole traces only, a prefix in order of earliest span, at most `max` spans left, minimal; indexes exact |
| TraceStore.TraceStore.EvictBefore | src/store/trace_store.rs:343-378 | every trace keeps exactly its spans starting at or after the cutoff, emptied traces gone; indexes exact |
| TraceStore.TraceStore.ClearService | src/store/trace_store.rs:439-468 | exactly the spans of the service are gone, emptied traces with them; indexes exact |
| TraceStore.RemovedSpans | src/store/trace_store.rs:343-468 | age eviction leaves of a trace exactly the spans starting at or after the cutoff, clearing a service exactly those of other services, in order; a trace goes when nothing is left |
| TraceStore.TraceStore.RebuildAttrIndex | src/store/trace_store.rs:474-490 | the rebuilt attribute index lists exactly the traces carrying each string attribute |
| TraceIndexing.PushAttrExact | src/store/trace_store.rs:212-223 | adding a span keeps the attribute index exact |
| SpanConditions.SpanMatchesConditions | src/query/traceql/eval.rs:407-451 | left-to-right evaluation with early stop equals: some `||`-separated group has all its conditions true |
| SpanConditions.FindAttribute | src/query/traceql/eval.rs:453-540 | the attribute found is the first one answering to the name; none is found only if none answers |
| TraceNarrowing.IndexedAttributeTraces | src/query/traceql/eval.rs:252-279 | the attribute lookup covers every trace with a matching span, or does not narrow at all |
| TraceNarrowing.IndexableTraces | src/query/traceql/eval.rs:217-245 | an index lookup covers every trace with a span satisfying the condition |
| TraceNarrowing.CandidateTraceIds | src/query/traceql/eval.rs:194-213 | intersecting lookups loses no trace with a selected span; `||` disables narrowing |
| TraceNarrowing.EvalSpanSelector | src/query/traceql/eval.rs:133-185 | with linked services the narrowed evaluation lists exactly what a full scan selects, by ascending trace id; the `SelectorAnswers` rows say what that is |
| TraceNarrowing.ListsUnique | src/query/traceql/eval.rs:133-185 | that listing is unique, so narrowing is invisible |
| SelectorAnswers.DurationAnswers | src/query/traceql/eval.rs:461-464 | the listed traces and spans are exactly those whose duration stands in the asked relation to the bound, negative durations reading as zero |
| SelectorAnswers.StatusAnswers | src/query/traceql/eval.rs:465-476 | exactly the spans with, or without, the status; no other operator selects anything |
| SelectorAnswers.KindAnswers | src/query/traceql/eval.rs:481-495 | the same for the kind |
| SelectorAnswers.NameAnswers | src/query/traceql/eval.rs:477-480 | exactly the spans whose name equals, differs from, sorts before or after the value, or matches a pattern that compiles |
| SelectorAnswers.NumberAnswers | src/query/traceql/eval.rs:577-631 | an attribute compared with a number: the first one under the key counts, integers, floats and, against integers, parsable texts compare as numbers, equality is nearness, and a missing attribute passes only `!=` |
| SelectorAnswers.BoolAnswers | src/query/traceql/eval.rs:599-605 | against a truth value only `=` and `!=` select, and a missing attribute passes only `!=` |
| SelectorAnswers.TextAnswers | src/query/traceql/eval.rs:558-587 | an attribute compared with a text, by order of code points or by pattern |
| SelectorAnswers.EventNameAnswers | src/query/traceql/eval.rs:496-499 | exactly the spans with an event whose name stands in the relation; patterns match nothing here |
| SelectorAnswers.EventAttributeAnswers | src/query/traceql/eval.rs:500-516 | any attribute under the key in any event may match; no event with the key passes only `!=` |
| SelectorAnswers.SelectorFinds | src/query/traceql/eval.rs:407-451 | a whole selector lists exactly the spans for which all conditions between two `||`s hold, each condition counting as it does alone |
| IngestTraces.IngestRequest | src/ingest/otlp_traces.rs:129-330 | exactly the sent spans with both ids usable are added, in order, each with its sent ids, name, status, kind, capped times, service, prefixed attributes and events, under consecutive numbers; both counts are right and the store stays linked |
| IngestTraces.InternPreparedSpan | src/ingest/otlp_traces.rs:393-461 | interning spells out the prepared span, every attribute value at every depth included, and only grows the interner |
| IngestTraces.InternValueEncodes | src/ingest/otlp_traces.rs:477-499 | interning a value of any kind and nesting spells it out |
| IngestTraces.EncodedValueUnique | src/ingest/otlp_traces.rs:477-499 | a stored value spells out one sent value only, so nothing sent is confused with something else |
| IngestTraces.PrepareLinks | src/ingest/otlp_traces.rs:138-153 | a prepared span whose attributes answer to `resource.service.name` answers with its service |
| SentSpans.AllNumbered | src/ingest/otlp_traces.rs:276-294 | accepted spans are numbered one by one in request order |
| SentSpans.RequestFits | src/ingest/otlp_traces.rs:129-301 | the prepared spans are exactly the usable spans sent, one for one in request order, each field as sent or as the conversion rules say |
| IngestTraces.PushAllAppend | src/ingest/otlp_traces.rs:303-323 | storing scope by scope equals storing the whole request at once |
| IngestTraces.RemovalKeepsLinks | src/store/trace_store.rs:299-468 | both evictions and clearing a service keep the link narrowing relies on |
| StoreRuns.DriveTraces | src/store/trace_store.rs:185-468 | any run of requests, both evictions, service clearing and resets keeps every index exact and every span linked |
| StoreRuns.SelectAfter | src/query/traceql/eval.rs:133-185 | on any store built that way, narrowing through the indexes is invisible |
| StoreRuns.DriveMetrics | src/store/metric_store.rs:115-508 | any run of metric operations keeps the whole invariant |
| StoreRuns.RunEviction | src/store/mod.rs:265-288 | after one pass nothing is older than the retention while the subtraction does not saturate, every store respects its size limit, and what went is exactly age first, then oldest first |
| Ancestry.IsDescendant | src/query/traceql/eval.rs:375-405 | terminates on every parent map, cycles included, and is true iff the ancestor is on the proper chain and not the span itself |
| Ancestry.ChildIsDescendant | src/query/traceql/eval.rs:360-405 | a direct child is a descendant unless it is its own parent |
| TraceQueries.StructuralMatchMeaning | src/query/traceql/eval.rs:304-357 | the pairing, sorting and dedup of a structural operator yield, by ascending id, each related right-hand span once |
| TraceQueries.EvalStructural | src/query/traceql/eval.rs:304-357 | traces matched on both sides with the related spans, by ascending trace id |
| TraceQueries.ApplyStage | src/query/traceql/eval.rs:79-131 | a pipeline stage keeps exactly the traces passing its comparison |
| TraceQueries.Evaluate | src/query/traceql/eval.rs:32-50 | a whole query lists exactly its meaning over the plain traces; the `SelectorAnswers` and `ExpressionAnswers` rows say what that is |
| ExpressionAnswers.CountAnswers | src/query/traceql/eval.rs:81-87 | a count stage keeps exactly the traces whose number of matched spans stands in the asked relation |
| ExpressionAnswers.LongestAnswers | src/query/traceql/eval.rs:100-114 | a longest-duration stage keeps a trace iff some span, or every span, is beyond the bound |
| ExpressionAnswers.ShortestAnswers | src/query/traceql/eval.rs:115-129 | the same for the shortest duration |
| ExpressionAnswers.AverageAnswers | src/query/traceql/eval.rs:88-99 | an average stage compares the exact mean with its fraction cut off; the clamp to 64 bits never matters |
| ExpressionAnswers.PipelineAnswers | src/query/traceql/eval.rs:38-48 | several stages keep what each keeps on its own |
| ExpressionAnswers.StructuralAnswers | src/query/traceql/eval.rs:304-405 | a structural operator lists, per trace found on both sides, the first right-hand span of each id that the stored parent ids link to some left-hand span |
| LogQueries.EvaluateUnlimited | src/query/logql/eval.rs:258-314 | each listed stream with a wanted entry is shown once, with exactly the entries within the bounds that the pipeline passes, in order, each with its stored time, line, ids and attributes; it panics iff a listed stream holds an entry strictly between reversed bounds |
| LogQueries.Offer | src/query/logql/eval.rs:324-360 | one step of the bounded heap keeps a newest selection of everything offered |
| LogQueries.EvaluateLimited | src/query/logql/eval.rs:316-408 | at most `limit` wanted entries, none twice, each shown as stored; one is left out only where `limit` are shown and none of them is older; streams ascend by id, entries in time; it panics in the same cases |
| LogQueries.EvaluateStreamQuery | src/query/logql/eval.rs:227-256 | for any bounds and limit: panics iff the limit is not zero and a selected stream holds an entry strictly between reversed bounds, returns nothing for other reversed bounds or a limit of zero, and else shows all, or the newest, of the stored entries wanted |
| LogQueries.ReversedQueryPanics | src/query/logql/eval.rs:227-256 | a one-entry store and reversed bounds on which the query panics |
| LogMatching.SameSelection | src/query/logql/eval.rs:227-256 | the matching entries do not depend on the order in which streams are visited |
| LogMatching.MatchesShown | src/query/logql/eval.rs:267-303 | what a stream contributes is, position by position, its entries within the bounds that the pipeline passes, as stored |
| LogMatching.NewestAnswers | src/query/logql/eval.rs:316-408 | a newest selection of the matches, traced back to distinct positions in the streams |
| LogQueries.CountMatches | src/mcp/tools/handlers/logs.rs:52-88 | probing one past the limit reports truncation exactly and the exact total; 50 are shown unless asked otherwise, never more than 100 |
| LogGrouping.PromotedValues | src/ingest/label.rs:41-53 | promotion puts the first `service.name` value in place of the first `service` value and leaves every other name alone |
| LogGrouping.GroupRequest | src/ingest/otlp_logs.rs:75-137 | the nested loops with the lookup table produce exactly the grouping of the numbered records |
| LogGrouping.GroupedMeaning | src/ingest/otlp_logs.rs:124-132 | each batch holds exactly the records of its vector in order, batches by first arrival, every record in one |
| LogGrouping.FlattenIsStableSort | src/ingest/otlp_logs.rs:124-132 | the batches end to end are the records stably sorted by first arrival of their vector |
| LogGrouping.RequestNumbered | src/ingest/otlp_logs.rs:110-114 | records are numbered one by one in request order |
| SentLogs.RequestFits | src/ingest/otlp_logs.rs:75-137 | one prepared record for each sent one, in order: line, ids, severity, attributes as sent, the time capped or taken from the clock, labels those of the resource with its service promoted and the level of its severity number |
| IngestLogs.ViewStore | src/store/log_store.rs:109-165 | seen by label vectors, storing a batch changes exactly the equivalent vectors |
| IngestLogs.GroupedGain | src/ingest/otlp_logs.rs:124-163 | grouping hands every stream exactly the records meant for it |
| IngestLogs.BatchingKeepsIds | src/ingest/otlp_logs.rs:139-163 | batched and record-by-record ingestion hand out the same stream ids |
| IngestLogs.BatchingAgreesIff | src/ingest/otlp_logs.rs:75-163 | they leave the same streams iff no two equal-time records of one stream were sent with the later one under a vector seen earlier |
| IngestLogs.RequestBatchingAgreesIff | src/ingest/otlp_logs.rs:75-163 | the same for every request, whose records are numbered distinctly |
| IngestLogs.BatchingInvisible | src/ingest/otlp_logs.rs:63-66 | when different vectors mean different streams, batching is invisible |
| IngestLogs.InterleavedRequestReorders | src/ingest/otlp_logs.rs:62-163 | a request of three resources in two attribute orders, with one record each at one time, does come out in another order |
| IngestLogs.IngestRequest | src/ingest/otlp_logs.rs:62-167 | every record sent is found afterwards in the stream of its labels, as sent; each stream holds its old entries and those meant for it, in time order; count and counter advance by the records sent |
| HealthScoring.ScoreBounds | src/mcp/synth/health.rs:106-125 | scores lie in 30..100; a full score means no error log and no error span |
| HealthScoring.ScoreFormula | src/mcp/synth/health.rs:108-119 | the score is 100 less one point per error log up to 40, less 30 times the share of error spans |
| HealthScoring.LogsCost | src/mcp/synth/health.rs:115-118 | at equal spans, error logs up to 40 cost a point each and further ones nothing |
| HealthScoring.SpansCost | src/mcp/synth/health.rs:108-114 | at equal logs, errors in k of n spans cost exactly 30 k / n points |
| HealthScoring.MoreErrorsScoreWorse | src/mcp/synth/health.rs:106-119 | more errors of either kind never score better, and the scores are equal only where the difference does not count |
| Health.WorstFirst | src/mcp/synth/health.rs:132-138 | of two listed services the one with more errors of either kind stands first |
| Health.KeptEntriesAre | src/mcp/synth/activity.rs:80-130 | the entries counted since a token are those numbered at or above it |
| Health.KeptErrorsAre | src/mcp/synth/activity.rs:130-171 | the error spans counted are those with status error numbered at or above the token |
| Health.TracesCounted | src/mcp/synth/activity.rs:130-171 | failing traces are those of the service with an error span in scope, active ones those with any span in scope |
| Health.FirstServiceIsFirst | src/mcp/synth/health.rs:41-63 | a stream is credited to the text of its first `service` label |
| Health.CountLogErrors | src/mcp/synth/health.rs:34-64 | the single pass credits each error stream to its first service |
| Health.CountSpans | src/mcp/synth/health.rs:66-95 | the single pass credits each trace once to every service in it |
| Health.CheckHealth | src/mcp/synth/health.rs:22-140 | every known service once, worst first, each line with the exact score and the top issue of its error logs, spans and failing traces |
| Health.SummarizeActivity | src/mcp/synth/activity.rs:80-171 | the index-driven summary of one service equals its tallies over all streams and traces, with or without `since`, and its score is the exact one for them |
| Health.ErrorLogsAgreeIff | src/mcp/synth/health.rs:41-63 | for one service the two error counts agree iff no error stream naming it is credited elsewhere; the pass never counts more |
| Health.OverviewMatchesSummariesIff | src/mcp/synth/health.rs:22-140 | overview and summaries agree for every service iff each non-empty error stream names one service |
| Health.SecondServiceIsOverlooked | src/mcp/synth/health.rs:41-63 | a concrete stream with two services on which they disagree |
| TraceTree.LinkSpans | src/mcp/synth/trace.rs:74-82 | the loop collects exactly the children of each span and the spans without a present parent |
| TraceTree.NodeShape | src/mcp/synth/trace.rs:84-136 | below any node children name it as parent, ascend in start time, and the depth never exceeds the cap |
| SpanWalks.RootWalksExact | src/mcp/synth/trace.rs:74-147 | the list of root walks has every downward walk from a root within the depth cap exactly once |
| TraceTree.NodeCount | src/mcp/synth/trace.rs:84-136 | for any span list a node holds a span once for every walk down to it within the depth left |
| TraceTree.ForestCountsWalks | src/mcp/synth/trace.rs:64-147 | for any span list the forest shows a span once for every root walk of at most 128 spans ending at it |
| TraceTree.ShownAtMostOnceIff | src/mcp/synth/trace.rs:64-147 | every span is shown at most once iff no span hangs below two spans of one id that both lie within 126 links of a root |
| TraceTree.DistinctShownOnce | src/mcp/synth/trace.rs:64-147 | with distinct ids the spans within 127 links of a root are shown exactly once and no others |
| TraceTree.BuildTraceTree | src/mcp/synth/trace.rs:64-147 | the forest of a stored trace has that shape and those counts, repeated ids included; nothing for an unknown trace |
| TraceTree.ResentTraceRepeatsChildren | src/mcp/synth/trace.rs:64-147 | a trace sent twice shows its child under both copies of the root |
| LogQLParser.ParseQuotedString | src/query/logql/parser.rs:332-364 | the character loop computes the grammar of quoted strings, escapes and missing quotes included |
| LogQLParser.ParseStages | src/query/logql/parser.rs:262-279 | the stage loop stops at the first soft failure and passes on a hard one |
| LogQLPrinting.QuotedStringUndoesQuoted | src/mcp/tools/handlers/common.rs:51-53 | the parser undoes the escaping for every string and every following input |
| LogQLPrinting.EscapeInjective | src/mcp/tools/handlers/common.rs:51-53 | distinct strings are escaped differently |
| LogQLPrinting.SelectorReadBack | src/query/logql/parser.rs:293-330 | every printed selector is read back, whatever follows |
| LogQLPrinting.ContainsReadBack | src/query/logql/parser.rs:486-491 | the printed line filter is read back as the only stage |
| LogQLPrinting.PrintedFiltersReadBack | src/query/logql/parser.rs:172-213 | printing then parsing is the identity for every list of matchers with plain names and every line filter |
| LogQLPrinting.BuildQuery | src/mcp/tools/handlers/logs.rs:16-37 | for all service, level and contains strings the built query parses to exactly those filters; an error iff neither service nor level is given |
| LogQLParser.EscapesRead | src/query/logql/parser.rs:336-356 | what each escape reads as, and that a string without closing quote is refused |
| LogQLRoundTrip.StageReadBack | src/query/logql/parser.rs:366-530 | every kind of stage, printed, is read back, whatever stage or end follows |
| LogQLRoundTrip.ExprReadBack | src/query/logql/parser.rs:172-530 | printing then parsing is the identity on every expression, metric queries included, whose names are plain ASCII and no stage keyword, whose patterns compile and whose numbers and durations are spelled readably |
| LogQLRoundTrip.PrintInjective | src/query/logql/parser.rs:172-530 | different expressions are printed differently |
| LogQLRoundTrip.LabelFilterReadIff | src/query/logql/parser.rs:377-484 | a filter on a label is read as such iff the label is not named like a stage |
| IngestSeq.StepKeeps | src/ingest/otlp_logs.rs:110-142 | every step of the protocol keeps the numbers distinct and owned |
| IngestSeq.AlwaysDistinctAndBelow | src/store/mod.rs:228-248 | in every interleaving with snapshots and restarts all reserved and stored numbers are distinct and below the counter |
| IngestSeq.TokenSeparates | src/mcp/tools/handlers/activity.rs:47-58 | within one lifetime an item is at or above a checkpoint token iff its number was reserved after the load |
| IngestSeq.TokenSurvivesRestartIff | src/main.rs:55-63 | after a restore everything handed out lies at or above a token iff the restored stores reach up to it |
| IngestSeq.TokenSeparatesAcrossIff | src/main.rs:55-63 | a token separates across one restart iff the restored stores reach up to it and hold nothing foreign to the lifetime at or above it |
| IngestSeq.RestartForgetsTokens | src/main.rs:55-63 | a run in which numbers lost with the process are handed out again below an old token |
| IngestSeq.SequenceSeed | src/store/mod.rs:228-248 | the seed after a restore is one above the highest stored number, 1 when nothing is stored |
| Quantiles.HistogramQuantile | src/query/promql/eval/functions.rs:59-105 | the bucket loop computes the value at which the cumulative counts reach the target, nothing for an empty histogram |
| Quantiles.ValueInBucket | src/query/promql/eval/functions.rs:84-99 | the value lies between the bounds of the bucket reaching the target |
| Quantiles.QuantileExact | src/query/promql/eval/functions.rs:74-99 | the value lies as far along the bounds of the first bucket to reach the share as the share lies along its counts, which determines it |
| Quantiles.QuantilesInRangeIff | src/query/promql/eval/functions.rs:59-105 | all quantiles lie between 0 and the largest finite bound iff every infinite bucket holds the total |
| Quantiles.QuantileMonotone | src/query/promql/eval/functions.rs:59-105 | a larger quantile never has a smaller value |
| Quantiles.TwoOverflowsEscape | src/query/promql/eval/functions.rs:36-40 | two unreadable bounds push a quantile beyond every finite bound |
| Quantiles.SampleQuantile | src/query/promql/eval/functions.rs:389-406 | the quantile of sorted samples lies between the extremes, reaches both, and never decreases |
| Quantiles.SampleQuantileExact | src/query/promql/eval/functions.rs:389-406 | between two neighbouring samples the quantile is as far along as its rank |

## Left out

- Aliasing of posting lists: each list is a value in its map, taken into a `PostingList` object, changed and put back, as ownership allows in the program.
- Hash iteration inside evictions: eviction loops that trim, drop and rebuild in one walk are split into passes with the same final state.
- The check that an identity lookup points at a missing stream: the invariant makes that branch unreachable.
- The lazily built list of all ids: computed eagerly, with the same value.
- Metric evictions keep stale entries in the visible-name registry, as the program does; only clearing a service prunes it.
- Interned attribute strings of log entries: kept spelled out in the entry, though interned in the same order.
- Order in which span attribute strings are interned: differs in numbering only.
- IngestTraces.IngestRequest: stores a request at once instead of scope by scope; `IngestTraces.PushAllAppend` shows both end alike.
- Span links and status messages: carried along by the program, read by no modelled query.
- LogQueries.EvaluateLimited: which of several equal-time entries survives is not determined; the heap is a list from which the oldest is removed.
- LogQueries.CountMatches: which entry the final `truncate` drops is not determined.
- Attribute lists of matched spans: display values, not part of the result.
- TraceQueries.Evaluate: metric fields of trace summaries (root name, duration) are not part of the result.
- Health.SummarizeActivity: the listed log lines, notable traces and metric rows are display and are not modelled, only the counts and the score.
- LogQLParser.ParseStages: error positions and messages are reduced to trailing input and syntax error.
- Quantiles.HistogramQuantile: grouping of series by labels and sorting buckets by bound come before it and are not modelled; bounds that parse to negative infinity or NaN are not represented.
- IngestSeq.AlwaysDistinctAndBelow: the counter does not wrap and does not saturate.
- Wall clocks are parameters; OTLP, protobuf, gzip, snappy and bincode decoding, HTTP, gRPC and MCP routing, JSON output, the user interface, configuration and memory estimates are not modelled.
- PromQL vector matching, aggregation and range functions other than the quantiles: their results depend on label order and float rounding.
