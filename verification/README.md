# chat-graph-viz, modelled in Dafny

chat-graph-viz turns a ChatGPT `conversations.json` export into an
interactive graph of conversations clustered by topic. This project models
the core of that pipeline as pure Dafny functions and proves properties of
them:

- **the export parser** (`ChatParser`, `MessageUtils`, over the `Json`
  value type). It starts from the decoded JSON. It walks each
  conversation's `mapping` and keeps one flat `Message` per node with
  non-blank text, sorted by time. It also covers the summary statistics,
  the message filters and the per-conversation sampler.
- **the processing worker** (`Normalizer`, `Embedding`, `KMeans`,
  `Worker`, `Protocol`). `cleanText` prepares each text. Embeddings are
  computed in batches of 50, with a progress event per batch. The number
  of clusters comes from a square-root heuristic. Lloyd's k-means runs
  for at most ten iterations. A `PROCESS_MESSAGES` request ends in exactly
  one completion or error event.
- **the graph effect** (`FirstMessages`, `Labeler`, `GraphAssembly`). It
  keeps one node per conversation, built from the conversation's earliest
  message. It groups conversations by cluster and labels each cluster with
  the three most frequent title words. Clusters of fewer than two
  conversations are outliers: black, with a blank label. It builds the
  legend and the graphology graph of cluster nodes, conversation nodes and
  edges.
- **the colour palette** (`ClusterColors`): twenty `#rrggbb` colours, and
  their `rgba(..., .75)` form.

Shared building blocks live in their own modules:

- `Text`: whitespace, `trim`, the `\s+` collapse, ASCII lower-casing,
  `join`, and printing and parsing decimal numbers.
- `Seqs`: filter, select by key, sum and flatten.
- `StableSort`: a stable sort by an integer key, the behaviour ECMAScript
  guarantees for `Array.prototype.sort`.
- `Grouping`: grouping in first-appearance order, as a JavaScript `Map`
  does it.
- `Tally`: counting with an object, then ranking its entries by
  descending count.

The embedding model and `Math.random` cannot be seen from here. They are
parameters: a `Model` function from a batch of texts to vectors or an
error message, and a `draw` function choosing each initial centroid's
point. Every property proved holds for every model and every draw.

Behaviours of the code that are easy to miss, which the model follows:

- The number of clusters is not capped by the number of messages
  (`KMeans.SinglePoint`).
- A cluster that loses all its members gets the zero vector as its
  centroid. It does not keep its previous centroid (`KMeans.StoppedCentroids`).
- The embedding progress event for a batch is posted before that batch is
  embedded (`Embedding.EmbedFails`).
- Cluster labels are computed from conversation titles cut to 60
  characters, not from the full titles.
- `sampleMessages` returns nothing when there are more conversations than
  `maxMessages` (`MessageUtils.SampleTooManyConversations`).
- k-means starts with every assignment at 0. So the first iteration
  reports "no change" whenever every point is nearest to centroid 0. The
  loop then stops after one iteration in a state that is not a fixed point
  (`KMeans.StopsAfterFirstIteration`, `KMeans.NotConvergedWhenStopped`).
  After any later iteration, stopping is sound (`KMeans.NoChangeKeepsState`).

## Model

| member | source | states |
|---|---|---|
| ClusterColors.PaletteDistinct | chat-graph-viz/src/utils/clusterColors.js:3-8 | the twenty palette colours are pairwise different |
| ClusterColors.PaletteHasNoBlack | chat-graph-viz/src/utils/clusterColors.js:3-8 | no palette colour is `#000000`, the colour reserved for outliers |
| ClusterColors.ParseHexPairOfHexPair | chat-graph-viz/src/utils/clusterColors.js:14-16 | parsing two hex digits inverts printing a byte in hex |
| ClusterColors.HexPairOfParseHexPair | chat-graph-viz/src/utils/clusterColors.js:14-16 | printing a parsed lower-case hex pair gives the pair back, the other direction of the round trip |
| ClusterColors.Channels | chat-graph-viz/src/utils/clusterColors.js:13-16 | the red, green and blue values read from `#rrggbb` are bytes, and printing them in hex rebuilds the colour |
| ClusterColors.ColorForCluster | chat-graph-viz/src/utils/clusterColors.js:9-20 | the solid colour is the palette entry at `id mod 20`; the transparent colour is the `rgba` string of the three bytes whose hex form is that entry |
| ClusterColors.ColorPeriodic | chat-graph-viz/src/utils/clusterColors.js:10 | colours repeat with period 20 |
| ClusterColors.ColorsDistinctInPeriod | chat-graph-viz/src/utils/clusterColors.js:3-10 | two different ids below 20 get different solid colours |
| Text.Trim | chat-graph-viz/public/ProcessingWorker.js:183 | the result is empty exactly when the input is all whitespace; otherwise it neither starts nor ends with whitespace; it keeps every non-whitespace character in order |
| Text.TrimFixedPoint | chat-graph-viz/public/ProcessingWorker.js:183 | trimming leaves a string unchanged exactly when it has no whitespace at either end |
| Text.CollapseSingleSpaced | chat-graph-viz/public/ProcessingWorker.js:184 | after `replace(/\s+/g, ' ')` the only whitespace is single spaces |
| Text.CollapseFixedPoint | chat-graph-viz/public/ProcessingWorker.js:184 | a string that is already single-spaced is left unchanged by the collapse |
| Text.ParsePrinted | chat-graph-viz/src/components/LoadGraph.jsx:81-82 | `Number` of the decimal printed for a natural number gives the number back |
| Text.PrintParsed | chat-graph-viz/src/components/LoadGraph.jsx:81-82 | printing the number parsed from a canonical numeral gives the numeral back |
| Text.ContainsOccurrence | chat-graph-viz/src/utils/ChatParser.js:257-264 | `includes` finds a term exactly when the term occurs at some position |
| Normalizer.CleanText | chat-graph-viz/public/ProcessingWorker.js:177-186 | a missing or non-string text cleans to ""; the result has at most 500 characters, no leading whitespace and single spaces only, and ends in a space only when cut at 500; it is empty exactly when the text is all whitespace; its non-whitespace characters start those of the input, and are all of them when the input has at most 500 characters |
| Normalizer.CleanTextIdempotentIff | chat-graph-viz/public/ProcessingWorker.js:177-186 | cleaning a cleaned text changes it exactly when the cleaned text ends in a space |
| Normalizer.CutAtSpace | chat-graph-viz/public/ProcessingWorker.js:182-185 | a single-spaced text longer than 500 characters whose 500th character is a space cleans to a text ending in a space |
| Normalizer.CleanTextNotIdempotent | chat-graph-viz/public/ProcessingWorker.js:177-186 | there is a text on which cleaning twice differs from cleaning once |
| Embedding.BatchEnds | chat-graph-viz/public/ProcessingWorker.js:137-139 | the loop makes ceil((n - i) / 50) turns; turn q starts below n and its batch end is `min(i + 50(q + 1), n)` |
| Embedding.BatchEndsShape | chat-graph-viz/public/ProcessingWorker.js:137-139 | batch ends rise strictly, every batch holds between 1 and 50 texts, and the last batch ends at the last text |
| Embedding.BatchesShape | chat-graph-viz/public/ProcessingWorker.js:137-138 | batch q is the slice of the texts from `i + 50q` to the q-th batch end |
| Embedding.BatchesConcatenate | chat-graph-viz/public/ProcessingWorker.js:137-138 | the batches concatenated give back the texts from `i` on: they cover every text once and in order |
| Embedding.EmbedFrom | chat-graph-viz/public/ProcessingWorker.js:137-149 | every event posted is the embedding progress event of a batch end with the total, in batch order, and there are no more of them than batches |
| Embedding.EmbedSucceedsIff | chat-graph-viz/public/ProcessingWorker.js:151-168 | the embedding loop succeeds exactly when the model accepts every batch |
| Embedding.EmbedSucceeds | chat-graph-viz/public/ProcessingWorker.js:153-157 | on success every batch was announced, and the result is the model's vectors of all batches in order |
| Embedding.EmbedFails | chat-graph-viz/public/ProcessingWorker.js:141-168 | on failure the last progress event announced the failing batch, every earlier batch was accepted, and the error carries the model's message |
| Embedding.PointwiseModel | chat-graph-viz/public/ProcessingWorker.js:134-157 | when the model embeds each text on its own, the loop returns exactly one vector per text, in order |
| KMeans.Distance | chat-graph-viz/public/ProcessingWorker.js:312-324 | the distance throws "Vectors must have same length" exactly on vectors of different lengths; otherwise it is non-negative, and zero from a vector to itself |
| KMeans.DistanceSymmetric | chat-graph-viz/public/ProcessingWorker.js:312-324 | swapping the two vectors does not change the distance or the error |
| KMeans.Nearest | chat-graph-viz/public/ProcessingWorker.js:243-253 | the scan throws exactly when some centroid differs in length from the point; otherwise it returns a centroid no other is closer than, with every earlier one strictly farther; with no centroid it returns 0 |
| KMeans.AssignAllNearest | chat-graph-viz/public/ProcessingWorker.js:243-259 | after a successful assignment pass, every point is assigned to its nearest centroid, the lowest index winning ties |
| KMeans.UpdateCentroids | chat-graph-viz/public/ProcessingWorker.js:261-283 | the accumulate-and-divide loops compute, for every cluster, the mean of its members, and the zero vector for a cluster without members |
| KMeans.CentroidOfIdentical | chat-graph-viz/public/ProcessingWorker.js:274-281 | a cluster whose members all equal `v` has centroid `v` |
| KMeans.CountsSum | chat-graph-viz/public/ProcessingWorker.js:263-267 | the cluster counts add up to the number of points |
| KMeans.Step | chat-graph-viz/public/ProcessingWorker.js:242-283 | an iteration throws exactly when some centroid differs in length from some point; otherwise it keeps the state valid and k centroids, and `changed` is set exactly when the new assignment differs from the old |
| KMeans.StepMeaning | chat-graph-viz/public/ProcessingWorker.js:242-283 | a successful iteration assigns every point to its nearest centroid and moves every centroid to the mean of its new members |
| KMeans.RunEvents | chat-graph-viz/public/ProcessingWorker.js:285-294 | the e-th progress event of the loop announces iteration `iter + e + 1` of `maxIterations` |
| KMeans.RunBound | chat-graph-viz/public/ProcessingWorker.js:239 | at most `maxIterations - iter` iterations are announced |
| KMeans.RunResult | chat-graph-viz/public/ProcessingWorker.js:239-306 | the returned assignment is the state after as many iterations as were announced; an error comes from the iteration after the last announced one |
| KMeans.RunChanges | chat-graph-viz/public/ProcessingWorker.js:296-300 | every announced iteration but the last changed some assignment |
| KMeans.RunStopsEarly | chat-graph-viz/public/ProcessingWorker.js:296-300 | a successful run that stops before `maxIterations` stops right after an iteration that changed nothing |
| KMeans.RunSucceeds | chat-graph-viz/public/ProcessingWorker.js:239-306 | with points and centroids of one length, no distance throws and the loop succeeds |
| KMeans.InitialState | chat-graph-viz/public/ProcessingWorker.js:229-236 | the initial state is valid, with k centroids, each a copy of some point |
| KMeans.KMeansClustering | chat-graph-viz/public/ProcessingWorker.js:225-307 | the run succeeds exactly when all points have the first point's length, and otherwise throws before announcing anything; on success it gives one cluster below k per point after 1 to 10 announced iterations, announced in order |
| KMeans.RunOkIffUniform | chat-graph-viz/public/ProcessingWorker.js:225-259 | starting from copied centroids, the loop fails exactly when the points differ in length, and then posts no event |
| KMeans.FirstStepFails | chat-graph-viz/public/ProcessingWorker.js:227-259 | points of different lengths make the first assignment pass throw |
| KMeans.NoChangeKeepsState | chat-graph-viz/public/ProcessingWorker.js:255-300 | when the centroids already belong to the assignment, an iteration without change reproduces its state exactly |
| KMeans.SinglePoint | chat-graph-viz/public/ProcessingWorker.js:229-300 | one point and any k of at least 1: every point in cluster 0 after one announced iteration, since k is not capped |
| KMeans.StopsAfterFirstIteration | chat-graph-viz/public/ProcessingWorker.js:236-300 | points 0 and 10 with every random pick on the first point: the loop stops after one iteration with both points in cluster 0 |
| KMeans.StoppedCentroids | chat-graph-viz/public/ProcessingWorker.js:261-283 | in that run cluster 0 gets centroid 5, and the two empty clusters get the zero vector |
| KMeans.NotConvergedWhenStopped | chat-graph-viz/public/ProcessingWorker.js:239-300 | from that stopped state a further iteration would still move the point 0, so the early stop left a state that is not a fixed point |
| Worker.NumClusters | chat-graph-viz/public/ProcessingWorker.js:196-200 | the cluster count lies between 3 and 20: 3 below 32 messages, 20 from 800 on, and in between the k with `2k² <= n < 2(k+1)²` |
| Worker.FloorSqrtHalfUnique | chat-graph-viz/public/ProcessingWorker.js:198 | `floor(sqrt(n / 2))` is the only m with `2m² <= n < 2(m+1)²` |
| Worker.NumClustersMonotone | chat-graph-viz/public/ProcessingWorker.js:196-200 | more messages never give fewer clusters |
| Worker.ClusterMessages | chat-graph-viz/public/ProcessingWorker.js:191-220 | a length mismatch throws before any event; otherwise clustering succeeds exactly when all embeddings have one length, and then every message keeps its data and its own embedding and gets a cluster below `numClusters` |
| Worker.ProcessMessages | chat-graph-viz/public/ProcessingWorker.js:77-124 | a request ends in exactly one terminal event, after status and progress events only; without a model it ends in the "not loaded" error, and with a non-array or empty payload in the "Invalid messages array" error |
| Worker.CompletionStats | chat-graph-viz/public/ProcessingWorker.js:106-114 | the stats count every message, report one more cluster than the largest cluster id so that every id is below the count and some message has the last one, and give the length of the first vector |
| Worker.ProcessCompletes | chat-graph-viz/public/ProcessingWorker.js:95-116 | a request completes exactly when the model accepts every batch and returns one vector per message, all of one length; the completion then carries every message in input order with its own vector and a cluster below the reported cluster count, and the stats count the messages and the vector length |
| Worker.ProcessFails | chat-graph-viz/public/ProcessingWorker.js:16-42 | an error event after the guards carries the model's own message for a failing batch, or the length-mismatch or dimension message |
| Worker.PointwiseEmbeddings | chat-graph-viz/public/ProcessingWorker.js:129-217 | with a model that embeds each text on its own, message i is completed with the vector of its own cleaned text |
| Grouping.AddToShape | chat-graph-viz/src/components/LoadGraph.jsx:54-55 | appending to a group changes only the group of that key, and opens a new group at the end when the key is new |
| Grouping.AddToSum | chat-graph-viz/src/components/LoadGraph.jsx:54-55 | each step adds exactly one member in total |
| Grouping.GroupingStep | chat-graph-viz/src/components/LoadGraph.jsx:53-56 | one loop turn keeps the grouping invariant: distinct keys in first-appearance order, each group exactly the elements with its key in input order, none empty, sizes adding up to the input |
| Grouping.GroupBy | chat-graph-viz/src/components/LoadGraph.jsx:52-56 | the result is the grouping of the input by key, with the invariant above |
| Grouping.GroupByCovers | chat-graph-viz/src/components/LoadGraph.jsx:52-56 | every element's key has a group |
| FirstMessages.Firsts | chat-graph-viz/src/components/LoadGraph.jsx:39-45 | the first-message map holds at most one entry per message, each an input message (`FirstsKeys` and `FirstsChosen` state which) |
| FirstMessages.PickKeys | chat-graph-viz/src/components/LoadGraph.jsx:42-43 | setting a known conversation keeps its place in the map; a new conversation is appended at the end |
| FirstMessages.PickAt | chat-graph-viz/src/components/LoadGraph.jsx:42-43 | only the entry of the message's conversation can change, and it becomes the message exactly when the message is strictly earlier |
| FirstMessages.FirstsKeys | chat-graph-viz/src/components/LoadGraph.jsx:39-46 | each conversation is kept once, in order of first appearance |
| FirstMessages.ChosenUnique | chat-graph-viz/src/components/LoadGraph.jsx:42 | at most one message of a conversation is earliest, ties going to the first |
| FirstMessages.FirstsChosen | chat-graph-viz/src/components/LoadGraph.jsx:39-45 | every kept message is its conversation's earliest message, `null` counting as 0 and the first winning ties |
| Tally.CountKeys | chat-graph-viz/src/components/LoadGraph.jsx:21 | the counted keys are the distinct words in order of first occurrence |
| Tally.CountCounts | chat-graph-viz/src/components/LoadGraph.jsx:21 | each key's count is its number of occurrences, at least 1 |
| Tally.TopMeaning | chat-graph-viz/src/components/LoadGraph.jsx:23-25 | the ranking keeps `min(n, #entries)` entries of the input, in non-increasing count; entries of equal count keep their input order |
| Tally.TopIsTop | chat-graph-viz/src/components/LoadGraph.jsx:23-25 | no entry left out counts more than an entry kept |
| Tally.TopDistinct | chat-graph-viz/src/components/LoadGraph.jsx:23-25 | distinct keys stay distinct after ranking |
| Tally.TopOfCount | chat-graph-viz/src/utils/ChatParser.js:198-200 | counting then ranking yields `min(n, #distinct)` distinct keys of the input, each with its number of occurrences, most frequent first |
| Tally.TopOfCountIsTop | chat-graph-viz/src/utils/ChatParser.js:198-200 | a value left out of the ranking occurs no more often than any value kept |
| Labeler.Normalize | chat-graph-viz/src/components/LoadGraph.jsx:16-18 | every character is lower-cased, and kept if a letter or digit, otherwise replaced by a space; the length is unchanged |
| Labeler.NormalizeIdempotent | chat-graph-viz/src/components/LoadGraph.jsx:17-18 | normalizing twice changes nothing more |
| Labeler.TokensOfJoin | chat-graph-viz/src/components/LoadGraph.jsx:19 | splitting on whitespace undoes joining space-free words with single spaces |
| Labeler.TokensKeepCharacters | chat-graph-viz/src/components/LoadGraph.jsx:19-20 | the tokens concatenated are the text without its spaces |
| Labeler.WordsFrom | chat-graph-viz/src/components/LoadGraph.jsx:15-21 | a word is counted exactly when some title yields it |
| Labeler.TopWordsShape | chat-graph-viz/src/components/LoadGraph.jsx:13-26 | a label has `min(n, #distinct words)` distinct words, each a counted word of at least three letters or digits and not a stopword |
| Labeler.TopWordsOrdered | chat-graph-viz/src/components/LoadGraph.jsx:23-26 | label words come most frequent first |
| Labeler.TopWordsAreTop | chat-graph-viz/src/components/LoadGraph.jsx:23-26 | no word left out of the label is more frequent than a word in it |
| Labeler.GetTopWords | chat-graph-viz/src/components/LoadGraph.jsx:13-28 | the joined label is empty exactly when no word is asked for or no title has a counted word (`TopWordsShape`, `TopWordsOrdered` and `TopWordsAreTop` state which words it holds) |
| Labeler.LabelEmpty | chat-graph-viz/src/components/LoadGraph.jsx:13-28 | the label is empty exactly when no word is asked for or no title has a counted word |
| GraphAssembly.ConvosMeaning | chat-graph-viz/src/components/LoadGraph.jsx:39-51 | one conversation node per conversation, with distinct ids in order of first appearance, each built from its conversation's earliest message |
| GraphAssembly.JoinSplit | chat-graph-viz/src/components/LoadGraph.jsx:81 | joining the pieces of `split` with the separator gives the string back |
| GraphAssembly.ClusterIdParts | chat-graph-viz/src/components/LoadGraph.jsx:54 | `cluster-${k}` splits on '-' into "cluster" and the decimal of k |
| GraphAssembly.ClusterNumberOfId | chat-graph-viz/src/components/LoadGraph.jsx:81-82 | `Number(id.split('-')[1])` reads the cluster id back from its node id |
| GraphAssembly.ClusterNodeIdInjective | chat-graph-viz/src/components/LoadGraph.jsx:54 | different clusters get different node ids |
| GraphAssembly.LegendOutlier | chat-graph-viz/src/components/LoadGraph.jsx:76-90 | a legend row has the blank label exactly when its cluster has fewer than two conversations, and is black exactly then; otherwise it takes the cluster's palette colour |
| GraphAssembly.LegendCounts | chat-graph-viz/src/components/LoadGraph.jsx:52-90 | one legend row per cluster in order of first appearance, each counting its cluster's conversations, the counts adding up to all conversations |
| GraphAssembly.NeighborCount | chat-graph-viz/src/components/LoadGraph.jsx:57-58 | the UMAP neighbourhood size is 10 or `nSamples - 1`, whichever is smaller |
| GraphAssembly.AddNodesOk | chat-graph-viz/src/components/LoadGraph.jsx:97-111 | nodes with fresh, distinct ids are all added, in order |
| GraphAssembly.AddNodesFails | chat-graph-viz/src/components/LoadGraph.jsx:97-111 | a node whose id is already taken makes `addNode` throw |
| GraphAssembly.AddLinkedOk | chat-graph-viz/src/components/LoadGraph.jsx:118-133 | fresh, distinct conversation nodes, each with an edge from an existing node, are all added with their edges, in order |
| GraphAssembly.AddLinkedFails | chat-graph-viz/src/components/LoadGraph.jsx:118-133 | a conversation id already taken by a node makes `addNode` throw |
| GraphAssembly.ClustersCover | chat-graph-viz/src/components/LoadGraph.jsx:52-56 | cluster ids are distinct, and every conversation's cluster is among them |
| GraphAssembly.ClusterNodeOfEveryConvo | chat-graph-viz/src/components/LoadGraph.jsx:119-132 | every conversation's edge starts at an existing cluster node |
| GraphAssembly.GraphBuilds | chat-graph-viz/src/components/LoadGraph.jsx:95-133 | the graph is built without throwing exactly when no conversation id is also a cluster node id; it then holds the cluster nodes, then the conversation nodes, and one edge per conversation |
| GraphAssembly.BuildsFrom | chat-graph-viz/src/components/LoadGraph.jsx:95-133 | the same, for any clusters with distinct ids that cover every conversation |
| GraphAssembly.OutlierIdsMeaning | chat-graph-viz/src/components/LoadGraph.jsx:113-117 | a cluster is an outlier exactly when it has fewer than two conversations |
| GraphAssembly.ConvoColorMatchesLegend | chat-graph-viz/src/components/LoadGraph.jsx:113-121 | a conversation node has the colour its cluster has in the legend |
| GraphAssembly.ClusterNodeMatchesLegend | chat-graph-viz/src/components/LoadGraph.jsx:97-111 | a cluster node carries its legend row's id and label, is black exactly when the row is, otherwise takes the transparent palette colour, and has size 1 or `5 + 0.3 × count` |
| GraphAssembly.LoadGraph | chat-graph-viz/src/components/LoadGraph.jsx:35-135 | the effect does nothing exactly when there are no messages; otherwise it gives at most 10 UMAP neighbours and one legend row per cluster (`LoadGraphBuilds` states the graph) |
| GraphAssembly.LoadGraphBuilds | chat-graph-viz/src/components/LoadGraph.jsx:35-135 | on any non-empty input the effect builds the graph exactly when no conversation id is also a cluster node id; the graph then has one node per cluster and per conversation and one edge per conversation, and UMAP gets fewer neighbours than there are conversations |
| StableSort.Sort | chat-graph-viz/src/utils/ChatParser.js:121-125 | sorting gives a permutation, sorted by key, in which elements of equal key keep their input order |
| StableSort.StableSortUnique | chat-graph-viz/src/utils/ChatParser.js:121-125 | two sequences that are sorted and agree on every key class are equal, so the contract of `Sort` fixes its result |
| ChatParser.ExtractTextFromParts | chat-graph-viz/src/utils/ChatParser.js:135-144 | the extracted text neither starts nor ends with whitespace |
| ChatParser.ExtractTextEmpty | chat-graph-viz/src/utils/ChatParser.js:135-144 | the text is empty exactly when `parts` is not an array or holds no non-blank string |
| ChatParser.ExtractTextKeepsCharacters | chat-graph-viz/src/utils/ChatParser.js:140-143 | the text holds exactly the non-whitespace characters of the kept parts, in order |
| ChatParser.ExtractTextOfCleanParts | chat-graph-viz/src/utils/ChatParser.js:140-143 | non-blank string parts without surrounding whitespace come back joined by single spaces |
| ChatParser.NodeMessageSkips | chat-graph-viz/src/utils/ChatParser.js:72-91 | a node yields a message exactly when its message content has a `parts` array holding a non-blank string |
| ChatParser.NodeMessageFields | chat-graph-viz/src/utils/ChatParser.js:94-115 | a kept node's message has the non-blank extracted text, the node id and the conversation's id and title; a missing id falls back to the node id, a missing role to "unknown", a missing time to the conversation's creation time |
| ChatParser.CollectMembers | chat-graph-viz/src/utils/ChatParser.js:72-116 | a message is collected exactly when some mapping entry yields it |
| ChatParser.ExtractMessagesFromMapping | chat-graph-viz/src/utils/ChatParser.js:68-128 | at most one message per mapping key, sorted by `timestamp \|\| 0`, and a permutation of the messages the nodes yield |
| ChatParser.MappingMessages | chat-graph-viz/src/utils/ChatParser.js:68-128 | a mapping yields at most one message per key, sorted by `timestamp \|\| 0` with ties in key order; each is some node's message, every node's message is among them, and all belong to the conversation |
| ChatParser.ParseConversations | chat-graph-viz/src/utils/ChatParser.js:11-57 | parsing fails exactly when the top level is not an array, and then with the "Invalid format" message (`ParseGroups` states the messages) |
| ChatParser.ParseRejects | chat-graph-viz/src/utils/ChatParser.js:12-56 | parsing fails exactly when the top level is not an array, with the wrapped "Invalid format" message |
| ChatParser.ConversationOwnsMessages | chat-graph-viz/src/utils/ChatParser.js:23-47 | only object entries yield messages, and each carries its entry's conversation id, a non-empty title and non-blank text |
| ChatParser.ParseGroups | chat-graph-viz/src/utils/ChatParser.js:23-48 | with distinct conversation ids, selecting one conversation from the flat result gives back exactly that conversation's sorted messages |
| ChatParser.GeneratedIdsDistinct | chat-graph-viz/src/utils/ChatParser.js:30 | generated ids `conv_<index>` never collide |
| ChatParser.UnnamedConversationsDistinct | chat-graph-viz/src/utils/ChatParser.js:30 | an export whose conversations carry no id of their own has distinct conversation ids |
| MessageUtils.CountOfCount | chat-graph-viz/src/utils/ChatParser.js:174 | looking a role up in the counts gives its number of occurrences, 0 when absent |
| MessageUtils.GetConversationStats | chat-graph-viz/src/utils/ChatParser.js:151-213 | the message count is the input length, and it is zero, with every other field empty, exactly for a non-array or empty input |
| MessageUtils.StatsCounts | chat-graph-viz/src/utils/ChatParser.js:151-207 | all counts are zero exactly for a non-array or empty input; otherwise the stats count the messages, the distinct conversations and the user and assistant messages |
| MessageUtils.StatsAverage | chat-graph-viz/src/utils/ChatParser.js:208-209 | the average is messages per conversation rounded to tenths, half-way cases up |
| MessageUtils.StatsDates | chat-graph-viz/src/utils/ChatParser.js:182-195 | the date range is absent exactly when no message has a truthy timestamp; otherwise it runs from the smallest to the largest truthy timestamp, both carried by some message |
| MessageUtils.StatsTopModels | chat-graph-viz/src/utils/ChatParser.js:176-201 | at most five distinct models, each the model of some message with its number of messages, most used first |
| MessageUtils.FilterMeaning | chat-graph-viz/src/utils/ChatParser.js:221-267 | the four filters applied in turn are one filter: a message is kept when it passes every active test |
| MessageUtils.FilterMessages | chat-graph-viz/src/utils/ChatParser.js:221-267 | a non-array gives nothing; otherwise the result is no longer than the input and holds only input messages that pass every active test |
| MessageUtils.FilterKeeps | chat-graph-viz/src/utils/ChatParser.js:221-267 | a non-array gives nothing; otherwise a message is in the result exactly when it is in the input and passes every active test, and the result keeps the input order |
| MessageUtils.FilterNothing | chat-graph-viz/src/utils/ChatParser.js:226-264 | with no active filter the input comes back unchanged |
| MessageUtils.SliceTo | chat-graph-viz/src/utils/ChatParser.js:309 | the slice is a prefix, of at most `end` messages when `end` is non-negative, and all of the input when `end` reaches its length |
| MessageUtils.SampleMessages | chat-graph-viz/src/utils/ChatParser.js:275-310 | the result is an array exactly when the input is, and a non-array or an input of at most `max` messages comes back unchanged (`SampleLarge` and `SamplePerConversation` state the large case) |
| MessageUtils.SampleSmall | chat-graph-viz/src/utils/ChatParser.js:276-278 | a non-array, or an input of at most `max` messages, comes back as it is |
| MessageUtils.SampleLarge | chat-graph-viz/src/utils/ChatParser.js:280-309 | a larger input gives at most `max` messages, all from the input, and with a non-negative `max` the final slice cuts nothing |
| MessageUtils.SamplePerConversation | chat-graph-viz/src/utils/ChatParser.js:283-307 | each conversation contributes all its messages when it has at most `floor(max / #conversations)` of them, and that many evenly spread ones otherwise |
| MessageUtils.SpreadOrdered | chat-graph-viz/src/utils/ChatParser.js:301-305 | the evenly spread picks have strictly increasing indices inside the conversation: distinct messages in original order |
| MessageUtils.SampleTooManyConversations | chat-graph-viz/src/utils/ChatParser.js:294-307 | with more conversations than `max`, nobody gets a message |

## Left out

- The UMAP layout (`LoadGraph.jsx` lines 60-73), node coordinates and `loadGraph(graph)`. They need a third-party library and floating point. Nodes carry no position.
- Floating point throughout:
  - Vectors are sequences of exact reals.
  - Distances are squared Euclidean distances without `Math.sqrt`. The square root is monotone, so the nearest centroid is the same.
  - `step = length / perConversation` in `sampleMessages` is the exact `floor(i * length / perConversation)`.
  - `averageMessagesPerConversation` is an integer count of tenths.
  - Export timestamps are integers.
- MessageUtils.StatsAverage: states the rounding as a bracket of the exact quotient, not JavaScript's `Math.round` on a binary double.
- JavaScript `Date` objects: the date range stays in seconds. The filter window compares milliseconds as integers.
- `toLowerCase` is ASCII-only in the model; JavaScript maps all of Unicode.
- JavaScript strings are UTF-16: the model's `length`, `substring(0, 500)` and `slice(0, 60)` count code points, not UTF-16 code units.
- Tally.CountCounts, Labeler.TopWordsOrdered, Labeler.TopWordsAreTop: a counting object starts as `{}`, so it inherits the members of `Object.prototype`. For the word `constructor`, `counts[w] || 0` reads the inherited function and the count becomes a string. The comparator `b[1] - a[1]` then gives `NaN`, and the order depends on the engine's sort: titles "bar constructor" and "foo foo" give "bar · constructor · foo" in V8, but "foo · bar · constructor" in the model. The model counts every key from 0, as if the object had no prototype. The same happens to a model named `constructor` in `getConversationStats` (`MessageUtils.StatsTopModels`). In `sampleMessages`, a conversation id such as `constructor` or `toString` makes `.push` throw a `TypeError`; `MessageUtils.SampleMessages` returns a sample instead.
- Integer-like keys: `Object.keys`, `Object.entries` and `Object.values` list integer-like keys first, in numeric order, and `__proto__` is special. The model keeps all keys in insertion order.
- Duplicate keys in one JSON object: `Lookup` takes the first occurrence, `JSON.parse` keeps the last.
- Truthy values of the wrong type (a numeric `id`, a string `create_time`) take the fallback in the model instead of being copied through.
- `JSON.parse` itself, `FileReader` and the file upload: the parser starts from the decoded value, and a syntax error is not modelled.
- `console` logging in every file.
- `loadModel` and the `LOAD_MODEL` request, and the worker's "Unknown message type" reply: loading is the `loaded` flag of `ProcessMessages`.
- The embedding model is a parameter. Tensor disposal and the `setTimeout` pauses have no observable effect on the result and are left out.
- `Math.random`: the `draw` parameter picks the point copied into each initial centroid. Every property holds for every draw.
- The `postMessage` transport: events are an appended trace. Progress messages are determined by their other fields (`Protocol.ProgressMessage`).
- MessageUtils.SampleMessages: with no conversation at all (an empty input and a negative `max`), the per-conversation share is taken as 0 instead of JavaScript's `-Infinity`. The loop then has no turn, so the result is the same.
- Labeler.TopWordsShape: the order among equally frequent words follows first occurrence in insertion order. JavaScript's object order for integer-like words is not modelled.
- MessageUtils.SliceTo: a negative `end` is modelled as counting from the back, but the contract states only that the result is a prefix.
- The page components (`App.jsx`, `FileUpload.jsx`, `GraphContainer.jsx`, `Sidebar.jsx`) and the `onLegendReady` callback: the legend is returned as part of `GraphAssembly.View`.
