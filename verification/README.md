# Game review kernel of `review.js`

This project models the deterministic core of Sabaki's game-review driver, `ReviewEngine` in
`src/modules/review.js`, and proves properties of it. The driver asks a Leela Zero engine to
analyse every node of a game. It reads the engine's `lz-analyze` diagnostics from the console
log. It then writes two SGF properties onto the tree: `SBKV`, Black's winrate, on the parent,
and `GOPV`, the candidate variations, on the analysed node.

The model has one module per part of the core:

- `SideToMove`: the sign and colour loop over the `B`, `W`, `AB` and `AW` properties of a node.
- `AnalysisParser`: the `.map`/`.filter` chain that turns each trimmed, tagged log text into an
  "NN eval" record, a candidate-move record, nothing, or a throw. The regular expressions are
  written as explicit scanners over strings.
- `Annotation`: the choice of the first record as the winrate, the `GOPV` formatting, the
  inversion for White, and the two-property edit.
- `GameTree`: nodes, property maps and `draft.updateProperty`.
- `Traversal`: the recursive `reviewOneStep` walk started by `startReview`. It visits the first
  child's subtree in pre-order and stops at the first node whose analysis throws: the `await`
  of every caller passes the rejection up, so no later node is annotated.
- `Review`: the state the driver changes step by step.
  - `ReviewEngine` is a class with `busy`, `sign`, `analyzeCommand` and the shared `consoleLog`.
  - `LogEntry` is a class whose `response` and `waiting` fields are changed in place.
  - Its methods cover the stderr handler, `handleCommandSent` with its bounded append,
    `updateEntry`, the in-place trim and parse of tagged entries, and one whole node of the
    review (`ReviewNode`).
- `Text`: the JavaScript string operations the code relies on, such as `trim`, `indexOf`,
  `split(/\s+/)`, `split(sep)[1]`, the first `\d+` run and `join`.
- `Wrappers`: `Option` and `Result`.

Every place where the JavaScript throws a `TypeError` is modelled as a failure value:

- no `V:` or no `N:` in a candidate's header (`Result.Failure`);
- no digit after the first `->` (`Result.Failure`);
- no surviving record at all, `analysis[0]` (`Result.Failure`);
- an "NN eval" record after the first one, which has no `variation` to format
  (`Result.Failure`);
- a root without children: `reviewOneStep` is called with `undefined` as the node
  (review.js:92) and reading `node.data` throws (review.js:99). `Traversal.StartReview` gives
  `Option.None` for it, since no `ReviewError` of the parse applies.

Where the code and a natural reading of it differ, the model follows the code:

- A node without `B`, `W`, `AB` or `AW` is not skipped. Its sign is 0, and since the colour is
  `"B"` only for sign 1, it is analysed as `"W"`. The guard `color !== ""` is always true.
  Its winrate is not inverted, because only a negative sign inverts.
- When a principal variation contains `pass`, the code cuts the matched text just before
  `pass`. The cut text ends in white space, so `split(/\s+/)` leaves one empty token at the end
  of `pv`. That token is also passed to `coord2vertex`. The model keeps the empty token
  (`AnalysisParser.PvListTokens`, `AnalysisParser.CandidatePv`).
- `visits` comes from the text between the first and the second `->` of the header
  (`split("->")[1]`), not from the whole rest of the header.

The entries of the console log are distinct objects: every entry is a new object literal.
This is part of the class invariant `ReviewEngine.Valid()`, along with the rule that every
tagged entry has a response.

The filter at review.js:126 selects entries by node id over the whole console log. Entries
tagged for a node by an earlier analysis of the same node stay in the log until the bounded
append of a later command drops them. The analysis of a node therefore reads the stale texts
the bound kept (`Review.StaleTexts`), then the new stderr lines. A node analysed for the first
time has no stale texts (`Review.FirstAnalysisHasNoStaleTexts`).

`CollectAnalysis` parses the texts as they were and then trims the entries the walk reached.
The source interleaves trimming and parsing, entry by entry. Parsing reads only the texts, so
both orders have the same outcome, and the contract states that outcome.

## Model

| member | source | states |
|---|---|---|
| SideToMove.ComputeSign | src/modules/review.js:103-107 | The loop's sign is -1 when `AW` is present, else 1 for `AB`, else -1 for `W`, else 1 for `B`, else 0. It equals the reference `SideSign`. |
| SideToMove.LastPresentSignSpec | src/modules/review.js:103-107 | About `LastPresentSign`, which `SideSign` applies to `B`, `W`, `AB`, `AW`: a scan in which every present property overwrites the sign gives 0 exactly when no name is present. Otherwise it gives the sign of a present name after which no name is present. |
| SideToMove.SideSignCases | src/modules/review.js:104-106 | The later property in the order B, W, AB, AW wins. |
| SideToMove.PropertySign | src/modules/review.js:106 | A property's sign is 1 exactly when its name ends in `B`, and -1 otherwise. |
| SideToMove.ColorOf | src/modules/review.js:110 | The colour is `"B"` exactly when the sign is 1, and `"W"` otherwise. |
| SideToMove.MovelessNodeIsAnalysedAsWhite | src/modules/review.js:103-112 | A node without any of the four properties has sign 0 and is analysed as `"W"`. |
| AnalysisParser.EvaluationLine | src/modules/review.js:129-132 | A line with `NN eval=` gives only an evaluation record. Its winrate is 100 times the number between the first marker and the next one, or the end of the line. |
| AnalysisParser.FindPv | src/modules/review.js:134 | The PV pattern matches at the result and at no earlier position. No result means it matches nowhere. |
| AnalysisParser.PvTokens | src/modules/review.js:134 | A tail that the repeated part of the PV pattern accepts is split into one or more tokens, each `pass` or a letter followed by digits. |
| AnalysisParser.PvTokensComplete | src/modules/review.js:134 | The converse: tokens joined by non-empty white-space runs, with white space after the last, are read back as exactly those tokens. |
| AnalysisParser.FieldText | src/modules/review.js:155-159 | A field text is found exactly when the header contains the field name. It is the whole run of digits and dots that starts after the first occurrence of the name and the literal spaces after it: the run is stated by position in the header, and the character after it, if any, is neither a digit nor a dot. |
| AnalysisParser.VisitDigits | src/modules/review.js:161 | No visit text exactly when the header has no `->` or the text between its first and second `->` has no digit. Otherwise it is the first maximal run of digits of that text, stated by position. |
| AnalysisParser.Vertices | src/modules/review.js:166 | `variation` has one vertex per `pv` token, in order, each `coord2vertex` of its token. |
| AnalysisParser.LineOutcomes | src/modules/review.js:128-168 | About `ParseLine`: a line gives an evaluation exactly when it contains `NN eval=`. It gives nothing exactly when the PV pattern does not match, or the header before the leftmost match lacks `[A-T]\d* ->`. When the header has the move marker, the line throws `WinrateMissing` exactly without `V:`, `PriorMissing` exactly with `V:` but without `N:`, `VisitsMissing` exactly with both but no visit digits, and gives a candidate exactly otherwise. |
| AnalysisParser.PvListTokens | src/modules/review.js:139-145 | About `PvList`: `pv` is the tokens after `PV:` up to the first `pass` plus one empty token when there is a `pass`, and all the tokens otherwise. |
| AnalysisParser.CandidatePv | src/modules/review.js:134-167 | A candidate's `pv` is as in `PvListTokens` and never contains `pass`. Its `variation` is `coord2vertex` of each `pv` token, in order, and it carries the node's sign. |
| AnalysisParser.CandidateFields | src/modules/review.js:147-167 | A candidate record comes from the leftmost PV match: its `pv` is `PvList` of the matched text, `variation` the vertices of `pv`, `sign` the node's, `winrate` and `prior` are `parseFloat` of the `V:` and `N:` field texts of the header, and `visits` is the decimal value of the visit digits. |
| AnalysisParser.VisitsReadBack | src/modules/review.js:161 | About `VisitDigits`: when the header is `a -> b` with no `->` in `a` or `b`, and the first digit run of `b` is the decimal text of `n`, the visit digits are found and read back as `n`. |
| AnalysisParser.CandidateVisits | src/modules/review.js:161-165 | For such a header before the leftmost PV match, the candidate record's `visits` is `n`. |
| AnalysisParser.ParseAllAppend | src/modules/review.js:126-169 | About `ParseAll`, the `.map` and the null filter over the tagged texts: parsing `a + b` is parsing `a` and then `b`. Records keep log order, and a throw in `a` wins. |
| AnalysisParser.ParseAllFailureStays | src/modules/review.js:127-168 | Once a prefix of the log throws, the whole walk throws with that error. |
| AnalysisParser.ParseAllSucceeds | src/modules/review.js:127-169 | The walk succeeds exactly when no entry's trimmed text throws. |
| AnalysisParser.ParseAllFirstError | src/modules/review.js:127-168 | A failing walk fails with the error of the first entry that throws. |
| AnalysisParser.ReachFirstThrow | src/modules/review.js:127-168 | The `.map` reads the entries up to and including the first that throws. |
| AnalysisParser.ReachNoThrow | src/modules/review.js:127-168 | Without a throwing entry, the `.map` reads every entry. |
| Annotation.BlackWinrate | src/modules/review.js:181 | For sign < 0 the recorded winrate is `100 - w`. For sign 0 or 1 it is `w`. |
| Annotation.GopvLine | src/modules/review.js:175-178 | Formatting fails, with `EvaluationAfterFirst`, exactly for an "NN eval" record. |
| Annotation.VertexTexts | src/modules/review.js:177 | One name per vertex, in order, each the upper-cased `stringifyVertex` of its vertex. |
| Annotation.GopvReadBack | src/modules/review.js:176-177 | About `HeaderFields` and `VertexTexts`: a `GOPV` line splits at white space into the header words followed by the upper-cased vertex names. Its fourth word reads back as `visits`. |
| Annotation.GopvLines | src/modules/review.js:175-178 | The lines succeed exactly when every record is a candidate. They are one line per record, in order, and the error is `EvaluationAfterFirst`. |
| Annotation.Summarize | src/modules/review.js:171-181 | No record gives `NoRecord`. Otherwise `SBKV` is `toFixed(2)` of Black's winrate from the first record, and `GOPV` is the lines of the others, in log order. It succeeds exactly when those others are all candidates. |
| Annotation.ApplyEdit | src/modules/review.js:183-186 | `SBKV` of the parent becomes `[winrate]` and `GOPV` of the node becomes the lines. No other property of any node changes, and no node is added or removed. |
| GameTree.UpdateProperty | src/modules/review.js:184-185 | One property of one node is set, and every other property is kept. An unknown id changes nothing. |
| Annotation.ReviewStep | src/modules/review.js:103-186 | The node is annotated exactly when parsing and summarising both succeed. The edit changes the properties of the parent and the node only. |
| Annotation.NoRecordThrows | src/modules/review.js:171 | A node whose log yields no record makes the review throw `NoRecord`. |
| Traversal.StartReview | src/modules/review.js:87-93 | The walk starts at the root's first child with the root as parent. A root without children throws. |
| Traversal.Steps | src/modules/review.js:191-198 | The calls of a subtree start with the call on its own root, under the given parent. |
| Traversal.StepsFollowPreOrder | src/modules/review.js:191-198 | About `Steps` and `ChildSteps`: the nodes annotated, in call order, are the subtree's ids in pre-order with children in array order, one call per node. |
| Traversal.StepsUseRealParents | src/modules/review.js:196-198 | Every call after the first annotates a node together with its actual parent. |
| Traversal.OnlyFirstChildVisited | src/modules/review.js:92-198 | With distinct ids, exactly the first child's subtree is visited. The root and its other children's subtrees are never visited. |
| Traversal.Run | src/modules/review.js:95-198 | The reference run of calls in order stops at the first that throws: no more calls are counted than there are, no error means every call annotated, and the node set of the map is kept. |
| Traversal.RunStopsAtFirstThrow | src/modules/review.js:127-198 | Every call before the stop annotates its node. The call at the stop does not, and its error is the run's error. |
| Traversal.RunKeepsPrefix | src/modules/review.js:183-198 | The map a run leaves is what the calls before the first throw produce on their own, without error. |
| Traversal.RunAppend | src/modules/review.js:196-198 | Running `a + b` runs `a`, and then `b` from the map `a` left only when `a` did not throw. |
| Traversal.WalkIsRun | src/modules/review.js:95-198 | The recursive `reviewOneStep`, whose `await`s pass a throw up to every caller, is the run of its calls in pre-order. |
| Traversal.WalkChildrenIsRun | src/modules/review.js:196-198 | The loop over the children is the run of their calls, child by child. |
| Traversal.ReviewStopsAtFirstThrow | src/modules/review.js:87-198 | The review annotates the first child's subtree in pre-order up to the first node whose analysis throws, and no node after it. The map left is the one those nodes give, and a review without a throw annotates the whole subtree. |
| Review.Retained | src/modules/review.js:215 | The slice keeps the most recent `maxLength - 1` old entries (none when `maxLength < 1`), in order. |
| Review.BoundedAppend | src/modules/review.js:214-217 | The new length is `min(old + 1, max(maxLength, 1))`. The new entry is last, and the old entries kept are the most recent suffix, in order. |
| Review.BoundedAppendKeepsBound | src/modules/review.js:214-217 | A log within the bound stays within it. A log shorter than `maxLength` loses nothing. |
| Review.BoundedAppendFrom | src/modules/review.js:214-217 | Every entry of the bounded log is an old entry or the new one. |
| Review.BoundedAppendTagged | src/modules/review.js:210-217 | Appending the untagged command entry leaves, for any node, exactly the tagged entries the bound kept. |
| Review.Tagged | src/modules/review.js:126 | The filter keeps only entries of the log tagged with the node's id, and never more entries than the log has. |
| Review.TaggedComplete | src/modules/review.js:126 | The filter drops no entry tagged with the node's id. |
| Review.TaggedAppend | src/modules/review.js:126 | The filter keeps log order: the tagged entries of `a + b` are those of `a`, then those of `b`. |
| Review.TaggedDistinct | src/modules/review.js:126 | Filtering a log of distinct entries gives distinct entries. |
| Review.TaggedSplitAt | src/modules/review.js:126 | When entry `k` is untagged and every later entry is tagged for the node, the filter gives its entries before `k`, then all the later entries. |
| Review.ContentsAppend | src/modules/review.js:126-128 | The texts of `a + b` are the texts of `a`, then those of `b`. |
| Review.ExchangeShape | src/modules/review.js:103-122 | The exchange leaves the kept old entries, the command's untagged entry, then the stderr entries. Each of them is tagged for the node and holds an internal response, and their texts are the stderr texts. |
| Review.ExchangeTagged | src/modules/review.js:126 | After the exchange, the entries tagged for the node are those the bound kept from the old log, then every stderr entry. |
| Review.ExchangeTexts | src/modules/review.js:125-128 | After the exchange, the texts tagged for the node are the stale texts of the old log, then the non-empty stderr lines. |
| Review.ExchangeKeepsOtherTags | src/modules/review.js:53-59 | After the exchange, every entry tagged for another node was already in the old log. |
| Review.StaleTexts | src/modules/review.js:126 | The texts tagged for a node that the bound keeps are never more than the old log's entries. |
| Review.FirstAnalysisHasNoStaleTexts | src/modules/review.js:117-126 | A node with no entry tagged for it yet has no stale texts, so its analysis reads only the new stderr lines. |
| Review.NonEmpty | src/modules/review.js:48-50 | The stderr texts kept are exactly the non-empty ones. A single line is kept exactly when it is not empty. |
| Review.NonEmptyAppend | src/modules/review.js:48-59 | The handler keeps lines one at a time: the lines kept from `a + b` are those kept from `a`, then those kept from `b`. |
| Review.TrimReached | src/modules/review.js:127-128 | The texts after the `.map`: each text the walk reached is trimmed, and each later one is as it was. |
| Review.ExchangeFlags | src/modules/review.js:53-59 | After the exchange, the entries tagged for the node carry the `internal` and `waiting` flags of the entries the bound kept, then one `(internal, not waiting)` pair per stderr entry. |
| Review.ExchangeEntries | src/modules/review.js:125-128 | After the exchange, the tagged entries hold the stale texts and then the stderr texts, and carry the flags that `ExchangeFlags` states. |
| Review.ReviewEngine.constructor | src/modules/review.js:13-19 | Not busy, sign 0, no `analyze_command`, over a given log. The log may hold entries tagged for any node, stale ones included. It needs only the class invariant: tagged entries carry a response and entries are distinct objects. |
| Review.ReviewEngine.SetBusy | src/modules/review.js:26-28 | `busy` takes the syncer's flag. |
| Review.ReviewEngine.SetSideToMove | src/modules/review.js:103-110 | `this.sign` becomes the node's side to move, and the colour is `"B"` exactly when it is 1. |
| Review.ReviewEngine.BeginAnalysis | src/modules/review.js:117-118 | `analyze_command` tags the node while `lz-analyze <color> <interval>` is outstanding. |
| Review.ReviewEngine.EndAnalysis | src/modules/review.js:122 | The tag is cleared. |
| Review.ReviewEngine.HandleStderr | src/modules/review.js:48-59 | An empty line leaves the log unchanged. Any other line is appended last, unbounded, as a new internal entry with the current sign, engine name and `analyze_command`. |
| Review.ReviewEngine.HandleCommandSent | src/modules/review.js:204-217 | A new untagged entry with sign 0, waiting for its response, is added by the bounded append. |
| Review.ReviewEngine.UpdateEntry | src/modules/review.js:220-229 | The entry gets the response, and `waiting` becomes `!end`. |
| Review.ReviewEngine.ReceiveStderr | src/modules/review.js:41-60 | The new log is the old log followed by one new entry per non-empty line, in order. Each new entry has the current sign, the engine name and the current tag, and holds its line as an internal response. |
| Review.ReviewEngine.CollectAnalysis | src/modules/review.js:125-169 | The result is the parse of the tagged texts as they were. Entry `j` of the tagged entries then holds `TrimReached` of the old texts at `j`: trimmed for the entries the walk reached, unchanged after. Their `internal` and `waiting` flags are unchanged, and the invariant is kept. |
| Review.CollectEntries | src/modules/review.js:126-169 | The same, over a sequence of distinct entries. |
| Review.ParseAndTrim | src/modules/review.js:127-168 | The parse of the entries' texts, and the trim in place of the texts it read, keeping `internal` and `waiting`. |
| Review.ParseLog | src/modules/review.js:127-169 | The loop's result is `ParseAll` of the texts, and the count of entries read is `Reach`. |
| Review.TrimEntries | src/modules/review.js:128 | The first `count` entries hold their trimmed text and keep `internal`. The rest are unchanged. |
| Review.ReviewEngine.BeginNode | src/modules/review.js:103-118 | The sign is the node's side to move and the tag is `lz-analyze <color> <interval>` for the node. The new log is the bounded append of a new untagged entry for that command, waiting for its response. |
| Review.ReviewEngine.SendAnalyze | src/modules/review.js:103-122 | After `BeginNode`, the stderr lines and the cleared tag, the log is the bounded append of the new command entry followed by one new entry per non-empty line. Those entries are tagged for the node and hold the lines, in order, as internal responses. |
| Review.ReviewEngine.Exchange | src/modules/review.js:103-122 | The same log, and the old entries the bound kept are untouched: their texts tagged for the node and their flags are those they had before. |
| Review.ReviewEngine.ListenNode | src/modules/review.js:103-122 | After the exchange, the tag is cleared and the log is the kept old entries, the command's entry, then new internal entries tagged for the node whose texts are the non-empty stderr lines. Everything after the kept entries is new. |
| Review.ReviewEngine.AnalyseNode | src/modules/review.js:103-169 | The records are the parse, with the node's sign, of the stale texts tagged for the node that the bound kept, then the non-empty stderr lines. Afterwards the entries tagged for the node hold `TrimReached` of those texts, in order, and carry the kept entries' old flags followed by `(internal, not waiting)` for each stderr entry. The log has the same shape as after `ListenNode`. |
| Review.ReviewEngine.CollectExchange | src/modules/review.js:125-169 | After the exchange, the collection parses the stale texts, then the non-empty stderr lines. The tagged entries then hold `TrimReached` of those texts and carry the kept entries' old flags followed by the stderr entries' flags. |
| Review.ReviewEngine.ReviewNode | src/modules/review.js:95-186 | One node of the review equals `ReviewStep` over the stale texts tagged for the node that the bound kept, then the non-empty stderr lines received while `lz-analyze` ran. The tagged entries end holding `TrimReached` of those texts with the flags stated for `AnalyseNode`. The log has the exchange's shape, and no entry tagged for another node is added. |

## Left out

- Engine process I/O is left out: `EngineSyncer`, the GTP controller, `start()` and its event wiring, `sendCommand`, and both `sync` calls (review.js:21-85, 90, 118, 123). The stderr lines an engine prints while `lz-analyze` runs are the `lines` parameter of `ReviewNode`.
- The GTP commands that `sync` sends after the tag is cleared also pass through `handleCommandSent`. With a small `console.max_history_count`, their bounded appends can push tagged entries out of the log before they are collected. `ReviewNode` does not model those commands.
- `gtplogger`, `console.log`, `setting.get` (`board.analysis_interval` and `console.max_history_count` are parameters), `app.setState` and `setCurrentTreePosition` are left out.
- Floating point is left out. `parseFloat`, the number-to-string conversion in `GOPV` lines and `toFixed(2)` are fields of `AnalysisParser.Host`, and winrates and priors are `real`. `visits` is an exact `nat`, so `parseInt` beyond 2^53 is not modelled.
- `board.coord2vertex` and `sgf.stringifyVertex` are foreign modules, modelled as the uninterpreted `Host` fields. `gametree.getBoard` is left out with them.
- The internals of `tree.mutate` are left out. Only the two `updateProperty` calls on a map from node id to properties are modelled.
- The connection-failure path in `handleCommandSent` (review.js:239-252) is left out.
- The `async` interleaving of events is left out. `ReviewNode` fixes one order: command sent, then the stderr lines, then the tag cleared.
- `Traversal.Walk` takes the texts each node's analysis reads as the parameter `texts` rather than threading the console log from node to node. `ReviewNode` states how one node's texts come from the log.
- Annotation.GopvReadBack: assumes the number texts and vertex names are non-empty and free of white space, and that the variation is not empty. Without these the split does not give the words back.
- AnalysisParser.VisitsReadBack: covers headers written as `a -> b` with one `->` after `a`. It does not describe every header.
- `src/components/WinrateGraph.js` is rendering only and is not part of this model.
