# Resume-RAG toolkit: a verified model

This project models the Python side of a resume-screening agent platform - the offline benchmark of its
retrieval stages, the deployment and corpus scripts, and the policy and memory experiments - and proves
what that code is for. Each module follows one component:

| modules | component |
|---|---|
| `Windows`, `Sentences`, `Semantic`, `SemanticRules`, `ResumeBlocks`, `BlockRules`, `Normalize`, `NormalizeRules` | the chunkers, which cut a text into slices with offsets, and the normal form of a text |
| `Headings`, `MarkdownSections`, `MarkdownRules`, `SectionChunks`, `MarkdownHeadings` | the interval and the title path of every heading, splitting a text at its headings, cutting it section by section, and detecting Markdown headings |
| `GoldSpans`, `GoldRules` | the gold-span builder, which looks for the windows of a text that hold given terms |
| `ResumeCase`, `ResumeRules`, `RenderedNormal` | rendering resume cases with the range of every section, when the rendering is normal text, and labelling chunks by section |
| `Intervals`, `Evidence`, `Ranking`, `RankingRules` | unions of intervals, coverage and purity, nDCG with and without novelty |
| `Fusion`, `RerankRules` | reciprocal-rank fusion of id and document lists, and reranking by a model's answer |
| `Selection`, `SelectionRules`, `Scoping`, `Configurations` | Pareto frontier and winner selection, retrieval confined to a scope, and the phase-by-phase configuration |
| `EmbeddingCache` | the batching, caching client of the embedding service |
| `Decimal`, `PdfText`, `PdfFile` | the PDF writer: escaping, wrapping, paging, cross-reference table |
| `PdfReader` | reading such a file back from its end |
| `EnvFile`, `EnvMerge`, `EnvUpload`, `EnvRules` | parsing, merging and uploading the remote `.env` file |
| `EnvPrecedence`, `EnvExceptions`, `Redeployment` | which value of a setting is checked, written and read back, where these differ, and deploying again from the same environment |
| `KnowledgeSync` | the reconciler of the managed knowledge-base documents |
| `PairedEvaluation`, `PolicyRun`, `PolicyRules`, `ClampConfig` | the paired evaluation of policies, the budgeted trial runner, and folding a proposed configuration into a base |
| `TtlExperiment`, `RecentCases`, `RecentChoice`, `TtlRules`, `UsageReplay`, `UsageRules` | the two time-to-live experiments for memories |
| `Text`, `Sorting`, `Deduplication`, `Reals`, `Integers`, `Optional` | string primitives, sorting, first rows by key, arithmetic and optional values used by the others |

A module whose name ends in `Rules` says what the functions of its component come to without using them: by counting,
by what is equivalent, or by what changes when one part of the input does.

Loops of the source are methods with loops, each proved against a specification; objects whose fields are
updated in place (the embedding client, the selection dictionary, the document server, the experiment
runner) are classes. Texts are character sequences, scores are real numbers, sizes are unbounded integers.

Where the code does not always do what one would expect, the model keeps the code, gives an input or a
family of inputs, and proves exactly when the expected property holds:

- the 600-character cut of the resume splitter loses content exactly when a block is longer than that, such as
  a resume on one long line;
- at each step of the semantic scan, the next group repeats the end of the last one exactly when the sentences
  carried over already break;
- the heading splitter drops a position exactly when its section has no body, or it stands before the first
  heading and fewer than 80 characters do, as a short introduction does;
- chunks cut section by section are exact slices of the document exactly when no heading whose section is
  kept is marked on white space, as an indented Markdown heading is, so that however its section is cut some
  chunk is not at its offsets;
- the gold builder accepts a rendered resume case exactly when every section is written cleanly, neighbours can
  be joined, and no white space is at the ends; a title with a blank in the noisy layout is always refused;
- a winner of the rewrite or rerank phase is a failed variant exactly when the phase's baseline failed and
  nothing beats its utility by 0.01; this needs a successful variant that retrieved another candidate's
  chunks, which scoped retrieval is proved not to do, so that there a winner always succeeded;
- the scores that the reranker attaches to its permutation fall along the list exactly when nothing is taken,
  nothing is left over, or at most one answered id was rejected before the last accepted one;
- a merged `.env` file reads back exactly when every new value is trimmed, unquoted and free of all line
  breaks, while the upload check looks for two kinds of line break only;
- on a first deployment the uploaded file means what was checked under just that condition, and later the
  Neo4j user or password differs from the checked one exactly when the composite setting is not overridden
  and the remote file has it next to another, non-empty part: putting one into the file of any accepted
  deployment is accepted too, and uploads the part that was not checked;
- a run of the corpus reconciler without failures leaves exactly the expected document, tags included, exactly
  when it was forced, the title was not current, or that document was there already;
- clamping a clamped configuration again changes nothing exactly when every setting that the proposal leaves
  alone is in bounds and rounded in the base, or of another type, which a base value above its bound is not;
  and clamping raises exactly when a value is accepted for a setting that something in the base is in the way
  of, such as a number where its section should be;
- the reward gate of an experiment run compares a candidate with itself, so it passes exactly when there are
  no gate rewards and the first evaluation reward is negative, as for one evaluation trial that fails badly.

Three further examples show why a condition of a theorem is needed:

- nDCG is a fraction for whatever `dedupe_docs` returns, while a list that repeats the only relevant document
  has an nDCG above one under every discount;
- the label of a chunk has the recorded purity when no section is listed twice, and can have less otherwise;
- a longer time to live never gives a single arrival less similar cases, and can still lower their mean, so far
  that a longer candidate fails the gates that the chosen one passes; the streams that show it have arbitrary
  times and similarities, and are not drawn from the corpus.

## Model

| member | source | states |
|---|---|---|
| Windows.LastBoundary | harness/rag_three_stage_lib.py:182-183 | the eight substring searches together find the last mark character of the range, or nothing beyond its floor |
| Windows.WindowEnd | harness/rag_three_stage_lib.py:178-185 | a window ends right after the last mark in the final 45 % of its span, else at its full size or the end of the text, and always moves on |
| Windows.EndsWhere | harness/rag_three_stage_lib.py:178-185 | a window that does not reach the end of the text ends behind the last mark that leaves it longer than 80 characters and than 55 % of the size, or has full size if there is none |
| Windows.WindowIsLong | harness/rag_three_stage_lib.py:178-185 | so such a window has full size, or more than 80 characters and more than 55 % of it |
| Windows.SmartCutIsUnique | harness/rag_three_stage_lib.py:171-197 | text, size and overlap determine the rows |
| Windows.SmartWindows | harness/rag_three_stage_lib.py:171-197 | for every size and overlap the loop ends; every raw window ends at its cut, the next one starts the clamped overlap before it, only the last one reaches the end of the text, and rows are the windows trimmed |
| Windows.TilingCovers | harness/rag_three_stage_lib.py:171-217 | trimmed windows of any tiling are exact slices at their offsets and hold every character that is not white space |
| Windows.CutIsBounded | harness/rag_three_stage_lib.py:178-190 | a raw window is at most one character longer than the size, and a trimmed piece never is longer |
| Windows.RawWindowCanExceedSize | harness/rag_three_stage_lib.py:181-185 | the bound size + 1 for raw windows is reached, by a blank line that straddles the target |
| Windows.ShortRowIsExact | harness/rag_three_stage_lib.py:172-173 | the offsets of the single row of a short text are exact if and only if the text is already trimmed |
| Windows.FixedWindows | harness/rag_three_stage_lib.py:200-217 | window k starts at k times the step; exactly 1 + ceil((n - size) / (size - overlap)) windows are cut, and they tile the text |
| Windows.RecursiveChunks | harness/rag_three_stage_lib.py:171-197 | the recursive strategy on a normalised text of any length yields the rows of these windows: exact slices within the size bound that lose no content |
| Windows.FixedChunks | harness/rag_three_stage_lib.py:200-217 | the fixed strategy: window k starts at k times the step and has full size, except for the last, the first one to reach the end of the text; exact slices within the size bound that lose no content |
| Sentences.SegmentShape | harness/rag_three_stage_lib.py:280-295 | a segment is a stretch without delimiters followed by a maximal run of them |
| Sentences.DelimitersAre | harness/rag_three_stage_lib.py:283 | the delimiters are the eight characters of the pattern |
| Sentences.SemanticSentenceSpans | harness/rag_three_stage_lib.py:280-295 | the loop over delimiter runs yields the sentence pieces |
| Sentences.SentenceSpans | scripts/build_three_stage_gold_spans.py:29-43 | the gold builder's loop yields the sentence spans, although it measures the last one against the whole text |
| Sentences.SentencePiecesPartition | harness/rag_three_stage_lib.py:280-295 | sentences are exact trimmed slices, disjoint, in order, and hold all content |
| Sentences.SameSpans | scripts/build_three_stage_gold_spans.py:29-43 | the two independently written sentence splitters find the same spans in every text |
| Semantic.PercentileIsReached | harness/rag_three_stage_lib.py:74-82 | the interpolated percentile lies between two of the values |
| Semantic.SomeBoundaryExists | harness/rag_three_stage_lib.py:305-358 | whatever the embedding model answers, at least one sentence is marked as a topic change |
| Semantic.GroupSentences | harness/rag_three_stage_lib.py:330-358 | for every overlap and every distances the scan ends with all sentences grouped by the break rule, and emits the slice from first to last sentence of each group |
| Semantic.EverySentenceIsGrouped | harness/rag_three_stage_lib.py:330-358 | no sentence is left out of the groups |
| Semantic.GroupsCoverText | harness/rag_three_stage_lib.py:330-358 | grouping loses no content |
| Semantic.NoOverlapPartitions | harness/rag_three_stage_lib.py:330-358 | without overlap each group starts where the previous one ended |
| Semantic.RepeatsExactlyWhen | harness/rag_three_stage_lib.py:330-358 | for any two neighbouring groups of the scan: the later one ends where the earlier one ended exactly when the carried-over sentences already satisfy a break condition there |
| Semantic.RunIsUnique | harness/rag_three_stage_lib.py:330-358 | sentences, limits and distances determine the groups: there is one way only to group all sentences by the break rule |
| Semantic.OverlapCanRepeatContent | harness/rag_three_stage_lib.py:280-358 | a family of texts, of two short sentences and a long one, for which the scan repeats the second sentence whatever the distances are |
| Semantic.SemanticWindows | harness/rag_three_stage_lib.py:305-358 | for several sentences the rows are those of the groups that the scan makes of them, a single one is cut by size, and without any there are none; pieces are exact slices that lose no content, and each is a single sentence or at most the corrected maximum long; it fails exactly without a model for several sentences |
| SemanticRules.BreakRule | harness/rag_three_stage_lib.py:324-347 | told from the options: a group is closed before a sentence exactly when with it it would exceed the maximal size; or the topic changes there and the group has the minimal size and 55 % of the target; or it has the target size and 85 % of the maximal one |
| SemanticRules.WhereGroupsStart | harness/rag_three_stage_lib.py:353-355 | the first group starts with the first sentence, a later one as many sentences before the end of the previous one as may overlap, but after its start |
| SemanticRules.WhereGroupsEnd | harness/rag_three_stage_lib.py:332-357 | a group ends with the last sentence, or at the first place from the end of the previous group on at which it must be closed |
| SemanticRules.ShortTextStaysWhole | harness/rag_three_stage_lib.py:324-358 | whatever the options and the model are, a text of several sentences that is shorter than 40 characters stays in one piece |
| SemanticRules.NeighboursDoNotFit | harness/rag_three_stage_lib.py:338-347 | two neighbouring pieces between which the topic does not change, and without overlap, are together longer than the target size and than 80 characters |
| SemanticRules.DistancesAre | harness/rag_three_stage_lib.py:318-320 | there is one distance for every two neighbouring sentences, the one that the model gives them |
| SemanticRules.PercentileIs | harness/rag_three_stage_lib.py:74-82 | the percentile of values that are listed in increasing order lies on the line between the values at the two places next to its rank |
| SemanticRules.CutoffIs | harness/rag_three_stage_lib.py:321 | the threshold is the percentile at the given percentage, which is taken between 0 and 100 |
| Normalize.NormalizeIsNormal | harness/rag_three_stage_lib.py:98-103 | normalised text is trimmed, has no carriage return, tab or no-break space, no two blanks and no three line feeds in a row |
| Normalize.NormalizeFixedPoints | harness/rag_three_stage_lib.py:98-103 | the fixed points of normalisation are exactly the normal texts, so normalising twice changes nothing |
| Normalize.NormalizeKeepsContent | harness/rag_three_stage_lib.py:98-103 | normalisation changes white space only |
| NormalizeRules.CrLfIsLineFeed | harness/rag_three_stage_lib.py:99 | a line end of two characters counts as one line feed |
| NormalizeRules.CrIsLineFeed | harness/rag_three_stage_lib.py:99 | and so does a lone carriage return |
| NormalizeRules.TabIsBlank | harness/rag_three_stage_lib.py:100 | a tab or a no-break space counts as a blank |
| NormalizeRules.TwoBlanksAreOne | harness/rag_three_stage_lib.py:101 | two blanks count as one |
| NormalizeRules.ThreeLineFeedsAreTwo | harness/rag_three_stage_lib.py:102 | three line feeds count as two |
| NormalizeRules.LeadDoesNotCount | harness/rag_three_stage_lib.py:103 | white space in front of a text does not count |
| NormalizeRules.TailDoesNotCount | harness/rag_three_stage_lib.py:103 | nor does white space behind it |
| NormalizeRules.NormalExactlyWhen | harness/rag_three_stage_lib.py:98-103 | a text is normal exactly when none of these rules applies to it, so that they determine the normal form of every text |
| ResumeBlocks.FindRecovers | harness/rag_three_stage_lib.py:230-233 | every search from the cursor succeeds and returns the place the stripped block was cut from, so the fallback for a missing block is dead |
| BlockRules.BlankLineSeparates | harness/rag_three_stage_lib.py:223 | a blank line separates the paragraphs before it from those behind it |
| BlockRules.LineEndSeparates | harness/rag_three_stage_lib.py:225 | a line end separates the first line from those behind it |
| BlockRules.StrippedAre | harness/rag_three_stage_lib.py:223-225 | paragraphs and lines are stripped one by one, and blank ones are dropped |
| BlockRules.BlocksAre | harness/rag_three_stage_lib.py:223-227 | a normal text is cut at its blank lines if it has one, and else at its line ends |
| BlockRules.RowHolds | harness/rag_three_stage_lib.py:234-236 | a row is its block as far as the first 600 characters |
| ResumeBlocks.RecoverPositions | harness/rag_three_stage_lib.py:226-238 | the search loop recovers all positions |
| ResumeBlocks.ProductionResumeBlocks | harness/rag_three_stage_lib.py:220-238 | on every text the rows stand at the true positions of the blocks of the normalised text |
| ResumeBlocks.RowsAreSlices | harness/rag_three_stage_lib.py:226-238 | every row is the slice at its own offsets, at most 600 characters long, and ends before the next row starts |
| ResumeBlocks.BlocksCover | harness/rag_three_stage_lib.py:222-227 | every character that is not white space lies in a block |
| ResumeBlocks.LosesContentExactlyWhen | harness/rag_three_stage_lib.py:226-238 | the rows hold all content if and only if no block is longer than 600 characters |
| ResumeBlocks.LongLineLosesItsEnd | harness/rag_three_stage_lib.py:220-238 | a normalised text on one line of more than 600 characters yields one row, which does not hold all of it |
| Headings.HeadingSections | scripts/build_three_stage_gold_spans.py:76-92 | for every heading the scan of the later ones finds the first that closes it |
| Headings.EndsAtFirst | scripts/build_three_stage_gold_spans.py:81-85 | a section ends at the first later heading of its rank or a higher one, or with the text |
| Headings.SectionsAreLaminar | scripts/build_three_stage_gold_spans.py:76-92 | of two headings the later interval lies inside the earlier one or after it, and inside means a strictly lower rank |
| Headings.StackHoldsOpenHeadings | harness/rag_three_stage_lib.py:149-157 | the level-keyed stack holds exactly the open headings, each at its own level |
| Headings.PathIsEnclosingSections | harness/rag_three_stage_lib.py:149-157 | the two heading algorithms agree: the recorded path of a heading lists exactly the headings whose interval contains it, outermost first |
| MarkdownSections.HighestRankIsKept | harness/rag_three_stage_lib.py:137-144 | every detected position keeps one mark, and none found there has a higher rank |
| MarkdownSections.DedupeMarks | harness/rag_three_stage_lib.py:137-144 | the sorted pass keeps the first mark of every position; replacing one by a later one never happens |
| MarkdownSections.HasBodyExactlyWhen | harness/rag_three_stage_lib.py:159-166 | a section has a body exactly when text follows the label on its first line or a further line is not blank |
| MarkdownRules.BodyExactlyWhen | harness/rag_three_stage_lib.py:159-166 | spelled out: the first line has a label of 1 to 30 characters, a colon of either width and text, or a further line is not blank |
| MarkdownRules.LabelledLineIsKept | harness/rag_three_stage_lib.py:161-166 | a section on one line of a label of 1 to 30 characters, a colon and text is kept |
| MarkdownRules.BareLineIsDropped | harness/rag_three_stage_lib.py:159-166 | and any other section on one line is dropped |
| MarkdownRules.PathHolds | harness/rag_three_stage_lib.py:149-157 | entry i + 1 of a path is the title of the i-th heading that the section stands under: one behind which no heading of its rank or a higher one comes before the section |
| MarkdownSections.SplitSections | harness/rag_three_stage_lib.py:106-168 | on any marks the splitter emits the whole text, or the preface and a row for every heading with a body, with the titles of exactly the sections that enclose it |
| MarkdownSections.HeldExactlyWhen | harness/rag_three_stage_lib.py:150-168 | a position is in a row exactly when its section has a body, or it stands before the first heading and at least 80 characters do |
| MarkdownRules.PrefaceExactlyWhen | harness/rag_three_stage_lib.py:151-153 | what stands before the first heading is kept exactly when it has 80 characters without the white space around it |
| MarkdownSections.RowsAreExact | harness/rag_three_stage_lib.py:150-168 | a row is the stripped text of its own range, which ends before the next heading |
| SectionChunks.SectionStrategy | harness/rag_three_stage_lib.py:398-419 | the section strategies cut every section on its own, by its windows or by its groups of sentences, into exact slices of its content that hold all of it, shift their offsets by the start of the section, and fail exactly when the sentences of some section are to be grouped without a model |
| SectionChunks.PrefixAndPieceFill | harness/rag_three_stage_lib.py:403 | prefix and window fill the size up, unless the prefix leaves less than 80 characters, when the window has 80 |
| SectionChunks.ChunkIsBounded | harness/rag_three_stage_lib.py:403-418 | a chunk with its prefix is at most the size long, unless the prefix leaves less than 80 characters |
| SectionChunks.SectionExactExactlyWhen | harness/rag_three_stage_lib.py:398-419 | the chunks of a section are exact slices of the document if and only if its range does not start with white space |
| SectionChunks.DocumentExactExactlyWhen | harness/rag_three_stage_lib.py:106-419 | the chunks of a normalised document cut by its own headings are exact if and only if no heading with a body is marked on white space |
| MarkdownHeadings.MarkdownMarksAre | harness/rag_three_stage_lib.py:115-123 | the Markdown detector yields levels from one to six at positions of the text |
| MarkdownHeadings.HeadingIsRead | harness/rag_three_stage_lib.py:118-121 | one to six hash signs, white space and a title are a heading of that level, whatever white space is around, and more signs are none |
| MarkdownHeadings.HeadingHasShape | harness/rag_three_stage_lib.py:118-121 | nothing else is read as a heading |
| MarkdownHeadings.IndentedHeadingShifts | harness/rag_three_stage_lib.py:106-419 | a family of normalised texts with an indented heading: its section is kept, and however it is cut, not all chunks are exact slices at their offsets |
| MarkdownHeadings.ShortIntroIsDropped | harness/rag_three_stage_lib.py:150-153 | in the same texts no position of an introduction of fewer than 80 characters is in a row |
| SectionChunks.GivenRowsFit | harness/rag_three_stage_lib.py:368-376 | given sections stand where the text that has them one below the other has them, so that their chunks are exact there |
| GoldSpans.WindowAroundFacts | scripts/build_three_stage_gold_spans.py:55-63 | a window stays inside its sentence, has 500 characters unless the sentence has fewer, and holds its centre and what follows it up to 320 characters |
| GoldSpans.CompactTermWindows | scripts/build_three_stage_gold_spans.py:46-73 | the overlap filter never rejects a row: the result is exactly the four best rows by rank, listed by position |
| GoldSpans.SelectApart | scripts/build_three_stage_gold_spans.py:66-72 | greedy selection with early exit takes the first four of rows that lie apart |
| GoldSpans.ResultsAreHits | scripts/build_three_stage_gold_spans.py:46-73 | every row is the window around the earliest matched term of one sentence, rows do not overlap, and they are sorted by rank |
| GoldSpans.NoHitExactlyWhen | scripts/build_three_stage_gold_spans.py:52-54 | a sentence yields no row exactly when it holds none of the terms |
| GoldRules.WindowStartsAt | scripts/build_three_stage_gold_spans.py:59-63 | in a long sentence the window starts 180 characters in front of the first term, unless the sentence starts later or ends too soon |
| GoldRules.RankedExactlyWhen | scripts/build_three_stage_gold_spans.py:50-65 | every sentence that holds a term is ranked with the number of different terms it holds, and nothing else is |
| GoldRules.FourBestAreListed | scripts/build_three_stage_gold_spans.py:65-73 | four rows are listed, or all, by their starts; none that is left out has more terms, or as many and an earlier start |
| ResumeCase.RenderResumeCase | harness/run_three_stage_rag_experiments.py:293-326 | the text and the ranges that the loop builds with its running cursor |
| ResumeCase.RangesAreExact | harness/run_three_stage_rag_experiments.py:312-325 | the slice of the rendered text at a recorded range is exactly the section's content as degraded by the cohort; ranges are in order, apart, and the last one ends the text |
| ResumeCase.WrapKeepsContent | harness/run_three_stage_rag_experiments.py:308-309 | hard wrapping adds line feeds and changes nothing else |
| ResumeRules.LayoutsTakeTurns | harness/run_three_stage_rag_experiments.py:295 | the four layouts take turns |
| ResumeRules.RenderedText | harness/run_three_stage_rag_experiments.py:293-326 | the text of a case in every layout, as its titled sections joined by what the layout puts between them |
| ResumeRules.SpacedAt | harness/run_three_stage_rag_experiments.py:306 | a noisy title has a blank between every two characters |
| ResumeRules.AsciiAt | harness/run_three_stage_rag_experiments.py:307 | three full-width marks become ASCII, character by character |
| ResumeRules.WrappedAt | harness/run_three_stage_rag_experiments.py:308-309 | a wrapped content has a line feed behind every 72 characters that are not the last |
| RenderedNormal.RenderedNormalExactlyWhen | harness/run_three_stage_rag_experiments.py:293-326 | a case is rendered as normal text exactly when every section is written cleanly, every two neighbours can be joined, and no white space is at the ends |
| RenderedNormal.GoldAcceptsExactlyWhen | scripts/build_three_stage_gold_spans.py:165-170 | the gold builder's comparison with the normal form accepts a case exactly then |
| RenderedNormal.NoisyTitleExactlyWhen | harness/run_three_stage_rag_experiments.py:304-310 | the title line of the noisy layout is clean exactly when the title has no blank, tab or carriage return |
| RenderedNormal.NoisyTitleIsRefused | scripts/build_three_stage_gold_spans.py:165-170 | so a noisy case with such a title is refused, whatever else it says |
| ResumeCase.AttachSection | harness/run_three_stage_rag_experiments.py:329-355 | a chunk gets the rounded shares of exactly the sections that overlap it, the largest share as its purity, and the section of the first range with the largest overlap as its label |
| ResumeRules.OverlapCounts | harness/run_three_stage_rag_experiments.py:336 | the overlap of a chunk and a range is the number of positions they share |
| ResumeRules.BestIsFirst | harness/run_three_stage_rag_experiments.py:339-341 | the label comes from the first range that shares the most positions, if any shares one |
| ResumeRules.ShareIs | harness/run_three_stage_rag_experiments.py:342-346 | a share is the rounded part of the characters of the chunk that lie in ranges of the section |
| ResumeCase.SharesAreFractions | harness/run_three_stage_rag_experiments.py:342-352 | for ranges that lie apart, shares are fractions and the shares of two sections add up to at most one |
| ResumeCase.RenderedApart | harness/run_three_stage_rag_experiments.py:319-322 | the ranges of every rendered case lie apart |
| ResumeCase.LabelHasLargestShare | harness/run_three_stage_rag_experiments.py:339-352 | when no section is listed twice, the recorded purity is the share of the section that labels the chunk |
| ResumeCase.SplitSectionCanLose | harness/run_three_stage_rag_experiments.py:339-352 | a section listed twice can have a larger share than the one that labels the chunk, whatever its name |
| Intervals.MergeIntervals | harness/run_three_stage_rag_experiments.py:480-489 | the loop computes the merged list of the sorted intervals |
| Intervals.MergeFacts | harness/run_three_stage_rag_experiments.py:480-489 | merged intervals are sorted, strictly separated and hold the same points |
| Intervals.SeparatedUnique | harness/run_three_stage_rag_experiments.py:480-489 | strictly separated intervals with the same points are the same list |
| Intervals.MergeIsCanonical | harness/run_three_stage_rag_experiments.py:480-489 | two lists merge to the same list exactly when they cover the same points |
| Intervals.MergedLengthCountsPoints | harness/run_three_stage_rag_experiments.py:480-489 | the summed lengths are the number of points covered |
| Evidence.EvidenceOverlap | harness/run_three_stage_rag_experiments.py:492-518 | best coverage, purity, F1 and exactness of a chunk, told by counting: the largest share of a span that the chunk holds, the gold characters for each character of its text, and whether it holds half of a span and is 35 % gold |
| Evidence.CoverageCounts | harness/run_three_stage_rag_experiments.py:502-507 | coverage times the length of the span is the number of characters that span and chunk share |
| Evidence.OverlapMeans | harness/run_three_stage_rag_experiments.py:492-518 | what the four numbers of a chunk mean, for every list of gold spans |
| Evidence.F1IsHarmonic | harness/run_three_stage_rag_experiments.py:510-511 | F1 is the harmonic mean of coverage and purity |
| Evidence.RelevantCharsCount | harness/run_three_stage_rag_experiments.py:498-508 | relevant characters are counted once each, however many spans hold them |
| Evidence.PurityIsFraction | harness/run_three_stage_rag_experiments.py:497-509 | purity is at most one exactly when the text is as long as there are gold characters in the range, and so whenever it is as long as the range |
| Evidence.MatchedGoldSpanIndexes | harness/run_three_stage_rag_experiments.py:549-565 | the indexes that the loop collects are those of the gold spans of which the chunk holds half of the characters, if 35 % of the chunk are gold, and none otherwise |
| Evidence.MatchesMean | harness/run_three_stage_rag_experiments.py:549-565 | a span matches exactly when it is of the same document, the chunk holds half of its characters, and 35 % of the chunk are gold |
| Evidence.ExactIffMatched | harness/run_three_stage_rag_experiments.py:517-565 | a chunk is exact if and only if it matches some gold span |
| Evidence.F1IsBetween | harness/run_three_stage_rag_experiments.py:510-511 | F1 lies between coverage and purity |
| Evidence.EvidenceSetMetrics | harness/run_three_stage_rag_experiments.py:521-546 | recall, precision and F1 of a list of chunks |
| Evidence.RecallAndPrecisionCount | harness/run_three_stage_rag_experiments.py:521-546 | recall and precision in counted characters: the gold characters that some chunk holds out of all, and the gold characters of the chunks out of those of their texts |
| Evidence.SpanCoveredCounts | harness/run_three_stage_rag_experiments.py:521-546 | what is counted for a span is its characters that some chunk holds, each once |
| Evidence.RecallIsFraction | harness/run_three_stage_rag_experiments.py:521-546 | evidence recall is at most one by itself, so the cap never changes it |
| Evidence.RecallIsMonotone | harness/run_three_stage_rag_experiments.py:521-546 | recall grows with the set of chunks and depends on nothing else, neither order nor repetitions |
| Evidence.SetMetricsAreFractions | harness/run_three_stage_rag_experiments.py:521-546 | with texts as long as their ranges, precision and F1 are fractions |
| Ranking.DedupeDocs | harness/run_three_stage_rag_experiments.py:568-578 | the first row of every document up to the limit, which is tested after a row was kept |
| Deduplication.FirstsAreFirst | harness/run_three_stage_rag_experiments.py:568-578 | what is kept of a document is its best-ranked row |
| Deduplication.LastIsKeptExactlyWhen | harness/run_three_stage_rag_experiments.py:571-575 | one more row is kept, in the last place, exactly when no row before has its document; so rows keep their order |
| Ranking.DiscountedLead | harness/run_three_stage_rag_experiments.py:713-718 | summation by parts: if every partial sum is ahead, so is every discounted sum |
| Ranking.TopSum | harness/run_three_stage_rag_experiments.py:702-716 | no selection of labels has a larger sum than the first ones of the sorted list |
| Ranking.GradeDocuments | harness/run_three_stage_rag_experiments.py:686-700 | the scoring loop for JD recall |
| Ranking.DocumentNdcgIsFraction | harness/run_three_stage_rag_experiments.py:679-718 | JD recall: nDCG@k is in [0, 1] for every ranking with one row per document, every labels and every k |
| Ranking.DedupedNdcgIsFraction | harness/run_three_stage_rag_experiments.py:568-578 | so nDCG@k is in [0, 1] for what `dedupe_docs` keeps of any ranking at any limit |
| Ranking.RepeatedDocumentExceedsOne | harness/run_three_stage_rag_experiments.py:708-718 | why rows are deduplicated: a list with the only relevant document twice has nDCG 1 + d(1) / d(0) for every discount d and every gain |
| Ranking.GradeEvidence | harness/run_three_stage_rag_experiments.py:686-700 | the scoring loop for the evidence stages, where a hit needs a gold span that was not matched before |
| Ranking.EvidenceNdcgIsFraction | harness/run_three_stage_rag_experiments.py:689-718 | evidence stages: nDCG@k is in [0, 1] for every ranking and k, because a span earns a gain only once |
| Ranking.RecallIffReciprocalRank | harness/run_three_stage_rag_experiments.py:710-720 | recall@k is one exactly when the reciprocal rank is at least 1 / k |
| RankingRules.PositionContributes | harness/run_three_stage_rag_experiments.py:713-714 | another label at position i changes the discounted gain by the difference of the gains times the discount of the position, if it is one of the first k, and not at all otherwise |
| RankingRules.NdcgIs | harness/run_three_stage_rag_experiments.py:713-718 | nDCG is the gain as a part of the ideal one, and zero if there is nothing to gain |
| RankingRules.GradesAt | harness/run_three_stage_rag_experiments.py:686-700 | the label of a row is the relevance of its document, or zero |
| RankingRules.IdealIs | harness/run_three_stage_rag_experiments.py:703-707 | the ideal ranking has the relevances of all documents, the largest first |
| RankingRules.HitExactlyWhen | harness/run_three_stage_rag_experiments.py:689-696 | a chunk is a hit and earns three exactly when it matches a gold span that no chunk before it matched |
| RankingRules.ReciprocalRankIs | harness/run_three_stage_rag_experiments.py:719-720 | the reciprocal rank belongs to the first hit |
| Fusion.RrfFuse | harness/rag_three_stage_lib.py:630-640 | the loops compute the fused list, cut at the limit |
| Fusion.FusedFacts | harness/rag_three_stage_lib.py:630-640 | the fused list holds every ranked id once with the sum of its shares, best first and ties by id |
| Fusion.RankIsWorth | harness/rag_three_stage_lib.py:634-637 | one more rank at the end of a channel adds to its id the weight divided by k plus the rank and nothing to others, channels add up, and without ranks the score is zero |
| Fusion.OneChannelScores | harness/rag_three_stage_lib.py:634-637 | so the score of id number n of a single channel times k + n is its weight |
| Fusion.FusionIsMonotone | harness/rag_three_stage_lib.py:630-640 | with non-negative weights an id ranked at least as well in every channel never scores lower |
| Fusion.RrfFuseDocuments | harness/run_three_stage_rag_experiments.py:581-600 | equals fusion of the document-deduplicated channels, and names the chunk that represents each document |
| Fusion.TopDocsDistinct | harness/run_three_stage_rag_experiments.py:586-587 | a deduplicated channel ranks no document twice |
| Fusion.TopHolds | harness/run_three_stage_rag_experiments.py:586-587 | at most 200 documents are kept, and one is lost only if 200 others were |
| Fusion.WeightOneKeepsDenseOrder | harness/run_three_stage_rag_experiments.py:581-600 | with semantic weight one, document fusion of any two channels gives the dense order, then the documents that only the sparse channel has |
| Fusion.Rerank | harness/rag_three_stage_lib.py:816-832 | the answered candidates in answer order, then the others in their own order |
| Fusion.RerankIsPermutation | harness/rag_three_stage_lib.py:816-832 | whatever the model answers, the result is a permutation of the candidates |
| RerankRules.TakenAre | harness/rag_three_stage_lib.py:826-829 | exactly the candidates that the answer names are taken, each with the reciprocal of the rank at which it is first named, and in this order |
| RerankRules.LeftAre | harness/rag_three_stage_lib.py:826-829 | the candidates that it does not name are left over |
| RerankRules.LeftInOrder | harness/rag_three_stage_lib.py:826-831 | in the order of the candidates |
| RerankRules.RestIs | harness/rag_three_stage_lib.py:830-831 | and follow with the reciprocals of their places in the whole list |
| Fusion.RerankScoresCanRise | harness/rag_three_stage_lib.py:825-831 | the scores of a whole result that do not fall |
| Fusion.RerankScoresFallExactlyWhen | harness/rag_three_stage_lib.py:816-832 | the scores of the whole result fall exactly when nothing is taken, nothing is left over, or at most one answered id was rejected before the last accepted one |
| Selection.DominanceIsStrictOrder | harness/run_three_stage_rag_experiments.py:1364-1394 | the tolerance-based dominance is irreflexive and transitive |
| Selection.FrontierCovers | harness/run_three_stage_rag_experiments.py:1364-1394 | every excluded trial is dominated by a trial on the frontier |
| Selection.JointPareto | harness/run_three_stage_rag_experiments.py:1364-1394 | the frontier is the list of undominated successful trials, best utility first |
| Selection.FrontierHeadIsBest | harness/run_three_stage_rag_experiments.py:1364-1394 | the frontier is not empty when a trial succeeded, and its head has the best utility of all |
| SelectionRules.OnFrontierExactlyWhen | harness/run_three_stage_rag_experiments.py:1364-1394 | a successful trial is on the frontier exactly when no other is as good at no higher calls, bytes and mixed rate and better in one of the four; one that is excluded is outdone so by a trial on the frontier |
| Selection.ChooseJointWinner | harness/run_three_stage_rag_experiments.py:1397-1422 | fails only without a successful trial; the winner succeeded, is less than 0.02 below the best, and replaces an available baseline only if it beats it by 0.01 |
| SelectionRules.SimplerMeans | harness/run_three_stage_rag_experiments.py:1406-1411 | the joint choice goes by generation calls, vector bytes, mixed sections and quality, in this order, and then by the name |
| SelectionRules.JointWinnerIsSimplest | harness/run_three_stage_rag_experiments.py:1397-1422 | no frontier trial less than 0.01 below the best comes before the winner in this order, unless the baseline is kept |
| Selection.ChooseWinner | harness/run_three_stage_rag_experiments.py:1084-1112 | fails only without a successful variant; otherwise, relative to the first variant by utility and name, the winner is the cheapest within 0.005 (smallest index or smallest vectors), that variant itself, or the baseline unless it is beaten by 0.01 |
| SelectionRules.TopIsBest | harness/run_three_stage_rag_experiments.py:1088-1090 | no successful variant is better than the one that a phase compares with |
| SelectionRules.CheapestWins | harness/run_three_stage_rag_experiments.py:1091-1098 | chunking and embedding give up at most 0.005 of quality, and no variant that gives up as little has a smaller index or smaller vectors |
| SelectionRules.BaselineStaysExactlyWhen | harness/run_three_stage_rag_experiments.py:1099-1105 | rewriting and reranking keep a successful baseline exactly when the best gains less than 0.01 over it |
| Selection.WinnerFailedExactlyWhen | harness/run_three_stage_rag_experiments.py:1099-1105 | the winner of a phase failed exactly when the phase has a baseline, it failed, and nothing beats its utility by 0.01 |
| Selection.UnavailableExactlyWhen | harness/run_three_stage_rag_experiments.py:1054-1081 | a variant that was evaluated scores like a failure exactly when it retrieved chunks of another candidate, and otherwise at least -0.85 |
| SelectionRules.WorthInNdcg | harness/run_three_stage_rag_experiments.py:1058-1081 | what every metric is worth in nDCG, stage by stage |
| SelectionRules.UtilityFalls | harness/run_three_stage_rag_experiments.py:1058-1081 | utility falls with hard negatives, queries without a hit and mixed sections |
| SelectionRules.ContextCosts | harness/run_three_stage_rag_experiments.py:1074-1076 | context costs 0.01 for every 200 characters, up to 3000 of them |
| SelectionRules.WhereUtilityStarts | harness/run_three_stage_rag_experiments.py:1054-1081 | utility is zero without any metric, and that of a failure when other candidates leak |
| Selection.WinnerSucceeds | harness/run_three_stage_rag_experiments.py:1054-1112 | so a winner always succeeded if the best variant is assumed not to have retrieved such chunks |
| Scoping.ChunkIdNamesDoc | harness/rag_three_stage_lib.py:426 | a chunk identifier determines its document and its number, whatever characters document names have |
| Scoping.ChunkIdIs | harness/rag_three_stage_lib.py:426 | the number of the chunk stands behind the last hash, in three digits if it has no more |
| Scoping.BuildScopes | harness/run_three_stage_rag_experiments.py:397-409 | the scope of a document lists the identifiers of its chunks, all of them in order and no others, and every identifier names its document |
| Scoping.AnsweredFromScope | harness/run_three_stage_rag_experiments.py:830-922 | a query whose channels rank chunks of its scope is answered from its scope, for every fusion and every answer of the reranker |
| Scoping.ScopedRetrievalDoesNotLeak | harness/run_three_stage_rag_experiments.py:743 | no query answered from its scope leaks, so the mean leakage is zero |
| Scoping.LeakageIsShare | harness/run_three_stage_rag_experiments.py:743 | the mean leakage is the share of the queries for which a chunk of another document was ranked |
| Scoping.ScopedWinnerSucceeds | harness/run_three_stage_rag_experiments.py:743-1112 | hence over scoped retrieval the winner of every phase succeeded |
| Selection.FailedBaselineCanWin | harness/run_three_stage_rag_experiments.py:1099-1105 | the premise on leakage is needed: with a successful variant that retrieved chunks of another candidate, the choice can return a failed baseline |
| Configurations.Selection.ApplyWinner | harness/run_three_stage_rag_experiments.py:1115-1137 | the in-place update of the selection by the winner of a phase |
| Configurations.Selection.ConfigForVariant | harness/run_three_stage_rag_experiments.py:1151-1161 | a trial configuration is a fresh copy; the selection stays as it is |
| Configurations.SettingsAfter | harness/run_three_stage_rag_experiments.py:1115-1137 | what a variant decides, setting by setting: every phase sets its own and nothing else, but for the embedding that dense resume retrieval needs |
| Configurations.TrialIs | harness/run_three_stage_rag_experiments.py:1151-1161 | a trial runs without the reranking, and before the rewrite phase without the rewriting, of the selection |
| Configurations.ApplyKeepsSound | harness/run_three_stage_rag_experiments.py:1115-1161 | every phase and variant keeps: a mode that needs embeddings comes with a model |
| Configurations.RefusedExactlyWhen | harness/run_three_stage_rag_experiments.py:856-861 | a configuration is refused exactly when dense or hybrid retrieval comes without a model or without a dimension |
| Configurations.EveryRunIsSound | harness/run_three_stage_rag_experiments.py:860-861 | over every sequence of winners, variants and joint products the error for a missing embedding is unreachable |
| Configurations.BuildJointConfigs | harness/run_three_stage_rag_experiments.py:1258-1283 | the rejection filter never fires: defaults, selection and shuffled tuples without repetition, as many as there are trials but at least two, unless the tuples run out |
| EmbeddingCache.SortedRowsLineUp | harness/rag_three_stage_lib.py:739 | sorting a complete response by index puts row i at position i |
| EmbeddingCache.EmbeddingClient.Embed | harness/rag_three_stage_lib.py:709-757 | it succeeds exactly when there is a key and every batch of missing texts is answered by one row of the right length each; what is new in the cache are these rows; a successful answer is the remote vector of every text; the cache stays right and only grows, also on failure; calls, hits and misses add up, batches hold at most ten texts |
| EmbeddingCache.MissingAre | harness/rag_three_stage_lib.py:713-723 | the texts that are sent are exactly those without a cached vector, in the order of their positions |
| EmbeddingCache.EmbedAll | harness/rag_three_stage_lib.py:709-757 | over every sequence of requests, with failures in between, every given answer is right |
| EmbeddingCache.EmbedTwice | harness/rag_three_stage_lib.py:709-757 | repeating a request that succeeded succeeds again without a call and gives the same answer |
| EmbeddingCache.NothingIsDropped | harness/rag_three_stage_lib.py:757 | the final filter drops nothing from a filled list |
| Decimal.Pad10Facts | scripts/generate_resume_dataset.py:283 | a padded offset reads back, and has ten digits exactly below ten to the tenth |
| PdfText.ThreePassesAreOne | scripts/generate_resume_dataset.py:232-233 | the three replacement passes equal a one-pass escape |
| PdfText.ReadEscaped | scripts/generate_resume_dataset.py:232-233 | reading a literal string (section 7.3.4.2 of ISO 32000-1) undoes escaping |
| PdfText.Latin1Escape | scripts/generate_resume_dataset.py:264-269 | replacing characters outside Latin-1 commutes with escaping |
| PdfText.Latin1At | scripts/generate_resume_dataset.py:269 | characters up to number 255 stay, and any other becomes a question mark |
| PdfText.WriteStream | scripts/generate_resume_dataset.py:264-269 | the loop over the lines of a page builds the content stream |
| PdfText.StreamReadsBack | scripts/generate_resume_dataset.py:264-269 | the content stream reads back as the lines of the page |
| PdfText.WrapLines | scripts/generate_resume_dataset.py:237-244 | the loops that strip and wrap the lines |
| PdfText.WrapFacts | scripts/generate_resume_dataset.py:240-244 | wrapping loses nothing and yields pieces of 105 characters and a last one that is not longer |
| PdfText.WrapAllKeeps | scripts/generate_resume_dataset.py:237-244 | the pieces of all lines are the stripped lines, in order |
| PdfText.PaginateFacts | scripts/generate_resume_dataset.py:246-250 | paging loses no line; all pages but the last hold 42, and the last at least one |
| PdfFile.BuildObjects | scripts/generate_resume_dataset.py:252-270 | the loop builds catalog, page tree, and a page and a stream object for every page |
| PdfFile.WriteObjects | scripts/generate_resume_dataset.py:272-284 | the loops write header, objects, table and trailer |
| PdfFile.WriteSimplePdf | scripts/generate_resume_dataset.py:236-285 | the bytes written for a text, of which the following results say what a reader finds in them |
| PdfFile.StartXrefReadsBack | scripts/generate_resume_dataset.py:279-284 | the number before the end marker is the offset of `xref` |
| PdfFile.XrefPointsAtObjects | scripts/generate_resume_dataset.py:272-284 | below ten to the tenth bytes, a reader that starts from the end of the file (sections 7.5.4 and 7.5.5 of ISO 32000-1) finds for object i an entry in use, of generation 0, with the offset where `i 0 obj`, the whole object and its end stand |
| PdfFile.FileTableReadsBack | scripts/generate_resume_dataset.py:279-284 | from the end of the file the reader finds the table, with the free entry and twenty bytes for every object, and the catalog in object 1 |
| PdfReader.StreamReadsBackFromObject | scripts/generate_resume_dataset.py:270 | the length entry is the size of the stream, whatever the stream contains and whatever follows |
| PdfReader.PageReadsBack | scripts/generate_resume_dataset.py:256-270 | page k is object 3 + 2k, which names object 4 + 2k, and from there the page's lines read back |
| PdfReader.PageTreeReadsBack | scripts/generate_resume_dataset.py:254-255 | the page tree object reads as exactly the references 3, 5, 7, ... and their count |
| PdfReader.FileReadsBack | scripts/generate_resume_dataset.py:236-285 | the whole file reads back: below ten to the tenth bytes, a reader that goes from the end of the file through table, root, page tree, pages and streams finds all pages with their sheet, font size and position, and on them all lines of the text, in order |
| PdfReader.LinesStayOnSheet | scripts/generate_resume_dataset.py:246-267 | every line stands on its sheet |
| EnvFile.ParseEnvText | scripts/deploy_aliyun.py:301-315 | the loop computes the meaning of a file, later lines winning |
| EnvRules.LineSets | scripts/deploy_aliyun.py:304-315 | a line sets its key, whatever blank space is before it and around the equals sign |
| EnvRules.QuotesComeOff | scripts/deploy_aliyun.py:311-313 | parsing `k="v"` and `k='v'` gives v, for every v |
| EnvRules.OtherValuesStay | scripts/deploy_aliyun.py:311-314 | no other value loses anything but the blank space around it |
| EnvRules.SetsNothing | scripts/deploy_aliyun.py:305-306 | a comment and a line without an equals sign set nothing |
| EnvRules.KeyIsValidExactlyWhen | scripts/deploy_aliyun.py:308-310 | a key is valid exactly when something is left of it without underscores, all letters and digits |
| EnvRules.LastLineDecides | scripts/deploy_aliyun.py:303-315 | the last line that sets a key decides its value, and no other key has one |
| EnvFile.MergeEnvText | scripts/deploy_aliyun.py:318-334 | the loops compute the merged file |
| EnvFile.WrittenLines | scripts/deploy_aliyun.py:334 | splitting what was joined and stripped gives the lines back, up to blank space at the end |
| EnvMerge.AssignReadsBack | scripts/deploy_aliyun.py:301-334 | a written `key=value` line sets that key for the parser and is recognised by the merger |
| EnvMerge.SameKey | scripts/deploy_aliyun.py:303-324 | parser and merger agree on which valid key a line sets |
| EnvMerge.MergedMeans | scripts/deploy_aliyun.py:301-334 | for values without line breaks, parse(merge(content, updates)) is parse(content) overridden by the values as lines carry them |
| EnvMerge.MergeOverridesExactlyWhen | scripts/deploy_aliyun.py:301-334 | it is parse(content) overridden by the updates exactly when every value is trimmed, unquoted and free of line breaks |
| EnvMerge.MergedLinesShape | scripts/deploy_aliyun.py:318-334 | every updated key stands on exactly one line, which assigns its value, and all other lines are kept in order |
| EnvMerge.MergedFileLines | scripts/deploy_aliyun.py:318-334 | the lines of the written file are the merged lines, up to blank space at the very end |
| EnvMerge.MergeIsIdempotent | scripts/deploy_aliyun.py:318-334 | merging the same updates again gives the same file |
| EnvUpload.UploadEnv | scripts/deploy_aliyun.py:337-420 | the whole upload: precedence of values, the three checks in order, the merged file |
| EnvRules.OverriddenExactlyWhen | scripts/deploy_aliyun.py:341-345 | the overrides are exactly the keys of the table that the environment sets to something that is not blank |
| EnvRules.ChecksLookAt | scripts/deploy_aliyun.py:337-396 | the value that is checked, for every key but the Neo4j parts: the host, or the override, or what was there before unless it is blank, or the default |
| EnvRules.PartsAreKnown | scripts/deploy_aliyun.py:397-407 | a composite is split at its first slash, and its parts are checked |
| EnvRules.RefusedExactlyWhen | scripts/deploy_aliyun.py:409-418 | which deployments are refused, and for which of the three reasons: a required key without a value, a character in the password that is no letter, digit or one of four, a line end in a value |
| EnvPrecedence.WritesExactly | scripts/deploy_aliyun.py:341-407 | for an existing file exactly these keys are written: host, overrides, defaults of blank settings, and the Neo4j parts under their condition |
| EnvPrecedence.KeepsRemoteValues | scripts/deploy_aliyun.py:341-407 | a non-blank remote value without override changes only for the host and for the Neo4j parts of an overridden composite |
| EnvPrecedence.CheckedIsUploaded | scripts/deploy_aliyun.py:366-420 | for an existing file: when lines can carry the written values, the uploaded file means what was checked, for every key but the Neo4j parts |
| EnvPrecedence.EnvironmentAgrees | scripts/deploy_aliyun.py:165-190 | bootstrap fields and overrides agree on shared keys, because both are read from the same environment |
| EnvPrecedence.FirstDeploymentWritesAll | scripts/deploy_aliyun.py:341-407 | on a first deployment what is checked is what is written, key by key, Neo4j parts included |
| EnvPrecedence.FirstUploadReadsBackExactlyWhen | scripts/deploy_aliyun.py:341-420 | and the first file means exactly what was checked if and only if lines can carry all values |
| EnvPrecedence.UploadMeansWhatWasChecked | scripts/deploy_aliyun.py:337-420 | a deployment from the environment that passes the checks uploads what was checked and sets every required key, for every key on a first deployment and all but the Neo4j parts later, if lines can carry the values |
| EnvPrecedence.AcceptedReadsBackExactlyWhen | scripts/deploy_aliyun.py:409-420 | an accepted upload reads back as the old file overridden by what was written exactly when lines can carry the written values |
| EnvExceptions.StalePartExactlyWhen | scripts/deploy_aliyun.py:400-407 | for an existing file: the uploaded Neo4j part differs from the checked one exactly when the composite is not overridden and the remote file has it next to another, non-empty part |
| EnvExceptions.StalePartIsUploaded | scripts/deploy_aliyun.py:337-420 | any accepted later deployment whose composite is the remote one is accepted again with another user or password put into the file: it checks the part of the composite and uploads the other value |
| Redeployment.RedeployKeepsMeaning | scripts/deploy_aliyun.py:337-420 | after an accepted first deployment with values that lines can carry, a second one from the same environment is accepted, checks the same values and uploads a file that means the same |
| EnvExceptions.VariableIsKnown | scripts/deploy_aliyun.py:341-407 | setting one variable of the key table changes what is known of its own key only, and writes it there |
| EnvExceptions.NewlineCheckMisses | scripts/deploy_aliyun.py:337-420 | any accepted deployment stays accepted when one variable of the key table is set to a value with a line separator, and its file then does not read back as what was written |
| KnowledgeSync.Server.Delete | scripts/seed_knowledge_base.py:59-64 | a call may fail before or after its effect; only a confirmed removal counts |
| KnowledgeSync.DeleteRows | scripts/seed_knowledge_base.py:141-150 | only rows of the title are removed, and all of them if no call failed |
| KnowledgeSync.DeleteLegacy | scripts/seed_knowledge_base.py:114-123 | the legacy loop touches legacy titles only and, without a failure, leaves none |
| KnowledgeSync.SyncTitle | scripts/seed_knowledge_base.py:125-167 | one round touches one title only and never multiplies its documents; without failures it leaves exactly the expected document iff it was forced, the title was not current, or that document was there already |
| KnowledgeSync.CurrentExactlyWhen | scripts/seed_knowledge_base.py:47-56 | a title is current exactly when it has one document, and that has the expected type and stripped content |
| KnowledgeSync.Sync | scripts/seed_knowledge_base.py:82-174 | for every pattern of failures: a run is safe, success implies that every managed title has exactly one document, with the expected type and stripped content, and skipped + created = number of titles; the counters are the confirmed deletions and creations and the refusals; without failures it succeeds, leaves a title alone exactly when it had one document with that type and content and the run is not forced, and leaves exactly the expected document iff it was forced, the title was not current, or that document was there already |
| KnowledgeSync.ForeignDocumentsSurvive | scripts/seed_knowledge_base.py:82-167 | no run touches a document whose title is neither managed nor legacy |
| KnowledgeSync.NoDuplicates | scripts/seed_knowledge_base.py:125-167 | after any run a managed title has at most as many documents as before, or exactly one |
| KnowledgeSync.SyncTwice | scripts/seed_knowledge_base.py:82-174 | from any store, one run without failures converges to exactly one document of the expected type and content for every managed title, and the next one skips every title and leaves documents and writes as they are |
| KnowledgeSync.StaleTagsAreCurrent | scripts/seed_knowledge_base.py:47-56 | a document with stale tags counts as current, so a run that is not forced leaves it in place |
| PairedEvaluation.RewardGateExactlyWhen | harness/evolve_policies.py:177-204 | the gates pass exactly when at most one in forty of the other pairs is no improvement and the three limits hold |
| PolicyRules.MeanIs | harness/evolve_policies.py:184-186 | the mean times the number of pairs is the difference of the summed rewards |
| PolicyRules.IntervalIs | harness/evolve_policies.py:188-190 | the ends of the interval stand at the ranks of one and of thirty-nine fortieths of the other differences, told by counting |
| PairedEvaluation.NotBothBetter | harness/evolve_policies.py:177-204 | two policies cannot both pass the reward gate against each other |
| PairedEvaluation.BetterStillPasses | harness/evolve_policies.py:177-204 | a candidate at least as good on every pair passes whatever the other passes |
| PairedEvaluation.NothingBeatsItself | harness/evolve_policies.py:177-204 | compared with itself nothing passes the reward gate |
| PolicyRun.Runner.RunRepeats | harness/evolve_policies.py:261-293 | the innermost loop with its budget break follows the plan, what is done is always a prefix of it, and it stops only for a cancellation or a failed call |
| PolicyRun.Runner.RunSplits | harness/evolve_policies.py:257-297 | the nested loops over splits, cases, seeds and repetitions, left at four places, do the same, and check once at most when the budget is already used up |
| PolicyRun.Runner.Run | harness/evolve_policies.py:248-321 | a completed run does what folding the plan says, a stopped one has done a prefix of it; it goes on as long as no check reports a cancellation and no call fails, and stops with the first that does |
| PolicyRules.StopsExactlyWhen | harness/evolve_policies.py:248-297 | a run that went through was told of no cancellation and had no failing call, one that was cancelled had exactly its last check say so |
| PolicyRun.PlanIsCutAtBudget | harness/evolve_policies.py:257-297 | exactly the trials before the first point at which the budget is used up are created, in plan order |
| PolicyRun.EveryTrialIsFinishedOnce | harness/evolve_policies.py:266-291 | created trials are numbered in order and finished exactly once, except for one that is open |
| PolicyRun.NothingOpenAtChecks | harness/evolve_policies.py:261-262 | at every cancellation check every created trial has been finished exactly once; and a trial is created only right after a check |
| PolicyRun.CreatedWithinBudget | harness/evolve_policies.py:263-275 | no trial is created once what was spent reaches the budget |
| PolicyRun.OverspendsByOneTrial | harness/evolve_policies.py:263-297 | final spending is the initial spending or less than the budget plus one trial's cost |
| PolicyRun.TallyCountsTrials | harness/evolve_policies.py:252-280 | a candidate's rewards are one per trial |
| PolicyRules.TallyHolds | harness/evolve_policies.py:252-280 | a candidate's tally holds what its own trials yielded: on every split their rewards in order, and their violations, number and timeouts |
| PolicyRun.RunGatePassesExactlyWhen | harness/evolve_policies.py:299-311 | the run's reward gate passes exactly when there are no gate rewards and the first evaluation reward is negative |
| PolicyRules.RunGatesAre | harness/evolve_policies.py:299-311 | besides, a run asks for no violation, a budget that is not overspent, and at most one trial in five that ran out of time |
| PolicyRules.OwnMeanIsZero | harness/evolve_policies.py:299-311 | with gate rewards the recorded mean difference is zero |
| PolicyRun.NegativeRewardPasses | harness/evolve_policies.py:299-311 | a run with one evaluation trial and a negative reward passes the reward gate |
| ClampConfig.ClampSettings | harness/evolve_policies.py:455-474 | the three loops fold all accepted values into one copy of the base |
| ClampConfig.AcceptedExactlyWhen | harness/evolve_policies.py:456-469 | truth values are accepted everywhere, and numbers where a number is set; there true counts as one and false as zero |
| ClampConfig.WholeNumberTakes | harness/evolve_policies.py:459-460 | a whole number takes the nearer bound, or what is within them without its fraction |
| ClampConfig.FractionTakes | harness/evolve_policies.py:464-466 | a fraction takes the nearer bound, or what is within them, rounded |
| ClampConfig.OnlySettingsChange | harness/evolve_policies.py:439-474 | every mutable setting holds the clamped proposal or else the base value, and every other path reads as in the base |
| ClampConfig.InBoundsExactlyWhen | harness/evolve_policies.py:456-466 | a mutable setting ends in bounds exactly when a value is accepted for it or the base value is in bounds |
| ClampConfig.FailsExactlyWhen | harness/evolve_policies.py:448-453 | it raises exactly when a value is accepted for a setting that something in the base is in the way of |
| ClampConfig.SecondClampMoves | harness/evolve_policies.py:439-474 | a base value above its bound stays when nothing is proposed and moves to the bound when the result is proposed |
| ClampConfig.NumberBlocksSection | harness/evolve_policies.py:448-453 | a number where the section of a proposed setting should be makes it raise |
| ClampConfig.IdempotentExactlyWhen | harness/evolve_policies.py:439-474 | clamping the result again changes nothing exactly when every setting that the proposal leaves alone is settled in the base |
| TtlExperiment.GenerateEvents | harness/run_business_memory_ttl_experiment.py:99-116 | event i comes after i + 1 gaps, there are as many events as the gaps leave in the simulated year, and for non-negative gaps they are sorted |
| TtlExperiment.AvailableExactlyWhen | harness/run_business_memory_ttl_experiment.py:131-134 | k earlier arrivals are available exactly when the k-th last one is |
| RecentCases.EvaluateRecent | harness/run_business_memory_ttl_experiment.py:119-158 | the quadratic scan counts the gaps between arrivals one and two apart, and averages the similarities of the cases it selects |
| RecentCases.SelectedAreNearest | harness/run_business_memory_ttl_experiment.py:131-140 | the selected cases are different, not expired, and no other such case is more similar |
| RecentCases.LongerIsNoWorse | harness/run_business_memory_ttl_experiment.py:131-144 | for a single arrival a longer time to live gives as many cases or more, the first and the second at least as similar |
| RecentCases.MeanCanFall | harness/run_business_memory_ttl_experiment.py:140-156 | a family of streams for which a longer time to live lowers the mean similarity |
| TtlExperiment.EvaluateProfile | harness/run_business_memory_ttl_experiment.py:161-178 | availability counts the one-step gaps from the fourth arrival on |
| TtlExperiment.GapsMonotone | harness/run_business_memory_ttl_experiment.py:119-178 | all these counts grow with the time to live |
| TtlExperiment.RecentAndProfile | harness/run_business_memory_ttl_experiment.py:119-178 | arrivals with two recent cases are never more than those with one, which are those with a profile apart from the first ones |
| TtlRules.CoverageIs | harness/run_business_memory_ttl_experiment.py:143-155 | coverage is the share of the arrivals but the first that come within the time to live of the second one before them |
| TtlRules.AvailabilityIs | harness/run_business_memory_ttl_experiment.py:164-177 | availability is the share of the arrivals from the fourth on that come within the time to live of the one before them |
| TtlRules.MeansAre | harness/run_business_memory_ttl_experiment.py:181-186 | a metric of a cadence is the rounded mean over its streams |
| TtlExperiment.ProfileChoiceIsThreshold | harness/run_business_memory_ttl_experiment.py:226-229 | exactly the profile candidates from the chosen one on pass |
| TtlRules.ProfileGatesAre | harness/run_business_memory_ttl_experiment.py:226-229 | a profile must be available to 99 % of the arrivals in every cadence |
| TtlRules.CoverageGatesAre | harness/run_business_memory_ttl_experiment.py:220-223 | two recent cases must be there for 90 % of the arrivals of the normal and 95 % of the busy cadence |
| TtlRules.SimilarityGateIs | harness/run_business_memory_ttl_experiment.py:220-224 | and their similarity must be 0.9 |
| TtlExperiment.RecentChoiceIsThresholdExactlyWhen | harness/run_business_memory_ttl_experiment.py:220-225 | the chosen candidate is the least that passes; a longer one passes exactly when it keeps the similarity |
| RecentChoice.ChoiceIsLeast | harness/run_business_memory_ttl_experiment.py:220-225 | over the measured mean similarity: the chosen candidate is the least that passes, and a longer one passes exactly when the similarity stays |
| RecentChoice.LongerCanFail | harness/run_business_memory_ttl_experiment.py:119-225 | families of streams, any number for each cadence and with any gaps within the time to live, for which a candidate longer than the chosen one fails |
| UsageReplay.NormalizeUsage | harness/run_memory_ttl_replay.py:155-198 | the samples are the valid rows in order, with their diagnostics |
| UsageRules.CurrentTypes | harness/run_memory_ttl_replay.py:169-176 | the current type of every legacy one |
| UsageRules.DroppedExactlyWhen | harness/run_memory_ttl_replay.py:174-189 | a row is dropped for the first of four reasons that applies, and is a sample otherwise |
| UsageRules.SampleIs | harness/run_memory_ttl_replay.py:188-196 | the sample of a row: its type, whether it was used, its age in days of 86400 seconds, and its score between one twentieth and one |
| UsageReplay.EveryRowIsAccountedFor | harness/run_memory_ttl_replay.py:155-198 | input rows = valid rows + rows dropped for each reason; legacy counts are exact and add up to the remapped rows |
| UsageReplay.SamplesAreSound | harness/run_memory_ttl_replay.py:169-196 | samples have a current type, an age that is not negative and a weight in [0.05, 1] |
| UsageReplay.AgeHistogram | harness/run_memory_ttl_replay.py:201-210 | the buckets partition the samples |
| UsageRules.BucketCounts | harness/run_memory_ttl_replay.py:201-210 | a bucket holds the samples whose age lies in its half-open range |
| UsageReplay.EvaluateType | harness/run_memory_ttl_replay.py:219-283 | rows of all candidates and the default in increasing order, the four reasons against a conclusion, and the outcome |
| UsageRules.CandidateMeans | harness/run_memory_ttl_replay.py:236-260 | what the four numbers of a candidate are shares of, by number and by weight, and that it passes when both shares of the used samples reach the floor |
| UsageRules.MaxAgeIs | harness/run_memory_ttl_replay.py:230 | the age that is compared with the required one is that of the oldest sample |
| UsageReplay.PassesUpward | harness/run_memory_ttl_replay.py:236-250 | passing the quality gate is upward closed in the time to live |
| UsageReplay.ProposalAmongCandidates | harness/run_memory_ttl_replay.py:279-280 | the proposal is a candidate or the default, and exactly the candidates from it on pass |
| UsageReplay.LongEnoughPasses | harness/run_memory_ttl_replay.py:236-250 | a candidate that outlives every use passes, for a floor of at most one |

## Left out

- Rounding of floating-point numbers: scores, means and ratios are real numbers; where a rounded value is compared, rounding is any function that keeps the order.
- Windows.WindowEnd: the boundary floor `int(size * 0.55)` is `size * 55 / 100` in integers, which can differ from the floating-point product by one for a few sizes; the factor 0.85 of the semantic scan is treated alike.
- PairedEvaluation.EvaluatePaired: the interval indexes `int(0.025 * (n - 1))` and `int(0.975 * (n - 1))` are integer quotients by forty.
- Ranking.DocumentNdcgIsFraction: the logarithmic discount is any positive, falling function of the rank and the gain any non-negative, non-decreasing function of the label.
- Fusion.Rerank: the candidates are a given list, of which the caller takes the first twenty.
- Selection.JointPareto: utilities and the other objectives are numbers of a trial; how the utility is computed from metrics is stated by `Selection.Quality`, the others are given, and names are natural numbers in the order of the strings.
- MarkdownSections.SplitSections: the detected marks are a given list of positions, levels and titles in a normalised text; joining a path's titles by ` > ` is not modelled.
- `production_kb_blocks` and `split_production_kb_sections` re-join stripped lines, so that exact slices are not claimed for them.
- SectionChunks.DocumentExactExactlyWhen: the Markdown headings are detected by `MarkdownHeadings.MarkdownMarks`; the plain labels of the second detector are arbitrary marks.
- EmbeddingCache.EmbeddingClient.Embed: SHA-256 is taken as injective; retries, sleeps, timings and the cache file are not modelled.
- The embedding model, language model and rerank model are arbitrary functions or answers; prompts, token counts and latency are not modelled.
- Lower-casing, tokenisation, BM25 and the feature rerankers are not modelled: term search works on text that is already in lower case.
- PdfText.ReadEscaped: octal escapes and balanced unescaped parentheses are not read, since the writer produces neither.
- EnvFile.ParseLine: which characters beyond ASCII count as letters is a parameter.
- EnvUpload.UploadEnv: key tables, the fields and fallback values of the configuration, the process environment and the five special key names are parameters; reading and writing the remote file and the printed messages are not modelled.
- KnowledgeSync.Server.List: every listed document has an identifier, and nobody else writes to the server during a run; the printed log is not modelled.
- PolicyRun.Runner.Check: waiting while an experiment is paused is not modelled, since it only repeats the question; what a trial does is an arbitrary result by its number.
- ClampConfig.ClampSettings: the tables of settings are parameters, with paths of any length of which none is a prefix of another; values are compared as JSON text, so that `1`, `1.0` and `true` differ; numbers that are not finite are not modelled.
- The candidate generator, the mutation prompts and the offline command of the policy script would only add easy members.
- RecentCases.EvaluateRecent: how similar two cases are is an arbitrary function of their positions.
- RecentChoice.LongerCanFail: the streams are arbitrary lists of arrivals with arbitrary similarities, not those that the script draws with its seeds and compares by their features; rounding is any order-keeping function within a ten-thousandth that leaves 0.9 and 0.95 alone.
- Scoping.AnsweredFromScope: that the two searches return chunks of the list they are given is a premise; the feature rerankers, which only reorder and cut a list, are not modelled.
- UsageReplay.EvaluateType: the wording of the reasons and the report around the results are not modelled; the required age is a parameter.
- The bootstrap comparisons, report rendering, charts, HTTP, SSH, Docker and database code are input and output around the modelled parts.
- The README's run state machine and the Java control plane are not among the Python files.
