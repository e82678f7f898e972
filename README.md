# Smart news recommender, modelled in Dafny

This project models the core of a news recommender built on the MIND news table. It covers three parts:

- **Recommending** (`core/utils.py`). A user's click history becomes a profile. The profile has a category counter, plus topics and regions that a language model reads off a numbered digest of the first ten clicks. A vector search seeded with the title of the last click gives candidates; a random sample of the catalog stands in when the search gives none. The language model ranks the candidates, and the ranked ids become result entries.
- **Ingesting** (`core/save_news_to_qdrant.py`). Each row gets a `news_info` text. The texts are embedded in consecutive batches. Point ids, vectors and payloads are inserted into the vector store batch by batch.
- **Content analysis** (`app/content_analyzer.py`). A sentiment label comes from fixed word lists. Chinese-word preprocessing, word counting over a sample of news, keywords and hot topics are computed.

Every outside service is a function parameter:

- the language model (profile reply, ranking reply);
- the embedding model and the vector search;
- the name-based uuid;
- collection creation and batch insert;
- the random samples;
- the jieba segmenter.

When the embedding model, the vector search, collection creation or a batch insert raises, the model gives a `None` (or `Raised`) result. The language model's completion is a function from the prompt to the reply text; it never raises here (see "Left out"). Tables are values: a sequence of `Article` rows for the recommender, and maps from column name to `Cell` (NaN is `Missing`) for ingestion and analysis.

Modules:

- `Util`: Option, `Take` (s[:n]), clamped `Slice`, `FirstIndex`.
- `Text`: Python string operations: `strip`, `split`, `join`, `lower` on ASCII, `find`, `in`, `re.findall(r'\d+')`, `int` and `str` of naturals.
- `Counting`: `collections.Counter` and a stable `most_common`.
- `Catalog`: lookup by news id and the numbered digest line.
- `Profile`, `Retrieval`, `Ranking`, `Recommender`: `core/utils.py`.
- `Ingest`: `core/save_news_to_qdrant.py`.
- `Analyzer`: `app/content_analyzer.py`.

Where the code and the documented intent differ, the model follows the code:

- The profile keeps the first ten clicks, not the most recent ten, although a comment says "most recent".
- The ranker's padding can repeat ids.
- `_extract_profile_section` drops the last character of a section when no `[` follows it.
- `save_to_qdrant` never returns False, because collection creation raises instead of returning False. It can silently skip rows when there are fewer vectors than rows and they fill whole batches.
- In the analysis, an empty title or abstract next to a non-empty one makes `"" + list` raise TypeError, and a NaN title makes `float + str` raise. Either one fails the whole analysis.

## Model

| member | source | states |
|---|---|---|
| Catalog.FindIndex | core/utils.py:63-65 | the position of the first row with the id, or None exactly when no row has it |
| Catalog.Find | core/utils.py:80-82 | the selected row has the id and is the first such row; None exactly when the selection is empty |
| Catalog.FindMember | core/utils.py:80-82 | an id taken from a row always resolves, to that row or an earlier one |
| Catalog.DigestLine | core/utils.py:83 | a digest line starts with its number followed by '.' |
| Catalog.DigestLineNumber | core/utils.py:83 | two digest lines with different numbers differ |
| Catalog.NumberedLines | core/utils.py:180-183 | one line per candidate row, the i-th numbered i + 1 |
| Counting.TallyCounts | core/utils.py:60-67 | the counter holds every counted key with its exact multiplicity, each key once, in first-seen order |
| Counting.TallySnoc | core/utils.py:67 | update([k]) on the counter of ks is the counter of ks + [k] |
| Counting.TallyEmpty | core/utils.py:71 | the counter is falsy exactly when nothing was counted |
| Counting.TallySize | core/utils.py:60-67 | the counter has one entry per distinct key |
| Counting.MostCommonOfTally | core/utils.py:70 | most_common(n) has min(n, distinct keys) entries with exact counts, larger counts first, ties in first-seen order, and no key left out beats one kept |
| Counting.MostCommonHead | core/utils.py:70-71 | most_common(1)[0] is the first entry of most_common(5) |
| Profile.ResolvedPairsSound | core/utils.py:62-67 | every counted pair comes from a click that resolves to it |
| Profile.ResolvedPairsComplete | core/utils.py:62-67 | every click that resolves has its pair counted |
| Profile.ResolvedPairsEmpty | core/utils.py:64 | nothing is counted exactly when no click resolves |
| Profile.AnalyzeUserCategories | core/utils.py:58-72 | favourites are most_common(5) of the resolved pairs over the whole history; the top pair is None exactly when no click resolves, and otherwise is the first favourite |
| Profile.DigestRecordSource | core/utils.py:79-84 | each record is the line of a resolving click, numbered by that click's 1-based position |
| Profile.DigestRecordPresent | core/utils.py:79-84 | each resolving click among the first ten contributes its numbered record |
| Profile.DigestGap | core/utils.py:81 | a record numbered i + 1 exists only if click i resolves |
| Profile.DigestLength | core/utils.py:79-84 | at most one record per click |
| Profile.HistoricalRecords | core/utils.py:77-84 | the loop builds exactly the digest of the window |
| Profile.GenerateUserProfile | core/utils.py:74-114 | the model sees the digest of the first ten clicks; topics and regions are parsed from its reply; favourites count all clicks; the first ten clicks are kept |
| Profile.ExtractProfileSection | core/utils.py:116-130 | a reply without the heading (case-insensitive) gives [] |
| Profile.Items | core/utils.py:123-127 | never more items than lines |
| Profile.ItemsAppend | core/utils.py:123-127 | the items of two runs of lines are the items of each, in order |
| Profile.BlankLineSkipped | core/utils.py:127 | a whitespace-only line contributes no item, wherever it stands |
| Profile.DashLineEmptyItem | core/utils.py:125-127 | a line of dashes and spaces such as "- " contributes one empty item |
| Profile.ItemsBullets | core/utils.py:123-127 | the "- t" lines of plain items parse back to exactly those items |
| Profile.ExtractFormattedReply | core/utils.py:116-127 | a reply holding, after any preamble in which find does not see the heading earlier, a "[section]" heading (trailing spaces allowed), one "- item" line per item and trailing whitespace, and for a section other than "region" a following '[', parses back to exactly its items |
| Profile.PromptReplyParses | core/utils.py:93-111 | a reply written in the prompt's format, a "[topics]" list, a blank line and a "[region]  " list, gives back its topics and its regions |
| Profile.PromptTopics | core/utils.py:110 | the "[topics]" section of such a reply ends at the "[region]" heading and gives back the topics |
| Profile.PromptRegions | core/utils.py:111 | the "[region]" section of such a reply runs to its end and gives back the regions |
| Profile.UnterminatedSectionDropsLastCharacter | core/utils.py:120-121 | with no '[' after a non-region section, find's -1 makes the slice drop the reply's last character |
| Retrieval.NewsIdsAppend | core/utils.py:146-152 | extraction over consecutive hits is the concatenation of the extractions |
| Retrieval.NewsIdsSound | core/utils.py:148-149 | every extracted id is the payload news_id of some hit |
| Retrieval.NewsIdsComplete | core/utils.py:148-149 | every hit carrying a news_id contributes it |
| Retrieval.NewsIdsLength | core/utils.py:146-152 | at most one id per hit, and exactly one when every hit carries one |
| Retrieval.VectorSearchCandidates | core/utils.py:132-159 | the payload news ids in hit order; [] when embedding or search raised or a payload is None |
| Retrieval.CandidatesWithinLimit | core/utils.py:139-143 | a search that keeps to its limit gives at most limit candidates |
| Ranking.CandidateRows | core/utils.py:171 | never more candidate rows than catalog rows |
| Ranking.CandidateRowsMember | core/utils.py:171 | a row is a candidate row exactly when it is in the catalog and its id is a candidate id |
| Ranking.CandidateRowsAppend | core/utils.py:171 | the candidate rows keep catalog order |
| Ranking.CandidateRowsIgnoreOrder | core/utils.py:171 | only which ids are candidates matters, not their order or repeats |
| Ranking.InRange | core/utils.py:214 | the kept numbers all lie in 1..n |
| Ranking.InRangeMember | core/utils.py:214 | a number is kept exactly when it occurs in the reply and lies in 1..n |
| Ranking.NamedIds | core/utils.py:217-219 | one id per kept number: the id of the row that number names |
| Ranking.AppendNamed | core/utils.py:216-219 | the loop builds exactly the named ids |
| Ranking.RankNewsByProfile | core/utils.py:161-229 | [] when no catalog row is a candidate; otherwise the ranked ids for the model's reply to the numbered list |
| Ranking.RankedLength | core/utils.py:214-229 | at most top_n ids: min(top_n, rows) on the exception path, min(top_n, usable numbers + rows) otherwise |
| Ranking.RankedFromRows | core/utils.py:217-228 | every ranked id is the id of a candidate row |
| Ranking.RankedFollowsReply | core/utils.py:214-219 | the first ranked ids name the reply's usable numbers in reply order |
| Ranking.NoUsableNumberFallsBack | core/utils.py:221-224 | a reply that names no candidate yields the first top_n candidates |
| Ranking.PaddingRepeatsFirstCandidate | core/utils.py:222-224 | the reply "1" with top_n >= 2 repeats the first candidate |
| Recommender.FirstBehavior | core/utils.py:53-56 | the user's first behaviour row, or None exactly when there is none |
| Recommender.ClickIds | core/utils.py:247 | the click ids are non-empty words |
| Recommender.SeedQuery | core/utils.py:257-258 | the title of the last click, or "新闻" when it does not resolve |
| Recommender.SampleIds | core/utils.py:264 | one id per sampled position: that row's id |
| Recommender.MaterialiseIds | core/utils.py:279-290 | the loop builds exactly the entries of the resolving ids |
| Recommender.Recommend | core/utils.py:231-293 | [] without a behaviour row or clicks; otherwise the profile, the seeded search (or the sampled pool when it finds nothing), the ranking and the entries of the ranked ids that resolve, as the loop builds them |
| Recommender.MaterialiseShape | core/utils.py:280-290 | when every id resolves: one entry per id, in order, built from the first row with that id |
| Recommender.MaterialiseLength | core/utils.py:280-290 | never more entries than ids |
| Recommender.RankedForResolves | core/utils.py:217-228 | every ranked id is a candidate id that resolves |
| Recommender.NoHistoryNoRecommendations | core/utils.py:240-251 | no behaviour row, or no clicks, gives [] |
| Recommender.RecommendedInRankOrder | core/utils.py:254-293 | at most top_n entries, one per ranked id, in rank order, with the first matching row's fields |
| Recommender.FallbackPoolIsSample | core/utils.py:263-264 | the fallback pool is min(50, n) ids that all resolve |
| Ingest.Present | core/save_news_to_qdrant.py:59 | the columns kept are exactly the candidates the table has, in candidate order |
| Ingest.FillRow | core/save_news_to_qdrant.py:55 | one cell for every column of the table and no other; NaN becomes "" and text stays |
| Ingest.PreprocessData | core/save_news_to_qdrant.py:38-66 | raises exactly when some non-blank cell of a present entity column is not a literal; otherwise the prepared table and its news_info strings |
| Ingest.Prepare | core/save_news_to_qdrant.py:55-66 | one news_info per row, in row order, built from the filled row's present info columns and stored in the news_info column; columns kept |
| Ingest.PreparedNewsIds | core/save_news_to_qdrant.py:55 | the prepared news_id cell is the original one with NaN read as "" |
| Ingest.FilledInfo | core/save_news_to_qdrant.py:55-63 | filling NaN leaves the four news_info fields as they read on the original row |
| Ingest.NewsInfoAllColumns | core/save_news_to_qdrant.py:56-63 | with all four columns: the category, sub_category, title and abstract fields as "col:value", in that order, joined by the bar separator, NaN showing as "" |
| Ingest.NewsInfoNoColumns | core/save_news_to_qdrant.py:59-63 | with none of the four columns, news_info is "" |
| Ingest.ChunksCover | core/save_news_to_qdrant.py:76-77 | the batches are non-empty, at most batch_size long, and together are the texts in order |
| Ingest.ComputeEmbeddingsBatch | core/save_news_to_qdrant.py:68-83 | the result is the batches' embeddings concatenated; batch size 0 raises and a negative one gives [] |
| Ingest.EmbedFromAligned | core/save_news_to_qdrant.py:76-79 | one vector per text from a position on, when each batch gets one per text |
| Ingest.EmbeddingsAligned | core/save_news_to_qdrant.py:74-83 | with a positive batch size and one vector per text, one vector per text |
| Ingest.PointIds | core/save_news_to_qdrant.py:94-95 | one point id per row: the uuid of str(news_id) |
| Ingest.Payloads | core/save_news_to_qdrant.py:103 | one payload per row, holding exactly the row's columns, each with the row's cell, plus the point id |
| Ingest.SaveBatches | core/save_news_to_qdrant.py:105-121 | the loop's outcome is the batches inserted in order: raise on mismatch, total of accepted batches |
| Ingest.SaveToQdrant | core/save_news_to_qdrant.py:85-124 | the outcome as one value: raise without a news_id column, on a failed collection, or on batch size 0 |
| Ingest.SaveNeverReturnsFalse | core/save_news_to_qdrant.py:98-124 | the result is True whenever it returns |
| Ingest.WholeBatchesMod | core/save_news_to_qdrant.py:105-108 | a whole number of batches is a multiple of the batch size |
| Ingest.BatchesShaped | core/save_news_to_qdrant.py:105-108 | the batches have the sizes of ids, vectors and payloads sliced at the same range |
| Ingest.ShapedRaises | core/save_news_to_qdrant.py:105-115 | the batches raise exactly when there are more vectors than rows, or fewer that do not fill whole batches |
| Ingest.ShapedTotal | core/save_news_to_qdrant.py:117-118 | the total never exceeds the vectors sent, and equals it when every insert succeeds |
| Ingest.SaveAligned | core/save_news_to_qdrant.py:85-124 | one vector per row: True with total at most the rows, and all of them when every insert succeeds |
| Ingest.ShortVectors | core/save_news_to_qdrant.py:105-124 | fewer vectors than rows: True with the remaining rows never sent when they fill whole batches, otherwise raise |
| Ingest.ExtraVectorsRaise | core/save_news_to_qdrant.py:105-115 | more vectors than rows: raise |
| Ingest.ProcessAndSave | core/save_news_to_qdrant.py:126-148 | False on any exception, else what saving returned |
| Ingest.ProcessSucceeds | core/save_news_to_qdrant.py:133-144 | a table whose entity cells all parse, with a news_id column, a positive batch size, an existing collection and one vector per text gives True |
| Ingest.MalformedEntitiesFail | core/save_news_to_qdrant.py:126-148 | a non-blank entity cell that is not a literal makes process_and_save return False |
| Analyzer.Presence | app/content_analyzer.py:107-108 | the count never exceeds the list length |
| Analyzer.PresenceCountsWords | app/content_analyzer.py:107-108 | over a list without repeats, the count is the number of distinct list words present |
| Analyzer.AnalyzeSentiment | app/content_analyzer.py:103-114 | one of three labels; the score is positive exactly when the label is not neutral, and at most 10 |
| Analyzer.SentimentByPresentWords | app/content_analyzer.py:103-114 | the label compares distinct positive and negative words found; the score is the winner's count, 0 on a tie |
| Analyzer.SentimentIgnoresCase | app/content_analyzer.py:106 | lower-casing the input first changes nothing |
| Analyzer.KeepWords | app/content_analyzer.py:100 | a segment is kept exactly when it is longer than one character and not a stopword, with its multiplicity |
| Analyzer.PreprocessText | app/content_analyzer.py:94-101 | "" exactly for an empty-string cell; otherwise exactly the kept segments of the Han-only text |
| Analyzer.PreprocessedWordsAreHan | app/content_analyzer.py:97-100 | when the segmenter only cuts its input, every kept word is all U+4E00–U+9FA5, longer than one character and not a stopword |
| Analyzer.MissingHasNoHan | app/content_analyzer.py:95-97 | a NaN cell is processed as "nan", which has no Han character |
| Analyzer.JoinWords | app/content_analyzer.py:136 | raises exactly when one side is "" and the other a list; otherwise the two lists concatenated |
| Analyzer.RowStepFails | app/content_analyzer.py:134-137 | an iteration raises exactly when one cell is "" and the other is not, or the title is NaN |
| Analyzer.GatherNoneExtends | app/content_analyzer.py:118-150 | once an iteration raised, the loop's outcome stays an exception |
| Analyzer.GatherFails | app/content_analyzer.py:133-138 | the loop raises exactly when some row's iteration raises |
| Analyzer.GatherLabels | app/content_analyzer.py:137-138 | one sentiment label per row, that row's label, in order |
| Analyzer.GatherWords | app/content_analyzer.py:136 | all_words grows by each row's words, in row order |
| Analyzer.GatherRows | app/content_analyzer.py:131-138 | the loop builds exactly the gathered words and labels |
| Analyzer.HotEntries | app/content_analyzer.py:144-145 | an entry is hot exactly when it is among the candidates and its count exceeds 5 |
| Analyzer.HotTopics | app/content_analyzer.py:146 | one topic per hot entry, formatted "<word> (<count>次)" |
| Analyzer.CollectHotTopics | app/content_analyzer.py:143-147 | the loop builds exactly the hot topics |
| Analyzer.HotEntriesRanked | app/content_analyzer.py:144-146 | filtering keeps the most_common ranking order |
| Analyzer.HotEntriesOfWords | app/content_analyzer.py:139-146 | at most 10 hot entries, each with its exact count above 5, ranked; none of the top 10 above 5 is missing |
| Analyzer.AnalysisOf | app/content_analyzer.py:117-150 | a result exactly when the loop over the sample completes |
| Analyzer.LoadAndAnalyze | app/content_analyzer.py:117-150 | the analysis as one value, None on the exception path |
| Analyzer.AnalysisFails | app/content_analyzer.py:133-151 | the analysis is None exactly when some sampled row raises |
| Analyzer.AnalysisKeywords | app/content_analyzer.py:120-140 | sizes recorded; keywords are min(30, distinct words) words with exact counts, ranked, none left out beating one kept |
| Analyzer.AnalysisSentiments | app/content_analyzer.py:137-142 | every sentiment entry is one of the three labels with the number of rows that got it |
| Analyzer.AnalysisHotTopics | app/content_analyzer.py:143-147 | at most 10 hot topics, each the formatted form of a word among the top 10 with its exact count above 5, in ranking order |

## Left out

- Loading TSV files (`load_news_data`, `load_behaviors_data`), the command line, the Streamlit pages and their rendering, logging and caching: these are I/O and UI. Tables enter the model as values.
- The language model, the embedding model, the vector store client and jieba: outside code. Each is a function parameter with no assumed behaviour, except where a lemma states its assumption (one vector per text, a segmenter that only cuts its input).
- `uuid.uuid5` (section 4.3 of RFC 4122): a deterministic function parameter of the news id. Hashing is not modelled.
- `df.sample`: a parameter. The recommender's fallback takes the sampled positions with their size and distinctness as a precondition. The analysis takes a function from the table and the size to the sampled rows.
- Ingest.PreprocessData / Ingest.Payloads: `ast.literal_eval` (core/save_news_to_qdrant.py:48-52) is the predicate parameter `accepts` over the cell text. A cell it rejects makes preprocessing raise and `process_and_save` return False. The parsed lists are not modelled: in the payloads the entity columns keep their text, and a NaN or blank entity cell shows as "" where the program stores [].
- `lower()`, `isspace()` and the `\d` class: modelled for ASCII letters, Python's whitespace set and ASCII digits only. Unicode case folding and other digit scripts are left out.
- Ranking.RankNewsByProfile: `top_n` is a natural number. Python's negative slice bounds are not modelled.
- Ranking.ParsedNumbers: the only exception modelled is `int()` refusing a digit run longer than 4300 digits (the default limit of CPython 3.11 and later).
- Recommender.Recommend: the click history is a string. pandas reads an empty `click_history` cell as NaN, and NaN is truthy, so `.split()` raises AttributeError (core/utils.py:246-247) and recommend raises instead of returning []. Only a whitespace-only history reaches the empty click list that NoHistoryNoRecommendations covers.
- Profile.GenerateUserProfile, Ranking.RankNewsByProfile, Recommender.Recommend: the completion always returns a string in the model. In the program `get_completion` logs and re-raises any API error (core/NewsGPT.py:69-71), and its calls at core/utils.py:103 and :208 are outside any try. A `None` content makes `profile.lower()` or `re.findall` raise, which the handlers at core/utils.py:128 and :226 do not catch. In both cases the exception propagates out of recommend.
- Profile and Ranking prompts: only the variable parts reach the language model parameter (the digest; the profile, the numbered list and top_n). The fixed wording is not modelled.
- Analyzer.LoadAndAnalyze: the `categories` and `subcategories` value counts are not modelled, because pandas leaves the order of equal counts unspecified. Percentages and other float display values are left out.
- Analyzer.AnalyzeSentiment: `str(text)` is the identity here, since the call site always passes a string.
- Ingest.SaveToQdrant: the `create_collection` branch returning False is not modelled. The collection creation raises on failure, so that branch is unreachable.
- Embedding vectors are opaque values of a type parameter. Floating point is not modelled.
