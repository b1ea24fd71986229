# Watson trivia harness — a Dafny model

Watson is a question-answering harness. It splits a wiki dump into titled documents and
hands them to a search index. It then reads a questions file of four-line records
(category, question, expected answer, blank line), asks the index for each question, and
counts the records whose top-ranked title and expected answer contain one another.
Searching and lemmatisation are done by outside libraries; this project models the
harness's own text logic around them:

- `JavaString` (`java_string.dfy`) models the `java.lang.String` operations the harness
  relies on, over `seq<char>`: `contains`, `indexOf`, `startsWith`, ASCII `toLowerCase`,
  `replaceAll` with the punctuation class `[\-\+!\.\^:,]`, and `split("\\s+")`. The last
  keeps Java's exact edge cases: `""` gives `[""]`, an all-whitespace string gives `[]`,
  and a leading separator gives a leading `""`.
- `Watson` (`watson.dfy`) holds the harness object's settings as they are once
  constructed. It also models `listToString` (a loop), the stop-word table
  (`stopWordsArray`, in its order), `isStopWord`, and `isPresent` (a loop with an early
  return, proved against a declarative overlap test).
- `Segmenter` (`segmenter.dfy`) models `indexFile` and `addDoc`. `indexFile` is a method
  that keeps the source's own variables (`wikiTitle`, `wikiTitleFinal`, `wikiContentFinal`,
  `wikiContent`, `firstTime`) and appends documents to an `IndexWriter` object, which
  stands for Lucene's writer by the sequence of documents added to it. It is
  proved equal to a reference, `SegmentFile`, built in three steps:
  - each line is classified as dropped, a title marker or content;
  - the classified lines are cut into a preamble and one section per title;
  - the emitted documents are read off that layout.
  The document count, titles, content assignment and skip rules are then proved about
  the reference.
- `Evaluation` (`evaluation.dfy`) models `getTopHit` and `searchIndex`.
  - `getTopHit` is a scan with early returns over a ranked list of nullable titles. It is
    proved against `TopHit`.
  - `searchIndex` is the mod-4 record loop. It is proved equal to `Evaluate`, which gives
    either the two counters or the first question line whose query the parser rejects.
  - `EvaluateSpec` relates the counters to the answer lines and to the records that are
    hits.

The search engine is a parameter, `Searcher`. It has two parts:
- `parses`: whether the query parser accepts a query string;
- `ranked`: the titles of the ranked documents, where `None` marks a document without a
  stored title.

The lemmatiser is a parameter `lemmatize: string -> seq<string>` of `Setup`, consulted
only when `isLemmatized` holds.

## Model

| member | source | states |
|---|---|---|
| JavaString.IndexFromFirst | Watson.java:359-360 | for a start `from` within the string (the source only calls `indexOf(t)`, from 0), `indexOf` is -1 exactly when `t` occurs nowhere at or after `from`; otherwise it is an occurrence at or after `from`, and no earlier one exists |
| JavaString.ContainsIff | Watson.java:326 | `contains` holds exactly when the needle occurs somewhere in the string |
| JavaString.ReplacePunct | Watson.java:308 | the punctuation replacement keeps the length |
| JavaString.ReplacePunctSpec | Watson.java:308 | every character of `[-+!.^:,]` becomes a space, every other character is kept, and no such character is left |
| JavaString.LowerAscii | Watson.java:114 | lower-casing keeps the length |
| JavaString.LowerAsciiSpec | Watson.java:114 | each character is lower-cased on its own, and no upper-case letter is left |
| JavaString.LowerAsciiIdempotent | Watson.java:114 | lower-casing twice equals lower-casing once |
| JavaString.RunLength | Watson.java:115 | the run at the front never exceeds the string |
| JavaString.RunLengthSpec | Watson.java:115 | that run holds no whitespace and is followed by whitespace or the end: it is maximal |
| JavaString.WordsSpec | Watson.java:115-116 | every piece between separators is a non-empty run of non-whitespace characters, each of which occurs in the string |
| JavaString.RunLengthCut | Watson.java:115 | a whitespace character ends the run at the front of a string |
| JavaString.WordsCut | Watson.java:115-116 | cutting a string at a whitespace character splits its runs into the runs on the left followed by the runs on the right: no run crosses a separator, none is lost, and the order is kept |
| JavaString.WordsOfWord | Watson.java:115-116 | a single word is one run, the whole of it; with `WordsCut` this determines the runs of every string |
| JavaString.SplitWhitespaceSpec | Watson.java:115-116 | `split("\\s+")`: only the first piece may be empty, every other piece is a word, and every character of a piece occurs in the input |
| JavaString.WordsAfterWord | Watson.java:115 | a word followed by a space is split off as that word |
| Watson.Create | Watson.java:55-72 | the constructor keeps the chosen tier and lemmatisation flag and loads exactly the stop-word table into the set |
| Watson.StopWordOfTable | Watson.java:107-109 | for a constructed harness, `isStopWord` holds exactly for the entries of `stopWordsArray`, compared exactly |
| Watson.StopWordsLoaded | Watson.java:449-461 | every entry of the table is in the hash set built from it, and the set holds nothing else |
| Watson.ListToString | Watson.java:96-104 | the loop builds every word followed by one space, then one more space |
| Watson.ListStringLength | Watson.java:96-104 | the output length is the sum of the word lengths plus the word count plus one, and an empty list gives `" "` |
| Watson.SpacedSnoc | Watson.java:98-101 | appending a word to the list appends the word and a space to the output |
| Watson.SpacedLength | Watson.java:98-101 | the words with their spaces are as long as the words plus one per word |
| Watson.WordsOfSpaced | Watson.java:98-101 | words joined by single spaces split back into the same words |
| Watson.SplitListString | Watson.java:96-104 | `listToString` then `split("\\s+")` returns the original list of words, the empty list included |
| Watson.AnyContentWordSpec | Watson.java:120-127 | the scan answers true exactly when some word of the list is not a stop word and is a question token |
| Watson.IsPresent | Watson.java:113-128 | the loop with its early return computes the overlap test `Present` |
| Watson.PresentSpec | Watson.java:107-128 | `isPresent` holds exactly when some whitespace token of the lower-cased title is not in the stop-word set and is a token of the question |
| Watson.PresentIgnoresTitleCase | Watson.java:114 | lower-casing the title before the call changes nothing |
| Watson.CapitalisedQuestionNeverMatches | Watson.java:114-118 | the question is not lower-cased: if each of its tokens has an upper-case letter, no title matches |
| Watson.StopWordTitleNeverMatches | Watson.java:120-122 | a title whose tokens are all stop words never matches |
| Segmenter.FindTitle | Watson.java:218-223 | a line has a title exactly when the pattern matches in it, and the title is the group of the leftmost match, taken as short as possible |
| Segmenter.IsSkippedIff | Watson.java:207-216 | a line is dropped exactly when `==` occurs in it, it starts with `#`, or, in the GOOD tier, `CATEGORIES:` occurs in it |
| Segmenter.ClassifySpec | Watson.java:207-245 | a kept line is a title line exactly when the pattern matches in it, with the title `FindTitle` extracts, and is otherwise content, lemmatised and re-joined when so configured |
| Segmenter.CloseFrom | Watson.java:204 | the lazy group `(.+?)` ends at the first `]]` reachable without crossing a line terminator, or there is none |
| Segmenter.MatchFrom | Watson.java:218-220 | `find()` returns the leftmost start where `\[\[(.+?)\]\]` matches, with the shortest group for it, and fails only when no match exists |
| Segmenter.SplitTitleFree | Watson.java:234-245 | lines without a title only add their text in front of what follows |
| Segmenter.SplitTitles | Watson.java:218-233 | there is one section per title line, carrying that line's title, in line order |
| Segmenter.SplitText | Watson.java:241-244 | the preamble and the sections together hold all the content text in order |
| Segmenter.DocumentTitles | Watson.java:204-249 | one document per title line, titled with that line's title, in order; a file without a title line gives exactly one document, titled "", holding all the text |
| Segmenter.ContentConserved | Watson.java:222-249 | every content line lands in exactly one document, in order, except the lines before the only title of a one-title file, which are lost |
| Segmenter.SplitBlocks | Watson.java:218-245 | a file made of title blocks lays out as one section per block holding that block's text |
| Segmenter.ContentAssignment | Watson.java:222-249 | document k ≥ 1 holds the lines between title k and title k+1; document 0 also holds the lines before the first title, but only when there are at least two titles; the last holds the lines after the last title |
| Segmenter.SkippedLineIgnored | Watson.java:207-216 | inserting a dropped line anywhere leaves the documents unchanged |
| Segmenter.SplitSkip | Watson.java:207-216 | a dropped line does not affect the layout |
| Segmenter.CategoriesDroppedOnlyInGood | Watson.java:207-216 | a `CATEGORIES:` line is dropped in the GOOD tier; in the other tiers it is kept unless it holds `==` or starts with `#` |
| Segmenter.SplitSnoc | Watson.java:206-247 | reading one more line extends the layout of the lines read so far |
| Segmenter.NextLine | Watson.java:206-247 | the layout after line i+1 is the layout after line i extended by line i's kind |
| Segmenter.SkippedRead | Watson.java:207-216 | a dropped line leaves the layout unchanged |
| Segmenter.TitleRead | Watson.java:218-233 | a line with a title marker opens a new section |
| Segmenter.ContentRead | Watson.java:234-245 | any other line is content, lemmatised and re-joined when so configured, and not stripped of punctuation |
| Segmenter.TitleStep | Watson.java:220-233 | on a title the open document is handed to the writer unless it is the first title, `wikiContent` is cleared only then, and both titles become the new one |
| Segmenter.ContentStep | Watson.java:241-244 | on a content line both buffers grow by the line and a space, and nothing is handed over |
| Segmenter.LastDocument | Watson.java:249 | the final `addDoc` of `wikiTitleFinal` and `wikiContentFinal` completes the documents |
| Segmenter.AddDoc | Watson.java:253-259 | exactly one (title, contents) document is appended to the index |
| Segmenter.IndexFile | Watson.java:181-250 | the loop appends exactly the reference documents `SegmentFile` to the index, in order, and nothing else |
| Evaluation.HitsSpec | Watson.java:346 | the search returns a prefix of the ranking, at most 200000 hits, and the whole ranking when it is shorter |
| Evaluation.NormalizeQuerySpec | Watson.java:307-311 | the query is the question with punctuation replaced, plus, in BETTER and BEST only, one space and the cleaned, lower-cased category; no punctuation of the class remains |
| Evaluation.RejectedIff | Watson.java:359-361 | a BEST-tier title is skipped exactly when it and the query contain one another or `isPresent` holds; the `indexOf` tests add nothing |
| Evaluation.FirstAcceptableSpec | Watson.java:353-371 | the scan returns the title of the first acceptable hit, and "no match" when none is acceptable |
| Evaluation.TopHitSpec | Watson.java:349-371 | "NO HITS" for an empty list, "no match" when no hit has an acceptable title, otherwise the title of the first acceptable hit |
| Evaluation.GetTopHit | Watson.java:344-372 | the scan with early returns computes `TopHit` of the searcher's hits |
| Evaluation.BuildQuery | Watson.java:306-316 | the question-line code builds exactly the normalised (and, when configured, lemmatised) query |
| Evaluation.IsHitIff | Watson.java:326 | a record is a hit exactly when its answer occurs in its top hit or its top hit occurs in its answer |
| Evaluation.Outcomes | Watson.java:300-338 | there is one (top hit, answer) pair per record read |
| Evaluation.OutcomesAt | Watson.java:300-338 | pair r is the top hit for lines 4r and 4r+1 together with the answer on line 4r+2 |
| Evaluation.Tally | Watson.java:326-330 | the tally never exceeds the number of records |
| Evaluation.TallySnoc | Watson.java:326-330 | one more record adds one to the tally exactly when it is a hit |
| Evaluation.TallyNext | Watson.java:321-331 | the answer line of record t adds one to the hit count exactly when it and the top hit contain one another |
| Evaluation.TallyCountsHits | Watson.java:326-330 | the tally is the number of records whose top hit and answer contain one another |
| Evaluation.AnswerLineCount | Watson.java:321-331 | a file of m lines has (m + 1) / 4 lines at an index of 2 modulo 4 |
| Evaluation.Quarter | Watson.java:330 | one more line adds one to (m + 1) / 4 exactly when it is an answer line |
| Evaluation.Phase | Watson.java:302-335 | after t records, line ln falls at position ln mod 4 of the current record |
| Evaluation.CategoryStep | Watson.java:302-304 | a category line is remembered for the question that follows |
| Evaluation.QuestionStep | Watson.java:305-320 | a question line yields the record's top hit |
| Evaluation.AnswerStep | Watson.java:321-331 | an answer line counts its record, as a hit exactly when answer and top hit contain one another |
| Evaluation.SeparatorStep | Watson.java:332-335 | a separator line changes nothing but the line number |
| Evaluation.ScanToScanning | Watson.java:300-338 | after any prefix of the file the variables hold the current category, the current top hit and the tally of the records so far |
| Evaluation.ScanToEnd | Watson.java:300-338 | at the end of the file the loop has counted (m + 1) / 4 records, and its hit count is their tally |
| Evaluation.CategoryBeforeQuestion | Watson.java:302-310 | when a question line is read, `category` holds the line just before it |
| Evaluation.FirstRejectionSpec | Watson.java:318 | there is no rejection exactly when every question line's query parses; otherwise the rejection is the first question line whose query does not |
| Evaluation.FirstRejectionStays | Watson.java:318 | once a query has been rejected, reading further lines does not move the first rejection |
| Evaluation.EvaluateSpec | Watson.java:290-338 | the loop finishes exactly when every question parses; it then counts one record per answer line and counts as hits the records whose top hit and answer contain one another, never more hits than records; otherwise it fails at the first rejected question line |
| Evaluation.CategoryRead | Watson.java:302-304 | a category line replaces the remembered category and asks nothing of the parser |
| Evaluation.QuestionRejected | Watson.java:318 | a question whose query the parser rejects, after every earlier one was accepted, ends the evaluation with that line's parse failure |
| Evaluation.QuestionAnswered | Watson.java:318-320 | a question whose query parses sets `result` to `getTopHit` of that query |
| Evaluation.AnswerRead | Watson.java:321-331 | an answer line counts the record, and counts it as a hit exactly when result and answer contain one another |
| Evaluation.SeparatorRead | Watson.java:332-335 | a separator line changes nothing |
| Evaluation.EndOfFile | Watson.java:300-339 | at the end of the file, with every query accepted, the result is the two counters |
| Evaluation.SearchIndex | Watson.java:290-338 | the loop returns exactly `Evaluate`: the counters, or the parse failure of the first rejected question |

## Left out

- Lucene is not modelled: analyzers, `IndexReader`, `QueryParser`, ranking, and the
  TF-IDF/BM25 similarities with their float parameters (Watson.java:137-158, 263-283).
  Lucene's `IndexWriter` is modelled only as the sequence of documents added to it. The searcher is the parameter `Searcher`: `parses` says whether `parser.parse`
  accepts a query string, and `ranked` gives the ranked titles for it.
- The parsed `Query` object is not modelled. The ranking is taken to depend only on the
  query string it was parsed from.
- Watson.Create: the scoring function, analyzer type and BM25 tuning flag are stored by
  the constructor but only configure Lucene, so `Setup` does not keep them. Building the
  CoreNLP pipeline becomes the `lemmatize` parameter.
- The CoreNLP `lemmatize` method (Watson.java:76-93) is an outside NLP pipeline. It is the
  uninterpreted `lemmatize` parameter.
- File and directory I/O is not modelled: `indexData`, the directory walk, the `DS_Store`
  skip, opening the streams, and `BufferedReader` (Watson.java:132-194, 285-288). Each
  file is given as its sequence of lines. A stream that fails to open is not modelled.
- `main`'s prompts and index-path choice, all printing, and timing (Watson.java:133,
  157-158, 183, 323-327, 339, 374-447) are not modelled.
- The discarded `strLine.replaceAll(...)` at Watson.java:235 has no effect, so document
  content keeps its punctuation.
- `toLowerCase` is modelled on ASCII letters only. Unicode and locale-specific case
  mappings are not modelled.
- The stop-word array (Watson.java:449-461) is kept as a sequence constant; no property of
  its entries beyond membership (such as that all are lower case) is proved.
- Evaluation.SearchIndex: `hitCount`, `totalCount` and `lineNumber` are Java `int`s. The
  model uses unbounded naturals, so it does not model wrap-around past 2^31 - 1 lines.
- Evaluation.SearchIndex: a `ParseException` is modelled as the result
  `ParseFailure(lineNumber)`. The exception's message is not modelled.
- The hits' stored titles are fetched by `searcher.doc(...)`; the model takes them as
  the `Option<string>` entries of the ranking.
