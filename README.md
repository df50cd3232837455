# Clinical-trials RAG load pipeline: a verified model

This project models the ingestion core of the SCGE clinical-trials
retrieval pipeline. The Java original does the following, one trial at a
time:

1. It reads the ids of the clinical trials from the curation database.
2. It deletes the vector-store rows already filed under
   `CLINICAL TRIAL: <id>`.
3. It fetches the trial's report page and reads it into one text document.
4. It tags the document with a file name derived from its URL.
5. It cleans the text and drops documents that end up too short.
6. It splits what remains into chunks.
7. It embeds every chunk and saves it as a row of the embedding table.

The model has these modules, one per concern of the source:

- `Preprocessor` models `DocumentPreprocessor`. It covers the seven regular-expression and line passes of `cleanContent`, the table-row flattening, the 50-character filter, and the quality and formatting-line checks.
- `Reader` models `UrlDocumentReader`:
  - page classification and junk removal;
  - the NCTID lookup and the report-table, section-walk and external-link extractors of clinical-trial pages;
  - the heading, generic-table and definition-list extractors of other pages, with their 100-character fallback;
  - the one document `get()` returns.
- `Controller` models `UrlController`:
  - the trial loop with its processed, overwritten and failed lists;
  - the delete-then-reload of one trial;
  - `processUrlInternal`;
  - `extractFilenameFromUrl`.
- `VectorStore` models `PostgresVectorStoreOpenAI`: `add`, `similaritySearch`, `delete`, `getDocumentCount` and `getAvailableFiles`.
- `Repository` models `DocumentEmbeddingOpenAIRepository`. It is an in-memory table of rows with a fresh-id counter, the declared queries as functions over the rows, and `save` and `delete` as methods.
- Four supporting modules stand in for the library behaviour the core relies on:
  - `Page` for jsoup's element tree, `select`, `text()` and `remove()`;
  - `Regex` for `Matcher.replaceAll`, a left-to-right scan with one matcher function per pattern;
  - `JavaUrl` for the part of `java.net.URL` in use;
  - `JString` for `trim`, `split`, `lines`, `toLowerCase` and friends.
- `Documents` and `Wrappers` hold the document type, its metadata values, `Option` and `Result`.

The parts that keep state are imperative, as in the source:

- `EmbeddingTable`, `PostgresVectorStore` and `UrlController` are classes.
- Their methods carry `modifies` clauses.
- Every loop of the source is a `while` loop. It is proved against a function that specifies its result or its new state.

Operations the source performs on the network, on the clock or through a library are parameters of the model:

- The fetched page is a `page: Option<Element>`, or a `fetch` function from URL to page.
- The embedding model is an `embed` function that may fail.
- Token splitting is a `chunker` function.
- Timestamps come from a `clock`.
- The millisecond time in the fallback file name is `millis`.
- The trial ids are an input sequence, in which `None` stands for a null id.

## Model

Source paths are relative to the repository root.

| member | source | states |
|---|---|---|
| JString.JavaLength | src/main/java/edu/mcw/scge/service/DocumentPreprocessor.java:36 | `length()` counts UTF-16 units: between the number of characters and twice it, and equal to it exactly when no character lies above U+FFFF |
| Preprocessor.MatchTag | src/main/java/edu/mcw/scge/service/DocumentPreprocessor.java:17 | a tag match runs from a `<` to the first `>` after it, has at least one character inside, and is deleted |
| Preprocessor.StripTagsLeavesNoTag | src/main/java/edu/mcw/scge/service/DocumentPreprocessor.java:60 | after the tag pass, the tag pattern matches nowhere in the text |
| Preprocessor.LinkBecomesLabel | src/main/java/edu/mcw/scge/service/DocumentPreprocessor.java:63 | a markdown link `[label](target)` is replaced by its label and the scan carries on after it |
| Preprocessor.FootnoteDropped | src/main/java/edu/mcw/scge/service/DocumentPreprocessor.java:69 | a footnote marker `[digits]` is deleted |
| Preprocessor.MatchTrailingNumber | src/main/java/edu/mcw/scge/service/DocumentPreprocessor.java:22 | the `\d+\s*$` alternative matches only digits and whitespace that reach the end of the whole text (or a final line terminator), since the pattern has no MULTILINE flag |
| Preprocessor.TrailingNumberRemoved | src/main/java/edu/mcw/scge/service/DocumentPreprocessor.java:72 | a number followed only by whitespace at the end of the text is removed |
| Preprocessor.PageWordRemoved | src/main/java/edu/mcw/scge/service/DocumentPreprocessor.java:72 | `page`, in any letter case, then whitespace and a number is removed wherever it occurs |
| Preprocessor.LineEndNumberKept | src/main/java/edu/mcw/scge/service/DocumentPreprocessor.java:22 | a number at the end of a line that more text follows is kept |
| Preprocessor.DigitsKept | src/main/java/edu/mcw/scge/service/DocumentPreprocessor.java:72 | a digit run is copied when what follows its whitespace is not the end of the text |
| Preprocessor.MatchWsRun | src/main/java/edu/mcw/scge/service/DocumentPreprocessor.java:19 | `\s{3,}` matches exactly when at least 3 whitespace characters start the text, and then greedily takes the whole run, replacing it with one space |
| Preprocessor.CollapseWsRuns | src/main/java/edu/mcw/scge/service/DocumentPreprocessor.java:75 | after the whitespace pass, no run of 3 or more whitespace characters (newlines included) is left |
| Preprocessor.NewlinePassIsIdentity | src/main/java/edu/mcw/scge/service/DocumentPreprocessor.java:75-76 | the `\n{3,}` pass after the whitespace pass leaves the text unchanged |
| Preprocessor.TidyLinesShape | src/main/java/edu/mcw/scge/service/DocumentPreprocessor.java:79-85 | the line pass leaves a trimmed text with no empty line, every line trimmed and non-empty |
| Preprocessor.CleanContent | src/main/java/edu/mcw/scge/service/DocumentPreprocessor.java:52-86 | null or blank content gives ""; every result is trimmed, has no empty line, and each of its lines is trimmed |
| Preprocessor.KeptCells | src/main/java/edu/mcw/scge/service/DocumentPreprocessor.java:124-135 | every kept cell is trimmed, non-empty, longer than one UTF-16 unit, not all digits and not all of `\s-_=*` |
| Preprocessor.ExtractFromTableRow | src/main/java/edu/mcw/scge/service/DocumentPreprocessor.java:119-138 | the loop that appends each kept cell and a space, then trims, yields the kept cells joined by single spaces |
| Preprocessor.RowTextShape | src/main/java/edu/mcw/scge/service/DocumentPreprocessor.java:137 | a flattened row is trimmed and holds no `\|` |
| Preprocessor.ExtractTableContent | src/main/java/edu/mcw/scge/service/DocumentPreprocessor.java:91-114 | the line loop yields, per line: nothing for a separator line, the flattened row for a `\|...\|` line when not blank, else the line itself, each followed by a newline |
| Preprocessor.PlainLineKept | src/main/java/edu/mcw/scge/service/DocumentPreprocessor.java:107-110 | a line without `\|` is copied unchanged with a newline |
| Preprocessor.TextWithoutPipesKept | src/main/java/edu/mcw/scge/service/DocumentPreprocessor.java:93-113 | text without `\|` passes the table step unchanged apart from a final newline |
| Preprocessor.PreprocessDocuments | src/main/java/edu/mcw/scge/service/DocumentPreprocessor.java:26-50 | the document loop returns the documents whose cleaned text is at least 50 UTF-16 units long, with that text |
| Preprocessor.SurvivorsExactly | src/main/java/edu/mcw/scge/service/DocumentPreprocessor.java:29-46 | the result lists, in input order, exactly the inputs whose cleaned content is at least 50 UTF-16 units long, each with its cleaned content and its metadata unchanged |
| Preprocessor.KeptIndicesExactly | src/main/java/edu/mcw/scge/service/DocumentPreprocessor.java:29-46 | the positions of the kept inputs increase, and a position is kept exactly when its cleaned content is at least 50 UTF-16 units long |
| Preprocessor.SurvivorsKeepMetadata | src/main/java/edu/mcw/scge/service/DocumentPreprocessor.java:42 | every kept document is at least 50 UTF-16 units long and carries the metadata of an input document |
| Preprocessor.IsQualityChunk | src/main/java/edu/mcw/scge/service/DocumentPreprocessor.java:177-210 | the word-counting loop answers true exactly when the trimmed text is at least 50 UTF-16 units long, has at least 10 meaningful words, and its formatting marks are at most 0.6 of its UTF-16 length |
| Preprocessor.CountMeaningfulWords | src/main/java/edu/mcw/scge/service/DocumentPreprocessor.java:185-190 | the word loop counts the words longer than one UTF-16 unit that are neither all digits nor all punctuation |
| Preprocessor.FormattingCharsOnly | src/main/java/edu/mcw/scge/service/DocumentPreprocessor.java:143-156 | a line made only of formatting characters and whitespace is a formatting-only line |
| Preprocessor.MinimumContentIff | src/main/java/edu/mcw/scge/service/DocumentPreprocessor.java:161-172 | a line has minimum content exactly when, trimmed, it is at least 3 UTF-16 units long and holds whitespace or is longer than 10 units |
| Regex.ReplaceNowhere | src/main/java/edu/mcw/scge/service/DocumentPreprocessor.java:76 | a pattern that matches nowhere leaves the text unchanged |
| Regex.ReplaceDeletes | src/main/java/edu/mcw/scge/service/DocumentPreprocessor.java:69 | a pattern whose matches are all replaced by nothing only drops characters: the result is a subsequence of the input (its characters in their order), hence no longer and made of the input's characters |
| Reader.ClinicalTrialPageIff | src/main/java/edu/mcw/scge/reader/UrlDocumentReader.java:77-83 | a page is a clinical-trial page exactly when it has a `table.ctReportTable`, an `h3.ctSubHeading` or an `h2.brief-title`, or its URL contains `/clinicalTrials/report/` or `/report/clinicalTrials/` |
| Reader.JunkRemoved | src/main/java/edu/mcw/scge/reader/UrlDocumentReader.java:37 | after removal, no script, style, iframe, noscript, nav, footer, `.navbar`, `#messageVue` or `.chat-popup` element is left below the document |
| Reader.SidenavRemoved | src/main/java/edu/mcw/scge/reader/UrlDocumentReader.java:92 | no `.sidenav` is left below the document, and reading a report a second time with the sidebars already removed gives the same text |
| Reader.GroupRemoved | src/main/java/edu/mcw/scge/reader/UrlDocumentReader.java:239 | a `(...)` group with no `)` and no line terminator inside is removed by the lazy `\(.*?\)` pass |
| Reader.FindNctId | src/main/java/edu/mcw/scge/reader/UrlDocumentReader.java:233-243 | the row loop with early return yields the value of the first NCTID row, or none |
| Reader.ExtractNCTID | src/main/java/edu/mcw/scge/reader/UrlDocumentReader.java:231-244 | the NCTID is read from the `tr` rows below report tables |
| Reader.FirstMatchIsFirst | src/main/java/edu/mcw/scge/reader/UrlDocumentReader.java:233-243 | the lookup gives none exactly when no row has two or more `td` whose first reads "NCTID" ignoring case; otherwise the value of the first such row |
| Reader.ExtractTableData | src/main/java/edu/mcw/scge/reader/UrlDocumentReader.java:249-272 | the row loop of a report table yields each row's `label: value` line, in order |
| Reader.TableDataLines | src/main/java/edu/mcw/scge/reader/UrlDocumentReader.java:253-268 | a report table gives exactly one line per row with two or more `td` and a non-empty label, even when the value is empty; no other row gives a line |
| Reader.CleanValueNoBreak | src/main/java/edu/mcw/scge/reader/UrlDocumentReader.java:261-262 | a value with `(View at ...)` and `(Click here for ...)` removed holds no line break |
| Reader.ExtractGenericTableData | src/main/java/edu/mcw/scge/reader/UrlDocumentReader.java:277-303 | the row loop of a generic table yields each row's line, in order |
| Reader.GenericTableLines | src/main/java/edu/mcw/scge/reader/UrlDocumentReader.java:281-299 | a generic table gives one line per row with cells, except a two-cell row whose label is empty |
| Reader.ExtractCells | src/main/java/edu/mcw/scge/reader/UrlDocumentReader.java:292-297 | the cell loop yields each non-empty cell text followed by ` \| ` |
| Reader.PairTerms | src/main/java/edu/mcw/scge/reader/UrlDocumentReader.java:185-191 | the index loop pairs the i-th `dt` with the i-th `dd` for i below the shorter length |
| Reader.DefinitionListLines | src/main/java/edu/mcw/scge/reader/UrlDocumentReader.java:182-191 | a definition list gives one line per position below the shorter list where term and definition both have text, and items past the shorter list are ignored |
| Reader.WalkSiblings | src/main/java/edu/mcw/scge/reader/UrlDocumentReader.java:201-216 | the `nextElementSibling` loop under a heading walks the siblings up to the next `h1`-`h6` |
| Reader.SiblingWalkStops | src/main/java/edu/mcw/scge/reader/UrlDocumentReader.java:196-217 | a non-empty heading contributes its title line and the text of exactly the siblings before the next heading; an empty heading contributes nothing |
| Reader.ItemLinesCount | src/main/java/edu/mcw/scge/reader/UrlDocumentReader.java:208-213 | a `ul`/`ol` sibling gives one `- item` line per `li`, empty items included |
| Reader.WalkSection | src/main/java/edu/mcw/scge/reader/UrlDocumentReader.java:128-143 | the sibling loop after a section div breaks at the next `dynamic-heading` |
| Reader.SectionStops | src/main/java/edu/mcw/scge/reader/UrlDocumentReader.java:117-143 | a section gives its title line, then the data of the report tables among exactly the siblings before the next `dynamic-heading` |
| Reader.ExtractSections | src/main/java/edu/mcw/scge/reader/UrlDocumentReader.java:114-145 | the loop over `div.dynamic-heading` concatenates the sections in document order |
| Reader.ExtractExternalLinks | src/main/java/edu/mcw/scge/reader/UrlDocumentReader.java:308-339 | the loop over link-type headings yields the links part of a report |
| Reader.ExternalLinksEmptyIff | src/main/java/edu/mcw/scge/reader/UrlDocumentReader.java:310-316 | the links part is empty exactly when the page has no `h5.link-type-heading` |
| Reader.LinkItemsLines | src/main/java/edu/mcw/scge/reader/UrlDocumentReader.java:327-333 | a link list gives one line per item with text; empty items give nothing |
| Reader.ExtractClinicalTrialContent | src/main/java/edu/mcw/scge/reader/UrlDocumentReader.java:88-155 | the clinical-trial extractor's result is the report read from the page with its sidebars removed |
| Reader.ClinicalContentLeadsWithId | src/main/java/edu/mcw/scge/reader/UrlDocumentReader.java:95-99 | when a report row names the trial, the report opens with `--- CLINICAL TRIAL: <id> ---` |
| Reader.GenericContent | src/main/java/edu/mcw/scge/reader/UrlDocumentReader.java:160-226 | the generic result is trimmed, and it is either the assembled text or the main region's full text, the latter whenever it is shorter than 100 UTF-16 units; the main region is located with its following siblings, so a heading that is itself the region walks them |
| Reader.RegionHeadingWalksOn | src/main/java/edu/mcw/scge/reader/UrlDocumentReader.java:160-216 | when the main region is itself a heading, the header walk starts with that heading and its siblings, then goes on to the headings inside it |
| Reader.ExtractGenericContent | src/main/java/edu/mcw/scge/reader/UrlDocumentReader.java:160-226 | the generic extractor's loops give the generic content |
| Reader.ExtractContent | src/main/java/edu/mcw/scge/reader/UrlDocumentReader.java:64-72 | a clinical-trial page goes to the report extractor, any other to the generic one |
| Reader.Get | src/main/java/edu/mcw/scge/reader/UrlDocumentReader.java:28-59 | a failed fetch gives no document; a page gives exactly one, whose content is read from the page with the junk removed |
| Reader.UrlDocumentShape | src/main/java/edu/mcw/scge/reader/UrlDocumentReader.java:44-53 | the document's metadata has exactly the keys source (the URL), title and type (`url`) |
| Page.SelectFindsAny | src/main/java/edu/mcw/scge/reader/UrlDocumentReader.java:78-80 | `select(...).size() > 0` holds exactly when some element of the subtree matches |
| Page.PruneIdempotent | src/main/java/edu/mcw/scge/reader/UrlDocumentReader.java:37 | removing the selected elements a second time changes nothing |
| Page.Text | src/main/java/edu/mcw/scge/reader/UrlDocumentReader.java:104 | an element's text is trimmed and holds no line break |
| JavaUrl.ParseHttps | src/main/java/edu/mcw/scge/controller/UrlController.java:167-168 | an https URL with a plain host and a path free of `?` and `#` parses into exactly that host and path |
| Controller.BaseName | src/main/java/edu/mcw/scge/controller/UrlController.java:175-185 | the base name fails (array index out of bounds) exactly when the path is two or more slashes; otherwise it is a non-empty segment without `/`, or the host with dots turned into underscores for an empty, `/` or all-slash path |
| Controller.BaseNameIsLastSegment | src/main/java/edu/mcw/scge/controller/UrlController.java:176-179 | for a path `dir/id` with a non-empty id without `/`, the base name is the id |
| Controller.TrialUrlIsClinical | src/main/java/edu/mcw/scge/controller/UrlController.java:171-172 | a trial report URL is recognised as a clinical-trial URL |
| Controller.TrialUrlParses | src/main/java/edu/mcw/scge/controller/UrlController.java:64 | the report URL of a plain id parses into https, host `scge.mcw.edu` and path `/platform/data/report/clinicalTrials/<id>` |
| Controller.TrialFileName | src/main/java/edu/mcw/scge/controller/UrlController.java:165-197 | for an id with no `/`, `?` or `#`, the file name derived from the URL built at line 64 is `CLINICAL TRIAL: <id>`, the key looked up at line 69 |
| Controller.FileNameOutcomes | src/main/java/edu/mcw/scge/controller/UrlController.java:165-197 | an unparsable URL gives `webpage_<millis>:<url>`; a parsed one fails exactly when its path is two or more slashes, and otherwise gives `CLINICAL TRIAL: <base>` for a clinical-trial URL and `<base>:<url>` for any other, the base being the host with dots turned into underscores for an all-slash path and a non-empty segment without `/` otherwise |
| Controller.WithFileName | src/main/java/edu/mcw/scge/controller/UrlController.java:122-128 | every document keeps its content and its metadata, with `filename` set to the derived name |
| Controller.Pieces | src/main/java/edu/mcw/scge/controller/UrlController.java:150 | every chunk of a document carries the document's metadata |
| Controller.ChunksKeepFileName | src/main/java/edu/mcw/scge/controller/UrlController.java:150 | chunks of documents filed under a name are filed under it |
| Controller.PreparedShape | src/main/java/edu/mcw/scge/controller/UrlController.java:122-139 | one fetched document is kept exactly when its cleaned text is at least 50 UTF-16 units long, and then with its metadata plus the derived file name |
| Controller.ChunksFiledUnder | src/main/java/edu/mcw/scge/controller/UrlController.java:122-150 | every chunk handed to the store is filed under the name derived from the URL |
| Controller.AddedFiledUnder | src/main/java/edu/mcw/scge/controller/UrlController.java:125 | every row one call adds is filed under the name derived from the URL |
| Controller.AddedOnSuccess | src/main/java/edu/mcw/scge/controller/UrlController.java:154-157 | a call whose chunks all embed adds one row per chunk |
| Controller.AddedIsPrefix | src/main/java/edu/mcw/scge/controller/UrlController.java:154 | the rows a call adds are those of a prefix of the chunks, all of them exactly when no embedding fails, none when the call gave up earlier |
| Controller.UrlController.StoreDocuments | src/main/java/edu/mcw/scge/controller/UrlController.java:116-162 | false with nothing stored when there is no document or nothing survives preprocessing; otherwise the chunks are added up to the first failure, and the result is true exactly when all were |
| Controller.UrlController.ProcessUrlInternal | src/main/java/edu/mcw/scge/controller/UrlController.java:110-163 | reads the page, then stores as above; the table grows by exactly the added rows |
| Controller.UrlController.DeleteExisting | src/main/java/edu/mcw/scge/controller/UrlController.java:74-76 | the delete loop removes exactly the rows with the identities of the given rows, the others keep their order |
| Controller.WithoutIdsIsWithoutFileName | src/main/java/edu/mcw/scge/controller/UrlController.java:69-76 | deleting the rows found under a key deletes exactly the rows filed under it |
| Controller.IdsOfFileName | src/main/java/edu/mcw/scge/controller/UrlController.java:69 | a stored row's identity is among those found under a key exactly when the row is filed under the key |
| Controller.UrlController.LoadTrial | src/main/java/edu/mcw/scge/controller/UrlController.java:63-89 | the id is trimmed; it counts as overwritten exactly when rows were filed under its key; afterwards the table is the old one without those rows plus the rows added; names it does not touch keep their rows |
| Controller.TrialReloaded | src/main/java/edu/mcw/scge/controller/UrlController.java:69-89 | after reloading a plain id, no old row of its key remains: the key holds exactly the rows this load added, and every other name keeps its rows |
| Controller.ReloadLeavesOthers | src/main/java/edu/mcw/scge/controller/UrlController.java:73-81 | a reload leaves the rows under a name it neither looks up nor files chunks under as they were |
| Controller.UrlController.LoadEntry | src/main/java/edu/mcw/scge/controller/UrlController.java:57-63 | a null or blank id is skipped and changes neither the rows nor the id counter; any other is trimmed, its overwrite flag says whether rows were filed under its key, its success says whether the page gave documents that survived preprocessing and all embedded, and the table becomes the old one without the key's rows plus the rows added, with the counter advanced by their number |
| Controller.TrialIds | src/main/java/edu/mcw/scge/controller/UrlController.java:58-63 | the ids the loop works on are non-empty and trimmed |
| Controller.UrlController.LoadClinicalTrials | src/main/java/edu/mcw/scge/controller/UrlController.java:52-96 | the table passes through one recorded state per non-blank trimmed id, each step being that id's reload as above; processed and failed list the ids whose reload succeeded or failed, in order, and overwritten the ids that had rows before their reload; names no id touches keep their rows |
| Controller.PickedPartition | src/main/java/edu/mcw/scge/controller/UrlController.java:83-89 | each entry of the id list goes to exactly one of processed and failed, and the two lengths add up to the number of entries; an id that occurs twice may land in both |
| Repository.FindByFileName | src/main/java/edu/mcw/scge/repository/DocumentEmbeddingOpenAIRepository.java:30 | the result holds exactly the rows whose file name is the given one |
| Repository.CountByFileName | src/main/java/edu/mcw/scge/repository/DocumentEmbeddingOpenAIRepository.java:37-38 | the count is the size of `findByFileName` |
| Repository.DistinctFileNames | src/main/java/edu/mcw/scge/repository/DocumentEmbeddingOpenAIRepository.java:33-34 | no duplicates, every stored file name is listed, and only stored names |
| Repository.ChunkContaining | src/main/java/edu/mcw/scge/repository/DocumentEmbeddingOpenAIRepository.java:41-42 | exactly the rows whose lower-cased chunk contains the lower-cased text |
| Repository.Ranked | src/main/java/edu/mcw/scge/repository/DocumentEmbeddingOpenAIRepository.java:15 | the ordering is a permutation of the rows, sorted by distance |
| Repository.NearestAreNearest | src/main/java/edu/mcw/scge/repository/DocumentEmbeddingOpenAIRepository.java:15-16 | min(k, #rows) rows, nearest first, and no row left out is nearer than one included |
| Repository.ThresholdKeepsClose | src/main/java/edu/mcw/scge/repository/DocumentEmbeddingOpenAIRepository.java:19-27 | only rows with similarity at least the threshold, min(k, #close) of them, nearest first |
| Repository.ThresholdIsPrefix | src/main/java/edu/mcw/scge/repository/DocumentEmbeddingOpenAIRepository.java:15-27 | the thresholded result is a prefix of the unthresholded one for the same k |
| Repository.NewestFirstOrder | src/main/java/edu/mcw/scge/repository/DocumentEmbeddingOpenAIRepository.java:45-46 | every row once, in non-increasing creation time |
| Repository.WithoutIdIncreasing | src/main/java/edu/mcw/scge/repository/DocumentEmbeddingOpenAIRepository.java:12 | deleting a row keeps identities unique and increasing in storage order |
| Repository.EmbeddingTable.Save | src/main/java/edu/mcw/scge/vectorstore/PostgresVectorStoreOpenAI.java:46 | the new row gets the next identity and is appended; nothing else changes |
| Repository.EmbeddingTable.Delete | src/main/java/edu/mcw/scge/controller/UrlController.java:75 | the row with the entity's identity goes, if still there; the others keep their order |
| Documents.FileNameOf | src/main/java/edu/mcw/scge/vectorstore/PostgresVectorStoreOpenAI.java:43 | the `filename` metadata, or "unknown" when there is none |
| VectorStore.FirstFailure | src/main/java/edu/mcw/scge/vectorstore/PostgresVectorStoreOpenAI.java:34-53 | the position of the first document the embedding fails on, every earlier one embedding; none when all embed |
| VectorStore.SavedCount | src/main/java/edu/mcw/scge/vectorstore/PostgresVectorStoreOpenAI.java:34-53 | the documents before the first failure all embed, and the count is the whole list exactly when nothing fails |
| VectorStore.NewRows | src/main/java/edu/mcw/scge/vectorstore/PostgresVectorStoreOpenAI.java:40-46 | one row per document in order, with consecutive identities, the content as chunk and the document's file name |
| VectorStore.PostgresVectorStore.Add | src/main/java/edu/mcw/scge/vectorstore/PostgresVectorStoreOpenAI.java:31-57 | rows for the documents before the first failure are appended in order and none after; the failure position is reported |
| VectorStore.PartialAdd | src/main/java/edu/mcw/scge/vectorstore/PostgresVectorStoreOpenAI.java:35-53 | after a failure at document i exactly i rows are added, for documents 0 to i-1, with their content and file name |
| VectorStore.PostgresVectorStore.SimilaritySearch | src/main/java/edu/mcw/scge/vectorstore/PostgresVectorStoreOpenAI.java:60-110 | fails when the query cannot be embedded; otherwise the matches mapped one to one, in order, to documents |
| VectorStore.MatchesShape | src/main/java/edu/mcw/scge/vectorstore/PostgresVectorStoreOpenAI.java:73-79 | a positive threshold gives only rows whose similarity reaches it; any other gives min(topK, #rows) rows; nearest first either way |
| VectorStore.ToDocuments | src/main/java/edu/mcw/scge/vectorstore/PostgresVectorStoreOpenAI.java:84-93 | one result document per row, in order, with the chunk and the row's file name, id and creation time |
| VectorStore.PostgresVectorStore.Delete | src/main/java/edu/mcw/scge/vectorstore/PostgresVectorStoreOpenAI.java:113-116 | always fails with "Delete operation not implemented" and changes nothing |
| VectorStore.PostgresVectorStore.GetDocumentCount | src/main/java/edu/mcw/scge/vectorstore/PostgresVectorStoreOpenAI.java:119-123 | the number of stored rows |
| VectorStore.PostgresVectorStore.GetAvailableFiles | src/main/java/edu/mcw/scge/vectorstore/PostgresVectorStoreOpenAI.java:126-128 | the distinct stored file names |

## Left out

- The network fetch, its timeout and the IOException path are not modelled. The fetched page is a parameter, and `None` stands for a failed fetch.
- jsoup's HTML parsing and CSS selector engine are not modelled. The page is an element tree, and the selectors in use are predicates on elements.
- jsoup's `text()` is simplified. It is modelled as the element's text nodes and its children's texts, whitespace collapsed and trimmed; block-level spacing rules are left out, as are the whitespace kept inside `<pre>` and `<textarea>` and the turning of U+00A0 (no-break space) into a space.
- Element removal (`remove()`) changes the DOM in place in the source. It is modelled on values, as pruning the tree. No aliasing between the removed nodes and other references is captured.
- `TokenTextSplitter` is a parameter. It is modelled as a function from text to pieces, and every piece keeps its document's metadata. Its size settings are not modelled.
- The embedding model and pgvector's cosine distance are parameters. The model has an `embed` function that may fail and a distance function on embeddings. Float rounding is left out.
- `LocalDateTime.now()` becomes a `clock` parameter, and `System.currentTimeMillis()` becomes `millis`. The clock is read by a row's position within one `add` call and starts again with each call, so across several loads the creation times, and the newest-first order built on them, do not follow real time.
- The trial ids read from the curation database are an input sequence.
- Logging is left out.
- Controller.UrlController.LoadClinicalTrials does not model the catch block around each id, which turns a repository exception into a failed entry. The in-memory table never throws.
- The intermediate table states, overwrite flags and outcomes of Controller.UrlController.LoadClinicalTrials are ghost: the source only logs them, and the returned lists are stated in terms of them.
- Controller.TrialFileName covers only ids with no `/`, `?` or `#`. For other ids the derived file name differs from the lookup key, so chunks land under a name that the next run does not delete.
- JavaUrl.ParseUrl has several simplifications:
  - it knows only the protocols http, https, ftp, file and jar;
  - it drops user information up to the first `@`;
  - it takes a port to be any run of digits, with no range check;
  - it does not handle IPv6 literals or a leading `url:`.
- Preprocessor.IsQualityChunk compares with integers (`5 * format <= 3 * length`), not with the source's float product.
- Preprocessor.IsFormattingOnlyLine compares with integers (`5 * format > 4 * length`), not with the source's float product `length * 0.8`.
- Preprocessor character classes follow the ASCII definitions of java.util.regex without UNICODE_CHARACTER_CLASS. Case folding in `(?i)` and `equalsIgnoreCase` is ASCII only.
- Repository.ChunkContaining treats the search text literally. It ignores LIKE wildcards in it.
- Repository.ChunkContaining lower-cases ASCII letters only, whereas SQL `LOWER` also folds non-ASCII letters according to the database's locale.
- Repository.NearestAreNearest orders equal distances by storage order. The database's order for ties is unspecified.
- The JPA entity's other fields and the Hibernate vector type are not modelled.
