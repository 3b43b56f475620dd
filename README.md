# doc-auditor: a Dafny model of the analysis pipeline and the document store

doc-auditor reads a directory of Spanish legal texts (laws, decrees, ministerial
resolutions). For each text it:

- records the document;
- finds citations of other legal instruments;
- extracts lines that state obligations or prohibitions.

It then links the citations to stored documents by file name. It can also:

- rate how well a child document addresses one of its parent's rules;
- summarise a text by word frequency;
- cut a text into titled sections of at least 1000 characters.

This project models that core and proves its contracts:

- `processor.py`:
  - scanning a directory;
  - reference and rule extraction;
  - compliance scoring;
  - summarisation;
  - section segmentation.
- `database.py`: the document, dependency and rule tables as an in-memory store.

Modules, one file each:

- `Text` (`text.dfy`): the Python string operations the pipeline relies on:
  - `str.lower`, `str.isupper`, `str.strip`;
  - `str.split` with and without a separator, `str.join`;
  - `str.endswith`, `str.replace(s, "")`;
  - the `in` substring test;
  - `re.findall(r'\w+', ...)`.

  Character classes follow Python's Unicode tables restricted to code points below U+0100.
- `Lexicon` (`lexicon.dfy`): the obligation and prohibition phrases and the stop words.
- `Wrappers` (`wrappers.dfy`): `Option`.
- `Database` (`database.dfy`): the `DocStore` class. It has:
  - three row sequences, kept in row-id order, plus the AUTOINCREMENT counter;
  - methods for the state changes;
  - functions for the queries;
  - the invariant `Valid`: ids grow with insertion, file names are unique, there is one dependency row per (child, citation), a row is RESOLVED exactly when it has a parent, and every parent is a stored document.
- `Compliance` (`compliance.dfy`): `check_compliance`.
- `Summarizer` (`summary.dfy`): `generate_summary`.
  - Specification functions: sentence split, frequency table, candidate list, stable score sort, position sort.
  - Loop methods proved against them.
- `Segmenter` (`segmenter.dfy`): `analyze_document_structure`.
  - The line scan is a function over any header test and any section summariser.
  - The program's scan is one instance of it.
  - The method's loop is proved equal to that instance.
- `Processor` (`processor.dfy`):
  - `extract_rules_from_text`;
  - `extract_dependencies_from_text`;
  - the `scan_directory` loop over an in-memory listing of (file name, content) pairs;
  - the `DEP_PATTERNS` regular expressions are a parameter `findAll`.

Floating-point divisions are modelled as exact `real` divisions. The two
compliance thresholds are also restated on integers: `10*hits > 6*n` and
`10*hits > 3*n`.

## Model

| member | source | states |
|---|---|---|
| `Text.IsSpace` | processor.py:66 | definition: `str.isspace` for one character, Python's whitespace below U+0100 |
| `Text.IsWordChar` | processor.py:126 | definition: the `\w` class, letters, digits, numerics and `_` below U+0100 |
| `Text.IsUpper` | processor.py:181 | definition: `str.isupper`, at least one upper-case letter and no lower-case one |
| `Text.LowerChar` | processor.py:70 | `str.lower` on one character: a capital becomes a small letter, anything else is kept |
| `Text.Lower` | processor.py:70 | `str.lower` keeps the length and maps each character on its own |
| `Text.LowerAppend` | processor.py:70 | lower-casing distributes over concatenation |
| `Text.LeadingSpaces` | processor.py:66 | the number of leading whitespace characters: all of them are whitespace and the next one is not |
| `Text.TrailingSpaces` | processor.py:66 | the number of trailing whitespace characters: all of them are whitespace and the one before is not |
| `Text.Strip` | processor.py:66 | definition: `str.strip()`, the slice between the leading and the trailing whitespace |
| `Text.StripSpec` | processor.py:66 | `str.strip` returns a slice of its input with only whitespace cut off at both ends; the result starts and ends with a non-space; it is empty exactly when the line is all whitespace |
| `Text.IndexOf` | processor.py:63 | the first position of a character, or the length when it does not occur |
| `Text.Split` | processor.py:63 | `s.split(sep)` for one character: at least one piece |
| `Text.Join` | processor.py:148 | definition: `sep.join(parts)` |
| `Text.JoinSplit` | processor.py:162 | joining the result of `text.split('\n')` with `"\n"` gives the text back |
| `Text.SplitPieces` | processor.py:63 | no piece of `split(sep)` contains the separator |
| `Text.Contains` | processor.py:102 | definition: the substring test `sub in s`, a prefix at some suffix |
| `Text.OccursAt` | processor.py:102 | definition: `sub` occurs at a given position |
| `Text.EndsWith` | processor.py:31 | definition: `s.endswith(suffix)` |
| `Text.ContainsIff` | processor.py:102 | the `in` substring test holds exactly when the substring occurs at some position |
| `Text.ContainsExtend` | processor.py:102 | adding text on either side never removes an occurrence |
| `Text.RemoveAll` | database.py:119 | `replace(".txt", "")` never lengthens a name and leaves a name without the pattern unchanged |
| `Text.LeadingRun` | processor.py:126 | the length of the leading run of a class: all in the class, the next one outside |
| `Text.Runs` | processor.py:126 | definition: the maximal runs of a character class, left to right |
| `Text.WordTokens` | processor.py:126 | definition: `re.findall(r'\w+', s)`, the maximal word-character runs |
| `Text.SplitWhitespace` | processor.py:92 | definition: `s.split()`, the maximal non-whitespace runs |
| `Text.RunsSpec` | processor.py:126 | each `\w+` match (or whitespace-separated word) is non-empty and made of class characters; there is a match exactly when the text has a class character |
| `Compliance.Keywords` | processor.py:92-93 | definition: the distinct lower-cased words of the rule minus `STOP_WORDS` |
| `Compliance.Ratio` | processor.py:106 | definition: `hits / len(keywords)` as an exact fraction |
| `Compliance.Rank` | processor.py:108-113 | definition: the order MISSING < PARTIAL < MATCH in which a rating counts as better |
| `Compliance.Hits` | processor.py:99-103 | the hits are exactly the keywords that occur in the lower-cased child text |
| `Compliance.HitsAdd` | processor.py:101-103 | testing one more keyword adds one hit exactly when the child contains it |
| `Compliance.ComplianceStatus` | processor.py:92-96 | UNKNOWN exactly when the rule's lower-cased words minus the stop words are none, whatever the child |
| `Compliance.DivAbove` | processor.py:106-111 | comparing a quotient with a positive divisor against a constant equals comparing the dividend against the scaled constant |
| `Compliance.RatioThresholds` | processor.py:106-111 | `hits/len > 0.6` iff `10*hits > 6*len`, and `hits/len > 0.3` iff `10*hits > 3*len` |
| `Compliance.ComplianceBands` | processor.py:98-113 | hits never exceed the keywords; MATCH iff `10h > 6n`, PARTIAL iff `3n < 10h <= 6n`, MISSING iff `10h <= 3n` |
| `Compliance.SubsetCard` | processor.py:101-103 | a subset is never larger than its superset, so hits never outnumber keywords |
| `Compliance.ComplianceMonotone` | processor.py:98-113 | a child that contains every keyword another child contains rates at least as well (MISSING < PARTIAL < MATCH) |
| `Compliance.ComplianceGrowsWithText` | processor.py:99-113 | adding text before or after the child never lowers its status |
| `Compliance.NoHitIsMissing` | processor.py:98-113 | a child containing none of a non-empty keyword set is MISSING |
| `Compliance.CountHits` | processor.py:98-103 | the keyword loop counts exactly the keywords the child contains |
| `Compliance.CheckCompliance` | processor.py:81-113 | `check_compliance` returns the status fixed by the keyword set and the hit ratio |
| `Processor.HasAny` | processor.py:73-75 | definition: `any(w in s for w in phrases)` |
| `Processor.ClassifyLine` | processor.py:70-76 | a line is classified iff it contains a prohibition or an obligation phrase; a prohibition phrase always gives PROHIBITION; OBLIGATION only without one |
| `Processor.BlankLineIsNoRule` | processor.py:66-68 | an empty line is never a rule, so skipping blank lines loses nothing |
| `Processor.ProhibitionWins` | processor.py:73-76 | a line holding both kinds of phrase is a PROHIBITION |
| `Processor.LineRule` | processor.py:66-79 | definition: a raw line yields its stripped text with its class, or nothing when it is blank or unclassified |
| `Processor.LineRuleSpec` | processor.py:65-79 | a line yields at most one rule; it yields one iff stripped it is non-blank and classified; the rule text is the stripped line |
| `Processor.CollectStep` | processor.py:65 | one more line adds what that line yields, at the end |
| `Processor.HitLinesBound` | processor.py:65 | the positions of the lines that yield something are positions of the input |
| `Processor.CollectInOrder` | processor.py:65-79 | with at most one item per line, the items correspond one-to-one to the yielding lines, in increasing line order |
| `Processor.HitLinesComplete` | processor.py:65-79 | a line is among the yielding lines exactly when it yields something |
| `Processor.ExtractRules` | processor.py:63-79 | definition: what each line of `text.split('\n')` yields, in line order |
| `Processor.ExtractRulesInLineOrder` | processor.py:63-79 | one rule per qualifying line, in strictly increasing line order; each rule text is its stripped line verbatim, with that line's class |
| `Processor.ExtractRulesComplete` | processor.py:63-79 | the lines that give rules are exactly the non-blank lines containing a phrase |
| `Processor.RuleRows` | processor.py:79 | each extracted rule becomes one row owned by the document, in order |
| `Processor.RuleRowsStep` | processor.py:78-79 | the rows for one more line's rule go at the end |
| `Processor.ExtractRulesFromText` | processor.py:59-79 | the rule table grows by exactly the extracted rules, in line order; nothing else changes |
| `Processor.FoundRefs` | processor.py:50-54 | `found_refs` holds exactly the strings that some pattern matched |
| `Processor.AllMatches` | processor.py:51-54 | definition: every match of each pattern, pattern by pattern |
| `Processor.AllMatchesMembers` | processor.py:51-54 | a string is among the matches of a pattern list iff one of those patterns matched it |
| `Processor.CollectRefs` | processor.py:50-54 | the collection loop builds exactly `found_refs` |
| `Processor.RecordsReferencesStep` | processor.py:56-57 | one `add_dependency` call extends the record of processed citations by one |
| `Processor.NewRefs` | processor.py:56-57 | definition: the citations that the document has no row for yet |
| `Processor.RecordsReferences` | processor.py:56-57 | definition: the old rows followed by one PENDING parentless row per new citation, and the recorded pairs are the old ones plus the document's citations |
| `Processor.ExtractDependenciesFromText` | processor.py:48-57 | each distinct citation that the document did not already have gets exactly one new PENDING row without a parent, however often and by however many patterns it was matched; old rows are untouched |
| `Processor.OwnersKeepIds` | processor.py:37 | rows whose owner ids all survive keep valid owners |
| `Processor.OwnersAddReferences` | processor.py:40 | citations added for a stored document keep every row's owner stored |
| `Processor.OwnersAddRules` | processor.py:43 | rules added for a stored document keep every row's owner stored |
| `Processor.IsTextFile` | processor.py:30-31 | definition: a name of a `.txt` entry of the listing |
| `Processor.IsTextFileSnoc` | processor.py:30-31 | the `.txt` names among one more listing entry are the earlier ones plus that entry's name if it ends in `.txt` |
| `Processor.IndexFile` | processor.py:31-43 | a text file is stored by the insert-or-update of `add_document`; the id returned is the id under which the file name now holds its content; its citations and rules are recorded under that id |
| `Processor.ScanDocs` | processor.py:30-37 | definition: the documents and the counter after the insert-or-update of every `.txt` entry, in listing order |
| `Processor.LastContent` | processor.py:30-37 | definition: the content of the last `.txt` entry with a given name |
| `Processor.ScanRules` | processor.py:43 | definition: each `.txt` entry's rules under the id of its name, in listing order |
| `Processor.ScanCites` | processor.py:40 | definition: a citation found in a `.txt` entry stored under a given id |
| `Processor.IndexFiles` | processor.py:30-43 | the loop over the listing leaves the documents given by the fold over the `.txt` entries, the old rules plus each file's rules in listing order, and the old rows plus one PENDING row per new (file id, citation) pair |
| `Processor.ScanDocsContent` | processor.py:30-37 | after the fold a name gets the content of its last `.txt` entry in the listing; a name not listed keeps its row; a stored name keeps its id |
| `Processor.ScanRulesSameIds` | processor.py:43 | the rules of the listing depend only on the ids of the listed names |
| `Processor.ScanCitesStep` | processor.py:40 | one more `.txt` file adds exactly its own citations under its id to the cited pairs |
| `Processor.ScanCitesSkip` | processor.py:31 | an entry not ending in `.txt` adds no cited pair |
| `Processor.RecordsExtend` | processor.py:40 | recording one file's citations keeps the old rows as a prefix and adds only PENDING rows without a parent |
| `Processor.DocsIndexedStep` | processor.py:37 | one more `.txt` file extends the document fold by one insert-or-update, and no earlier listed name changes id |
| `Processor.RulesIndexedStep` | processor.py:43 | one more `.txt` file appends exactly its own rules under its id |
| `Processor.DepsIndexedStep` | processor.py:40 | one more `.txt` file adds exactly its own new citations as PENDING rows |
| `Processor.IndexedSkip` | processor.py:31 | an entry not ending in `.txt` changes nothing in any table |
| `Processor.ScanDirectory` | processor.py:23-46 | the documents are the fold of insert-or-update over the `.txt` entries in listing order; the rules are the old ones followed by each file's rules under its final id; every old row ends up as its resolution against the final name index, and the new rows are one resolved-or-PENDING row per new (file id, citation) pair; every row's owner is stored and every unresolved row matches no index entry |
| `Summarizer.IsSentenceEnd` | processor.py:120 | definition: the marks `.`, `!` and `?` |
| `Summarizer.BoundaryAt` | processor.py:120 | definition: a boundary of `(?<=[.!?])\s+` starts where whitespace follows a mark |
| `Summarizer.BoundaryFrom` | processor.py:120 | finds the first sentence boundary (a `.`, `!` or `?` followed by whitespace) at or after a position |
| `Summarizer.SplitSentences` | processor.py:120 | the boundary split always yields at least one piece |
| `Summarizer.MarkedCons` | processor.py:120 | a marked sentence in front of marked pieces keeps them marked |
| `Summarizer.SentencesEndWithMark` | processor.py:120 | every split sentence but the last is non-empty and ends with its punctuation mark |
| `Summarizer.Gaps` | processor.py:120 | definition: the whitespace runs the split drops, one per boundary |
| `Summarizer.Interleave` | processor.py:120 | definition: the pieces with the dropped runs put back between them |
| `Summarizer.IsGap` | processor.py:120 | definition: a non-empty run of whitespace |
| `Summarizer.SplitRebuilds` | processor.py:120 | the pieces, put back together with the whitespace runs the split dropped between them, give the text back; each dropped run is non-empty whitespace |
| `Summarizer.SplitHasNoBoundary` | processor.py:120 | no piece contains a sentence boundary (a mark followed by whitespace) inside it |
| `Summarizer.SplitPiecesStart` | processor.py:120 | every piece after the first is empty or starts with a non-space, so each dropped run is all the whitespace after its mark (`\s+` is greedy) |
| `Summarizer.SplitSentencesSpec` | processor.py:120 | the full characterisation of `re.split(r'(?<=[.!?])\s+', text)`: interleaving the pieces with the dropped whitespace runs gives the text, each dropped run is non-empty whitespace and as long as possible, no piece holds a boundary, and every piece but the last ends with its mark |
| `Summarizer.FreqTable` | processor.py:125-129 | definition: `word_freq`, one more for every token that is not a stop word |
| `Summarizer.Freq` | processor.py:125-126 | definition: the frequency table of the lower-cased text's word tokens |
| `Summarizer.ScoreSum` | processor.py:134-140 | definition: the sum of the tokens' frequencies, 0 outside the table |
| `Summarizer.MeanScore` | processor.py:135-142 | definition: `score / len(s_tokens)` for a sentence with a token |
| `Summarizer.FreqTableCounts` | processor.py:124-129 | `word_freq` has exactly the tokens that are not stop words, each mapped to its number of occurrences |
| `Summarizer.Entry` | processor.py:135-142 | a sentence contributes at most one entry, at its own position, and one exactly when it has a word token |
| `Summarizer.EntriesAppend` | processor.py:142 | looking up a position in the list after an append |
| `Summarizer.Candidates` | processor.py:132-142 | definition: the `scores` list, one entry per sentence with a word token, in sentence order |
| `Summarizer.Cands` | processor.py:120-142 | definition: the candidates of a text's sentences under its frequencies |
| `Summarizer.CandidatesStep` | processor.py:133-142 | one more sentence appends its entry, if any |
| `Summarizer.CandidatesIncreasing` | processor.py:132-142 | `scores` is in strictly increasing sentence position |
| `Summarizer.CandidatesScored` | processor.py:133-142 | every entry is the sentence at its position, has a token, and is scored by mean frequency |
| `Summarizer.CandidatesCoverAt` | processor.py:136-137 | one sentence gets an entry exactly when it has a word token |
| `Summarizer.CandidatesCover` | processor.py:136-137 | exactly the sentences with a word token get entries |
| `Summarizer.CandidatesSpec` | processor.py:131-142 | the three facts about the scoring loop together |
| `Summarizer.InsertByScore` | processor.py:145 | insertion keeps every element: the result is a permutation of the input plus the new entry |
| `Summarizer.SortByScore` | processor.py:145 | the score sort is a permutation of its input |
| `Summarizer.InsertByScoreRanked` | processor.py:145 | inserting an earlier entry into a ranked list keeps it ranked |
| `Summarizer.SortByScoreRanked` | processor.py:145 | the stable descending sort orders by score, equal scores by original position |
| `Summarizer.InsertByPos` | processor.py:146 | insertion by position is a permutation of input plus entry |
| `Summarizer.SortByPos` | processor.py:146 | the position sort is a permutation of its input |
| `Summarizer.InsertByPosIncreasing` | processor.py:146 | inserting an entry of a new position keeps positions increasing |
| `Summarizer.SortByPosIncreasing` | processor.py:146 | entries of distinct positions come out in strictly increasing position |
| `Summarizer.Texts` | processor.py:148 | the sentence texts of the chosen entries, in order |
| `Summarizer.DistinctPosOfMembers` | processor.py:146 | distinct entries taken from a list in increasing position have distinct positions |
| `Summarizer.TopSpec` | processor.py:145-146 | `scores[:n]` after the sort keeps `min(n, len)` distinct entries, each ranked before every entry left out |
| `Summarizer.Select` | processor.py:145-146 | definition: `sorted(scores[:n], key=position)` after the descending score sort |
| `Summarizer.Chosen` | processor.py:145-146 | definition: the entries a text's summary is made of |
| `Summarizer.SelectSpec` | processor.py:145-146 | the chosen entries are `min(n, len)` candidates in strictly increasing position; a higher score always wins and a tie goes to the earlier sentence |
| `Summarizer.Summary` | processor.py:115-148 | definition: `generate_summary(text, n)`, empty for an empty text, the text itself for at most `n` sentences, otherwise the join of the chosen sentences |
| `Summarizer.SummaryOfEmpty` | processor.py:117-118 | an empty text has the empty summary |
| `Summarizer.SummaryOfShortText` | processor.py:120-122 | a text of at most `n` sentences is returned unchanged |
| `Summarizer.SummaryPicksTopSentences` | processor.py:124-148 | otherwise the summary is the single-space join of at most `n` split sentences. They come in strictly increasing position and each has a word token. Each is ranked above every scored sentence left out. |
| `Summarizer.CountWords` | processor.py:125-129 | the counting loop builds the frequency table |
| `Summarizer.SumFrequencies` | processor.py:134-140 | the per-sentence loop adds the frequency of each token, 0 outside the table |
| `Summarizer.ScoreSentences` | processor.py:132-142 | the scoring loop builds the candidate list |
| `Summarizer.JoinTop` | processor.py:145-148 | sort, cut, re-sort by position and join give the selection's texts |
| `Summarizer.GenerateSummary` | processor.py:115-148 | `generate_summary` returns the summary the specification functions define |
| `Segmenter.KeywordHeader` | processor.py:167 | definition: a header keyword at the start, compared lower-cased, then whitespace |
| `Segmenter.IsHeader` | processor.py:175-182 | definition: a keyword header, or an upper-case stripped line of 6 to 99 characters |
| `Segmenter.LineIsHeader` | processor.py:170-182 | definition: a non-blank line whose stripped text is a header |
| `Segmenter.SectionSummary` | processor.py:203 | definition: the three-sentence summary of a section's content |
| `Segmenter.StepLine` | processor.py:169-220 | definition: one line of the scan; a header closes the current section unless it is under 1000 characters and a section exists |
| `Segmenter.ScanLines` | processor.py:169-220 | definition: the scan over all lines from the introduction title and an empty buffer |
| `Segmenter.Flush` | processor.py:222-234 | definition: a short tail joins the last section and is re-summarised, otherwise it is a section of its own |
| `Segmenter.SectionsOf` | processor.py:162-234 | definition: the sections of a text, its lines scanned and flushed |
| `Segmenter.StepLineInv` | processor.py:184-220 | one line keeps the scan invariant: later sections have at least 1000 characters and header titles; summaries match contents |
| `Segmenter.ScanLinesInv` | processor.py:169-220 | the invariant holds after every line |
| `Segmenter.FlushInv` | processor.py:222-234 | the final flush, with or without the merge into the last section, keeps every section's size, title and summary facts |
| `Segmenter.SectionsWellFormed` | processor.py:162-234 | there is always at least one section and the first is titled "Introducción / Preámbulo". Every later section has at least 1000 characters and a header title. Every summary is the summary of the section's final content, the merged tail included. |
| `Segmenter.ScanWithoutHeaders` | processor.py:169-220 | with no header line the scan only buffers |
| `Segmenter.NoHeaderSingleSection` | processor.py:162-234 | a document without a header line is one introduction section whose content is the whole input |
| `Segmenter.FirstHeaderStep` | processor.py:184-187 | the first header closes the introduction whatever its size, even when it is empty |
| `Segmenter.StepLineKeeps` | processor.py:184-220 | a later line never changes the closed introduction or the title of the section after it |
| `Segmenter.AfterFirstHeaderKeeps` | processor.py:169-220 | after the first header the introduction stays as it was closed |
| `Segmenter.FlushKeepsFirst` | processor.py:222-234 | the flush either keeps the introduction and the next title, or merges the short tail into the introduction |
| `Segmenter.FirstHeaderSplits` | processor.py:162-234 | the first header always splits: either the introduction holds exactly the lines before it and the next section carries the header's title, or the short rest was merged back after the introduction's lines |
| `Segmenter.ScanLinesSnoc` | processor.py:169 | scanning one more line is one more step |
| `Segmenter.TestHeader` | processor.py:170-182 | the header test: a keyword at the start followed by whitespace, or an upper-case line of 6 to 99 characters |
| `Segmenter.SummarizeSection` | processor.py:203 | a section's summary is the three-sentence summary of its content |
| `Segmenter.FlushSections` | processor.py:222-234 | the flush after the loop computes `Flush` |
| `Segmenter.AnalyzeDocumentStructure` | processor.py:150-239 | the general summary is the 4-sentence summary of the first 5000 characters; the sections are those of the line scan |
| `Database.FindByName` | database.py:45-49 | finds the document with a file name; none exactly when no document has that name |
| `Database.FindById` | database.py:84 | finds the document with an id; none exactly when no document has it |
| `Database.HasName` | database.py:47-49 | definition: some document has the file name |
| `Database.KeepsIdsAndNames` | database.py:41-54 | an insert-or-update keeps every id and adds at most the given name |
| `Database.DocsAppend` | database.py:45-46 | inserting a new name with the next id keeps ids increasing and names unique |
| `Database.DocsReplace` | database.py:51 | replacing a content keeps ids and names |
| `Database.HasDependency` | database.py:60-61 | definition: some row has the (child, citation) pair |
| `Database.HasDependencySnoc` | database.py:60-62 | appending a row records exactly its own (child, citation) pair in addition |
| `Database.HasDependencySameKeys` | database.py:60-62 | rows with the same child and citation, position by position, record the same pairs, whatever their parents and status |
| `Database.UpsertDocs` | database.py:41-54 | definition: the `docs` table after `add_document`, a known name taking the new content, a new name a new last row |
| `Database.UpsertNextId` | database.py:45-46 | definition: the counter advances only for a new name |
| `Database.IdOf` | database.py:48-49 | definition: the id of the document with a name, 0 when there is none |
| `Database.FindByNameSameNames` | database.py:48-49 | the name lookup depends only on the names, position by position, not on ids or contents |
| `Database.FindByNameSnoc` | database.py:45-49 | appending a document with a new name finds it at the last position and leaves every other name's lookup unchanged |
| `Database.UpsertFinds` | database.py:41-54 | after the insert-or-update the name is found with the given content; its id is the old one when the name was stored and the next id otherwise |
| `Database.UpsertKeepsOthers` | database.py:41-54 | the insert-or-update leaves the lookup and the row of every other name unchanged |
| `Database.UpsertKeepsId` | database.py:47-51 | a name that was stored keeps its id through any insert-or-update |
| `Database.NormalizeName` | database.py:119 | definition: `filename.replace(".txt", "").lower()` |
| `Database.CleanRef` | database.py:126 | definition: `ref_name.lower().strip()` |
| `Database.NameMatches` | database.py:131 | definition: `name in ref_clean or ref_clean in name` |
| `Database.KeyIndex` | database.py:119 | the position of a key among a dict's items, if present |
| `Database.DictSet` | database.py:119 | `d[k] = v`: an existing key keeps its position and takes the new value; a new key goes last; other items are unchanged |
| `Database.NameKeys` | database.py:119 | the (normalised name, id) pair of each document, in id order |
| `Database.DictOf` | database.py:119 | definition: a dict comprehension, each pair stored with `d[key] = v` in order |
| `Database.DocMap` | database.py:114-119 | definition: `doc_map`, the name index over the documents in row order |
| `Database.DictKeysUnique` | database.py:119 | each key is in the name index once |
| `Database.DictHasEveryKey` | database.py:119 | every document's normalised name is a key of the index |
| `Database.DictNewestKey` | database.py:119 | the entry under the newest pair's key holds that pair's value |
| `Database.DictOlderKey` | database.py:119 | an entry under any other key is unchanged by the newest pair |
| `Database.DictValueIsLast` | database.py:119 | when two names normalise alike, the value is the id of the later document |
| `Database.KeyIndexSnoc` | database.py:119 | the position of a key after one more pair: the old one if the key was there, the new last position otherwise |
| `Database.DictFirstOccurrenceOrder` | database.py:119 | the keys keep the position of their first occurrence: dict insertion order |
| `Database.DocMapValueIsLast` | database.py:114-119 | each index entry holds the id of the last document with that normalised name |
| `Database.ResolvedParentExists` | database.py:114-136 | every id the resolution pass can assign is the id of a stored document |
| `Database.MatchIndex` | database.py:130-133 | finds the first index entry whose name is in the cleaned citation or contains it |
| `Database.FirstMatch` | database.py:130-133 | no match exactly when no entry's name and the cleaned citation contain one another |
| `Database.FindParent` | database.py:127-133 | the inner loop stops at the first matching entry and yields its id |
| `Database.ResolveRow` | database.py:121-136 | a row with a parent is never touched; a pending row with a match becomes RESOLVED with the first match's id; without a match it stays as it was |
| `Database.ResolveRowIdempotent` | database.py:121-136 | a second resolution pass over the same documents changes nothing |
| `Database.RulesOf` | database.py:144 | the rule query returns at most as many rows as the table has |
| `Database.RulesOfMembers` | database.py:144 | the rules of a document are exactly the rows it owns |
| `Database.RulesOfSnoc` | database.py:66-71 | appending a rule extends only its owner's list, at the end |
| `Database.ParentsOf` | database.py:153-158 | every entry returned is the (id, filename) of a stored document |
| `Database.ParentIds` | database.py:153-157 | the parent ids of the child's rows: an id is listed exactly when some row of that child has it as parent |
| `Database.ParentsOfRows` | database.py:153-159 | when every parent id names a document, the join has one entry per resolved row of the child, in row order; entry i is the stored document whose id is the parent of that row |
| `Database.ParentsExistSameIds` | database.py:51 | documents replaced with the same ids keep every parent link valid |
| `Database.ResolvedUpTo` | database.py:124-136 | the rows after the loop has visited a prefix: resolved there, untouched after |
| `Database.ResolvedUpToStep` | database.py:124-136 | visiting one more row resolves just that row |
| `Database.ResolvedUpToValid` | database.py:119-136 | resolution keeps one row per pair and RESOLVED iff parent set; it only assigns stored documents |
| `Database.DocStore.constructor` | database.py:11-36 | the tables start empty; the first id handed out is 1 |
| `Database.DocStore.AddDocument` | database.py:41-54 | a new name appends a document with a fresh id and returns it. An existing name returns its id and replaces only that document's content. Other tables are unchanged and names stay unique. |
| `Database.DocStore.AddDependency` | database.py:56-64 | idempotent on (child, citation): a new pair appends one PENDING row without a parent, a known pair changes nothing |
| `Database.DocStore.AddRule` | database.py:66-71 | always appends exactly one rule, with no de-duplication; only the owner's rule list grows, at its end |
| `Database.DocStore.ResolveDependencies` | database.py:109-139 | every row becomes its resolution against the name index: sticky for rows with a parent, first match wins; afterwards every still-unresolved row matches no entry |
| `Database.DocStore.GetAllDocs` | database.py:73-79 | (id, filename) of every document, in id order |
| `Database.DocStore.GetDocById` | database.py:81-87 | the document with that id, or nothing when there is none |
| `Database.DocStore.GetRulesForDoc` | database.py:141-147 | exactly the (text, type) of the rules owned by the document |
| `Database.DocStore.GetParentDocs` | database.py:149-161 | one stored (id, filename) per resolved dependency row of the child, duplicates kept; in a valid store entry i is the document whose id is the parent of the child's i-th resolved row |

## Left out

### External to the model

- `app.py`: the Streamlit interface, graph widgets and session state are not part of this model.
- Filesystem access in `scan_directory`:
  - the directory check and its message;
  - `os.listdir`;
  - `open` with `errors="ignore"`.
  
  The listing is a parameter: a sequence of (file name, content) pairs, in listing order.
- SQLite: connections, `init_db` and its DDL. The schema only shapes the row types.
- The dependency and rule row ids are not modelled; row order stands for them.
- `get_dependencies_graph`: a plain two-table dump used only by the interface.
- The regular-expression engine (`DEP_PATTERNS` with `re.IGNORECASE`): `re.findall` for each pattern is the parameter `findAll`. Only the set union and the de-duplication around it are modelled.
- Unicode: case mapping, `isupper`, `isspace` and `\w` follow Python's tables only for code points below U+0100. Other characters are uncased, non-space and not word characters. The header keywords are compared after lower-casing, which is what `re.IGNORECASE` does for them.
- Floating point: `score / len(s_tokens)` and `hits / len(keywords)` are exact rational divisions. Rounding of IEEE doubles is not modelled.

### Modelling choices

- Python's `list.sort` and `sorted`: modelled as a stable insertion sort. The model proves that the result is a permutation and that it is ordered.
- The set iteration order in `extract_dependencies_from_text`:
  - `Processor.ExtractDependenciesFromText` treats it as unspecified. The loop picks any remaining citation, so the contract fixes the new rows but not their order.
  - This is deliberately weaker than any one CPython run.
- Likewise for the keyword loop of `check_compliance`: the hit count does not depend on the order.
- Database constraints and queries:
  - The `UNIQUE` constraint and `lastrowid` are modelled by the lookup of `FindByName` and the counter `nextId`. A failed insert does not advance the counter.
  - `Database.DocStore.GetParentDocs`: SQLite does not fix the order of the join's rows. The model returns them in dependency-row order.
  - `Database.DocStore.GetAllDocs`: `SELECT` without `ORDER BY` is read as row-id order. The name index of the resolution pass is built in the same order.
  - `if matched_id:` in `resolve_dependencies` treats an id of 0 as no match. Ids start at 1, so this never happens and the model uses `Some`/`None`.
- In `analyze_document_structure`, the inner test `len(current_text) >= 1000 or not sections` (processor.py:198) sits inside the branch where `len(current_text) < 1000 and sections` holds. It can never be true, so lines 199-206 never run. The model keeps the behaviour the code actually has: a header that arrives while the buffer is short and a section already exists stays in the buffer as an ordinary line.
- The code and its comment disagree on the general summary: the comment says about 3000 characters (processor.py:156), the code uses `text[:5000]`. The model follows the code.
- `num_sentences` is a natural number. Negative values would reach Python's slicing rules and are not modelled.
- `STOP_WORDS` keeps the source's spelling `"sobe"`, presumably meant as "sobre". This matters: "sobre" counts as a keyword in a rule.
