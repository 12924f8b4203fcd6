# Subtitle word-frequency script, modelled in Dafny

`subtitle_parser.py` reads every `.srt` and `.ass` subtitle file of a
directory, cleans each text (`clean_text`), cuts it into Japanese words with
a morphological analyzer and a stopword filter (`tokenize_japanese`), adds
the words to a `collections.Counter`, and writes the 2000 most frequent
non-blank words as a table sorted by frequency.

The model follows the script step by step:

- `Text` (text.dfy): the Python string primitives the script relies on:
  `str.isspace`, `lstrip`/`rstrip`/`strip`, `str.splitlines` with all of its
  line boundaries (including `"\r\n"` as one boundary) and `'\n'.join`.
- `Cleaner` (cleaner.dfy): `clean_text`. It covers:
  - the SRT substitution of timing blocks, a left-to-right scan that turns
    each matched block into one newline;
  - the ASS extraction of the text after the ninth comma of every line
    that starts with `Dialogue`;
  - deletion of `<...>` tags;
  - collapse of newline and tab runs into one space, then `strip`;
  - deletion of every character of the final character class.
- `Tokens` (tokens.dfy): the filter of `tokenize_japanese`. It keeps a base
  form that is not a stopword and whose stripped length exceeds one.
- `Frequency` (frequency.dfy): the Counter.
  - The Counter is a map from word to count.
  - `Counter.update` is one increment per word.
  - The counts after a run are the occurrences over all token lists, whatever
    the order of the files.
  - The Counter's key insertion order is modelled too, because the report
    lists `items()` in that order.
- `Report` (report.dfy): the DataFrame of `items()`, the descending sort, the
  blank-word filter and `.head(2000)`. The pandas sort is not stable, so the
  report's properties are proved for every descending arrangement of the
  entries. `SortDesc` is one such arrangement, an insertion sort.
- `Pipeline` (pipeline.dfy): the loop over the directory as the method `Run`,
  proved to leave the Counter that the fold `Frequencies` describes. Then
  `WordReport` puts the whole script together and proves that the report is
  a correct top-2000 list.

The comment at subtitle_parser.py:13 says that `clean_text` removes
timestamps. However, the pattern at subtitle_parser.py:17 requires a newline
before the cue number. So the first cue of a file, which has no newline before
it, keeps its number and times. The model does what line 17 does, and the lemma
`Cleaner.SrtLeadingCueKept` states this behaviour.

## Model

| member | source | states |
|---|---|---|
| Text.IsSpace | subtitle_parser.py:24 | predicate, no contract of its own: the characters of `\s` and of `str.strip()`, which are the characters for which `str.isspace()` is true; `Text.Strip` and `Cleaner.RemoveExcluded` state what is done with them |
| Text.TrimStart | subtitle_parser.py:24 | `lstrip`: the result is a suffix of the input, all that was removed is whitespace, and the result is empty or starts with a non-space; empty exactly when the input is all whitespace |
| Text.TrimEnd | subtitle_parser.py:24 | `rstrip`: the result is a prefix, what was removed is whitespace, the result is empty or ends with a non-space; empty exactly when the input is all whitespace |
| Text.Strip | subtitle_parser.py:24 | `strip`: no longer than the input, empty exactly when the input is all whitespace, otherwise starts and ends with a non-space |
| Text.LineEnd | subtitle_parser.py:20 | the first line of `splitlines` ends at the first line boundary, or at the end of the text |
| Text.SplitLines | subtitle_parser.py:20 | function without its own contract: `str.splitlines()`, where `\r\n` counts as one boundary and no empty last line follows a final boundary; `Text.SplitLinesNoBoundary`, `Text.SplitJoinedLines` and `Text.JoinSplitLines` state what it computes |
| Text.JoinLines | subtitle_parser.py:21 | function without its own contract: `'\n'.join`; `Text.SplitJoinedLines` and `Text.JoinSplitLines` state that it inverts `splitlines` |
| Text.SplitLinesNoBoundary | subtitle_parser.py:20 | no line produced by `splitlines` contains a line-boundary character |
| Text.SplitJoinedLines | subtitle_parser.py:20-21 | splitting the `'\n'.join` of boundary-free lines gives back exactly those lines when the last one is non-empty |
| Text.JoinSplitLines | subtitle_parser.py:20-21 | for text whose only line boundary is `'\n'`, joining its lines with `'\n'` rebuilds the text except for one trailing newline |
| Cleaner.DigitRun | subtitle_parser.py:17 | the greedy `\d+`: the length of the leading run of ASCII digits, with a non-digit after it |
| Cleaner.BlockAt | subtitle_parser.py:17 | the pattern matches at the start of s exactly when some prefix is a timing block, and it then reports that prefix's length, which is unique |
| Cleaner.BlockUnique | subtitle_parser.py:17 | any timing block at the start of s has the cue number as its digit run and is exactly 32 characters longer than it, with the two timestamps and the arrow at fixed places |
| Cleaner.StripTimingBlocks | subtitle_parser.py:17 | the SRT substitution only deletes characters and puts back the newlines it consumed: the result is a subsequence of the input |
| Cleaner.TimingBlockShape | subtitle_parser.py:17 | newline, a cue number, newline, `start --> end`, newline, with well-formed timestamps, is a timing block |
| Cleaner.BlockBecomesNewline | subtitle_parser.py:17 | a timing block at the scan position becomes a single newline, and the scan resumes after it |
| Cleaner.NoBlockUnchanged | subtitle_parser.py:17 | text that contains no timing block anywhere is left unchanged |
| Cleaner.SrtCueRemoved | subtitle_parser.py:17 | a cue after a newline, followed by a subtitle line, leaves only the newline and the subtitle line |
| Cleaner.LineUnchanged | subtitle_parser.py:17 | a subtitle line between newlines is not touched |
| Cleaner.NoBlockAtTimes | subtitle_parser.py:17 | a timestamp right after a newline is never mistaken for a cue number |
| Cleaner.SrtLeadingCueKept | subtitle_parser.py:17 | a cue at the very start of the file, with no newline before its number, is kept in full |
| Cleaner.ShortTextUnchanged | subtitle_parser.py:17 | text shorter than the shortest timing block (33 characters) is unchanged |
| Cleaner.PrefixWithoutNewline | subtitle_parser.py:17 | a stretch without a newline is copied as it is and the substitution carries on after it |
| Cleaner.FieldsEnd | subtitle_parser.py:20 | `split(',', 9)[-1]` begins right after the ninth comma, or after the last comma when there are fewer, or at 0 when there is none; the part kept has no comma when there are fewer than nine |
| Cleaner.AfterCommas | subtitle_parser.py:20 | function without its own contract: `line.split(',', 9)[-1]` is the text from `FieldsEnd` onwards; `Cleaner.AfterCommasOfFields` states that it returns the text after nine comma-terminated fields |
| Cleaner.AfterCommasOfFields | subtitle_parser.py:20 | nine comma-terminated fields followed by a text leave exactly that text, commas in the text included |
| Cleaner.FieldsEndOfFields | subtitle_parser.py:20 | for n comma-terminated fields followed by a text, the cut lies exactly at the end of the fields |
| Cleaner.IsDialogue | subtitle_parser.py:20 | predicate, no contract of its own: `line.startswith('Dialogue')`; `Cleaner.DialogueLines` states which lines it selects |
| Cleaner.DialogueLines | subtitle_parser.py:20 | the kept lines are, in order, exactly the lines starting with `Dialogue`, each as often as it occurs |
| Cleaner.Payloads | subtitle_parser.py:20 | one payload per dialogue line, in order, each the text after its ninth comma |
| Cleaner.ExtractDialogue | subtitle_parser.py:20-21 | function without its own contract: the `'\n'.join` of the payloads of the dialogue lines; `Cleaner.DialogueLinePerPayload` states that its lines are exactly the payloads |
| Cleaner.DialogueLinePerPayload | subtitle_parser.py:20-21 | splitting the extracted text into lines gives back exactly the payloads when the last one is non-empty |
| Cleaner.Fields | subtitle_parser.py:20 | the nine metadata fields of a dialogue line, each followed by a comma: as many commas as fields when the fields hold none, no line boundary when the fields hold none |
| Cleaner.DialogueLineExtraction | subtitle_parser.py:20-21 | a single dialogue line made of nine comma-free fields and a text extracts to exactly that text |
| Cleaner.SingleDialogueLine | subtitle_parser.py:20-21 | an ASS text of one dialogue line extracts to that line's text after the ninth comma |
| Cleaner.ExampleExtraction | subtitle_parser.py:20-21 | `Dialogue: 0,0:00:01.00,0:00:02.00,Default,,0,0,0,,こんにちは` extracts to `こんにちは` |
| Cleaner.AssDialogueExample | subtitle_parser.py:14-27 | `clean_text` of that ASS line is `こんにちは` |
| Cleaner.CloseAt | subtitle_parser.py:23 | the first `>` of the text, or its end when there is none |
| Cleaner.TagAt | subtitle_parser.py:23 | the pattern `<[^>]+>` matches at the start of s exactly when some prefix is a tag, and then the match is that unique prefix |
| Cleaner.StripTags | subtitle_parser.py:23 | the tag substitution only deletes characters, no tag remains at any position afterwards, and no `>` appears that was not there before |
| Cleaner.StripTagsNoOpen | subtitle_parser.py:23 | text without `<` is unchanged |
| Cleaner.TagDeleted | subtitle_parser.py:23 | a tag at the scan position is deleted and the scan resumes right after it |
| Cleaner.KeptUnlessTag | subtitle_parser.py:23 | where no tag starts, the character is kept and the scan moves on by one |
| Cleaner.PrefixWithoutOpen | subtitle_parser.py:23 | text before the first `<` is kept as it is, whatever follows |
| Cleaner.ItalicWord | subtitle_parser.py:23 | `<i>w</i>` becomes `w` when w holds no `<` |
| Cleaner.BreakRun | subtitle_parser.py:24 | the greedy `[\n\t]+`: the length of the leading run of newlines and tabs |
| Cleaner.CollapseBreaks | subtitle_parser.py:24 | no newline or tab remains, the result is no longer than the input, and the non-whitespace characters are the same, in the same order |
| Cleaner.RunBecomesSpace | subtitle_parser.py:24 | a maximal run of newlines and tabs becomes exactly one space |
| Cleaner.PrefixWithoutBreak | subtitle_parser.py:24 | text without newlines and tabs is kept as it is, whatever follows |
| Cleaner.NoBreakUnchanged | subtitle_parser.py:24 | text without newlines and tabs is unchanged |
| Cleaner.LinesJoinedBySpace | subtitle_parser.py:24 | two lines joined by a newline come out joined by one space |
| Cleaner.StripKeepsNonSpace | subtitle_parser.py:24 | `strip` changes nothing but whitespace |
| Cleaner.Excluded | subtitle_parser.py:26 | predicate, no contract of its own: membership in the character class, which holds the ASCII punctuation except the backslash, the full-width and CJK punctuation and `\s`; `Cleaner.RemoveExcluded` states what is deleted |
| Cleaner.RemoveExcluded | subtitle_parser.py:26 | the result is a subsequence free of excluded characters, and every other character occurs in it exactly as often as in the input |
| Cleaner.RemoveExcludedIgnoresSpace | subtitle_parser.py:24-26 | deleting whitespace first makes no difference to the last step |
| Cleaner.RemoveExcludedOfClean | subtitle_parser.py:26 | text without excluded characters is unchanged |
| Cleaner.SharedCleanup | subtitle_parser.py:23-26 | function without its own contract: the three substitutions shared by both formats, in the script's order; the lemmas named `Cleaner.SharedCleanup` followed by a property state what it computes |
| Cleaner.CleanText | subtitle_parser.py:14-27 | the cleaned text holds no punctuation of the class and no whitespace, whatever the extension |
| Cleaner.SharedCleanupIsTagsThenExcluded | subtitle_parser.py:23-26 | the three shared steps amount to deleting the tags and then the excluded characters: the whitespace step makes no difference to the output |
| Cleaner.SharedCleanupIsSubsequence | subtitle_parser.py:23-26 | the shared steps only delete characters, never add or reorder them |
| Cleaner.SharedCleanupKeepsWordCharacters | subtitle_parser.py:23-26 | every character outside the class survives as often as it did after the tag step, and none inside the class survives |
| Cleaner.SharedCleanupIdempotent | subtitle_parser.py:23-26 | cleaning already cleaned text changes nothing |
| Cleaner.ExampleText | subtitle_parser.py:23-26 | `こんにちは` passes the shared steps unchanged when the CJK punctuation set does not contain its letters |
| Cleaner.CleanWordUnchanged | subtitle_parser.py:23-26 | text made only of characters outside the class passes the shared steps unchanged |
| Tokens.Keeps | subtitle_parser.py:33 | predicate, no contract of its own: the base form is not a stopword and is longer than one character once stripped; `Tokens.FilterTokens` states that exactly these forms are kept |
| Tokens.FilterTokens | subtitle_parser.py:33 | the kept base forms are, in order, exactly those that are not stopwords and are longer than one character once stripped, each as often as it occurs |
| Tokens.Tokenize | subtitle_parser.py:30-34 | every token returned passes the filter |
| Tokens.FilterTokensIdempotent | subtitle_parser.py:33 | filtering twice is filtering once |
| Tokens.SingleCharacterDropped | subtitle_parser.py:33 | no single-character word is ever kept |
| Frequency.Update | subtitle_parser.py:51 | `update(words)` adds to each word's count its number of occurrences in words and keeps every count positive |
| Frequency.Frequencies | subtitle_parser.py:37-51 | function without its own contract: the Counter after updating an empty Counter with each token list in turn; `Frequency.FrequenciesCount` and `Frequency.OrderIndependent` state what it holds |
| Frequency.FrequenciesCount | subtitle_parser.py:37-51 | after updating an empty Counter with each token list, every word counts its occurrences over all lists, and all counts are positive |
| Frequency.FlattenPermutation | subtitle_parser.py:40-51 | reordering the token lists does not change the multiset of all words |
| Frequency.OrderIndependent | subtitle_parser.py:40-51 | the final Counter does not depend on the order in which the files are processed |
| Frequency.Seen | subtitle_parser.py:51 | the key order after `update` extends the old order by each new word once, and adds nothing else |
| Frequency.SeenFirstOccurrence | subtitle_parser.py:51 | the keys appended by `update` are words of the list not already present, and they appear in the order of their first occurrence in the list |
| Frequency.SeenTwo | subtitle_parser.py:51 | an empty Counter updated with `[a, b]` lists a then b |
| Frequency.KeyOrder | subtitle_parser.py:37-54 | function without its own contract: the Counter's key order after each update in turn; `Frequency.KeyOrderCount` and `Frequency.SeenFirstOccurrence` state what it holds |
| Frequency.KeyOrderCount | subtitle_parser.py:51-54 | the Counter's key order lists every word that occurs exactly once, and no other word |
| Frequency.CountedWords | subtitle_parser.py:51 | a word is a key of the Counter exactly when it occurs in some token list |
| Frequency.TwoFilesExample | subtitle_parser.py:37-51 | files with tokens `[a, b, a]` and `[b, b]` give the counter `{a: 2, b: 3}` |
| Frequency.TwoUpdates | subtitle_parser.py:51 | two updates, `[a, b, a]` then `[b, b]`, give `{a: 2, b: 3}` |
| Report.BlankIsEmptyStrip | subtitle_parser.py:60 | a word is dropped by `str.strip().astype(bool)` exactly when it is only whitespace |
| Report.Items | subtitle_parser.py:54 | one row per key in key order, each paired with its count |
| Report.ItemsListing | subtitle_parser.py:54 | the rows of `DataFrame(items())` hold each entry of the Counter exactly once, and nothing else |
| Report.Insert | subtitle_parser.py:57 | inserting a row into a descending table keeps it descending and adds exactly that row |
| Report.SortDesc | subtitle_parser.py:57 | the sort yields a descending permutation of its input |
| Report.ListingPermutation | subtitle_parser.py:57 | any reordering of a listing of the Counter is still a listing of it |
| Report.NonBlankRows | subtitle_parser.py:60 | the filtered rows are non-blank rows of the input |
| Report.NonBlankInOrder | subtitle_parser.py:60 | the filter keeps the rows in their order |
| Report.NonBlankSorted | subtitle_parser.py:57-60 | the filter keeps a descending table descending |
| Report.NonBlankCount | subtitle_parser.py:60 | exactly the blank rows are removed, each non-blank row kept as often as it occurs |
| Report.TopWords | subtitle_parser.py:60 | function without its own contract: the non-blank rows, cut to the first 2000; `Report.TopWordsIsReport` states what it returns |
| Report.TopRowsFromListing | subtitle_parser.py:54-60 | every reported row is a Counter entry and none is repeated |
| Report.TopRowsComplete | subtitle_parser.py:57-60 | a non-blank word left out of the report leaves the report full at 2000 rows, each at least as frequent as that word |
| Report.TopWordsIsReport | subtitle_parser.py:54-60 | for every descending listing of the Counter, the report has at most 2000 rows, is descending, holds only non-blank Counter entries with no word twice, and leaves a word out only for lack of room |
| Report.TopReportWithoutBlanks | subtitle_parser.py:60 | when no counted word is blank, every word is either reported or outranked by a full report |
| Report.NothingBlank | subtitle_parser.py:60 | with no blank words, the report is just the first 2000 rows |
| Report.TwoWordReport | subtitle_parser.py:54-60 | with counts `{a: 2, b: 3}`, every descending listing reports `b` then `a` |
| Pipeline.IsSubtitle | subtitle_parser.py:42 | predicate, no contract of its own: the extension is `.srt` or `.ass`; `Pipeline.CounterStep` and `Pipeline.TokenListsFromSubtitles` state that only such files are counted |
| Pipeline.FileTokens | subtitle_parser.py:47-49 | every word the per-file step produces passes the token filter |
| Pipeline.FileTokenizer | subtitle_parser.py:47-49 | the per-file step, as a function of the document, only ever produces words that pass the filter |
| Pipeline.TokenLists | subtitle_parser.py:40-49 | the token list of each subtitle file in directory order, at most one per file; `Pipeline.TokenListsFromSubtitles`, `Pipeline.TokenListsAppend` and `Pipeline.CounterStep` state what the lists are |
| Pipeline.TokenListsFromSubtitles | subtitle_parser.py:40-49 | every token list that is counted comes from a file with extension `.srt` or `.ass` |
| Pipeline.TokenListsAppend | subtitle_parser.py:40-42 | the token lists of two runs of files are those of each run, one after the other |
| Pipeline.CounterStep | subtitle_parser.py:40-51 | one loop iteration updates the Counter and its key order with the file's tokens when it is a subtitle file, and changes nothing otherwise |
| Pipeline.Run | subtitle_parser.py:40-51 | after the loop, the Counter and its key order are those of updating an empty Counter with the token lists of the subtitle files, in directory order |
| Pipeline.CountedWordsKept | subtitle_parser.py:33-51 | every counted word passes the token filter, so none is blank |
| Pipeline.TokenListsPermutation | subtitle_parser.py:40-42 | reordering the directory only reorders the token lists |
| Pipeline.FileOrderIrrelevant | subtitle_parser.py:40-51 | the Counter does not depend on the order in which the directory lists the files |
| Pipeline.CounterReport | subtitle_parser.py:54-60 | listing, sorting, filtering and cutting the Counter gives a correct top-2000 report |
| Pipeline.WordReport | subtitle_parser.py:37-60 | the whole script's table is a correct top-2000 report of the word counts, and it leaves a word out only when 2000 words at least as frequent fill it |

## Left out

- Reading the directory (`os.listdir`, `os.path.splitext`, `open`, UTF-8 decoding): the files are given as a sequence of documents in directory order, each with its extension and its decoded text. The text is taken with newlines already translated as `open(..., 'r')` does, so `\r\n` has become `\n`.
- The morphological analyzer (janome's `Tokenizer`): a parameter `analyze` that maps a text to the base forms of its morphemes; what it does inside is not modelled.
- The literal stopword set (line 31) and the full-width and CJK members of the character class (line 26): in the source file they are stored in a mis-decoded form whose intended characters cannot be recovered reliably, so both are parameters (`stopwords`, `cjk`). The ASCII members of the class and `\s` are written out.
- `\d` in the SRT pattern matches only the ASCII digits here; Python's Unicode `\d` also accepts other decimal digits, which subtitle files do not use.
- Report.SortDesc: the order of rows with equal frequency after pandas' non-stable sort is not determined; SortDesc is one admissible order, and the report's properties are proved for all of them.
- Writing the CSV file (line 62) and the hard-coded paths (lines 8 and 62): output and configuration only.
- Pipeline.TokenLists: its own contract states only a length bound; what the lists are is stated by TokenListsFromSubtitles, TokenListsAppend and CounterStep.
