# WebSearch text pipeline and inverted-index merge, in Dafny

`WebSearch` is a small indexer. It downloads pages, turns each page's text into a
term-frequency (TF) list, writes that list to a file and merges the TF files into an
inverted index. This project models the string pipeline and the index merge of
`WebSearch.java`, and proves what each stage does to its input. The stages are:

1. `tokenize`: cut the text at the delimiters, strip parentheses, drop one-character
   tokens other than `a`, `i` and digits (`checkASCII`).
2. `grabTagged`: keep the POS-tagged words `word_TAG` with a noun, adjective, number,
   adverb or third-person-verb tag.
3. `removeTags`: cut each tag off.
4. `removeStopWords`: blank the stop words in the word array, then join the rest.
5. `stemming`: replace every word by its stem.
6. `calculateTF`: count the words into the `tfMap` field.
7. `writeTF`: format one `%15s%5d%15s` line per term.
8. The merge loop of `writeInvertedIndex`.
9. `urlToName`: a document's ID.

Modules, one per concern:

- `Seqs`: order-preserving `Filter`, `Map` and `Concat` over the word arrays, with their laws.
- `JavaStrings`: the `java.lang.String` behaviour the code relies on:
  - `indexOf` and `lastIndexOf`;
  - `replace` of one character;
  - `split(" ")`, including its one-character fast path and the removal of trailing
    empty strings;
  - the failure of `substring(0, -1)`, as `Result.Failure(StringIndexOutOfBounds(-1))`;
  - the builder idiom `append(w).append(" ")`, as `Spaced`;
  - `Integer.toString`;
  - the right-justifying `%<n>s`.
- `TextNormalizer`: `Tokens`, a model of `java.util.StringTokenizer` over the 16
  delimiters of line 126; `checkASCII`; and the `tokenize` loop, as a method.
- `KeywordSelector`: the `grabTagged` and `removeTags` loops, as methods.
- `StopwordFilter`: `removeStopWords` over an `array<string>` blanked in place.
- `StemReducer`: the `stemming` loop.
- `TermFrequency`: the class `WebSearch` with its `tfMap` field; `calculateTF` and `writeTF`.
- `IndexMerge`: the lock-step merge of the index file with a TF file.
- `DocumentId`: `urlToName`.

Each loop of the source is a method whose `ensures` ties its result to a specification
function, such as `Spaced(Filter(IsKeyword, Split(text)))`. The lemmas beside each
specification function state what the stage promises: which words survive, with what
multiplicity and in what order, what a re-split returns, and when an exception is raised.

Where the code and its documentation disagree, the model follows the code:

- **The merge is positional.** It is not a merge of sorted term lists. Line i of the index is
  compared only with line i of the TF file. When one file ends, the rest of the other is
  copied verbatim (`MergeLinesShape`).
- **Matched lines get `" " + docId` appended.** The value is `urlList.get(1)`, which holds
  `urlToName` values.
- **Short words always match.** Every TF line is written with `%15s`, so a word shorter than
  15 characters is padded with leading spaces. The term taken with
  `substring(0, indexOf(" "))` is then the empty string (`TfLineTerm`). Two such lines
  therefore always match, whatever their words, and every lock-step line gets the new
  document's ID (`PaddedLinesAlwaysMatch`).
- **Exceptions are results.** `removeTags` throws on a word without an underscore. This
  includes the single empty word that `"".split(" ")` yields when `grabTagged` found no
  keyword (`NoKeywordsFails`). The merge throws on a line without a space. Both throws are
  unchecked, so they propagate; the model returns them as `Failure` rather than requiring
  them away.
- **An empty text still counts one word.** `calculateTF` on `""` counts the empty word
  once (`EmptyTextCountsEmptyWord`).
- **Empty tokens are kept.** A token made only of parentheses, such as `()`, becomes the
  empty string and is emitted: its length is 0, not 1 (`ParenthesesOnlyTokenEmitted`).

## Model

| member | source | states |
|---|---|---|
| JavaStrings.IndexOf | WebSearch.java:320-321 | `indexOf(c)` is -1 exactly when c is absent; otherwise it is a position holding c with no c before it |
| JavaStrings.LastIndexOf | WebSearch.java:180 | `lastIndexOf(c)` is -1 exactly when c is absent; otherwise it is a position holding c with no c after it |
| JavaStrings.RemoveCharCounts | WebSearch.java:131 | `replace(c, "")` deletes every occurrence of c and keeps every other character with its multiplicity |
| JavaStrings.RemoveCharFilter | WebSearch.java:131 | `replace(c, "")` keeps exactly the characters other than c, in their order |
| JavaStrings.Split | WebSearch.java:176 | no word produced by `split(" ")` contains a space |
| JavaStrings.PiecesNoSpace | WebSearch.java:196 | no piece between single spaces contains a space |
| JavaStrings.JoinedPieces | WebSearch.java:215 | gluing the pieces back together with single spaces gives the original string: cutting at spaces loses nothing |
| JavaStrings.PiecesSpaced | WebSearch.java:249 | the builder output of words without spaces cuts back into exactly those words, plus one empty trailing piece |
| JavaStrings.SplitSpaced | WebSearch.java:267 | re-splitting a stage's output gives its words back, minus trailing empty words, and `[""]` when there were none |
| JavaStrings.SpacedConcat | WebSearch.java:182 | the builder output of a concatenation is the concatenation of the outputs |
| JavaStrings.NatToStringDigits | WebSearch.java:285 | a non-negative integer prints as a non-empty string of decimal digits |
| JavaStrings.IntToStringNoSpace | WebSearch.java:322 | a printed document ID is non-empty and has no space |
| JavaStrings.NatToStringLength | WebSearch.java:285 | a value below 10^k prints in at most k digits |
| JavaStrings.NatToStringValue | WebSearch.java:285 | the decimal form of a non-negative integer reads back as that integer |
| JavaStrings.IntToStringValue | WebSearch.java:322 | a printed document ID reads back as itself: its digits for a non-negative value, a minus sign and the digits of its magnitude for a negative one |
| JavaStrings.PadLeftSpec | WebSearch.java:285 | `%<width>s` gives max(width, length) characters, ends with the value and has only spaces before it |
| TextNormalizer.RunLength | WebSearch.java:126 | the leading run of non-delimiters ends at the end of the text or at a delimiter |
| TextNormalizer.TokensAreWords | WebSearch.java:126 | every StringTokenizer token is non-empty and contains no delimiter |
| TextNormalizer.TokensCoverText | WebSearch.java:126 | the tokens, concatenated, are exactly the non-delimiter characters of the text, in order |
| TextNormalizer.TokensSplitAtDelimiter | WebSearch.java:126 | the tokens of `a + d + b`, for a delimiter d, are the tokens of a followed by the tokens of b |
| TextNormalizer.TokensOfWord | WebSearch.java:126 | a non-empty text without delimiters is a single token |
| TextNormalizer.StripParensChars | WebSearch.java:131 | stripping parentheses leaves none and adds no character |
| TextNormalizer.StripParensKeeps | WebSearch.java:131 | stripping parentheses keeps every other character of the token, in order |
| TextNormalizer.Tokenize | WebSearch.java:125-142 | `tokenize` emits the kept tokens, each followed by one space |
| TextNormalizer.KeptTokensFrom | WebSearch.java:129-140 | every kept token passes the length test, has no parenthesis and is made of characters of an input token |
| TextNormalizer.KeptTokensFilterMap | WebSearch.java:129-140 | the emitted tokens are exactly the stripped input tokens that pass the length test, in order |
| TextNormalizer.KeptTokensCounts | WebSearch.java:129-140 | a stripped token that passes the length test is emitted as many times as it arises from the input, and one that fails it never is |
| TextNormalizer.NormalizedTokensClean | WebSearch.java:129-153 | every emitted token is free of delimiters and parentheses, and a one-character token is `a`, `i` or a digit (`checkASCII`) |
| TextNormalizer.KeptTokensConcat | WebSearch.java:129-140 | tokens are kept or dropped one by one, in input order |
| TextNormalizer.NormalizedTokensSplit | WebSearch.java:125-142 | text on either side of a delimiter is normalized independently, and the results keep their order |
| TextNormalizer.ParenthesesOnlyTokenEmitted | WebSearch.java:131-139 | the token `()` is emitted as the empty string followed by a space |
| KeywordSelector.TagIsSuffix | WebSearch.java:180 | the tag is the underscore-free tail of the word: the whole word without an underscore, otherwise what follows the last one |
| KeywordSelector.GrabTagged | WebSearch.java:175-186 | `grabTagged` emits exactly the split words whose tag is NN, JJ, CD, RB or VBZ, in order, each followed by one space |
| KeywordSelector.SelectedWords | WebSearch.java:179-184 | a word is selected with its full multiplicity exactly when its tag is a keyword tag, and the selection keeps input order |
| KeywordSelector.UntaggedSpec | WebSearch.java:199-201 | untagging succeeds exactly when every word has an underscore, and then yields each word cut before its last underscore; otherwise the error index is -1 |
| KeywordSelector.UntagTagged | WebSearch.java:200 | untagging `w_T`, for an underscore-free tag T, gives back w, and its tag is T |
| KeywordSelector.RemoveTags | WebSearch.java:195-203 | `removeTags` emits every split word with its tag cut off, each followed by one space, or raises the exception when a word has no underscore |
| KeywordSelector.NoKeywordsFails | WebSearch.java:196-200 | removing the tags from the empty output of grabTagged throws: `""` splits to `[""]` |
| StopwordFilter.BlankStep | WebSearch.java:223-225 | one pass with stop word `stop` empties a slot exactly when it equals `stop` |
| StopwordFilter.BlankInPlace | WebSearch.java:221-227 | after the nested loops, every array slot that equals a stop word is empty and every other slot is unchanged |
| StopwordFilter.BlankStopWordsCounts | WebSearch.java:221-227 | blanking removes every copy of a stop word and keeps every other non-empty word with its multiplicity |
| StopwordFilter.RemoveStopWords | WebSearch.java:214-239 | `removeStopWords` emits the non-empty, non-stop words of the split text, in order, each followed by one space |
| StopwordFilter.SurvivingCounts | WebSearch.java:232-237 | an emitted word is never empty or a stop word, and every other word is emitted as often as it occurs |
| StopwordFilter.SurvivingConcat | WebSearch.java:233-237 | the output for a concatenation is the concatenation of the outputs, so order is kept |
| StopwordFilter.SplitSurviving | WebSearch.java:238 | splitting the output again gives exactly the surviving words, or `[""]` when none survived |
| StemReducer.Stemming | WebSearch.java:248-257 | `stemming` emits the stem of every split word, in order, each followed by one space |
| StemReducer.StemmedSplit | WebSearch.java:253-255 | when no stem of an input word contains a space, re-splitting gives one stem per word, minus trailing empty stems |
| TermFrequency.AddCountsCounts | WebSearch.java:268-274 | after counting, each word's count is its old count plus its number of occurrences |
| TermFrequency.AddCountsKeys | WebSearch.java:268-274 | the keys gained are exactly the words counted |
| TermFrequency.AddCountsSpec | WebSearch.java:268-274 | counts add up as above, keys are the old keys plus the words, and positive counts stay positive |
| TermFrequency.AddCountsOthersUnchanged | WebSearch.java:268-274 | a word that does not occur keeps its entry, present or absent, unchanged |
| TermFrequency.WebSearch.constructor | WebSearch.java:23 | `tfMap` starts empty |
| TermFrequency.WebSearch.CalculateTF | WebSearch.java:266-275 | `calculateTF` adds to tfMap each split word's number of occurrences, adds exactly the new words as keys and keeps every count at least 1 |
| TermFrequency.FormatLines | WebSearch.java:284-287 | the writeTF loop produces one formatted line per key, in iteration order |
| TermFrequency.EnumerationSize | WebSearch.java:284 | a duplicate-free enumeration of the map's keys has one entry per key |
| TermFrequency.WebSearch.WriteTF | WebSearch.java:282-289 | `writeTF` writes one line per key of tfMap: the word, its count and the document ID formatted as `%15s%5d%15s` |
| TermFrequency.EmptyTextCountsEmptyWord | WebSearch.java:267-273 | counting an empty text adds 1 to the count of the empty word |
| IndexMerge.MergeIndex | WebSearch.java:316-341 | the merge for document `docId` writes the lines of `MergeLines` with the stamp `" " + docId`, or raises its exception |
| IndexMerge.MergeWith | WebSearch.java:319-341 | the lock-step loop, then the copy loops, write exactly `MergeLines`, or stop at the first line without a space |
| IndexMerge.MergeAdvances | WebSearch.java:319-328 | one lock-step iteration writes the merged line and keeps the loop invariant |
| IndexMerge.MergeFailsAt | WebSearch.java:320-321 | a lock-step line without a space makes the merge fail with index -1 |
| IndexMerge.MergeTail | WebSearch.java:331-341 | once one file has run out, what is left to write is the other file's rest |
| IndexMerge.CopyRest | WebSearch.java:332-340 | the copy loop appends the remaining lines unchanged and in order |
| IndexMerge.MergeLinesStep | WebSearch.java:319-327 | one step of the merge: fail on the first bad line, otherwise write the merged first line and go on |
| IndexMerge.MergeLinesSucceeds | WebSearch.java:319-321 | the merge succeeds exactly when every pair of lines read in lock step has a space; a failure has index -1 |
| IndexMerge.MergeLinesLength | WebSearch.java:319-341 | a successful merge writes as many lines as the longer input |
| IndexMerge.MergeLinesPointwise | WebSearch.java:319-325 | lock-step line i is index line i, with the stamp appended exactly when the terms of index line i and TF line i are equal |
| IndexMerge.MergeLinesRest | WebSearch.java:331-341 | after the lock-step part come the longer input's remaining lines |
| IndexMerge.MergeLinesShape | WebSearch.java:319-341 | the three above together: length, lock-step lines, rest |
| IndexMerge.MergePreservesIndex | WebSearch.java:319-341 | no index line is lost or reordered: output line i is index line i, verbatim or stamped |
| IndexMerge.TfLineTerm | WebSearch.java:285 | a TF line of a word shorter than 15 characters starts with a space and its term is empty; the term is the word itself for a longer word whose count has at most four digits |
| IndexMerge.PaddedLinesAlwaysMatch | WebSearch.java:319-325 | when all lines start with padding, the merge succeeds, every lock-step line is stamped, and the output is padded again |
| DocumentId.UrlToName | WebSearch.java:384-391 | `urlToName` is the sum of the character codes of the tokenized URL |
| DocumentId.CodeSumConcat | WebSearch.java:387-389 | the code sum of a concatenation is the sum of the code sums |
| DocumentId.CodeSumSpaced | WebSearch.java:385-389 | the ID is the code sum of the tokens' characters plus 32 for each token's trailing space |
| DocumentId.CodeSumPermutation | WebSearch.java:387-389 | the code sum ignores order: strings with the same characters have the same sum |
| DocumentId.DocIdCollision | WebSearch.java:384-391 | URLs with the same number of tokens and the same multiset of token characters get the same ID |

## Left out

- Downloading a page and extracting its text (Jsoup, `getText`): this is network I/O into a library.
- `posTagging`: the Stanford tagger is a foreign library. `grabTagged` takes its output as input.
- `Morphology.stem` is a foreign library, so it is the parameter `stem` of `Stemming`.
- Reading the stop-list file is I/O. Its lines are the parameter `stoplist` of
  `RemoveStopWords`, and the `IOException` handler is not modelled.
- `writeToLog`, the file readers and writers, the `"\r\n"` line terminators and `readLine`:
  files are sequences of lines here.
- The rest of `writeInvertedIndex` is not modelled: the bootstrap copy of the first TF
  file, the `urlList.size() == 1` early return, the rename and delete, and
  `urlList.remove(1)`. The merge is modelled from the two files' lines to the lines
  written; index1.txt is opened in append mode, but the model writes a fresh sequence.
- The constructor's crawl loop, `run` and `main`: they only drive the pipeline over a URL list.
- TermFrequency.WebSearch.WriteTF: `HashMap` iteration order is unspecified, so it is the
  parameter `order`. Any duplicate-free enumeration of the keys is accepted.
- DocumentId.UrlToName: does not model 32-bit `int` wrap-around of the sum, because the
  integers here are unbounded. Sums past 2^31 - 1 differ from Java's.
- TermFrequency.WebSearch.CalculateTF: does not model overflow of a count past
  2^31 - 1, for the same reason.
- Characters are Dafny `char`s, not UTF-16 code units. Surrogate pairs are not modelled.
- `String.format` pads by `char` count, not by display width.
