# termseeker's segmentation and consolidation core, modelled in Dafny

termseeker helps UN terminologists find how a term is rendered across the six
official languages. It searches the UN digital library for documents that use
an English term and builds each document's download address per language. It
then cuts each document into paragraphs and keeps the paragraphs that mention
the term. A sentence broken by page furniture (page numbers, job-number
footers, rules) is glued back together. The tool asks a language model for the
equivalent and scrapes the tagged answer. Finally it consolidates the
per-document records into one record per term. A sibling tool, termun, also
queries the UNTERM terminology database and consolidates its result rows by
five priority rules.

This project models the sequential core of those tools and proves the
properties their code and documentation promise:

| file | module | what it models |
|---|---|---|
| option.dfy | `Opt` | Python's `None`-or-value, as `Option` |
| strings.dfy | `Strings` | `str.strip`, `str.lower` (ASCII), `in`, `str.split`, `str.join`, `str.replace` |
| classify.dfy | `Classify` | `is_separator_or_note`, `is_complete_sentence`, the `\d+\.\s` list-item test |
| segmenter.dfy | `Segmenter` | termseeker's `find_paragraphs_with_merge` and the target normalisation loop of `find_similar_paragraph_in_target` |
| legacy.dfy | `LegacySegmenter` | the one-step `find_paragraphs_with_merge` of termun and of UNDOC_aligner |
| symbols.dfy | `Symbols` | the three copies of `cleanSymbols`, with the records as objects whose `docSymbol` is rewritten in place |
| urls.dfy | `Urls` | `get_un_document_urls` (three identical copies) |
| equivalents.dfy | `Equivalents` | `getEquivalents_from_response`, with the `<equivalent>` and the `<EQUIVALENTTERM>` tag |
| consolidate.dfy | `Consolidate` | `consolidate_results`: grouping by `EnglishTerm`, the per-class merge rules, and the key order |
| unterm.dfy | `UNTerm` | `consolidate_UNTermResults` and `report_missing_translations` |

The loops of the source that build or change state are `method`s with a
`while` loop and its invariants; a search loop that only computes a value
(the terminator test) is a recursive function. Each method is proved equal to a specification function, and the lemmas state what
that function promises. The pure classifiers and the tag scrape are functions.
`cleanSymbols` mutates the records it keeps, so a record is a class with a
mutable `docSymbol`.

Some choices were made where the code and its description differ, or where
Python leaves room. In each case the model follows the code:

- In `find_paragraphs_with_merge` a skipped separator or note paragraph reaches
  `continue` before the `next_index > i + 5` test. A run of separators can
  therefore carry the scan past `i + 5`, and one more paragraph is appended
  there before the test ends the merge. The documentation describes a fixed
  bound of five paragraphs ahead.
- `max_paragraphs` below 1 still lets one result through: the count is compared
  only after an append. `Segmenter.Limit` is `max(1, m)`.
- `cleanSymbols` stops at `max(1, min(maxResults, 50))` records, for the same
  reason.
- The `len(filled_languages) == len(result) - 1` exit of
  `consolidate_UNTermResults` compares against 11 (six languages, the source
  and five synonym groups). At most six languages can be filled, so it never
  fires, and the model has no such exit.
- A `*Term` field of `consolidate_results` keeps the first record's value even
  when that value is `None`: a later record's non-null term does not replace it.
  The description says the first non-null value wins. `Consolidate.Merge` keeps
  the first value, `None` included.

## Model

| member | source | states |
|---|---|---|
| Classify.LeadingDigits | termseeker/utils.py:135 | the greedy `\d+`: the length of the run of digits opening the text; every character before it is a digit and the one after it is not |
| Classify.IsComplete | termseeker/utils.py:142-164 | a text is complete exactly when its stripped form is non-empty and ends with one of the listed terminators |
| Classify.EndsWithAny | termseeker/utils.py:159-164 | the loop over the terminators answers true exactly when the text ends with some terminator of the list |
| Classify.CompleteByLastCharacters | termseeker/utils.py:153-162 | the twelve terminators come down to a last character among `. ! ? ؟ । 。 ．` or an ending `.)`, `.")` or `:]` (`».` and the repeated `.` add nothing) |
| Classify.BlankIsSeparator | termseeker/utils.py:130-132 | every whitespace-only paragraph is a separator |
| Classify.PageNumberOpens | termseeker/utils.py:135-140 | every paragraph that opens, after optional whitespace, with `**<digits>**` is a separator, whatever follows |
| Classify.FootnoteOpens | termseeker/utils.py:136-140 | every paragraph that opens, after optional whitespace, with `K`, seven digits, a whitespace character and six digits is a note, whatever follows |
| Classify.SlashNoteIsNote | termseeker/utils.py:137-140 | a single line `**…/…**` matches the "other note" pattern and is skipped |
| Classify.DashOpens | termseeker/utils.py:138-140 | every paragraph that opens with a dash after optional whitespace is a separator, even with text after the dashes |
| Classify.ListMarkerOpens | termseeker/utils.py:209 | every paragraph that opens, after optional whitespace, with digits, a dot and a whitespace character is a numbered item |
| Strings.IndexOf | termseeker/utils.py:190 | the search behind `in`: the first position at or after `from` where the pattern occurs, and None exactly when it occurs nowhere from there |
| Strings.ContainsIff | termseeker/utils.py:190 | `p in s` exactly when `p` occurs at some position of `s` |
| Strings.StripIdempotent | termseeker/utils.py:200 | stripping a stripped paragraph changes nothing |
| Strings.SplitJoin | termseeker/utils.py:184 | joining the pieces of `split(sep)` with `sep` gives back the text |
| Strings.SplitPieces | termseeker/utils.py:184 | no piece of `split(sep)` contains `sep` |
| Strings.ReplaceIsJoinOfSplit | termseeker/utils.py:74 | one left-to-right `replace` pass is the split on the pattern joined with the replacement |
| Segmenter.ContinueText | termseeker/utils.py:199-224 | the merged text is the matched paragraph followed by each appended paragraph, stripped and after one space, in increasing index order, all before the stop index |
| Segmenter.ContinueSkipsOnlyFurniture | termseeker/utils.py:199-210 | only body paragraphs are appended; every paragraph passed over without being appended is furniture |
| Segmenter.ContinueLookahead | termseeker/utils.py:222-224 | every appended paragraph but the last lies within five paragraphs of the match |
| Segmenter.AppendCount | termseeker/utils.py:210-224 | at most five paragraphs are appended to one match |
| Segmenter.ContinueStopsWhenComplete | termseeker/utils.py:194-214 | a paragraph is appended only while the accumulated text is incomplete |
| Segmenter.ContinueStopReason | termseeker/utils.py:199-224 | a merge that stops before the end of the text stops because the text is complete, because the next paragraph is a numbered item, or because the lookahead is used up |
| Segmenter.MatchesBelowSpec | termseeker/utils.py:188-190 | the matching indices increase, and an index is listed exactly when its paragraph contains the term, ignoring case |
| Segmenter.MatchesBelowEmptyIff | termseeker/utils.py:188-190 | no index is listed exactly when no paragraph contains the term |
| Segmenter.MergeContinuation | termseeker/utils.py:191-224 | the inner `while` loop builds exactly the continuation rule's merged text for the match at `i` |
| Segmenter.FindParagraphsWithMerge | termseeker/utils.py:184-233 | the scan returns the first `max(1, m)` merged matches (all of them for None) in source order, or None when there is none |
| Segmenter.MergeMatchExtends | termseeker/utils.py:191-210 | a merged match begins with its raw matched paragraph and still contains the term |
| Segmenter.FindNoneIff | termseeker/utils.py:233 | the result is None exactly when no paragraph contains the term, ignoring case |
| Segmenter.FindCount | termseeker/utils.py:226-231 | a result holds at least one and at most `max(1, max_paragraphs)` paragraphs, and every match when `max_paragraphs` is None |
| Segmenter.FindOrder | termseeker/utils.py:188-226 | the `k`-th result is the merge of the `k`-th matching paragraph, begins with it and contains the term |
| Segmenter.UnitsEmptyIff | termseeker/utils.py:277-320 | normalisation yields no unit exactly when every paragraph is a separator or note |
| Segmenter.UnitsOrdered | termseeker/utils.py:277-316 | every unit opens at a paragraph that is not furniture, grows by the continuation rule, and opens at or after the index where the previous merge stopped |
| Segmenter.UnitsCover | termseeker/utils.py:277-316 | every paragraph that is not furniture opens a unit or is appended to one |
| Segmenter.ItemsOpenUnits | termseeker/utils.py:299-305 | a numbered-item paragraph is never appended to an earlier unit; it opens its own |
| Segmenter.ExtendUnit | termseeker/utils.py:286-312 | the inner merge loop of the normalisation gives the continuation rule's text and its stop index |
| Segmenter.NormalizeTarget | termseeker/utils.py:272-320 | the normalisation loop yields the texts of the units, in order |
| Segmenter.NormalizeUnitOpens | termseeker/utils.py:278-315 | each unit begins with the stripped paragraph that opens it, which is not a separator or note |
| Segmenter.NormalizeEmptyIff | termseeker/utils.py:318-320 | the result is `[]` exactly when every paragraph is a separator or note |
| Segmenter.NormalizeItemOpens | termseeker/utils.py:299-305 | every numbered-item paragraph begins some unit of the result |
| LegacySegmenter.ContinuationUnique | termun/utils.py:118-131 | a match has at most one continuation paragraph |
| LegacySegmenter.OneStepCases | termun/utils.py:118-131 | when a continuation exists the match is extended by exactly that paragraph after one space, and it stays unchanged exactly when none exists |
| LegacySegmenter.OneStepExtends | termun/utils.py:116-131 | a merged match begins with its matched paragraph and still contains the term |
| LegacySegmenter.MatchesBelowSpec | termun/utils.py:114-115 | the matching indices increase, and an index is listed exactly when its paragraph contains the term (case-sensitive) |
| LegacySegmenter.MatchesBelowEmptyIff | UNDOC_aligner/src/utils/find_paragraphs.py:8-9 | no index is listed exactly when no paragraph contains the term |
| LegacySegmenter.Selected | termun/utils.py:133-137 | the loop collects `max(1, m)` merged matches, or all of them when fewer exist |
| LegacySegmenter.TermunFindParagraphsWithMerge | termun/utils.py:109-142 | the scan returns the selected merged matches, or None when there is none |
| LegacySegmenter.UndocFindParagraphsWithMerge | UNDOC_aligner/src/utils/find_paragraphs.py:3-36 | the scan returns the bare first merged match (or None) when `max_paragraphs == 1`, and otherwise the list of selected merged matches |
| LegacySegmenter.SelectedEmptyIff | termun/utils.py:114-142 | nothing is collected exactly when no paragraph contains the term |
| LegacySegmenter.SelectedOrder | termun/utils.py:114-134 | the `k`-th collected paragraph is the one-step merge of the `k`-th match, begins with it and contains the term |
| LegacySegmenter.TermunNoneIff | termun/utils.py:142 | termun's result is None exactly when no paragraph contains the term |
| LegacySegmenter.TermunCount | termun/utils.py:133-137 | a non-None termun result holds between one and `max(1, max_paragraphs)` paragraphs |
| LegacySegmenter.UndocSingle | UNDOC_aligner/src/utils/find_paragraphs.py:33-34 | with `max_paragraphs == 1` the result is never a list; it is None exactly when nothing matches, and otherwise the merged first match |
| LegacySegmenter.UndocList | UNDOC_aligner/src/utils/find_paragraphs.py:30-36 | otherwise the result is a list, never None, of at most `max(1, max_paragraphs)` items, empty exactly when nothing matches |
| LegacySegmenter.PageNumberMerged | termun/utils.py:118-131 | any match followed by a paragraph opening with a bold page number, then by a paragraph that is neither a dash rule nor a list item, is glued to that paragraph after a space |
| LegacySegmenter.MergeIgnoresCompleteness | termun/utils.py:118-131 | the one-step merge never reads the matched paragraph, so not its completeness either: replacing it by any text leaves its continuations unchanged and yields that text followed by the same continuation |
| Symbols.DocItem.constructor | termseeker/utils.py:52-64 | a record with the fields the filters read and the symbol that is rewritten |
| Symbols.CleanSymbols | termseeker/utils.py:26-89 | the returned records are the chosen ones, in input order; each record's symbol is rewritten once for every time it is returned, records not returned keep their symbol, and with each record listed once every returned record's symbol is rewritten exactly once |
| Symbols.CleanFilters | termseeker/utils.py:50-82 | every returned record passes the variant's filters, and when fewer than the limit come back every record that passes them is returned |
| Symbols.TermUnNoDrafts | termun/utils.py:47-75 | with `removeDrafts`, termun and UNDOC_aligner return no record whose lowercased type contains `draft`, and short of the limit they return every record whose type does not |
| Symbols.TermSeekerReturns | termseeker/utils.py:50-82 | termseeker returns only records with `isMultiple` True; with `removeDrafts` none with `draft` in the type or `draft`/`letter` in the title; short of the limit, every record meeting those tests |
| Symbols.CleanRewrites | termseeker/utils.py:64-79 | a record rewritten once per time it is returned keeps its symbol when not returned, and ends with its symbol rewritten exactly once when returned from an input that lists each record once |
| Symbols.ChosenSpec | termseeker/utils.py:50-86 | the chosen indices increase and are a prefix of the kept ones; fewer than all kept are chosen only when the limit is reached |
| Symbols.CleanCount | termseeker/utils.py:47-86 | at most `max(1, min(maxResults, 50))` records come back, and all kept records when fewer than that are kept |
| Symbols.CleanOrder | termseeker/utils.py:50-82 | the `k`-th returned record is the input record at the `k`-th chosen index, and it passes the filters |
| Symbols.CleanNoSkip | termseeker/utils.py:50-86 | a record that passes the filters and lies before the last chosen one (or anywhere, when the limit is not reached) is returned |
| Symbols.TermSeekerDrops | termseeker/utils.py:51-62 | termseeker keeps only records with `isMultiple` true; with `removeDrafts` it drops exactly drafts by type and drafts or letters by title; it keeps no record that termun would drop |
| Symbols.CleanOnce | UNDOC_aligner/src/utils/clean_symbols.py:46-48 | when the input lists each record once, each returned record is returned once, so its symbol is rewritten exactly once |
| Symbols.RewriteUnchanged | UNDOC_aligner/src/utils/clean_symbols.py:33-41 | a symbol without `' - '`, `' ('` and `') '` is left as it is |
| Symbols.LastSegmentSpec | termun/utils.py:57-58 | when `' - '` occurs, the symbol keeps the last piece of its left-to-right split on `' - '`; the symbol ends with `' - '` followed by that piece, which contains no `' - '` |
| Symbols.TightenIsJoin | termun/utils.py:62-63 | the space removal is one left-to-right `' ('` to `'('` pass followed by one `') '` to `')'` pass |
| Urls.FormatPlain | src/utils/document_urls.py:24 | a text without braces formats to itself |
| Urls.FormatFirst | src/utils/document_urls.py:24 | the first placeholder takes the first argument, verbatim |
| Urls.FormatBaseUrl | src/utils/document_urls.py:20-24 | the template filled with a symbol and a code is the fixed address with the symbol after `DS=` and the code after `Lang=` |
| Urls.Url | src/utils/document_urls.py:20-24 | the address of a symbol and a code is the template formatted with them |
| Urls.LanguagesDistinct | src/utils/document_urls.py:11-18 | the six language names are distinct, and so are their one-letter codes |
| Urls.GetUnDocumentUrls | src/utils/document_urls.py:1-27 | the dictionary has exactly the keys Arabic, Chinese, English, French, Russian and Spanish, each mapped to the template filled with the symbol and that language's code |
| Urls.UrlInjective | src/utils/document_urls.py:24 | an address determines the symbol and the code it was built from |
| Urls.UrlsDiffer | src/utils/document_urls.py:11-24 | the addresses of one document differ from language to language |
| Equivalents.FindAllShortest | termseeker/utils.py:450-451 | no scraped term contains the closing tag (the lazy `.*?`) |
| Equivalents.FindAllSound | termseeker/utils.py:450-451 | every scraped term sits in the response between an opening and a closing tag |
| Equivalents.FindAllNoOpen | termun/utils.py:262-265 | a response without an opening tag yields `[]` |
| Equivalents.FindAllTagged | termun/utils.py:262-263 | when no term contains `<`, scraping terms written one tagged span after another, even across newlines, gives the terms back in order |
| Equivalents.GetEquivalentsRoundTrip | termseeker/utils.py:439-453 | when no term contains `<`, termseeker's scrape of `<equivalent>` spans returns the terms written into them |
| Equivalents.GetEquivalentTermsRoundTrip | termun/utils.py:251-265 | when no term contains `<`, termun's scrape of `<EQUIVALENTTERM>` spans returns the terms written into them |
| Consolidate.MergeFields | termseeker/utils.py:483-536 | the loop over a record's keys merges each key by its own rule into the group |
| Consolidate.GatherAll | termseeker/utils.py:468-536 | the grouping loop builds the first-seen order of terms and their merged groups |
| Consolidate.EmitAll | termseeker/utils.py:539-572 | the output loop emits one ordered record per term, in the gathered order |
| Consolidate.ConsolidateResults | termseeker/utils.py:455-572 | the whole function is the grouping followed by the emission; empty input gives `[]` |
| Consolidate.GatherMembers | termseeker/utils.py:470-476 | a term is grouped exactly when some record carries it as a non-empty `EnglishTerm` |
| Consolidate.GatherOrder | termseeker/utils.py:468-476 | the groups come out in the order their terms were first seen |
| Consolidate.ConsolidateShape | termseeker/utils.py:540-572 | one output record per grouped term, each opening with `EnglishTerm` set to its term |
| Consolidate.EmitIndex | termseeker/utils.py:540-570 | the `i`-th emitted record is the ordered record of the `i`-th term |
| Consolidate.ConsolidateEmptyIff | termseeker/utils.py:465-473 | the output is empty exactly when no record has a non-empty `EnglishTerm` |
| Consolidate.GatherField | termseeker/utils.py:468-536 | each field of a group is the fold of its rule over the contributions of that term's records, in input order |
| Consolidate.TermFirstWins | termseeker/utils.py:488-490 | a `*Term` field holds the first contribution, whatever follows |
| Consolidate.SynonymsPooled | termseeker/utils.py:493-504 | a `*Synonyms` field exists once a contribution is not None; its elements are exactly those contributed; a lone contribution stays a list, and from the second on the field is a set |
| Consolidate.ParagraphsPresent | termseeker/utils.py:507-526 | a `*Paragraphs` field exists exactly when some contribution is not None, and it is text |
| Consolidate.ParagraphsJoined | termseeker/utils.py:507-526 | the field is every contributed paragraph with its source suffix, joined by blank lines, with one extra leading blank line when the first contribution that is not None brought no paragraph |
| Consolidate.FormattedStamped | termseeker/utils.py:512-517 | every formatted paragraph ends with the ` (Source: <docSymbol> on <publicationDate>)` suffix |
| Consolidate.MetaCollects | termseeker/utils.py:529-536 | a metadata field starts with the first value, and every truthy value contributed occurs in it |
| Consolidate.MetaUniform | termseeker/utils.py:530-533 | records that all bring the same metadata value leave it as that value |
| Consolidate.MetaFold | termseeker/utils.py:529-536 | when every record brings a string, a metadata field is exactly the first string followed, each after a newline, by every later non-empty string that differs from the whole text collected before it |
| Consolidate.MetaRepeatsAfterChange | termseeker/utils.py:532-536 | a worked instance of MetaFold: the test compares with the whole accumulated text, so `A`, `B`, `A` becomes `A\nB\nA` |
| Consolidate.EmittedIffMerged | termseeker/utils.py:487-570 | a key is emitted exactly when one of the merge rules handles it |
| Consolidate.IgnoredNeverMerged | termseeker/utils.py:484-536 | keys of no class, `docURLs` among them, never enter a group |
| Consolidate.GroupKeysKept | termseeker/utils.py:484-536 | every key of a group is one that the emission keeps |
| Consolidate.GroupTermFirstWins | termseeker/utils.py:488-490 | a group has a `*Term` key exactly when one of its records does, holding the first record's value |
| Consolidate.Sorted | termseeker/utils.py:548-562 | `sorted` of a set of names: the same names, each once, in strictly increasing code-point order |
| Consolidate.KeyOrder | termseeker/utils.py:539-572 | the record opens with `EnglishTerm`, lists exactly the kept keys of the group with their values, and puts them in class order |
| Consolidate.OrderedKeysExact | termseeker/utils.py:546-570 | the keys emitted after `EnglishTerm` are exactly the group's keys, other than `EnglishTerm`, that are kept |
| Consolidate.OrderedKeysOrdered | termseeker/utils.py:546-570 | `EnglishTerm`, then the other `*Term` keys sorted, the `*Synonyms` keys sorted, `EnglishParagraphs`, the other `*Paragraphs` keys sorted, then `docSymbol`, `publicationDate`, `docType`, `docTitle` |
| Consolidate.FixedRanks | termseeker/utils.py:558-570 | `EnglishParagraphs` has the paragraphs' rank and the four metadata keys follow one another |
| Consolidate.SuffixesExclusive | termseeker/utils.py:488-507 | a name ending in `Synonyms` or `Paragraphs` does not end in `Term`, so the `elif` chain sees each class once |
| UNTerm.LanguagesDistinct | termun/askTermBases.py:205-220 | the six language names are distinct, and the five synonym languages are among them |
| UNTerm.SelectMembers | termun/askTermBases.py:226-295 | a priority pass visits exactly the rows that meet the priority, in data order |
| UNTerm.PrioritiesOverlap | termun/askTermBases.py:226-295 | no row meets both priority 1 and 2, and every row meeting either also meets priority 5 |
| UNTerm.FillMain | termun/askTermBases.py:246-258 | a row fills every unfilled language it has a candidate for, preferred before admitted, and leaves filled ones alone |
| UNTerm.MainStep | termun/askTermBases.py:243-262 | one row moves the main state forward: each main term is the first candidate so far, and the source is the first row that filled something |
| UNTerm.MainPass | termun/askTermBases.py:243-262 | one priority pass extends the main state by the rows of that priority |
| UNTerm.MainPhase | termun/askTermBases.py:238-262 | after both passes each main term is the first candidate among the priority-1 rows and then the priority-2 rows |
| UNTerm.AddNewMembers | termun/askTermBases.py:302-307 | the append loop adds exactly the non-empty terms that are not the main term and not excluded, keeps what was there, and adds no duplicate |
| UNTerm.AdmittedMembers | termun/askTermBases.py:302-307 | the admitted terms of some rows are exactly those some row admits |
| UNTerm.OfferedMembers | termun/askTermBases.py:311-320 | the offered terms of some rows are exactly the preferred and admitted terms of some row |
| UNTerm.AppendNew | termun/askTermBases.py:305-307 | the loop computes the collecting function |
| UNTerm.RowSynonyms | termun/askTermBases.py:300-307 | one priority-1/2 row adds its admitted terms to each language's synonyms |
| UNTerm.RowSimilar | termun/askTermBases.py:310-320 | one priority-3/4/5 row adds its preferred and admitted terms to each language's similar terms |
| UNTerm.SynonymPass | termun/askTermBases.py:297-308 | a priority-1/2 pass extends the synonym state by the rows of the priority |
| UNTerm.SimilarPass | termun/askTermBases.py:297-320 | a priority-3/4/5 pass extends the similar-terms state by the rows of the priority |
| UNTerm.SynonymPhase | termun/askTermBases.py:296-320 | the five passes give the synonym lists of the priority-1/2 rows and the similar lists of the priority-3/4/5 rows |
| UNTerm.InitGroups | termun/askTermBases.py:216-220 | every synonym language starts with empty `Synonyms` and `Similar` |
| UNTerm.ConsolidateUNTermResults | termun/askTermBases.py:191-322 | the whole function computes the consolidated specification |
| UNTerm.ConsolidateKeys | termun/askTermBases.py:205-220 | the result always has the six language keys and the five synonym groups |
| UNTerm.FirstPickSpec | termun/askTermBases.py:246-258 | no candidate exactly when no row has one; otherwise the candidate of the first row that has one |
| UNTerm.MainTermPriority | termun/askTermBases.py:238-258 | a main term comes from the priority-1 rows if any of them has one, otherwise from the priority-2 rows, otherwise it stays `""` |
| UNTerm.MainTermSource | termun/askTermBases.py:226-258 | a non-empty main term is the candidate of a row meeting priority 1 or 2, and the term stays `""` when no such row has one |
| UNTerm.FirstSourceSpec | termun/askTermBases.py:261-262 | `UNTerm_Source` is None exactly when no row has a candidate, and otherwise it is the source of the first row that has one |
| UNTerm.SynonymsRule | termun/askTermBases.py:302-308 | synonyms are distinct, and they are exactly the non-empty admitted terms of priority-1/2 rows other than the main term |
| UNTerm.SimilarRule | termun/askTermBases.py:311-320 | similar terms are distinct, disjoint from the synonyms, and exactly the non-empty terms of priority-3/4/5 rows other than the main term and the synonyms |
| UNTerm.ReportMissingTranslations | termun/askTermBases.py:160-189 | the report holds the scans of the main terms and of the synonym groups |
| UNTerm.ScanPreferred | termun/askTermBases.py:178-180 | the loop lists the languages whose main term is missing or empty |
| UNTerm.ScanSynonyms | termun/askTermBases.py:183-187 | the loop lists the languages whose synonym group exists with no synonym |
| UNTerm.MissingPreferredRule | termun/askTermBases.py:178-180 | a language is reported exactly when it is listed and its value is missing or `""`, in the listed order |
| UNTerm.MissingSynonymsRule | termun/askTermBases.py:183-187 | a language is reported exactly when its group exists and its synonym list is empty, in the listed order |
| UNTerm.ReportOnConsolidated | termun/askTermBases.py:178-187 | on a consolidated result, a language misses its main term exactly when its main term is `""`, and misses synonyms exactly when it has none |

## Left out

- The embedding model, cosine similarity and top-k selection of `find_similar_paragraph_in_target` (termseeker/utils.py:322-335) are left out: they are floating point and numpy. Only the normalisation loop is modelled.
- The Excel export of `consolidate_results` is left out, because it is file I/O.
- The library search, the HTML scraping, the UNTERM and FAO queries, the document conversion, the language-model calls, language detection, the CLI and `sanitize_filename` are left out. They are network, file and foreign-library code.
- src/utils/bilingual_aligner.py is not part of this model: its only pure function is the tag scrape of termun/utils.py, which is modelled.
- `str.lower` and `\d` are ASCII stand-ins: `Lower` folds `A`-`Z` only and `IsDigit` accepts `0`-`9`. Unicode digits and Unicode case folding are not modelled. `IsSpace` is not a stand-in: it is exactly the set of characters for which Python's `str.isspace` holds, which is also what `\s`, `strip` and `split()` use on `str`.
- Symbols.CleanSymbols: the counters and the `print` at the end feed only a log line and are left out. So is `int(maxResults)` on a non-integer; `maxResults` is an `int`.
- Symbols.DocItem: the fields the filters read are constants, because the source never writes them. `isMultiple` is True, False or None. The source's `== False or == None` test for other Python values is not modelled.
- Consolidate.Sorted: code-point order only. It stands for `sorted` over key names, and equal names cannot occur in a key set.
- Consolidate: a record is a map from key to value. The Python dict order of a record's keys changes no result, because each key is merged by its own rule. The output order of keys is modelled by the ordered record.
- Consolidate.SynonymsPooled: from the second contribution on, the synonyms are a set, because the order of `list(set(...))` depends on hashing. The model makes no claim about the order of that list.
- Consolidate.SynonymsPooled: the `TypeError` that `list(set(...))` raises on an unhashable element (a list, a dict, or a tuple holding one) is not modelled (termseeker/utils.py:504). The model pools such elements like any other. The caller passes synonym lists of strings (termseeker/getcandidates.py:289).
- Consolidate: the source stores the first synonyms list by reference and then extends it, so the input records can change. The model works on values and does not model that aliasing. It also makes no claim that running the consolidation twice gives the same result: a `*Paragraphs` field that is already text formats to `""` on a second run.
- Consolidate.MetaCollects: states that the first value starts the field and that every truthy value occurs in it, for values of any type. The exact text is stated by MetaFold only when every contribution is a string; for list values it is shown only through MetaCollects and MetaUniform.
- Consolidate.Quote: `repr` of a string is modelled as the string between single quotes. Python switches to double quotes when the string contains `'` and no `"`, and escapes backslashes, newlines and other control characters; a synonym text with such characters is shown differently by the source.
- Consolidate.KeyOf: a record whose `EnglishTerm` is a non-empty list is skipped. The source raises `TypeError` there, because a list cannot be a dictionary key (termseeker/utils.py:476). That error path is not modelled; a `None`, empty or missing term is skipped as in the source.
- Consolidate: `repr` of a non-string synonym or metadata value is approximated by a shown text carried with the value. `str()` of a tuple paragraph is modelled only through its first element, as the source formats it.
- UNTerm: rows are modelled in the shape the consolidator reads (`row[lang]["preferred"/"admitted"]`, `row["UNTerm_Source"]`), not the shape `queryUNTerm` builds. A missing `preferred` or `admitted` list is empty. The `<Lang>Synonyms` entries are keyed by the language itself.
- UNTerm: the `len(filled_languages) == len(result) - 1` exit is not modelled, because it can never fire.
- Urls.Format: `str.format` is modelled for `{}` placeholders only. The template has no other braces.
- Segmenter.FindParagraphsWithMerge: `max_paragraphs` is an `Option<int>`, None meaning no limit. In LegacySegmenter it is an `int`, since those copies compare it with a number without a None case.
