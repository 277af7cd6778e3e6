# poe-clip-translate, modelled in Dafny

The repository has two small cores, modelled here as separate modules.

- **The item-text translator** (`main.go`) turns a Path of Exile item tooltip
  copied in Japanese into English, one line at a time. It looks words up in a
  dictionary with a first-match reverse search (Japanese to English). It builds
  item names from the first affix that starts the text and the first affix that
  ends it. It sorts each line into one of four kinds: a stat (`name: value`), a
  label (`name:`), a divider (`--------`) or other text. Other text is tried as
  a mod, then as a dictionary word, then as an affixed name. A one-bit state
  machine drops the divider that follows the line naming the item's rarity.
- **The table merger** (`dataParser/makedict.py`) merges exported game tables,
  one record list per language. It picks a merge key (`Id` if the first primary
  record has one, otherwise `Text`). It walks the primary language's records in
  order. For each other language it finds the first record with the same key
  value. It keeps only the configured columns. A language with no matching
  record is reported and left out of that entry.

Files:

- `seqs.dfy`, module `Seqs`: `Option` and `FirstIndex`, the first-match scan
  that every lookup here is built on.
- `gostrings.dfy`, module `GoStrings`: the parts of Go's `strings` package the
  translator uses (`Index`, `Contains`, `HasPrefix`, `HasSuffix`, `Split`),
  over `seq<char>`. It also has `Join`, the inverse of `Split`.
- `translator.dfy`, module `Translator`: `main.go`.
- `makedict.dfy`, module `MakeDict`: `dataParser/makedict.py`.

The source's loops are Dafny methods. Each method is proved equal to a
specification function, and the properties are proved about those functions:
`SearchDict`, `SearchAffix`, `SplitLines`, `TranslateLines` (the loop of
`translate`), `Find`, `MergeItem` and `MergeTable`. `translateLine`, `isPOEItem` and `extract` are pure, so they are
functions. The global word lists `dictionary` and `affixes` are parameters of
type `seq<Pair>`. The regular-expression stat matcher `search_mods` is the
parameter `mods: string -> string`. The Python exceptions the merge can raise
on its data are values of a `Result`: `KeyError(key)` for a missing field or
column, and `IndexError` for an empty primary list. The `print("ERROR")` for a
missing translation is a `MissingTranslation(row, language)` report, returned
in order.

## Model

| member | source | states |
|---|---|---|
| Seqs.FirstIndex | main.go:122-127 | the index of the first element that satisfies the predicate, with none before it satisfying it; None only when no element does |
| GoStrings.Split | main.go:96 | strings.Split on a non-empty separator: at least one piece, and more than one exactly when the separator occurs |
| GoStrings.SplitJoin | main.go:96 | joining the pieces with the separator gives back the original text |
| GoStrings.SplitPartsFree | main.go:100 | no piece of a split contains the separator |
| Translator.Lookup | main.go:121-128 | search_dict: the English of the first pair whose Japanese equals the word; the word itself when no pair matches |
| Translator.SearchDict | main.go:121-128 | the early-exit scan returns exactly Lookup's result |
| Translator.Affix | main.go:156-175 | search_affix as a function of the affix list and the text; its behaviour is stated by AffixFirstMatches and SearchAffix is proved equal to it |
| Translator.AffixFirstMatches | main.go:156-175 | search_affix returns the text unchanged unless some affix starts it and some affix ends it; otherwise it returns the English of the first starting affix followed by the English of the first ending affix, which may be the same pair |
| Translator.SearchAffix | main.go:156-175 | the two early-exit scans with their prefix and suffix results return exactly Affix's result |
| Translator.TranslateLine | main.go:93-119 | translateLine as a function of the word lists, the mod matcher and the line; its four cases are stated by StatLineTranslation, LabelLineTranslation, DividerLineUnchanged and TextLineFallback |
| Translator.StatLineTranslation | main.go:94-97 | a line whose first ": " is at i translates to the looked-up text before i, then ": ", then the looked-up text up to the next ": " or the end of the line; a third or later part is dropped |
| Translator.LabelLineTranslation | main.go:98-101 | a line with ":" but no ": " translates to the looked-up text before the first colon followed by ":"; everything after that colon is dropped |
| Translator.DividerLineUnchanged | main.go:102-104 | a line holding "--------" and no ":" is returned unchanged |
| Translator.TextLineFallback | main.go:105-117 | other text gives the mod matcher's result if it changes the line, else the dictionary result if that changes the line, else the affix result |
| Translator.IsPoeItem | main.go:177-179 | true exactly when the text contains アイテムクラス somewhere |
| Translator.ScanLines | main.go:215-222 | the lines a bufio scanner returns for the text; stated by ScanLinesNoNewline, ScanLinesRoundTrip and UnlinesScanLines, and SplitLines is proved equal to it |
| Translator.SplitLines | main.go:215-222 | the scanner loop returns ScanLines(text): each newline-terminated line without its trailing carriage return, then the unterminated rest if it is not empty |
| Translator.ScanLinesNoNewline | main.go:215-222 | no scanned line contains a newline character |
| Translator.ScanLinesRoundTrip | main.go:215-222 | for text without carriage returns, writing each scanned line back followed by a newline gives the text, with a final newline added if it lacked one |
| Translator.UnlinesScanLines | main.go:87 | lines with no newline and no trailing carriage return, each written followed by a newline, scan back to the same lines |
| Translator.FlagBefore | main.go:77-86 | the skip flag of translate before line k; characterised by FlagBeforeIff |
| Translator.Kept | main.go:78-88 | the translations translate emits for the lines before n; stated by KeptBounds, SkippedIff and TranslateLineCount, and TranslateLines is proved to write them out |
| Translator.KeptBounds | main.go:78-88 | the emitted translations are at most as many as the input lines, each is the translation of some input line, and all lines are emitted when none is a divider |
| Translator.TranslateStep | main.go:79-87 | one pass of the loop: a divider met while the flag is set clears the flag and adds nothing; any other line appends its translation and "\n", and sets the flag when the translation contains "Rarity:" |
| Translator.TranslateLines | main.go:76-90 | the loop over the scanned lines, for any per-line translator, returns the translations of exactly the lines that are not skipped, in order, each followed by "\n" |
| Translator.Translate | main.go:74-91 | translate: the text is scanned into lines and the loop is run with translateLine as the per-line translator, so the output is the kept translations of ScanLines(text) |
| Translator.FlagBeforeIff | main.go:77-86 | the skip flag is set before line k exactly when an earlier kept line translated to text containing "Rarity:" and no divider line has come since |
| Translator.SkippedIff | main.go:79-82 | a line is dropped exactly when it contains "--------" and is the first such line after a kept line translated to a "Rarity:" line; no other line is ever dropped, and each such line resets the flag |
| Translator.TranslateLineCount | main.go:74-91 | when no translation contains a newline or ends in a carriage return, the output reads back as exactly the kept translations, so it has no more lines than the input |
| MakeDict.Extract | dataParser/makedict.py:57-58 | on success the result's keys are exactly the columns and each value equals the record's value; it fails with KeyError of the first missing column exactly when some column is missing |
| MakeDict.FindResult | dataParser/makedict.py:50-54 | find: the first record whose field equals the value; None only when every record has the field with another value; KeyError when a record lacking the field comes before any match |
| MakeDict.Find | dataParser/makedict.py:50-54 | the early-return loop returns exactly FindResult's result |
| MakeDict.KeyField | dataParser/makedict.py:29-32 | the merge key is "Id" exactly when the first primary record has an "Id" field, otherwise "Text"; an empty primary list raises IndexError |
| MakeDict.Counterpart | dataParser/makedict.py:39-41 | for one secondary language: present exactly when some record has the same key value, and then the extracted columns of the first such record |
| MakeDict.FillEntry | dataParser/makedict.py:38-43 | the inner loop over the secondary languages from a partial entry; stated by FillEntryContents and FillEntrySucceeds |
| MakeDict.BuildEntry | dataParser/makedict.py:36-44 | the entry and missing languages for one primary record; stated by BuildEntryContents, and MergeItem is proved equal to it |
| MakeDict.MergeItem | dataParser/makedict.py:36-44 | the loop body for one primary record returns exactly BuildEntry's entry and missing languages |
| MakeDict.MergeRows | dataParser/makedict.py:34-44 | entries and reports for a prefix of the primary records; stated by MergeAborts, MergeRowsLength, MergeRowsEntryAt, MergeRowsEntries and MergeRowsReports |
| MakeDict.Merge | dataParser/makedict.py:29-44 | the merged table for the per-language record lists; stated by MergeContents and MergeSucceeds, and MergeTable is proved equal to it |
| MakeDict.MergeAborts | dataParser/makedict.py:34-44 | once processing a record raises, the whole table raises the same error |
| MakeDict.MergeTable | dataParser/makedict.py:29-44 | the per-table loop returns exactly Merge's entries and reports |
| MakeDict.FillEntryContents | dataParser/makedict.py:38-43 | each secondary language is filled in exactly when it has a counterpart, with that counterpart's columns, and is reported missing otherwise; the languages not scanned are untouched |
| MakeDict.BuildEntryContents | dataParser/makedict.py:36-44 | one entry holds the primary record's columns under the primary language, each other language exactly when it has a counterpart (the columns of the first one), and no other key; its missing list is the secondary languages it lacks |
| MakeDict.MergeRowsLength | dataParser/makedict.py:34-44 | a merge that raises nothing has exactly one entry per primary record |
| MakeDict.MergeRowsEntryAt | dataParser/makedict.py:34-44 | entry i of a merge that raises nothing is the entry built from primary record i alone: no other record affects it |
| MakeDict.MergeRowsEntries | dataParser/makedict.py:34-44 | exactly one entry per primary record, in primary order, each agreeing with its record |
| MakeDict.MergeRowsReports | dataParser/makedict.py:42-44 | a report names row i and language l exactly when l is a secondary language that entry i lacks: a missing match leaves out only that language's value and the entry is still appended |
| MakeDict.MergeContents | dataParser/makedict.py:29-44 | the full table: key field chosen from the first primary record, one agreeing entry per primary record in order, reports exactly for the gaps; an empty primary list raises IndexError |
| MakeDict.LanguagesDistinct | dataParser/makedict.py:8 | the script's two languages are distinct, so the content lemmas apply to it |
| MakeDict.MergeSucceeds | dataParser/makedict.py:29-44 | the merge raises nothing when the primary list is not empty and every record of every language has the key field and every column |

## Left out

- Clipboard `Init`, `Watch` and `Write`, the goroutines and channel of `clipboard_watcher` and `translater`, and the stdin exit loop of `main` (main.go:30-72): operating-system I/O and concurrency.
- `loadData` (main.go:181-213): file reads and JSON decoding. The word lists are parameters.
- `search_mods` (main.go:130-154): regular-expression construction and matching belong to Go's regex engine. The model takes the stat matcher as an abstract function `mods`. The `stats` list is used only there.
- Translator.SplitLines: the scanner's 64 KB token limit is not modelled. A longer line ends the real scan early; the model scans it like any other.
- Go strings are UTF-8 bytes and the model works on characters. For valid UTF-8 the substring, prefix and suffix relations are the same either way. Behaviour on invalid UTF-8 is not modelled.
- GoStrings.Split models only a non-empty separator, because the translator only splits on ": " and ":".
- Directory creation, reading `config.json` and the table files, and writing the merged JSON (dataParser/makedict.py:12-27, 46-47) are left out. The per-language record lists are the in-memory map `data`.
- Record values are modelled as strings. Exported JSON may hold numbers or lists; such values are compared by equality in the same way.
- MakeDict.MergeTable: the language list is a parameter instead of the constant `["English", "Japanese"]`. The content lemmas require the languages to be distinct; MakeDict.LanguagesDistinct proves that the constant `MakeDict.Languages` is.
- MakeDict.MergeTable: an error stops only the table being merged. The script stops the whole run, so later tables are not written. `ERROR` lines printed before a crash are not part of an `Err` result.
- Python's `if found:` tests truthiness. A found record always holds the key field, so it is never empty and always true; the model tests for `Some`.
- Records and entries are Dafny maps, which have no key order. The model does not keep the order of the keys of a merged entry (primary language first, then the languages found) or of the columns `extract` builds, which `json.dumps` writes out (dataParser/makedict.py:47, 57-58).
