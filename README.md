# Excel row-splitting scripts, modelled in Dafny

Three scripts read one worksheet into a table, find the email and office columns by
case-insensitive, whitespace-stripped header name, and write the rows that match some
patterns to new sheets after an "Original Data" sheet:

- `FilterExcel.py` takes one email pattern and one office pattern from two dialogs and
  writes a single "Filtered <office>" sheet (module `FilterSingle`);
- `FilterExcel_multi.py` collects any number of (email, office) filters from a dialog loop
  and writes one sheet per filter, with sanitised and de-duplicated sheet names (module
  `FilterMulti`). Its header comment (lines 7-8) also promises duplicate highlighting and
  a remainder sheet, but its code does neither, so `FilterMulti` models neither;
- `FilterExcel_multiBU.py` applies thirteen hard-coded rules, each a list of (email, office)
  pairs. It writes one sheet per rule and a remainder sheet of the rows no rule matches. In
  every rule sheet it records the rows whose normalised Name occurs more than once
  (module `FilterMultiBU`).

The shared parts are modelled once:

- `Text`: Python whitespace, ASCII lower-casing, `strip`, `split`/`join`, substring search
  and decimal numerals.
- `DataFrame`: the table, `astype(str)` on cells, the column lookup and the boolean masks.
- `SheetNames`: `sanitize_sheet_name`, the " (2)", " (3)", ... name allocation loop and
  the order in which sheets are named.
- `Duplicates`: `normalize_name`, `duplicated(keep=False)` and the recorded row numbers.

A table is a header row plus data rows of optional cells; a row is identified by its index.
A written sheet is its name plus the indices of the rows it holds, in table order. The
dialogs of `FilterExcel_multi.py` are a finite sequence of answers; the dialogs of
`FilterExcel.py` are two optional strings (`None` for a cancelled dialog).

Main results:

- Each rule sheet holds exactly the rows its rule matches.
- The remainder sheet holds exactly the rows no rule sheet holds.
- Every sheet name is non-empty, differs from "Original Data" and from every other sheet
  name. It is the least free name of the form `base`, `base (2)`, `base (3)`, ...
- The sanitiser yields at most 31 characters, none of `: \ / ? * [ ]`, only single
  spaces and no leading apostrophe. It leaves a name that is already clean unchanged: at
  most 31 characters, no forbidden character, no outer whitespace or apostrophe, and
  single plain spaces. A name Excel would accept can still change: "Q1  Sales" becomes
  "Q1 Sales". It can leave an outer space: apostrophes are stripped after whitespace,
  so "' a '" gives " a ". Sanitising again gives "a", so it is not idempotent. The
  corrected sanitiser also never ends in an apostrophe.
- A row is flagged as a duplicate exactly when its key is non-empty and occurs at least
  twice on the sheet. No sheet ever has exactly one flagged row.
- The workbook follows the scripts as written. Sheet names come from the sanitiser as
  written. The recorded duplicate rows are the script's own row numbers, with an empty
  Name keyed as "nan". The corrected definitions under "## Findings" stand beside them.
- The filter dialog loop yields a non-empty list of stripped filters, never with both
  patterns empty, or ends the run when it is cancelled before the first filter. The list
  is exactly the stripped entries of the rounds up to the one that ends the loop.
- `" ".join(s.split())` and `split()` are inverse on words: splitting the join gives the
  words back, and a text without outer or repeated whitespace is the join of its words.
  `normalize_name` is therefore the join of the lower-cased, punctuation-free words, and
  two names share a key exactly when those words agree.
- In `FilterExcel_multi.py` and `FilterExcel_multiBU.py` matching ignores ASCII letter
  case on both sides: patterns that differ only in case select the same rows.
  `FilterExcel.py` lower-cases only the cells and matches the answer as entered, so an
  answer with an upper-case letter matches no row.

## Model

| member | source | states |
|---|---|---|
| Text.LowerChar | ExcelScripts/FilterExcel_multiBU.py:38 | the lower-cased character is never upper-case and keeps whether it is whitespace; an upper-case letter becomes the lower-case letter at the same place in the alphabet, and any other character is left alone |
| Text.Lower | ExcelScripts/FilterExcel_multiBU.py:38 | `str.lower` keeps the length and lower-cases every position on its own |
| Text.LowerIgnoresCase | ExcelScripts/FilterExcel_multi.py:158-160 | two texts that differ only in ASCII letter case lower-case to the same text |
| Text.TrimStart | ExcelScripts/FilterExcel_multiBU.py:124-125 | the result is a suffix of the input that starts with a kept character, and every character dropped is one of the stripped set |
| Text.TrimEnd | ExcelScripts/FilterExcel_multiBU.py:124-125 | the result is a prefix of the input that ends with a kept character, and every character dropped is one of the stripped set |
| Text.Strip | ExcelScripts/FilterExcel_multiBU.py:40 | `strip` cuts the text at one offset: the result is a slice whose two ends are kept characters, and every character before or after the slice is one of the stripped set |
| Text.StrippedIsUnique | ExcelScripts/FilterExcel_multiBU.py:40 | that description fixes the result: two strings that both satisfy it for the same text and set are equal |
| Text.StripSpaces | ExcelScripts/FilterExcel_multiBU.py:40 | `str.strip()` leaves no outer whitespace and invents no character |
| Text.StripSpacesIsStripped | ExcelScripts/FilterExcel_multiBU.py:40 | `str.strip()` removes exactly the outer whitespace of the text |
| Text.CollapseSpaces | ExcelScripts/FilterExcel_multiBU.py:124 | `re.sub(r'\s+', ' ', s)` leaves no two adjacent whitespace characters and keeps every non-whitespace character, in order; it is empty only for the empty input; it starts with a space exactly when the input starts with whitespace; every character is a space or comes from the input |
| Text.CollapseSpacesLast | ExcelScripts/FilterExcel_multiBU.py:124 | a trailing whitespace run leaves one space at the end, and the result ends in a space only after such a run |
| Text.CollapseSpacesKeepsSingleSpaced | ExcelScripts/FilterExcel_multiBU.py:124 | collapsing a text with no two adjacent whitespace characters leaves it unchanged |
| Text.CollapseSpacesSameWords | ExcelScripts/FilterExcel_multiBU.py:124 | collapsing whitespace runs leaves the words of `split()` unchanged |
| Text.WordLength | ExcelScripts/FilterExcel_multiBU.py:42 | the first word is a whitespace-free prefix, of length at least one when the text starts with a non-space |
| Text.WordLengthMaximal | ExcelScripts/FilterExcel_multiBU.py:42 | the first word runs to the end of the text or to the next whitespace character |
| Text.SplitWords | ExcelScripts/FilterExcel_multiBU.py:42 | `str.split()` yields only non-empty words without whitespace |
| Text.SplitWordsNonSpace | ExcelScripts/FilterExcel_multiBU.py:42 | the words of `str.split()`, put together, are exactly the non-whitespace characters of the text, in order |
| Text.SplitWordsTrailing | ExcelScripts/FilterExcel_multiBU.py:42 | trailing whitespace adds no word |
| Text.SplitWordsStrip | ExcelScripts/FilterExcel_multiBU.py:40-42 | `split()` after `strip()` gives the same words as `split()` alone |
| Text.SplitWordsChars | ExcelScripts/FilterExcel_multiBU.py:42 | every character of every word comes from the text split |
| Text.JoinWords | ExcelScripts/FilterExcel_multiBU.py:42 | `" ".join(words)` keeps the non-whitespace characters of the words, in order |
| Text.JoinWordsNormal | ExcelScripts/FilterExcel_multiBU.py:42 | joining whitespace-free non-empty words with one space gives a text with no outer whitespace and no two adjacent whitespace characters, whose other characters come from the words |
| Text.SplitJoinRoundTrip | ExcelScripts/FilterExcel_multiBU.py:42 | splitting the single-space join of non-empty, whitespace-free words gives back exactly those words |
| Text.JoinSplitOfNormal | ExcelScripts/FilterExcel_multiBU.py:42 | a text with no outer and no adjacent whitespace is the single-space join of its own words |
| Text.NormalFormIsUnique | ExcelScripts/FilterExcel_multiBU.py:42 | two texts with no outer and no adjacent whitespace and the same words are equal |
| Text.NormalizeSpaces | ExcelScripts/FilterExcel_multiBU.py:42 | `" ".join(s.split())` has no outer whitespace and no two adjacent whitespace characters, has the same words as the input, and keeps every non-whitespace character of the input, in order |
| Text.Decimal | ExcelScripts/FilterExcel_multi.py:169 | the decimal numeral of a number is a non-empty string of digits without a leading zero, with at least two digits from 10 on |
| Text.DecimalInjective | ExcelScripts/FilterExcel_multiBU.py:250 | different numbers have different numerals |
| Text.DecimalReadsBack | ExcelScripts/FilterExcel_multiBU.py:250 | reading the numeral back as a decimal number gives the number |
| DataFrame.StripHeaders | ExcelScripts/FilterExcel_multiBU.py:183 | `df.columns.str.strip()` strips every header and keeps their number |
| DataFrame.HeaderKeys | ExcelScripts/FilterExcel_multiBU.py:183-184 | the lookup key of each column is its stripped header, lower-cased |
| DataFrame.CellText | ExcelScripts/FilterExcel_multiBU.py:271 | `astype(str)` reads an empty cell as "nan" and any other cell as its text |
| DataFrame.LowerCols | ExcelScripts/FilterExcel_multiBU.py:184 | the dict comprehension has a key for exactly the header keys present, and maps each to its last column |
| DataFrame.ResolveColumns | ExcelScripts/FilterExcel_multiBU.py:183-195 | column resolution fails exactly when the email or the office key is missing; the error lists the missing lower-case names in order; otherwise each resolves to the last column carrying its key |
| DataFrame.OptionalColumn | ExcelScripts/FilterExcel_multiBU.py:196-197 | `lower_cols.get` finds nothing exactly when no header carries the key, otherwise the last column that does; the script computes this for the Name column but never uses the result, and duplicate detection looks the column up per sheet (NameColumn) |
| DataFrame.ContainsMask | ExcelScripts/FilterExcel.py:55-56 | one flag per row: the lower-cased cell text, with an empty cell read as "nan", contains the pattern |
| DataFrame.PatternHitIgnoresCase | ExcelScripts/FilterExcel_multi.py:157-160 | patterns that differ only in ASCII letter case hit the same rows |
| DataFrame.OrMask | ExcelScripts/FilterExcel_multiBU.py:238 | `a \| b` flags a row exactly when either mask does |
| DataFrame.NotMask | ExcelScripts/FilterExcel_multiBU.py:284 | `~a` flags a row exactly when `a` does not |
| DataFrame.NoRows | ExcelScripts/FilterExcel_multiBU.py:212 | `pd.Series(False, index=df.index)` flags no row |
| DataFrame.Select | ExcelScripts/FilterExcel_multiBU.py:243 | `df[mask]` keeps exactly the flagged rows, in increasing table order |
| SheetNames.ReplaceForbidden | ExcelScripts/FilterExcel_multiBU.py:123 | every forbidden character becomes a space, every other character stays, and none of `: \ / ? * [ ]` remains |
| SheetNames.StripIsSlice | ExcelScripts/FilterExcel_multiBU.py:124-125 | stripping cuts out a contiguous slice of the text |
| SheetNames.StripUnchanged | ExcelScripts/FilterExcel_multiBU.py:124-125 | stripping a text whose ends are kept characters leaves it unchanged |
| SheetNames.StripKeepsClean | ExcelScripts/FilterExcel_multiBU.py:124-125 | stripping keeps a text free of forbidden characters and of adjacent whitespace |
| SheetNames.CleanSpaces | ExcelScripts/FilterExcel_multiBU.py:123-124 | after replacing and collapsing, the name has no forbidden character, no outer whitespace and no two adjacent whitespace characters |
| SheetNames.CleanSpacesKeepsCleanName | ExcelScripts/FilterExcel_multiBU.py:123-124 | a stripped, single-spaced name without forbidden characters goes through unchanged |
| SheetNames.CleanSpacesSameWords | ExcelScripts/FilterExcel_multiBU.py:123-124 | cleaning keeps the words and the non-whitespace characters of the name after replacement |
| SheetNames.CleanSpacesIsNormalizeSpaces | ExcelScripts/FilterExcel_multiBU.py:123-124 | replacing, collapsing and stripping is `" ".join(s.split())` of the replaced name |
| SheetNames.StripApostrophes | ExcelScripts/FilterExcel_multiBU.py:125 | `strip("'")` removes exactly the outer apostrophes, leaves none at either end and keeps the text clean |
| SheetNames.Truncate | ExcelScripts/FilterExcel_multiBU.py:126 | `name[:31]` is a prefix of at most 31 characters: the whole name when it fits, otherwise exactly 31 characters |
| SheetNames.SanitizeAsWritten | ExcelScripts/FilterExcel_multiBU.py:113-126 | the sanitiser as written: "" for `None`; at most 31 characters; no forbidden character; single spaces; no leading apostrophe |
| SheetNames.SanitizeSheetName | ExcelScripts/FilterExcel_multiBU.py:113-126 | the sanitiser as its documentation promises: additionally no trailing apostrophe |
| SheetNames.SanitizeAsWrittenOfPlainName | ExcelScripts/FilterExcel_multiBU.py:121-126 | a non-empty name without whitespace, forbidden characters or outer apostrophes is only truncated |
| SheetNames.TruncationCanLeaveTrailingApostrophe | ExcelScripts/FilterExcel_multiBU.py:118-126 | any long plain name whose 31st character is an apostrophe comes out of the sanitiser as written ending in an apostrophe, and out of the corrected sanitiser without one |
| SheetNames.TruncationLeavesTrailingApostrophe | ExcelScripts/FilterExcel_multi.py:22-34 | a concrete 32-character name exhibits the trailing apostrophe |
| SheetNames.SanitizeAsWrittenKeepsCleanName | ExcelScripts/FilterExcel_multiBU.py:113-126 | a name that is already clean (at most 31 characters, no forbidden character, no outer whitespace or apostrophe, single plain spaces) goes through the sanitiser as written unchanged |
| SheetNames.SanitizeKeepsCleanName | ExcelScripts/FilterExcel_multiBU.py:113-126 | the corrected sanitiser leaves a name that is already clean (at most 31 characters, no forbidden character, no outer whitespace or apostrophe, single plain spaces) unchanged |
| SheetNames.SanitizeIsNotIdempotent | ExcelScripts/FilterExcel_multiBU.py:123-126 | neither sanitiser is idempotent: "' a '" gives " a ", and " a " gives "a" |
| SheetNames.Suffixed | ExcelScripts/FilterExcel_multiBU.py:250 | a suffixed name starts with the base followed by " (", ends with ")" and differs from the base |
| SheetNames.SuffixedInjective | ExcelScripts/FilterExcel_multiBU.py:250 | different suffixes give different candidate names |
| SheetNames.SuffixedReadsBack | ExcelScripts/FilterExcel_multiBU.py:250 | the characters between " (" and the closing ")" are digits that read back as the suffix |
| SheetNames.SuffixedExample | ExcelScripts/FilterExcel_multiBU.py:250 | the base "GBI" with suffix 2 gives "GBI (2)" |
| SheetNames.AllocatedNameUnique | ExcelScripts/FilterExcel_multiBU.py:247-251 | the allocated name is determined by the base and the names in use |
| SheetNames.FreshCandidate | ExcelScripts/FilterExcel_multiBU.py:249-251 | each new candidate differs from all rejected ones |
| SheetNames.AllocationStep | ExcelScripts/FilterExcel_multiBU.py:249-251 | rejecting a candidate advances the loop and strictly grows the set of rejected names, which stays within the names in use plus "" |
| SheetNames.AllocateSheetName | ExcelScripts/FilterExcel_multiBU.py:246-252 | the loop terminates with a non-empty name not in use: the base when it is free, otherwise the base with the least free suffix from 2 on |
| SheetNames.Elems | ExcelScripts/FilterExcel_multiBU.py:252 | the set of names used holds exactly the names in the list |
| SheetNames.AllocatedInOrderStep | ExcelScripts/FilterExcel_multiBU.py:218-252 | allocating one more sheet name against every name used so far extends the allocation order |
| SheetNames.AllocatedNamesDistinct | ExcelScripts/FilterExcel_multiBU.py:209-252 | names allocated in order are non-empty, avoid the reserved names and are pairwise distinct |
| SheetNames.SheetNamesOf | ExcelScripts/FilterExcel_multiBU.py:255 | the names of the written sheets, in writing order |
| SheetNames.UsedNamesSnoc | ExcelScripts/FilterExcel_multiBU.py:252 | writing a sheet adds exactly its name to `used_sheet_names` |
| SheetNames.SheetNamesStep | ExcelScripts/FilterExcel_multi.py:164-171 | naming the next sheet against the names used keeps the sheets named in allocation order |
| SheetNames.SheetNamesDistinct | ExcelScripts/FilterExcel_multi.py:151-171 | sheets named in allocation order after "Original Data" have non-empty, pairwise distinct names other than "Original Data" |
| SheetNames.UnusedNameIsNew | ExcelScripts/FilterExcel_multiBU.py:286-292 | a name outside `used_sheet_names` clashes neither with "Original Data" nor with any written sheet |
| SheetNames.RowsFollowStep | ExcelScripts/FilterExcel_multiBU.py:243-255 | writing the next item's rows as the next sheet keeps every sheet holding the rows of its own item |
| Duplicates.RemovePunctuation | ExcelScripts/FilterExcel_multiBU.py:52-54 | `translate` with `string.punctuation` removes every punctuation character and adds none |
| Duplicates.RemovePunctuationOfChar | ExcelScripts/FilterExcel_multiBU.py:52-54 | a punctuation character is removed and any other character is kept |
| Duplicates.RemovePunctuationConcat | ExcelScripts/FilterExcel_multiBU.py:52-54 | removing punctuation works character by character: it distributes over concatenation, so the other characters are kept in order |
| Duplicates.SplitWordsRemovePunctuation | ExcelScripts/FilterExcel_multiBU.py:53-57 | removing punctuation and splitting gives the words of the text, each without its punctuation, with the words that become empty dropped |
| Duplicates.SpacedKey | ExcelScripts/FilterExcel_multiBU.py:36-42 | lower-casing, stripping and collapsing give a key without upper-case letters, outer whitespace or adjacent whitespace |
| Duplicates.SpacedKeyIsNormalizeSpaces | ExcelScripts/FilterExcel_multiBU.py:38-42 | the strip before `" ".join(s.split())` changes nothing: the key is the lower-cased words joined by single spaces |
| Duplicates.DepunctuatedKey | ExcelScripts/FilterExcel_multiBU.py:52-57 | removing punctuation and collapsing again also leaves no punctuation |
| Duplicates.DepunctuatedKeyClosedForm | ExcelScripts/FilterExcel_multiBU.py:53-57 | the punctuation step gives the words of the text, each without its punctuation and the empty ones dropped, joined by single spaces |
| Duplicates.NormalizeName | ExcelScripts/FilterExcel_multiBU.py:24-59 | `normalize_name` gives "" for `None`; the key has no upper-case letter, no outer or repeated whitespace and no punctuation |
| Duplicates.NormalizeNameClosedForm | ExcelScripts/FilterExcel_multiBU.py:24-59 | `normalize_name` of a text is the single-space join of the words of its lower-cased, punctuation-free form, and equally of its lower-cased words each without punctuation, the empty ones dropped |
| Duplicates.NormalizeNameEqualIff | ExcelScripts/FilterExcel_multiBU.py:24-59 | two names get the same key exactly when their lower-cased, punctuation-free forms have the same words |
| Duplicates.NormalizeNameSameWords | ExcelScripts/FilterExcel_multiBU.py:36-59 | two names whose lower-cased texts split into the same words get the same key, whatever their case and spacing |
| Duplicates.PlainNameIsItsOwnKey | ExcelScripts/FilterExcel_multiBU.py:24-59 | a name with no upper-case letter, whitespace or punctuation is its own key |
| Duplicates.DuplicateMask | ExcelScripts/FilterExcel_multiBU.py:275 | a position is flagged exactly when its key is non-empty and another position holds the same key |
| Duplicates.TwoPositionsIffCountTwo | ExcelScripts/FilterExcel_multiBU.py:275 | a key occurs at another position exactly when it occurs at least twice in the multiset of keys |
| Duplicates.DuplicateMaskCounts | ExcelScripts/FilterExcel_multiBU.py:275 | `duplicated(keep=False) & (key != "")` flags exactly the non-empty keys that occur at least twice |
| Duplicates.DuplicateFlagsPaired | ExcelScripts/FilterExcel_multiBU.py:275 | `keep=False` flags every occurrence: each flagged position has a flagged partner with the same key |
| Duplicates.NoLoneDuplicate | ExcelScripts/FilterExcel_multiBU.py:275-279 | no sheet records exactly one duplicate row |
| Duplicates.KeysAsWritten | ExcelScripts/FilterExcel_multiBU.py:271-272 | one key per row of the sheet, computed after `astype(str)` |
| Duplicates.Keys | ExcelScripts/FilterExcel_multiBU.py:271-275 | one key per row of the sheet, with an empty Name giving the empty key that the `key != ""` test skips |
| Duplicates.Pick | ExcelScripts/FilterExcel_multiBU.py:278 | `values[mask].tolist()` holds exactly the values at flagged positions |
| Duplicates.PickFollowsSelect | ExcelScripts/FilterExcel_multiBU.py:278 | `values[mask].tolist()` has one value per row `df[mask]` keeps, in the same order |
| Duplicates.DuplicateRowsAsWritten | ExcelScripts/FilterExcel_multiBU.py:271-279 | the recorded numbers are exactly the original table index plus 2 of each flagged row |
| Duplicates.DuplicateRows | ExcelScripts/FilterExcel_multiBU.py:271-279 | the recorded numbers are rows 2 to sheet length + 1 of the sheet; row p + 2 is recorded exactly when position p is flagged, never for an empty Name |
| Duplicates.PlusTwo | ExcelScripts/FilterExcel_multiBU.py:278 | every number is shifted by the header row and the 1-based numbering |
| Duplicates.PlusTwoMembers | ExcelScripts/FilterExcel_multiBU.py:278 | shifting by 2 is a bijection between the flagged positions and the recorded numbers |
| Duplicates.NanKey | ExcelScripts/FilterExcel_multiBU.py:271-272 | an empty Name cell has the key "nan" as written |
| Duplicates.BlankNamesFlaggedAsWritten | ExcelScripts/FilterExcel_multiBU.py:271-279 | as written, any two rows with an empty Name are recorded as duplicates; with empty keys for empty cells they are not |
| Duplicates.RowNumbersPastSheetEndAsWritten | ExcelScripts/FilterExcel_multiBU.py:278-279 | as written, a two-row sheet taken from table rows 1 and 2 records row 4, past its last data row; numbered by sheet position it records rows 2 and 3 |
| FilterMultiBU.PatternOf | ExcelScripts/FilterExcel_multiBU.py:225-226 | `(pair.get(key) or "").strip()` has no outer whitespace, and is empty when the key is missing |
| FilterMultiBU.PatternOfIsStripped | ExcelScripts/FilterExcel_multiBU.py:225-226 | the pattern is the entered value with exactly its outer whitespace removed |
| FilterMultiBU.PairsOf | ExcelScripts/FilterExcel_multiBU.py:221-222 | a rule value that is not a list gives no pairs; a list gives its own pairs |
| FilterMultiBU.AnyOfIff | ExcelScripts/FilterExcel_multiBU.py:224-241 | or-ing a test over a list, element by element, holds exactly when some element passes it |
| FilterMultiBU.AnyOfStep | ExcelScripts/FilterExcel_multiBU.py:238 | extending the prefix by one element ors in that element's test |
| FilterMultiBU.AnyPairMatchesIff | ExcelScripts/FilterExcel_multiBU.py:224-238 | a row matches a rule exactly when some pair of the rule matches it |
| FilterMultiBU.MatchedByAnyIff | ExcelScripts/FilterExcel_multiBU.py:218-241 | a row is in the global mask exactly when some rule matches it |
| FilterMultiBU.PairMask | ExcelScripts/FilterExcel_multiBU.py:228-236 | the pair mask flags a row exactly when its email cell contains the non-empty email pattern or its office cell the non-empty office pattern, ignoring case; an all-empty pair flags nothing |
| FilterMultiBU.PairMatchesIgnoresCase | ExcelScripts/FilterExcel_multiBU.py:228-236 | pairs whose patterns differ only in ASCII letter case match the same rows |
| FilterMultiBU.RuleMask | ExcelScripts/FilterExcel_multiBU.py:219-238 | the rule mask flags exactly the rows the rule matches |
| FilterMultiBU.UnmatchedMask | ExcelScripts/FilterExcel_multiBU.py:284 | `~global_matched_mask` flags exactly the rows no rule matches |
| FilterMultiBU.CombinedMask | ExcelScripts/FilterExcel_multiBU.py:219-238 | the pair loop computes the rule mask: a row is flagged exactly when some pair of the rule matches it, with a non-list value giving no pairs |
| FilterMultiBU.AnyPairMatchesStep | ExcelScripts/FilterExcel_multiBU.py:238 | or-ing in the next pair's mask extends the rule test by that pair |
| FilterMultiBU.RuleBaseName | ExcelScripts/FilterExcel_multiBU.py:246 | the base name is the label sanitised as written, or "Filtered" when that is empty; it is non-empty and at most 31 characters |
| FilterMultiBU.RuleBaseNames | ExcelScripts/FilterExcel_multiBU.py:218-246 | one base name per rule, in rule order |
| FilterMultiBU.RemainderBaseName | ExcelScripts/FilterExcel_multiBU.py:286 | the remainder sheet's base name is "Remaining (Unmatched)" itself |
| FilterMultiBU.RemainderSheetNameIsClean | ExcelScripts/FilterExcel_multiBU.py:64 | the configured remainder name goes through the sanitiser as written unchanged |
| FilterMultiBU.NameColumn | ExcelScripts/FilterExcel_multiBU.py:261-267 | the Name column is the last column carrying the key of the first non-empty candidate that names a column, no earlier candidate naming one; nothing is found exactly when no non-empty candidate names a column |
| FilterMultiBU.SheetDuplicates | ExcelScripts/FilterExcel_multiBU.py:259-279 | nothing is recorded for an empty sheet or without a Name column; otherwise exactly the table index + 2 of every row whose key, with an empty cell keyed "nan", another row of the sheet shares |
| FilterMultiBU.MatchedByAnyStep | ExcelScripts/FilterExcel_multiBU.py:241 | or-ing in the next rule's mask extends the global test by that rule |
| FilterMultiBU.GlobalMaskStep | ExcelScripts/FilterExcel_multiBU.py:241 | after rule k the global mask flags exactly the rows matched by one of rules 0..k |
| FilterMultiBU.DuplicatesRecordedStep | ExcelScripts/FilterExcel_multiBU.py:259-279 | recording the next sheet's duplicates only when there are some keeps `duplicates_by_sheet` exact for every sheet written |
| FilterMultiBU.SheetRowsStep | ExcelScripts/FilterExcel_multiBU.py:243-255 | writing the next rule's rows as the next sheet keeps every sheet holding exactly its rule's rows |
| FilterMultiBU.WriteRuleSheet | ExcelScripts/FilterExcel_multiBU.py:219-279 | one pass of the rule loop: the rule mask, a sheet of exactly the matching rows named by the allocation loop from the rule's base name, and the duplicate rows the script records for it |
| FilterMultiBU.RuleLoopStep | ExcelScripts/FilterExcel_multiBU.py:218-279 | one pass of the rule loop keeps the global mask, the names in use, the rows of each sheet, the naming order and the recorded duplicates in step |
| FilterMultiBU.RuleLoopNamesStep | ExcelScripts/FilterExcel_multiBU.py:245-279 | naming and recording the next sheet keeps the names in use, the naming order and the recorded duplicates in step |
| FilterMultiBU.WriteRuleSheets | ExcelScripts/FilterExcel_multiBU.py:209-279 | after the rule loop: one sheet per rule holding exactly its rows, names allocated in order after "Original Data", the duplicates recorded exactly, and the global mask flagging exactly the rows some rule matches |
| FilterMultiBU.AllRulesApplied | ExcelScripts/FilterExcel_multiBU.py:284 | once every rule is or-ed in, the complement of the global mask is the unmatched mask |
| FilterMultiBU.FinishWorkbook | ExcelScripts/FilterExcel_multiBU.py:282-292 | the rule sheets and a remainder sheet of the unmatched rows, named after all rule sheets, form the whole output |
| FilterMultiBU.SplitWorkbook | ExcelScripts/FilterExcel_multiBU.py:183-294 | a run fails with the missing column names exactly when a required column is missing, and otherwise writes the workbook the rules determine |
| FilterMultiBU.RemainderIsComplement | ExcelScripts/FilterExcel_multiBU.py:282-284 | a row is on the remainder sheet exactly when it is on no rule sheet |
| FilterMultiBU.SplitWithFilterDefinitions | ExcelScripts/FilterExcel_multiBU.py:69-111 | the run with the thirteen hard-coded rules, with the same outcome |
| FilterMulti.ValidFiltersSnoc | ExcelScripts/FilterExcel_multi.py:134 | appending an accepted filter keeps every collected filter stripped and non-empty |
| FilterMulti.Finish | ExcelScripts/FilterExcel_multi.py:109-124 | a cancel ends the run exactly when no filter has been collected, otherwise it keeps the filters collected |
| FilterMulti.Collect | ExcelScripts/FilterExcel_multi.py:106-139 | the dialogs yield nothing only before the first filter; otherwise a non-empty list that extends the filters collected so far by at most one per round and keeps them valid |
| FilterMulti.FirstStopIsFirst | ExcelScripts/FilterExcel_multi.py:108-139 | no round before the first stop ends the loop, and the round at the first stop, if there is one, cancels or adds a filter and answers no |
| FilterMulti.CollectIsEntries | ExcelScripts/FilterExcel_multi.py:108-139 | the dialogs yield the filters collected so far followed by the stripped entry of every round up to and including the one that ends the loop; nothing when that list is empty |
| FilterMulti.CollectAddsFilter | ExcelScripts/FilterExcel_multi.py:126-139 | a round with a non-empty stripped pattern appends exactly its stripped filter, and answering no ends the run with the filters so far |
| FilterMulti.CollectSkipsBlankRound | ExcelScripts/FilterExcel_multi.py:126-132 | a round whose two stripped patterns are empty adds nothing and the loop goes on |
| FilterMulti.CollectCancel | ExcelScripts/FilterExcel_multi.py:109-124 | cancelling either dialog ends the run: with nothing before the first filter, otherwise with the filters collected |
| FilterMulti.CancelAfterBlankRoundsEndsRun | ExcelScripts/FilterExcel_multi.py:108-132 | blank rounds followed by a cancel end the run with nothing |
| FilterMulti.CollectFilters | ExcelScripts/FilterExcel_multi.py:106-139 | the dialog loop returns the entries of the rounds up to and including the one that ends it, or nothing when there are none |
| FilterMulti.CancelFirstEndsRun | ExcelScripts/FilterExcel_multi.py:109-114 | cancelling the first email dialog ends the run |
| FilterMulti.CollectedFiltersValid | ExcelScripts/FilterExcel_multi.py:126-134 | the collected filters are non-empty in number, at most one per round, stripped, and never have both patterns empty |
| FilterMulti.FilterMask | ExcelScripts/FilterExcel_multi.py:155-160 | the filter mask flags a row exactly when its email cell contains the non-empty email pattern or its office cell the non-empty office pattern, ignoring case |
| FilterMulti.FilterMatchesIgnoresCase | ExcelScripts/FilterExcel_multi.py:157-160 | filters whose patterns differ only in ASCII letter case select the same rows |
| FilterMulti.FilterLabel | ExcelScripts/FilterExcel_multi.py:165 | the label is the office pattern sanitised as written, or else the email pattern sanitised as written, or else "Filter k" for the filter's 1-based position k; it is never empty |
| FilterMulti.FilterBaseName | ExcelScripts/FilterExcel_multi.py:165 | every base name is "Filtered " followed by a non-empty label |
| FilterMulti.FilterBaseNames | ExcelScripts/FilterExcel_multi.py:153-165 | one base name per filter, numbered from 1 |
| FilterMulti.BaseNameIsNotOriginal | ExcelScripts/FilterExcel_multi.py:149-165 | no base name collides with "Original Data" |
| FilterMulti.BaseNameCanExceedLimit | ExcelScripts/FilterExcel_multi.py:165 | a clean 31-character office pattern names the sheet and gives a 40-character base name, longer than the 31 the sanitiser enforces |
| FilterMulti.WriteFilterSheets | ExcelScripts/FilterExcel_multi.py:151-173 | the filter loop writes one sheet per filter holding exactly the rows it matches, named in allocation order after "Original Data" |
| FilterMulti.RunMulti | ExcelScripts/FilterExcel_multi.py:92-173 | a run fails with the missing column names, ends without output when no filter was entered, or writes the sheets of the collected filters |
| FilterMulti.WrittenSheetsDistinct | ExcelScripts/FilterExcel_multi.py:151-171 | a written run has at least one filter sheet, and all sheet names are non-empty, distinct and differ from "Original Data" |
| FilterSingle.SingleMask | ExcelScripts/FilterExcel.py:54-57 | a row is flagged exactly when its lower-cased email cell contains the email answer or its office cell the office answer, taken as entered |
| FilterSingle.FilteredRows | ExcelScripts/FilterExcel.py:54-57 | the filtered sheet holds exactly the flagged rows, in table order |
| FilterSingle.FilterOnce | ExcelScripts/FilterExcel.py:36-71 | the run fails with the missing column names exactly when a required column is missing; it raises exactly when a dialog was cancelled; otherwise it writes the filtered rows under "Filtered " followed by the raw office answer |
| FilterSingle.ContainsKeepsNoUpper | ExcelScripts/FilterExcel.py:55-56 | a substring of a text without upper-case letters has none |
| FilterSingle.LowerHasNoUpper | ExcelScripts/FilterExcel.py:55 | a lower-cased cell has no upper-case letter |
| FilterSingle.UpperCasePatternMatchesNothing | ExcelScripts/FilterExcel.py:55-56 | an answer with an upper-case letter matches no row, because only the cells are lower-cased |
| FilterSingle.EmptyEmailKeepsEveryRow | ExcelScripts/FilterExcel.py:55 | an empty email answer keeps every row of the table |
| FilterSingle.SheetNamesDiffer | ExcelScripts/FilterExcel.py:70-71 | the filtered sheet's name never clashes with "Original Data" |

## Left out

- File selection, reading and writing the workbook, the timestamped output path, message
  boxes and console messages are I/O. The table is an input and the sheets written are
  the output. The read-error and write-error paths are not modelled.
- `style_worksheet`, the column widths, the hidden columns of `FilterExcel.py` and the
  yellow highlighting of the recorded rows are formatting only. The row numbers that the
  highlighting uses are modelled.
- SheetNames.SanitizeKeepsCleanName: states only that clean names (at most 31 characters,
  no forbidden character, no outer whitespace or apostrophe, single plain spaces) are
  fixed points; other names Excel accepts, such as "Q1  Sales", are changed.
  The sanitiser is not idempotent on every input, as SheetNames.SanitizeIsNotIdempotent
  shows, so no general idempotence is claimed.
- Text.Lower: lower-cases ASCII letters only; Python's full Unicode case mapping is not
  modelled.
- Duplicates.NormalizeName: leaves out the NFKC normalisation and the removal of
  combining marks, which are the identity on ASCII text; Unicode tables are not modelled.
- DataFrame.ContainsMask: tests for a literal substring. `str.contains` treats the pattern
  as a regular expression, which differs for patterns with regex metacharacters; regular
  expressions are not modelled.
- Pandas renaming repeated headers on read (`Email.1`) and `df[col]` on a repeated
  stripped header returning several columns are not modelled: a column is found by the
  last header that carries its key.
- FilterMulti.Collect: running out of recorded rounds is taken as a cancel, since the
  dialog sequence is finite in the model.
- `CREATE_REMAINDER_SHEET` is always true, so the remainder sheet is always written; the
  switched-off branch is not modelled.
- Excel and openpyxl checks on sheet titles are not modelled. Names made longer than 31
  characters by a " (k)" suffix or by the "Filtered " prefix are kept as computed, and so
  is the raw office answer used as a sheet name in `FilterExcel.py`. Excel compares sheet
  names without regard to case, but the scripts compare them exactly, and so does the model.
- The order in which `used_sheet_names`, a set, is walked for styling is formatting only.
- Integers are unbounded; row counts and suffixes never approach a machine limit here.

## Findings

| source | as written | input that shows it | evidently intended | confidence | as-written member | corrected member |
|---|---|---|---|---|---|---|
| ExcelScripts/FilterExcel_multiBU.py:125-126 (and ExcelScripts/FilterExcel_multi.py:32-34) | apostrophes are stripped before truncation to 31 characters, so the cut can expose a trailing apostrophe | 30 × "a" followed by "'b" becomes 30 × "a" followed by "'" | no leading or trailing apostrophe, as the docstring says | not executed | SheetNames.TruncationLeavesTrailingApostrophe | SheetNames.SanitizeSheetName |
| ExcelScripts/FilterExcel_multiBU.py:271-275 | `astype(str)` turns an empty Name into "nan" before normalising, so `key != ""` never skips a blank | two rows of one rule sheet with empty Name cells | blank names are ignored | not executed | Duplicates.BlankNamesFlaggedAsWritten | Duplicates.DuplicateRows |
| ExcelScripts/FilterExcel_multiBU.py:278 | the recorded number is the original table index + 2, but it is used as a row of the filtered sheet | table rows bob, ann, ann; the sheet holds rows 1 and 2 and records row 4 of a sheet whose data end at row 3 | the sheet row of each flagged position, position + 2 | not executed | Duplicates.RowNumbersPastSheetEndAsWritten | Duplicates.DuplicateRows |
