# Transaction ingestion and categorization, modelled in Dafny

This project models the core of a personal-finance web application: the part that
turns the rows of a bank-statement CSV file into transaction candidates, and the part
that labels a transaction with a spending category.

- **Categorizer** (`src/lib/categorizer.ts`). It holds a mutable vendor table (merchant
  name to category) and a keyword table per category. A transaction is labelled by a
  first-match search: the merchant against the vendor table, then the combined
  description-and-merchant text against the vendor table, then the keyword table, then
  `Other`. A confidence score counts matching signals. Overrides write new vendor
  entries. An edit-distance similarity finds transactions like a given one.
- **Statement parser** (`src/lib/transactionParser.ts`). From the header-keyed rows it
  admits the data rows. For each row it reads the date (two textual formats, then a
  generic fallback), builds the description from the type, description and check-number
  columns, cleans the amount to whole cents and guesses the merchant. It also has the
  validity check and the date range of a list of transactions.
- **Upload composition** (`src/app/transactions/upload/page.tsx`, lines 50-79). It
  parses, rejects an empty result, then labels each candidate and attaches a confidence.

Modules, one per concern:

| file | module | what it holds |
|---|---|---|
| `wrappers.dfy` | `Wrappers` | `Option` and `Result` |
| `sequences.dfy` | `Sequences` | `filter` and the subsequence order it keeps, the first-match search, small facts about slices |
| `text.dfy` | `Text` | ASCII lower-casing, `trim`, `includes`, digit strings |
| `categories.dfy` | `Categories` | the category type and the keyword table |
| `vendor_table.dfy` | `VendorTable` | the vendor table in JavaScript property order, the override write, the built-in entries |
| `categorizer.dfy` | `Categorizer` | label resolution, the confidence score, and the `Categorizer` class that owns the table |
| `similarity.dfy` | `Similarity` | the in-place edit-distance method, similarity, the similar-transaction search |
| `amounts.dfy` | `Amounts` | the amount cleaner and the conversion to cents |
| `dates.dfy` | `Dates` | `parseDate` |
| `merchant.dfy` | `Merchant`, `MerchantExamples` | `extractMerchant` and worked examples |
| `transaction_parser.dfy` | `TransactionParser` | row admission, description building, row parsing, whole-parse outcome, validity, date range |
| `upload.dfy` | `Upload` | `processFile`, as written and corrected (see Findings) |

Notes on the modelling choices:

- **Vendor table order.** The table is a sequence of (key, category) pairs with distinct
  keys, enumerated in JavaScript property order. Canonical array-index keys (`"76"`)
  come first in ascending numeric order. All other keys follow in insertion order. An
  override of an existing key keeps its slot. A new non-index key is appended. A new
  index key goes into the index prefix at its numeric place, as the language puts it
  there.
- **Confidence score.** The signal count is a natural number `n`, so
  `Math.round(n / 3 * 100)` is computed exactly as `(100 n + 1) / 3`.
- **Absent merchant.** An absent merchant is the empty string. Every use in the source
  treats both alike (`merchant || ''`, `if (merchant)`).
- **Missing column.** A missing column reads as the empty text. Every use treats it as
  it treats `undefined`.
- **Dates.** A date is kept as the `(year, monthIndex, day)` arguments given to
  `new Date`. The generic fallback parser is a function parameter.
- **Amounts.** `parseFloat` is modelled exactly on its longest decimal prefix.
  `Math.round(x * 100)` is computed on that exact decimal, rounding a half towards
  positive infinity. A cleaned text with no numeric prefix (such as `-`) yields a
  distinct not-a-number value. The source keeps such rows, since `NaN` is neither
  `undefined` nor `null`.

Where the source's own comments and its code differ, the model follows the code:

- The comment at `src/lib/transactionParser.ts:29` speaks of filtering out invalid
  transactions. But a row whose date or amount fails throws inside the `map` (line 27),
  and the whole parse is rejected (lines 31-33); the row is not skipped. The filter at
  line 30 then removes nothing: every candidate has a date and an amount, and an amount
  with no numeric prefix is kept as not-a-number.
- The comment at `src/lib/transactionParser.ts:114` says a day above 12 is read day
  first. That branch (lines 110-120) can never decide, because the identical pattern has
  already returned, month first, at lines 97-101.

Description prefixing does not detect an existing prefix, so it is not idempotent
(`TransactionParser.PrefixRepeats`).

## Model

| member | source | states |
|---|---|---|
| Text.Trim | src/lib/transactionParser.ts:46-50 | `trim()`: the result sits at some position of the input with only white space before and after it, and neither of its ends is white space; so exactly the white space at each end is removed |
| Text.ContainsIff | src/lib/categorizer.ts:218 | `includes` holds exactly when the pattern occurs at some position of the text |
| Categories.KeywordTableShape | src/lib/categorizer.ts:121-203 | the keyword table lists every category once, in declaration order, and only `Other` has no keywords |
| VendorTable.FromEntriesShape | src/lib/categorizer.ts:7-116 | an object literal's enumeration has distinct keys, index keys first and ascending, holds only declared entries, and holds every declared key |
| VendorTable.BuiltInShape | src/lib/categorizer.ts:7-116 | the built-in table is well-formed, has no entry labelled `Other`, and enumerates `"76"` first though it is declared nineteenth (line 29) |
| VendorTable.OverrideWellFormed | src/lib/categorizer.ts:287 | an assignment keeps keys distinct and index keys first and ascending |
| VendorTable.OverrideLookup | src/lib/categorizer.ts:287 | after the assignment the key maps to the new category and every other key to what it mapped to before |
| VendorTable.OverrideKeepsOthers | src/lib/categorizer.ts:287 | the other entries keep their categories and their relative order |
| VendorTable.OverridePosition | src/lib/categorizer.ts:287 | an existing key keeps its slot; a new non-index key goes last; a new index key goes before the first larger index key; the size grows only for a new key |
| VendorTable.AssignLookup | src/lib/categorizer.ts:287 | the assignment keeps the table well-formed; the key then maps to the category, except `__proto__`, which the assignment cannot create and whose lookup is unchanged; every other key keeps its category, and the other entries keep their order |
| Categorizer.FirstMerchantMatch | src/lib/categorizer.ts:216-221 | the first entry, in table order, whose key contains the lower-cased merchant or is contained in it; none when no entry does |
| Categorizer.FirstTextMatch | src/lib/categorizer.ts:225-229 | the first entry whose key occurs in the search text; none when no entry does |
| Categorizer.FirstKeywordMatch | src/lib/categorizer.ts:232-238 | the first category, in declaration order, with a keyword in the search text; none when no category has one |
| Categorizer.Categorize | src/lib/categorizer.ts:208-242 | the label is always a category of some table entry, a category with a keyword in the search text, or `Other` |
| Categorizer.CategorizeByMerchant | src/lib/categorizer.ts:215-222 | with a non-empty merchant, the first matching entry's category wins whatever the description says |
| Categorizer.CategorizeByText | src/lib/categorizer.ts:224-229 | when no entry matches the merchant, the first entry whose key occurs in the search text decides |
| Categorizer.CategorizeByKeyword | src/lib/categorizer.ts:231-241 | with no vendor match in either stage, the label is the first category in declaration order with a keyword in the text, and `Other` exactly when no category has one |
| Categorizer.Confidence | src/lib/categorizer.ts:248-278 | the confidence is at most 100, and zero exactly when there is no signal: no vendor entry of the category passes the merchant test and none of its keywords occurs |
| Categorizer.ScoreIsRoundedPercent | src/lib/categorizer.ts:277 | the score is `100 n / 3` rounded half up and capped at 100: it lies in [0, 100] and is 100 from three signals on |
| Categorizer.ScoreMonotone | src/lib/categorizer.ts:277 | more signals never lower the score |
| Categorizer.VendorHitsZero | src/lib/categorizer.ts:257-266 | the vendor signals are zero exactly when no entry of the category passes the merchant test |
| Categorizer.KeywordHitsZero | src/lib/categorizer.ts:269-274 | the keyword signals are zero exactly when no keyword of the list occurs in the text |
| Categorizer.ConfidenceZero | src/lib/categorizer.ts:254-277 | confidence is zero exactly when no entry of the category matches the merchant and none of its keywords occurs |
| Categorizer.ConfidenceOfOther | src/lib/categorizer.ts:202 | `Other` has no keywords, so its confidence is zero exactly when there is no merchant or no entry labelled `Other` passes the merchant test |
| Categorizer.ConfidenceOfOtherBuiltIn | src/lib/categorizer.ts:7-116 | with the built-in table the confidence of `Other` is always zero |
| Categorizer.ConfidenceOfMerchantLabel | src/lib/categorizer.ts:257-266 | when stage one labels a transaction, the confidence of that label is at least 67 |
| Categorizer.Categorizer.constructor | src/lib/categorizer.ts:7-116 | a new categorizer holds the built-in table, which is well-formed |
| Categorizer.Categorizer.AddVendorOverride | src/lib/categorizer.ts:283-288 | the table becomes the assignment of the lower-cased vendor: it maps to the category, except that `__proto__` leaves the table as it was; every other key keeps its category, the other entries keep their order, and the table stays well-formed |
| Categorizer.Categorizer.GetCategorizationConfidence | src/lib/categorizer.ts:248-278 | the accumulating loops compute the confidence of the category over the current table, at most 100 |
| Similarity.EditDistanceCell | src/lib/categorizer.ts:329-338 | one cell of the cost table in terms of its three neighbours, and the table's borders |
| Similarity.GetEditDistance | src/lib/categorizer.ts:323-344 | the single-row table, updated in place with the carried left value, yields the edit distance of the two strings (the recursive `Similarity.EditDistance`, whose table cells, self distance, symmetry and bounds the next rows state) |
| Similarity.EditDistanceSelf | src/lib/categorizer.ts:323-344 | a string is at distance zero from itself |
| Similarity.EditDistanceSymmetric | src/lib/categorizer.ts:323-344 | the distance does not depend on the order of the arguments |
| Similarity.EditDistanceBounds | src/lib/categorizer.ts:323-344 | the distance from the empty string is the other length; every distance lies between the length difference and the longer length |
| Similarity.LastCharacterChanged | src/lib/categorizer.ts:333-334 | changing only the last character costs at most one edit |
| Similarity.Share | src/lib/categorizer.ts:317 | the quotient lies in [0, 1] and exceeds 0.6 exactly when five parts exceed three wholes |
| Similarity.Similarity | src/lib/categorizer.ts:310-318 | `calculateStringSimilarity` always lies in [0, 1] |
| Similarity.SimilarityThreshold | src/lib/categorizer.ts:310-318 | similarity lies in [0, 1]; it exceeds 0.6 exactly when `L = 0` or `5 (L - d) > 3 L` |
| Similarity.SimilaritySymmetric | src/lib/categorizer.ts:310-318 | similarity does not depend on the order of the arguments |
| Similarity.LastCharacterChangedIsSimilar | src/lib/categorizer.ts:303 | two texts of at least three characters that differ only in the last are similar |
| Similarity.FindSimilar | src/lib/categorizer.ts:293-305 | the `filter` of the similar records: a subsequence of the records, holding each record whose text is similar to the target's as often as the input does, and no other record |
| Similarity.FindSimilarKeepsSameText | src/lib/categorizer.ts:298-303 | a record whose text equals the target's is always found |
| Amounts.CleanAmount | src/lib/transactionParser.ts:71 | the cleaned text holds only digits, `.` and `-`, and is no longer than the input |
| Amounts.CleanAmountKeeps | src/lib/transactionParser.ts:71 | the cleaner keeps, in order, exactly the digits, `.` and `-` of the input, each as often as it occurs |
| Amounts.CleanedUnchanged | src/lib/transactionParser.ts:71 | a text of digits, `.` and `-` only is left as it is |
| Amounts.CleanAmountAppend | src/lib/transactionParser.ts:71 | cleaning two joined texts is joining their cleaned texts |
| Amounts.CleanAmountIdempotent | src/lib/transactionParser.ts:71 | cleaning twice is cleaning once |
| Amounts.DecimalPrefix | src/lib/transactionParser.ts:73 | `parseFloat`'s decimal prefix: none exactly when, after an optional `-`, the text starts neither with a digit nor with `.` and a digit; otherwise digit fields with at least one digit, the text starts with its rendering, and that prefix is the longest: no digit follows it, nor `.` and a digit when it has no fraction |
| Amounts.RoundCents | src/lib/transactionParser.ts:73 | `Math.round(x * 100)`: the whole number within half a cent, a half rounding up |
| Amounts.ToCents | src/lib/transactionParser.ts:72-74 | no amount exactly when the cleaned text is empty; not-a-number exactly when it is not empty and has no decimal prefix |
| Amounts.RoundCentsExact | src/lib/transactionParser.ts:73 | with at most two fraction digits the rounding has nothing to round |
| Amounts.ToCentsExact | src/lib/transactionParser.ts:72-74 | with at most two fraction digits the cents are the digits scaled to two places, negated for a leading `-` |
| Amounts.ParseAmount | src/lib/transactionParser.ts:71-74 | no amount exactly when the text holds no digit, `.` or `-`; not-a-number exactly when the cleaned text is not empty but has no decimal prefix |
| Amounts.ParseAmountDollars | src/lib/transactionParser.ts:71-74 | `"$1,234.56"` is 123456 cents |
| Amounts.ParseAmountMinus | src/lib/transactionParser.ts:71-74 | `"-45.00"` is -4500 cents |
| Amounts.ParseAmountParentheses | src/lib/transactionParser.ts:71-74 | `"(45.00)"` is 4500 cents: parentheses are dropped, not read as a sign |
| Amounts.ParseAmountNoNumber | src/lib/transactionParser.ts:71-78 | `"-"` is not a number yet passes; `"n/a"` cleans to nothing and fails |
| Dates.SlashFields | src/lib/transactionParser.ts:97 | a match has one- or two-digit month and day fields and a four-digit year, and the text is exactly those fields with slashes |
| Dates.SlashFieldsOf | src/lib/transactionParser.ts:97 | every such text matches, with exactly those fields |
| Dates.IsoFields | src/lib/transactionParser.ts:104 | a match is four, two and two digits joined by hyphens |
| Dates.IsoFieldsOf | src/lib/transactionParser.ts:104 | every such text matches, with exactly those fields |
| Dates.ParseDate | src/lib/transactionParser.ts:93-132 | an empty text has no date |
| Dates.ParseDateMonthFirst | src/lib/transactionParser.ts:97-101 | every `m/d/yyyy` text is read month first, whatever the fallback, even when the day is above 12 |
| Dates.ParseDateIso | src/lib/transactionParser.ts:104-108 | every `yyyy-mm-dd` text is read with its fields as they are, whatever the fallback |
| Dates.IsoIsNotSlash | src/lib/transactionParser.ts:97-108 | no text matches both patterns |
| Dates.DayFirstUnreachable | src/lib/transactionParser.ts:110-129 | the day-first branch never decides: any text it could read was read month first, so other texts go to the fallback |
| Merchant.MatchedWord | src/lib/transactionParser.ts:140 | the first type word, in the alternation's order, that the text starts with, ignoring case |
| Merchant.DropSeps | src/lib/transactionParser.ts:140 | `[\s-]*` removed from the start: what is dropped is separators, what is left starts with none |
| Merchant.StripTypeWord | src/lib/transactionParser.ts:140 | the result is a suffix of the text; it is the text unchanged exactly when no type word starts it; otherwise it starts with no separator |
| Merchant.StripMatched | src/lib/transactionParser.ts:140 | with a matched type word, the result is the rest after that word with its separators dropped |
| Merchant.Fields | src/lib/transactionParser.ts:144 | `split` yields at least one field, none holding a separator, and a text without separators is one field |
| Merchant.FieldsJoin | src/lib/transactionParser.ts:144 | there is one more field than separators, and joining the fields with the separators gives the text back |
| Merchant.FirstLong | src/lib/transactionParser.ts:145 | the first field longer than two characters; none when all are at most two |
| Merchant.Token | src/lib/transactionParser.ts:145 | the first long field, which has no separator, or else the whole stripped text |
| Merchant.Truncate | src/lib/transactionParser.ts:147 | `substring(0, 50)`: the prefix of exactly the first 50 characters, or the whole text when it is shorter; free of separators when the text is |
| Merchant.ExtractMerchant | src/lib/transactionParser.ts:137-148 | the first 50 characters of the chosen token, or all of it when it is shorter, and free of separators whenever some field is longer than two |
| MerchantExamples.StripTypeWordNoBoundary | src/lib/transactionParser.ts:140 | `"ACH"` is stripped from the start of any word: no word boundary is required |
| MerchantExamples.ExtractMerchantAch | src/lib/transactionParser.ts:140-147 | `"ACH"` glued to a word of three to fifty characters leaves that word as the merchant |
| MerchantExamples.ExtractMerchantAchieve | src/lib/transactionParser.ts:140-147 | `"ACHIEVE"` yields the merchant `"IEVE"` |
| MerchantExamples.StripTypeWordOnce | src/lib/transactionParser.ts:140 | only one type word is stripped: `"CHECK DEPOSIT ..."` keeps `"DEPOSIT ..."` |
| TransactionParser.AdmittedIff | src/lib/transactionParser.ts:20-26 | a row is admitted exactly when its trimmed `Date` column is neither empty nor the word `Date` |
| Sequences.Filter | src/lib/transactionParser.ts:19-30 | `filter`: a subsequence of the input holding each element that passes the test as often as the input does, and no other; a list whose every element passes comes back unchanged |
| TransactionParser.BuildDescription | src/lib/transactionParser.ts:59-67 | the description is never empty, ends with the description or `Unknown`, and is unprefixed exactly for an empty type, deposits, debit card and account transfers |
| TransactionParser.BuildDescriptionPrefix | src/lib/transactionParser.ts:59-67 | numbered checks get `Check #n: `; other prefixed types get `<Type>: ` |
| TransactionParser.BareCheck | src/lib/transactionParser.ts:62-66 | a check without a number is prefixed `Checks: ` like any other type |
| TransactionParser.PrefixRepeats | src/lib/transactionParser.ts:59-67 | a description that already has its prefix gets it a second time |
| TransactionParser.ParseRow | src/lib/transactionParser.ts:45-88 | the date error exactly when the date does not parse; the amount error exactly when the date parses and the cleaned amount is empty; otherwise the parsed date and amount, the built description, its merchant, label `Other`, unconfirmed |
| TransactionParser.ParseRowLabel | src/lib/transactionParser.ts:85-86 | every parsed row is labelled `Other` and not confirmed |
| TransactionParser.Collect | src/lib/transactionParser.ts:27-33 | all results when every row succeeds, in order; otherwise the first failure's error |
| TransactionParser.CollectMapOutcome | src/lib/transactionParser.ts:27-33 | the parse succeeds exactly when every row does, with one result per row; otherwise it fails with the error of a row before which all succeeded |
| TransactionParser.ParseCsv | src/lib/transactionParser.ts:16-33 | `parseCSV` from the header-keyed rows: its outcome is that of the admission filter and the row `map`, because the validity `filter` removes no candidate |
| TransactionParser.FilterThenCollect | src/lib/transactionParser.ts:19-33 | the parse fails exactly when some admitted row fails |
| TransactionParser.ParseRowsFails | src/lib/transactionParser.ts:19-33 | one admitted row whose date or amount fails rejects the whole parse, and only then does it fail |
| TransactionParser.ParseRowsSucceeds | src/lib/transactionParser.ts:19-27 | a successful parse yields one candidate per admitted row, in order, each that row's parse |
| TransactionParser.ParseRowsLabels | src/lib/transactionParser.ts:85-86 | every candidate of a successful parse is labelled `Other` and not confirmed |
| TransactionParser.ValidateTruthiness | src/lib/transactionParser.ts:153-155 | `validateTransaction` follows JavaScript truthiness: a not-a-number amount passes, an empty description fails, a missing amount fails |
| TransactionParser.ParsedIsValid | src/lib/transactionParser.ts:153-155 | every parsed candidate passes the validity check |
| TransactionParser.PresentDates | src/lib/transactionParser.ts:161-163 | the dates kept are exactly those of the transactions that have one |
| TransactionParser.SortByTime | src/lib/transactionParser.ts:164 | the sort yields the same dates in time order |
| TransactionParser.GetDateRange | src/lib/transactionParser.ts:160-170 | with no date present both ends are `now`; otherwise both ends are dates of the list |
| TransactionParser.DateRangeBounds | src/lib/transactionParser.ts:160-170 | with some date present, start and end are dates of the list, start is the earliest, end the latest, start not after end; with none, both are `now` |
| Upload.PreviewsAsWritten | src/app/transactions/upload/page.tsx:64-68 | one preview per candidate, labelled anew, with the confidence of the candidate's previous category |
| Upload.Previews | src/app/transactions/upload/page.tsx:64-68 | one preview per candidate, labelled anew, with the confidence of that new label |
| Upload.ProcessFileAsWritten | src/app/transactions/upload/page.tsx:50-68 | a parse error's message, the empty-file message for no candidates, or the as-written previews |
| Upload.ProcessFile | src/app/transactions/upload/page.tsx:50-68 | the same outcomes with the confidence asked for the assigned label |
| Upload.SameLabels | src/app/transactions/upload/page.tsx:66 | both versions assign the same labels, the categorizer's |
| Upload.AsWrittenConfidenceIsZero | src/app/transactions/upload/page.tsx:67 | as written, every parsed candidate carries confidence 0 against the built-in table, which is saved with the record |
| Upload.MerchantLabelConfidence | src/app/transactions/upload/page.tsx:66-67 | corrected, a candidate whose merchant matches a table entry carries confidence at least 67 |
| Upload.ConfidenceDiscrepancy | src/app/transactions/upload/page.tsx:66-67 | for a parsed candidate whose merchant matches a built-in vendor, the confidence carried is 0 as written and at least 67 corrected |

## Left out

- CSV tokenising, the `File` object and the promise wrapper around the parse (`src/lib/transactionParser.ts:9-14`, `36-38`) are external library and I/O. The model starts from the list of header-keyed rows.
- `Dates.ParseDate`: the generic `new Date(text)` fallback (`src/lib/transactionParser.ts:122-129`) is a function parameter. It is not interpreted.
- `Dates.ParseDate`: JavaScript `Date` roll-over of out-of-range months and days and the mapping of years 0-99 to the 1900s are not modelled. A date is the raw component triple.
- `TransactionParser.NotAfter`: dates are ordered by (year, month index, day). This agrees with `getTime()` order only for in-range components. Time of day from the fallback parser is not modelled.
- `TransactionParser.GetDateRange`: the `new Date()` default for an empty list is the parameter `now`.
- `Amounts.ToCents`: `parseFloat` and `Math.round` are computed on the exact decimal, not in binary floating point. With more than two fraction digits, a value near a half cent may round differently in the source. Magnitudes beyond double precision (about 2^53) are not modelled either: the source reads `99999999999999999` as 1e17, while the model keeps every digit. Exactness is proved only for at most two fraction digits (`Amounts.ToCentsExact`). Exponent notation cannot occur, because the cleaner removes `e`.
- `Similarity.Similarity` is an exact rational, not a double. The threshold is proved on the exact value.
- `Text.LowerChar`, `Text.IsSpace`: lower-casing, `trim` and `\s` are ASCII only. Unicode case mapping and Unicode white space are not modelled. Lengths and positions (`length`, `substring(0, 50)`, `p.length > 2`) count Dafny characters, where JavaScript counts UTF-16 code units; the two agree on ASCII text only.
- `TransactionParser.Column`: a missing column reads as the empty text. The source's error message would then show `undefined` where the model's shows nothing.
- `Categorizer.Categorizer.AutoCategorize` has no contract of its own. It is `Categorize` over the current table, whose lemmas state its behaviour.
- The categorizer's vendor table is module-level state in the source. Here it is the field of one `Categorizer` object passed to the upload operation.
- Firestore persistence, authentication, the upload page's React state updates, the confirm step and the other pages are UI and external I/O.

## Findings

| source | as written | input that shows it | evidently intended | confidence | as-written member | corrected member |
|---|---|---|---|---|---|---|
| src/app/transactions/upload/page.tsx:67 | The confidence is requested for `t.category`. That is the category the candidate had before labelling, which the parser always sets to `Other` (`src/lib/transactionParser.ts:85`). | A row with date `01/15/2024`, description `STARBUCKS STORE 123` and amount `-5.75`. Its merchant `STARBUCKS` matches a built-in vendor, and it is labelled from that vendor. As written the confidence carried with it, and saved with the record, is 0. | The confidence of the label just assigned, here at least 67. | high; not executed | Upload.ConfidenceDiscrepancy | Upload.ProcessFile |
