# Personal budget ledger: CSV import and balance bookkeeping, in Dafny

A Dafny model of the core of a personal-finance web application. Users keep transactions
(income, expense, transfer) in two currencies, USD and COP, against accounts whose balances
the service layer maintains. The model covers:

- the delimited-text parser (`lib/csv-parser.ts`): a quote-aware scanner that auto-detects `;` or `,`;
- the import engine (`lib/services/csv-import.ts`):
  - header-alias column detection;
  - the date, amount, type and currency coercers;
  - unknown-category discovery;
  - the row validator;
  - the sequential importer, whose store writes may fail;
- the balance protocol of `lib/services/transactions.ts`: create, update and delete apply, or reverse and re-apply, a signed delta to one account and currency. `getStats` is modelled too;
- the decision logic of the import dialog: mapping edits, the required-field gate, category resolutions, the override map, and the merge of validation and commit errors;
- the CSV export (`components/reports/export-csv.tsx`), proved to round-trip through the parser and the column detector;
- weighted category suggestion, item grouping and summaries, category spending, budget helpers and the currency-input filter;
- the selection and merge logic of the transactions screen, and the compare selection of the items screen.

Modules follow the source files, one module per file, plus small shared modules:

- `Wrappers`: Option;
- `Text`: JavaScript string operations as the code uses them: `trim`, `toLowerCase`, `includes`, `indexOf` and the default string order, character by character;
- `Numbers`: `parseFloat` over a decimal grammar;
- `Domain`: transaction types, currencies, drafts, stored entries and the signed delta;
- `Lists`: filter;
- `Sorting`: the sorts behind `Array.prototype.sort`.

Code that changes state step by step is written as methods with loop invariants, each proved against a function that specifies it. Examples are the scanner, `detectColumnMapping`, `processCSVRows`, `importTransactions`, the suggestion loops, the grouping loops and the merge sequence. Objects whose fields the source updates are classes with `modifies` frames:

- the ledger store;
- the transactions screen;
- the items screen;
- the currency input.

Money is `real`, an exact rational. The database is an in-memory store. Every store call that can fail takes the store's answer as a parameter. That includes the balance read and write of `updateAccountBalance`, whose failures the code ignores: a create, update or delete then reports success while the balance stays as it was.

Where a comment in the source and its code disagree, the model follows the code. For example, the comment at `lib/services/csv-import.ts:290` says the category overrides are checked first, but the code looks the name up among the existing categories first and consults the overrides only for a name no category has.

## Model

| member | source | states |
|---|---|---|
| CsvParser.Finish | lib/csv-parser.ts:59-63 | at the end of the text the rows already found are kept, in order, as a prefix, and at most one row is added |
| CsvParser.FinishFlush | lib/csv-parser.ts:59-63 | one row is added exactly when the last field or an earlier field of the last row is non-blank, and that row is the fields so far followed by the last field |
| CsvParser.ParseCsvRows | lib/csv-parser.ts:22-66 | the character loop, including the skip over an escaped quote, returns exactly the rows of the scanner specification `Scan` |
| CsvParser.CrLfToLf | lib/csv-parser.ts:7 | replacing CRLF never lengthens the text, and text without CR is unchanged |
| CsvParser.CrLfToLfPrefix | lib/csv-parser.ts:7 | a CR-free prefix is kept and only the rest is rewritten |
| CsvParser.CrLfToLfPair | lib/csv-parser.ts:7 | the first CRLF becomes one LF, the text before it is kept and the text after it is rewritten in turn |
| CsvParser.CrLfToLfLone | lib/csv-parser.ts:7 | a CR not followed by LF is kept by the first replacement |
| CsvParser.CrToLf | lib/csv-parser.ts:7 | the length is kept and each position holds LF where the text had CR and the text's own character elsewhere, so no CR is left |
| CsvParser.LineBreakPair | lib/csv-parser.ts:7 | after both replacements the first CRLF of the text is one LF |
| CsvParser.LineBreakLone | lib/csv-parser.ts:7 | after both replacements the first CR not followed by LF is one LF |
| CsvParser.Normalize | lib/csv-parser.ts:7 | the normalised text holds no CR, and for text without CR it is the trimmed text |
| CsvParser.NormalizeCrLf | lib/csv-parser.ts:7 | normalising text whose first line break is CRLF gives the same as with LF there |
| CsvParser.NormalizeCr | lib/csv-parser.ts:7 | normalising text whose first line break is a lone CR gives the same as with LF there |
| CsvParser.FirstLine | lib/csv-parser.ts:10 | the first line is a newline-free prefix of the text, ended by a newline or by the end of the text |
| CsvParser.Separator | lib/csv-parser.ts:10-11 | the separator is `;` exactly when the first line contains `;` and no `,`; otherwise it is `,` |
| CsvParser.TrimCells | lib/csv-parser.ts:16 | header cells are trimmed one by one; the count is kept |
| CsvParser.DropBlankRows | lib/csv-parser.ts:17 | only rows with a non-blank cell are kept, and every such row is kept |
| CsvParser.DropBlankRowsOrder | lib/csv-parser.ts:17 | the blank-row filter keeps input order: filtering a concatenation filters each part |
| CsvParser.ParseCsv | lib/csv-parser.ts:6-20 | the result is the header row trimmed and the data rows untrimmed and without blank rows, all from the scan of the normalised text |
| CsvParser.ScanDoubled | lib/csv-parser.ts:32-35 | inside quotes, `""` adds one literal quote to the field and stays inside quotes |
| CsvParser.ScanCloses | lib/csv-parser.ts:32-37 | inside quotes, a quote not followed by another closes the quotes |
| CsvParser.ScanQuotedChar | lib/csv-parser.ts:39-41 | inside quotes, every other character, separator and newline included, is field text |
| CsvParser.QuotedRun | lib/csv-parser.ts:31-41 | a run of quote-doubled text and the closing quote add exactly the original text to the field |
| CsvParser.QuotedField | lib/csv-parser.ts:31-44 | a whole quoted field (opening quote, doubled text, closing quote) adds exactly the text to the current field |
| CsvParser.PlainText | lib/csv-parser.ts:53-55 | outside quotes, text without quotes, separators or newlines goes into the field unchanged |
| CsvParser.Split | lib/csv-parser.ts:45-47 | a quote-free line splits into one more cell than it has separators |
| CsvParser.UnquotedLine | lib/csv-parser.ts:45-52 | a quote-free line followed by a newline becomes one row: the line split at each separator |
| CsvParser.UnquotedLastLine | lib/csv-parser.ts:59-63 | a final line without a newline becomes a row exactly when one of its cells is non-blank |
| CsvParser.ScanAvoids | lib/csv-parser.ts:28-63 | the scanner only copies input characters: a character absent from the text is in no cell |
| CsvParser.NoCarriageReturn | lib/csv-parser.ts:7 | no header and no data cell contains a CR |
| CsvParser.BlankText | lib/csv-parser.ts:7-14 | text with no non-blank character gives no headers and no rows |
| CsvParser.EmptyScan | lib/csv-parser.ts:59-63 | scanning no text gives no row, because the single empty field is blank |
| CsvImport.FoldChar | lib/services/csv-import.ts:87 | a combining mark is dropped; any other character becomes one character, itself or, for a Latin-1 letter with a diacritic, an ASCII lower-case letter |
| CsvImport.StripAccents | lib/services/csv-import.ts:87 | the result holds no combining mark; for text without combining marks the length is kept and each character is kept or, if it is an accented Latin-1 letter, becomes an ASCII lower-case letter |
| CsvImport.StripAccentsEach | lib/services/csv-import.ts:87 | text whose characters each fold to one given letter becomes the text of those letters |
| CsvImport.StripAccentsPlain | lib/services/csv-import.ts:87 | text below U+00C0 is left as it is by the accent stripping |
| CsvImport.FoldedHeader | lib/services/csv-import.ts:87-88 | a header without surrounding blanks whose characters lower-case and fold to an alias names that alias's field |
| CsvImport.DescriptionAccented | lib/services/csv-import.ts:36 | the header `Descripción`, with its accent, names the description column |
| CsvImport.CategoryAccented | lib/services/csv-import.ts:53 | the header `Categoría`, with its accent, names the category column |
| CsvImport.AccountAccented | lib/services/csv-import.ts:59 | the header `Método de pago`, with its accent, names the account column |
| CsvImport.Labels | lib/services/csv-import.ts:86-88 | each column's label is the alias of its trimmed, lower-cased, accent-stripped header |
| CsvImport.Detect | lib/services/csv-import.ts:86-92 | every index the fold assigns is a column of the input |
| CsvImport.DetectColumnMapping | lib/services/csv-import.ts:73-95 | the `forEach` loop returns exactly the first-claim fold over the headers' labels |
| CsvImport.DetectClaims | lib/services/csv-import.ts:88-91 | a field is mapped only to a column whose header is one of its aliases |
| CsvImport.DetectFirst | lib/services/csv-import.ts:89-90 | no earlier column carries the same field: the first matching column wins |
| CsvImport.DetectComplete | lib/services/csv-import.ts:86-91 | every field named by some header is mapped |
| CsvImport.DetectedFirstMatch | lib/services/csv-import.ts:73-95 | over the headers: mapped fields point at alias headers, first match wins, every named field is mapped, and no two fields share a column |
| CsvImport.SlashDate | lib/services/csv-import.ts:107-111 | every rewrite of a slash date has the `DDDD-DD-DD` shape |
| CsvImport.IsoJoin | lib/services/csv-import.ts:109-111 | a four-digit year, then the month and the day padded to two digits, has the ISO shape |
| CsvImport.ParseDate | lib/services/csv-import.ts:98-115 | a date is returned exactly when the trimmed text has the ISO shape or the `D/M/YYYY` shape; it always has the ISO shape and length 10 |
| CsvImport.SlashDateShape | lib/services/csv-import.ts:106-112 | the slash rewrite applies exactly to one or two digits, `/`, one or two digits, `/` and four digits |
| CsvImport.IsoParsed | lib/services/csv-import.ts:101-104 | an ISO-shaped text is returned unchanged |
| CsvImport.ParseDateIdempotent | lib/services/csv-import.ts:98-115 | parsing a parsed date gives it back |
| CsvImport.ParseDateSlash | lib/services/csv-import.ts:106-112 | `D/M/YYYY` becomes `YYYY-MM-DD` with day and month zero-padded |
| CsvImport.RemoveSymbols | lib/services/csv-import.ts:121 | no `$`, `€`, `£` or `¥` is left, and text without them is unchanged |
| CsvImport.ParseAmount | lib/services/csv-import.ts:118-157 | the result is absent exactly when nothing parses, and otherwise it is the absolute value of the parse, so it is never negative |
| CsvImport.CleanNumeric | lib/services/csv-import.ts:119-121 | for digits, commas and dots the cleaning is only the separator choice |
| CsvImport.NormalizeCommaLast | lib/services/csv-import.ts:124-129 | with both separators and the comma last, the text splits at its first comma: the dots on both sides are removed and that first comma becomes a dot (any later comma stays) |
| CsvImport.NormalizeDotLast | lib/services/csv-import.ts:124-133 | with both separators and the dot last, the commas, all before the last dot, are removed and the text from that dot on is kept as it is |
| CsvImport.AmountCommaDecimalWithDots | lib/services/csv-import.ts:124-129 | dot-grouped digits then a comma decimal part parse to the grouped value with that fraction (`1.000,50` gives 1000.50) |
| CsvImport.AmountDotDecimalWithCommas | lib/services/csv-import.ts:130-133 | comma-grouped digits then a dot decimal part parse to the grouped value with that fraction |
| CsvImport.AmountDecimalComma | lib/services/csv-import.ts:134-138 | with only a comma followed by exactly two final digits, the comma is the decimal point |
| CsvImport.AmountThousandsComma | lib/services/csv-import.ts:139-142 | with only a comma followed by three final digits, the comma is a thousands separator |
| CsvImport.AmountExampleThousandsComma | lib/services/csv-import.ts:140 | `1,000` parses to 1000 |
| CsvImport.AmountManyDots | lib/services/csv-import.ts:143-151 | two or more dots are all thousands separators (`1.000.000` gives 1000000) |
| CsvImport.AmountSingleDot | lib/services/csv-import.ts:152 | a single dot is kept as the decimal point |
| CsvImport.TypeOfWord | lib/services/csv-import.ts:161-165 | a type is read exactly from the six words income, ingreso, expense, gasto, transfer, transferencia |
| CsvImport.ParseType | lib/services/csv-import.ts:160-166 | a type is read exactly when the trimmed, lower-cased value is one of the six words |
| CsvImport.ParseTypeReads | lib/services/csv-import.ts:161-165 | each English or Spanish name reads as its own type, whatever its case and surrounding blanks |
| CsvImport.TypeNamesRoundTrip | lib/services/csv-import.ts:160-166 | every stored type name reads back as its type |
| CsvImport.SpanishNamesRoundTrip | lib/services/csv-import.ts:160-166 | every Spanish type name reads back as its type |
| CsvImport.ParseCurrency | lib/services/csv-import.ts:169-173 | a currency is read exactly when the trimmed, upper-cased value is USD or COP |
| CsvImport.ReadCode | lib/services/csv-import.ts:170-171 | a value whose trimmed upper-case form is a code reads as that currency |
| CsvImport.CurrencyCodesRoundTrip | lib/services/csv-import.ts:169-173 | each code, and its lower-case spelling, reads back as its currency |
| CsvImport.GetField | lib/services/csv-import.ts:212-213 | an unmapped column, or one beyond the row, reads as the empty text |
| CsvImport.LookupLast | lib/services/csv-import.ts:215-216 | the name-to-id map finds a record exactly when some name matches case-insensitively, and then returns the id of the last matching record, as a later duplicate overwrites an earlier one |
| CsvImport.ResolvedType | lib/services/csv-import.ts:236-244 | the column's type when mapped and parsable; otherwise the default |
| CsvImport.ResolvedCurrency | lib/services/csv-import.ts:258-266 | the column's currency when mapped and parsable; otherwise the default |
| CsvImport.ResolvedAccount | lib/services/csv-import.ts:272-284 | a mapped account resolves exactly when some account name matches, to the id of the last matching account (`LookupLast`), with no fallback to the default; an unmapped one takes the default when there is one |
| CsvImport.ResolvedCategory | lib/services/csv-import.ts:290-297 | a category name resolves to the last matching category's non-empty id when there is one, and only when no category matches, to its non-empty override |
| CsvImport.ResolvedCategoryMissing | lib/services/csv-import.ts:290-297 | the name stays unresolved, so the row is rejected as not found, when neither map holds it, when its override is empty, or when a matching category has an empty id (which `??` does not pass over) |
| CsvImport.CheckRowFirstFailure | lib/services/csv-import.ts:218-302 | a row is accepted exactly when every check passes; a rejected row reports a failing check after all earlier checks in the order date, description, type, amount, currency, account, category passed |
| CsvImport.AcceptedDraft | lib/services/csv-import.ts:304-321 | an accepted draft carries the parsed date, the description, the resolved type, a positive amount, currency and account, the category, and merchant and notes absent exactly when empty |
| CsvImport.AcceptedDraftOptional | lib/services/csv-import.ts:290-321 | an accepted draft's category id is the id `ResolvedCategory` gives its non-empty category cell (none for an empty cell), and its merchant and notes, when present, are their trimmed cells |
| CsvImport.MappedAccountNoFallback | lib/services/csv-import.ts:274-280 | a mapped account name that matches nothing rejects the row with that name, even when a default account exists |
| CsvImport.Checked | lib/services/csv-import.ts:218 | one result per row, in row order |
| CsvImport.ProcessCsvRows | lib/services/csv-import.ts:200-325 | the loop returns the accepted drafts and the errors of the per-row results, and their counts add up to the number of rows |
| CsvImport.SortRows | lib/services/csv-import.ts:209-324 | the loop sorts each row's result into the valid list or the error list |
| CsvImport.PartitionCount | lib/services/csv-import.ts:218-322 | every row lands in exactly one of the two lists |
| CsvImport.ErrorsNameRejected | lib/services/csv-import.ts:219-300 | every error names a rejected row by index + 2 and carries that row's message |
| CsvImport.ErrorsIncreasing | lib/services/csv-import.ts:219 | error rows lie between 2 and the row count + 1 and strictly increase |
| CsvImport.ErrorsComplete | lib/services/csv-import.ts:218-300 | every rejected row has its error in the list |
| CsvImport.AcceptedRows | lib/services/csv-import.ts:310 | a draft is valid exactly when some row was accepted with it |
| CsvImport.UnknownNames | lib/services/csv-import.ts:184-193 | the unknown names hold no repeats and are exactly the non-empty trimmed cells that match no known name case-insensitively |
| CsvImport.CollectUnknown | lib/services/csv-import.ts:186-193 | the loop filling the set gives exactly those names, in first-seen order |
| CsvImport.FindUnknownCategories | lib/services/csv-import.ts:176-196 | empty when the category column is unmapped; otherwise exactly the unknown names, sorted and without repeats |
| CsvImport.CommitPartition | lib/services/csv-import.ts:335-346 | every draft is either committed or reported, once |
| CsvImport.CommitErrorRows | lib/services/csv-import.ts:339-344 | each commit error names a failed draft by position + 1 with the store's message, in increasing order |
| CsvImport.ImportTransactions | lib/services/csv-import.ts:328-349 | drafts are committed in order; `imported` plus the error count equals the draft count; progress is reported after each attempt; the ledger stays consistent and gains exactly the committed drafts |
| CsvImport.CommitNext | lib/services/csv-import.ts:336-345 | one attempt commits the draft or records its error, and keeps the ledger consistent |
| Domain.Delta | lib/services/transactions.ts:191-198 | income adds the amount; expense and transfer subtract it |
| Domain.ReverseType | lib/services/transactions.ts:151 | the reversing type's delta is the negation of the original's, for every type and amount |
| Domain.Balance.Add | lib/services/transactions.ts:194-198 | only the field of the given currency changes, by the delta |
| Transactions.ApplyDelta | lib/services/transactions.ts:182-204 | `updateAccountBalance`: only the given account's field for the given currency changes, by the signed amount; a missing account changes nothing |
| Transactions.Ledger.UpdateAccountBalance | lib/services/transactions.ts:182-204 | the read-modify-write leaves the balances as `ApplyDelta` of the old ones; when the read fails or the write is refused, nothing changes and no error is raised |
| Transactions.LostWriteBreaksBalance | lib/services/transactions.ts:182-204 | once an entry with a non-zero amount on a known account is recorded while the balance write is lost, the balances no longer equal opening plus contributions |
| Transactions.Ledger.constructor | lib/services/transactions.ts:182-204 | a store with no entries is consistent with its opening balances |
| Transactions.Ledger.CreateTransaction | lib/services/transactions.ts:81-110 | a failed record write changes nothing; a failed items write leaves the record and skips the balance update; otherwise the entry is appended and succeeds, and its delta is applied once, keeping balance = opening + contributions, unless the balance write is lost, in which case the balances stay unchanged |
| Transactions.Ledger.UpdateTransaction | lib/services/transactions.ts:112-162 | an unknown id fails with nothing changed. Otherwise the entry is patched field by field from the update or the original, the original effect is reversed and the new one applied, and consistency is kept. Either balance write may be lost: the update still succeeds and that step changes nothing |
| Transactions.Ledger.DeleteTransaction | lib/services/transactions.ts:164-180 | the entry is removed and its effect reversed with the stored amount, currency and account; an unknown id or a failed delete changes nothing; consistency is kept, except that a lost balance write leaves the balances unchanged after a successful delete |
| Transactions.Patched | lib/services/transactions.ts:155-158 | type, amount, currency and account come from the update when present, else from the original |
| Transactions.Find | lib/services/transactions.ts:114 | the position of the entry with that id, or none when no entry has it |
| Transactions.ContributionAppend | lib/services/transactions.ts:107 | a new entry adds exactly its own effect to every balance's contribution |
| Transactions.ContributionRemove | lib/services/transactions.ts:176-177 | removing an entry subtracts exactly its effect |
| Transactions.ContributionReplace | lib/services/transactions.ts:151-159 | replacing an entry swaps its effect for the new one's |
| Transactions.CreateKeepsConsistent | lib/services/transactions.ts:107 | create preserves balance = opening + the signed contributions of live entries |
| Transactions.DeleteKeepsConsistent | lib/services/transactions.ts:176-177 | delete preserves the same invariant |
| Transactions.UpdateKeepsConsistent | lib/services/transactions.ts:151-159 | update, reverse then re-apply, preserves the same invariant |
| Transactions.ReverseRestores | lib/services/transactions.ts:176-177 | applying an effect and then its reverse restores every balance, for all three types |
| Transactions.UnchangedUpdateKeepsBalances | lib/services/transactions.ts:151-159 | an update that keeps type, amount, currency and account leaves every balance unchanged |
| Transactions.MoveShiftsSignedAmount | lib/services/transactions.ts:151-159 | moving an entry to another account or currency moves exactly its signed amount from the old balance to the new one; nothing else changes |
| Transactions.GetStats | lib/services/transactions.ts:206-239 | the loop's sums are the income and expense totals per currency, and each balance is income minus expense |
| Transactions.TransfersNotCounted | lib/services/transactions.ts:225-233 | a transfer adds to neither the income nor the expense totals |
| TransactionsContent.FilteredTransactions | components/transactions/transactions-content.tsx:61-67 | an empty search keeps every transaction; otherwise exactly the transactions whose lower-cased description contains the lower-cased search are kept |
| TransactionsContent.FilteredInOrder | components/transactions/transactions-content.tsx:61-67 | the search filter keeps the list's order: filtering a concatenation is the concatenation of the filtered parts |
| TransactionsContent.Toggled | components/transactions/transactions-content.tsx:81-88 | the toggled id is selected exactly when it was not; every other id keeps its membership |
| TransactionsContent.ToggledTwice | components/transactions/transactions-content.tsx:81-88 | toggling the same id twice restores the selection |
| TransactionsContent.Screen.constructor | components/transactions/transactions-content.tsx:77-79 | the screen starts outside selection mode, with nothing selected, the merge dialog closed and no toast |
| TransactionsContent.Screen.ToggleSelect | components/transactions/transactions-content.tsx:81-88 | the new selection is the old one with the id toggled; nothing else changes |
| TransactionsContent.Screen.ExitSelectionMode | components/transactions/transactions-content.tsx:90-93 | leaves selection mode and clears the selection |
| TransactionsContent.SelectedTransactions | components/transactions/transactions-content.tsx:95-98 | exactly the visible transactions whose id is selected |
| TransactionsContent.SelectedInOrder | components/transactions/transactions-content.tsx:95-98 | the selection keeps the visible list's order |
| TransactionsContent.DistinctSize | components/transactions/transactions-content.tsx:108-131 | the set of keys has more than one element exactly when some selected transaction differs from the first on that key |
| TransactionsContent.MergeCheckMeaning | components/transactions/transactions-content.tsx:100-137 | fewer than two selected is refused first; then the first of date, category (no category counting as its own value), account and type on which the selection is not uniform gives its toast; otherwise the dialog opens |
| TransactionsContent.MergeCheckIgnoresCurrency | components/transactions/transactions-content.tsx:100-137 | the verdict of the checks as written does not depend on the currencies of the selected transactions |
| TransactionsContent.MergeCheckStrict | components/transactions/transactions-content.tsx:100-137 | every refusal of the checks as written is kept, with the same toast |
| TransactionsContent.MergeCheckStrictMeaning | components/transactions/transactions-content.tsx:100-137 | the corrected checks open the dialog exactly for two or more transactions agreeing on date, category, account, type and currency |
| TransactionsContent.Screen.HandleMergeAttempt | components/transactions/transactions-content.tsx:100-137 | with the checks as written (no currency check): when they pass the dialog opens and no toast is added; otherwise exactly the failing check's message is appended and the dialog state is unchanged |
| TransactionsContent.Screen.HandleMergeAttemptStrict | components/transactions/transactions-content.tsx:100-137 | corrected: the same with the currency compared after the type, so a selection mixing USD and COP is refused with the currency message |
| MergeDialog.MergedItems | components/forms/merge-transactions-dialog.tsx:53-57 | one item per source transaction, in order, named by its description, quantity 1 and unit price its amount |
| MergeDialog.MergedItemsAddUp | components/forms/merge-transactions-dialog.tsx:52-57 | the sum of quantity times unit price over the items equals the summed amount |
| MergeDialog.MergedDraft | components/forms/merge-transactions-dialog.tsx:63-75 | the merged transaction takes the summed amount, the user, and type, currency, account, category, budget and date of the first source; an empty description becomes the default text with the count |
| MergeDialog.ShowPreview | components/forms/merge-transactions-dialog.tsx:49-57 | nothing is shown for fewer than two transactions; otherwise the first transaction, the items and their total |
| MergeDialog.UniformContribution | lib/services/transactions.ts:182-204 | transactions sharing account, currency and type together move their account's balance by the signed sum of their amounts and no other balance |
| MergeDialog.MergedBookingMatches | components/forms/merge-transactions-dialog.tsx:63-75 | when the sources share account, currency and type, the merged transaction moves every balance exactly as the sources together do |
| MergeDialog.StrictOpenBooksAlike | components/transactions/transactions-content.tsx:100-137 | a selection the corrected checks let through has at least two transactions, all on one account, currency and type |
| MergeDialog.MergePreservesBalances | components/forms/merge-transactions-dialog.tsx:59-91 | for a selection the corrected checks let through, the merged transaction's balance effect equals the sources' combined effect on every account and currency |
| MergeDialog.MixedCurrenciesPass | components/transactions/transactions-content.tsx:100-137 | 10 USD and 40000 COP on one account, date and type pass the checks as written |
| MergeDialog.MixedCurrenciesMisbooked | components/forms/merge-transactions-dialog.tsx:63-75 | merging them books 40010 against the USD balance where the sources had booked 10 |
| MergeDialog.MixedCurrenciesRefused | components/transactions/transactions-content.tsx:100-137 | the corrected checks refuse the same selection with the currency message |
| MergeDialog.Deletes | components/forms/merge-transactions-dialog.tsx:79-81 | one delete call per source, in order, by id |
| MergeDialog.FirstRefusal | components/forms/merge-transactions-dialog.tsx:79-87 | the index of the first delete the store refuses (or the count when none is refused): every earlier delete succeeds |
| MergeDialog.KeptHas | lib/services/transactions.ts:168-173 | an entry whose id is not removed stays |
| MergeDialog.KeptFrom | lib/services/transactions.ts:168-173 | whatever stays was there before and its id was not removed |
| MergeDialog.KeptTwice | lib/services/transactions.ts:168-173 | removing one set of ids and then another is removing their union |
| MergeDialog.DeleteNext | components/forms/merge-transactions-dialog.tsx:79-81 | one delete: it succeeds exactly before the first refusal, and then removes that source and reverses its effect; a refused delete changes nothing |
| MergeDialog.DeleteSources | components/forms/merge-transactions-dialog.tsx:79-81 | the loop stops at the first refused delete; the sources before it are removed and their combined effect reversed on every balance; the calls made are the deletes up to and including the refused one |
| MergeDialog.CreatedThenDeleted | components/forms/merge-transactions-dialog.tsx:63-81 | after creating the merged transaction and deleting some sources, each balance is the old one plus the merged effect minus the deleted sources' effect |
| MergeDialog.BookedMergeNets | components/forms/merge-transactions-dialog.tsx:63-81 | when the sources share account, currency and type and all deletes succeed, every balance ends where it started |
| MergeDialog.FinishMerge | components/forms/merge-transactions-dialog.tsx:78-87 | after the merged transaction exists: the deletes up to the first refusal, the success toast with the count when none is refused and the error toast otherwise; the merged transaction stays |
| MergeDialog.HandleMerge | components/forms/merge-transactions-dialog.tsx:59-91 | a refused creation changes nothing; a refused item write leaves the merged transaction without items and balances unchanged; otherwise the merged transaction is booked, the sources before the first refused delete are removed with their effects reversed, and when the sources share account, currency and type and every delete succeeds, all balances are unchanged |
| ImportDialog.UpdateMapping | components/forms/csv-import-dialog.tsx:203-214 | the loop's result is the mapping with every other field that held the column released and the field set to it (or unmapped) |
| ImportDialog.ReassignEffect | components/forms/csv-import-dialog.tsx:203-214 | an injective mapping stays injective; the column belongs to the field afterwards; the field's old column becomes free; every other column keeps its owner |
| ImportDialog.ReassignInjective | components/forms/csv-import-dialog.tsx:203-214 | reassigning keeps the mapping injective and maps the field |
| ImportDialog.ReassignFreesOld | components/forms/csv-import-dialog.tsx:203-214 | the field's previous column is left without an owner |
| ImportDialog.ReassignKeepsOthers | components/forms/csv-import-dialog.tsx:203-214 | columns other than the new and the old one keep their owners |
| ImportDialog.UnmapEffect | components/forms/csv-import-dialog.tsx:203-214 | unmapping a field keeps the mapping injective, frees its column and leaves every other column's owner |
| ImportDialog.SkipColumn | components/forms/csv-import-dialog.tsx:406-413 | the loop's result is the mapping with every field that held the column released |
| ImportDialog.SkipColumnEffect | components/forms/csv-import-dialog.tsx:406-413 | afterwards the column has no owner, every other column keeps its owner, and injectivity is kept |
| ImportDialog.Owner | components/forms/csv-import-dialog.tsx:216-221 | no owner exactly when no field holds the column; otherwise a field that holds it |
| ImportDialog.MappingForColumn | components/forms/csv-import-dialog.tsx:216-221 | the loop returns the column's owner, or none for the skip entry |
| ImportDialog.FirstOwnerAgrees | components/forms/csv-import-dialog.tsx:216-221 | two mappings that give the column the same holders report the same owner |
| ImportDialog.OwnerOfInjective | components/forms/csv-import-dialog.tsx:216-221 | in an injective mapping, a field's column is reported as belonging to that field |
| ImportDialog.UnsatisfiedAmong | components/forms/csv-import-dialog.tsx:223-230 | exactly the required fields that are unmapped and not covered by a default (type, currency, account) |
| ImportDialog.GatePassed | components/forms/csv-import-dialog.tsx:223-230 | when nothing is missing, date, description and amount are mapped, and type, currency and account are mapped or defaulted |
| ImportDialog.EmptyCellNoDate | lib/services/csv-import.ts:98-115 | an unmapped column reads as the empty cell, which is no date |
| ImportDialog.EmptyCellNoAmount | lib/services/csv-import.ts:118-157 | the empty cell is no amount |
| ImportDialog.UnmappedDateFails | lib/services/csv-import.ts:221-227 | with the date unmapped every row fails the date check |
| ImportDialog.UnmappedDescriptionFails | lib/services/csv-import.ts:229-234 | with the description unmapped every row fails the description check |
| ImportDialog.UnmappedAmountFails | lib/services/csv-import.ts:250-256 | with the amount unmapped every row fails the amount check |
| ImportDialog.UnmappedTypeFails | lib/services/csv-import.ts:236-248 | with the type unmapped and no default every row fails the type check |
| ImportDialog.UnmappedCurrencyFails | lib/services/csv-import.ts:258-270 | with the currency unmapped and no default every row fails the currency check |
| ImportDialog.UnmappedAccountFails | lib/services/csv-import.ts:272-288 | with the account unmapped and no default every row fails the account check |
| ImportDialog.FailingRowRejected | lib/services/csv-import.ts:218-302 | a row failing any check is rejected |
| ImportDialog.MissingRejectsEveryRow | components/forms/csv-import-dialog.tsx:223-230 | any field the gate reports missing would reject every row, so the gate only blocks imports that could not succeed |
| ImportDialog.ProceedResolved | components/forms/csv-import-dialog.tsx:233-247 | the import starts at once exactly when no category name is unknown; otherwise the resolve step opens with every unknown name resolved to "create" under its own name, so the resolve button is enabled |
| ImportDialog.CellTrimmed | components/forms/csv-import-dialog.tsx:256-263 | an unknown name, being a non-empty trimmed cell, survives the trim in the "create" check |
| ImportDialog.OverridesAbort | components/forms/csv-import-dialog.tsx:265-296 | the overrides are built exactly when no name's creation fails and every name has a resolution |
| ImportDialog.OverridesEntries | components/forms/csv-import-dialog.tsx:273-286 | every override key is the lower-cased name of an "existing" or "create" resolution; the last such name for each key gives its category id |
| ImportDialog.CreationsAfterAbort | components/forms/csv-import-dialog.tsx:273-296 | once one name aborts, later names request no creation and no overrides are produced |
| ImportDialog.BuildOverrides | components/forms/csv-import-dialog.tsx:265-296 | the loop yields the overrides, or none on failure, and exactly the creation requests made up to the failure |
| ImportDialog.OverrideResolves | components/forms/csv-import-dialog.tsx:273-290 | a name resolved to an existing or created category reads as that category's id during the import |
| ImportDialog.SkippedNameRejected | components/forms/csv-import-dialog.tsx:285 | as written, a row whose category was resolved as "skip" is still rejected with "category not found" |
| ImportDialog.SkippingOnlySkipped | components/forms/csv-import-dialog.tsx:285 | the corrected check treats every row whose category was not skipped exactly as before |
| ImportDialog.JudgeSkipped | components/forms/csv-import-dialog.tsx:285 | a reading that passed every earlier check and whose unknown category was skipped is accepted with no category |
| ImportDialog.SkippedNameImported | components/forms/csv-import-dialog.tsx:285 | with the correction, such a row is imported with no category |
| ImportDialog.SkippedUnresolved | components/forms/csv-import-dialog.tsx:273-290 | a name resolved as "skip" in every spelling, and unknown to the user's categories, resolves to no category id |
| ImportDialog.SkippedResolutionImported | components/forms/csv-import-dialog.tsx:273-290 | corrected: on the input of `SkippedNameRejected`, with the skipped set taken from the user's resolutions, the row is imported with no category |
| ImportDialog.ProcessRowsSkipping | lib/services/csv-import.ts:200-325 | the corrected processing returns the accepted drafts and the errors of the skipping-aware per-row results |
| ImportDialog.AcceptedLinesMatch | lib/services/csv-import.ts:218-302 | the file line of each accepted draft (row index + 2) is listed in order, points at that draft's row, and lines increase |
| ImportDialog.CommitErrorsMisnumbered | components/forms/csv-import-dialog.tsx:314-321 | as written, commit errors carry draft positions, which are smaller than the draft's file line; the first failed draft reports row 1 |
| ImportDialog.RenumberedCommitErrors | components/forms/csv-import-dialog.tsx:318-321 | renumbered commit errors name the file line of an accepted row whose commit failed, with the store's message, in increasing order, and never the line of a validation error |
| ImportDialog.CommitDrafts | lib/services/csv-import.ts:328-349 | the drafts are committed in order: the ledger gains exactly the committed drafts and the errors are those of the failed ones |
| ImportDialog.DoImportAsWritten | components/forms/csv-import-dialog.tsx:298-325 | as written: no accepted draft imports nothing; otherwise the validation errors followed by the commit errors numbered by draft position, and the ledger gains exactly the committed drafts |
| ImportDialog.DoImport | components/forms/csv-import-dialog.tsx:298-325 | corrected: skipped categories are honoured and commit errors carry file lines; the ledger gains exactly the committed drafts |
| CsvParser.DoubleQuotes | components/reports/export-csv.tsx:21 | doubling the quotes adds exactly one character per quote in the text |
| ExportCsv.Quote | components/reports/export-csv.tsx:21-22 | a quoted field is the text with every quote doubled inside a pair of quotes: two characters plus one per quote longer than the text |
| ExportCsv.ExportRow | components/reports/export-csv.tsx:19-29 | one cell per header column |
| ExportCsv.ExportRows | components/reports/export-csv.tsx:19-29 | one row per transaction, in order, each the transaction's exported row |
| ExportCsv.ExportCells | components/reports/export-csv.tsx:19-29 | one cell per header column, the notes cell quoted |
| ExportCsv.ExportCellsRendered | components/reports/export-csv.tsx:19-29 | rendering the structured cells gives exactly the exported row's texts |
| ExportCsv.ExportValues | components/reports/export-csv.tsx:19-29 | the values a reader recovers: date, description, merchant, type name, the amount as shown, currency code, category name, account name, notes, with a missing merchant, category, account or notes as the empty text |
| ExportCsv.DocumentLines | components/reports/export-csv.tsx:31 | the document is the header line and one line per row, joined by newlines, each line's cells joined by commas |
| ExportCsv.LinesScan | lib/csv-parser.ts:22-66 | the parser's scan of such a document reads back exactly the cell values of every line |
| ExportCsv.CellsScan | lib/csv-parser.ts:28-55 | a line of readable cells, plain or quoted, scans back to the cells' values |
| ExportCsv.ReadBack | lib/csv-parser.ts:6-20 | parsing a document of readable lines with a clean header gives back the header values and the rows' values |
| ExportCsv.DocumentRoundTrip | components/reports/export-csv.tsx:18-31 | parsing the export of any transactions whose plain cells hold no quote, comma or line break gives back the header and each transaction's values |
| ExportCsv.ExportRoundTrip | components/reports/export-csv.tsx:18-31 | the exported file parses back to the nine headers and, row for row, the values of each exported transaction |
| ExportCsv.ExportColumn | components/reports/export-csv.tsx:18 | every import field has a column of the export header |
| ExportCsv.ColumnField | components/reports/export-csv.tsx:18 | each export column's field is mapped back to that column |
| ExportCsv.ColumnRoundTrip | components/reports/export-csv.tsx:18 | field to column to field is the identity |
| ExportCsv.HeaderWords | components/reports/export-csv.tsx:18 | the export header has nine plain ASCII words |
| ExportCsv.WordAlias | lib/services/csv-import.ts:86-88 | an ASCII header whose lower-case spelling is an alias is read as that alias's field |
| ExportCsv.HeaderNames | lib/services/csv-import.ts:31-70 | each export header name is an alias of its own column's field |
| ExportCsv.DetectsHeader | lib/services/csv-import.ts:73-95 | a header whose every name is read as its column's field maps every field to its export column |
| ExportCsv.DetectsExportHeader | lib/services/csv-import.ts:73-95 | importing an exported file maps every field to the column the export put it in |
| ExportCsv.ExportedCodesRead | lib/services/csv-import.ts:160-173 | the exported type and currency cells read back as the transaction's type and currency |
| CategorySuggestions.Weight | lib/services/category-suggestions.ts:34-45 | the weight is one of 10, 5, 1 and 0 |
| CategorySuggestions.WeightMeaning | lib/services/category-suggestions.ts:34-45 | weight 10 exactly for an exact match; 5 exactly for a prefix match in either direction that is not exact; 0 exactly when neither description contains the other |
| CategorySuggestions.Votes | lib/services/category-suggestions.ts:31-53 | one vote per past entry |
| CategorySuggestions.ScoreFirst | lib/services/category-suggestions.ts:31-53 | a category has a positive score exactly when some vote for it has positive weight |
| CategorySuggestions.TalliesScore | lib/services/category-suggestions.ts:29-53 | the tally map holds each category with a positive score once, with its summed weight and the name of its first vote, in first-vote order, and no other category |
| CategorySuggestions.BestLeads | lib/services/category-suggestions.ts:57-68 | some non-empty tally of positive counts has an entry the scan picks: strictly greater than every earlier count and at least every later one |
| CategorySuggestions.CountVotes | lib/services/category-suggestions.ts:29-53 | the counting loop returns the tally of the votes |
| CategorySuggestions.ScanBest | lib/services/category-suggestions.ts:57-68 | the scanning loop returns the first entry with the greatest count |
| CategorySuggestions.NoVotesEmpty | lib/services/category-suggestions.ts:55 | the tally is empty exactly when no past entry resembles the description |
| CategorySuggestions.PickedTop | lib/services/category-suggestions.ts:55-68 | when some entry resembles the description, the pick is the unique top scorer, with the name of its first vote |
| CategorySuggestions.TopUnique | lib/services/category-suggestions.ts:57-68 | the top scorer, ties going to the first met, is unique |
| CategorySuggestions.OutcomeMeaning | lib/services/category-suggestions.ts:55-70 | no resembling entry gives no suggestion; otherwise the top scorer is suggested, unless its id is empty |
| CategorySuggestions.Suggest | lib/services/category-suggestions.ts:12 | a description shorter than two characters gets no suggestion |
| CategorySuggestions.SuggestionMeaning | lib/services/category-suggestions.ts:12-70 | for a description of two or more characters: no suggestion when no past entry resembles it; otherwise the category with the greatest weighted count, ties to the first met, with its first-seen name |
| CategorySuggestions.SuggestCategory | lib/services/category-suggestions.ts:7-71 | the method's two loops compute exactly the suggestion |
| Sorting.SortBy | lib/services/items.ts:123 | the result is ordered by the key and is a permutation of the input |
| Sorting.SortStrings | lib/services/csv-import.ts:195 | the names come out in order, as a permutation of the input |
| Sorting.SortedDistinct | lib/services/csv-import.ts:195 | sorting names without repeats gives names without repeats |
| Sorting.SortDescending | lib/services/items.ts:91 | the result is ordered by decreasing rank and is a permutation of the input |
| Sorting.SortByStable | lib/services/items.ts:123 | the sort is stable: the elements with the same key come out in their input order |
| Sorting.SortDescendingStable | lib/services/items.ts:91 | the sort is stable: the elements with the same rank come out in their input order |
| Sorting.LexMax | lib/services/items.ts:86 | the latest string is one of the inputs and no input is later |
| Items.GroupRows | lib/services/items.ts:52-71 | the grouping loop returns exactly the key-by-key fold of the rows |
| Items.GroupedGroups | lib/services/items.ts:43-71 | one group per distinct trimmed, lower-cased name, no key twice; each group holds the name of its first row and the prices, quantities, dates and currencies of its rows, in row order |
| Items.GroupedCount | lib/services/items.ts:52-71 | the groups together hold every row exactly once |
| Items.GroupedWellFormed | lib/services/items.ts:56-70 | every group has at least one row and as many quantities, dates and currencies as prices |
| Items.MinOf | lib/services/items.ts:83 | the minimum is one of the prices and no price is smaller |
| Items.MaxOf | lib/services/items.ts:84 | the maximum is one of the prices and no price is larger |
| Items.SummarizeGroups | lib/services/items.ts:73-89 | the summary loop gives one summary per group, in order |
| Items.SummaryOfRows | lib/services/items.ts:74-88 | a group's summary counts its rows, sums the quantities and price times quantity, has the first row's name and currency, minimum and maximum prices among the rows' prices, and the latest date among the rows' dates |
| Items.GetItemsSummary | lib/services/items.ts:34-92 | the method computes exactly the sorted summaries |
| Items.ItemsSummaryMeaning | lib/services/items.ts:43-91 | the summaries are in decreasing purchase count and are exactly one summary per distinct item name |
| Items.ItemsSummaryTies | lib/services/items.ts:43-91 | items bought equally often keep the order in which their names first appear among the rows |
| Items.PurchaseCountsAddUp | lib/services/items.ts:73-91 | the purchase counts add up to the number of item rows |
| Items.PriceHistory | lib/services/items.ts:111-123 | the history is ordered by date and holds exactly one entry per item row |
| Items.PriceHistorySameDate | lib/services/items.ts:106-123 | entries of the same date keep the order in which the query returned them, by id |
| ItemsContent.FilteredItems | components/items/items-content.tsx:45-49 | an empty search keeps every item; otherwise exactly the items whose lower-cased name contains the lower-cased search |
| ItemsContent.FilteredItemsInOrder | components/items/items-content.tsx:45-49 | the filter keeps the list's order |
| ItemsContent.FullNameFound | components/items/items-content.tsx:45-49 | searching for an item's full name, in any case, finds it |
| ItemsContent.Removed | components/items/items-content.tsx:55 | removing a name drops it and keeps every other name |
| ItemsContent.RemovedNoRepeats | components/items/items-content.tsx:55 | removing keeps the selection free of repeats |
| ItemsContent.RemovedAdded | components/items/items-content.tsx:55-57 | removing a name just added restores the selection |
| ItemsContent.Toggled | components/items/items-content.tsx:51-61 | the name is selected afterwards exactly when it was not and fewer than five were selected; other names keep their membership; the selection never grows past five |
| ItemsContent.ToggledNoRepeats | components/items/items-content.tsx:51-61 | toggling keeps the selection free of repeats |
| ItemsContent.ToggledTwice | components/items/items-content.tsx:51-61 | toggling an unselected name twice restores the selection |
| ItemsContent.Clicked | components/items/items-content.tsx:63-66 | clicking the active item closes it; clicking any other item makes it active |
| ItemsContent.ClickedTwice | components/items/items-content.tsx:63-66 | clicking the same item twice restores the state exactly when nothing or that item was active |
| ItemsContent.Screen.constructor | components/items/items-content.tsx:27-31 | no search, nothing selected, not comparing, no active item |
| ItemsContent.Screen.ToggleSelect | components/items/items-content.tsx:51-61 | the selection becomes the toggled selection and stays within five names without repeats |
| ItemsContent.Screen.HandleItemClick | components/items/items-content.tsx:63-66 | the active item becomes the clicked one, or none when it was already active |
| ItemsContent.Screen.StartCompare | components/items/items-content.tsx:68-71 | comparison mode is on and no item is active |
| ItemsContent.Screen.ExitCompare | components/items/items-content.tsx:73-76 | comparison mode is off and the selection is empty |
| Categories.VisitRow | lib/services/categories.ts:87-106 | one pass of the `forEach` body: the row is folded into the per-category entries |
| Categories.GetCategorySpending | lib/services/categories.ts:84-108 | the loop computes exactly the per-category totals |
| Categories.AggregatedAggregates | lib/services/categories.ts:84-106 | one entry per category met, no category twice; each entry has the name and color of the category's first row and the USD and non-USD totals of its rows; rows without a category are skipped |
| Categories.CategorySpendingMeaning | lib/services/categories.ts:72-109 | the result has one value per category with at least one row, with the category's name and color and the sums of its USD amounts and of its other amounts |
| Categories.SpendingTotal | lib/services/categories.ts:84-108 | the values add up to the total amount of the rows that carry a category |
| Budgets.Left | lib/services/budgets.ts:118-119 | what is left is never negative, reaches the limit, and is zero or exactly the difference |
| Budgets.Exceeded | lib/services/budgets.ts:110-111 | only a positive limit can be exceeded, and it is exceeded exactly when nothing is left and spending is not exactly at the limit |
| Budgets.IsOverBudget | lib/services/budgets.ts:108-113 | over budget in a currency exactly when its limit is positive and spending exceeds it |
| Budgets.RemainingBudget | lib/services/budgets.ts:116-121 | the remainder per currency is the limit minus the spending while spending is within the limit, and zero otherwise |
| Budgets.OverBudgetHasNothingLeft | lib/services/budgets.ts:108-121 | a currency over budget has nothing remaining, and one with something remaining is not over budget |
| CurrencyInput.FormatDisplay | components/ui/currency-input.tsx:15-21 | zero shows as the empty text; any other value shows as its locale formatting |
| CurrencyInput.ParseInput | components/ui/currency-input.tsx:23-28 | the commas are removed and the rest parsed; text that does not parse reads as zero |
| CurrencyInput.CurrencyField.constructor | components/ui/currency-input.tsx:37-39 | the field starts showing the formatted value, or nothing for zero, and has emitted no value |
| CurrencyInput.CurrencyField.HandleChange | components/ui/currency-input.tsx:50-76 | an empty input clears the field and emits zero; an accepted input is shown as typed and its parsed value emitted; any other input changes nothing |
| CurrencyInput.AcceptsMeaning | components/ui/currency-input.tsx:61-70 | an input is accepted exactly when it has only digits, commas, dots and minus signs, at most one dot, and at most two characters after the dot |
| CurrencyInput.AcceptsAmounts | components/ui/currency-input.tsx:61-70 | digits with commas, alone or followed by a dot and at most two digits, are accepted |
| CurrencyInput.ParseInputGrouped | components/ui/currency-input.tsx:23-28 | comma-grouped digits with a decimal part read as the grouped digits' decimal value |
| CurrencyInput.ParseInputNothing | components/ui/currency-input.tsx:23-28 | input of only commas and minus signs reads as zero |
| Numbers.ParseFloat | lib/services/csv-import.ts:155 | a number is read exactly when, after leading blanks and one optional sign, the text starts with a digit or with a dot followed by a digit |
| Numbers.ParseFloatInteger | lib/services/csv-import.ts:155 | a run of digits reads as its integer value |
| Numbers.ParseFloatDecimal | lib/services/csv-import.ts:155 | digits, a dot and digits read as their decimal value |

## Left out

- Database access: every query, insert, update and delete goes to an in-memory store (`Transactions.Ledger`), or the model receives the query's result as a parameter. A refused write is an explicit `StoreFault` argument. Query filters, joins, ordering and the 200-row limit of the suggestion query are not modelled.
- Transactions.Ledger.UpdateTransaction: a refused items write is modelled as the delete of the old items being refused, which keeps them. The case where the delete succeeds and the insert of the new items is then refused, leaving no items, is not modelled.
- Concurrency: the unlocked read-modify-write of balances and interleaved requests are out of scope. Every run is single-threaded. The missing rollback between a record write and its balance update is modelled, as a fault that leaves the record in place.
- Strings are sequences of Unicode scalar values, while JavaScript strings are sequences of UTF-16 code units. The two agree inside the Basic Multilingual Plane. Beyond it, lengths and the default order differ. An emoji has length 1 here and 2 in JavaScript, so `CategorySuggestions.Suggest` refuses a lone emoji that `suggestCategory` would look up. `Sorting.SortStrings` puts an emoji after U+FF46, where `sort()` puts it before.
- CsvImport.ImportTransactions, CsvImport.CommitNext, ImportDialog.CommitDrafts, ImportDialog.DoImportAsWritten, ImportDialog.DoImport, MergeDialog.DeleteNext, MergeDialog.DeleteSources, MergeDialog.FinishMerge, MergeDialog.HandleMerge: every balance write lands. A lost balance write is modelled in `Transactions.Ledger` alone, because these callers keep the balance invariant across their loops.
- Floating point: money is an exact `real`, with no rounding and no precision limit.
- `parseFloat` accepts only optional blanks, an optional sign, digits, and an optional dot with digits. Exponents, `Infinity` and the other JavaScript number syntaxes are not modelled.
- `Number.prototype.toString` and `toLocaleString` are parameters (`show`, `localeFormat`) rather than definitions. So the export's amount cell is only assumed to hold no comma, quote or line break, and the currency input's non-zero display is the parameter's result.
- `avgPrice` in `getItemsSummary` is a floating-point division and is not part of `Items.Summary`.
- `String.prototype.normalize("NFD")` is a fixed table that strips the accents of Latin-1 letters. `toLowerCase` and `toUpperCase` map ASCII and Latin-1 letters only: U+00C0-U+00DE and U+00E0-U+00FE, without the multiplication and division signs. `ß`, `ÿ` and `µ`, whose upper-case forms are two letters or lie outside Latin-1, are left as they are, as are the letters of other scripts.
- Items.PriceHistory: `localeCompare` on dates is modelled as the default character order. The two agree on ISO dates, which are digits and dashes.
- React rendering, hooks, toasts other than the merge-check messages, timers, focus and blur handling of the currency input, and its external-value sync effect are left out. So are the file reader and drag-and-drop, the download of the exported file and its file name, and the charts and price-history hooks of the items screen.
- `onProgress` is returned as a sequence of `(current, total)` pairs. The dialog's rounded percentage is not modelled.
- `updateResolution` in the import dialog is a UI state merge and is not modelled. Resolutions are given as a map.
- The signed-in user check at the start of `handleResolveAndImport` and `doImport` is not modelled. A user is always present.
- The success handlers after a merge (`onOpenChange`, `onSuccess`, the screen's refetch) are UI callbacks and are left out.

## Findings

| source | as written | input that shows it | evidently intended | confidence | as-written member | corrected member |
|---|---|---|---|---|---|---|
| components/forms/csv-import-dialog.tsx:314-321 | commit errors carry the draft's position (`i + 1`) and are listed with validation errors that carry file lines (`index + 2`) | two data rows: the one on file line 2 fails validation and the commit of the one on line 3 fails; the list reports rows 2 and 1, and line 1 is the header | every error names the file line of its row | high (not executed) | ImportDialog.CommitErrorsMisnumbered | ImportDialog.RenumberedCommitErrors |
| components/forms/csv-import-dialog.tsx:273-290 | a category resolved as "skip" gets no override, so every row with it is rejected with "category not found" | an unknown category `Viajes` resolved as skip, on an otherwise valid row | the row is imported with no category, as the comment beside the override loop says | high (not executed) | ImportDialog.SkippedNameRejected | ImportDialog.SkippedNameImported |
| components/transactions/transactions-content.tsx:100-137 | the merge checks compare date, category, account and type but not currency | 10 USD and 40000 COP expenses on one account and date: the check opens the dialog and the merge books 40010 USD | the checks also require one currency, so the merged entry's balance effect equals the sources' | high (not executed) | MergeDialog.MixedCurrenciesMisbooked | MergeDialog.MergePreservesBalances |
