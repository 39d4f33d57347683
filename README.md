# VUKA Travels site logic in Dafny

This project models the logic of the VUKA Travels website, a UK travel agency, and proves properties of that model. It covers six parts of the site:

- **The form-submission pipeline, twice.** The Node server (`server.js`) and the PHP script (`public/api/submit.php`) implement it separately. Each runs these steps:
  - the honeypot check;
  - picking and cleaning the fields through alias lists;
  - the form-type check;
  - required-field validation against a fixed table;
  - appending to a CSV log, where the header is written only for a fresh log;
  - regenerating an Excel-readable HTML table from the log;
  - composing the notification e-mail.
- **The fare-card helpers of `public/landing-pages.js`:**
  - whitespace normalisation;
  - the first-match airline rules with an initials fallback;
  - parsing a fare line into route, date and stops;
  - the WhatsApp message;
  - phone-number normalisation;
  - the fare details shown in the booking dialog.
- **The migration script `scripts/migrate_fare_data_attrs.py`.** It tags fare cards with `data-*` attributes:
  - IATA-pair extraction and GBP-price extraction;
  - the idempotent `data-price` marker on `<strong>`;
  - skipping cards that are already migrated;
  - tiers that follow the order of the cards on the page.
- **The blog's revalidation endpoint (`apps/blog/app/api/revalidate/route.ts`).** It checks the secret and decides which paths and tags to invalidate and what to reply.
- **The `landing-pages-dev-rewrite` middleware of `vite.config.ts`.** It serves each landing page's `index.html` and keeps the query string.

Modules and files:

- `wrappers.dfy` (`Wrappers`): the `Option` type.
- `text.dfy` (`Text`): character classes, trimming, split and join, filters, ASCII case and decimal text.
- `utf8.dfy` (`Utf8`): well-formed UTF-8 over byte strings.
- `submission.dfy` (`Submission`): the 18-field record and the required-field table, both shared by the two handlers. It also holds the validation loop and its reference function.
- `xls_table.dfy` (`XlsTable`): the shared HTML table renderer and a decoder that proves the rendering loses nothing.
- `server_js.dfy` (`ServerJs`): the Node handler.
- `server_log.dfy` (`ServerLog`): the Node CSV log, its line parser and the XLS export.
- `submit_php.dfy` (`SubmitPhp`): the PHP handler.
- `php_html.dfy` (`PhpHtml`): `htmlspecialchars` with `ENT_QUOTES | ENT_SUBSTITUTE`.
- `divergence.dfy` (`Divergence`): lemmas comparing the two handlers on the same input.
- `landing_pages.dfy` (`LandingPages`), `migrate_fare.dfy` (`MigrateFare`), `revalidate.dfy` (`Revalidate`) and `dev_rewrite.dfy` (`DevRewrite`): one module per remaining source file.

Strings are modelled differently for each runtime:

- JavaScript strings are sequences of characters (Unicode scalar values). No JavaScript `length` or `slice` is counted in characters. `Text.UnitLength` counts UTF-16 code units, and `Text.SliceUnits` cuts in them, as the 4000-unit `slice` of server.js does. A cut through a surrogate pair leaves a lone high surrogate, which cannot be a character. The model writes it as U+FFFD, the character that Node's UTF-8 output writes for it. Positions a search finds are used only to cut the same string, so counting them in characters gives the same pieces.
- PHP strings are sequences of bytes. Each `char` stands for one byte, so `strlen` and `substr` count bytes.
- Python strings are sequences of code points.

Effects come in as parameters, and state changes are imperative:

- **As parameters:** the clock, the request, the environment, and the outcome of the mail transport and of the file operations.
- **As classes with frames:** state the source changes in place. That is the log and export files (`ServerLog.Storage`, `SubmitPhp.Storage`), the booking dialog (`LandingPages.FareModal`) and the dev-server request (`DevRewrite.DevRequest`).
- **As methods with loop invariants:** loops in the source. Each is proved equal to a reference function.

## Model

| member | source | states |
|---|---|---|
| ServerJs.CleanString | server.js:29 | the cleaned text of a scalar is at most 4000 UTF-16 code units long |
| ServerJs.CleanStringHasNoControls | server.js:29 | no character 0x00–0x1F or 0x7F survives cleaning |
| ServerJs.CleanStringIsTrimmed | server.js:29 | the result never starts with whitespace; it ends in whitespace only when the 4000-unit cut falls in the middle |
| ServerJs.CleanStringKeepsCleanText | server.js:29 | text that is already clean (trimmed, control-free, short enough) is returned unchanged |
| ServerJs.CleanStringOfPlainText | server.js:29 | text without controls or whitespace is only cut to 4000 units |
| ServerJs.CleanStringIsClean | server.js:29 | cleaning is clean: the result is trimmed and control-free, or exactly 4000 units long |
| ServerJs.CleanValue | server.js:20-30 | null and undefined give ""; an object gives its JSON text whole, untruncated ("" when stringifying throws); a scalar gives at most 4000 units |
| ServerJs.CleanValueOfScalar | server.js:20-29 | a scalar value cleans to clean text or to exactly 4000 units |
| ServerJs.PickValue | server.js:32-39 | "" when no alias key is present with a value other than "" |
| ServerJs.PickValueFirstAccepted | server.js:32-39 | the result is the cleaned value of the first alias that is present and not "", even when that cleans to "" |
| ServerJs.Pad2 | server.js:42 | a number below 100 becomes exactly two digits denoting it |
| ServerJs.FormatTimestamp | server.js:41-44 | for a valid UTC time: 19 characters in the layout `YYYY-MM-DD HH:MM:SS`, each field the digits of its component (month counted from 1) |
| ServerJs.TimestampLayout | server.js:43 | the template places each two-digit field and each separator at its fixed offset |
| ServerJs.YearDigits | server.js:43 | a four-digit year prints as four characters |
| ServerJs.OrElse | server.js:90-91 | `a \|\| b` on optional strings: `a` when set and non-empty, else `b` |
| ServerJs.BuildFields | server.js:54-94 | `ip` and `user_agent` are cleaned and at most 4000 long; with neither `req.ip` nor a forwarded header the ip is "" |
| ServerJs.FormTypeLookup | server.js:55 | the form type is "" without either alias, `formType` wins when present and non-empty, and `form_type` is used otherwise |
| ServerJs.BuildFieldsFormType | server.js:55-75 | the stored `form_type` is the picked form type |
| ServerJs.BuildFieldsTimestamp | server.js:74 | `submitted_at` is 19 characters long for a valid clock |
| ServerJs.BuildFieldsClientFields | server.js:90-91 | the client fields are clean or cut at 4000 |
| ServerJs.CleanStringOneLine | server.js:29 | `\n` and `\r` are among the controls replaced, so a cleaned scalar holds no line break |
| ServerJs.CleanValueOneLine | server.js:20-30 | `cleanValue` gives text without a line break when the value's JSON text has none |
| ServerJs.PickValueOneLine | server.js:32-39 | a picked value holds no line break when no JSON text of the payload does |
| ServerJs.Pad2Digits | server.js:42 | `pad` writes digits only, so no line break |
| ServerJs.StampOneLine | server.js:43 | the template puts only `-`, ` ` and `:` between its fields, so it adds no line break |
| ServerJs.TimestampOneLine | server.js:41-44 | the stamp holds no line break for any clock reading |
| ServerJs.ValuesOnOneLine | server.js:133-139 | fields without line breaks give a single-line record |
| ServerJs.BuildFieldsOnOneLine | server.js:54-94 | every one of the eighteen fields `buildFields` returns holds no line break, given single-line JSON texts |
| ServerJs.BuildFieldsSingleLine | server.js:54-94 | the values `buildFields` stores form a single-line record |
| ServerJs.StoredFieldsSingleLine | server.js:54-94 | every record of a series of accepted submissions is single-line |
| ServerJs.HandlerLogRoundTrip | server.js:129-188 | from no file, N accepted submissions give a log of the header and N row lines, an export whose rows are the keys and the N records, and a document that decodes to exactly those rows |
| ServerJs.RequiredLookupAsWritten | server.js:97 | the table entry for a listed type; no iterable list for an inherited `Object.prototype` name; `["email"]` otherwise |
| ServerJs.InheritedNameBreaksLookup | server.js:97 | "toString" and "constructor" break the as-written lookup, while the own-property lookup gives `["email"]` |
| ServerJs.PortNumber | server.js:193 | `Number` of the port text is a number exactly for non-empty decimal text |
| ServerJs.TransportFor | server.js:191-209 | the configuration is missing exactly when host, user or password is unset or empty; the port defaults to 465; `secure` follows `SMTP_SECURE == "true"` when that is set, else port 465 |
| ServerJs.Label | server.js:220 | an e-mail label has no `_` and the key's length |
| ServerJs.LabelLength | server.js:220 | replacing `_` by a space keeps the length |
| Submission.LabelLines | server.js:218-220 | at most one `label: value` line per field; the PHP body lines of public/api/submit.php:191-198 are the same with its `ucwords` label |
| Submission.LabelLinesMembers | server.js:218-220 | a line is in the text exactly when some field is non-empty and the line is its label, `: ` and the value |
| Submission.LabelLinesCount | server.js:218-220 | the number of lines is the number of non-empty fields |
| Submission.CountEmpty | server.js:219 | the empty values are at most all the values |
| Submission.LabelLinesStep | public/api/submit.php:192-198 | the lines follow the field order, and empty fields are skipped |
| ServerJs.Subject | server.js:217 | `[Website] ` + the form type with `_` turned into spaces + ` submission`; "Form" for an empty type |
| ServerJs.ComposeEmail | server.js:211-228 | the recipient and sender defaults; the reply-to is the email when non-empty, else the sender; the subject; the text is the e-mail lines joined by `\n` |
| ServerJs.Screen | server.js:231-246 | the guards in order: a truthy `website` is a bot; then an empty form type; then the missing list from the table in its declared order; otherwise accepted, with no required field empty |
| ServerJs.ReplyAfterStoring | server.js:248-255 | 200 exactly when a transport exists and the mail is delivered; otherwise 500 with an error message, the configuration message when SMTP is not configured |
| ServerJs.StoredReply | server.js:248-255 | 200 exactly when both file operations succeed, a transport exists and the mail is delivered; a storage error replies 500 with its own message |
| ServerJs.StoreAndNotify | server.js:248-255 | a failed log write changes nothing, replies 500 with the error's message and sends no mail. A failed export keeps the appended row, leaves the export as it was and sends no mail. Otherwise the row is appended and the export regenerated before the mail is attempted, so a failed send replies 500 with the row already stored |
| ServerJs.HandleSubmission | server.js:231-256 | bot, missing type and missing fields reply 200/400/400 and store nothing; an accepted submission has every outcome of StoreAndNotify, storage failures included |
| ServerLog.QuoteAll | server.js:133-137 | each value becomes its quoted cell, in order |
| ServerLog.AppendedCsv | server.js:129-147 | a missing log gets the header line and the row; an existing one gets exactly one more row |
| ServerLog.CsvAfter | server.js:129-147 | after one or more submissions the log exists; after none it is as it was |
| ServerLog.ParseCsvLine | server.js:152-173 | the character loop with `current`, `inQuotes` and the skipped doubled quote computes the reference parse of the line |
| ServerLog.ParseQuotedCell | server.js:158-164 | inside quotes a doubled quote reads back as one quote and the closing quote ends the cell |
| ServerLog.ParseQuoted | server.js:156-172 | a quoted cell reads back as the original value |
| ServerLog.RowLineCons | server.js:133-138 | a row line is its first quoted cell, a comma and the rest |
| ServerLog.ParseQuotedRowStep | server.js:156-172 | parsing a row line emits its first cell and goes on with the rest |
| ServerLog.ParseQuotedSingle | server.js:156-172 | a one-cell row reads back as that cell |
| ServerLog.ParseQuotedRow | server.js:156-172 | parsing a row line appends exactly its values |
| ServerLog.RowRoundTrip | server.js:133-173 | the parser recovers exactly the values of any encoded row |
| ServerLog.ParsePlainText | server.js:165-170 | text without quotes or commas is copied into the current cell |
| ServerLog.ParsePlainRow | server.js:165-172 | unquoted comma-joined keys split back into the keys |
| ServerLog.HeaderRoundTrip | server.js:132-173 | the header line parses back into the field keys |
| ServerLog.StripCr | server.js:152 | a line without `\r` is unchanged |
| ServerLog.SplitLines | server.js:152 | splitting at `\r?\n` gives as many lines as splitting at `\n` |
| ServerLog.ParsedLines | server.js:152-174 | each line becomes its parsed cells, in order |
| ServerLog.LogLinesOfJoin | server.js:152 | newline-terminated non-empty lines split back into exactly those lines (the empty ones are filtered away) |
| ServerLog.SplitLinesOfJoin | server.js:152 | joined lines split into those lines and a final empty one |
| ServerLog.EscapeHtmlAppend | server.js:181 | escaping distributes over concatenation |
| ServerLog.EscapeUntouched | server.js:181 | text without `& < > "` is unchanged |
| ServerLog.EscapeOneChar | server.js:181 | each character becomes its entity or itself |
| ServerLog.EscapeInOnePass | server.js:181 | because `&` is replaced first, the four passes equal one left-to-right entity substitution |
| ServerLog.EscapeEachAvoids | server.js:181 | no raw `<`, `>` or `"` survives escaping |
| ServerLog.EscapeEachRoundTrip | server.js:181 | the single-pass escaping has no `<` and unescapes back to the text |
| ServerLog.EscapeRoundTrip | server.js:181 | an escaped cell has no raw `<`, `>` or `"`, and unescapes back to the original |
| ServerLog.CellsRecoverable | server.js:179-183 | every cell of the Node export can be recovered |
| ServerLog.RowLines | server.js:133-138 | one encoded line per record, in order |
| ServerLog.FreshLogLines | server.js:129-147 | from no log, N submissions give the header line and N row lines, each ending in `\n` |
| ServerLog.RowLineIsOneLine | server.js:133-138 | a row line of single-line values is non-empty and has no line break |
| ServerLog.HeaderIsOneLine | server.js:132 | the header line is non-empty and has no line break |
| ServerLog.FreshLogLineCount | server.js:129-152 | the export reads N+1 lines back from a log started by N records whose values hold no line break (`ServerJs.HandlerLogRoundTrip` shows that every record the handler stores is such a record) |
| ServerLog.ParsedRows | server.js:152-174 | the row lines parse back into the records |
| ServerLog.ParsedLog | server.js:152-174 | the header and row lines parse back into the keys and the records |
| ServerLog.FreshLogExportRows | server.js:129-174 | for records whose values hold no line break, the export's rows are the keys followed by exactly those records |
| ServerLog.ValuesOf | server.js:133 | each submission contributes its 18 values |
| ServerLog.FreshLogExportRoundTrip | server.js:129-188 | for submissions whose values hold no line break, the export document of a fresh log decodes to one `<tr>` per line: `th` cells holding the keys, then `td` cells holding each submission's values |
| ServerLog.BuildExport | server.js:149-189 | the loop over the parsed lines produces the export document of the log |
| ServerLog.Storage.constructor | server.js:129-131 | the storage starts with the given log and export |
| ServerLog.Storage.AppendCsv | server.js:129-147 | the log becomes the appended log and the export is untouched |
| ServerLog.Storage.WriteXlsFromCsv | server.js:149-189 | the export becomes the document derived from the log, which is untouched |
| Submission.KeysHaveNoLineBreaks | server.js:71-92 | no field key contains a line break |
| Submission.KeysHaveNoQuotesOrCommas | server.js:132 | the header needs no quoting: no key has a quote or a comma |
| Submission.Values | server.js:71-92 | the 18 values in the fixed key order, starting with `submitted_at` and `form_type` |
| Submission.RequiredByType | server.js:46-52 | a listed form type gets its table entry and any other type `["email"]`; the list always contains `email` |
| Submission.CheckedValue | server.js:100-124 | each required name is checked against its field, `departure_date` against the departure date |
| Submission.MissingOf | server.js:96-127 | no more missing names than required ones |
| Submission.MissingOfAppend | server.js:99-125 | the missing list of a concatenation is the concatenation of the missing lists, so order is kept |
| Submission.MissingOfMembers | server.js:96-127 | a name is reported exactly when some required field is empty and that is its reported name |
| Submission.MissingOfEmptyIff | server.js:96-127 | nothing is missing exactly when every required field is non-empty |
| Submission.TableFieldsAreChecked | server.js:46-52 | every name in the table has a field to check |
| Submission.UnknownTypeRequiresEmail | server.js:97 | an unknown form type requires only `email` |
| Submission.ContactReportsInDeclaredOrder | server.js:47 | with name and message empty, the contact form reports `name, message` in table order |
| Submission.FlightSearchReportsDepartureDate | server.js:119-121 | a missing departure date is reported as `departureDate` |
| Submission.CollectMissing | server.js:96-127 | the loop pushing names in table order computes the missing list |
| XlsTable.CellTag | server.js:180 | row 0 uses `th` and every other row `td` |
| XlsTable.RenderTable | server.js:176-186 | the row loop appending to `html` builds the export document |
| XlsTable.RowsHtmlStep | server.js:177-185 | each row appends its own `<tr>` element |
| XlsTable.RenderCells | server.js:179-183 | the cell loop builds the row's cells |
| XlsTable.TaggedRow | server.js:180 | every cell of a row carries that row's tag |
| XlsTable.TaggedRows | server.js:177-185 | every row is tagged by its index |
| XlsTable.CellLayout | server.js:182 | a cell starts with its opening tag and cannot be taken for `</tr>` |
| XlsTable.ClosingTag | server.js:182 | an escaped cell ends exactly at its closing tag |
| XlsTable.DecodeOneCell | server.js:182 | one rendered cell decodes back to its tag and text |
| XlsTable.DecodeCellsOfRow | server.js:179-183 | the cells of a row decode back in order |
| XlsTable.CellsIsTaggedRow | server.js:180 | decoded cells are the tagged row |
| XlsTable.CloseRow | server.js:184 | `</tr>` ends a row |
| XlsTable.RowLayout | server.js:178-184 | a row is `<tr>`, its cells and `</tr>` |
| XlsTable.DecodeOneRow | server.js:178-184 | one rendered row decodes back to its tagged cells |
| XlsTable.RowsHtmlSplit | server.js:177-185 | the rows' markup is the earlier rows followed by the last one |
| XlsTable.DecodeRowsOfTable | server.js:177-185 | all rows decode back in order |
| XlsTable.TableRoundTrip | server.js:176-186 | when every cell is recoverable, the document decodes to exactly one `<tr>` per row, tagged `th` for row 0 and `td` after |
| Utf8.LeadLength | public/api/submit.php:40 | a lead byte announces at most four bytes |
| Utf8.SeqLength | public/api/submit.php:40 | a well-formed sequence takes at most four bytes, and exactly one for ASCII |
| Utf8.SeqLengthHighBytes | public/api/submit.php:40 | every byte of a multi-byte sequence is 0x80 or above |
| Utf8.SeqLengthOfPrefix | public/api/submit.php:40 | the sequence length depends only on the sequence's own bytes |
| Utf8.Utf8Append | public/api/submit.php:40 | well-formed text concatenated stays well-formed |
| Utf8.OneSequence | public/api/submit.php:40 | one complete sequence is well-formed |
| Utf8.AsciiIsUtf8 | public/api/submit.php:40 | ASCII text is well-formed |
| Utf8.ReplacementIsUtf8 | public/api/submit.php:178 | U+FFFD is one well-formed three-byte sequence |
| Utf8.EndsInLeadByte | public/api/submit.php:44-45 | text ending in a lone lead byte is not well-formed |
| SubmitPhp.StringCast | public/api/submit.php:38 | a string stays itself; null and false cast to "" |
| SubmitPhp.TrimStart | public/api/submit.php:39 | the left trim is a suffix that does not start with a trimmed byte |
| SubmitPhp.TrimEnd | public/api/submit.php:39 | the right trim is a prefix that does not end with a trimmed byte |
| SubmitPhp.Trim | public/api/submit.php:39 | the trimmed text neither starts nor ends with space, tab, `\n`, `\r`, NUL or `\v` |
| SubmitPhp.TrimStartDrops | public/api/submit.php:39 | only trimmed bytes are dropped at the start |
| SubmitPhp.TrimEndDrops | public/api/submit.php:39 | only trimmed bytes are dropped at the end |
| SubmitPhp.TrimOfTrimmed | public/api/submit.php:39 | trimming trimmed text changes nothing |
| SubmitPhp.Sanitised | public/api/submit.php:40 | the replacement turns each control byte into a space and keeps every other byte in place |
| SubmitPhp.SanitisedPlain | public/api/submit.php:40 | text without controls is unchanged |
| SubmitPhp.CleanValue | public/api/submit.php:34-48 | the result is at most 4000 bytes |
| SubmitPhp.CleanValueHasNoControls | public/api/submit.php:39-46 | no control byte survives, the cut included |
| SubmitPhp.CutKeepsNoControls | public/api/submit.php:44-46 | the 4000-byte cut keeps text control-free |
| SubmitPhp.IllFormedValueIsDropped | public/api/submit.php:40-43 | trimmed text that is not well-formed UTF-8 makes the `/u` replacement fail, so the value is "" |
| SubmitPhp.CleanValueOfTrimmedText | public/api/submit.php:34-48 | well-formed trimmed text is sanitised and cut to 4000 bytes |
| SubmitPhp.CleanValueOfPlainText | public/api/submit.php:34-48 | short well-formed text that trim keeps is only sanitised |
| SubmitPhp.CleanValueOfSanitised | public/api/submit.php:34-48 | the same, with the expected text named |
| SubmitPhp.CleanValueKeepsCleanText | public/api/submit.php:34-48 | clean text is returned unchanged |
| SubmitPhp.TrailingControlBecomesSpace | public/api/submit.php:39-40 | a control byte that trim keeps, at the end of clean text, becomes a trailing space, because trim runs before the replacement |
| SubmitPhp.CutCanSplitCharacter | public/api/submit.php:44-46 | the 4000-byte cut can split a two-byte character and leave ill-formed UTF-8 |
| SubmitPhp.LongTextIsCut | public/api/submit.php:44-46 | 3999 printable bytes followed by `é` keep only the lead byte of `é` |
| SubmitPhp.PickValue | public/api/submit.php:50-57 | "" when no alias is present with a value other than ""; at most 4000 bytes |
| SubmitPhp.PickValueFirstAccepted | public/api/submit.php:50-57 | the cleaned value of the first present alias whose value is not "" |
| SubmitPhp.BuildFields | public/api/submit.php:59-142 | `submitted_at` is the clock text; ip and user agent are cleaned, at most 4000 bytes, and the ip is "" without `REMOTE_ADDR` |
| SubmitPhp.FormTypeAliases | public/api/submit.php:59 | `formType` wins when present and not "", then `form_type`, else "" |
| SubmitPhp.Screen | public/api/submit.php:15-117 | 405 exactly for a non-POST method, before any input is read; then the honeypot on the decoded body or `$_POST`; "Missing form type" exactly for a non-bot POST whose form type is empty, before any field is checked; the missing list in table order; otherwise accepted |
| SubmitPhp.Checks | public/api/submit.php:15-117 | the early-exit statements of the script compute the gate of `Screen` |
| SubmitPhp.LogAfter | public/api/submit.php:155-159 | an empty log gets the header and the row; a non-empty one gets exactly the row |
| SubmitPhp.LogAfterKeepsShape | public/api/submit.php:155-159 | the log stays a header followed by rows with one cell per key |
| SubmitPhp.LogOfNonEmpty | public/api/submit.php:155-159 | an existing log only grows by the new rows |
| SubmitPhp.FreshLog | public/api/submit.php:156-159 | submissions into an empty log give the header once, then the rows |
| SubmitPhp.ExportRoundTrip | public/api/submit.php:164-184 | with well-formed cells the export decodes to one `<tr>` per record, `th` for row 0 and `td` after |
| SubmitPhp.Storage.constructor | public/api/submit.php:144-149 | an empty log, no export and no mail errors |
| SubmitPhp.Storage.Append | public/api/submit.php:149-161 | the log gets the header when empty, then one row; nothing else changes |
| SubmitPhp.Storage.WriteXls | public/api/submit.php:163-184 | the export becomes the document of the log; nothing else changes |
| SubmitPhp.Storage.LogMailError | public/api/submit.php:209-216 | the error log grows by the line; nothing else changes |
| SubmitPhp.UcWords | public/api/submit.php:189 | `ucwords` keeps the length |
| SubmitPhp.UcWordsAt | public/api/submit.php:189 | at every position, the first byte and each byte after a delimiter are ASCII upper-cased and every other byte is kept |
| SubmitPhp.UcWordsIdempotent | public/api/submit.php:189 | applying `ucwords` to its own output changes nothing |
| SubmitPhp.StartsAgree | public/api/submit.php:189 | `ucwords` keeps every word start where it was |
| SubmitPhp.UcWordsKeepsLetters | public/api/submit.php:196 | `ucwords` only changes letter case |
| SubmitPhp.ComposeBody | public/api/submit.php:191-199 | the `foreach` with `continue` builds the body lines joined by `\n` |
| SubmitPhp.MailFor | public/api/submit.php:186-207 | the reply-to header is the email when non-empty, else the site address; the recipient and `-f` sender are the site address |
| SubmitPhp.MailErrorLine | public/api/submit.php:209-214 | `[timestamp] message` ending in a newline, with "mail() failed" when PHP reports no error |
| SubmitPhp.StoreAndNotify | public/api/submit.php:144-220 | an unopenable log replies 500 and changes nothing; otherwise the row is stored, the export regenerated when the log can be read, and the mail composed; a failed mail logs its line and replies 500 "Submission saved, but email notification failed.", else 200 |
| SubmitPhp.HandleRequest | public/api/submit.php:15-220 | not POST 405, bot 200, missing type 400 and missing fields 400, all with nothing stored. An accepted request has every outcome of StoreAndNotify. An unopenable log gives 500 "Unable to write submissions log" with nothing changed. Otherwise the row is stored, the export is regenerated when the log is readable, and the mail is composed. A failed mail logs its error line |
| PhpHtml.SubstitutedIsUtf8 | public/api/submit.php:178 | after `ENT_SUBSTITUTE` the text is well-formed UTF-8 |
| PhpHtml.SubstitutedOfUtf8 | public/api/submit.php:178 | well-formed text is not altered by the substitution |
| PhpHtml.Entity | public/api/submit.php:178 | no entity contains `<` |
| PhpHtml.DecodeCopies | public/api/submit.php:178 | the decoder copies a character that is not `&` |
| PhpHtml.DecodePlain | public/api/submit.php:178 | the decoder copies text without `&` |
| PhpHtml.DecodeAmp | public/api/submit.php:178 | `&amp;` decodes to `&` |
| PhpHtml.DecodeQuot | public/api/submit.php:178 | `&quot;` decodes to `"` |
| PhpHtml.DecodeApos | public/api/submit.php:178 | `&#039;` decodes to `'` (`ENT_QUOTES`) |
| PhpHtml.DecodeLt | public/api/submit.php:178 | `&lt;` decodes to `<` |
| PhpHtml.DecodeGt | public/api/submit.php:178 | `&gt;` decodes to `>` |
| PhpHtml.DecodeEntity | public/api/submit.php:178 | each character's entity decodes back to it |
| PhpHtml.SpecialCharsDecode | public/api/submit.php:178 | escaped text has no `<` and decodes to the substituted text |
| PhpHtml.SpecialCharsRoundTrip | public/api/submit.php:178 | escaping is undone exactly when the text is well-formed UTF-8 |
| PhpHtml.CellsRecoverable | public/api/submit.php:176-179 | every well-formed cell of the PHP export can be recovered |
| Divergence.HoneypotsDisagreeOnZero | server.js:234 | on a string `website`, Node's truthiness and PHP's `!empty` disagree exactly on "0" (public/api/submit.php:29) |
| Divergence.TrailingControl | server.js:29 | a kept trailing control byte vanishes in Node (replace, then trim) and becomes a space in PHP (trim, then replace; public/api/submit.php:39-40) |
| Divergence.StructuredValueLength | server.js:22-28 | Node stores an object's JSON text whole, while PHP cuts an array's JSON text to 4000 bytes (public/api/submit.php:35-46) |
| Divergence.MailFailureReplies | server.js:253-255 | Node replies with the mailer's message ("Email failed" when it has none), while PHP always sends the same sentence (public/api/submit.php:217) |
| Divergence.HeaderConditions | server.js:140-144 | Node writes the header only when the log file is missing, so an existing empty file gets no header; PHP writes it whenever the log is empty (public/api/submit.php:156-158) |
| Text.TrimJs | server.js:29 | `String.prototype.trim`: no JavaScript whitespace at either end |
| Text.MapWhere | server.js:29 | the control replacement keeps the length and changes only control characters |
| Text.Take | public/api/submit.php:44-46 | `substr(s, 0, n)`: the first `min(n, length)` bytes |
| Text.Units | server.js:29 | a character takes one or two UTF-16 code units |
| Text.SliceUnits | server.js:29 | `slice(0, n)` keeps at most `n` code units |
| Text.SliceUnitsLength | server.js:29 | the slice is exactly `n` code units long, or the whole string when that is shorter |
| Text.SliceUnitsPrefix | server.js:29 | the slice copies the start of the string; only its last character can differ, as the lone half of a surrogate pair the cut went through |
| Text.SliceUnitsKeepsNoneOf | server.js:29 | slicing keeps text free of controls and of whitespace |
| Text.SliceUnitsKeepsEnds | server.js:29 | slicing a trimmed string keeps its first character non-space, and its last character too when nothing is cut off |
| Text.SliceUnitsSplitsPair | server.js:29 | three code units of two emoji keep the first emoji and a lone half of the second |
| Text.ReplaceChar | server.js:220 | a replaced character is gone when the substitute does not contain it |
| Text.Join | server.js:227 | joining no parts gives "", and one part gives that part |
| Text.Split | vite.config.ts:22 | `split` gives at least one part, none containing the separator |
| Text.JoinSplit | vite.config.ts:22 | joining the parts of a split restores the text |
| Text.SplitJoin | vite.config.ts:22 | splitting a join restores the parts |
| Text.NatToString | scripts/migrate_fare_data_attrs.py:125 | the decimal text of a number: digits only, no leading zero |
| Text.DigitsValueOfNatToString | server.js:42 | the decimal text denotes the number |
| Text.Filter | public/landing-pages.js:95 | the kept characters all belong to the class |
| Text.NonEmpty | public/landing-pages.js:218 | `filter(Boolean)` keeps exactly the non-empty strings |
| Text.IndexOf | public/landing-pages.js:171 | `indexOf`: the first occurrence, or the length when there is none |
| Text.ToAsciiUpper | public/api/submit.php:189 | the ASCII upper-casing of `ucwords`: a–z become A–Z, everything else is kept |
| LandingPages.CleanText | public/landing-pages.js:102-104 | no whitespace at either end |
| LandingPages.CleanNullable | public/landing-pages.js:103 | a missing value gives "" |
| LandingPages.CollapseIsCollapsed | public/landing-pages.js:103 | after the `\s+` replacement no two whitespace characters are adjacent, and each whitespace is a plain space |
| LandingPages.CollapseOfCollapsed | public/landing-pages.js:103 | collapsed text is a fixed point of the replacement |
| LandingPages.DropWhileKeepsCollapsed | public/landing-pages.js:103 | trimming the start keeps text collapsed |
| LandingPages.DropWhileEndKeepsCollapsed | public/landing-pages.js:103 | trimming the end keeps text collapsed |
| LandingPages.CleanTextIsCollapsed | public/landing-pages.js:102-104 | cleaned text has no two consecutive whitespace characters |
| LandingPages.CleanTextIdempotent | public/landing-pages.js:102-104 | cleaning twice equals cleaning once |
| LandingPages.NonSpaceOfCollapse | public/landing-pages.js:103 | the replacement keeps every non-whitespace character, in order |
| LandingPages.CleanTextKeepsText | public/landing-pages.js:102-104 | cleaning only removes or replaces whitespace |
| LandingPages.CollapseAroundStop | public/landing-pages.js:103 | the replacement works independently on both sides of a non-space character |
| LandingPages.CollapseAvoids | public/landing-pages.js:103 | the replacement introduces no character other than a space |
| LandingPages.CleanTextOfEndTrimmed | public/landing-pages.js:161-173 | cleaning is unaffected by a prior end trim |
| LandingPages.Segments | public/landing-pages.js:176 | the `\|` segments, cleaned, with the empty ones dropped |
| LandingPages.StopsFallback | public/landing-pages.js:185-191 | "1 Stop" exactly for a whole-word `via`; "Direct" exactly for a whole-word `direct` without `via`; "" otherwise |
| LandingPages.RunEnd | public/landing-pages.js:193 | the end of the whitespace run at a position |
| LandingPages.FindTo | public/landing-pages.js:193 | the first place with whitespace, `to` in any case, and whitespace |
| LandingPages.ReplaceTo | public/landing-pages.js:193 | a route without whitespace-`to`-whitespace is unchanged |
| LandingPages.FindToFinds | public/landing-pages.js:193 | the search returns the leftmost match |
| LandingPages.ReplaceToFirst | public/landing-pages.js:193 | only the leftmost whitespace-`to`-whitespace, with both whitespace runs, is replaced by ` -> ` |
| LandingPages.PartsOfRoute | public/landing-pages.js:176-193 | route, date and stops are the first three segments (the route with `to` replaced), with the stops fallback when there is no third segment |
| LandingPages.ParseLineParts | public/landing-pages.js:160-200 | a line that cleans to "" gives three empty parts |
| LandingPages.CleanTextAroundColon | public/landing-pages.js:171-173 | cleaning around a colon cleans both sides separately |
| LandingPages.RoutePartAfterColon | public/landing-pages.js:170-174 | with a colon, the route part is the cleaned text after the first colon |
| LandingPages.LabelIsIgnored | public/landing-pages.js:160-200 | a label before the first colon does not affect the parse |
| LandingPages.UnlabelledLine | public/landing-pages.js:160-200 | without a colon the whole cleaned line is parsed |
| LandingPages.ViaBeforeDirect | public/landing-pages.js:185-191 | with fewer than three segments, a whole-word `via` gives "1 Stop" even when `direct` is present |
| LandingPages.FirstMatch | public/landing-pages.js:135-140 | the index of the first matching rule; none before it matches; none at all when it finds none |
| LandingPages.FirstTwo | public/landing-pages.js:149 | `slice(0, 2)`: the first two items, or all of fewer |
| LandingPages.Fallback | public/landing-pages.js:146-157 | the fallback logo is `/favicon.jpeg`; JavaScript's `toUpperCase` is the parameter `upper` |
| LandingPages.AirlineFor | public/landing-pages.js:133-157 | the airline of the first matching rule in list order; the fallback when no rule matches |
| LandingPages.InferAirlineInfo | public/landing-pages.js:133-158 | the loop with `break` finds the rule of the specification |
| LandingPages.EmiratesComesFirst | public/landing-pages.js:11-21 | a title mentioning Emirates gives EK, even with a holiday keyword |
| LandingPages.FallbackOfBlankTitle | public/landing-pages.js:153-155 | a blank title gives VF, "VUKA Fare" and `/favicon.jpeg` |
| LandingPages.FallbackCode | public/landing-pages.js:146-154 | the fallback code starts with the upper-cased first character of the cleaned title, and a one-word title gives exactly that; a first character outside the Basic Multilingual Plane contributes its lone high surrogate |
| LandingPages.InitialsCanExceedTwo | public/landing-pages.js:146-151 | full case mapping can make the code longer than two characters: "ßa bc" gives "SSB" |
| LandingPages.FallbackName | public/landing-pages.js:155 | the fallback name is a prefix of the cleaned title, and the whole title when it is one word |
| LandingPages.ShortNameIsPrefix | public/landing-pages.js:155 | the first two words are a non-empty prefix of the title |
| LandingPages.FirstTwoWords | public/landing-pages.js:155 | the first two words, joined by a space, run up to the second space |
| LandingPages.SupportPhone | public/landing-pages.js:88-97 | the phone is non-empty and has only digits and `+` |
| LandingPages.WhatsappNumber | public/landing-pages.js:100 | the WhatsApp number is non-empty and has only digits |
| LandingPages.PrefixStripIsRedundant | public/landing-pages.js:94-95 | stripping `tel:` changes nothing once only digits and `+` are kept |
| LandingPages.SupportPhoneOfLink | public/landing-pages.js:94-96 | a link with digits gives exactly its digits and `+` signs |
| LandingPages.WhatsappOfInternational | public/landing-pages.js:100 | `+` followed by digits gives the digits |
| LandingPages.DefaultNumbersAgree | public/landing-pages.js:91-100 | without a phone link both numbers are the site's default |
| LandingPages.KeptLabelled | public/landing-pages.js:212-214 | an Option, Price or Details part is kept exactly when its value is non-empty |
| LandingPages.WhatsappMessagePieces | public/landing-pages.js:209-218 | the message is the greeting, then Option, Price and Details when non-empty, in that order, then the closing, joined by ` \| ` |
| LandingPages.WhatsappMessageFrame | public/landing-pages.js:209-218 | the message always starts with the greeting and ends with the closing line |
| LandingPages.WhatsappHref | public/landing-pages.js:219 | the link starts with `https://wa.me/`, the number and `?text=` |
| LandingPages.FareOfCard | public/landing-pages.js:345-365 | a card always gives a non-empty fare name |
| LandingPages.CollectFareFromRow | public/landing-pages.js:334-366 | no card gives the general enquiry; a card gives its title, price, tag and details joined by ` \| ` without the empty parts |
| LandingPages.MetaTextOfDetailsOnly | public/landing-pages.js:372-382 | without price and tag the dialog shows just the details |
| LandingPages.FareModal.constructor | public/landing-pages.js:81-86 | closed, with the general enquiry selected |
| LandingPages.FareModal.OpenModal | public/landing-pages.js:368-393 | open, with the fare selected, its name or "Selected fare", the price/type/details line and no status |
| LandingPages.FareModal.CloseModal | public/landing-pages.js:395-399 | closed, with everything else kept |
| MigrateFare.NextMatch | scripts/migrate_fare_data_attrs.py:98 | the next match lies after the start, with room for both delimiters |
| MigrateFare.NextMatchIsFirst | scripts/migrate_fare_data_attrs.py:98 | the match starts at the first opening and ends at the first closing after it (the non-greedy `*?`) |
| MigrateFare.Cut | scripts/migrate_fare_data_attrs.py:98 | the page is cut into text and article pieces |
| MigrateFare.CutReassembles | scripts/migrate_fare_data_attrs.py:98 | the pieces from any position reassemble into the rest of the page |
| MigrateFare.PiecesReassemble | scripts/migrate_fare_data_attrs.py:98-147 | the text outside the articles and the articles themselves reassemble into the page unchanged |
| MigrateFare.Sources | scripts/migrate_fare_data_attrs.py:144-147 | each piece contributes its own text |
| MigrateFare.PairOf | scripts/migrate_fare_data_attrs.py:35 | the origin and destination are three upper-case letters each |
| MigrateFare.Search | scripts/migrate_fare_data_attrs.py:33-35 | `re.search`: the first position where the pattern matches |
| MigrateFare.ExtractIata | scripts/migrate_fare_data_attrs.py:31-38 | a found route has two three-letter codes |
| MigrateFare.OutboundWins | scripts/migrate_fare_data_attrs.py:33 | the first `Outbound:</span> XXX to YYY` gives the route |
| MigrateFare.FirstBarePair | scripts/migrate_fare_data_attrs.py:34-35 | without an outbound line, the first whole-word `XXX to YYY` gives the route |
| MigrateFare.NoRoute | scripts/migrate_fare_data_attrs.py:36-37 | no route exactly when neither pattern matches anywhere |
| MigrateFare.SearchFindsFirst | scripts/migrate_fare_data_attrs.py:33-35 | the search stops at the first match |
| MigrateFare.OutboundPairIsBare | scripts/migrate_fare_data_attrs.py:33-35 | the codes of an outbound line also match the bare pattern |
| MigrateFare.PriceGroup | scripts/migrate_fare_data_attrs.py:43-45 | the price group is non-empty digits and commas |
| MigrateFare.FindStrongPrice | scripts/migrate_fare_data_attrs.py:45 | the first `<strong…>GBP digits` |
| MigrateFare.PriceTag | scripts/migrate_fare_data_attrs.py:42-45 | the tag after the first `fare-price` block when there is one; otherwise the first tag anywhere |
| MigrateFare.ExtractPriceGbp | scripts/migrate_fare_data_attrs.py:41-52 | no tag gives no price; a tag gives the number of its digit group |
| MigrateFare.PriceOfNumeral | scripts/migrate_fare_data_attrs.py:48-50 | written digits read back as their number |
| MigrateFare.CommaIgnored | scripts/migrate_fare_data_attrs.py:48 | commas are removed before the number is read |
| MigrateFare.CommasOnly | scripts/migrate_fare_data_attrs.py:48-52 | a group with no digit gives no price |
| MigrateFare.TagAttrs | scripts/migrate_fare_data_attrs.py:57 | the attributes of a `<strong` tag hold no `>` |
| MigrateFare.TagEnd | scripts/migrate_fare_data_attrs.py:63 | the tag ends at its `>` |
| MigrateFare.FindStrongTag | scripts/migrate_fare_data_attrs.py:63 | the first `<strong>` or `<strong …>` tag |
| MigrateFare.EnsureDataPrice | scripts/migrate_fare_data_attrs.py:55-63 | only the first strong tag is touched: kept when its attributes contain `data-price`, otherwise given the marker |
| MigrateFare.MarkedTag | scripts/migrate_fare_data_attrs.py:61 | the marked tag is again a strong tag, with ` data-price` before its old attributes |
| MigrateFare.MarkedTagOf | scripts/migrate_fare_data_attrs.py:61 | the inserted tag is a strong tag carrying the marker |
| MigrateFare.NoTagBeforeMarked | scripts/migrate_fare_data_attrs.py:63 | marking creates no earlier strong tag |
| MigrateFare.FindStrongTagFirst | scripts/migrate_fare_data_attrs.py:63 | the search finds the first strong tag |
| MigrateFare.EnsureDataPriceIdempotent | scripts/migrate_fare_data_attrs.py:55-63 | applying the marker twice equals applying it once |
| MigrateFare.EnsureDataPriceKeepsRest | scripts/migrate_fare_data_attrs.py:55-63 | the text before and after the first strong tag is kept |
| MigrateFare.CandidatesIn | scripts/migrate_fare_data_attrs.py:142 | the counter counts pieces, at most all of them |
| MigrateFare.TierOrder | scripts/migrate_fare_data_attrs.py:116 | the k-th candidate gets low, mid, high, and other from the fourth on |
| MigrateFare.FareAttrs | scripts/migrate_fare_data_attrs.py:117-125 | origin, dest, currency, route key and tier in that order, and the price only when it was found |
| MigrateFare.FindOpenTag | scripts/migrate_fare_data_attrs.py:129 | the first `<article class="fare-item"\s*>` |
| MigrateFare.InjectAttrs | scripts/migrate_fare_data_attrs.py:128-133 | only that exact opening tag is replaced, with the attributes joined by spaces; without it the article is unchanged |
| MigrateFare.Outputs | scripts/migrate_fare_data_attrs.py:102-145 | one output per piece |
| MigrateFare.CandidatesSnoc | scripts/migrate_fare_data_attrs.py:142 | the counter advances only for articles that are rewritten |
| MigrateFare.OthersKept | scripts/migrate_fare_data_attrs.py:81-89 | pieces that are not candidates are copied as they are |
| MigrateFare.NoCandidateOutputs | scripts/migrate_fare_data_attrs.py:97-100 | without candidates every output is its source |
| MigrateFare.MigratedArticleKept | scripts/migrate_fare_data_attrs.py:81-82 | an article with both `data-origin=` and `data-dest=` is returned unchanged |
| MigrateFare.NoCandidateNoChange | scripts/migrate_fare_data_attrs.py:98-100 | without candidates the page is unchanged and nothing counts as changed |
| MigrateFare.PiecesStep | scripts/migrate_fare_data_attrs.py:107-145 | one more piece adds its output, advances the counter for a candidate, and sets the change flag when it changed |
| MigrateFare.RewriteArticle | scripts/migrate_fare_data_attrs.py:112-136 | the loop body gives the article rewritten with the tier of its place |
| MigrateFare.RewritePiece | scripts/migrate_fare_data_attrs.py:112-142 | a candidate is rewritten and any other piece copied; the flag is set exactly when the text changed |
| MigrateFare.RewritePieces | scripts/migrate_fare_data_attrs.py:102-146 | the loop with `occ` and `changed` gives the reference outputs, and the flag says whether some piece changed |
| MigrateFare.MigrateFile | scripts/migrate_fare_data_attrs.py:66-152 | a page without `class="fare-item"` is not written; otherwise it is written exactly when some candidate changed and the new text differs, and then it holds the migrated text |
| Revalidate.ConfiguredSecret | apps/blog/app/api/revalidate/route.ts:4 | an unset secret counts as "" |
| Revalidate.SlugOf | apps/blog/app/api/revalidate/route.ts:18-24 | the slug of a parsed body; none for a body that does not parse |
| Revalidate.Post | apps/blog/app/api/revalidate/route.ts:10-35 | without the secret, 401 "Invalid secret" with no invalidation; with it, `/blog` and `post` are invalidated first, and the reply is 200 ok unless a truthy slug cannot be shown, exactly when it is a 500 |
| Revalidate.PostAsWritten | apps/blog/app/api/revalidate/route.ts:18-34 | agrees with the intended decision except on a `null` body, which fails after the first two invalidations; both fail the same way on a slug whose string conversion throws |
| Revalidate.Paths | apps/blog/app/api/revalidate/route.ts:34 | the paths among the invalidations |
| Revalidate.EmptySecretRejects | apps/blog/app/api/revalidate/route.ts:14-16 | an empty configured secret always rejects and invalidates nothing |
| Revalidate.WrongSecretRejects | apps/blog/app/api/revalidate/route.ts:12-16 | an absent or different secret gives 401 |
| Revalidate.UnparsableIsEmpty | apps/blog/app/api/revalidate/route.ts:18-24 | a body that fails to parse is treated as `{}` |
| Revalidate.NoSlugRevalidatesIndex | apps/blog/app/api/revalidate/route.ts:26-34 | without a truthy slug only `/blog` and `post` are invalidated, and the reply lists `/blog` |
| Revalidate.SlugRevalidatesPost | apps/blog/app/api/revalidate/route.ts:26-34 | a truthy slug that can be shown also invalidates `/blog/<slug>` and `post:<slug>`, and the reply lists both paths |
| Revalidate.ReplyListsInvalidatedPaths | apps/blog/app/api/revalidate/route.ts:26-34 | a JSON reply comes back exactly when the request is rejected or its slug can be shown, and its `revalidated` list is exactly the invalidated paths |
| Revalidate.UnshowableSlugThrows | apps/blog/app/api/revalidate/route.ts:26-31 | a truthy slug whose string conversion throws fails with a 500 after `/blog` and `post` were invalidated, with or without the `null` fix |
| Revalidate.ToStringSlugThrows | apps/blog/app/api/revalidate/route.ts:29-30 | the body `{"slug": {"toString": 1}}` gives a 500 |
| Revalidate.NullBodyThrows | apps/blog/app/api/revalidate/route.ts:21-29 | a `null` body as written fails with a 500 after invalidating `/blog` and `post`, where `{}` handling replies 200 with `["/blog"]` |
| DevRewrite.Entries | vite.config.ts:24-59 | two entries per landing path, with and without a trailing slash |
| DevRewrite.Lookup | vite.config.ts:61 | a found target belongs to an entry for the key; nothing is found when no entry has the key |
| DevRewrite.LookupUniform | vite.config.ts:61 | when every entry for a key has the same target, that target is found |
| DevRewrite.LandingPathsHaveNoTrailingSlash | vite.config.ts:24-59 | no landing path ends in `/` |
| DevRewrite.EntryTarget | vite.config.ts:24-59 | a path maps to its `index.html` |
| DevRewrite.SlashedEntryTarget | vite.config.ts:24-59 | a path with a trailing slash maps to the same file |
| DevRewrite.EntryKeys | vite.config.ts:24-59 | only the paths, with or without a slash, are keys |
| DevRewrite.LandingPathTargets | vite.config.ts:24-59 | each of the 17 landing paths maps, with or without a trailing slash, to `<path>/index.html` |
| DevRewrite.OnlyLandingPaths | vite.config.ts:24-61 | every key of the table is a landing path with or without a trailing slash |
| DevRewrite.RewriteUrl | vite.config.ts:22-64 | a mapped pathname becomes its target followed by the query suffix; anything else is unchanged |
| DevRewrite.SplitWithoutQuery | vite.config.ts:22 | a URL without `?` is all pathname, with an empty query |
| DevRewrite.SplitOneQuery | vite.config.ts:22 | a URL splits at its `?` into pathname and query |
| DevRewrite.SplitKeepsFirstQuery | vite.config.ts:22 | only the text between the first and second `?` is kept as the query |
| DevRewrite.LandingPageRewritten | vite.config.ts:22-64 | a landing pathname, with or without a slash, is served from its `index.html`, with `?query` only when the query is non-empty |
| DevRewrite.UnmappedUnchanged | vite.config.ts:61-64 | an unmapped pathname leaves the URL unchanged |
| DevRewrite.MappedRewrite | vite.config.ts:61-64 | a mapped pathname is rewritten to some landing page's `index.html` plus the suffix |
| DevRewrite.DevRequest.constructor | vite.config.ts:15-16 | a request with its URL, before `next()` |
| DevRewrite.DevRequest.Handle | vite.config.ts:15-66 | an empty or missing URL is untouched; any other URL becomes its rewrite; `next()` is called exactly once |

## Left out

- File I/O: existence checks, `mkdir`, reads and writes, and the migration script's directory walk in `main`. The files are class fields or values, and the outcome of each operation is a parameter: `ServerJs.FileOutcome` for the Node handler and `SubmitPhp.Outcomes` for the PHP script. A failed write is taken to leave its file as it was, so partial writes are not modelled.
- Concurrency: the `flock` lock in public/api/submit.php. The append is one atomic state change.
- HTTP and framework plumbing: Express routing, static serving and `listen`; PHP headers and `exit`; `NextResponse`; URL parsing of the `secret` query parameter. Replies are (status, body) values, and the supplied secret is a parameter.
- The Next.js cache calls `revalidatePath` and `revalidateTag` are emitted as a list of actions.
- The framework's 500 page is left out: `Revalidate.PostAsWritten` only marks the thrown error as `InternalError`.
- nodemailer and PHP `mail()`: the delivery outcome and the PHP error text are parameters. The e-mail content is modelled; sending it is not.
- `JSON.stringify` and `json_encode`: each payload value carries the text they produce.
- `ServerJs.HandlerLogRoundTrip`, `ServerJs.BuildFieldsSingleLine` and the lemmas under them take `ServerJs.JsonOnOneLine` as a condition: no JSON text of a structured payload value holds a raw line break. `JSON.stringify` without an indent escapes line breaks inside strings and writes none between members, but the model does not compute that text, so it cannot prove this.
- `SubmitPhp.StoreAndNotify` does not model the silent failures of the two `@file_put_contents` calls: the export write (public/api/submit.php:183) and the mail-error append (public/api/submit.php:212). When the log can be read back, the model always writes the export, and a failed mail always appends its line (`SubmitPhp.Storage.WriteXls`, `SubmitPhp.Storage.LogMailError`). A write that fails there leaves the file unchanged and the reply the same.
- `encodeURIComponent`: a function parameter of `LandingPages.WhatsappHref`.
- The clock: `new Date()` and `gmdate` come in as UTC components or as text.
- The DOM work in public/landing-pages.js is left out because it is effects, not decisions:
  - element creation and insertion in `decorateFareItem`;
  - the event listeners;
  - status messages and the body lock;
  - the form-submit handler that builds the payload, checks name, email and phone, and calls `fetch`.
- `SubmitPhp.Storage.Append` does not model `fputcsv` and `fgetcsv` quoting. The PHP log is a sequence of records, and the pair is taken to round-trip.
- `SubmitPhp.Screen` has no "Invalid payload" branch. `$_POST` is always an array, so the script can never send that reply.
- `LandingPages.ParseLineParts` omits the `segments.length > 3 && !stops` branch. It is dead code: a third segment, when present, is never empty.
- `PhpHtml.Substituted` (and so `PhpHtml.SpecialChars`) does not model PHP's grouping of an ill-formed byte run into replacement characters. The model writes one U+FFFD for each byte that does not start a well-formed sequence. PHP's decoder writes one for each run it rejects. Such cells do occur: the 4000-byte `substr` in public/api/submit.php:44-46 can cut a character, as `SubmitPhp.CutCanSplitCharacter` shows. For a cell ending in `E2 82` (a truncated `€`), PHP writes one U+FFFD where the model writes two. The PHP decoder's rules are not part of this model.
- `Text.SliceUnits` writes the lone high surrogate left by a cut through a surrogate pair as U+FFFD, and so does `LandingPages.Initial` for the first code unit of a word that starts outside the Basic Multilingual Plane. JavaScript keeps the surrogate itself in memory until the text is written out as UTF-8, and nothing in the core looks at it before then.
- `ServerJs.PortNumber` models `Number(text)` for plain decimal text only. Signs, exponents, hexadecimal and surrounding whitespace give `None`.
- `LandingPages.AirlineFor` applies the `/i` patterns with ASCII case folding only.
- `MigrateFare.ExtractIata` approximates Python's `\b` and `\w` by ASCII word characters. A non-ASCII letter next to a code counts as a boundary.
- `DevRewrite.LandingPageRewritten` is stated over the pathname that the split produces (`SplitUrl(url).0`), not over a URL assembled from a landing path and a query. `DevRewrite.SplitOneQuery` and `DevRewrite.SplitKeepsFirstQuery` connect the two when the query has no `?` of its own.
- `DevRewrite.Lookup` covers only the table's own entries. JavaScript prototype keys such as `constructor` are not modelled for the `rewrites` object, and every target is non-empty, so the falsy-target branch is only carried along.
- `MigrateFare.Cut` cuts the page into article and text pieces directly. The placeholder marker strings are not modelled, nor is a page whose own text already contains them.

## Findings

| source | as written | input that shows it | evidently intended | confidence | as-written member | corrected member |
|---|---|---|---|---|---|---|
| server.js:97 | The required list is looked up with ordinary property access on a plain object. A form type named after an inherited `Object.prototype` member yields a function, which is truthy, so the `["email"]` default is skipped. The following `for … of` then throws a TypeError. `validateFields` runs outside the handler's `try`, and the route does not await or catch `handleSubmission` (server.js:258-260). So the rejection is unhandled: no reply is sent, and with Node's default handling of unhandled rejections since version 15 the server process exits. | a submission with `formType` "toString" (or "constructor") | an own-property lookup: unknown form types require only `email` | not executed | ServerJs.RequiredLookupAsWritten, ServerJs.InheritedNameBreaksLookup | Submission.RequiredByType |
| apps/blog/app/api/revalidate/route.ts:21 | A request body that is the JSON value `null` parses without error, so `payload` becomes `null`. Reading `payload.slug` on line 29 then throws after `/blog` and `post` were already invalidated, and the client gets a 500. | a POST with the right secret and body `null` | treat a body without a slug like `{}`: 200 with `["/blog"]` | not executed | Revalidate.PostAsWritten, Revalidate.NullBodyThrows | Revalidate.Post |
