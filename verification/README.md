# Bricks Form Data Manager — a Dafny model of its submission core

The plugin listens for Bricks Builder form submissions and keeps them in one
CSV file, `submissions.csv`. This project models the part of
`bricks-form-excel-handler.php` that holds real logic:

- **Normalising a submission** (`handle_form_submission`). The posted field map
  becomes a nine-field record. `get_radio_value` resolves radio and checkbox
  values. A newsletter answer of exactly `"I do not agree"` forces all three
  channel consents (e-mail, phone/SMS, mail) to `"No"`. Otherwise each channel
  is `"Yes"` exactly when its field resolves to `"Yes"`. Terms are `"Yes"`
  when the terms field is set and not PHP-empty.
- **Saving** (`save_to_csv`). The stored rows are read after the header line.
  Every row whose first cell equals the record's non-empty entry id is
  rebuilt in place: it keeps its id cell and takes the record's other eight
  values. Every other row is kept. If nothing matched, one new row is
  appended. The file is rewritten as the fixed nine-column header followed
  by the rows.
- **The admin dashboard's reading of the file** (`admin_page`, `show_preview`).
  This covers the submission count, the latest timestamp, the window of the
  last ten rows shown newest first, and how each preview cell is classed or
  shortened.

Modules: `Php` (`empty()` on strings, `trim()`), `FormFields` (posted values,
field identifiers, `get_radio_value`), `Submissions` (the record and the
normaliser), `CsvStore` (the stored file, upsert and `save_to_csv`),
`AdminPreview` (dashboard statistics and preview), `SubmissionHandler` (one
submission end to end, with worked examples) and `Wrappers` (an `Option`
type).

Storage is an in-memory value. `StoredFile` is either `Absent` or
`Present(lines)`, with each line already split into cells; a zero-size file
is `Present([])`. The WordPress sanitisers (`sanitize_text_field`,
`sanitize_email`) and the clock (`current_time`) are parameters, bundled in an
`Env` record.

Points where the code's behaviour is easy to misread:

- Rows are matched by entry id, the first cell
  (bricks-form-excel-handler.php:204).
- "Non-empty" follows PHP `empty()`, which also treats `"0"` as empty. So terms
  answered `"0"` are stored as `"No"`, and an entry id `"0"` never updates a
  row.
- The scan does not stop at the first match: every matching row is rebuilt.

## Model

| member | source | states |
|---|---|---|
| FormFields.RadioValue | bricks-form-excel-handler.php:106-112 | a scalar resolves to its sanitised self; a list resolves to its sanitised element 0, or to `""` when it is empty; resolution is total |
| FormFields.RadioValueFirstOnly | bricks-form-excel-handler.php:108-109 | a list resolves exactly as its first element posted alone would, whatever elements follow |
| Submissions.TextField | bricks-form-excel-handler.php:90-93 | a text field is its sanitised posted value when set and `""` otherwise |
| Submissions.InitialRecord | bricks-form-excel-handler.php:90-100 | before the consent fields are read, the record has the clock as timestamp, an empty newsletter answer, `"No"` for every channel and for terms, and so keeps the consent invariant |
| Submissions.Normalize | bricks-form-excel-handler.php:90-178 | entry id, e-mail and phone are the sanitised fields or `""`; the timestamp is the clock; the newsletter value is the resolved field or `""` when absent; a refusal makes all three channels `"No"`; otherwise each channel is `"Yes"` iff its field is set and resolves to `"Yes"`; channels and terms are always `"Yes"` or `"No"`; terms are `"Yes"` iff the field is set and PHP-non-empty |
| Submissions.ChannelValue | bricks-form-excel-handler.php:150-169 | a channel is `"Yes"` exactly when its field is set and resolves to `"Yes"`, and `"No"` otherwise, including when the field is unset |
| Submissions.NormalizeConsentConsistent | bricks-form-excel-handler.php:127-134 | every normalised record keeps the consent invariant: a refusal never comes with a consented channel |
| Submissions.RefusalIgnoresChannelFields | bricks-form-excel-handler.php:129-146 | under a refusal, two submissions that differ only in their channel fields (including dropping them) give the same record |
| Submissions.ChannelsIndependent | bricks-form-excel-handler.php:147-169 | outside a refusal, changing one channel's posted value leaves the other two channels' consents unchanged |
| CsvStore.LoadRows | bricks-form-excel-handler.php:197-202 | a missing or zero-size file yields no rows; otherwise the rows are every line after the first, whose stored header is discarded |
| CsvStore.WriteTable | bricks-form-excel-handler.php:252-259 | the written file is the canonical header followed by exactly the rows, one line more than there are rows |
| CsvStore.LoadAfterWrite | bricks-form-excel-handler.php:198-202 | loading a file written by a save gives back exactly the saved rows (the header line is skipped) |
| CsvStore.Cells | bricks-form-excel-handler.php:228-238 | a record is laid out as one row as wide as the header |
| CsvStore.RecordOf | bricks-form-excel-handler.php:228-238 | the model's inverse of the row layout (the plugin itself never parses a row into a record): a row reads back as a record exactly when it has as many cells as the header |
| CsvStore.RecordOfCells | bricks-form-excel-handler.php:228-238 | the row layout loses nothing: a record's row reads back as the same record |
| CsvStore.Matches | bricks-form-excel-handler.php:204 | a row is updated exactly when the entry id is PHP-non-empty and equals the row's first cell |
| CsvStore.RebuildRow | bricks-form-excel-handler.php:206-216 | a rebuilt row is as wide as the header, keeps the old row's id cell, and reads back as the new record under that old id |
| CsvStore.MergeRows | bricks-form-excel-handler.php:202-222 | the scan keeps the row count; every matching row becomes a nine-cell row with its old id cell and the record's other eight values; every other row is unchanged |
| CsvStore.Upsert | bricks-form-excel-handler.php:202-240 | when some row matches, the row count is unchanged, every match is rebuilt at its index and other rows are untouched; when none matches, the result is the old rows in order plus the record's row at the end |
| CsvStore.EmptyIdAppends | bricks-form-excel-handler.php:204 | an entry id of `""` or `"0"` never updates a row: the record is always appended |
| CsvStore.UpsertIdempotent | bricks-form-excel-handler.php:202-240 | with a non-empty entry id, submitting the same record again leaves the table as the first submission left it |
| CsvStore.UpsertKeepsConsent | bricks-form-excel-handler.php:206-216 | if every stored row keeps the consent invariant and the record keeps it, every row after the upsert keeps it |
| CsvStore.SaveToCsv | bricks-form-excel-handler.php:190-259 | the written file starts with the header; it reports an update iff some loaded row matched; rows are rebuilt in place or kept index by index; with no match, exactly one row for the record is appended |
| CsvStore.SavedTable | bricks-form-excel-handler.php:202-258 | the file written from the upsert has one line per stored row plus the header when a row matched, or the stored rows plus the record's row otherwise; each stored row is rebuilt or kept at its own line |
| Php.Trim | bricks-form-excel-handler.php:545 | the trimmed text is the input with a run of trim characters cut from its start and a run of trim characters cut from its end, and it neither starts nor ends with a trim character |
| Php.TrimStart | bricks-form-excel-handler.php:545 | `ltrim`: a suffix of the input; everything cut is a trim character, and the result does not start with one |
| Php.TrimEnd | bricks-form-excel-handler.php:545 | `rtrim`: a prefix of the input; everything cut is a trim character, and the result does not end with one |
| Php.Empty | bricks-form-excel-handler.php:176 | PHP `empty()` on a string: true for `""` and `"0"` only (also used on the entry id at :204) |
| Php.TrimFixesTrimmed | bricks-form-excel-handler.php:551 | a string that does not start or end with a trim character is its own trim |
| AdminPreview.SubmissionCount | bricks-form-excel-handler.php:338-340 | no file means 0 submissions; otherwise the count is the line count minus the header line, never negative |
| AdminPreview.CountIsLoadedRows | bricks-form-excel-handler.php:340 | the dashboard count equals the number of rows a save would load, for every file state including a missing or zero-size one |
| AdminPreview.LatestSubmission | bricks-form-excel-handler.php:343-347 | "N/A" without submissions; otherwise the second cell of the file's last line, or "N/A" when that line has no second cell |
| AdminPreview.Reverse | bricks-form-excel-handler.php:531 | reversal keeps the length and puts element `i` at position `n - 1 - i` |
| AdminPreview.PreviewCount | bricks-form-excel-handler.php:522 | the preview count is the smaller of 10 and the line count minus one |
| AdminPreview.RecentLines | bricks-form-excel-handler.php:521-531 | there are `min(10, lines - 1)` previewed lines (none when that is not positive); line `i` of the window is the file's `i`-th line from the end; the header line is never shown |
| AdminPreview.Truncate | bricks-form-excel-handler.php:557 | a shown cell is at most 53 characters long; a cell of up to 50 characters is shown whole; a longer one is shown as its first 50 characters followed by "..." |
| AdminPreview.TruncateIdempotent | bricks-form-excel-handler.php:557 | shortening a shown cell again changes nothing |
| AdminPreview.ViewCell | bricks-form-excel-handler.php:542-559 | column 4 is a newsletter cell, marked refused iff its trimmed text is `"I do not agree"`; columns 5 to 8 are consent cells, marked yes iff their trimmed text is `"Yes"`; both show the cell text unchanged; every other column shows the cell shortened to its first 50 characters plus `"..."` when longer than 50, with the full cell as its title |
| AdminPreview.ViewRow | bricks-form-excel-handler.php:539-560 | a previewed row has one view per cell |
| AdminPreview.Preview | bricks-form-excel-handler.php:514-531 | there is a preview iff there is at least one submission; its header is the file's first line; it shows `min(10, count)` rows, row `i` being the view of the `i`-th line from the end |
| AdminPreview.IsRefusal | bricks-form-excel-handler.php:545 | the newsletter cell is marked refused when its trimmed text is `"I do not agree"` |
| AdminPreview.IsYes | bricks-form-excel-handler.php:551-554 | a consent cell is marked yes when its trimmed text is `"Yes"`, and no otherwise |
| AdminPreview.TrimKeepsConsentWords | bricks-form-excel-handler.php:545-554 | `"Yes"`, `"No"` and `"I do not agree"` are unchanged by trimming |
| AdminPreview.ConsentCellShown | bricks-form-excel-handler.php:550-552 | a channel cell holding `"Yes"` or `"No"` is marked yes exactly when it holds `"Yes"` |
| AdminPreview.PreviewShowsChannel | bricks-form-excel-handler.php:550-552 | a stored channel consent of `"Yes"` or `"No"` is previewed as a consent cell marked yes exactly when it is `"Yes"` |
| AdminPreview.PreviewShowsRefusal | bricks-form-excel-handler.php:544-546 | a stored refusal is previewed as a newsletter cell marked refused |
| AdminPreview.PreviewRefusalShowsNoChannel | bricks-form-excel-handler.php:543-552 | a stored refusal that keeps the consent invariant shows none of its three channels marked yes |
| SubmissionHandler.HandleSubmission | bricks-form-excel-handler.php:184-259 | a submission writes a file that starts with the header and whose rows are the stored rows upserted with the normalised record: with no match that record's row is the file's last line, and every matching row carries the record's values after its id cell; it keeps the consent invariant of a consistent table; the dashboard count grows by one unless the entry id updated a row, and otherwise stays the same |
| SubmissionHandler.LatestAfterNewEntry | bricks-form-excel-handler.php:343-347 | after a submission that updated no row, the dashboard's latest submission is that submission's timestamp |
| SubmissionHandler.RefusalExample | bricks-form-excel-handler.php:127-134 | a refusal posted together with e-mail consent `"Yes"` stores e-mail consent `"No"` |
| SubmissionHandler.ChannelExample | bricks-form-excel-handler.php:147-169 | without a refusal, a posted `"Yes"` (also as a list) is stored as `"Yes"`; a `"No"` or an absent channel is stored as `"No"` |
| SubmissionHandler.TermsExample | bricks-form-excel-handler.php:173-177 | absent terms store `"No"`, `"on"` stores `"Yes"`, and `"0"` stores `"No"` |

## Left out

- CsvStore.Matches: the entry id is compared with the row's first cell by exact string equality. PHP's loose `==` at bricks-form-excel-handler.php:204 also equates numeric strings such as `"1"` and `"01"`, so the model misses those matches.
- CsvStore.Upsert: rows match by exact string equality (through `CsvStore.Matches`). PHP's loose `==` at bricks-form-excel-handler.php:204 also equates numeric strings such as `"1"` and `"01"`, so the model misses those matches.
- FormFields.RadioValue: a posted array is modelled as a list indexed from 0. PHP's `isset($field_value[0])` looks up key 0, so an array without a key 0 (a keyed or sparse post such as `name[1]=Yes`, which PHP resolves to `""`), other keyed arrays, and nested arrays (which reach `sanitize_text_field` as arrays) are not represented, because the posted-value type has no keys and no nesting.
- AdminPreview.Truncate: PHP `strlen`/`substr` count bytes, the model counts characters. For multi-byte UTF-8 text the PHP cut falls earlier and can split a character.
- AdminPreview.SubmissionCount: the dashboard counts raw text lines (`file()`), while a save reads CSV records (`fgetcsv`). The model treats each line as one record, so a quoted cell that spans several lines, which PHP counts more than once, is not modelled.
- CSV parsing and writing (`fgetcsv`, `fputcsv`, `str_getcsv`), the UTF-8 byte-order mark, `chmod`, and the failure of `fopen`. These are file I/O: the model's file is a sequence of already-split rows, and a failed write (the `return false` path) is not modelled.
- The stored header's first cell carries the byte-order mark in the real file. The preview shows the stored header line as it is, and the model does not add the mark.
- `sanitize_text_field`, `sanitize_email` and `current_time` are WordPress functions. They are parameters, and nothing is assumed about what they do.
- `error_log` calls: logging only.
- The WordPress wiring (the constructor, `add_custom_capability`, `enqueue_admin_styles`, `add_admin_menu`, `protect_directory`): framework glue and file creation.
- `handle_download`: the nonce and permission checks, the Excel download and the clear action (`unlink` of the file). These are request handling and file deletion. A cleared file is simply `Absent` in the model.
- `csv_to_excel`: XML text output and escaping.
- `render_admin_page`, `render_stat_card`, `render_styles` and the HTML markup of `show_preview`: rendering only. The model keeps what the preview decides (which rows, in which order, which class, which shortened text) and not the markup. The file size shown on the dashboard (`size_format`) and the "cleared" notice are left out too.
- Lost updates between concurrent submissions: the code takes no lock, and the model handles one submission at a time.
