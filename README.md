# B2B app version manager, modelled in Dafny

The system is a small release tracker for one mobile app. A FastAPI server
keeps one SQLite table, `app_versions`, with one row per app release: its
version label, operating system, release type, status, seven nullable text
and date fields, and creation and update timestamps. A browser controller,
`VersionManager`, lists the rows and filters them by operating system. After
an admin password check it creates, edits and deletes rows, and it exports
the table as a CSV file for spreadsheet tools.

This project models both ends in Dafny:

- `Wrappers` holds `Option` and `Result`.
- `CsvExport` is the CSV writer of `exportToExcel`. Cells are quoted in the
  style of section 2 of RFC 4180, cells are joined by commas and lines by
  line feeds, and a byte-order mark goes in front. It also builds the
  `YYYYMMDD` file-name stamp. A reader for the same format is its partner,
  and a round trip is proved.
- `FormCodec` is the record ⇄ form codec (`fillFormData` / `getFormData`),
  with a round trip proved for exactly the records that survive it.
- `StyleTables` holds the five lookup tables with their fallback entry.
- `Client` is the `VersionManager` class: the loaded records, edit mode,
  the id under edit, the filter and the form. Each remote reply is a
  parameter of the method that waits for it. Each method returns the
  requests it issued and the notifications it showed.
- `StringOrder` is the character-by-character order that
  `ORDER BY version` uses.
- `VersionStore` is the server. It holds the password check, and
  `VersionTable`, a class over `map<int, Row>` and the AUTOINCREMENT
  counter. The class covers listing with the filter clause, create,
  update, delete with the 404 case, export shaping and seeding.
- `System` proves facts that span both ends: the filter the client sends
  and the rows the server keeps, a body stored and reopened in the editor,
  and a server export read back from the client's CSV.

## Model

| member | source | states |
|---|---|---|
| CsvExport.NeedsQuoting | frontend/app.js:330 | The quoting test: the cell holds a comma, a line feed or a double quote (a definition; EncodeCell states what it decides) |
| CsvExport.DoubleQuotes | frontend/app.js:331 | `replace(/"/g, '""')`: never shorter, and text without quotes is unchanged; DoubledQuotesArePaired and CollapseAfterDouble state the rest |
| CsvExport.Join | frontend/app.js:334-335 | `join(sep)`: the empty list gives the empty string and one part gives that part; JoinLayout and the reader lemmas state the rest |
| CsvExport.JoinLayout | frontend/app.js:334-335 | The joined text starts with the first part, the separator follows it when more parts come, and each further part adds at least one character |
| CsvExport.EncodeCell | frontend/app.js:328-333 | A cell with a comma, line feed or double quote is wrapped in quotes with inner quotes doubled; any other cell is emitted unchanged (iff); the result is a well-formed field and decoding it gives the cell back |
| CsvExport.DoubledQuotesArePaired | frontend/app.js:331 | After every `"` is doubled, the quotes of the text occur in pairs |
| CsvExport.CollapseAfterDouble | frontend/app.js:331 | Collapsing `""` undoes the doubling |
| CsvExport.CarriageReturnIsNotQuoted | frontend/app.js:330 | A cell holding only a carriage return is written bare, though section 2 of RFC 4180 would quote it |
| CsvExport.Document | frontend/app.js:327-339 | The file starts with the byte-order mark, and empty data gives the mark alone |
| CsvExport.ReadEncodedCell | frontend/app.js:328-333 | The reader takes back an encoded cell up to the next separator |
| CsvExport.ReadEncodedRow | frontend/app.js:327-334 | The reader takes back a comma-joined row of encoded cells |
| CsvExport.ReadEncodedLines | frontend/app.js:327-335 | The reader takes back the line-feed-joined rows |
| CsvExport.DocumentRoundTrip | frontend/app.js:327-339 | Reading the written file gives back the data, for every table whose rows are non-empty, except the one-empty-cell table |
| CsvExport.EmptyRowIsAmbiguous | frontend/app.js:327-335 | An empty row and a row with one empty cell are written identically |
| CsvExport.DecimalString | frontend/app.js:342-344 | `String(n)` is non-empty and all digits, with no leading zero for a positive n |
| CsvExport.DecimalRoundTrip | frontend/app.js:342-344 | Reading back `String(n)` gives `n` |
| CsvExport.PadStart | frontend/app.js:343-344 | `padStart(len, fill)`: a shorter text is filled on the left to exactly `len` characters, a text already that long is unchanged, and the text always ends the result |
| CsvExport.TwoDigitPad | frontend/app.js:343-344 | `padStart(2, '0')` of a month or day gives two digits that read back as the number |
| CsvExport.DateStamp | frontend/app.js:341-344 | The stamp is the year's digits, then the month (index plus one) and day as two digits each, and each part reads back as its number |
| CsvExport.ExportFileName | frontend/app.js:341-345 | The file name is the fixed prefix, then the date stamp, then `.csv` |
| CsvExport.StampOfFourDigitYear | frontend/app.js:341-344 | For a four-digit year the stamp has eight digits and reads as year·10000 + month·100 + day |
| FormCodec.RemoveFirst | frontend/app.js:196 | `replace('v', '')` removes only the first `v`, wherever it is |
| FormCodec.FillForm | frontend/app.js:194-213 | The version control gets the label without its first `v`; the three choice controls get the record's values; each of the seven text controls gets its field's text, or the empty string when the field is null |
| FormCodec.ReadForm | frontend/app.js:253-272 | No body iff the version control is empty; otherwise the version is `v` + control; each choice field is its control's value, or that field's own default when its control is empty, whatever the other controls hold (so never empty); each text field is its control's text |
| FormCodec.FormRoundTrip | frontend/app.js:194-213 | Filling the form from a record and reading it back sends that record's fields iff the label is `v` plus a non-empty text and the choice fields are non-empty |
| FormCodec.DefaultFill | frontend/app.js:260-271 | With only the version filled, the body carries the three defaults and empty strings |
| FormCodec.EmptyVersionIsRejected | frontend/app.js:254-258 | An empty version control gives no body |
| FormCodec.InnerVIsMoved | frontend/app.js:196 | A stored `1.v2` is saved back as `v1.2` |
| FormCodec.BareVCannotBeResaved | frontend/app.js:196 | A record labelled `v` opens with an empty version and cannot be saved unchanged |
| StyleTables.Find | frontend/app.js:507 | An object lookup finds a value iff the key is listed, and that value belongs to the key |
| StyleTables.ListedKeyGivesItsValue | frontend/app.js:499-548 | With distinct keys, a listed key gives its own entry |
| StyleTables.TableLaw | frontend/app.js:499-548 | `map[key] \|\| first value`: a listed key gives its value, any other key the first entry's value, always a listed value |
| StyleTables.StatusGradient | frontend/app.js:499-508 | The gradient table with its fallback |
| StyleTables.StatusTextClass | frontend/app.js:510-519 | The status text colour table with its fallback |
| StyleTables.StatusIcon | frontend/app.js:521-530 | The status icon table with its fallback |
| StyleTables.TypeClass | frontend/app.js:532-539 | The release type badge table with its fallback |
| StyleTables.OsClass | frontend/app.js:541-548 | The operating system badge table with its fallback |
| StyleTables.UnknownStatusLooksLikePlanning | frontend/app.js:499-530 | An unknown status is drawn exactly like `確認要釋出的項目中` |
| StyleTables.StatusesAreDistinguished | frontend/app.js:499-530 | Two different statuses differ in gradient, colour and icon |
| Client.LoadUrl | frontend/app.js:109 | The load URL carries `?os_filter=<filter>` iff the filter is not `all` |
| Client.LoadUrlSeparatesFilters | frontend/app.js:109 | Different filters fetch different URLs |
| Client.IdText | frontend/app.js:229-230 | `${id}`: a non-negative id is written as digits that read back as the id, a negative one as `-` and the digits of its magnitude; no leading zero for a non-zero id |
| Client.IdTextSeparatesIds | frontend/app.js:229-230 | Different ids give different `/api/versions/{id}` URLs, so a PUT or DELETE names exactly the record it is for |
| Client.Truthy | frontend/app.js:229 | The test `if (this.editingId)`: null and 0 are falsy (a definition; SaveRequest states what it routes) |
| Client.SaveRequest | frontend/app.js:229-238 | PUT to `/api/versions/{id}` iff the id under edit is truthy (not null, not 0), POST to `/api/versions` otherwise, with the form body |
| Client.WithExpandedDefaults | frontend/app.js:385-389 | Records without a flag get `index == 0`; records with one keep it |
| Client.DefaultsAreIdempotent | frontend/app.js:385-389 | Assigning the defaults twice is the same as once |
| Client.FreshListOpensFirstOnly | frontend/app.js:385-389 | On a freshly loaded list exactly the first record is open |
| Client.FindById | frontend/app.js:293 | `find` gives the first record with the id, or none when no record has it |
| Client.Toggled | frontend/app.js:293-295 | The toggled list has the same length, each record differs from the original at most in its flag, and a list without the id is unchanged |
| Client.ToggleTouchesOnlyFirstMatch | frontend/app.js:292-298 | Toggling flips the flag of the first matching record and changes nothing else; no match changes nothing |
| Client.ToggleTwiceRestores | frontend/app.js:292-298 | Toggling the same id twice restores the list |
| Client.ExpandedDefaultsKeepFlagged | frontend/app.js:385-389 | A list whose records all have flags is left as it is |
| Client.VersionManager.constructor | frontend/app.js:5-13 | No records, not in edit mode, no id under edit, filter `all` |
| Client.VersionManager.RenderVersions | frontend/app.js:369-389 | The placeholder is drawn iff there are no records; otherwise the flag defaults are assigned in place |
| Client.VersionManager.LoadVersions | frontend/app.js:106-117 | GET the filter's URL; on success the records are replaced (and rendered), on failure they are kept and a failure notice is shown |
| Client.VersionManager.ExitEditMode | frontend/app.js:124-127 | Leaves edit mode |
| Client.VersionManager.CheckPassword | frontend/app.js:129-167 | No request for an empty password; a successful check enters edit mode; a wrong password or an error keeps the mode and clears the box |
| Client.VersionManager.OpenVersionModal | frontend/app.js:178-192 | Editing a record sets the id under edit and fills the form from it; a new version clears the id and resets the form |
| Client.VersionManager.CloseVersionModal | frontend/app.js:215-218 | Clears the id under edit |
| Client.VersionManager.SaveVersion | frontend/app.js:220-251 | No request when the form has no version; otherwise the routed save, then on success the modal closes and the list reloads; the notices are the reload's failure notice, if any, followed by `版本新增成功！` even for an update |
| Client.VersionManager.DeleteVersion | frontend/app.js:275-290 | No request unless confirmed; otherwise DELETE `/api/versions/{id}`; on failure only the failure notice; on success a reload, then the reload's failure notice, if any, followed by `版本已成功刪除` |
| Client.VersionManager.ToggleVersion | frontend/app.js:292-298 | The list becomes the toggled list |
| Client.VersionManager.SetFilter | frontend/app.js:300-304 | Stores the filter and loads with it: on success the records are replaced and no notice is shown, on failure they are kept and the `載入版本資料失敗：` notice is shown |
| Client.VersionManager.ExportToExcel | frontend/app.js:322-367 | GET `/api/export`; on success the file name carries the date stamp, the content is the CSV document, and the data reads back from it |
| Client.EditAndSave | frontend/app.js:240-243 | Editing a stored record and saving it issues a PUT to its id, yet the notices end in `版本新增成功！`, after the reload's failure notice if the reload fails |
| StringOrder.LexLeReflexive | backend/main.py:195 | The order of `ORDER BY version` is reflexive |
| StringOrder.LexLeTotal | backend/main.py:195 | Any two labels are comparable |
| StringOrder.LexLeTransitive | backend/main.py:195 | The order is transitive |
| StringOrder.LexLeAntisymmetric | backend/main.py:195 | Labels ordered both ways are equal |
| VersionStore.VerifyPassword | backend/main.py:141-143 | True iff the password is `admin123` |
| VersionStore.Authenticate | backend/main.py:156-166 | `success` is the password check, with message `認證成功` or `密碼錯誤` |
| VersionStore.Selects | backend/main.py:189-193 | The WHERE clause as a test on a row's system (a definition; FilterClause states what it keeps) |
| VersionStore.FilterClause | backend/main.py:189-193 | `ios` keeps exactly iOS and both-systems rows, `android` exactly Android and both-systems rows, anything else every row |
| VersionStore.InsertPos | backend/main.py:195 | The insertion point lies after every greater label and before the first label not greater |
| VersionStore.InsertKeepsOrder | backend/main.py:195 | Inserting at that point keeps the list in descending order |
| VersionStore.SelectStep | backend/main.py:189-199 | One step of the selection keeps: selected rows once each, all seen rows the filter keeps, descending order |
| VersionStore.ExportCells | backend/main.py:341-346 | Eleven cells in the export's column order, a NULL column as `''` |
| VersionStore.SeedStep | backend/main.py:121-127 | Inserting the next sample under the next id extends the seeded table by exactly that row |
| VersionStore.VersionTable.constructor | backend/main.py:84-101 | An empty table whose counter starts at 1 |
| VersionStore.VersionTable.CreateVersion | backend/main.py:213-242 | Exactly one new row under an id not in use, storing the eleven fields with equal timestamps; no other row changes |
| VersionStore.VersionTable.UpdateVersion | backend/main.py:248-280 | Unknown id: 404 and nothing changes; otherwise the fields and `updated_at` are replaced, the id and `created_at` kept, and other rows untouched |
| VersionStore.VersionTable.DeleteVersion | backend/main.py:291-307 | Unknown id: 404 and nothing changes; otherwise exactly that row is removed |
| VersionStore.VersionTable.SelectOrdered | backend/main.py:182-199 | Exactly the rows the filter keeps, each once, by version descending |
| VersionStore.VersionTable.GetVersions | backend/main.py:168-209 | Each listed version is its row with its id; exactly the rows the filter keeps, each once, by version descending |
| VersionStore.VersionTable.ExportVersions | backend/main.py:315-348 | The header, then one eleven-cell line per row of the table, every row once, by version descending |
| VersionStore.VersionTable.InitDatabase | backend/main.py:78-131 | An empty table receives the three samples under consecutive new ids, with both timestamps equal; a table with rows is unchanged; afterwards the table is never empty. The count is taken at every start, so a table emptied by deletions is seeded again |
| VersionStore.SelectionCoversTable | backend/main.py:322-337 | Without a filter the selection has one entry per row |
| System.FilterAgreement | frontend/app.js:109 | The query the client sends makes the server keep the chosen system's rows plus the both-systems rows, or every row for `all` |
| System.BodySurvivesStorage | backend/main.py:220-242 | A body stored by the server and loaded back gives the same body |
| System.SavedVersionReopens | frontend/app.js:194-272 | A saved version reopened in the editor reads back as the same body, and saving it again is a PUT to its id |
| System.ExportReadsBack | backend/main.py:334-348 | The table the server exports reads back intact from the CSV file the client writes |

## Left out

- Rendering: DOM access, modal visibility, the HTML templates of the list
  and of the filter buttons, `updateEditModeUI` and the loading overlay.
  The model keeps only the placeholder-or-list decision of
  `renderVersions`.
- The edit button's attribute (frontend/app.js:415): the record reaches
  `openVersionModal` as JSON written into an HTML attribute with only `"`
  escaped, and the browser decodes character references in it. A text
  holding `a &amp; b` therefore comes back as `a & b`, and is saved that
  way. `System.SavedVersionReopens` and `FormCodec.FormRoundTrip` start
  from the record as stored, so this loss is not in the model.
- Remote calls: `fetch` and `makeRequest`. Each reply is a parameter.
  Overlapping requests and their interleaving are not modelled.
- Host interface: notification timers, `Blob` and the link-click download
  (the model returns the file name and content), and `confirm()`, which is
  a boolean parameter.
- Dates: `formatDate`, the clock, and `new Date` in the export. Year, month
  index and day are parameters, and negative years are not modelled.
- Lookups on inherited object keys: with a key such as `constructor`, the
  JavaScript tables return a prototype member. The model's tables know only
  their listed keys.
- Form controls: a `<select>` can only hold its own options; the model
  takes any text. The values `reset()` leaves in the form are a `blank`
  parameter of `OpenVersionModal` and of the constructor.
- `String(cell)` in the CSV writer: the model's cells are already strings,
  which the server guarantees by mapping NULL to `''`.
- The server: SQLite connections and SQL text, FastAPI routing, static
  files and CORS, logging, pydantic validation, and the 500 paths taken on
  database exceptions. Timestamps from `datetime.now()` are parameters.
- `VersionStore.VersionTable.SelectOrdered`: ties between equal labels come
  out in any order. `ORDER BY` leaves them unspecified, and the model does
  not fix them.
- `VersionStore.VersionTable.CreateVersion`: ids are unbounded integers.
  SQLite's 64-bit rowid limit is not modelled.
- The update toast: the ternary at frontend/app.js:243 would pick
  `版本更新成功！` for an update, but it tests `editingId` after
  `closeVersionModal` (frontend/app.js:217, called at line 240) has
  cleared it. The model follows the code, so the notice is always
  `版本新增成功！` (`Client.VersionManager.SaveVersion`, `Client.EditAndSave`).
