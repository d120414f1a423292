# UYAP lawyer-portal integration: a Dafny model of its deterministic core

The integration drives a browser session on the UYAP lawyer portal. It
searches case files, reads the results table and downloads a file's
documents. Around the browser calls sit a few pieces of plain logic, and
this project models and proves them:

- the file-name sanitiser applied before a downloaded document is moved;
- the extension-based document-type classifier;
- the mapping from a search-results table to `UyapFile` records;
- the login heuristic (more than three menu items) and the wait for login;
- the download-completion test (target present, `.crdownload` twin absent) and the wait for it;
- UYAPManager: lazy construction of its one integration object, the connection check, the search and download wrappers, and `cleanup`;
- the settings table of `uyap_config.py`, with `get_config` and the guarded `update_config`.

The browser is never modelled. Each call into it becomes a parameter that
carries what the browser would report:

- whether the driver started;
- the menu-item count seen by each login check, where `None` means the wait timed out;
- the listing of the downloads directory at each poll;
- whether each search step succeeded;
- the results table as rows of cell texts;
- the path each document download gave.

A wait loop runs over the sequence of polls, and the end of that sequence
stands for the deadline.

Modules:

- Wrappers: `Option` and `Result`.
- Strings: the Python string primitives the code relies on.
  - `str.strip()` with Python's whitespace set.
  - `str.replace` of one character.
  - `str.lower()` (ASCII letters).
  - `str.rfind`.
  - `posixpath.splitext`: leading dots of the last component do not start an extension.
  - `s[:k]` for a negative `k`.
  - The decimal rendering of a natural number.
- FileNames: `_sanitize_filename` and `_get_file_type_from_name`.
- SearchResults: `UyapFile` and `_parse_search_results`.
- Integration: the `UYAPAdvancedIntegration` class, reduced to its `session_active` flag.
  - `check_login_status` and `wait_for_login`.
  - `_wait_for_download`.
  - The text step of reading an expense amount.
- Manager: the `UYAPManager` class.
- Config: the ten sections, `get_config`, and `update_config` on a store object holding the shared table.

One case of the length cut does not do what the code promises, and the model
follows the code. The comment above the cut
(`firstwebsite/uyap_integration_advanced.py:586`) says the length is limited,
and the long-name test (`firstwebsite/test_uyap_integration.py:337`) expects
at most 255 characters. The code cuts the stem with `name[:255-len(ext)]`
(line 589). When the extension alone is longer than 255, that index is
negative and Python counts it from the end, so the result stays longer than
255. `PrefixSlice` models that slice exactly.
`FileNames.SanitizedFitsIff` states when the result fits: when the name
already did, or when its extension is at most 255 long.

## Model

| member | source | states |
|---|---|---|
| `Strings.Strip` | firstwebsite/uyap_integration_advanced.py:333-339 | `str.strip()` never lengthens the cell. What it returns is characterised by `Strings.StripTrims`. |
| `Strings.StripEnds` | firstwebsite/uyap_integration_advanced.py:333-339 | What `str.strip()` returns neither starts nor ends with whitespace. |
| `Strings.StripWindow` | firstwebsite/uyap_integration_advanced.py:333-339 | What `str.strip()` returns is the part of the text right after its leading whitespace. Everything outside that part is whitespace. |
| `Strings.StripTrims` | firstwebsite/uyap_integration_advanced.py:333-339 | `str.strip()` returns a contiguous part of the cell with no whitespace at either end. It is empty exactly when the cell is all whitespace. Everything cut off is whitespace. |
| `Strings.StripIdempotent` | firstwebsite/uyap_integration_advanced.py:333 | Trimming a trimmed text changes nothing. |
| `Strings.Replace` | firstwebsite/uyap_integration_advanced.py:584 | Replacing one character keeps the length. Each occurrence becomes the replacement and every other character stays. |
| `Strings.Remove` | firstwebsite/uyap_integration_advanced.py:462 | Deleting a character removes every occurrence of it and keeps every other character the same number of times. A string without that character is returned unchanged. |
| `Strings.RemoveAppend` | firstwebsite/uyap_integration_advanced.py:462 | Deleting a character from two strings joined is deleting it from each and joining, so the other characters keep their order. |
| `Strings.SplitExt` | firstwebsite/uyap_integration_advanced.py:588 | `os.path.splitext`: stem plus extension is the name. A non-empty extension starts at a dot and holds no other dot or slash. The final component has a non-dot character before it. A name without an extension has no dot after its last slash, or only dots before that dot. |
| `Strings.PrefixSlice` | firstwebsite/uyap_integration_advanced.py:589 | `name[:k]` is a prefix of the name. Its length is `k` clipped to the name, or the name's length plus `k` for a negative `k`. |
| `Strings.Lower` | firstwebsite/uyap_integration_advanced.py:595 | `str.lower()` keeps the length. Each character is lowered, an ASCII capital to its small letter and every other character unchanged. |
| `Strings.RFind` | firstwebsite/uyap_integration_advanced.py:588 | `str.rfind`: the index of the last occurrence of the character, or -1 exactly when it does not occur. |
| `Strings.ExtLower` | firstwebsite/uyap_integration_advanced.py:595 | Lowering a name and then taking its extension is the same as lowering its extension. |
| `Strings.ExtOfLeadingDots` | firstwebsite/uyap_integration_advanced.py:595 | A name made of dots and then a dot-free tail has no extension. |
| `Strings.ExtNoDot` | firstwebsite/uyap_integration_advanced.py:595 | A name with no dot has no extension. |
| `Strings.Decimal` | firstwebsite/uyap_integration_advanced.py:332 | The rendering of a number in an f-string is a non-empty string of digits with no leading zero. |
| `Strings.DecimalRoundTrip` | firstwebsite/uyap_integration_advanced.py:332 | Reading the rendered digits back gives the number. |
| `FileNames.ReplaceInvalidChars` | firstwebsite/uyap_integration_advanced.py:582-584 | The loop replacing the nine invalid characters one kind at a time turns each invalid character into `_` and keeps every other character. |
| `FileNames.Sanitize` | firstwebsite/uyap_integration_advanced.py:579-591 | The replacement loop followed by the length cut returns `Sanitized(filename)`. No invalid character remains. A name of at most 255 characters keeps its length. |
| `FileNames.SanitizedHasNoInvalidChars` | firstwebsite/uyap_integration_advanced.py:582-591 | None of the nine invalid characters occurs in a sanitised name, however long the input. |
| `FileNames.SanitizedShortName` | firstwebsite/uyap_integration_advanced.py:582-587 | For a name of at most 255 characters, each invalid character becomes one `_` and every other character is unchanged. |
| `FileNames.SanitizedLongName` | firstwebsite/uyap_integration_advanced.py:587-589 | An over-long name whose extension fits is cut to exactly 255 characters. It ends with the extension, and what comes before is the start of the cleaned name. |
| `FileNames.TruncatedChars` | firstwebsite/uyap_integration_advanced.py:587-589 | The length cut introduces no character that was not already in the name. |
| `FileNames.SanitizedFitsIff` | firstwebsite/uyap_integration_advanced.py:587-589 | The result is at most 255 characters exactly when the input was, or when its extension is at most 255 characters. |
| `FileNames.SanitizeIdempotent` | firstwebsite/uyap_integration_advanced.py:579-591 | Sanitising a sanitised name changes nothing, when the extension is at most 255 characters. |
| `FileNames.SanitizeExampleInvalidChars` | firstwebsite/test_uyap_integration.py:330-332 | `test`, the nine invalid characters in a row, then `file.pdf`, becomes `test_________file.pdf`. |
| `FileNames.SanitizeExampleLongName` | firstwebsite/test_uyap_integration.py:335-338 | 300 `a`s followed by `.pdf` comes back at most 255 characters long and still ends in `.pdf`. |
| `FileNames.FileTypeFromNameLookup` | firstwebsite/uyap_integration_advanced.py:593-609 | `_get_file_type_from_name` looks the lowered extension up in the table. It is Unknown exactly when that extension is not in the table, and otherwise the table's label. |
| `FileNames.TypeOfExtension` | firstwebsite/uyap_integration_advanced.py:597-609 | Table lookup with fallback, both directions: `.pdf` gives PDF; `.doc`/`.docx` give Word; `.xls`/`.xlsx` give Excel; `.jpg`/`.jpeg`/`.png` give Image; `.zip` gives Archive. Unknown is given exactly for the extensions outside the table. |
| `FileNames.FileTypeCaseInsensitive` | firstwebsite/uyap_integration_advanced.py:595 | Two names that lower to the same string get the same type, so `.PDF` and `.pdf` agree. |
| `FileNames.FileTypeNoExtension` | firstwebsite/uyap_integration_advanced.py:595-609 | A name with no extension is Unknown. |
| `FileNames.FileTypeLabels` | firstwebsite/uyap_integration_advanced.py:597-609 | The label is always one of PDF, Word, Excel, Image, Archive, Unknown. |
| `FileNames.FileTypeOfStemAndTail` | firstwebsite/uyap_integration_advanced.py:595 | For a slash-free name with a non-dot stem, the type depends only on the lowered last suffix. |
| `FileNames.FileTypeExamplePdf` | firstwebsite/test_uyap_integration.py:344 | `test.pdf` is PDF. |
| `FileNames.FileTypeExampleUpperPdf` | firstwebsite/uyap_integration_advanced.py:595 | `test.PDF` is PDF, because the extension is lowered first. |
| `FileNames.FileTypeExampleDocx` | firstwebsite/test_uyap_integration.py:345 | `test.docx` is Word. |
| `FileNames.FileTypeExampleXlsx` | firstwebsite/test_uyap_integration.py:346 | `test.xlsx` is Excel. |
| `FileNames.FileTypeExampleJpg` | firstwebsite/test_uyap_integration.py:347 | `test.jpg` is Image. |
| `FileNames.UnlistedExtension` | firstwebsite/uyap_integration_advanced.py:609 | `.unknown` is not in the table and falls back to Unknown. |
| `FileNames.FileTypeExampleUnknown` | firstwebsite/test_uyap_integration.py:348 | `test.unknown` is Unknown. |
| `FileNames.FileTypeExampleNoDot` | firstwebsite/uyap_integration_advanced.py:595-609 | `README` has no extension, so it is Unknown. |
| `FileNames.FileTypeExampleDotFile` | firstwebsite/uyap_integration_advanced.py:595 | `.pdf` alone has no extension, so it is Unknown. |
| `SearchResults.Kept` | firstwebsite/uyap_integration_advanced.py:330 | Every kept row has at least four cells. |
| `SearchResults.ParseSearchResults` | firstwebsite/uyap_integration_advanced.py:309-351 | The row loop returns the files read from the data rows after the header, in order. A results table that never appears gives no files. |
| `SearchResults.ParsedSplit` | firstwebsite/uyap_integration_advanced.py:327-341 | Reading the rows before a position and then the rows from it on is the same as reading them all, with positions continuing across the split. |
| `SearchResults.ParsedKept` | firstwebsite/uyap_integration_advanced.py:327-341 | There is one file per kept row. File k is built from the k-th kept row, with the id of that row's position. |
| `SearchResults.KeptFromRows` | firstwebsite/uyap_integration_advanced.py:325-330 | Each kept row is the data row at its recorded position. There are at most as many kept rows as data rows. |
| `SearchResults.KeptInOrder` | firstwebsite/uyap_integration_advanced.py:327-341 | The kept rows come in table order. |
| `SearchResults.KeptComplete` | firstwebsite/uyap_integration_advanced.py:330 | Every data row with at least four cells is kept. |
| `SearchResults.RowToFileReads` | firstwebsite/uyap_integration_advanced.py:331-340 | Field mapping. `esas_no` is trimmed cell 0. `mahkeme` and `yargi_birimi` are both trimmed cell 1. `yargi_turu` is cell 2 and `durum` is cell 3. `acilis_tarihi` and `taraflar` are cells 4 and 5 when present, otherwise "". The fields not read are "". |
| `SearchResults.StrippedCells` | firstwebsite/uyap_integration_advanced.py:333-339 | There is one trimmed text per cell. |
| `SearchResults.StrippedCellsAt` | firstwebsite/uyap_integration_advanced.py:333-339 | Trimmed text k is `strip()` of cell k. |
| `SearchResults.RowToFileExtraCells` | firstwebsite/uyap_integration_advanced.py:331-340 | Cells after the sixth are never read: a row with more cells gives the same file as its first six. |
| `SearchResults.ParsedRows` | firstwebsite/uyap_integration_advanced.py:325-341 | The parse is the in-order subsequence of the data rows with at least four cells, each mapped field by field. |
| `SearchResults.ParsedLength` | firstwebsite/uyap_integration_advanced.py:325-330 | There are no more files than data rows, that is, than table rows minus the header. |
| `SearchResults.ParsedAllWide` | firstwebsite/uyap_integration_advanced.py:330 | When every row has at least four cells, every row gives a file. |
| `SearchResults.FileIdInjective` | firstwebsite/uyap_integration_advanced.py:332 | `uyap_file_{i}_{t}` determines both `i` and `t`. |
| `SearchResults.ParsedIdsDistinct` | firstwebsite/uyap_integration_advanced.py:332 | The files of one parse have pairwise distinct ids, even when every row gets the same clock reading. |
| `Integration.LoggedInThreshold` | firstwebsite/uyap_integration_advanced.py:171 | A login is seen exactly when at least four menu items are found; a timed-out wait is never a login. |
| `Integration.DownloadCompleteAfterRename` | firstwebsite/uyap_integration_advanced.py:569-574 | While `name.crdownload` is listed the download is not complete; once it is renamed to the target name, it is. |
| `Integration.WaitForDownload` | firstwebsite/uyap_integration_advanced.py:557-577 | Reports success exactly when some listing before the deadline has the target name and lacks `name.crdownload`. It stops at the first such listing; otherwise it uses every listing and reports failure. |
| `Integration.AmountText` | firstwebsite/uyap_integration_advanced.py:462 | The amount text has no comma and no lira sign. It holds the characters of the trimmed cell with commas turned into points, each as often as there, minus every lira sign. A trimmed cell without a lira sign gives exactly that cell with commas turned into points. |
| `Strings.ReplaceAppend` | firstwebsite/uyap_integration_advanced.py:462 | Replacing a character in two joined strings is replacing it in each and joining. |
| `Integration.AmountTextSplit` | firstwebsite/uyap_integration_advanced.py:462 | For a cell with no whitespace at either end, split anywhere, the amount text is each part with commas turned into points and lira signs deleted, in order. This fixes the result for every trimmed cell. |
| `Integration.AmountTextLeadingSign` | firstwebsite/uyap_integration_advanced.py:462 | `₺150,75` reads as `150.75`: the lira sign followed by a number gives the number with commas turned into points. |
| `Integration.AmountTextTrailingSign` | firstwebsite/uyap_integration_advanced.py:462 | `150,75₺` reads as `150.75`: a number followed by the lira sign gives the number with commas turned into points. |
| `Integration.UyapAdvancedIntegration.constructor` | firstwebsite/uyap_integration_advanced.py:85-104 | A new integration object has no active session. |
| `Integration.UyapAdvancedIntegration.InitializeDriver` | firstwebsite/uyap_integration_advanced.py:106-156 | Driver start-up reports what the browser reports. It counts one start-up and leaves the session flag alone. |
| `Integration.UyapAdvancedIntegration.CheckLoginStatus` | firstwebsite/uyap_integration_advanced.py:158-181 | Returns true exactly when more than three menu items are found; a timeout gives false. True sets `session_active`; false never clears it. |
| `Integration.UyapAdvancedIntegration.WaitForLogin` | firstwebsite/uyap_integration_advanced.py:183-202 | Returns true exactly when some check before the deadline sees a login. The session flag ends as it was, or set if the wait succeeded. |
| `Manager.DownloadedPathsLength` | firstwebsite/uyap_integration_advanced.py:732-743 | There are no more paths than documents. |
| `Manager.DownloadedPathsMembers` | firstwebsite/uyap_integration_advanced.py:736-738 | A path is returned exactly when it is non-empty and some download gave it. |
| `Manager.DownloadedPathsAppend` | firstwebsite/uyap_integration_advanced.py:734-738 | The paths of two batches are the paths of each batch, joined in document order. |
| `Manager.DownloadedPathsAllSucceed` | firstwebsite/uyap_integration_advanced.py:734-738 | When every download gives a non-empty path, all the paths are returned in document order. |
| `Manager.UyapManager.constructor` | firstwebsite/uyap_integration_advanced.py:646-649 | A new manager holds no integration object. |
| `Manager.UyapManager.GetInstance` | firstwebsite/uyap_integration_advanced.py:651-661 | Builds a new integration object only when none is held, and otherwise returns the held one. |
| `Manager.UyapManager.EnsureConnection` | firstwebsite/uyap_integration_advanced.py:663-676 | Returns true exactly when the session was already active, or the driver starts and a login is seen. The result equals the session flag afterwards. An active session leaves the start-up count unchanged. |
| `Manager.UyapManager.SearchFilesWithFilters` | firstwebsite/uyap_integration_advanced.py:678-698 | The connection check runs first, with the same effect on the integration object as `EnsureConnection` (the object is kept or built, the session flag is what the check returns, no restart of an active session). Failed connection: connection error. Failed move to the search page: navigation error. Failed filter step or search click: no files. Otherwise: the parse of the results table. |
| `Manager.UyapManager.GetFileCompleteDetails` | firstwebsite/uyap_integration_advanced.py:700-715 | The connection check runs first, with the same effect as `EnsureConnection`. Failed connection: connection error. Otherwise: the details the browser read, or none. |
| `Manager.UyapManager.DownloadFileDocuments` | firstwebsite/uyap_integration_advanced.py:717-743 | The connection check runs first, with the same effect as `EnsureConnection`. Failed connection: connection error. Otherwise: the non-empty download paths, in document order. |
| `Manager.UyapManager.Cleanup` | firstwebsite/uyap_integration_advanced.py:745-749 | Afterwards no integration object is held. |
| `Config.InitialSectionNames` | firstwebsite/uyap_config.py:173-184 | The table's sections are exactly `urls`, `webdriver`, `login`, `search`, `detail`, `download`, `error`, `performance`, `security` and `test`. |
| `Config.InitialSectionsNonEmpty` | firstwebsite/uyap_config.py:9-169 | Every shipped section has at least one setting. |
| `Config.UpdatedIff` | firstwebsite/uyap_config.py:203 | The update happens exactly when the section exists and already has the key. |
| `Config.UpdatedKeepsKeys` | firstwebsite/uyap_config.py:203-204 | No update adds or removes a section or a key. |
| `Config.UpdatedOnlyThatSetting` | firstwebsite/uyap_config.py:204 | A successful update sets that one entry. Every other key of the section and every other section stay as they were. |
| `Config.UpdatedRefusedUnchanged` | firstwebsite/uyap_config.py:207-209 | A refused update leaves every section unchanged. |
| `Config.LookupAfterUpdate` | firstwebsite/uyap_config.py:186-204 | After a successful update, reading the section back gives the new value under that key. |
| `Config.LookupExampleUnknownSection` | firstwebsite/uyap_config.py:186 | An unknown section name gives the empty map. |
| `Config.UpdateExampleHeadless` | firstwebsite/uyap_config.py:19 | Setting `webdriver.headless` succeeds, and the section then reads the new value. |
| `Config.UpdateExampleUnknownKey` | firstwebsite/uyap_config.py:207-209 | Setting a key `webdriver` does not have is refused and changes nothing. |
| `Config.ConfigStore.constructor` | firstwebsite/uyap_config.py:9-169 | The store starts with the shipped table. |
| `Config.ConfigStore.GetConfig` | firstwebsite/uyap_config.py:171-186 | Returns a non-empty map exactly for the ten section names, and that section's current settings. Any other name gives the empty map. |
| `Config.ConfigStore.UpdateConfig` | firstwebsite/uyap_config.py:188-209 | Returns true exactly when the section exists and already has the key, and then updates that entry, so `GetConfig` reads the new value. Otherwise nothing changes. The store stays valid: the same ten sections with the same keys. |

## Left out

- Browser interaction is not modelled. This covers Selenium and the portal's DOM: `navigate_to_file_search`, `search_files`, `_apply_filters`, `get_file_details`, the `_extract_*` tab readers, `download_document`, `close`, and the context-manager methods. Their outcomes are parameters.
- `initialize_driver` is reduced to its boolean result. The Chrome options, the download preferences and the switch from an existing debugging session to a new one are foreign calls.
- Integration.UyapAdvancedIntegration.CheckLoginStatus takes a menu-item count or a timeout. `check_login_status` catches only `TimeoutException` (line 179). Any other browser error propagates out of `wait_for_login` and `ensure_connection`, so the manager's operations raise it instead of returning; the model has no such outcome.
- Clocks and sleeps are not modelled. The `time.time()` deadlines in `wait_for_login` and `_wait_for_download` become the length of a poll sequence, and the sleeps are dropped.
- SearchResults.ParseSearchResults: the `int(time.time())` stamp in an id is a clock function of the row position. Python reads the clock once per row, at no fixed time.
- The filesystem is not modelled: `os.makedirs`, `os.path.exists`, `shutil.move`, the download path join, and the target-path handling in `download_document`. A directory is a set of names.
- The `threading.Lock` double-checked singleton in `UYAPManager.__new__` is left out. Its purpose is concurrency, so the manager is one object.
- `get_file_details`, which `get_file_complete_details` calls, is browser code. The details it reads are a parameter of `Manager.UyapManager.GetFileCompleteDetails`.
- `_extract_basic_info` is not modelled. It is a stub that always returns an empty dictionary.
- The `float()` conversion of an expense amount is floating point. Only the text step before it (`Integration.AmountText`) is modelled.
- UyapParty and `UyapExpense` are not modelled. Only the browser readers fill them.
- `import_uyap_file_to_database` is not part of this model. It lives in `app.py`, which is not available.
- The interactive scripts `test_uyap_real.py` and `test_uyap_mock.py` are not modelled.
- print output and logging are not modelled. This includes the messages of `update_config` and the `__main__` listing in `uyap_config.py`.
- Config.Value has booleans, integers, strings, lists and dictionaries: the kinds the shipped table uses. `update_config` accepts any Python value, so floats, `None` and other objects cannot be stored in the model.
- Config.ConfigStore.GetConfig returns a copy of the section. In Python the returned dictionary is the live module-level one, so writing to it changes the settings.
- Strings.Lower lowers ASCII letters only; Python's `str.lower()` also lowers other letters. No other character lowers into one of the nine table extensions, which are ASCII.
- Strings.SplitExt follows `posixpath`, with `/` as the only separator. On Windows `ntpath.splitext` also treats `\` as a separator. The sanitiser is unaffected: no `\` remains after its loop. The classifier is affected: `_get_file_type_from_name` is applied to the raw document name (line 502), so on Windows `a\.pdf` is Unknown, while `FileNames.FileTypeFromName` says PDF.
- The fallbacks `""` for `yargi_turu` and `"Aktif"` for `durum` in `_parse_search_results` are not modelled. They are unreachable, because only rows with at least four cells are read.
- The exception handler around each row in `_parse_search_results` is not modelled. Reading a cell's text raises only in the browser.
