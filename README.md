# yurt-radio core in Dafny

This project models the core of yurt-radio, a personal radio server.

- **Track catalog.** The SQLite `tracks` table is one row per content hash: id, path, hash, title, author, duration, size, play count and last-played time. The `Catalog` class in `models.dfy` holds the rows in rowid order and the AUTOINCREMENT counter.
  - Each SQL function of `backend/models.py` is a method of that class.
  - What each statement does to the table is a pure function over `Table` values.
  - The schema constraints are a `WellFormed` invariant: unique `file_hash`, ascending ids, and every id issued by the counter.
- **Anti-repeat track selector.** `TrackService` in `services.dfy` keeps a FIFO window of the ids it served last and asks the catalog for a random track outside it.
- **Library scanner.** `scan_music.dfy` covers the chunked hashing of a file, the first scan (plain inserts) and the rescan (upserts, then deletion of every row whose hash was not seen). `reconcile.dfy` states what a run of upserts and deletions does to a table.
- **File-name helpers.** `utils.dfy` writes out Python's `os.path.splitext` and `os.path.basename`. On top of them sit the MIME lookup and the name-based parts of `extract_metadata`: the title, the author and the choice of container class.
- **Player clock.** `radio.dfy` models `formatTime` of the player page. JavaScript's truncating `%` and `Math.floor` are written out.
- **Gallery page.** `imagery.dfy` covers `escapeHtml`, the category filter, and the lightbox with its arrow and keyboard navigation. The `Gallery` class holds the items' `hidden` flags in an array, plus the closure variables of the script.
- **Navigation bar.** `nav.dfy` gives the per-link activation rule of the site navigation bar and the loop that applies it.

Things taken from outside are parameters:

- the clock (`now`);
- SHA-1 (`Env.sha1`);
- mutagen's container parsers (`Env.probe`), which read a duration from the bytes or reject them;
- the directory listing, a sequence of entries with their bytes in `os.listdir` order.

`ORDER BY RANDOM()` and the unordered `most_played` query are nondeterministic choices (`:|`).

Where the code and the intended behaviour differ, the model follows the code:

- **No fallback in `get_random_track`.** When every id is excluded it returns None, and `get_next_track` then fails on `track['id']`. `SmallCatalogExhausts` shows that a catalog of at most ten tracks is exhausted after each track has been served once. An 11th call therefore fails instead of falling back to the whole catalog.
- **`.flac` and `.ogg` fail in `extract_metadata`.** The scanner accepts these supported formats, but `extract_metadata` has no container branch for them. `audio` stays unbound, the call fails, and the scan or rescan aborts at that file. No `UnsupportedFormatError` is raised. A file of the other three formats fails the same way when its parser rejects the bytes.
- **No ordering in `get_stats`.** The `most_played` query has no ORDER BY, so it returns any row with the maximal play count.
- **Upsert and the AUTOINCREMENT counter.** SQLite draws the new rowid before the UNIQUE conflict turns the statement into its DO UPDATE, and the statement then succeeds. So an upsert of a stored hash still uses up one rowid, and a later insert gets an id above it. A plain insert that fails on UNIQUE is rolled back, counter included.
- **Upsert return value.** `insert_or_update_track` returns `cursor.lastrowid`. After the update branch this is 0, because no row was inserted on that connection.

## Model

| member | source | states |
|---|---|---|
| Common.Lower | backend/utils.py:31 | `str.lower()` keeps the length and lower-cases exactly the ASCII capitals, character by character |
| Common.LastIndexOf | backend/utils.py:87 | the result is the last position holding the character, or -1 when there is none |
| Common.FirstIndexOf | backend/utils.py:42 | the result is the first position holding the character, or the length when there is none |
| Models.FindHash | backend/models.py:47 | the lookup by hash finds a row with that hash, and finds none exactly when the hash is not stored |
| Models.Upsert | backend/models.py:223-232 | the table after the upsert: a stored hash refreshes its row in place, a new hash appends a row with the next id; the counter advances on both paths (`UpsertUnseenHash`, `UpsertSeenHash`) |
| Models.Insert | backend/models.py:198-202 | the table after the plain insert, or the UNIQUE violation on a stored hash (`InsertVersusUpsert`) |
| Models.UpsertUnseenHash | backend/models.py:223-232 | an upsert with a new hash appends one row with an id above every id ever issued, play count 0, no last-played time, and the given path, hash, title, author, duration and size; the counter moves to that id |
| Models.UpsertSeenHash | backend/models.py:223-232 | an upsert with a stored hash overwrites only path, title, author, duration and size of that row; id, hash and play statistics stay, every other row is unchanged, and the counter still advances by one |
| Models.UpsertHashes | backend/models.py:223-232 | after an upsert the stored hashes are the old ones plus the upserted hash |
| Models.UpsertWellFormed | backend/models.py:45-47 | an upsert keeps the hash unique, the ids ascending and every id issued by the counter |
| Models.UpsertIdempotent | backend/models.py:223-232 | applying the same upsert twice leaves the same rows as applying it once; the second statement only uses up one more rowid |
| Models.InsertVersusUpsert | backend/models.py:198-202 | a plain insert fails with the UNIQUE violation exactly when the hash is stored, and otherwise builds the same table as the upsert |
| Models.Without | backend/models.py:249-255 | the rows whose hash is not deleted, in order, and never more than before (`WithoutMembers`) |
| Models.DeleteUnseen | backend/models.py:236-255 | the table with every row whose hash is not seen deleted, counter unchanged (`DeleteUnseenSpec`) |
| Models.BumpPlay | backend/models.py:149 | the rows after the play-count UPDATE, as many as before (`BumpPlaySpec`) |
| Models.WithoutMembers | backend/models.py:249-255 | a row survives the deletion exactly when it was stored and its hash is not deleted |
| Models.WithoutTwice | backend/models.py:249-255 | deleting one set of hashes and then another is deleting their union, whatever the order of the single DELETEs |
| Models.WithoutNothing | backend/models.py:249-255 | deleting hashes that are not stored leaves the rows as they were |
| Models.WithoutWellFormed | backend/models.py:249-255 | deleting rows by hash keeps every schema constraint |
| Models.WithoutCount | backend/models.py:249-255 | the number of rows removed is the number of stored hashes deleted |
| Models.DeleteUnseenSpec | backend/models.py:236-255 | `del_by_unseen_hash(seen)` keeps exactly the rows whose hash is in `seen`, keeps the table well formed, and removes as many rows as there are stored hashes outside `seen` |
| Models.BumpPlaySpec | backend/models.py:139-151 | a play raises the addressed row's count by exactly one and stamps it; other rows are untouched, no count decreases, hashes and constraints are kept, and an unknown id changes nothing |
| Models.FloorDiv | backend/models.py:133 | Python's `//` lies between the quotient's floor bounds for either sign of the divisor |
| Models.PageCount | backend/models.py:133 | `(count + limit - 1) // limit` with Python's floor division (`PageCountIsCeiling`) |
| Models.Window | backend/models.py:118-122 | SQLite's `LIMIT ? OFFSET ?`: a negative offset reads as 0 and a negative limit means no bound (`PageRowsSpec`) |
| Models.PageRows | backend/models.py:112-122 | the rows of a 1-indexed page, at offset `(page - 1) * limit` (`PageRowsSpec`, `FirstPagesPrefix`) |
| Models.PageCountIsCeiling | backend/models.py:133 | for a positive page size, `(total + limit - 1) // limit` is the ceiling of total / limit |
| Models.PageRowsSpec | backend/models.py:112-122 | a page from 1 on is the slice starting at `(page-1)*limit` of at most `limit` rows, and it is empty past the last page |
| Models.PageOffset | backend/models.py:112 | the offset of a page from 1 on is not negative, and past the last page it is past the last row |
| Models.FirstPagesPrefix | backend/models.py:112-122 | the first k pages together are the first k*limit rows |
| Models.PagesCoverTable | backend/models.py:112-133 | reading pages 1 to `pages` returns every row once, in order |
| Models.PaginationExample | backend/models.py:112-133 | 125 tracks in pages of 50 make 3 pages, the third holds 25 rows and the fourth is empty |
| Models.MaxPlayCount | backend/models.py:168-172 | the maximal play count bounds every row's count and is reached by some row |
| Models.SumDurations | backend/models.py:167 | `SUM(duration)` over the rows (`SumDurationsBumpPlay`) |
| Models.SumDurationsBumpPlay | backend/models.py:149 | a play does not change the summed duration |
| Models.StatsAfterPlay | backend/models.py:149-176 | after a play the total duration is unchanged, and the maximal count grows by at most one and bounds the bumped row |
| Models.Catalog.constructor | backend/models.py:33-54 | `init_db` on a new file gives an empty, well-formed table with the counter at 0 |
| Models.Catalog.InsertTrack | backend/models.py:180-202 | `insert_track` fails with the UNIQUE violation and leaves the table unchanged on a stored hash; otherwise it appends the new row and returns its id |
| Models.Catalog.InsertOrUpdateTrack | backend/models.py:204-234 | `insert_or_update_track` leaves the table as the upsert function says, counter included, and keeps it well formed; it returns 0 exactly when the hash was stored, and the new id otherwise |
| Models.Catalog.UpdatePlayCount | backend/models.py:139-151 | `update_play_count` bumps the addressed row and keeps the table well formed |
| Models.Catalog.DelByUnseenHash | backend/models.py:236-255 | `del_by_unseen_hash` leaves the table with the unseen rows deleted, keeps it well formed, and returns the number of rows removed |
| Models.Catalog.DeleteHashes | backend/models.py:249-255 | the `executemany` of single-hash DELETEs, in any order, removes exactly the given hashes and counts the rows removed |
| Models.Catalog.GetRandomTrack | backend/models.py:57-78 | the pick is a stored row whose id is not excluded, and it is None exactly when every stored id is excluded (no fallback) |
| Models.Catalog.GetTrackById | backend/models.py:81-98 | a row is returned exactly when the id is stored, and it is the row with that id |
| Models.Catalog.GetAllTracks | backend/models.py:101-136 | a page size of 0 fails on the division; otherwise the result holds the page's rows, the total, the page echoed back and the ceiling page count |
| Models.Catalog.GetStats | backend/models.py:154-178 | an empty table fails on `dict(None)`; otherwise the result holds the row count, the summed duration and a stored row whose play count is maximal |
| Services.RememberKeepsWindow | backend/services.py:38-41 | remembering an id outside the window keeps it within MAX_RECENT_TRACKS and duplicate-free and puts the id last; it evicts only the oldest id, and only when the window was full |
| Services.Remember | backend/services.py:38-41 | the window after appending an id and popping the oldest when it grows past MAX_RECENT_TRACKS (`RememberKeepsWindow`) |
| Services.Replay | backend/services.py:38-41 | the window after a run of picks from an empty window (`ReplayIsSuffix`) |
| Services.ReplayIsSuffix | backend/services.py:38-41 | after any run of picks from an empty window, the window holds exactly the last MAX_RECENT_TRACKS ids served |
| Services.NoRepeatWithinWindow | backend/services.py:34-41 | no id is served twice within MAX_RECENT_TRACKS + 1 consecutive successful calls |
| Services.AdmissibleShortRunDistinct | backend/services.py:34-41 | a run of at most MAX_RECENT_TRACKS + 1 picks is free of duplicates |
| Services.SmallCatalogExhausts | backend/services.py:34-36 | once each track of a catalog with at most MAX_RECENT_TRACKS tracks has been served, every id is in the window, so the next pick is None |
| Services.TrackService.constructor | backend/services.py:18 | the service starts with an empty window |
| Services.TrackService.GetNextTrack | backend/services.py:21-43 | the call fails exactly when every stored id is in the window, and then nothing changes; otherwise it returns a stored track outside the window, bumps exactly that track's count, and appends its id last with at most one eviction, keeping the window bounded and duplicate-free |
| Services.TrackService.ClearRecentTracks | backend/services.py:46-52 | the window is empty afterwards |
| Services.TrackService.GetRecentlyPlayed | backend/services.py:55-62 | the result is the window, bounded and without duplicates |
| Utils.SplitExt | backend/utils.py:87 | `splitext` splits the path into two parts that concatenate back to it; the extension is empty or starts at the last `.` and holds no other `.` and no `/`; it is non-empty exactly when that `.` lies after the last `/` with a non-dot character between them, so leading dots of a base name are not an extension |
| Utils.Basename | backend/utils.py:42 | the base name is the suffix of the path after its last `/`: it holds no `/`, and it is the whole path or follows a `/` |
| Utils.Title | backend/utils.py:42 | the title is the part of the base name before its first `.` |
| Utils.GetMimetype | backend/utils.py:69-92 | the result is always one of the map's types; for a supported extension it is that extension's entry, and it is `audio/mpeg` for any extension outside SUPPORTED_FORMATS |
| Utils.SplitExtOfName | backend/utils.py:87 | a name made of a stem and one dot-suffix splits into exactly those two parts |
| Utils.MimetypeOfSupported | backend/utils.py:79-90 | a file path `dir/stem + ext`, with `ext` one of the five supported extensions, maps to that extension's type: `audio/mpeg`, `audio/flac`, `audio/ogg`, `audio/mp4` and `audio/wav` |
| Utils.SplitExtOfPath | backend/utils.py:87 | a path `dir/stem + ext`, with a dot-suffix `ext` and a stem of more than dots, splits into `dir/stem` and `ext` whatever `dir` holds |
| Utils.MimetypeDefaults | backend/utils.py:87-92 | `song.MP3`, `song` and `.flac` fall back to `audio/mpeg`, because the membership test is exact |
| Utils.TitleVersusSplitExt | backend/utils.py:42 | `a.b.mp3` has the title `a`, while `splitext` cuts it at the last dot |
| Utils.ExtractMetadata | backend/utils.py:14-47 | extraction fails with the unbound-`audio` error exactly when no container branch matches, and with a parse error when the matched parser rejects the bytes; otherwise the title comes from the name, the author is `Unknown`, the duration comes from the parser and the size is the byte count |
| Utils.Dispatch | backend/utils.py:31-40 | the container branch `extract_metadata` takes on the lower-cased path, or none (`DispatchSupported`, `DispatchIgnoresCase`) |
| Utils.ContainerFor | backend/utils.py:31-40 | the container branch of an extension, or none (`ContainerForSupported`) |
| Utils.DispatchSupported | backend/utils.py:31-44 | for a supported extension, dispatch picks the container branch of that extension: it fails exactly for `.flac` and `.ogg`, and picks MP3, WAVE or MP4 for the other three |
| Utils.ContainerForSupported | backend/utils.py:31-40 | among the supported extensions, exactly `.flac` and `.ogg` have no container branch |
| Utils.DispatchIgnoresCase | backend/utils.py:31-40 | dispatch lower-cases the path first, so `LOUD.MP3` is an MP3 |
| Reconcile.UpsertAll | scripts/scan_music.py:79-86 | the table after the rescan loop's upserts, in listing order (`UpsertAllLastWins`, `UpsertAllKeepsRows`) |
| Reconcile.InsertAll | scripts/scan_music.py:48-54 | the table after the first scan's plain inserts, or the first UNIQUE violation (`InsertAllSpec`) |
| Reconcile.Reconciled | scripts/scan_music.py:76-88 | the table after the upserts and the deletion of every unseen hash (`ReconciledHashes`, `ReconciledRowsAreLatest`) |
| Reconcile.LastFor | scripts/scan_music.py:84-85 | the last record of a hash is one of the run's records and carries that hash |
| Reconcile.UpsertAllWellFormed | scripts/scan_music.py:85 | any run of upserts keeps the table well formed |
| Reconcile.UpsertAllHashes | scripts/scan_music.py:84-85 | a run of upserts adds exactly the run's hashes to the stored hashes |
| Reconcile.UpsertAllKeepsRows | scripts/scan_music.py:85 | upserts never drop or move a row, and never change a row's id, hash or play statistics |
| Reconcile.UpsertAllLastWins | scripts/scan_music.py:84-85 | after a run of upserts, every row whose hash occurs in the run holds the metadata of the last record with that hash |
| Reconcile.UpsertAllOverwrites | scripts/scan_music.py:85 | when every hash of the run is stored, the run leaves the rows in place, each one whose hash occurs refreshed with the last record of that hash (`Overwrite`), and advances the counter by one per record |
| Reconcile.ReconciledHashes | scripts/scan_music.py:84-88 | after a completed rescan the stored hashes are exactly the seen hashes, and the table is well formed |
| Reconcile.ReconciledKeepsIdentity | scripts/scan_music.py:85-88 | a row whose hash is seen again survives the rescan with its id and play statistics |
| Reconcile.ReconciledRowsAreLatest | scripts/scan_music.py:84-88 | every row left after a rescan holds the metadata of the last record with its hash |
| Reconcile.ReconcileIdempotent | scripts/scan_music.py:76-88 | a second rescan over the same records changes no row and removes none, and its upserts alone already change no row; only the counter advances, by one per record |
| Reconcile.InsertAllSpec | scripts/scan_music.py:53 | a run of plain inserts succeeds exactly when its hashes are pairwise distinct and none is stored yet, and then it builds the same table as the upserts |
| ScanMusic.ReadChunk | scripts/scan_music.py:24 | a read returns the next at most 8192 bytes of the file, and returns nothing exactly at the end |
| ScanMusic.Digest.Update | scripts/scan_music.py:25 | feeding a chunk appends it to the bytes digested so far |
| ScanMusic.HashFile | scripts/scan_music.py:21-26 | feeding the file chunk by chunk yields the digest of the whole content |
| ScanMusic.Classify | scripts/scan_music.py:50-53 | an entry is skipped exactly when its extension is not supported; a failure names the file's path; a kept entry's record has the file name, the content's digest, the title from the name, author `Unknown` and the byte count |
| ScanMusic.Outcomes | scripts/scan_music.py:47-54 | the listing yields one outcome per entry, in listing order |
| ScanMusic.Records | scripts/scan_music.py:50-53 | the records of the kept entries, in listing order (`SeenHashes`, `DuplicateRecords`) |
| ScanMusic.ClassifyFails | scripts/scan_music.py:50-51 | a supported entry fails exactly when its container branch does not accept its bytes: `.flac` and `.ogg` have no branch and fail with the unbound-`audio` error; the other three fail only with a parse error |
| ScanMusic.DispatchOfPath | scripts/scan_music.py:50-51 | the path the scanner builds from a supported name dispatches on that name's extension |
| ScanMusic.DispatchUnderDir | scripts/scan_music.py:51 | a name under the music directory dispatches on the name's supported extension, whatever the directory |
| ScanMusic.AddedCountsPassed | scripts/scan_music.py:81-86 | when no entry fails, `total_added` is the number of entries the filter lets through, with updates counted as additions |
| ScanMusic.SeenHashes | scripts/scan_music.py:84 | the seen hashes are exactly the digests of the kept entries |
| ScanMusic.DuplicateRecords | scripts/scan_music.py:52-53 | two kept entries with the same digest give two records with the same hash |
| ScanMusic.ScanEntry | scripts/scan_music.py:49-54 | one loop pass of the first scan skips, fails on metadata, inserts, or fails on UNIQUE, as the entry's outcome and the insert say |
| ScanMusic.ScanMusicDirectory | scripts/scan_music.py:28-59 | the first scan succeeds exactly when no entry fails and the plain inserts succeed, and then reports every entry as scanned and every record as added; a failure stops at the first failing entry and keeps the inserts before it |
| ScanMusic.RescanEntry | scripts/scan_music.py:80-86 | one loop pass of the rescan skips, fails on metadata, or upserts and yields the hash seen |
| ScanMusic.UpsertListing | scripts/scan_music.py:76-86 | the rescan loop completes exactly when no entry fails, and then has upserted every record and collected exactly their hashes and count; a failure keeps the upserts before the failing entry |
| ScanMusic.RescanMusicDirectory | scripts/scan_music.py:62-94 | a completed rescan leaves the reconciled table and reports every entry as scanned, every record as added, and the number of rows deleted; a failing file aborts it before any deletion |
| ScanMusic.RescanSucceedsIff | scripts/scan_music.py:81-85 | a rescan completes exactly when every supported file of the listing is accepted by its container parser; any supported `.flac` or `.ogg` file makes it fail |
| ScanMusic.RescanResult | scripts/scan_music.py:84-88 | after a completed rescan the catalog holds exactly the digests of the scanned files, and each row holds the metadata of the last listed file with that digest |
| ScanMusic.DuplicateContentKeepsLaterName | scripts/scan_music.py:84-85 | two files with the same bytes leave one row, carrying the name of the file listed later |
| ScanMusic.ScanOfDuplicateContentFails | scripts/scan_music.py:50-53 | the first scan of a listing where two supported files share their bytes does not complete |
| ScanMusic.RescanTwiceNoChange | scripts/scan_music.py:76-88 | a second rescan of an unchanged listing leaves every row of the catalog as it was and removes no row |
| Radio.JsRem | static/js/radio.js:244-245 | JavaScript's `%` keeps the sign of the dividend: it is the mathematical remainder for a non-negative dividend, lies in (-b, 0] for a negative one, and differs from the dividend by a multiple of the divisor, which pins it to the truncated remainder |
| Radio.FloorDiv | static/js/radio.js:243-244 | `Math.floor(a / b)` lies between the floor bounds of the quotient |
| Radio.Digits | static/js/radio.js:250-252 | `toString()` of a count is a non-empty digit string, one digit long exactly below 10 |
| Radio.PadStart2 | static/js/radio.js:248 | `padStart(2, '0')` gives at least two characters, keeps the original text at the end and fills the front with `0` |
| Radio.Fields | static/js/radio.js:243-245 | the hours, minutes and seconds `formatTime` computes with JavaScript's operators (`FieldsDecompose`) |
| Radio.FormatClock | static/js/radio.js:248-252 | the string assembled from the three fields, with hours only when positive (`FormatClockDigits`) |
| Radio.FormatTime | static/js/radio.js:238-253 | `formatTime`: `0:00` for NaN, otherwise the fields' string (`FormatTimeOfCount`, `FormatTimeRoundTrip`) |
| Radio.FieldsDecompose | static/js/radio.js:243-245 | for a non-negative count, hours*3600 + mins*60 + secs equals the count, with minutes and seconds below 60 and hours present exactly from 3600 on |
| Radio.DigitsRoundTrip | static/js/radio.js:250-252 | the digits of a count read back as that count |
| Radio.SecondsField | static/js/radio.js:245-248 | the seconds field is always two digits and reads back as the seconds |
| Radio.FormatTimeOfCount | static/js/radio.js:238-253 | for a non-negative count, `formatTime` prints `H:M:SS` from one hour on and `M:SS` below, with no sign |
| Radio.FormatClockDigits | static/js/radio.js:248-252 | fields without a sign print as their digits, with hours only when positive |
| Radio.LongClockRoundTrip | static/js/radio.js:249-250 | with hours present, the string has three fields, two seconds digits, and denotes the same number of seconds |
| Radio.ShortClockRoundTrip | static/js/radio.js:252 | without hours, the string has two fields, two seconds digits, and denotes the same number of seconds |
| Radio.CountRoundTrip | static/js/radio.js:243-252 | fields that make up a count print as a string with three fields from one hour on and two below, reading back as the count |
| Radio.FormatTimeRoundTrip | static/js/radio.js:238-253 | `formatTime` of a non-negative count has three fields from 3600 on and two below, a two-digit seconds field, and reads back as the count |
| Radio.FormatTimeHours | static/js/radio.js:249-250 | 3665 renders as `1:1:05`, with unpadded minutes |
| Radio.FormatTimeShort | static/js/radio.js:240-252 | NaN renders as `0:00`, 59 as `0:59` and 600 as `10:00` |
| Radio.FormatTimeNegative | static/js/radio.js:243-252 | -30 renders as `-1:-30`, following JavaScript's signs |
| Imagery.EscapeHtml | static/js/imagery.js:58 | the chain of four global replacements, `&` first (`EscapeHtmlIsPerChar`, `EscapeHtmlRoundTrip`) |
| Imagery.ReplaceAll | static/js/imagery.js:58 | a global replacement of a character that does not occur leaves the text unchanged |
| Imagery.ReplaceAllAppend | static/js/imagery.js:58 | a global replacement distributes over concatenation |
| Imagery.EscapeHtmlAppend | static/js/imagery.js:58 | `escapeHtml` distributes over concatenation |
| Imagery.EscapeHtmlChar | static/js/imagery.js:58 | on one character, the replacement chain gives exactly that character's entity |
| Imagery.EscapeHtmlIsPerChar | static/js/imagery.js:58 | because `&` is replaced first, the chain equals escaping each character once, with no double escaping |
| Imagery.EscapeEachSafe | static/js/imagery.js:58 | per-character escaping leaves no `<`, `>` or `"`, and text without the four special characters passes through unchanged |
| Imagery.EscapeHtmlSafe | static/js/imagery.js:58 | `escapeHtml` output has no `<`, `>` or `"`, and other characters, `'` included, pass through unchanged |
| Imagery.UnescapeChar | static/js/imagery.js:58 | decoding an escaped character followed by any text yields the character followed by the decoded text |
| Imagery.EscapeHtmlRoundTrip | static/js/imagery.js:58 | `escapeHtml` loses nothing: decoding its four entities gives the input back |
| Imagery.EscapeEachRoundTrip | static/js/imagery.js:58 | decoding the per-character escape gives the input back |
| Imagery.VisibleOf | static/js/imagery.js:62-64 | the positions of the items without the `hidden` class, in order (`VisibleOfSound`, `VisibleOfComplete`) |
| Imagery.VisibleOfSound | static/js/imagery.js:62-64 | `getVisibleItems` collects only positions of items without the `hidden` class |
| Imagery.VisibleOfComplete | static/js/imagery.js:62-64 | `getVisibleItems` collects every item without the `hidden` class |
| Imagery.VisibleOfOrdered | static/js/imagery.js:62-64 | the visible items are collected in document order |
| Imagery.IndexOf | static/js/imagery.js:68 | `indexOf` is -1 or a position holding the item |
| Imagery.IndexOfSpec | static/js/imagery.js:68 | `indexOf` finds the first occurrence, and is -1 exactly when the item is absent |
| Imagery.VisibleIndex | static/js/imagery.js:67-68 | a clicked item is found among the visible items exactly when it is not hidden |
| Imagery.Gallery.constructor | static/js/imagery.js:30-55 | the built gallery has no hidden item, the filter `all` and a closed lightbox |
| Imagery.Gallery.ApplyFilter | static/js/imagery.js:115-121 | after `applyFilter(f)` an item is hidden exactly when `f` is not `all` and differs from the item's category; the lightbox state is untouched |
| Imagery.Gallery.ShowAt | static/js/imagery.js:81-89 | `showAt(idx)` shows the idx-th visible item, with the previous arrow visible exactly when idx > 0 and the next arrow exactly when idx < length - 1 |
| Imagery.Gallery.OpenLightbox | static/js/imagery.js:66-73 | opening collects the visible items and the clicked item's index; a hidden item makes `showAt(-1)` throw before the lightbox opens, otherwise the lightbox opens showing that item |
| Imagery.Gallery.CloseLightbox | static/js/imagery.js:75-79 | closing only closes the lightbox: the visible items, index, shown item, arrows and filter stay |
| Imagery.Gallery.Prev | static/js/imagery.js:97-100 | the previous arrow steps back and shows that item when not at the first one, and otherwise changes nothing; the index stays in range |
| Imagery.Gallery.Next | static/js/imagery.js:102-105 | the next arrow steps forward and shows that item when not at the last one, and otherwise changes nothing; the index stays in range |
| Imagery.Gallery.KeyDown | static/js/imagery.js:107-112 | keys are ignored while the lightbox is closed; Escape closes it; any other key leaves it open; the arrow keys step as the arrows do; a key that does not step leaves the index, the shown item and both arrows as they were; the filter never changes and the index stays in range |
| Imagery.NavigationStaysInRange | static/js/imagery.js:97-112 | from a showing lightbox, any sequence of keys keeps the index within the visible items |
| Nav.ShouldActivate | static/js/nav.js:14-19 | the activation rule for one link (`RootOnlyOnRoot`, `PrefixRule`, `MissingHrefSkipped`) |
| Nav.Marked | static/js/nav.js:12-21 | the link after the rule is applied to it (`MarkedOnlyAdds`) |
| Nav.ActivateNav | static/js/nav.js:8-22 | every link ends up as the activation rule marks it: its `href` is kept, and it is active exactly when it already was or the rule matches |
| Nav.RootOnlyOnRoot | static/js/nav.js:16-17 | the `/` link is active exactly on the path `/` |
| Nav.PrefixRule | static/js/nav.js:18-19 | any other non-empty `href` is active exactly when the path starts with it |
| Nav.MissingHrefSkipped | static/js/nav.js:14 | a link with a missing or empty `href` is left unchanged |
| Nav.MarkedOnlyAdds | static/js/nav.js:12-21 | marking never removes the class, never changes the `href`, and marking twice is marking once |
| Nav.SeveralActive | static/js/nav.js:18-19 | on `/radio/live` both `/radio` and `/r` are active while `/` is not, because the prefix rule ignores path segments |

## Left out

- SQLite connection handling (`get_db`, commit and close) and the SQL text: the table lives in memory, and each statement is one method.
- `init_db` on an existing database: the model starts from an empty table (`Catalog.constructor`), and the first scan takes the catalog as it is.
- `last_played` is a number supplied by the caller (`now`), not SQLite's `CURRENT_TIMESTAMP`.
- Row ids and counts are unbounded integers: SQLite's 64-bit limit is not reached.
- SHA-1, mutagen's container parsing, `os.listdir`, `os.path.getsize` and file reading are inputs: the `sha1` and `probe` functions and the listing's bytes. The parser may reject a file's bytes. The duration is the probe's whole number, because `int()` of mutagen's float is not modelled.
- Utils.ExtractMetadata: opening the file, reading it and `os.path.getsize` never fail in the model, because the listing's entries are readable regular files with their bytes.
- `Common.Lower` lower-cases ASCII letters only, while Python's `str.lower()` also folds other letters. The model's paths and extensions are ASCII.
- The scanner's `print` output and the check in the script's main block that the music directory exists.
- `is_supported_format` and `format_duration` in `backend/utils.py` are unimplemented stubs that return None.
- The Flask application and routes, `send_file`, and `static/js/home.js` (three.js rendering) are not part of this model.
- In `static/js/radio.js`, everything but `formatTime`: playback, fetches, DOM updates and the floating-point progress bar.
- Radio.FormatTime: takes NaN or a whole number of seconds; fractional and infinite JavaScript numbers are not modelled.
- In `static/js/imagery.js`, the fetch of the image list, the DOM construction in `buildItem`, the size toggle and the `aria-hidden` and body-overflow updates.
  - The backdrop click handler (lines 93-95) calls `closeLightbox` and adds nothing beyond `Imagery.Gallery.CloseLightbox`.
  - `showAt` writes the shown figure's attributes to the DOM; the model records the figure instead.
- Concurrency: the class-level `recently_played` list is shared by Flask's request threads. The model is single-threaded.
- Models.Catalog.GetRandomTrack: `ORDER BY RANDOM()` is a nondeterministic choice among the eligible rows. The model says nothing about the distribution.
