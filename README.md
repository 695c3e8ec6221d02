# tv_streamer playback bookkeeping, in Dafny

A model of the bookkeeping behind the tv_streamer channel. It covers the catalog of playable
files (`availible_files`), the play queue (`video_queue`), the play history (`play_history`),
the cyclic schedule (`schedule`), the persistent player that moves rows between them, the
database migration runner, and the WebSocket upload sessions.

Tables are in-memory sequences of rows held by classes (`CatalogTable`, `QueueTable`,
`HistoryTable`, `ScheduleTable`, `SchemaTable`). Each class method is proved equal to a pure
function of the old rows, and the properties are proved about those functions.

Things the program reads from its machine are passed in as values:

- A `Host` value holds the working directory, the files on disk with their bytes, the clock, the
  md5 hex digest and ffprobe's answer for each path.
- The player's subprocess, channels and timers become outcome parameters:
  - what the operating system did at start;
  - which event `playVideo` saw first (the feeder was busy, a skip arrived, or the feed ended);
  - how many 32 KiB reads fit before the five-minute deadline;
  - which write fails, if any.
- The migration runner receives the walked `sql_files` entries with their texts, and the outcome
  of executing each version's SQL.
- The upload handlers receive:
  - the base64-decoded chunk, or its failure;
  - the sha256 digest;
  - whether each file-system step succeeded;
  - the decoded ffprobe JSON.

| file | module | models |
|---|---|---|
| wrappers.dfy | Wrappers | Option, Result, Outcome |
| bytes.dfy | Bytes | bytes and lower-case hex (`%x`, `hex.EncodeToString`) |
| file_paths.dfy | FilePaths | Go's `filepath.Abs`/`Clean`/`Ext`/`Base` for Unix paths, `strings.Split`/`Join`/`HasSuffix`/`TrimSuffix`/`TrimPrefix`/`Contains`/`ToLower` |
| host.dfy | Host | the machine: disk, clock, md5, ffprobe |
| ordering.dfy | Ordering | SQL `ORDER BY` as a sort |
| records.dfy | Clock, ScheduleRecord, VideoQueueRecord, PlayHistoryRecord | modules/streamer/models/*.go |
| catalog.dfy | Catalog | modules/streamer/available_files.go |
| queue.dfy | Queue | modules/streamer/queue.go |
| schedule.dfy | Scheduler | modules/streamer/schedule.go |
| player.dfy | Player | modules/streamer/player.go |
| migrations.dfy | Migrations | migrations/migrations.go |
| upload.dfy | Upload | modules/web/ws_upload_handler.go |

## Model

| member | source | states |
|---|---|---|
| ScheduleRecord.Schedule.MarkAsCurrent | modules/streamer/models/schedule.go:21-23 | is_current becomes 1 and every other column is unchanged |
| ScheduleRecord.Schedule.UnmarkAsCurrent | modules/streamer/models/schedule.go:26-28 | is_current becomes 0 and every other column is unchanged |
| ScheduleRecord.Schedule.GetAddedTime | modules/streamer/models/schedule.go:31-33 | the instant has added_at Unix seconds and no nanoseconds |
| ScheduleRecord.MarkIdempotent | modules/streamer/models/schedule.go:21-28 | marking twice equals marking once, likewise for unmarking, and unmarking undoes marking of an unmarked row |
| VideoQueueRecord.VideoQueue.MarkAsPlayed | modules/streamer/models/video_queue.go:24-32 | IsPlayed holds afterwards, played_at is now, and id, file, position and is_ad are unchanged |
| PlayHistoryRecord.PlayHistory.MarkAsFinished | modules/streamer/models/play_history.go:24-27 | finished_at is now and duration is finished_at − started_at; skip_requested, id, file, started_at and is_ad are unchanged |
| PlayHistoryRecord.PlayHistory.MarkAsSkipped | modules/streamer/models/play_history.go:30-33 | skip_requested is 1 and the record is finished as by MarkAsFinished |
| PlayHistoryRecord.DurationNonNegative | modules/streamer/models/play_history.go:24-33 | finishing or skipping no earlier than the start gives a non-negative duration |
| Bytes.HexEncode | modules/web/ws_upload_handler.go:300-304 | `%x` of a digest: twice as many characters, all lower-case hex, byte i spelled at 2i..2i+2 |
| Bytes.HexByteRoundTrip | modules/web/ws_upload_handler.go:472-476 | the two hex digits of a byte decode back to that byte |
| FilePaths.CleanAbsIsClean | modules/streamer/available_files.go:102-113 | Clean gives "/" or "/" followed by elements that are non-empty, not "." or ".." and slash-free |
| FilePaths.CleanAbsIdempotent | modules/streamer/available_files.go:102-113 | cleaning a cleaned path changes nothing |
| FilePaths.SplitJoin | migrations/migrations.go:200-201 | splitting a join of separator-free parts gives the parts back |
| FilePaths.JoinSplit | migrations/migrations.go:200-201 | joining the pieces of a split gives the string back |
| FilePaths.AfterFirstSeparator | migrations/migrations.go:200-201 | the pieces after the first, joined again, are exactly the text after the first separator |
| FilePaths.Ext | modules/streamer/queue.go:212 | Ext is empty or a suffix of the path that starts with '.' and has no other '.' or '/' |
| FilePaths.ExtEmptyIff | modules/streamer/queue.go:212 | Ext is empty exactly when the last path element has no '.' |
| Ordering.SortBy | modules/streamer/queue.go:122 | the result is sorted by the key and is a permutation of the rows |
| Host.Host.ProbeData | modules/streamer/available_files.go:160-165 | a failed probe gives "{}", otherwise ffprobe's text |
| Host.Host.ProbeLength | modules/streamer/available_files.go:167-168 | a failed probe gives duration 0, otherwise the parsed duration |
| Catalog.NormalizeFilePath | modules/streamer/available_files.go:102-113 | the result is absolute and clean, and an absolute input is simply cleaned |
| Catalog.NormalizeIdempotent | modules/streamer/available_files.go:102-113 | normalising a normalised path returns it, under any working directory |
| Catalog.NormalizeRelative | modules/streamer/available_files.go:126-137 | a relative path and the same path under the working directory get the same id |
| Catalog.NewRow | modules/streamer/available_files.go:160-178 | the new row has the md5 id and path, the size on disk, the current time, "{}" and length 0 when probing fails, is_active 0 |
| Catalog.AddFile | modules/streamer/available_files.go:118-192 | a catalogued id returns that id with no insert; a missing file fails with no insert; otherwise exactly NewRow is appended; the id is then catalogued, and ids stay unique |
| Catalog.AddFileIdempotent | modules/streamer/available_files.go:142-151 | adding the same file again under any spelling that normalises alike returns the same id and inserts nothing |
| Catalog.SetDescription | modules/streamer/available_files.go:69-98 | fails with "file not found" exactly when no row has the id; only the description of matching rows changes |
| Catalog.SetProbeData | modules/streamer/available_files.go:41-66 | only ffprobe_data and video_length of matching rows change; an unknown id changes nothing and is no error |
| Catalog.UpdatesKeepIds | modules/streamer/available_files.go:41-98 | both column updates keep ids unique and keep the set of catalogued ids |
| Catalog.Listing | modules/streamer/available_files.go:17-38 | every row, as a permutation, newest added_time first |
| Catalog.CatalogTable.AddToAvailableFiles | modules/streamer/available_files.go:118-192 | the reply and the new table are those of AddFile, and the table stays keyed |
| Catalog.CatalogTable.Insert | modules/web/ws_upload_handler.go:383-398 | a row with a new key is appended and the table stays keyed |
| Catalog.CatalogTable.UpdateFileDescription | modules/streamer/available_files.go:69-98 | the reply and new table are those of SetDescription |
| Catalog.CatalogTable.UpdateFFProbeData | modules/streamer/available_files.go:41-66 | the new table is that of SetProbeData |
| Catalog.CatalogTable.GetAvailableFiles | modules/streamer/available_files.go:17-38 | returns Listing of the table |
| Queue.MaxPosition | modules/streamer/queue.go:72 | COALESCE(MAX(position), 0): at least every position, attained by a row, 0 on an empty table |
| Queue.NewItem | modules/streamer/queue.go:80-93 | a new queue row is unplayed |
| Queue.CataloguedPath | modules/streamer/queue.go:26-66 | fails "does not exist" exactly when the normalised path is not on disk, fails "not catalogued" exactly when it exists without a catalogued md5 id, else yields the normalised path |
| Queue.Appended | modules/streamer/queue.go:71-93 | the old rows are kept and one unplayed row is added at max+1 (1 on an empty table), above every existing position; well-formedness is kept |
| Queue.ShiftUnplayed | modules/streamer/queue.go:304-308 | every unplayed row moves up one position and played rows are untouched |
| Queue.Injected | modules/streamer/queue.go:304-321 | the shifted rows, then an unplayed ad row at position 0; well-formedness is kept |
| Queue.InjectedAdPlaysNext | modules/streamer/queue.go:313-321 | after InjectAd the next row getNextVideo takes is the ad |
| Queue.NextUnplayed | modules/streamer/player.go:466-493 | None exactly when no row is unplayed; otherwise an unplayed row of the table that is least in (position, id) order among the unplayed rows |
| Queue.NumUnplayed | modules/streamer/queue.go:338-346 | at most the length, and 0 exactly when every row is played |
| Queue.WithoutPlayed | modules/streamer/queue.go:174-182 | the remaining rows are exactly the rows with played ≠ 1; the count drops by the played count; the unplayed count is unchanged |
| Queue.ClearPlayedTwice | modules/streamer/queue.go:174-182 | clearing a cleared queue changes nothing |
| Queue.WithoutPlayedWellFormed | modules/streamer/queue.go:174-182 | clearing keeps the queue well formed (ids ascending) |
| Queue.WithPlayed | modules/streamer/player.go:451-452 | only played and played_at of the row with the id are written back |
| Queue.MarkPlayedShrinks | modules/streamer/player.go:450-456 | marking an unplayed row played lowers the unplayed count by one; marking a played or absent row changes no count |
| Queue.CountUnplayed | modules/streamer/queue.go:338-346 | the counting loop returns NumUnplayed |
| Queue.Listing | modules/streamer/queue.go:112-137 | every row, as a permutation, in (queue_position, id) ascending order |
| Queue.EffectiveExtensions | modules/streamer/queue.go:186-200 | an empty extension list means .ts, .mp4, .mkv, .avi, .mov |
| Queue.ScanAndAddVideos | modules/streamer/queue.go:186-253 | the count is the number of entries that are files with an extension exactly in the list and whose normalised path exists (Queued); the queue grows by that count |
| Queue.QueuedBounds | modules/streamer/queue.go:200-238 | Queued, the scan's count, is 0 exactly when no entry is a file with a listed extension whose normalised path exists, and is the number of entries exactly when every entry is |
| Queue.ScanEntry | modules/streamer/queue.go:200-238 | one walk callback queues the entry exactly when it is such a candidate |
| Queue.Finished | modules/streamer/player.go:674-675 | only finished_at and duration, plus skip_requested when asked, of the row with the id change |
| Queue.Recent | modules/streamer/queue.go:140-163 | at most limit rows, all drawn from the history without repetition (a sub-multiset of it), latest started first |
| Queue.RecentIsTop | modules/streamer/queue.go:140-163 | no row left out started later than a listed row |
| Queue.HistoryTable.Insert | modules/streamer/player.go:631-644 | the row is appended under the next autoincrement id |
| Queue.HistoryTable.UpdateFinished | modules/streamer/player.go:711-716 | the new history is Finished of the old one |
| Queue.HistoryTable.GetPlayHistory | modules/streamer/queue.go:140-163 | returns Recent of the history |
| Queue.QueueTable.Append | modules/streamer/player.go:590-606 | the new rows are Appended of the old and the id counter advances |
| Queue.QueueTable.AddToQueue | modules/streamer/queue.go:17-109 | a path that is missing or not catalogued fails with the queue unchanged; otherwise the row is appended at max+1 with is_ad from the flag |
| Queue.QueueTable.InjectAd | modules/streamer/queue.go:256-335 | a path that is missing or not catalogued fails before anything shifts; otherwise the queue becomes Injected |
| Queue.QueueTable.ClearPlayedFromQueue | modules/streamer/queue.go:166-183 | the queue becomes WithoutPlayed and the returned count is the number of played rows |
| Queue.QueueTable.UpdatePlayed | modules/streamer/player.go:680-681 | the queue becomes WithPlayed of the old one |
| Queue.QueueTable.GetQueue | modules/streamer/queue.go:112-137 | returns Listing of the queue |
| Scheduler.FirstLeast | modules/streamer/schedule.go:157-160 | finds a row above the floor exactly when one exists; it has the least position above the floor and is the first such in table order |
| Scheduler.CurrentIndex | modules/streamer/schedule.go:149 | None exactly when no row has is_current = 1, else the index of such a row |
| Scheduler.PickNext | modules/streamer/schedule.go:139-260 | picks a row exactly when the schedule is non-empty |
| Scheduler.UnmarkCurrent | modules/streamer/schedule.go:168-170 | current rows are unmarked and others untouched |
| Scheduler.Advance | modules/streamer/schedule.go:139-260 | none exactly on an empty schedule; otherwise the returned row is a marked table row and is the only current row afterwards; no column but is_current changes |
| Scheduler.AdvanceFromStart | modules/streamer/schedule.go:230-259 | with no current row the cursor goes to the lowest position |
| Scheduler.AdvanceFromCurrent | modules/streamer/schedule.go:155-227 | from the current row the cursor goes to the least position above it, or wraps to the lowest when none is above |
| Scheduler.AdvanceWellFormed | modules/streamer/schedule.go:168-176 | advancing keeps at most one current row, distinct positions and ascending ids |
| Scheduler.CursorAt | modules/streamer/schedule.go:168-176 | the row an advance returns is current in the new table |
| Scheduler.CycleOfThree | modules/streamer/schedule.go:139-260 | positions 0, 1, 2 with no current row give 0, 1, 2, 0 over four calls |
| Scheduler.Reset | modules/streamer/schedule.go:295-298 | every is_current becomes 0 and no other column changes |
| Scheduler.ResetRestarts | modules/streamer/schedule.go:287-307 | after a reset the next advance returns the lowest position |
| Scheduler.MaxPositionOrMinusOne | modules/streamer/schedule.go:105 | COALESCE(MAX(position), −1): at least every position, attained, −1 on an empty table |
| Scheduler.Appended | modules/streamer/schedule.go:104-121 | the old rows are kept and a non-current row is added at max+1 (0 on an empty schedule), above every position |
| Scheduler.WithoutFile | modules/streamer/schedule.go:319-328 | the remaining rows are exactly those of other files, unchanged (no re-packing); nothing is removed exactly when the file is not scheduled |
| Scheduler.WithoutFileOrdered | modules/streamer/schedule.go:319 | removal keeps the remaining rows in ascending id order |
| Scheduler.WithoutFileWellFormed | modules/streamer/schedule.go:319-328 | removal keeps the schedule well formed |
| Scheduler.ScheduleTable.InsertRow | modules/streamer/schedule.go:115-126 | a non-current row above every position is appended under the next id |
| Scheduler.ScheduleTable.AddToSchedule | modules/streamer/schedule.go:16-136 | a path not on disk fails with neither table changed; otherwise an uncatalogued file is catalogued first, and the file is appended at max+1 unless already scheduled |
| Scheduler.ScheduleTable.GetNextFromSchedule | modules/streamer/schedule.go:139-260 | the result and new table are Advance of the old table, which stays well formed |
| Scheduler.ScheduleTable.GetSchedule | modules/streamer/schedule.go:263-284 | every row, as a permutation, in ascending position |
| Scheduler.ScheduleTable.ResetSchedulePosition | modules/streamer/schedule.go:287-307 | the table becomes Reset of the old one |
| Scheduler.ScheduleTable.RemoveFromSchedule | modules/streamer/schedule.go:310-332 | the table becomes WithoutFile; it fails "not found in schedule" exactly when the file was not scheduled |
| Scheduler.ScheduleTable.ClearSchedule | modules/streamer/schedule.go:335-351 | the table is emptied and the count of deleted rows returned |
| Player.ChunkCountBound | modules/streamer/player.go:280-318 | k chunks of 32 KiB cover the file exactly when k is at least ChunkCount |
| Player.FeedOutcome | modules/streamer/player.go:276-331 | the feed succeeds exactly when the deadline allows all data reads plus the end-of-file read and no data write fails; it fails on a write exactly when the failing write comes before both |
| Player.FeedResult | modules/streamer/player.go:243-342 | success needs the file on disk and FFmpeg ready; a missing file fails first |
| Player.StartedRecord | modules/streamer/player.go:631-638 | the history row has the video's file and is_ad, started_at = now and skip_requested 0 |
| Player.Populated | modules/streamer/player.go:525-548 | one non-current row per listed file on disk, at the file's index in the listing, ids consecutive, positions ascending |
| Player.PopulatedCovers | modules/streamer/player.go:525-554 | every listed file on disk gets a row at its index, so population is empty exactly when no listed file exists |
| Player.MarkFirstTime | modules/streamer/player.go:680-681 | marking an unplayed row played leaves it played and one fewer row unplayed |
| Player.MarkAgain | modules/streamer/player.go:450-452 | marking it a second time, as the loop does after a skip, changes no count |
| Player.SkippedFeed | modules/streamer/player.go:208-231 | when a skip is taken the feeder has written a prefix of the file of at most the bytes fed so far (all of it once that many were fed), and nothing when the file is missing or FFmpeg is not ready |
| Player.PlayResult | modules/streamer/player.go:660-737 | playVideo succeeds exactly when the feed finishes first and succeeds; a busy feeder times out, a skip reports "skipped" and a failed feed reports the feed error |
| Player.PlayedQueueMarks | modules/streamer/player.go:434-456 | whichever way a play of an unplayed row ends (success, skip, timeout, failed feed), the row ends played and one fewer row is unplayed |
| Player.PlayedHistoryFinalised | modules/streamer/player.go:442-456 | whichever way a play ends, the history row it inserted gets its finish time |
| Player.RefillGivesNext | modules/streamer/player.go:421-429 | a successful auto-fill leaves an unplayed row, so the loop's next pass plays it |
| Player.PersistentPlayer.Start | modules/streamer/player.go:89-122 | fails "already running" when running; otherwise running is set before anything can fail, success exactly when FFmpeg spawns, FFmpeg counted running once the pipes exist |
| Player.PersistentPlayer.OnFFmpegExit | modules/streamer/player.go:195-200 | FFmpeg is no longer running and nothing else changes |
| Player.PersistentPlayer.Stop | modules/streamer/player.go:767-812 | fails "not running" when stopped; otherwise clears running and closes the stop channel, which a second stop closes twice |
| Player.PersistentPlayer.Skip | modules/streamer/player.go:741-764 | fails "no video currently playing" with nothing playing; otherwise succeeds exactly when the signal is taken |
| Player.PersistentPlayer.GetStatus | modules/streamer/player.go:815-838 | reports running flags, the current video when one is playing, and the elapsed seconds since its history row started |
| Player.PersistentPlayer.FeedVideoToFFmpeg | modules/streamer/player.go:243-342 | the result is FeedResult; on success the sink received exactly the file's bytes in order, otherwise a prefix of them |
| Player.PersistentPlayer.GetNextVideo | modules/streamer/player.go:466-493 | returns NextUnplayed of the queue |
| Player.PersistentPlayer.PlayVideo | modules/streamer/player.go:619-738 | inserts the started history row, broadcasts it and sets the current video; the result is PlayResult; skip and success finalise the history row, mark the queue row played and clear the current video and history; a busy feeder or failed feed leaves the queue alone and both current fields set; the sink receives the file on success, a prefix of it on a failed feed, SkippedFeed on a skip and nothing when the feeder is busy |
| Player.PersistentPlayer.AutoFillQueueFromLibrary | modules/streamer/player.go:496-616 | Refilled: an empty schedule is populated from the catalog (NoVideosAvailable on an empty catalog, PopulateFailed when no file exists, both changing nothing); the schedule then advances and the row it lands on, if its file is on disk, is appended to the queue as a non-ad, else ScheduledFileMissing with the queue unchanged |
| Player.PersistentPlayer.PopulateSchedule | modules/streamer/player.go:525-548 | the populating loop builds Populated and returns its length |
| Player.PersistentPlayer.RecoverFromFailure | modules/streamer/player.go:442-456 | a current history row is marked skipped and written back and stays current in its skipped form; the queue row is marked played and a current file stays current in its played form; the running flags, broadcasts and sink do not change |
| Player.PersistentPlayer.PlayNext | modules/streamer/player.go:434-456 | the result is PlayResult; the queue becomes PlayedQueue, the history PlayedHistory and the current fields PlayedCurrentFile/PlayedCurrentHistory; one now-playing event is broadcast and the sink grows as FedToSink; whatever the result, the row ends played, the unplayed count drops by one and the new history row is finalised |
| Player.PersistentPlayer.LoopIteration | modules/streamer/player.go:406-463 | exits on stop changing nothing; with no unplayed row it auto-fills, the schedule and queue becoming Refilled and nothing else changing; otherwise it plays NextUnplayed with all of PlayNext's effects and the schedule unchanged, that row ending played with one fewer unplayed row and its history finalised |
| Migrations.ParseUint32 | migrations/migrations.go:177-180 | a parsed version is a non-empty string of digits whose value fits in 32 bits |
| Migrations.Decimal | migrations/migrations.go:177 | the decimal spelling is non-empty digits |
| Migrations.DecimalValue | migrations/migrations.go:177 | the digits of n have value n |
| Migrations.ParseDecimal | migrations/migrations.go:177-180 | every 32-bit version written in decimal parses back to itself |
| Migrations.LeadingZero | migrations/migrations.go:177 | a leading zero does not change the parsed version |
| Migrations.BeforeFirst | migrations/migrations.go:172 | the separator-free prefix that ends at the first separator or at the end |
| Migrations.SplitHead | migrations/migrations.go:172-175 | Split's first piece is BeforeFirst, and there are two pieces exactly when a separator occurs |
| Migrations.ParseFilenameAccepts | migrations/migrations.go:171-208 | ParseFilename: a name is accepted exactly when it has '_', a 32-bit decimal before the first '_' and an .up.sql/.down.sql suffix; the name is the rest without the suffix |
| Migrations.CollectedStops | migrations/migrations.go:161-221 | once a prefix of the walk fails, the whole walk fails with that error |
| Migrations.CollectedFailsAtFirstBadFile | migrations/migrations.go:161-221 | the walk fails exactly when a .sql file's name does not parse, with the first such file's error |
| Migrations.CollectedKeyed | migrations/migrations.go:197-208 | every loaded migration is stored under its own version |
| Migrations.CollectedKeys | migrations/migrations.go:161-217 | Collected, the walk's map: the loaded versions are exactly those of the accepted .sql files |
| Migrations.Merge | migrations/migrations.go:196-214 | one accepted file adds its version to the map and changes no other entry; a new version takes the file's version and name, an existing one keeps them; an .up.sql file sets the up text and keeps the down text, a .down.sql file the converse |
| Migrations.UpDownMerge | migrations/migrations.go:196-214 | an up and a down file of one version, in either order, merge into one migration holding both texts, named by the first |
| Migrations.SortedFromUnique | migrations/migrations.go:223-235 | the sorted list is determined by the map, whatever order the map is visited in |
| Migrations.SameVersionsSame | migrations/migrations.go:232-235 | two ascending lists with the same versions and the same migration per version are equal |
| Migrations.ExtractStep | migrations/migrations.go:225-230 | taking the least remaining version keeps the conversion invariant |
| Migrations.ExtractMissing | migrations/migrations.go:226-228 | meeting a version without up text reports the least such version |
| Migrations.ExtractDone | migrations/migrations.go:223-237 | when all versions are taken the list is the sorted conversion |
| Migrations.SortedByVersion | migrations/migrations.go:223-237 | fails exactly when a version lacks an up file, naming the least such; otherwise one migration per version in strictly ascending order |
| Migrations.LoadMigrations | migrations/migrations.go:158-238 | a walk error is returned as is; otherwise the result is the sorted conversion of the collected map |
| Migrations.CurrentVersion | migrations/migrations.go:63 | at least every clean version, and either 0 or a clean version |
| Migrations.MarkDirty | migrations/migrations.go:110 | afterwards the table holds the version |
| Migrations.WithDirtyClean | migrations/migrations.go:110 | marking dirty removes the version from the clean set |
| Migrations.WithCleanClean | migrations/migrations.go:134 | marking a present version clean adds it to the clean set |
| Migrations.MarkDirtyClean | migrations/migrations.go:110 | the upsert removes exactly the version from the clean set |
| Migrations.CurrentOfClean | migrations/migrations.go:63 | the current version depends only on the clean versions |
| Migrations.CommitRaises | migrations/migrations.go:109-143 | a committed migration adds exactly its version to the clean set, so the current version becomes the larger of the old one and it |
| Migrations.AppliedCurrent | migrations/migrations.go:94-151 | applying ascending migrations newer than the current version leaves the last one current |
| Migrations.Pending | migrations/migrations.go:79-84 | the pending list holds exactly the loaded migrations newer than the current version |
| Migrations.PendingIncreasing | migrations/migrations.go:79-84 | filtering keeps ascending order |
| Migrations.SameElementsSame | migrations/migrations.go:79-84 | two ascending lists with the same elements are equal |
| Migrations.RerunNothingPending | migrations/migrations.go:86-89 | after a full run nothing is pending, so running again changes nothing |
| Migrations.PendingSuffix | migrations/migrations.go:79-84 | filtering by a pending version leaves exactly the pending migrations after it |
| Migrations.RetryResumes | migrations/migrations.go:127-130 | after a run that stopped at a failing migration, the pending list is that migration and the ones after it |
| Migrations.AppliedPrefix | migrations/migrations.go:94-151 | applying the first k pending migrations leaves the rest pending |
| Migrations.DuplicateColumnTolerated | migrations/migrations.go:118-126 | an error message containing "duplicate column name" anywhere does not stop the run |
| Migrations.FirstFailure | migrations/migrations.go:116-130 | the index of the first migration whose execution fails, or the length |
| Migrations.FirstFailureAt | migrations/migrations.go:116-130 | up to the first failure, a migration fails exactly at the first-failure index |
| Migrations.AppliedStep | migrations/migrations.go:94-151 | applying one more migration commits it on top of the earlier ones |
| Migrations.FilterPending | migrations/migrations.go:79-84 | the filter loop returns Pending |
| Migrations.Apply | migrations/migrations.go:103-143 | succeeds exactly when execution does not fail; then the table is the committed one, otherwise it is rolled back unchanged |
| Migrations.ApplyPending | migrations/migrations.go:93-151 | the migrations before the first failure are committed in order; the first failure is reported |
| Migrations.Run | migrations/migrations.go:28-155 | a load error or a missing up file fails with no change; otherwise the loaded map has an ascending listing, and the pending migrations newer than the current version are applied in ascending order until the first failure, for any order of the loaded map |
| Upload.NormalizedExt | modules/web/ws_upload_handler.go:89 | the compared extension has no '.' or '/' |
| Upload.NormalizedExtOf | modules/web/ws_upload_handler.go:89-105 | the format checked is the lower-cased text after the last dot |
| Upload.SessionIdOf | modules/web/ws_upload_handler.go:300-304 | a session id is 32 lower-case hex characters |
| Upload.FileIdOf | modules/web/ws_upload_handler.go:472-476 | a file id is 16 lower-case hex characters spelling the digest's first 8 bytes |
| Upload.InitOpens | modules/web/ws_upload_handler.go:66-156 | Init opens a session exactly when size ≤ limit, the format is allowed and both file-system steps succeed; the session has received nothing, has the declared total and a 32-hex id; a refused init changes nothing |
| Upload.SizeLimitInclusive | modules/web/ws_upload_handler.go:77-86 | a size equal to the limit passes the size check and one byte more fails it |
| Upload.ChunkEffect | modules/web/ws_upload_handler.go:159-220 | Chunk: an unknown session or undecodable chunk changes nothing; a failed write removes the session; a written chunk is appended and its length added to ReceivedSize; other sessions are untouched |
| Upload.ChunksAccumulate | modules/web/ws_upload_handler.go:192-205 | after a series of written chunks the session's bytes are the chunks in order and ReceivedSize is their total length |
| Upload.FirstVideoIndex | modules/web/ws_upload_handler.go:444-451 | the first stream whose codec type is "video", or the count when none is |
| Upload.FindVideoStream | modules/web/ws_upload_handler.go:444-451 | the stream loop stops at FirstVideoIndex |
| Upload.FirstVideoIndexUnique | modules/web/ws_upload_handler.go:444-451 | an index with only non-video streams before it and a video stream at it is FirstVideoIndex |
| Upload.MetadataFromFirstVideo | modules/web/ws_upload_handler.go:406-469 | GetVideoMetadata: metadata is found exactly when the first video stream has non-zero width and height; the dimensions are that stream's |
| Upload.Validate | modules/web/ws_upload_handler.go:331-403 | the upload is stored exactly when the probe yields metadata of the required dimensions, the directory is made, the move succeeds and the file id is new; a metadata error passes through and a dimension mismatch reports the found dimensions; the row is inactive, keyed by the 16-hex file id, at the final path, with the declared size, the probe's duration and output and the current time |
| Upload.CompleteEffect | modules/web/ws_upload_handler.go:223-296 | Complete always removes the session; success needs every declared byte received and a video of the required dimensions, and appends an inactive row with a 16-hex id whose size is the bytes written; failures leave the catalog alone; ids stay unique |
| Upload.UploadSessions.HandleUploadInit | modules/web/ws_upload_handler.go:66-156 | the reply and sessions are those of Init, and sessions stay consistent |
| Upload.UploadSessions.HandleUploadChunk | modules/web/ws_upload_handler.go:159-220 | the reply and sessions are those of Chunk, and sessions stay consistent |
| Upload.UploadSessions.HandleUploadComplete | modules/web/ws_upload_handler.go:223-296 | the reply, sessions and catalog are those of Complete, and both stay consistent |
| Upload.UploadSessions.CleanupUploadSession | modules/web/ws_upload_handler.go:310-318 | the session is removed and the others kept |

## Left out

- Database errors: every query and write is modelled as succeeding. Where the source only logs a failed write, that is the same behaviour. Where it returns an error, that error path is not modelled.
- The FFmpeg subprocess is not modelled: spawning, output scanning, waiting and killing it in Stop, and the HLS files it writes.
- Channels, goroutines, `select`, sleeps and the feeder goroutine are not modelled. Which event comes first is an input (`FeedRace`), and the five-minute deadline is a read budget.
- The sink is the bytes handed to the 256 KiB buffered writer on FFmpeg's stdin (modules/streamer/player.go:273). The periodic 1 MiB flush is not modelled, and when the deadline fails a feed the buffered tail that was never flushed is not dropped from the sink.
- md5 and sha256 are not computed: md5 is a function in `Host`, and sha256 digests are inputs.
- ffprobe is not run: its output, its JSON decoding and the float parsing of the duration are inputs (modules/streamer/ffprobe.go is not part of this model).
- The file system is a map from path to bytes. `os.Stat`, the cwd dependence of `filepath.Abs`, `filepath.Walk`, MkdirAll, Create, moveFile and Remove become values or booleans passed in.
- Unicode: `strings.ToLower` is modelled on ASCII letters only.
- Migrations: creating the schema_migrations table and adding its executed_at column are not modelled. Walk and file-read errors and transaction begin/commit errors are not modelled either.
- Migrations.SortedByVersion: Go reports whichever version without an up file its random map iteration meets first; the model always reports the least such version.
- Migrations.ParseUint32: accepts the digits-only form of strconv.ParseUint base 10. The error text of a rejected version is not modelled.
- Upload: base64 decoding, JSON replies to the client and the unsynchronised concurrent use of the session map are not modelled; the map is single-threaded.
- Upload.FinalPath / Upload.JoinPath: for a relative video directory the path is joined without `filepath.Clean`; only absolute directories are cleaned. For an empty directory the model gives "/name" where filepath.Join gives "name". This also affects the temporary upload path built by Init.
- Upload.MaxSizeBytes: Go's int64 overflow of the limit for absurdly large settings is not modelled.
- The schedule reorder and remove-by-id operations called from the HTTP handlers are not defined in any file of the repository, so they are not modelled.
- HTTP and WebSocket request handling, the broadcaster (modelled as an appended list of now-playing events), configuration, logging and startup are not modelled.
- Player.PersistentPlayer.PlayVideo: a skip does not stop the feeder; the rest of the skipped file still reaches FFmpeg after playVideo returns, ahead of the next video. The model records only the `fed` bytes written by the time the skip is taken.
- Player.PersistentPlayer.FeedVideoToFFmpeg / PlayVideo: in the source the five-minute deadline is checked only before each read (modules/streamer/player.go:287-293). A `bufWriter.Write` that blocks because FFmpeg stopped reading (player.go:312) is never interrupted, and the feed waits on its result with no timeout (player.go:331). Such a feed never returns, and playVideo then waits with no limit until a skip arrives (player.go:669-692). `FeedRace` has no case for this, so every modelled play ends. PlayedQueueMarks, PlayNext and LoopIteration therefore cover only plays that end. A play stalled on a blocked write is not modelled.
- Player.PersistentPlayer.Stop: a second Stop closes the stop channel twice, which panics in Go; the model reports StopChannelClosedTwice and carries on.
- The records follow how the player and queue code use the rows, not the struct declarations, where the two disagree:
  - VideoQueueRecord.VideoQueue has a `filePath` column. models/video_queue.go:8-16 declares no FilePath, but the code sets one (player.go:595, queue.go:84 and :316), and the feeder reads it to find the file (player.go:228).
  - PlayHistoryRecord.PlayHistory follows models/play_history.go:8-16 and has no filename or file path. player.go:633-634 sets Filename and FilePath on the history row, and those two fields are not modelled.
  - ScheduleRecord.Schedule matches models/schedule.go:6-13.
- Player.AutoFillQueueFromLibrary: schedule positions are catalog indices, so files missing from disk leave gaps. The source does this; a contiguous numbering would differ.
- Scheduler.WithoutFile: removal does not re-pack positions, as in the source.
- Scheduler.FirstLeast: where several rows share the least position the database may return any of them; the model takes the first in table order. Every operation keeps positions distinct, so this never decides anything for a well-formed table.
