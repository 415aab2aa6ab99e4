# CreatureBox web backend: a Dafny model

CreatureBox is a Raspberry Pi camera trap with a Flask web backend. This
project models the core of that backend in Dafny and proves properties of the
model:

- **Job queue** (`jobs.dfy`, module `Jobs`):
  - the `JobQueue` object and its job records;
  - the status enum and the `to_dict` report;
  - cancelling, the cleanup of old jobs and one worker iteration;
  - the `background_task` decorator.
- **Cache** (`cache.dfy`, module `Cache`):
  - the in-memory TTL cache, with lazy eviction and the expiry sweep;
  - the choice of backend;
  - the `cached` decorator and the cache-key builder.
- **Photo storage manager** (`storage.dfy`, module `Storage`):
  - photo and date-directory recognition, disk and directory statistics;
  - the external-drive scan;
  - the incremental backup, the backup to an external drive, and the cleanup
    that deletes old date directories when free space runs low.
- **Rate limiter** (`rate_limiter.dfy`, module `RateLimit`): the sliding-window
  check run before each request.
- **Authentication** (`auth.dfy`, module `Auth`):
  - Basic authentication and API-key authentication;
  - the precedence rule of `auth_required`.
- **Error codes** (`error_handlers.dfy`, module `ErrorHandlers`): the HTTP
  status table, the error payload and the four handlers.
- **System helpers** (`system.dfy`, module `SystemUtils`):
  - Pi model detection;
  - the `key=value` control file, read and rewritten;
  - the camera mode.
- **File helpers** (`files.dfy`, module `FileUtils`):
  - the settings CSV file, read and rewritten;
  - the gallery's date list and photo list;
  - photo deletion and the log-file mapping.

Shared helpers:

- `wrappers.dfy`: `Option`, `Result`.
- `strings.dfy`: Python's `split`, `join`, `strip`, `lower` (ASCII letters
  only), `int()`, the order `<` on `str` and `sorted`.
- `assoc.dfy`: dictionaries built from pairs, a later pair winning.

## How the model is built

- **Objects that change in place are classes.** A method's `modifies` clause
  names what it may change, and its `ensures` clause gives the new state as a
  function of the old one. These classes are:
  - `JobQueue` and `InMemoryCache`;
  - `RateLimiter`;
  - the backup tree and the photo volume of the storage manager;
  - the photo tree `delete_photo` works on.
- **Loops in the source are loops here**, with three exceptions. Each loop
  becomes a `while` loop with invariants, proved against a specification
  function, and the properties are then proved about those functions as
  lemmas. The exceptions are written as recursive functions with no loop:
  - the three nested `for` loops of `_get_external_storage_stats` are
    `Storage.FirstMount`, `Storage.ScanUsers` and `Storage.ScanBase`;
  - the `for` loops of `_generate_cache_key` are `Cache.KwParts` and
    `Cache.KeyParts`;
  - the comprehension in `get_jobs` is `Jobs.JobQueue.SelectBelow`.
- **Inputs from outside the program become parameters.** These are:
  - clock readings;
  - the contents of files and directory walks;
  - results of `statvfs`;
  - outcomes of calls that can raise (a copy, a removal, a Redis self-test,
    the job's function).

  Each failure that changes what the source does is its own input: a set of
  failing keys, or an `Option`/`Result`.
- **A directory walk is a sequence of files in walk order.** Each file carries
  the base name of its directory, its modification time and its size.
- **Job ids are natural numbers.** They come from a counter, where the source
  draws random UUIDs.
- **`_is_date_dir` follows the code, not a test that disagrees with it.** The
  code rejects `2025-02-29`, because 2025 is not a leap year
  (`Storage.LeapDayOfCommonYearIsNotDateDir`). `src/web/tests/test_storage.py:78`
  expects `2025-02-29` to be accepted.
- **`get_photos` reads the time from the name's fourth to sixth `_`-parts.**
  For a name in the format its own comment documents
  (`device_YYYY_MM_DD__HH_MM_SS_...`) this yields `DD::HH`
  (`FileUtils.DocumentedNameShowsDayAndHour`).
  - This is modelled as written and not claimed as a finding.
  - No file in the repository fixes the real camera file-name format.

## Model

| member | source | states |
|---|---|---|
| ErrorHandlers.HttpStatus | src/web/error_handlers.py:29-48 | the status is the table's entry and 500 for an unknown code; 404 exactly for the three not-found codes; below 500 exactly for the six client-error codes |
| ErrorHandlers.CreateErrorResponse | src/web/error_handlers.py:58-71 | the payload has status "error", the code and the message; details are included exactly when they are a non-empty dictionary |
| ErrorHandlers.HandleApiError | src/web/error_handlers.py:76-86 | the payload carries the error's code, message and truthy details; the status is the table's status for the code |
| ErrorHandlers.HandleNotFound | src/web/error_handlers.py:88-93 | a 404 answered with RESOURCE_NOT_FOUND |
| ErrorHandlers.HandleServerError | src/web/error_handlers.py:95-100 | a 500 answered with UNKNOWN_ERROR |
| ErrorHandlers.HandleUnhandledException | src/web/error_handlers.py:102-107 | any other exception answered with UNKNOWN_ERROR and 500 |
| ErrorHandlers.HandlersAgreeWithTable | src/web/error_handlers.py:29-48 | each fixed handler's status is the one the table gives its code |
| Auth.CheckCredentials | src/web/middleware/auth.py:37-47 | accepted exactly when the name and password form one of the registered pairs |
| Auth.Authenticate | src/web/middleware/auth.py:49-60 | a 401 challenge whose WWW-Authenticate header names the realm |
| Auth.RequireAuth | src/web/middleware/auth.py:62-87 | the view runs exactly when credentials are present and match a registered user, with that user recorded; otherwise the challenge |
| Auth.CheckApiKey | src/web/middleware/auth.py:113-122 | a user exactly for a registered key, namely the key's user |
| Auth.RequireApiKey | src/web/middleware/auth.py:124-157 | a missing key raises the API-key-required error; the view runs exactly for a registered key whose user is non-empty, with user and key recorded; any other key raises the invalid-key error |
| Auth.AuthRequired | src/web/middleware/auth.py:162-192 | Basic authentication when registered, else the API key when registered, else the view runs unauthenticated |
| Auth.BasicAuthTakesPrecedence | src/web/middleware/auth.py:176-186 | with Basic authentication registered, the API-key header has no effect |
| Auth.UnauthenticatedOnlyWithoutSchemes | src/web/middleware/auth.py:176-192 | a view runs with no authenticated user only when no scheme is registered |
| Auth.DefaultsRefuseEveryone | src/web/middleware/auth.py:17-29 | with the default empty tables, every request is challenged or refused |
| Auth.ApiKeyRefusalIsForbidden | src/web/middleware/auth.py:124-157 | a refused API key is answered with HTTP 403 |
| Jobs.ParseStatus | src/web/services/job_queue.py:20-25 | a status is found exactly for the string of some status, and it has that string |
| Jobs.ParseStatusValue | src/web/services/job_queue.py:20-25 | each status is recovered from its own string |
| Jobs.JobName | src/web/services/job_queue.py:42-54 | the given name when truthy, else the function's name |
| Jobs.NewJob | src/web/services/job_queue.py:42-54 | a new job is pending, created now, carries its call, name and timeout, and has not started |
| Jobs.Ran | src/web/services/job_queue.py:56-73 | running ends in completed with the result, or failed with the error record; start and completion times are set; nothing else changes |
| Jobs.ToDict | src/web/services/job_queue.py:75-86 | the report copies the fields and the status string; the duration is present exactly when completed_at is truthy, and is completed minus started |
| Jobs.RanDuration | src/web/services/job_queue.py:56-86 | a job that ran reports its completion time minus its start time |
| Jobs.NeverRemoved | src/web/services/job_queue.py:238-253 | pending, running and cancelled jobs are never removed by the cleanup |
| Jobs.JobQueue.constructor | src/web/services/job_queue.py:101-112 | an empty, stopped queue |
| Jobs.JobQueue.Start | src/web/services/job_queue.py:114-132 | starts the given number of workers unless already running; the queue is running afterwards; jobs are unchanged |
| Jobs.JobQueue.Stop | src/web/services/job_queue.py:134-156 | a running queue gets one sentinel per worker; afterwards it is stopped with no workers |
| Jobs.JobQueue.AddJob | src/web/services/job_queue.py:158-182 | a pending job is stored under a fresh id, queued at the end, and reported by GetJob as "pending" with its name |
| Jobs.JobQueue.GetJob | src/web/services/job_queue.py:184-197 | under the queue invariant, the report of a known job and none for an unknown id |
| Jobs.JobQueue.SelectBelow | src/web/services/job_queue.py:199-219 | the reports of exactly the jobs that match the filter, in id order |
| Jobs.JobQueue.GetJobs | src/web/services/job_queue.py:199-219 | every job without a filter; none for an unknown status string; otherwise exactly the jobs in that status |
| Jobs.JobQueue.CancelJob | src/web/services/job_queue.py:221-236 | true and cancelled exactly when the job exists and is pending; otherwise nothing changes |
| Jobs.JobQueue.RemovableIds | src/web/services/job_queue.py:244-250 | the ids collected are exactly those of terminal jobs with a truthy completion time older than max_age |
| Jobs.JobQueue.CleanupJobs | src/web/services/job_queue.py:238-253 | the jobs left are exactly those that are not terminal with a truthy completion time older than max_age |
| Jobs.JobQueue.WorkerStep | src/web/services/job_queue.py:255-281 | a sentinel ends the worker; a cancelled job is dropped without running; a pending job runs to completed or failed; the queue loses its head |
| Jobs.BackgroundTask | src/web/services/job_queue.py:288-314 | starts the queue if needed, then submits the call as a new pending job at the end of the queue |
| Cache.ExpiryFor | src/web/services/cache.py:58-76 | an expiry exactly when a ttl is given, namely ttl seconds after now |
| Cache.Evict | src/web/services/cache.py:36-56 | a lookup drops the key's entry exactly when it is stale |
| Cache.SetThenGet | src/web/services/cache.py:36-76 | a value set is read back until its expiry has passed |
| Cache.SetKeepsOthers | src/web/services/cache.py:58-76 | setting one key leaves every other key's lookup unchanged |
| Cache.StaleStaysStale | src/web/services/cache.py:36-56 | an entry found stale stays stale at later times |
| Cache.EvictPreservesLookup | src/web/services/cache.py:36-56 | lazy eviction never changes what a lookup answers |
| Cache.LivePreservesLookup | src/web/services/cache.py:103-115 | the expiry sweep never changes what a lookup answers |
| Cache.InMemoryCache.constructor | src/web/services/cache.py:26-34 | an empty cache |
| Cache.InMemoryCache.Get | src/web/services/cache.py:36-56 | the value unless missing or stale; a stale entry is deleted |
| Cache.InMemoryCache.Set | src/web/services/cache.py:58-76 | stores the value with its expiry and returns true |
| Cache.InMemoryCache.Delete | src/web/services/cache.py:78-91 | true exactly when the key was present; the key is gone afterwards |
| Cache.InMemoryCache.Clear | src/web/services/cache.py:93-101 | every entry is dropped and the call returns true |
| Cache.InMemoryCache.StaleKeyList | src/web/services/cache.py:107-110 | the keys collected are exactly the stale keys, each once |
| Cache.InMemoryCache.CleanupExpired | src/web/services/cache.py:103-115 | exactly the stale entries are removed and counted |
| Cache.CachedStepResult | src/web/services/cache.py:336-355 | a stored non-None value is served without calling the function; otherwise the function's result is returned |
| Cache.SecondCallHits | src/web/services/cache.py:336-355 | a value computed once is served to the next call with the same key until ttl has passed since it was stored, after the function returned |
| Cache.SlowCallStillServed | src/web/services/cache.py:343-351 | with a ttl of 5, a value looked up at 0 and stored at 3 is still served at 6 |
| Cache.NoneNeverCached | src/web/services/cache.py:343-348 | a None result is computed again on the next call |
| Cache.Cached | src/web/services/cache.py:326-355 | the wrapper's result, whether it called the function, and the cache afterwards, with the lookup at the first clock reading and the store at the second |
| Cache.GenerateCacheKey | src/web/services/cache.py:358-393 | the ':'-joined parts, or their 32-character digest when longer than 250; never longer than 250 |
| Cache.KwValueOrderIndependent | src/web/services/cache.py:383-384 | keyword arguments given in another order have the same value for each name |
| Cache.CacheKeyKeywordOrderIndependent | src/web/services/cache.py:383-387 | the key does not depend on the order of the keyword arguments |
| Cache.ShortKeysDistinguishCalls | src/web/services/cache.py:386-393 | two calls whose parts hold no ':' and whose joined keys fit in 250 characters get the same cache key only when their parts are equal |
| Cache.ChooseBackend | src/web/services/cache.py:277-298 | Redis exactly when its library is available and its self-test read back "test" |
| RateLimit.PruneKeepsExactlyRecent | src/web/middleware.py:46-48 | pruning keeps exactly the times inside the window |
| RateLimit.PruneCounts | src/web/middleware.py:47-48 | pruning keeps each time inside the window as many times as it was recorded, and drops every other |
| RateLimit.PruneDropsOldest | src/web/middleware.py:47-48 | on a record kept oldest first, pruning keeps a suffix of it in the same order |
| RateLimit.Check | src/web/middleware.py:31-62 | does nothing when disabled; refuses with 429 exactly when the client's pruned history has reached the limit; the client's record becomes its pruned history, with the current time appended when the request is let through; never touches other clients |
| RateLimit.CheckKeepsChronological | src/web/middleware.py:42-62 | when the clock does not go backwards, every record stays oldest first |
| RateLimit.CheckKeepsBound | src/web/middleware.py:47-62 | no client's history grows beyond the limit |
| RateLimit.NewClientAdmitted | src/web/middleware.py:42-62 | a new client is let through and its time recorded |
| RateLimit.BurstAdmitsUpToLimit | src/web/middleware.py:47-62 | within one window a fresh client's request n+1 is refused exactly when n has reached the limit |
| RateLimit.RateLimiter.constructor | src/web/middleware.py:12-25 | a limiter with the given limit and window and no history |
| RateLimit.RateLimiter.BeforeRequest | src/web/middleware.py:31-62 | the answer and the new table are those of Check |
| SystemUtils.DetectPiModel | src/web/utils/system.py:65-82 | "unknown" exactly when the text is unreadable or names no Raspberry Pi; "5" exactly when it names a Pi 5; "4" exactly when it names a Pi 4 but no Pi 5; "other" for any other Pi |
| SystemUtils.ParseLine | src/web/utils/system.py:92-96 | a line parses exactly when its stripped text has one '='; key and value rejoin to that text |
| SystemUtils.ReadControlValues | src/web/utils/system.py:84-100 | the dictionary of the control file, as ControlValues gives it |
| SystemUtils.ReadStep | src/web/utils/system.py:92-96 | one more line read overrides the dictionary of the lines before it with its own pair |
| SystemUtils.ControlValuesLastLineWins | src/web/utils/system.py:84-100 | every key maps to the value on its last line |
| SystemUtils.UpdatedLines | src/web/utils/system.py:110-124 | one rewritten line per existing line, in order |
| SystemUtils.StrippedLines | src/web/utils/system.py:110-114 | the file's lines stripped, one per line, in order |
| SystemUtils.RewriteStep | src/web/utils/system.py:116-121 | a line that splits in two is rewritten to key=value when its key has a new value, and kept stripped otherwise |
| SystemUtils.WriteControlValues | src/web/utils/system.py:102-130 | succeeds exactly when the file is readable, every line parses and it is writable; it then writes the updated lines |
| SystemUtils.RewrittenLineParses | src/web/utils/system.py:116-121 | a line rewritten to key=value reads back as that pair, for a value without '=', line breaks or trailing whitespace |
| SystemUtils.StrippedLineParses | src/web/utils/system.py:110-124 | a line written back stripped reads back as before |
| SystemUtils.UpdatedLineParses | src/web/utils/system.py:110-124 | each rewritten line reads back as its old pair with the new value |
| SystemUtils.PairsOfUpdatedLines | src/web/utils/system.py:102-130 | the rewritten file's pairs are the old pairs with the new values |
| SystemUtils.WriteThenRead | src/web/utils/system.py:84-130 | writing then reading gives the old dictionary with the new values for its existing keys only, for values without '=', line breaks or trailing whitespace |
| SystemUtils.ScheduleMode | src/web/utils/system.py:228-234 | DEBUG when the debug marker exists, else OFF when the off marker exists, else ARMED |
| Storage.IsPhotoFile | src/web/services/storage.py:160-170 | a photo name carries an extension: a '.' four or five characters from its end |
| Storage.PhotoName | src/web/services/storage.py:160-170 | a lower-case name ending in one of the four extensions is a photo |
| Storage.PhotoExtensions | src/web/services/storage.py:160-170 | .jpg, .jpeg, .png and .bmp names are photos |
| Storage.UpperCaseExtension | src/web/services/storage.py:169-170 | the extension is matched regardless of case: a .JPG name is a photo |
| Storage.TextFileIsNotPhoto | src/web/services/storage.py:160-170 | a .txt name is not a photo |
| Storage.NameWithoutDotIsNotPhoto | src/web/services/storage.py:160-170 | a name without an extension is not a photo |
| Storage.DaysInMonth | src/web/services/storage.py:188 | every month has 28 to 31 days |
| Storage.DigitDate | src/web/services/storage.py:172-191 | a digit name YYYY-MM-DD is a date directory exactly when it is a valid Gregorian date |
| Storage.DateDirOfDigits | src/web/services/storage.py:172-191 | a name of eight digits in the form YYYY-MM-DD is a date directory exactly when the date its digits denote is valid |
| Storage.LeapDayIsDateDir | src/web/services/storage.py:172-191 | 2024-02-29 is accepted |
| Storage.LeapDayOfCommonYearIsNotDateDir | src/web/services/storage.py:172-191 | 2025-02-29 is rejected |
| Storage.InvalidDatesAreNotDateDirs | src/web/services/storage.py:172-191 | month 13 and day 32 are rejected |
| Storage.DateDirExample | src/web/services/storage.py:172-191 | 2025-01-01 is accepted |
| Storage.MalformedNamesAreNotDateDirs | src/web/services/storage.py:182-185 | 2025-1-1 and not-a-date are rejected |
| Storage.PhotosMember | src/web/services/storage.py:97-99 | the photos of a walk are exactly its files with photo names |
| Storage.DateNamesMember | src/web/services/storage.py:106-108 | the listed dates are exactly the directory entries named by a date |
| Storage.CollectDateNames | src/web/services/storage.py:105-108 | the loop collects the listed dates in listing order |
| Storage.DirStatsOf | src/web/services/storage.py:83-121 | zeros on error; otherwise the number and total size of the photos, and the date directories sorted |
| Storage.DirStatsDates | src/web/services/storage.py:105-113 | a date is reported exactly when it is a date-named directory of the listing |
| Storage.CountPhotos | src/web/services/storage.py:97-102 | the loop counts the photos and adds up their sizes |
| Storage.DirectoryStats | src/web/services/storage.py:83-121 | the statistics of DirStatsOf |
| Storage.FirstMount | src/web/services/storage.py:143-153 | a report exists exactly when some entry is a mount point; it is the report for the first one: its path and sizes, or the failed scan when `statvfs` raises |
| Storage.FirstMountIsFirst | src/web/services/storage.py:143-153 | the first mount point in listing order is the one reported |
| Storage.ScanUsers | src/web/services/storage.py:139-153 | a drive found is available and has a path |
| Storage.ScanUsersIsFirst | src/web/services/storage.py:139-158 | the scan stops at the first directory that cannot be listed (a failed scan) or holds a mount point (that directory's first mount point) |
| Storage.ScanBase | src/web/services/storage.py:129-158 | a drive found is available and has a path; a missing base is skipped; a base whose listing raises fails the scan |
| Storage.UnreadableBaseFailsScan | src/web/services/storage.py:136-158 | an unreadable /media gives only `available: False` whatever /mnt holds; so does an unreadable /mnt after a quiet /media |
| Storage.ExternalStats | src/web/services/storage.py:123-158 | a drive record has a path exactly when it is available; an unavailable one is the default with zero sizes |
| Storage.QuietMediaDefersToMnt | src/web/services/storage.py:134-155 | a /media without mount points gives the same answer as no /media |
| Storage.NoExternalWhenQuiet | src/web/services/storage.py:129-155 | with no mount point under either base the default record is returned |
| Storage.StatFailureFailsScan | src/web/services/storage.py:145-158 | when `statvfs` raises on the first mount point found, only `available: False` is reported |
| Storage.MediaSearchedFirst | src/web/services/storage.py:128-150 | a drive under /media wins over anything under /mnt |
| Storage.NoMountNoDrive | src/web/services/storage.py:139-155 | a base whose directories are all listable and hold no mount point reports no drive |
| Storage.ScanFindsMount | src/web/services/storage.py:139-153 | a reported drive is a mount point, whose `statvfs` succeeded, of some user directory |
| Storage.GetStorageStats | src/web/services/storage.py:43-81 | zeros on error; otherwise total and free from the block counts, used = total - free, both directories' statistics and the external drive |
| Storage.CollectPhotos | src/web/services/storage.py:215-226 | the walk loop collects exactly the photo files, in walk order |
| Storage.BackupEach | src/web/services/storage.py:228-252 | the copy loop leaves the counts and the backup tree that BackupRun gives |
| Storage.BackupStep | src/web/services/storage.py:229-252 | one photo: its directory is created; unless its copy raises it is up to date afterwards; no other file changes; an up-to-date photo is neither copied nor counted; at most one counter grows, by one |
| Storage.BackupRunDirs | src/web/services/storage.py:229-232 | the backup creates the directory of every photo |
| Storage.BackupRunMirror | src/web/services/storage.py:229-252 | files outside the photos are untouched; each photo's copy is skipped, replaced, or left as it was when the copy fails |
| Storage.BackupBringsUpToDate | src/web/services/storage.py:239-249 | a photo whose copy does not fail is up to date afterwards |
| Storage.BackupRunCounts | src/web/services/storage.py:229-252 | backed_up and total_size count exactly the stale photos copied; failed counts the stale photos whose copy failed |
| Storage.BackupRunIdle | src/web/services/storage.py:239-244 | when every photo is up to date nothing is copied or counted |
| Storage.BackupTwiceCopiesNothing | src/web/services/storage.py:239-244 | a second backup after a complete one copies nothing |
| Storage.BackupTree.constructor | src/web/services/storage.py:203-213 | a backup tree with the given directories and files |
| Storage.BackupPhotos | src/web/services/storage.py:194-269 | an error result if the target cannot be created; otherwise the counts and the new tree of the backup run, and the elapsed time |
| Storage.EnoughIsPercent | src/web/services/storage.py:315-318 | the cross-multiplied test is the percentage test |
| Storage.RunAfterEnough | src/web/services/storage.py:345-348 | once free space suffices, the rest of the loop changes nothing |
| Storage.NothingCleanedWhenEnough | src/web/services/storage.py:318-324 | with enough free space nothing is removed |
| Storage.StepShape | src/web/services/storage.py:350-383 | one turn removes the directory or nothing; files, free space and bytes freed stay consistent; the backup directories only grow |
| Storage.StepRemoved | src/web/services/storage.py:350-383 | one turn adds at most its own directory to those removed |
| Storage.RemovedWereVisited | src/web/services/storage.py:345-383 | every directory the loop removes is one it visited |
| Storage.CleanRunShape | src/web/services/storage.py:345-388 | the files left are the old files minus the removed directories; free space grows by the bytes freed, which are the bytes removed; each removed directory was older than the cutoff and has a backup directory |
| Storage.RemovedOldestFirst | src/web/services/storage.py:335-352 | directories are removed in ascending date order |
| Storage.CheckedStepKeepsPhotos | src/web/services/storage.py:356-381 | with the corrected check, one step deletes only photos that have an up-to-date copy |
| Storage.CheckedRunKeepsPhotos | src/web/services/storage.py:345-388 | the same for the whole loop |
| Storage.CheckedCleanupKeepsEveryPhoto | src/web/services/storage.py:356-369 | with the corrected check, every photo deleted has an up-to-date copy in the backup |
| Storage.FailedCopyLeavesEmptyDir | src/web/services/storage.py:356-369 | a first cleanup whose copy raises creates the backup directory and removes nothing |
| Storage.TrustedDirRemoved | src/web/services/storage.py:356-383 | as written, a later cleanup trusts an existing backup directory and removes the date directory without copying |
| Storage.TrustedPartialBackupLosesPhoto | src/web/services/storage.py:356-369 | as written, for any date older than the cutoff, any photo in it and any disk short of space: after a first run whose copy raises, a second run deletes the photo, which has no copy in the backup |
| Storage.LossExample | src/web/services/storage.py:345-352 | the concrete case 2024-01-01/test.jpg with a 2025-01-01 cutoff on a full 100-byte disk meets the conditions of the loss |
| Storage.Volume.constructor | src/web/services/storage.py:312-314 | a photo volume with the given listing, files and space |
| Storage.CopyPhotos | src/web/services/storage.py:365-369 | the photo files of the directory are copied into the backup |
| Storage.UnitSize | src/web/services/storage.py:372-376 | the directory's size is the sum of its file sizes |
| Storage.CheckCopied | src/web/services/storage.py:356-357 | the corrected check: the backup directory exists and every photo has an up-to-date copy |
| Storage.IsBackedUp | src/web/services/storage.py:356-357 | the result of the chosen check |
| Storage.Volume.RemoveTree | src/web/services/storage.py:378-386 | the directory's entry and files are gone and its size is added to the free space |
| Storage.StepCopies | src/web/services/storage.py:356-383 | one turn leaves the backup files alone or adds the directory's photos; a removal follows a trusted backup directory or a fresh copy |
| Storage.StepCases | src/web/services/storage.py:350-383 | on an old directory while space is short, the turn keeps everything but the backup, or removes the directory after the backup half |
| Storage.EnsureBackup | src/web/services/storage.py:356-369 | unless judged backed up, the backup directory is created and, unless the copy fails, the photos copied; the turn goes on exactly when judged backed up or copied |
| Storage.CleanDirectory | src/web/services/storage.py:350-388 | one turn of the loop leaves the state CleanStep gives |
| Storage.SweepDates | src/web/services/storage.py:345-388 | the loop leaves the state CleanRun gives and counts its removals and bytes |
| Storage.CleanPhotos | src/web/services/storage.py:300-402 | an error on a zero-size disk; no cleaning with enough free space; otherwise the dates sorted ascending and cleaned as CleanRun gives, with the count, the bytes freed and the new percentage |
| Storage.BackupToExternal | src/web/services/storage.py:272-297 | an error without an available drive; otherwise a backup job to its CreatureBox_Backup directory is submitted |
| FileUtils.ReadCsvSettings | src/web/utils/files.py:11-25 | SETTING to VALUE with later rows winning; {} when unreadable or a column is missing |
| FileUtils.SettingsOfRows | src/web/utils/files.py:16-21 | the keys are exactly the rows' settings, each with the VALUE of its last row |
| FileUtils.UpdateRow | src/web/utils/files.py:41-43 | VALUE is set exactly when the row's SETTING has a new value; every other cell is kept |
| FileUtils.UpdateSettingRows | src/web/utils/files.py:40-43 | fails exactly when a row has no SETTING; otherwise each row is updated in place |
| FileUtils.Filled | src/web/utils/files.py:46-49 | a written row has exactly the header's columns, its own cells kept and the rest empty |
| FileUtils.FittingPrefix | src/web/utils/files.py:49 | the rows before the first one with a cell outside the header |
| FileUtils.WriteRows | src/web/utils/files.py:46-49 | the writer writes rows up to the first that does not fit, and reports whether all were written |
| FileUtils.WriteCsvSettings | src/web/utils/files.py:27-54 | the outcome and file contents of WriteSettings |
| FileUtils.WriteChangesOnlyValues | src/web/utils/files.py:40-49 | a successful write keeps the header, the row order and every cell but VALUE; VALUE is replaced where the setting has a new value |
| FileUtils.WrittenPairs | src/web/utils/files.py:40-49 | the pairs read back are the old pairs with updated values |
| FileUtils.WriteThenRead | src/web/utils/files.py:11-54 | writing then reading gives the old settings with new values; keys that name no row are dropped |
| FileUtils.CollectPhotoDates | src/web/utils/files.py:138-147 | the walk collects exactly the date-like directories that hold a photo |
| FileUtils.ListOf | src/web/utils/files.py:151 | the list holds exactly the set's elements, each once |
| FileUtils.GetPhotoDates | src/web/utils/files.py:134-151 | exactly the directories named like a date that hold a photo, each once, newest first |
| FileUtils.PhotoTimeOfParts | src/web/utils/files.py:178-181 | a name of six or more parts shows its fourth, fifth and sixth parts |
| FileUtils.PhotoTimeOfShortName | src/web/utils/files.py:173-179 | a name of fewer than six parts shows 00:00:00 |
| FileUtils.DocumentedNameShowsDayAndHour | src/web/utils/files.py:177-181 | a name in the documented format shows day, an empty field and hour |
| FileUtils.Entry | src/web/utils/files.py:172-193 | the entry has the file's name, its directory as date, its time, and zero exposure and focus |
| FileUtils.ListedMember | src/web/utils/files.py:160-168 | exactly the photo files passing the date filter are listed |
| FileUtils.InsertByTime | src/web/utils/files.py:198 | the insertion adds exactly one element |
| FileUtils.SortByTime | src/web/utils/files.py:198 | the sort is a permutation |
| FileUtils.InsertByTimeSorted | src/web/utils/files.py:198 | the insertion keeps the list newest first |
| FileUtils.SortByTimeSorted | src/web/utils/files.py:198 | the sort leaves the list newest first by (date, time) |
| FileUtils.InsertByTimeStable | src/web/utils/files.py:198 | the insertion puts an element after those with the same (date, time) |
| FileUtils.SortByTimeStable | src/web/utils/files.py:198 | entries with equal (date, time) keep their walk order |
| FileUtils.GetPhotos | src/web/utils/files.py:153-200 | the listed entries sorted newest first |
| FileUtils.GalleryListing | src/web/utils/files.py:153-200 | the result is newest first, holds exactly the entries of the shown photo files, and is stable |
| FileUtils.FirstNamed | src/web/utils/files.py:227-232 | the index of the first file with the name in walk order, or none when no file has it |
| FileUtils.PhotoTree.constructor | src/web/utils/files.py:227 | a photo tree with the given files |
| FileUtils.DeletePhoto | src/web/utils/files.py:221-244 | FILE_NOT_FOUND when no file has the name; SYSTEM_COMMAND_FAILED with the error as detail when the removal fails; otherwise the first match is removed and the result is true |
| FileUtils.DeleteRemovesOne | src/web/utils/files.py:227-232 | the deletion removes exactly one file |
| FileUtils.LogFileName | src/web/utils/files.py:253-269 | exactly camera, scheduler, power and web have a log file |
| FileUtils.LogContent | src/web/utils/files.py:246-278 | the journal for "system"; a type's file text when it exists; otherwise "No <type> logs available"; "Error reading logs: <e>" when the journal command or the file read raises |

## Left out

- Threads, locks, queue blocking with its poll timeout, and the cache's sweeping thread are left out. The model has sequential operations and one explicit worker step.
- A job's timeout is stored but never enforced in the source, so the model keeps it only as data.
- Random UUIDs become a counter.
- Time values are integers supplied by the caller, and the floating-point clock is left out.
- The Redis backend and `pickle` are left out. The Redis backend appears only as the outcome of its self-test in `Cache.ChooseBackend`. `CacheService`'s delegation to its backend is not modelled separately.
- MD5 is a function parameter returning a 32-character digest; its internals are left out.
- Cache.Cached: a wrapped function that raises is not modelled. In the source the exception propagates out of `wrapper` and nothing is stored (src/web/services/cache.py:348-351); the model's function always returns a value.
- The `_generate_cache_key` fallback for arguments whose `str` raises (src/web/services/cache.py:394-397) is left out, because arguments are already rendered strings in the model.
- The file system is abstracted:
  - `os.walk` is the walk's sequence of files, each with its directory's base name, so the photo tree is two levels deep;
  - `statvfs`, `copy2` and `rmtree` become data and failure inputs;
  - a failing copy or removal fails before changing anything, so partial copies and partial removals are not modelled;
  - copies into the backup do not change the free space of the photo disk.
- Storage.CleanPhotos: the free percentage is compared exactly, as a real number, without the rounding of Python's float arithmetic. Where `(free / total) * 100` rounds to a value on the other side of `min_free_percent` (for example free 7, total 100 and a minimum of 7.000000000000001), the source and the model decide differently whether to clean.
- Storage.CleanPhotos: errors from `statvfs` or `listdir` inside the cleanup are not modelled; only the division by zero on a zero-size disk is.
- Storage.BackupPhotos: `duration` is an integer difference of the two supplied times.
- The CSV tokeniser is left out, including quoting, header case, rows longer than the header (their extra cells go under a `None` key) and rows shorter than it (their missing cells read as `None`, which `read_csv_settings` would store as a value). Rows are dictionaries.
- A settings file without a header line is left out.
- Line splitting of text files is left out: the control file is a sequence of lines.
- SystemUtils.WriteThenRead: the round trip is stated only for values without '=', '\n', '\r' or trailing whitespace. Each line is written with a `\n` after it (src/web/utils/system.py:125), so a value holding a line break becomes two lines on the next read. Such a value then fails to parse, or adds a pair. The model keeps a file as its sequence of lines and cannot show that split.
- Strings.Lower: only ASCII letters are lowered. Python's `str.lower` also lowers non-ASCII letters. None of those lowers to a letter of the four photo extensions, so the only use, `Storage.IsPhotoFile`, classifies the same names.
- `int()` is modelled for ASCII digits only (see `Strings.ParseInt`); other Unicode digits are left out.
- Messages built with formatting, such as the free percentage to one decimal, are left out; results carry the numbers.
- `get_system_info`, `run_script`, `get_power_info`, the rest of `get_schedule_info`, `get_storage_info` and `get_photo_file` are outside the modelled core.
- The request logger in `src/web/middleware.py` is outside the modelled core.
- Flask request and response objects and the `g` global are left out; they become parameters.

## Findings

| source | as written | input that shows it | evidently intended | confidence | as-written member | corrected member |
|---|---|---|---|---|---|---|
| src/web/services/storage.py:356-369 | `clean_photos` skips the copy whenever the backup directory of a date already exists, and then deletes the date directory | A first run whose copy of `2024-01-01/test.jpg` raises leaves an empty backup directory `2024-01-01`. The next run trusts it and deletes the photo, which then exists nowhere. | delete a date directory only when each of its photos has an up-to-date copy | medium (not executed) | Storage.TrustedPartialBackupLosesPhoto | Storage.CheckedCleanupKeepsEveryPhoto |
