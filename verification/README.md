# FS!QR: a model of its stateful parts

FS!QR shares files, notes and task boards between browsers that know a room's credentials.  This
project models the parts of it that carry state, concurrency or transformations, and proves what they
promise over all inputs, runs and interleavings.  One module stands for one component:

- **Task board** (`TaskText`, `TaskModel`, `TaskDates`, `TaskRequests`, `TaskStore`, `TaskInvariant`, `TaskAnswers`, `TaskLocking`, `TaskOrder`,
  `TaskVersions`, `TaskEffects`, `TaskImport`, `TaskFile`, `TaskHeavy`, `TaskRoundTrip`, with `Ordering`): the relational store of items, tags and links with its
  transactions, quotas, optimistic versions and positions, the row-lock protocol statement by statement, and
  export and import.
- **Message templates** (`Gettext`): `{name}` templates compiled to `%(name)s` templates, with a model of
  percent formatting.
- **Rate limiting** (`RateLimit`): failure counts, graduated blocks and exponential backoff on an integer clock.
- **Group rooms** (`GroupHub`, `GroupFanout`, `GroupStorage`, `GroupUpload`, `AccelPath`): one worker's hub and the
  shared registry, the protocol of all workers over publish/subscribe, fresh file names, uploads and quotas,
  and the two tests of whether a path lies under a root.
- **Notes** (`NoteSplice`, `NoteLifecycle`, `CollaborationToken`): the editor's splice, the two representations of
  a note through its life, and the token that admits to its collaboration.
- **Caches and small stores** (`CacheAside`, `Tables`, `FsqrCache`, `GroupCache`, `Presence`, `RoomAccess`).
- **Codecs and catalogs** (`Base64`, `Decimal`, `ShardSplit`), and what several modules share (`Texts`, `Collections`, `Wrappers`).

Code that works by changing things is a class or a method proved against a function on values; the theorems
are about those functions.  `dafny verify dfyconfig.toml` checks everything.

## Findings

Where a promise does not hold for all inputs, the exact condition is proved:

- `create_tag` counts tags in a snapshot that its earlier name lookup may have fixed, so under MySQL's default
  isolation two concurrent creations can exceed the tag limit (`TaskLocking.LimitHoldsIff`).  `create_item` cannot.
- A template with a literal `%(name)s` changes meaning when compiled (`Gettext.MeaningPreservedIff`), and a
  message used without parameters shows its percent signs doubled (`Gettext.UnformattedIff`).
- The round trip of a board needs room for its tags in the target and a file of at most 1 MB
  (`TaskRoundTrip.RoundTrip`).  Under the default settings a full board of control characters, which 210 requests make,
  exceeds that (`TaskHeavy.HeavyBoardIsTooLarge`, `TaskRoundTrip.HeavyRoundTripFails`); without such characters none does
  (`TaskFile.ExportFits`, which gives the largest file for every setting).  A null note comes back as an empty one.
- The exponential backoff bounds the failures of an hour only for requests that do not overlap: the delete routes await
  the authorisation between check and registration, and every request that passed its check before another's
  registration is counted beyond the 19 (`RateLimit.NineteenAndLate`, `RateLimit.OverlappingCounts`).
- Where an old room has one name as a file under both roots, deleting the served file brings back the hidden one,
  and a larger one can take the room beyond its quota (`GroupUpload.RemovalWithinIff`, `GroupUpload.SafeForEveryQuotaIff`,
  `GroupUpload.RemovalExceeds`).
- Storing a collaborative document checks no version: a version-checked save made since its load is overwritten
  (`NoteLifecycle.StoreOverwritesSave`); an unedited store keeps the text it meets exactly when that is the loaded one,
  as it is when the version has not moved (`NoteLifecycle.UneditedStoreKeepsIff`).  No route of this version calls
  `save_content` any more.
- Registering a socket a second time would leave a member behind in the registry (`GroupFanout.ConnectExactIff`).
  This is a condition on callers of the hub: the routes connect each socket once.
- `all_remove` of the file-sharing table does not catch a failing link revocation, unlike `remove_data`; the
  caches then still serve the removed rows until they expire (`FsqrCache.AllRemoveSafeIff`).
- `max_entries = 0` does not cap a session's entries (`RoomAccess.GrantCutIff`).
- `is_safe_path` refuses everything under a root written with exactly two leading slashes, while a URI is still
  built for it (`AccelPath.AgreeIff`, `AccelPath.DecodesBackIff`).
- A collaboration token longer than 2048 characters is issued but never accepted (`CollaborationToken.VerifiesIff`).
  This is a condition on callers of the token functions: the room ids the application issues are short.

## Main results

What holds of whole runs, of every input or of every interleaving: `TaskInvariant.RunKeepsInvariant`,
`TaskAnswers.RunDatesInOrder`, `TaskLocking.LimitHoldsIff`, `TaskOrder.ReorderGivesRequestedOrder` and `CreateLandsLast`,
`TaskVersions.VersionCountsCommits` and `AtMostOneCommits`, `TaskRoundTrip.RoundTrip`, `Gettext.MeaningPreservedIff`,
`RateLimit.EscalationBound`, `SuccessForgets` and `NineteenAndLate`, `GroupFanout.RunKeeps` and `ExactlyOnce`,
`GroupUpload.BatchNeverOverwrites` and `RunStaysWithin`, `NoteSplice.SharedText.OnInput`, `NoteLifecycle.RunFollows` and `RemovalEnds`,
`FsqrCache.ReadsAfterRun`, `GroupCache.ReadsAfterRun`, `Presence.SameCounts`,
`RoomAccess.SessionAccess`, `Base64.RoundTrip`, `CollaborationToken.VerifiesIff`, `AccelPath.AgreeIff` and
`DecodesBackIff`, `ShardSplit.CatalogKept`.  Rows of the table marked "(one step)" only say what one operation does; those
results rest on them.

## Assumptions

- Transactions are atomic, except in `TaskLocking`, where they are interleaved by statement, and in
  `NoteLifecycle`, where the two statements of `remove_room` and the rooms of a sweep are separate steps, and removals
  and sweeps may overlap.  Strings are compared exactly, without MySQL's collations.
- The task limits are constants without a value, so the results hold for every setting within the columns: texts no
  longer than `VARCHAR(200)`, `VARCHAR(500)` and `VARCHAR(40)`, and as many items as have positions in an `INT`.
  Where a result is about the defaults it says so (`TaskModel.DefaultSettings`).
- Hub operations and rate-limit calls are whole steps, though other calls may come between a check and the registration
  that follows it; publish/subscribe loses nothing, Redis answers, and clocks
  do not go back.  Sub-second rounding of times to live is not modelled.
- `secure_filename`, the keyed hashes, password verification, the article lookup and directory listings are
  parameters, with the properties used (no collisions, a password verifies itself only, every file listed once) stated
  as preconditions.  A collaborative document is abstract: its text can be read, and one can be seeded with a text.
- Rows come back from a SELECT without ORDER BY in primary-key order.

## Model

| member | source | states |
|---|---|---|
| `TaskText.NormalizeTagNameIdempotent` | models.py:52-54 | normalising a stored tag name again changes nothing, so an exported name is found again under itself |
| `TaskText.NormalizedName` | models.py:52-54 | a normalised name has the words of the raw one, with single blanks between them and none around them |
| `TaskText.WhiteSpace` | models.py:52-54 | the characters that count as white space |
| `TaskText.DateAnswers` | models.py:32-49 | a date of white space only is absent, a stripped ISO date is kept, anything else refused |
| `TaskText.IsoDateIsNormal` | models.py:32-49 | a date the request models accept is kept exactly as it was written, so a stored date passes validation again |
| `TaskModel.BoardOrderTotal` | Task/task_data.py:312-322 | the listing order (column, position, item id) is a total order, so a room has exactly one listing |
| `TaskDates.DayOrder` | Task/task_data.py:27-37 | the text comparison of the range check orders ISO dates as days of the calendar: by year, then month, then day |
| `TaskDates.IsoDateIff` | models.py:32-49 | the accepted dates are exactly the texts of the calendar's days of the years 1 to 9999 |
| `TaskDates.CalendarLengths` | models.py:32-49 | the Gregorian leap years: the first n years have 365·n + ⌊n/4⌋ − ⌊n/100⌋ + ⌊n/400⌋ days |
| `TaskDates.MonthLengths` | models.py:32-49 | the lengths of the other months |
| `TaskStore.NormalizeTagIds` | models.py:57-82 | any value: `null` is passed on, anything but a list refused; the loop over `seen` gives the distinct positive ids in order of first occurrence, and refuses bools, what `int()` refuses, non-positive ids and more than the allowed number |
| `TaskStore.NormalizeTagNames` | models.py:85-111 | any value: `null` is passed on, a single text taken as a list of one, anything else but a list refused; the loop strips, drops blanks, keeps first occurrences, and refuses too long or too many |
| `TaskStore.TaskData.CreateTag` | Task/task_data.py:199-238 | an existing name returns its tag, a full room refuses, otherwise exactly one tag is added; store and answer are those of the specification the invariants are proved about |
| `TaskStore.TaskData.RenameTag` | Task/task_data.py:241-256 | renames one tag of the room in place; a name in use or a tag of another room leaves the store as it was |
| `TaskStore.TaskData.DeleteTag` | Task/task_data.py:259-265 | removes one tag of the room together with its links and nothing else |
| `TaskStore.TaskData.ResolveTagNames` | Task/task_data.py:268-283 | the loop maps names to tag ids, creating missing tags until the room is full |
| `TaskStore.TaskData.ReplaceItemTags` | Task/task_data.py:286-309 | the item's links become those of the given ids that are tags of the room; other items keep theirs |
| `TaskStore.TaskData.CreateItem` | Task/task_data.py:334-387 | limit check, position 100 beyond the column's last, insert, links: the specified store and result |
| `TaskStore.TaskData.UpdateItem` | Task/task_data.py:406-489 | version check, one-sided date check, supplied columns only, tag replacement, rollback on every error |
| `TaskStore.TaskData.DeleteItem` | Task/task_data.py:492-497 | removes one item of the room with its links |
| `TaskStore.TaskData.ReorderItems` | Task/task_data.py:500-527 | duplicates or ids that are not the column's are refused without a change; otherwise the column is rewritten and listed |
| `TaskStore.TaskData.RewritePositions` | Task/task_data.py:514-522 | the loop gives the i-th id position 100·i and one more version, and touches no other row |
| `TaskStore.TaskData.ResolveTagIds` | Task/task_routes_items.py:26-39 | ids resolved from names are appended to the given ids without repeating one, whatever order they come in |
| `TaskStore.TaskData.ExportTaskItems` | Task/task_routes_io.py:41-68 | the file holds the board in listing order, tags by name |
| `TaskStore.TaskData.ImportTaskItems` | Task/task_routes_io.py:79-151 | size, format and quota checks, then the loop that stores or skips each entry and counts both |
| `TaskInvariant.StepKeeps` | Task/task_data.py:199-527 | under every setting of the limits every transaction keeps the invariant: item and tag quotas per room, unique tag names per room, links only within a room, tags per item, start not after due, well-formed rows |
| `TaskInvariant.RunKeepsInvariant` | Task/task_data.py:199-527 | under every setting of the limits the invariant holds after every sequence of transactions from the empty store |
| `TaskInvariant.ValidateTaskIsValid` | models.py:240-282 | what the creation model lets through meets the row conditions of the invariant: stripped non-empty title within its limit, note, real dates, at most the allowed tags |
| `TaskInvariant.ValidateUpdateIsValid` | models.py:285-321 | what the update model lets through meets them field by field |
| `TaskInvariant.ValidateTagNameIsValid` | models.py:329-340 | what the tag model lets through is a normalised, non-empty name within its limit |
| `TaskRequests.TaskAccepted` | models.py:240-282 | exactly these creations are accepted: title and note within their limits once stripped, known status and priority, accepted ids and names, dates that are blank or ISO dates, the start not a later day than the due one |
| `TaskRequests.TaskRead` | models.py:240-282 | what an accepted creation gives: the stripped texts, the named or default choices, the dates |
| `TaskRequests.TaskTagsRead` | models.py:240-282 | its tag ids, each once, in the order in which they first occur, and the names meant, each once |
| `TaskRequests.UpdateAccepted` | models.py:285-321 | exactly these updates are accepted: the same tests on the members that are given, and only on those |
| `TaskRequests.UpdateRead` | models.py:285-321 | an accepted update keeps what is left out or null apart and gives the other members as stripped or named |
| `TaskRequests.UpdateReadLists` | models.py:285-321 | a blank date becomes null, and tag ids are given each once |
| `TaskRequests.TagIdsRead` | models.py:57-82 | null is no list; other values that are no list are refused, and so are lists with an element that is no positive integer or with more different ids than an item may have; what is accepted keeps each id once |
| `TaskRequests.TagNamesRead` | models.py:85-111 | null is no list, one text a list of one; a list is refused for a name beyond the limit, or for more different names than an item may have, normalised and blanks aside |
| `TaskRequests.TagNamesOrder` | models.py:85-111 | accepted names stand in the order in which they first occur |
| `TaskRequests.TagNameAccepted` | models.py:329-340 | a tag name is accepted if and only if, normalised, it is neither empty nor beyond the limit |
| `TaskAnswers.RunDatesInOrder` | Task/task_data.py:27-37 | after every run an item with both dates holds ISO dates, the start on a day not after the due one |
| `TaskAnswers.CreateAnswers` | Task/task_data.py:334-387 | a creation is refused for its dates exactly when both are there and the start is the later day; then, and only then, the item limit is tested |
| `TaskAnswers.UpdateAnswers` | Task/task_data.py:440-460 | an update answers nothing to do, not found, conflict or a bad range exactly when it names nothing, the row is not in the room, has another version, or would be left with a start day after its due day, in this order |
| `TaskAnswers.ResolvesInOrder` | Task/task_data.py:268-283 | names become tags in order, for as long as the room has space; a name left over is no tag of the then full room |
| `TaskAnswers.ResolvedTags` | Task/task_routes_items.py:26-39 | a creation's tags are the given ones and those of its names, none twice, the given ones first; only what exceeds the limit per item is cut off |
| `TaskLocking.RunKeeps` | Task/task_data.py:334-387 | statement by statement, for any number of interleaved transactions that lock the room row before counting: rows never exceed the limit, and a transaction that has counted still has room when it inserts |
| `TaskLocking.LimitHoldsIff` | Task/task_data.py:199-238 | the limit survives every interleaving if and only if the count is taken under the lock: always in `create_item`; in `create_tag`, which looks the name up first, only when reads are not answered from that first snapshot |
| `TaskLocking.AloneCommits` | Task/task_data.py:199-238 | a transaction that nothing interferes with adds its row when one is free, none to a full room, and frees the lock |
| `TaskLocking.RollbackFrees` | Task/task_data.py:199-238 | a rollback in any phase frees the lock and leaves the rows |
| `TaskOrder.BoardIsColumns` | Task/task_data.py:312-322 | a room's listing is its three columns one after the other |
| `TaskOrder.DuplicateFreePermutation` | Task/task_data.py:503-513 | the code's two tests (no duplicates, same set of ids) together mean a permutation of the column |
| `TaskOrder.CreateAddsOneRow` | Task/task_data.py:334-387 | (one step) a refused creation changes nothing; a successful one adds exactly the given row, 100 beyond its column's last position at version 0, and links it to those of the given ids that are tags of the room |
| `TaskOrder.ReorderChangesRows` | Task/task_data.py:514-522 | a reorder gives the k-th id position 100·k and one more version, and changes no other field, row, tag or link |
| `TaskOrder.CreateLandsLast` | Task/task_data.py:359-384 | a created item is listed last in its column; every other column of every room is as before |
| `TaskOrder.ReorderGivesRequestedOrder` | Task/task_data.py:500-527 | reordering succeeds if and only if the ids are a permutation of the column, and then lists that column in exactly the requested order and every other column as before; otherwise nothing changes |
| `TaskAnswers.ListingIsColumns` | Task/task_data.py:312-322 | the answered listing, rows and tags, is that of its three columns one after the other |
| `TaskAnswers.ReorderAnswers` | Task/task_data.py:500-527 | a successful reorder answers with the column in the requested order, at positions 100, 200 and so on |
| `TaskVersions.UpdateCommitsIff` | Task/task_data.py:406-489 | (one step) an update commits if and only if it names a column or gives tag ids, the row is in the room at the client's version, the resulting dates are in order, and no null or out-of-range value is sent to a column that refuses it; otherwise the store is unchanged |
| `TaskVersions.UpdateChangesOnlySupplied` | Task/task_data.py:439-483 | (one step) a commit writes the supplied columns and one more version, replaces the tags only when they are supplied, and leaves every other row, tag and link alone |
| `TaskVersions.VersionCountsCommits` | Task/task_data.py:406-527 | in every run an item's version is the number of updates and reorders committed to it since it was created |
| `TaskVersions.VersionsOnlyGrow` | Task/task_data.py:406-527 | ids are never given out twice and the version of an id never decreases |
| `TaskVersions.AtMostOneCommits` | Task/task_data.py:439-489 | no lost update: after one committed update, and any run in between, a second update from the same base version does not commit |
| `TaskImport.ExportedTaskValidates` | Task/task_routes_io.py:24-68 | every exported row passes the import model and comes out with the same fields, a null note as an empty one |
| `TaskFile.FileTakes` | Task/task_routes_io.py:48-76 | the exact number of bytes of an exported file: 37 of its own, the time stamp, and the array of its tasks |
| `TaskFile.EntryTakes` | Task/task_routes_io.py:48-62 | a task takes 92 bytes of keys and punctuation and its values; a character takes its UTF-8 length, two bytes for a short escape and six for any other control character |
| `TaskFile.ExportFits` | Task/task_routes_io.py:48-76 | under the store's invariant and every setting an export without such control characters has at most a number of bytes set by the limits, which under the default ones is within 1 MB |
| `TaskHeavy.HeavyBoardIsTooLarge` | Task/task_data.py:334-387 | under the default settings a run of 210 valid requests from the empty store makes a board whose export has more than 1 MB |
| `TaskImport.CreateTagAdds` | Task/task_data.py:199-238 | the answer is a tag of that name in the room, the room's names grow by exactly that name, and a refusal means the name was not there and changes nothing |
| `TaskEffects.RenameTagIff` | Task/task_data.py:241-256 | a rename succeeds if and only if the tag is in the room and no other tag has the name; then every item that carried the old name carries the new one and nothing else changes in any room |
| `TaskEffects.DeleteTagIff` | Task/task_data.py:259-265 | deleting a tag takes its name off the room and off every item, and changes no item row or other room |
| `TaskEffects.DeleteItemIff` | Task/task_data.py:492-497 | deleting an item takes exactly its entry out of the listing; every other entry shows as before, in the same order |
| `TaskImport.ImportEntriesKeep` | Task/task_routes_io.py:126-147 | whatever a file holds, the import keeps the invariant and changes no existing tag |
| `TaskAnswers.ImportAnswers` | Task/task_routes_io.py:85-131 | an import is refused exactly for a file beyond 1 MB, no JSON, no object or list, another version, or more tasks than the room can still take; the store then stays as it was |
| `TaskAnswers.ImportAdds` | Task/task_routes_io.py:126-147 | the room gains exactly as many items as the import counts as stored |
| `TaskAnswers.ImportCounts` | Task/task_routes_io.py:126-151 | every entry of a finished import is counted once, as stored or as skipped |
| `TaskAnswers.CategoryBecomesTag` | Task/task_routes_io.py:24-38 | the category of a version 1 task becomes its only tag, normalised; a task with tags keeps those |
| `TaskRoundTrip.ImportCopies` | Task/task_routes_io.py:126-147 | with room for the tags, importing an exported board into an item-free room skips nothing and lists the same contents in the same order, position ties included |
| `TaskRoundTrip.CopyNeedsRoom` | Task/task_data.py:268-283 | conversely a faithful copy is possible only when the target can hold its own tags together with the used ones |
| `TaskRoundTrip.RoundTrip` | Task/task_routes_io.py:41-151 | importing the exported bytes reproduces title, note, status, priority, dates, tag names and order with nothing skipped, if and only if their number is within the import's limit and the target has room for the tags |
| `TaskRoundTrip.EmptyRoomRoundTrip` | Task/task_routes_io.py:41-151 | into an empty room it succeeds for every board whose texts hold no control character that JSON writes in six bytes, under the default settings and whenever the largest such file is within the limit |
| `TaskRoundTrip.HeavyRoundTripFails` | Task/task_routes_io.py:85-91 | the board that those requests make is exported, and the import refuses the file as too large |
| `TaskRoundTrip.FreshRoomHasRoom` | Task/task_routes_io.py:41-151 | a target without tags always has that room |
| `Gettext.MeaningPreserved` | scripts/generate_babel_catalogs.py:55-59 | for a template without a literal `%(name)s`, percent-formatting the compiled text equals filling in the `{name}` placeholders directly, missing parameters included |
| `Gettext.MeaningPreservedIff` | scripts/generate_babel_catalogs.py:32-33 | a template keeps its meaning under every parameter map if and only if it holds no literal `%(name)s` |
| `Gettext.NoStrayPercent` | scripts/generate_babel_catalogs.py:55-59 | for every template the output has no percent sign that formatting could reject |
| `Gettext.UnformattedIff` | i18n_support/frontend.py:28-38 | a message used without parameters shows its template as written if and only if it has no placeholder and no other percent sign; otherwise percent signs appear doubled |
| `Gettext.TranslateMeaning` | i18n_support/frontend.py:28-38 | with parameters a translated message is the directly substituted template where that is defined, and otherwise what the `str.format` fallback, or the compiled text itself, gives |
| `Gettext.PlaceholderIff` | scripts/generate_babel_catalogs.py:32-33 | each pattern matches at the head of a text exactly a name in its marks |
| `Gettext.IdentIff` | scripts/generate_babel_catalogs.py:32-33 | a name is an ASCII letter or underscore followed by ASCII letters, digits and underscores |
| `RateLimit.EscalationBound` | rate_limit.py:73-104 | whenever a failure count n is stored, at least 30 min·(n−10) have passed since it was one for 10 ≤ n ≤ 50, and 20 h + 24 h·(n−50) beyond |
| `RateLimit.BoundIsAttained` | rate_limit.py:73-104 | a client that retries the moment each block ends, a run in time order, reaches every count n after exactly that time |
| `RateLimit.BlockOutlivedByCount` | rate_limit.py:88-101 | when any block ends its failure count is still stored, and the next failure continues it |
| `RateLimit.BlockNeedsTen` | rate_limit.py:73-115 | in every run a stored count is at most the number of failures since the last success, and a block needs ten of them |
| `RateLimit.SuccessForgets` | rate_limit.py:107-115 | after a success, whatever came before, no count is stored and nothing blocks; k failures later the count is at most k, and fewer than ten never block |
| `RateLimit.CountedFailure` | rate_limit.py:73-104 | a counted failure is remembered for thirty days; from ten on it blocks for 30 minutes, from fifty on for a day, with the label of that time |
| `RateLimit.RegisteredFailure` | rate_limit.py:138-161 | a registered failure blocks for 2, 4, ... 256 and then 300 seconds, with that label; the count ends an hour after the first |
| `RateLimit.NineteenAndLate` | rate_limit.py:118-172 | however the checks and registrations of requests interleave, one life of the backoff counter counts at most 19 failures and those registered while a block stands |
| `RateLimit.OverlappingCounts` | rate_limit.py:118-161 | any number of requests whose checks all come before the first registration are all counted, all but one of them late |
| `RateLimit.AtMostNineteen` | rate_limit.py:118-172 | when nothing comes between a check and its registration none is late: at most 19 failures are counted within one life of the counter, and each block runs its full doubled delay |
| `RateLimit.NineteenIsReached` | rate_limit.py:138-161 | a client that retries at once when allowed, a run in time order, reaches each count up to 19 exactly when the delays so far have passed |
| `RateLimit.Limiter.CheckRateLimit` | rate_limit.py:49-70 | denies exactly while a block stands and then reports its end and label |
| `RateLimit.Limiter.RegisterFailure` | rate_limit.py:73-104 | changes one client's keys as specified and no other's; reports the block that then stands |
| `RateLimit.Limiter.RegisterSuccess` | rate_limit.py:107-115 | forgets count and block of one client and of no other |
| `RateLimit.Limiter.RegisterBackoffFailure` | rate_limit.py:138-161 | for any base and maximum seconds: counts, doubles the delay up to the maximum and blocks for it; a delay that is not positive is refused after counting; only this client's keys change |
| `RateLimit.DelayBlocks` | rate_limit.py:138-161 | for every base and maximum a delay of a second or more blocks for exactly that long; without one the earlier block stays |
| `GroupHub.MemberRoundTrip` | Group/group_realtime.py:173-183 | a registry member's text is parsed back if and only if neither worker nor room contains a colon |
| `GroupHub.DroppedMembers` | Group/group_realtime.py:110-131 | members that are dropped leave their room's set and the worker's own, and no other member leaves any set |
| `GroupHub.LeaveAllEmpties` | Group/group_realtime.py:71-79 | a shut-down worker has no rooms and no set, and no room a member that it held or had registered; all others stay |
| `GroupHub.GroupRoomHub.OnConnect` | Group/group_realtime.py:35-41 | the socket enters the local room, its member the room's and the worker's sets |
| `GroupHub.GroupRoomHub.Disconnect` | Group/group_realtime.py:43-46 | the socket and its member leave, empty rooms and sets go with them; an unknown socket changes nothing |
| `GroupHub.GroupRoomHub.Broadcast` | Group/group_realtime.py:48-56 | exactly the sockets whose sending does not fail receive the payload; the failing ones leave, whatever order the loop takes |
| `GroupHub.GroupRoomHub.CloseRoom` | Group/group_realtime.py:58-69 | all sockets of the room leave, with their members |
| `GroupHub.GroupRoomHub.ClearInstanceConnections` | Group/group_realtime.py:133-163 | every member still under the worker's key leaves its room's set, and the key goes |
| `GroupHub.GroupRoomHub.DisconnectAll` | Group/group_realtime.py:71-79 | the worker holds nothing locally and nothing of it is left in the registry |
| `GroupFanout.ConnectExactIff` | Group/group_realtime.py:35-41 | registering keeps the registry equal to the union of the workers' maps if and only if the socket is new to the room; a second registration leaves the first member behind |
| `GroupFanout.StepKeepsExact` | Group/group_realtime.py:35-89 | every whole hub step of any worker keeps the registry equal to the union of the workers' maps, with no empty room or set |
| `GroupFanout.StepKeepsOnce` | Group/group_realtime.py:213-270 | every step keeps the fan-out invariant: per event, worker and socket, copies sent plus copies waiting are at most one, and exactly one for a socket that stayed |
| `GroupFanout.RunKeeps` | Group/group_realtime.py:35-270 | both invariants hold in every state of every run from empty workers |
| `GroupFanout.ExactlyOnce` | Group/group_realtime.py:213-270 | in every run, a socket connected from before a notification until no copy of it waits anywhere was sent it exactly once, on whichever worker; nobody is sent it twice; after a processed `room_closed` no such socket is left |
| `GroupStorage.UnusedName` | Group/group_storage.py:92-107 | the name is unused, is the requested one when that is free, and otherwise the first free candidate, whose counter is at most the number of existing names |
| `GroupStorage.UniqueRoomFilename` | Group/group_storage.py:92-107 | the unbounded loop ends, and returns that name |
| `GroupStorage.TakenNeedsNames` | Group/group_storage.py:100-107 | pigeonhole: if the name and n candidates are all taken, more than n names exist (different counters print differently) |
| `GroupStorage.SanitizedIsPlain` | file_validation.py:82-92 | a sanitised name is one visible path component, whatever was uploaded |
| `GroupStorage.SanitizedIs` | file_validation.py:82-91 | a name without `..`, separators, NUL or line breaks is kept as it is, any other goes through `secure_filename`; an empty or hidden result is replaced by a dated name with the extension |
| `GroupStorage.SplitsAtLastDot` | Group/group_storage.py:92-105 | the extension that a counter is put before is what follows the last dot of the last component |
| `GroupStorage.LeadingDotsAreNoExtension` | Group/group_storage.py:92-105 | a name whose only dots come first has no extension |
| `GroupStorage.UnusedIsPlain` | Group/group_storage.py:92-107 | adding a counter keeps it one |
| `GroupUpload.BatchNeverOverwrites` | Group/group_routes_file.py:143-179 | an upload batch leaves every existing entry of both roots unchanged; saved names are new, pairwise different and hold the bytes uploaded under them |
| `GroupUpload.SaveOneAdds` | Group/group_routes_file.py:153-179 | an upload is saved if and only if it is named, accepted, written completely, not empty and not blocked by a directory; then exactly one file, with its bytes, is added under the unused name |
| `GroupUpload.PartialStays` | Group/group_routes_file.py:143-180 | a write that breaks off leaves the bytes written so far under the target name and is reported as an error |
| `GroupUpload.BatchUsage` | Group/group_routes_file.py:143-179 | a batch adds at most one file per upload and at most the uploaded bytes to what the usage count sees |
| `GroupUpload.SavedBatchUsage` | Group/group_routes_file.py:143-180 | when every upload is saved the room grows by exactly so many files and their bytes |
| `GroupUpload.WeightOfTwo` | file_validation.py:40-49 | the weight of a batch is the sum of its parts, in any order, and uploads without a name weigh nothing |
| `GroupUpload.BatchStored` | file_validation.py:52-75 | a batch is stored exactly when the room with its files and bytes added is within both limits, and otherwise nothing is |
| `GroupUpload.RemovalWithinIff` | Group/group_storage.py:52-89 | for every disk within the quota: deleting a name keeps it within if and only if, where the name is a file under both roots, the file that comes back fits in place of the deleted one |
| `GroupUpload.RunStaysWithin` | Group/group_routes_file.py:206-224 | from every room within its quota, a sequence of uploads and deletions stays within it throughout if and only if each deletion fits in that sense |
| `GroupUpload.BatchesStayWithin` | Group/group_routes_file.py:206-224 | uploads alone never leave the quota |
| `GroupUpload.SafeForEveryQuotaIff` | Group/group_storage.py:52-89 | every run stays within every quota that a room meets if and only if no file under the old root is larger than the file of the upload root that hides it |
| `GroupUpload.RemovalExceeds` | Group/group_storage.py:52-89 | a room of one file that hides a larger one: within the quota before, beyond it after deleting that file |
| `GroupUpload.RoomFolders.CollectRoomFiles` | Group/group_storage.py:52-63 | the listing is both roots' files, the upload root's where a name is in both |
| `GroupUpload.RoomFolders.RoomFilesUsage` | Group/group_storage.py:66-77 | the loop's count and size are those of the listing |
| `GroupUpload.RoomFolders.CountTotalUploadSize` | file_validation.py:40-49 | the loop sums the sizes of the named uploads |
| `GroupUpload.RoomFolders.SaveUploadedFiles` | Group/group_routes_file.py:143-179 | disk and the three result lists are those of the specification, for every mix of refusals and write errors |
| `GroupUpload.RoomFolders.GroupUpload` | Group/group_routes_file.py:206-249 | a batch is stored if and only if the room's usage with it stays within both limits |
| `GroupUpload.RoomFolders.DeleteFile` | Group/group_storage.py:80-89 | deletes the file found first, the upload root's before the legacy one's |
| `NoteSplice.SpliceGivesNext` | hocuspocus/client.js:45-50 | deleting and inserting between common prefix and suffix turns the shared text into the editor's |
| `NoteSplice.SpliceIsLeast` | hocuspocus/client.js:41-49 | no single contiguous replacement with the same effect removes or inserts fewer units |
| `NoteSplice.SharedText.OnInput` | hocuspocus/client.js:37-52 | after an input the shared text is the editor's text cut at the limit, by one in-bounds splice that is least |
| `NoteLifecycle.RunFollows` | Note/note_data.py:350-402 | over every interleaving: a room that is not live never becomes live, its content and version then stay, versions never decrease, and content changes only with the version |
| `NoteLifecycle.LoadedDocumentIsContent` | hocuspocus/server.js:44-85 | (one step) a load succeeds if and only if the row exists; the document's text is the content column and becomes the stored state, and a state that agrees is kept |
| `NoteLifecycle.StoredDocumentIsContent` | hocuspocus/server.js:115-130 | (one step) a store succeeds if and only if the room is live and the text within the limit, and leaves column and state in step; a refusal changes nothing |
| `NoteLifecycle.UneditedStoreKeepsIff` | hocuspocus/server.js:44-130 | a document loaded, and stored unedited after any run, writes the text of its load: it keeps the text it meets if and only if that is still the same, in particular when the version has not moved |
| `NoteLifecycle.StoreOverwritesSave` | hocuspocus/server.js:115-130 | a version-checked save of any text between load and store succeeds, the store succeeds too, and another text is lost |
| `NoteLifecycle.SaveReplacesWhatWasRead` | Note/note_data.py:375-386 | a version-checked save that succeeds after any run replaces exactly the content its client had read |
| `NoteLifecycle.SavedContent` | Note/note_data.py:375-386 | a save succeeds exactly on an active, unexpired room at the expected version; it writes the text and one more version and leaves the state |
| `NoteLifecycle.CreatedRoom` | Note/note_data.py:229-275 | a creation with an unused id gives a room that loads its initial text at version 0 and is live for exactly the given hours; with a used one it changes nothing |
| `NoteLifecycle.RemovalEnds` | Note/note_data.py:393-402 | after a removal and any run the room has an ended status and is not live |
| `NoteLifecycle.RemovalDeletes` | Note/note_data.py:393-402 | the second statement of a begun removal deletes the content of that room and nothing else |
| `NoteLifecycle.SweepReads` | Note/note_data.py:430-441 | a sweep reads exactly the active rooms whose time is over, beside what other sweeps still have to do |
| `NoteLifecycle.SweepEnds` | Note/note_data.py:442-455 | the step for a room that was read sets an active status to expired, deletes its content and touches no other room |
| `NoteLifecycle.NoteTables.OnLoadDocument` | hocuspocus/server.js:44-85 | the transaction's branches give the specified row and document |
| `NoteLifecycle.NoteTables.NewRoom` | Note/note_data.py:229-269 | both rows in one transaction, or neither |
| `NoteLifecycle.NoteTables.OnStoreDocument` | hocuspocus/server.js:115-130 | length check, joined update and affected-row check give the specified state and answer |
| `NoteLifecycle.NoteTables.SaveNote` | Note/note_data.py:375-386 | the joined, version-checked update writes the content without touching the collaborative state |
| `NoteLifecycle.NoteTables.RemoveNoteRoom` | Note/note_data.py:393-402 | status first, to any value but active, content second, as the two steps of the interleaved model |
| `NoteLifecycle.NoteTables.RemoveExpiredRooms` | Note/note_data.py:430-455 | the loop handles each selected room once, one transaction each |
| `CacheAside.KeysApart` | cache_utils.py:100-134 | a prefix pattern selects the keys of its own reader only, and with a collision-free digest different calls, by position or by keyword, have different keys |
| `CacheAside.CachedIsDirect` | cache_utils.py:48-71 | over a coherent cache a decorated reader answers as its reader would, stripped, up to JSON form, and leaves the cache coherent |
| `CacheAside.ServedFromCache` | cache_utils.py:48-71 | what a reader answered once is served, in JSON form, whatever the tables then hold; `None` is asked for every time |
| `CacheAside.JsonForm` | cache_utils.py:18-26 | the JSON form keeps rows, columns and texts; dates and time spans come back as text |
| `CacheAside.StrippedForm` | cache_utils.py:78-98 | stripping takes exactly the named columns out of every row |
| `CacheAside.RedisCache.DeletePrefix` | cache_utils.py:126-134 | scan and delete remove exactly the entries of one reader |
| `FsqrCache.SaveKeeps` | FSQR/fsqr_data.py:45-90 | saving a file keeps every remaining cache entry equal to what its reader now gives: the five invalidated entries are all that a new row can change |
| `FsqrCache.RemoveKeeps` | FSQR/fsqr_data.py:177-234 | removing a file keeps the cache coherent, also when deleting its payload fails |
| `FsqrCache.AllRemoveSafeIff` | FSQR/fsqr_data.py:237-256 | removing everything leaves every coherent cache coherent if and only if no link revocation raises: a revocation that does skips all invalidations after the rows are gone |
| `FsqrCache.ReadsAfterRun` | FSQR/fsqr_data.py:85-170 | after any sequence of saves, removals, complete remove-alls, reads and expiries each cached reader answers as its direct reader, stripped |
| `FsqrCache.CleanAfterRun` | FSQR/fsqr_data.py:113-163 | after any sequence at all no stripped column is in the cache or in an answer |
| `FsqrCache.NoSecretsAfterRun` | FSQR/fsqr_data.py:113-163 | named columns: no answer of any run shows a password or its lookup hash, and only the credential reader the hash of a share token |
| `FsqrCache.OtherColumnsStay` | FSQR/fsqr_data.py:113-163 | every other column is answered as it is stored |
| `FsqrCache.SavedThenRead` | FSQR/fsqr_data.py:45-96 | a save at the end of any run adds its row, and the cached list of all shows it first at once |
| `FsqrCache.RemovedThenRead` | FSQR/fsqr_data.py:177-234 | a removal at the end of any run leaves exactly the other rows and the cached reader none; one whose files cannot be deleted changes nothing |
| `FsqrCache.ReadThenExpired` | cache_utils.py:48-71 | in any run a read keeps an answer that is not `None`, an expiry takes entries away, and a complete remove-all empties table and caches |
| `FsqrCache.RevokesIff` | FSQR/fsqr_data.py:245-250 | the revocation loop raises exactly for a row with a non-empty secure id whose link cannot be revoked |
| `FsqrCache.LookupFinds` | FSQR/fsqr_data.py:313-344 | a credential lookup answers only with a row of that id whose stored password verifies, by hash or legacy, and misses none when stored hashes belong to their passwords |
| `FsqrCache.CredentialAnswers` | FSQR/fsqr_data.py:98-121 | for every table the credential reader answers at most one row, one that matches, and the login its secure id; they answer nothing only when no row matches, if stored hashes are faithful |
| `FsqrCache.SavedLogsIn` | FSQR/fsqr_data.py:98-121 | the credentials of a saved file, with no other row of its id, answer exactly that row and its secure id |
| `FsqrCache.NewColumns` | FSQR/fsqr_data.py:55-81 | the columns of a saved row, hashes and token hash included |
| `FsqrCache.SaveRefusedIff` | FSQR/fsqr_data.py:45-96 | a save is refused exactly when its upload id or its share token is in use, and then changes nothing |
| `FsqrCache.ReadersAnswer` | FSQR/fsqr_data.py:124-174 | for every table: by secure id and by share token exactly the rows that have it, and all rows newest first |
| `FsqrCache.DroppedEntries` | FSQR/fsqr_data.py:82-90 | a save and a removal invalidate exactly the entries named, and a removal all credential and token entries only when it removed a row |
| `FsqrCache.SavedIsFound` | FSQR/fsqr_data.py:45-96 | a saved file is read by its secure id, alone by its share token, first in the list of all, and found by its credentials |
| `FsqrCache.RemovedIsGone` | FSQR/fsqr_data.py:206-209 | a removal leaves exactly the rows with another secure id |
| `FsqrCache.FsqrData.FindByCredentials` | FSQR/fsqr_data.py:313-344 | the hashed hit, else the first legacy row that verifies |
| `FsqrCache.FsqrData.Read` | cache_utils.py:47-74 | hit, miss and uncached `None` of the wrapper around the module's readers |
| `FsqrCache.FsqrData.Save` | FSQR/fsqr_data.py:45-90 | insert then invalidate: a duplicate key changes nothing, otherwise the specified table and cache |
| `FsqrCache.FsqrData.Remove` | FSQR/fsqr_data.py:177-234 | files, row, caches in the code's order give the specified state |
| `FsqrCache.FsqrData.RemoveAll` | FSQR/fsqr_data.py:237-256 | the revocation loop raises exactly when some removed row's revocation does, with the table already empty |
| `GroupCache.ReadsAfterRun` | Group/group_data.py:25-137 | after any sequence of creations, removals, remove-alls, reads and expiries each cached room reader answers as its direct reader, without passwords |
| `GroupCache.AllRemoveLeaves` | Group/group_data.py:173-184 | after removing all, the table holds exactly the rows whose folders could not be deleted or that have no room id |
| `GroupCache.CreatedIsFound` | Group/group_data.py:25-105 | a created room is the one its room id reads, first in the list of all, and its credentials pick a room |
| `GroupCache.PickRoomFinds` | Group/group_data.py:51-61 | credentials pick only a room of that id whose password verifies, and find one if there is any |
| `GroupCache.LoginAnswers` | Group/group_data.py:51-67 | for every table the login answers the room id of a row of that id whose password verifies, and nothing only when there is none with a room id |
| `GroupCache.CreatedLogsIn` | Group/group_data.py:25-67 | the credentials of a created room, with no other room of its id, answer exactly its room id |
| `GroupCache.CreateRefusedIff` | Group/group_data.py:25-48 | a creation is refused exactly when its room id is in use, and then changes nothing |
| `GroupCache.ReadersAnswer` | Group/group_data.py:70-105 | for every table: by room id exactly the rows that have it, and all rows newest first |
| `GroupCache.RemovedRows` | Group/group_data.py:108-141 | a removal takes exactly the rows of the room id, or none when a folder cannot be deleted |
| `GroupCache.DroppedEntries` | Group/group_data.py:46-48 | a creation and a removal invalidate exactly the entries named |
| `GroupCache.OnlyPasswordsStripped` | Group/group_data.py:89-97 | after any run no cached room reader shows a password, and every other column is as stored, up to JSON form |
| `GroupCache.StepsAreRead` | Group/group_data.py:25-184 | what a creation, a removal, a remove-all, a read or an expiry at the end of any run leaves in table and cache |
| `GroupCache.GroupData.PickRoomDirect` | Group/group_data.py:51-61 | the loop finds the first room of the id whose password verifies |
| `GroupCache.GroupData.Remove` | Group/group_data.py:108-170 | a failed folder deletion keeps row and caches; otherwise row and entries go |
| `GroupCache.GroupData.RemoveAll` | Group/group_data.py:173-184 | the loop reports success exactly when no room was kept |
| `Presence.LocalCounts` | presence.py:66-102 | with a non-decreasing clock every call on the in-memory store returns the number of viewers heard of less than 10 s ago who have not left since; no empty entry is kept |
| `Presence.RedisCounts` | presence.py:108-135 | the same for the sorted sets, whatever keys have expired |
| `Presence.ExpiryKeeps` | presence.py:25-27 | the 60 s expiry of a key drops no viewer that still counts |
| `Presence.SameCounts` | presence.py:66-135 | the two back ends give the same answers to the same calls |
| `Presence.Renewal` | presence.py:108-116 | only a heartbeat renews a key, for a minute |
| `Presence.LocalPresence.PruneViewers` | presence.py:66-69 | the pruning loop keeps exactly the viewers inside the window |
| `Presence.LocalPresence.Touch` | presence.py:72-79 | one heartbeat on the dictionary is one specified step |
| `Presence.LocalPresence.LeavePlace` | presence.py:93-102 | one departure on the dictionary is one specified step |
| `Presence.RedisPresence.Touch` | presence.py:108-116 | the pipelined commands together are one specified step |
| `Presence.RedisPresence.LeavePlace` | presence.py:128-135 | the pipelined commands together are one specified step |
| `RoomAccess.GrantMeans` | room_access.py:40-66 | under a positive bound: the granted key is most recent and its entry is the old fields with the payload over them; another key stays, unchanged, if and only if fewer than the bound come after it |
| `RoomAccess.PopOther` | room_access.py:101-107 | revoking a key leaves every other key's entry and its place in the order |
| `RoomAccess.GrantCutIff` | room_access.py:63-64 | the entries are cut to the bound if and only if the bound is positive: with 0 the slice is the whole list |
| `RoomAccess.GrantRecordedIff` | room_access.py:53-66 | the granted key itself is recorded unless a negative bound cuts everything away |
| `RoomAccess.RecentGrantsStay` | room_access.py:40-107 | after any later run a granted key, not touched again, is still there with its entry if fewer than the bound of other keys were granted since; without revocations if and only if |
| `RoomAccess.SpacesFollow` | room_access.py:34-107 | after any calls on a new session each namespace holds exactly the dict that its own grants and revocations make, and nothing as long as nothing was granted in it |
| `RoomAccess.SessionAccess` | room_access.py:34-107 | on a new session, after any calls in any namespaces, `has_access` holds only for keys granted there and not revoked since, and does hold for such a key while fewer than the bound of others were granted there since; without revocations exactly then |
| `RoomAccess.GrantedIsSeen` | room_access.py:40-98 | a granted key is seen at once, its payload fields read as their text and the others as before; other namespaces stay |
| `RoomAccess.RevokedIsUnseen` | room_access.py:69-107 | a revoked key is not seen and its fields read as the default; all other keys read as before |
| `RoomAccess.RecencyOrder` | room_access.py:40-66 | entries built from an empty session are in the order of their last grants |
| `RoomAccess.FieldSurvives` | room_access.py:59-62 | a payload field keeps its last given value through re-grants while its key is present |
| `RoomAccess.Session.GrantAccess` | room_access.py:40-66 | one grant is one specified call on the session's namespaces, malformed data included |
| `RoomAccess.Session.HasAccess` | room_access.py:69-71 | true exactly for the keys of the dict stored under the namespace, if there is one |
| `RoomAccess.Session.GetAccessField` | room_access.py:86-98 | the specified text: a stored string, or the default for absent, legacy or non-string values |
| `RoomAccess.Session.RevokeAccess` | room_access.py:101-107 | one revocation is one specified call; an absent key writes nothing |
| `Base64.RoundTrip` | static/js/fs_qr_upload/encryption.js:22-44 | decoding gives back every byte sequence, in the browser and in Node |
| `Base64.GroupsAreCoded` | static/js/fs_qr_upload/encryption.js:22-31 | every group of up to three bytes is coded by the sextets in its place, as one 24-bit number filled up with zero bits (section 4 of RFC 4648) |
| `Base64.EncodedIsSafe` | Note/note_collaboration.py:33-34 | encoded text has URL-safe characters only, hence none of `.`, `+`, `/`, `=`, and a length set by the number of bytes |
| `Base64.DecodeFailsIff` | static/js/fs_qr_upload/encryption.js:33-44 | URL-safe text fails to decode if and only if its length is one more than a multiple of four |
| `Base64.SpacesIgnored` | static/js/fs_qr_upload/encryption.js:33-44 | ASCII white space anywhere does not change what `atob` answers |
| `Base64.Base64UrlEncode` | static/js/fs_qr_upload/encryption.js:22-31 | the loop and the three replacements give the encoding |
| `Base64.Base64UrlDecode` | static/js/fs_qr_upload/encryption.js:33-44 | the padding and filling loops give the decoding, throwing exactly when `atob` does |
| `CollaborationToken.PayloadReads` | Note/note_collaboration.py:21-26 | the compact JSON payload is read back for every room text (quotes, control characters and surrogates included) and every expiry |
| `CollaborationToken.VerifiesIff` | hocuspocus/token.js:3-15 | an issued token verifies if and only if the room is its own, the time is before issue + 3600 s, and it has at most 2048 characters |
| `CollaborationToken.FitsIff` | hocuspocus/token.js:4-4 | with a 32-byte signature that length holds if and only if the payload has at most 1503 characters |
| `CollaborationToken.VerifiedMeans` | hocuspocus/token.js:3-15 | whatever verifies carries the keyed hash of its first part, is for one room only, is as good at any earlier time, and ends some time |
| `CollaborationToken.ReadIntIff` | hocuspocus/token.js:11-14 | an integer is read exactly from its decimal text, zero also from `-0` |
| `CollaborationToken.TokenParts` | hocuspocus/token.js:3-6 | a token needs two non-empty parts; what follows a second dot must be nothing or start with another dot, and is then not looked at |
| `CollaborationToken.SecretNeeded` | hocuspocus/token.js:3-6 | without a secret no token is made and none is accepted |
| `CollaborationToken.EscapeLength` | Note/note_collaboration.py:21-26 | the length of each character in the JSON of the payload |
| `CollaborationToken.ShortEscapesRead` | hocuspocus/token.js:12-14 | the short escapes that are read |
| `AccelPath.SafeIff` | file_serving.py:28-43 | a URI is built if and only if the path's components begin with the root's; `is_safe_path` agrees except that it refuses a root with two leading slashes |
| `AccelPath.AgreeIff` | Group/group_storage.py:13-19 | the two tests agree on every path if and only if the normalised root does not begin with two slashes |
| `AccelPath.DecodesBackIff` | file_serving.py:38-43 | percent-decoding the URI after the prefix and joining it to the root gives the path's components, and the normalised path itself if and only if root and path begin with as many slashes |
| `AccelPath.QuotedLength` | file_serving.py:42-43 | the URI keeps the unreserved characters as they are and writes every other byte in three |
| `AccelPath.QuotedBytes` | file_serving.py:42-43 | a quoted component holds unreserved characters and percent signs only |
| `AccelPath.TrimmedPrefix` | file_serving.py:43 | of the internal prefix exactly the slashes at its end are dropped |
| `AccelPath.DoubleIff` | file_serving.py:35-35 | a path is kept apart as one with two leading slashes if and only if it has exactly two |
| `ShardSplit.MoveFrom` | scripts/split_article_phrase_shards.py:31-43 | going through one shard moves exactly its misplaced article phrases, for files with or without duplicates, and opens exactly their home shards |
| `ShardSplit.SplitLanguage` | scripts/split_article_phrase_shards.py:25-60 | for every shard and phrase the written files hold what the rules choose and no empty file remains, or without `apply` the files are as before; the two numbers are those of the misplaced phrases and of the article shards |
| `ShardSplit.CatalogKept` | locale_store.py:76-94 | without duplicate keys the merged catalog is the same before and after, in whatever order files are listed |
| `ShardSplit.OnlyAtHome` | scripts/split_article_phrase_shards.py:31-43 | afterwards an article phrase is in its home shard only, whatever duplicates there were |
| `ShardSplit.NoneIntroduced` | scripts/validate_locales.py:223-231 | a catalog without duplicate keys stays one |
| `ShardSplit.ArticleText` | scripts/split_article_phrase_shards.py:39-42 | with duplicates, the text that wins is that of `quality_fill`, else of the home shard, else of the first shard listed |
| `ShardSplit.SecondRun` | scripts/split_article_phrase_shards.py:25-60 | a second run moves nothing and rewrites the same files |

## Left out

- HTTP routing, authorisation, templates, browser UI, scheduling, the reading of settings, migrations, GeoIP, sitemaps.
- Cryptography, MIME sniffing, ZIP and PDF writing: parameters or absent.
- Merging of concurrent edits: it belongs to Yjs.  The splice is proved on UTF-16 text with one editor; what Yjs does
  with a splice that falls between two surrogates is not modelled.
- TaskInvariant.RunKeepsInvariant: takes each transaction as atomic; the one interleaving that matters for the limits is in
  `TaskLocking`.
- TaskRoundTrip.RoundTrip: reading JSON text back into members is taken for granted; import files that carry `tag_ids`, or
  values of other types than the export writes, are not modelled.
- TaskVersions.VersionCountsCommits: versions are unbounded, the INT column is not.
- Created and updated timestamps of rows, and the task room rows themselves.
- Gettext.TranslateMeaning: `str.format` itself is a parameter.
- RateLimit.EscalationBound: a failing Redis, which makes the source allow the attempt, is not modelled.
- GroupFanout.ExactlyOnce: a worker that dies without `disconnect_all`, lost messages, the connection keys' time to live,
  and interleavings inside one hub operation are not modelled.
- GroupUpload.RunStaysWithin: concurrent uploads to one room are not modelled.
- GroupStorage.SanitizedIsPlain: `secure_filename` is a parameter that returns no slash.
- NoteLifecycle.SaveReplacesWhatWasRead: the HTTP route around `save_content` and its merging are not modelled.
- The caches of note and task room rows, which use the same decorator.
- FsqrCache.ReadsAfterRun: concurrent readers between a statement and its invalidation are not modelled, nor readers
  called by keyword, which have keys of their own; the application calls these readers by position.
- GroupCache.ReadsAfterRun: the same.
- NoteLifecycle.NoteTables.RemoveNoteRoom: the link revocation and cache invalidation that follow are not modelled.
- CollaborationToken.VerifiesIff: JSON is parsed in the compact two-field form the server prints, and numbers are integers
  rather than doubles; other bodies would need the secret to be signed.
- AccelPath.SafeIff: names that are not UTF-8, for which `quote` raises, and Windows paths are not modelled; nor are the
  headers of the response.
- ShardSplit.CatalogKept: for languages kept as shard files only; a language that also has a single legacy file keeps that
  file, so its article phrases would then be stored twice.  Key order inside a file is not modelled.
- RoomAccess.FieldSurvives: payload values are strings or `None`; `str()` of other values is not modelled.
