# inveni — a verified model of the version tracker's core

inveni keeps backup versions of files the user selects. For every tracked
file it stores an index entry in `tracked_files.json`:

- the file's versions, keyed by content hash in insertion order;
- for each version: timestamp, user, commit message, metadata and a `deleted` flag;
- `last_updated`.

This project models four parts of the program:

- **Version manager** (`core/version_manager.py`):
  - `has_file_changed`;
  - the index store (`load_tracked_files` / `save_tracked_files`);
  - `add_version`;
  - the retention run `_enforce_backup_limit`, which marks every active version beyond the newest `max_backups` as deleted;
  - `get_active_file_versions`.
- **Version tags** (`models/metadata.py`, `VersionTag`): normalised tags without repeats, and the dictionary round trip.
- **Restore page helpers** (`ui/pages/restore_page.py`):
  - status text, row tag and the restorability test;
  - the filter and search;
  - display order, short hash and count label.
- **Commit page helpers** (`ui/pages/commit_page.py`):
  - message suggestions and the past-message de-duplication;
  - backup counts;
  - the guard in front of a commit;
  - the order of the commit steps.

A Python dict with string keys becomes a `seq` of unique-keyed pairs (it keeps insertion order) or a `map`. Python's stable `sort(reverse=True)` becomes `StableSort.SortNewestFirst`, an insertion sort proved to be a stable, descending permutation.

Timestamps are strings. The canonical layout `YYYY-MM-DD HH:MM:SS` is parsed into an integer key, with `datetime`'s range checks applied. A string that fails to parse models the cases where `strptime` raises.

The clock, the user name, the content hash, the existence of a backup file and the local-time rendering are all parameters.

Files:

| file | contents |
|---|---|
| `wrappers.dfy` | `Option` |
| `text.dfy` | `strip`, `lower`, substring test, character replace |
| `timestamps.dfy` | timestamp parse/format |
| `stable_sort.dfy` | the stable newest-first sort |
| `version_index.dfy` | the index data model, `add_version`'s in-memory update, the candidate list |
| `retention.dfy` | the retention rule |
| `version_manager.dfy` | `has_file_changed`, the loops, the store and the `VersionManager` class |
| `version_tag.dfy` | `VersionTag` |
| `restore_view.dfy` | restore page helpers |
| `commit_flow.dfy` | commit page helpers, `BackupStore`, the commit sequence |

### Where the code and its description differ (the model follows the code)

- `add_version` catches every exception, including a failed save, and returns `[]`. The save failure does not propagate to the caller.
- An active version with a missing or unparseable timestamp is handled in two different ways:
  - `has_file_changed` sorts with `strptime` as the key, so the error ends in its `except` branch. The result is `(True, current, "")`, not a comparison with the other versions.
  - Retention and `get_active_file_versions` skip such a version.
- `get_formatted_time(use_utc=True)` and `get_current_username()` are called at core/version_manager.py:138-139. They do not match the zero-argument `get_formatted_time` of utils/time_utils.py:29, and `get_current_username` is not there at all. Commit time and user are therefore inputs.
- Two commits in the same second have equal sort keys, and the stable sort keeps the older entry first. So the version just added can be the one retention marks deleted. That happens when `max_backups` or more other active versions sort before it, counting earlier-added versions from the same second. `Retention.SameSecondCommitIsRetired` proves the smallest case: with a cap of 1 and one existing version in the same second, the new version is marked.

## Model

| member | source | states |
|---|---|---|
| Timestamps.ParseTimestamp | core/version_manager.py:254 | a timestamp that parses is never before `datetime.min` |
| Timestamps.FormatThenParse | utils/time_utils.py:29-31 | a time with a four-digit year, written in the `%Y-%m-%d %H:%M:%S` layout, parses back to the key of its own fields |
| Timestamps.KeyIsChronological | core/version_manager.py:268 | comparing keys is comparing the dates field by field, year first |
| StableSort.SortNewestFirst | core/version_manager.py:268 | the sort is a permutation of its input |
| StableSort.SortIsStable | core/version_manager.py:268 | the result is newest first, and versions with the same time keep their input order (Python's stable sort with `reverse=True`) |
| StableSort.FirstIsNewest | core/version_manager.py:64-70 | `sorted(...)[0]` has the largest key, and no earlier element has that key |
| VersionIndex.FindHash | core/version_manager.py:156 | `versions.get(h)` finds the position holding `h`, and finds none exactly when `h` is absent |
| VersionIndex.UpsertExisting | core/version_manager.py:156-167 | re-adding a hash keeps the entry count and every other entry. Timestamp, user and metadata are overwritten and `deleted` is cleared. The message changes only when the new one is non-empty |
| VersionIndex.UpsertNew | core/version_manager.py:168-177 | a new hash adds exactly one entry at the end: given message, commit time, not deleted. Earlier entries are unchanged |
| VersionIndex.UpsertKeepsUnique | core/version_manager.py:156-177 | hashes stay unique and the committed hash is present |
| VersionIndex.CommitVersionFrame | core/version_manager.py:144-180 | afterwards the file's entry exists, holds the hash and has `last_updated` equal to the commit time. Every other path is untouched |
| VersionIndex.ActiveValidMembers | core/version_manager.py:246-259 | the retention candidates are exactly the non-deleted versions whose timestamp is present, non-empty and parses, each with its parsed time |
| VersionIndex.RetentionOrderMembers | core/version_manager.py:262-268 | the sorted candidate list holds each candidate once, newest first |
| VersionIndex.NewestFirstActiveMembers | core/version_manager.py:350-372 | `get_active_file_versions` returns a pair exactly when the pair is a non-deleted version with a valid timestamp |
| VersionIndex.NewestFirstActiveOrder | core/version_manager.py:368-372 | ... each hash once, all active and valid, in non-increasing time order |
| Retention.EffectiveCap | core/version_manager.py:211-225 | the cap is positive. It is 3 with no settings manager and for a non-positive or unconvertible setting, and otherwise the setting |
| Retention.WithinCapIsNoOp | core/version_manager.py:262-273 | with at most `cap` candidates nothing changes and `[]` is returned |
| Retention.RetainMarksOldest | core/version_manager.py:275-285 | with more than `cap` candidates, exactly those past position `cap` of the sorted list are returned, in order, each once. Each was an active version with a valid timestamp, and none of the newest `cap` is among them |
| Retention.RetainOnlyMarks | core/version_manager.py:279-285 | retention only flips `deleted` to true on the returned hashes. It never reorders, removes or un-deletes, and never touches an entry with an invalid timestamp |
| Retention.SurvivorIsKept | core/version_manager.py:276 | a candidate left after the run is one of the newest `cap` |
| Retention.RetainLeavesAtMostCap | core/version_manager.py:270-285 | after a run at most `cap` candidates remain |
| Retention.RetainIdempotent | core/version_manager.py:268-273 | a second run straight after a run changes nothing and returns `[]` |
| Retention.StrictlyNewestLeads | core/version_manager.py:268 | a candidate strictly newer than all others heads the sorted list |
| Retention.CommitIsNewest | core/version_manager.py:184-189 | a commit strictly later than every other active version survives retention (cap at least 1) and then heads `get_active_file_versions` |
| Retention.SameSecondCommitIsRetired | core/version_manager.py:268-276 | with cap 1, committing a second version in the same second as an existing one marks the new version deleted |
| Manager.ActiveEntriesMembers | core/version_manager.py:56-59 | the active list of `has_file_changed` is exactly the non-deleted versions |
| Manager.NoActiveVersionMeansChanged | core/version_manager.py:48-62 | an untracked file, or one with no version or no active version, gives `(True, current, "")` |
| Manager.NewestActive | core/version_manager.py:64-70 | the sort's head is the newest active version, and the first in insertion order among equally new ones |
| Manager.ComparesWithNewestActive | core/version_manager.py:64-72 | otherwise the last hash is that newest active version's, and `changed` holds exactly when the current hash differs from it |
| Manager.StrictlyNewestIsLast | core/version_manager.py:64-72 | a version strictly newer than every other active one is reported as unchanged against itself |
| Manager.UnchangedAfterCommit | core/version_manager.py:156-189 | after a commit strictly later than the other active versions, the check on the same content reports `(False, h, h)`, whether or not retention then marked anything |
| Manager.CollectActive | core/version_manager.py:246-259 | the collecting loop builds exactly the candidate list |
| Manager.MarkExcess | core/version_manager.py:276-285 | the marking loop marks and returns exactly the candidates past the cap |
| Manager.ApplyRetention | core/version_manager.py:245-285 | one run of the loops equals the retention rule `Retain` |
| Manager.VersionManager.LoadTrackedFiles | core/version_manager.py:80-100 | loading returns the stored index, or `{}` when the file is missing, corrupt or unreadable. A corrupt file is renamed to `<path>.corrupted_<time with '-' for ':'>` |
| Manager.VersionManager.SaveTrackedFiles | core/version_manager.py:102-119 | a save that can write replaces the whole index, so a later load returns it; a failed save leaves the store as it was. Each save's success is an input of its own |
| Manager.VersionManager.EnforceBackupLimit | core/version_manager.py:197-303 | reloads and applies `Retain` with the effective cap. It saves with a new `last_updated` only if something was marked, and returns `[]` when that save fails. The reload's rename of a corrupt file uses its own clock reading |
| Manager.AddVersionCases | core/version_manager.py:121-195 | the three outcomes of `add_version`. A failed first save returns `[]` and keeps the loaded index. A successful first save followed by no marks or a failed retention save returns `[]` and keeps the new version unmarked, so retention never blocks a commit. Otherwise the marked hashes are returned and the index holds retention's result |
| Manager.VersionManager.AddVersion | core/version_manager.py:121-195 | returns `AddVersionMarks` and leaves `AddVersionDisk` (the outcomes above). The two saves succeed or fail independently, and the clock is read separately for the commit, the reload's rename and retention |
| Manager.VersionManager.GetActiveFileVersions | core/version_manager.py:334-376 | the active versions with a valid timestamp, newest first, or `[]` for an untracked file |
| Tagging.NormalizeIdempotent | models/metadata.py:59 | `strip().lower()` applied twice equals once, so a stored tag is already normalised |
| Tagging.WithTagMembers | models/metadata.py:57-61 | `add_tag` adds only the normalised tag, only when it is non-empty. The old tags stay in order |
| Tagging.WithTagIdempotent | models/metadata.py:60 | adding a tag that is present changes nothing |
| Tagging.WithoutTagRemoves | models/metadata.py:64-68 | on a list without repeats, `remove_tag` removes the normalised tag and keeps every other tag, still without repeats |
| Tagging.RemoveFirstAt | models/metadata.py:68 | `list.remove` cuts out the first occurrence and keeps the order of the rest |
| Tagging.EditsKeepTagListOk | models/metadata.py:57-68 | both edits keep the tags non-empty, normalised and free of repeats |
| Tagging.RemoveAfterAdd | models/metadata.py:57-69 | removing a tag just added restores the previous list |
| Tagging.Decode | models/metadata.py:80-87 | `from_dict` fails exactly when `version_hash` is absent. Absent tags become `[]`, and absent times become the construction time |
| Tagging.DecodeEncode | models/metadata.py:71-87 | `from_dict(to_dict(t))` gives back hash, tags and both times, whatever the clock says |
| Tagging.EncodeDecode | models/metadata.py:71-87 | `to_dict(from_dict(d))` keeps every key present in `d` and fills in the rest |
| Tagging.VersionTag.constructor | models/metadata.py:51-55 | a new tag set has no tags and both times equal to the construction time |
| Tagging.VersionTag.AddTag | models/metadata.py:57-62 | the tags become `WithTag(old tags, raw)`. `last_modified` moves to the clock exactly when the list changed; hash and creation time stay |
| Tagging.VersionTag.RemoveTag | models/metadata.py:64-69 | the tags become `WithoutTag(old tags, raw)`. `last_modified` moves to the clock exactly when the tag was present |
| Tagging.VersionTag.ToDict | models/metadata.py:71-78 | the dictionary decodes back to the object's state |
| Tagging.VersionTag.FromDict | models/metadata.py:80-87 | no object when `version_hash` is absent, otherwise a fresh object whose state is `Decode(d, now)` |
| RestoreView.RestorableIffBackupExists | ui/pages/restore_page.py:1153-1161 | the test `'available' in tags or ('deleted' in tags and "Available" in status)` holds exactly when the backup exists, for active and deleted versions alike |
| RestoreView.StatusAgreesWithTag | ui/pages/restore_page.py:915-947 | the status says "Deleted" exactly for deleted versions; the tag is `available` exactly for an active version with a backup |
| RestoreView.RowRestorable | ui/pages/restore_page.py:905-951 | every row built for the tree is restorable exactly when its backup exists |
| RestoreView.FilterVersions | ui/pages/restore_page.py:787-858 | the filter loop keeps exactly `Filtered(...)` for the lower-cased search text, with the placeholder read as empty |
| RestoreView.FilteredMembers | ui/pages/restore_page.py:808-855 | a version is kept exactly when it passes the option and the search (text in message, user, local time or hash, all lower-cased) |
| RestoreView.FilteredAppend | ui/pages/restore_page.py:808-855 | filtering distributes over concatenation, so the result is a subsequence in the loaded order |
| RestoreView.AllWithoutSearchKeepsAll | ui/pages/restore_page.py:841 | "All Versions" with no search text shows every loaded version |
| RestoreView.PlaceholderIsNoSearch | ui/pages/restore_page.py:794-799 | the placeholder text is no search |
| RestoreView.FilterOptionsMean | ui/pages/restore_page.py:814-838 | "Available Only" shows only active versions with a backup, which are restorable; "Deleted Only" only deleted ones; "My Versions" only the user's own |
| RestoreView.DisplayOrder | ui/pages/restore_page.py:884-887 | the display is sorted exactly when every present timestamp parses, since otherwise `strptime` raises |
| RestoreView.DisplayOrderSpec | ui/pages/restore_page.py:884-887 | the rows are a newest-first permutation of the filtered versions, stable on equal times |
| RestoreView.MissingTimestampSortsLast | ui/pages/restore_page.py:887 | a version without a timestamp sorts no earlier than one with a parsed time |
| RestoreView.ShortHash | ui/pages/restore_page.py:927 | the hash column is the first 12 characters of the hash (all of a shorter hash) followed by "..." |
| RestoreView.BuildRows | ui/pages/restore_page.py:888-899 | one row per sorted version, in that order |
| RestoreView.CountText | ui/pages/restore_page.py:902 | the count is written in decimal without leading zeros and reads back as the number |
| RestoreView.CountLabelCounts | ui/pages/restore_page.py:875-902 | the label is "<number of rows shown> versions shown", and "0 versions shown" for none |
| CommitFlow.LastIndexOf | ui/pages/commit_page.py:680 | the last occurrence of a character, with none after it |
| CommitFlow.Basename | ui/pages/commit_page.py:681 | `os.path.basename` is a '/'-free suffix that is the whole path or has a '/' just before it, so it starts after the last '/' |
| CommitFlow.BaseExtension | ui/pages/commit_page.py:680 | the extension of a base name is non-empty exactly when some dot has a non-dot character before it, and is then the name from its last dot |
| CommitFlow.ExtensionSpec | ui/pages/commit_page.py:680 | `splitext(path)[1]` is non-empty exactly when the base name has a dot with a non-dot character before it. It is then the base name from its last dot, a '/'-free suffix of the path |
| CommitFlow.UniqueNonEmpty | ui/pages/commit_page.py:725-731 | the `seen` loop computes `Dedup` |
| CommitFlow.DedupSpec | ui/pages/commit_page.py:778-783 | de-duplication keeps exactly the non-empty items, each once |
| CommitFlow.DedupPrefix | ui/pages/commit_page.py:778-783 | earlier items come first: what is kept of a prefix is a prefix of what is kept of the whole |
| CommitFlow.DedupFirstOrder | ui/pages/commit_page.py:778-783 | the kept items come in the order of their first occurrences |
| CommitFlow.PastMessagesSpec | ui/pages/commit_page.py:754-787 | the past messages of a tracked file are exactly the non-empty messages of its active versions with a valid timestamp, each once. They are ordered by first occurrence in `get_active_file_versions`, so newest first. An untracked file has none |
| CommitFlow.DedupOfUnique | ui/pages/commit_page.py:725-731 | a list without repeats or empty items is left unchanged |
| CommitFlow.CategoryOf | ui/pages/commit_page.py:690-722 | exactly one category applies: image, then document, then code by the lower-cased extension, else the default |
| CommitFlow.RecentSpec | ui/pages/commit_page.py:687-688 | the recent messages are exactly the non-empty ones among `past_messages[:2]`, in order and distinct |
| CommitFlow.ContextualSuggestionsSpec | ui/pages/commit_page.py:673-732 | the suggestions start with the file's first two past messages from the index (all of them when fewer) and have no repeats. They consist of exactly those messages and the chosen category's suggestions |
| CommitFlow.MatchingSpec | ui/pages/commit_page.py:805-810 | a suggestion is offered exactly when it contains the typed text case-insensitively and is not equal to it |
| CommitFlow.SuggestMessagesSpec | ui/pages/commit_page.py:795-810 | typed text shorter than two characters keeps the default suggestions; otherwise exactly the contextual suggestions containing it, ignoring case, and not equal to it are offered |
| CommitFlow.Shown | ui/pages/commit_page.py:817 | the first four suggestions get a button: all of them when there are fewer, four otherwise |
| CommitFlow.CountsAgree | ui/pages/commit_page.py:734-752 | the active-version count is at most the fallback count of non-deleted entries, and equal exactly when no active version has an invalid timestamp |
| CommitFlow.BackupCountVsFallback | ui/pages/commit_page.py:734-752 | the same for a tracked path; an untracked path counts 0 |
| CommitFlow.CommitGuardSpec | ui/pages/commit_page.py:1155-1167 | "No valid file selected!" exactly when no file is selected or it does not exist; "Please enter a commit message!" exactly when the message is all whitespace; otherwise a commit starts, with no feedback and with the stripped message |
| CommitFlow.BackupStore.CreateBackup | ui/pages/commit_page.py:1233-1239 | a backup is recorded exactly when creation succeeds |
| CommitFlow.BackupStore.DeleteBackupFiles | ui/pages/commit_page.py:1256-1261 | exactly the given hashes lose their backup |
| CommitFlow.ExecuteCommitSteps | ui/pages/commit_page.py:1228-1270 | the order is backup, then metadata, then `add_version`, then deletion. A failed backup stops everything; a metadata failure leaves the new backup in place and the index untouched. On success the index is what `add_version` leaves, and only the hashes it returned are deleted, once and afterwards |
| CommitFlow.PerformCommit | ui/pages/commit_page.py:1178-1225 | an unchanged file is committed only when the user confirms; a cancelled commit touches no backup and only loads the index. Otherwise the result, the backups and the index are those of the commit steps for the hash the change check computed |

## Left out

- The tkinter UI: widgets, dialogs, tooltips, animations and layout. Threading and `after` scheduling. The file monitor. `app.py`. All of this is presentation or concurrency.
- `os.path.normpath`: paths are taken as already normalised.
- SHA-256 and reading the file: the content hash is an opaque value, and `None` when the file does not exist.
- JSON encoding, the temporary file, `os.replace` and `os.rename`:
  - the store is one abstract value (missing, an index, corrupt or unreadable), and whether each save can write is an input of that save;
  - a failed rename of a corrupt file is not modelled;
  - a value of the wrong JSON type (a timestamp that is a number or `null`, or a `deleted` that is not a bool) is not modelled.
- Timestamps: `strptime` also accepts fields without leading zeros (`2024-1-5 3:4:5`). The model parses only the zero-padded layout the program itself writes.
- `str.lower()` is modelled on ASCII letters only. Unicode case mapping is not modelled.
- `os.path.basename` and `splitext` split on '/' only, not on the Windows separator.
- The "Last 7 Days" filter: it needs the wall clock and time-zone arithmetic.
- `format_timestamp_dual` and the local-time conversion (utils/time_utils.py) are a parameter `local`. Backup existence (`check_backup_exists`) is a parameter `backup`. BackupManager's file operations are the abstract `BackupStore`.
- `format_size` (float arithmetic) and the Size column.
- `get_file_metadata`, `FileMetadata` and `os.stat`: metadata is an input value.
- `_log_error` and every `print`: logging output only.
- In `_get_contextual_suggestions` and `_get_past_commit_messages`, the fallback branch used when the version manager lacks `get_active_file_versions` is not modelled. The shipped manager has it. The backup-count fallback is modelled (`CommitFlow.FallbackBackupCount`).
- `Tagging.VersionTag.ToDict`: returns a copy of the tags. The source hands out its own list, which later tag edits would change through the dictionary too.
