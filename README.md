# nheko room-state cache and timeline text helpers, in Dafny

This project models two parts of the nheko Matrix client.

**The room-state cache** (`src/Cache.cc`).
- The cache keeps one storage environment per account, under `<cache root>/<hex(utf8(user id))>/state`.
- The environment has three kinds of table:
  - a meta table (`state`) holding the sync token;
  - a `rooms` table from room id to serialized room state;
  - one membership table per room, from user id to serialized member event.
- `setup` opens the environment. An incompatible environment is meant to be wiped and opened once more, but the listing the wipe uses, as written, names no file (see Findings).
- `setState` writes a sync batch in one transaction. If any engine call fails, the cache unmounts and deletes its data.
- `removeRoom` deletes a room record.
- `states` reads everything back. Unreadable member records are skipped; an unreadable room record raises.

**The text helpers of a timeline entry** (`src/timeline/TimelineItem.cc`).
- `replaceEmoji` wraps code points above 9000 in a font span.
- The sender name is taken from a user id.
- The avatar letter is chosen from the name.
- `descriptiveTime` picks a format from a message's age in days.
- Emote and multi-line bodies are rewritten.

Layout:
- `wrappers.dfy` (`Wrappers`): `Option`, `Result`, `Outcome`.
- `paths.dfy` (`CachePaths`): UTF-8 and lower-case hex encoding, each with its decoder, and the cache directory layout.
- `store.dfy` (`CacheStore`): the tables as a value, covering:
  - the membership transition rule;
  - a latest-event-wins reference definition;
  - the committed effect of a batch (`ApplyBatch`);
  - the view `states` returns (`Load`);
  - the lemmas relating these.
- `cache.dfy` (`RoomCache`): the `Cache` class.
  - Its fields are the mount flag, the account directory, whether the state directory exists, and the three tables.
  - Three methods loop. `WriteMemberEvents` and `WriteBatch` are the loops of `insertRoomState` and `setState`, and `States` holds the nested loops of `states`. Each is proved equal to a function of `CacheStore`: `ApplyMemberships`, `WriteRooms` and `Load`.
  - `SetState`, `InsertRoomState`, `RemoveRoom`, `IsInitialized` and `NextBatchToken` have no loop. Their results and new tables are stated through the functions of `CacheStore`: `ApplyBatch`, `WithRoomState`, `RemoveRoomRecord`, `Initialized` and `Token`.
  - `Setup`, `Unmount` and `DeleteData` are stated directly on the fields. They cover the mount flag, the directory, and whether the tables survive.
  - Every engine call of `setState`, including the token write of `setNextBatchToken`, is named by a `StoreOp`. The caller passes the set of these calls that fail.
  - `removeRoom` takes one flag saying whether its transaction fails. `setup` takes the outcomes of its opens and filesystem calls as parameters.
  - `setState` writes into a working copy of the tables. The copy becomes the cache's tables only at commit.
- `timeline.dfy` (`TimelineText`): the helpers as functions, plus the `replaceEmoji` loop as a method proved against its function. It also holds a model of Qt's `QString::arg` for the emote finding below.

## Model

| member | source | states |
|---|---|---|
| CachePaths.DecodeUtf8OfUtf8 | src/Cache.cc:45 | Decoding the UTF-8 form of a user id gives the id back. |
| CachePaths.UnhexOfHex | src/Cache.cc:45 | Reading the lower-case hex form back gives the bytes back. |
| CachePaths.Hex | src/Cache.cc:45 | Two characters per byte, all lower-case hex digits. |
| CachePaths.AccountSegment | src/Cache.cc:47-49 | The account's directory name never contains `/`. |
| CachePaths.Utf8 | src/Cache.cc:45 | The UTF-8 form of an id has between one and four bytes per character; DecodeUtf8OfUtf8 inverts it. |
| CachePaths.CacheDirectory | src/Cache.cc:47-49 | The account directory is a direct child of the cache root: the root, `/`, then the account segment, which holds no `/`. |
| CachePaths.StatePath | src/Cache.cc:43-45 | The environment's directory is the account directory followed by `/state`, so removing the account directory removes it. |
| CachePaths.DirectoryDeterminesAccount | src/Cache.cc:43-49 | Under one cache root, two accounts with the same cache directory or the same state path are the same account. |
| CacheStore.ApplyMembership | src/Cache.cc:139-158 | Invite/Join sets the user's record to the event. Leave/Ban leaves no record, and removing an absent user changes nothing. Knock changes nothing. Other users' records are untouched. |
| CacheStore.LatestWins | src/Cache.cc:127-158 | After a room's events, a user's record is fixed by the last event about that user that is not a knock. A user no event mentions keeps the prior record. |
| CacheStore.ApplyMemberships | src/Cache.cc:127-158 | Every record the room's events add is a parsable invite or join, filed under the event's own state key (LatestWins gives the whole table). |
| CacheStore.InviteJoinLeave | src/Cache.cc:139-152 | Invite then join leaves the join as the user's record. A following leave or ban removes it. |
| CacheStore.KnocksAreIgnored | src/Cache.cc:153-157 | Dropping every knock from a room's events gives the same table. |
| CacheStore.ReplayMembershipsIsIdempotent | src/Cache.cc:127-158 | Applying the same events again to their own result changes nothing. |
| CacheStore.WriteOneMoreRoom | src/Cache.cc:107-108 | Inserting rooms one at a time, in any order, builds the batch's effect. Each step replaces one room record and, when the room has member events, only that room's membership table. |
| CacheStore.BatchTable | src/Cache.cc:127-159 | After a batch, a room of the batch has its prior table with the room's events applied in order. Any other room keeps its table. |
| CacheStore.BatchFrame | src/Cache.cc:105-129 | A batch sets the token and, for every room it names, the room record to the new state. Records of other rooms stay as they were, and so do their membership tables. |
| CacheStore.PutToken | src/Cache.cc:231-237 | Storing the token makes the cache initialized with exactly that token. The rooms and membership tables and the other meta records are untouched. |
| CacheStore.ApplyBatch | src/Cache.cc:103-110 | After a batch the cache is initialized and its next-batch token is the batch's token (BatchFrame, BatchTable and LoadAfterBatch give the rest). |
| CacheStore.BatchCreatesTables | src/Cache.cc:107-129 | A batch adds a membership table exactly for the rooms whose state carries member events. All tables that existed stay. |
| CacheStore.TokenlessStoreIsUninitialized | src/Cache.cc:239-263 | Any store without a next-batch token key is not initialized and reports an empty token. |
| CacheStore.EmptyStoreIsUninitialized | src/Cache.cc:51-64 | The empty store a fresh state directory holds is not initialized, reports an empty token, and reads back no rooms. |
| CacheStore.BatchIsIdempotent | src/Cache.cc:96-160 | Delivering the same batch twice leaves the same tables as delivering it once. |
| CacheStore.Load | src/Cache.cc:175-229 | The read fails only because some room record does not parse (LoadContents gives the rest). |
| CacheStore.LoadContents | src/Cache.cc:175-229 | The read fails exactly when some room record does not parse. Otherwise it returns exactly the rooms of the rooms table, each with its state and exactly the member records that parse. |
| CacheStore.LoadAfterBatch | src/Cache.cc:96-229 | After a batch, the read succeeds exactly when the rooms outside the batch were readable. Each room of the batch reads back with the batch's state, and each user's membership resolves from the prior table by the latest-event rule. |
| CacheStore.NewRoomRoundTrip | src/Cache.cc:119-229 | A room seen for the first time reads back exactly the users whose last non-knock event is an invite or join, each with that event. |
| CacheStore.RemoveRoomRecord | src/Cache.cc:168-172 | Only the named room's record goes; every other record is kept as it was. |
| CacheStore.RemoveRoomEffect | src/Cache.cc:162-173 | Removing a room leaves the token and all membership tables. A successful read afterwards returns the same rooms minus that one. |
| CacheStore.OrphanedTableResurfaces | src/Cache.cc:119-173 | The membership table a removal leaves behind is read again when a later batch names the room without member events. |
| RoomCache.Cache.constructor | src/Cache.cc:30-36 | A new cache is not mounted, has no cache directory yet, and sees whatever environment an earlier run left. |
| RoomCache.Cache.Setup | src/Cache.cc:38-94 | A missing state directory is created; if that fails, setup raises and the tables stay empty. A fresh directory holds an empty environment. An open error other than version-mismatch or invalid raises with the tables unchanged. Version-mismatch or invalid wipes the directory (raising if a file cannot be deleted) and retries the open once. The cache is mounted exactly when setup succeeds. |
| RoomCache.EntryList | src/Cache.cc:78 | `QDir::entryList` lists exactly the names of the entries its filter admits, and no more names than the directory has entries. A regular file needs the Files flag, a directory the Dirs flag, a special entry the System flag; NoDotAndDotDot drops `.` and `..`, and a name starting with `.` needs the Hidden flag. |
| RoomCache.AsWrittenListsNothing | src/Cache.cc:78-82 | The listing as written, with NoDotAndDotDot alone, is empty for every directory, so the wipe loop deletes nothing. |
| RoomCache.IntendedListsEveryFile | src/Cache.cc:76-84 | With Files added to the filter, the listing names exactly the regular files of the state directory whose names are not hidden. |
| RoomCache.WipeListingCounterexample | src/Cache.cc:78-84 | For a directory holding `data.mdb` and `lock.mdb`, the listing as written names neither file, while the intended listing names both. |
| RoomCache.Cache.Unmount | src/Cache.cc:114 | The cache is no longer mounted and the directory fields are unchanged. The tables survive if their state directory still exists. If it was deleted while the environment was open, the tables are now empty. |
| RoomCache.Cache.DeleteData | src/Cache.cc:265-272 | Without a cache directory nothing happens. Otherwise the state directory is gone, and the tables are empty unless the environment is still open. |
| RoomCache.Cache.WriteMemberEvents | src/Cache.cc:127-159 | Gets through exactly when no open or write for the room's events fails, and then the table is the events applied in order by the transition rule. |
| CacheStore.WithRoomStateEffect | src/Cache.cc:119-160 | The committed effect of `insertRoomState` on one room: its record becomes the new attributes, its membership table is the old one (empty if none) updated by its events, the table exists afterwards exactly when it existed or an event arrived, and no other room and no meta entry changes. |
| RoomCache.Cache.InsertRoomState | src/Cache.cc:119-160 | Succeeds exactly when none of its engine calls fails, and then the working tables have the room inserted. |
| RoomCache.Cache.Abandon | src/Cache.cc:111-116 | From a mounted cache: the cache ends unmounted, its state directory is gone, and its tables are empty. |
| RoomCache.Cache.WriteBatch | src/Cache.cc:107-108 | Gets through exactly when no call for any room of the batch fails, and then holds every room of the batch. |
| RoomCache.Cache.SetState | src/Cache.cc:96-117 | Unmounted: nothing changes. It commits exactly when no engine call of the batch fails, and then the tables are `ApplyBatch` of the old tables. Otherwise the cache ends unmounted with its state directory deleted and empty tables, never partly updated. |
| RoomCache.Cache.RemoveRoom | src/Cache.cc:162-173 | Unmounted: nothing changes. An engine error is reported and changes nothing. Otherwise only the room's record is deleted. |
| RoomCache.Cache.States | src/Cache.cc:175-229 | Returns exactly the read-back view `Load` of the cache's tables (see LoadContents), changing nothing. |
| RoomCache.Cache.IsInitialized | src/Cache.cc:239-250 | Returns `Initialized` of the cache's tables: true exactly when the meta table holds a next-batch token. It is true after any committed batch (ApplyBatch) and false on an empty store (EmptyStoreIsUninitialized). |
| RoomCache.Cache.NextBatchToken | src/Cache.cc:252-263 | Returns `Token` of the cache's tables: the stored token, or the empty string when there is none. After a committed batch this is the batch's token. |
| TimelineText.ReplaceEmoji | src/timeline/TimelineItem.cc:384-403 | The loop's result is the markup `Emojified`: each code point rendered in order. A code point above 9000 becomes the span prefix with the emoji size, the code point, then `</span>`; any other code point stays itself. |
| TimelineText.Emojified | src/timeline/TimelineItem.cc:389-402 | The markup is never shorter than the body. |
| TimelineText.EmojifiedLength | src/timeline/TimelineItem.cc:391-400 | The markup is longer than the body exactly when the body holds a code point above 9000. |
| TimelineText.EmojifiedAppend | src/timeline/TimelineItem.cc:391-402 | The markup of `a + b` is the markup of `a` followed by that of `b`. |
| TimelineText.EmojifiedPlain | src/timeline/TimelineItem.cc:391-402 | A body with no code point above 9000 is returned unchanged. |
| TimelineText.EmojiOnlyInSpans | src/timeline/TimelineItem.cc:393-397 | In the markup, a code point above 9000 comes only after some `<`, because it sits inside a span. |
| TimelineText.StripEmojiSpansOfEmojified | src/timeline/TimelineItem.cc:389-400 | The markup of any body reads back to exactly the body, so no code point is lost or reordered. This holds also for bodies that already carry markup, such as links, `<br/>` or a notice's `<i>`. |
| TimelineText.Split | src/timeline/TimelineItem.cc:344-345 | `QString::split` always gives at least one piece, so indexing piece 0 is safe (JoinSplit and SplitHead give the pieces). |
| TimelineText.JoinSplit | src/timeline/TimelineItem.cc:344-345 | Splitting keeps empty parts and loses nothing: joining the pieces gives the string back, and no piece holds the separator. |
| TimelineText.SplitHead | src/timeline/TimelineItem.cc:344-345 | The first piece is the text before the first separator. There is more than one piece exactly when the separator occurs, and the remaining pieces are the split of the rest. |
| TimelineText.SenderName | src/timeline/TimelineItem.cc:340-346 | The name shown is never longer than the name given. For a user id it holds neither `:` nor `@`. |
| TimelineText.SenderNameIsLocalpart | src/timeline/TimelineItem.cc:340-346 | For a name starting with `@`, the size guard always holds, and the name shown is the text after `@` up to the first `:` or next `@`. Any other name is shown unchanged. |
| TimelineText.SenderNameOfUserId | src/timeline/TimelineItem.cc:340-346 | `@alice:server` is shown as `alice`: any localpart without `:` or `@` is recovered. |
| TimelineText.ToUpper | src/timeline/TimelineItem.cc:411 | Lower-case ASCII letters map to their upper-case letters; every other character is unchanged. |
| TimelineText.AvatarLetter | src/timeline/TimelineItem.cc:411-416 | The avatar letter is never a lower-case ASCII letter. |
| TimelineText.AvatarLetterOfSenderName | src/timeline/TimelineItem.cc:411-416 | For a non-empty name, the avatar letter is the upper-cased first letter of the sender name shown beside it. This holds except for a user id with an empty localpart. |
| TimelineText.DescriptiveTime | src/timeline/TimelineItem.cc:465-474 | Age 0 → time of day; age 1 or negative → Yesterday; 2 to 364 → day/month; 365 or more → day/month/year. The four ranges are exclusive and exhaustive. |
| TimelineText.DescriptiveTimeMonotonic | src/timeline/TimelineItem.cc:465-474 | For non-negative ages, an older message never shows less of its date than a newer one. |
| TimelineText.BreakLines | src/timeline/TimelineItem.cc:92 | After every line feed becomes `<br/>`, no line feed is left. |
| TimelineText.BreakLinesAppend | src/timeline/TimelineItem.cc:92 | The rewrite works piece by piece: rewriting `a + b` is rewriting `a`, then `b`. |
| TimelineText.BreakLinesPlain | src/timeline/TimelineItem.cc:92 | Text without line feeds is unchanged. |
| TimelineText.EmoteBody | src/timeline/TimelineItem.cc:83 | The intended emote body: `* `, the display name, a space, then the body. |
| TimelineText.QtArg | src/timeline/TimelineItem.cc:250 | `QString::arg` as the emote constructors call it (also at line 83): text without a place marker is returned unchanged; otherwise every occurrence of the lowest-numbered marker is replaced by the argument. |
| TimelineText.EmoteBodyAsWritten | src/timeline/TimelineItem.cc:250 | The chained `arg` calls of the emote constructors always produce text starting with `* `, whatever the name and body hold. |
| TimelineText.QtArgPlainPrefix | src/timeline/TimelineItem.cc:250 | `arg` leaves text without `%` that precedes the markers untouched. |
| TimelineText.EmoteBodyAsWrittenPlain | src/timeline/TimelineItem.cc:250 | For a display name without `%`, the chained `arg` calls build exactly the intended emote body. |
| TimelineText.EmoteFirstArg | src/timeline/TimelineItem.cc:250 | The first `arg` call puts its argument, whatever it holds, in place of `%1` of the template `* %1 %2`. |
| TimelineText.EmoteBodyAsWrittenCounterexample | src/timeline/TimelineItem.cc:250 | With display name `%1` and any body `b`, the chained `arg` calls build `* b %2` where `* %1 b` was meant; for `waves` the two differ. |

## Left out

- Engine internals: memory mapping, the 128 MB map size and the limit of 1024 tables (src/Cache.cc:53-55), cursors, and reader/writer concurrency. Tables are maps, and a transaction is a copy that becomes the tables at commit.
- Filesystem calls: `QStandardPaths`, `QFile::exists`, `mkpath`, the per-file `remove` and `removeRecursively` are not modelled. Their outcomes are `Setup`'s boolean parameters and the `stateDirExists` field.
- A wipe that fails halfway leaves some files deleted. The model keeps the old tables in that case.
- The cache root is where `QStandardPaths` finds it, passed as a parameter. The paths assume a root without `%`. `QString("%1/%2").arg(root).arg(segment)` would re-scan a `%` the root brings in, the same re-scanning behind the emote row of Findings.
- JSON and `RoomState` serialization (nlohmann::json, `serialize`/`parse`) are foreign code. A stored record is either the encoding of a value or bytes that do not parse. They are not written out, and the exception `data.dump()` could raise is not modelled.
- The batch table from user id to member event is modelled by its values in iteration order. The database key is the event's own state key.
- `states`, `isInitialized` and `nextBatchToken` do not check the mount flag. The model requires the cache to be mounted instead of saying what an unmounted environment returns.
- `states` opens each membership table with `MDB_CREATE` inside a read-only transaction. The engine refuses that for a room whose table was never created. The model reads such a table as empty.
- RoomCache.Cache.Setup: the table-creation transaction (src/Cache.cc:87-91) is assumed to succeed. Calling setup on a cache that is already mounted is not modelled.
- The body of `unmount` is not part of this model. `Unmount` takes it to clear the mount flag and to close the environment. Once closed, an environment whose directory was deleted is taken to be gone.
- Engine errors on the read paths are not modelled. These are: the read-only transactions, the `dbi::open`, cursor and `dbi_get` calls of `states`, `isInitialized` and `nextBatchToken` (src/Cache.cc:180-197, 226, 242-247, 255-260). They can raise `lmdb::error`, which propagates to the caller; in the model these reads always succeed, apart from the room record that does not parse.
- RoomCache.Cache.Setup: the wipe is taken to delete every regular file of the state directory whose name is not hidden, as the intended listing (`IntendedFilter`) names them. The listing as written deletes nothing (see Findings).
- `setNextBatchToken` (src/Cache.cc:231-237) is modelled as `PutToken`. The `WriteToken` fault stands for its one engine call, which can fail.
- A room id equal to a table name (`state`, `rooms`) would share that table's namespace. This is not modelled.
- TimelineText.AvatarLetter: indexes the name by Unicode scalar value, while `userName[0]`, `userName[1]` and `size()` count UTF-16 code units. For a name whose first letter lies above U+FFFF, such as `🦊x`, the source upper-cases the high surrogate and the model returns the whole character.
- RoomCache.EntryList: symbolic links are taken as the entry they point to; QDir's permission, sorting and name-filter options are not modelled.
- TimelineText.ToUpper: covers ASCII letters only, not the full Unicode case mapping of `QChar::toUpper`.
- Strings are sequences of Unicode scalar values. Lone UTF-16 surrogates, which `toUcs4` turns into replacement characters, are not modelled.
- TimelineText.QtArg: models place markers `%1` to `%9`. It omits `%0`, markers whose digit is any other Unicode decimal digit, two-digit markers, `%L` markers, and Qt's warning when no marker is found.
- `conf::emojiSize` is a parameter; include/Config.h is not part of this model.
- `toHtmlEscaped`, the `URL_REGEX` link rewriting and `trimmed` are Qt library code.
- All widget work: layouts, fonts, labels, avatars, `paintEvent`, `QSettings`, `TimelineViewManager::displayName`, and `QDateTime` formatting and clock. The display name and the age in days are inputs.
- The text-message summary `": %1".arg(body)` (src/timeline/TimelineItem.cc:296) is not modelled.
- include/timeline/TimelineItem.h, include/RoomList.h and include/UserSettingsPage.h hold widget declarations and settings only.

## Findings

| source | as written | input that shows it | evidently intended | confidence | as-written member | corrected member |
|---|---|---|---|---|---|---|
| src/timeline/TimelineItem.cc:250 | The emote body is `QString("* %1 %2").arg(displayName).arg(body)`. The second `arg` replaces the lowest-numbered marker left in the string, which can be one the display name brought in. The same construction appears at line 83. | display name `%1`, body `waves` gives `* waves %2` | `* %1 waves`: `* `, the display name, a space, the body | not executed; follows Qt's documented `arg` semantics | TimelineText.EmoteBodyAsWrittenCounterexample | TimelineText.EmoteBody |
| src/Cache.cc:78 | The wipe lists the files to delete with `stateDir.entryList(QDir::NoDotAndDotDot)`. That filter names no entry type, and `entryList` admits a file only with `QDir::Files` and a directory only with `QDir::Dirs`. So the listing is empty, nothing is deleted, and the retry at line 84 opens the same incompatible environment and raises again. | a state directory holding `data.mdb` and `lock.mdb` whose open fails with version-mismatch | `QDir::Files` combined with `QDir::NoDotAndDotDot`: every regular file whose name is not hidden, `data.mdb` and `lock.mdb` among them, is deleted, and the retry opens a fresh environment | not executed; follows Qt's QDir filter semantics | RoomCache.WipeListingCounterexample | RoomCache.IntendedListsEveryFile |
