# TgChannelBackup: the incremental backup engine, in Dafny

This project models the engine of TgChannelBackup, a tool that archives a
Telegram channel to disk one post at a time. The engine has five parts.

- **The history walker** (`TelegramService`). It pages through the channel's
  history 100 messages at a time and sorts each page by id. It stops after a
  page with at most one message. When no start id is given, it first probes
  ids 1, 101, 201, … to find the channel's first message.
- **The downloaders** (`PhotoDownloader`, `DocumentDownloader`,
  `MediaDownloader`). They name each photo or document after its id and fetch
  it into a temporary file. They hash it with MD5 and then decide:
  - a new file is written;
  - an identical file is left alone;
  - a differing file is reported, and overwritten only under `Reconcile`.

  `DryRun` suppresses every write.
- **The per-message pipeline** (`MessageProcessor`). It creates the post
  directory `channel_<peer>/<yyyy-MM-dd>/post_<album or id>_<HH-mm-ss>`. It
  downloads the media and writes the serialised message to
  `metadata_<id>[_<fileId>].json`.
- **The checkpoint store** (`BackupDatabase`). It keeps one record per channel
  holding the id of the last message handled.
- **The worker** (`BackupWorker`). It picks the start cursor (the `StartId`
  option, else the stored checkpoint, else 0). It walks the history, archives
  every message while containing its exceptions, and moves the checkpoint after
  each one.

Modules follow the source files. Three more modules model what the engine takes
from .NET:
- `DotNetText`: `long.ToString`, date fields, ASCII case mapping;
- `DotNetPath`: `Path.Combine`, `GetExtension`, `ChangeExtension`;
- `FileSystemModel`: the disk.

The remote messenger objects are in `TL`, and `Wrappers` holds `Option` and
`Result`.

The imperative code becomes methods proved against specification functions:
- `DownloadInternal`, `ProcessMessage`, `ExecuteAsync` and the two paging loops
  are methods;
- the disk is a `FileSystem` class and the checkpoint store a `BackupDb` class,
  both updated in place.

The pure naming and path rules become functions with lemmas about them. Each
method's `ensures` ties its result and the new state to a specification
function (`DownloadSpec`, `ProcessSpec`, `History`, `ArchiveAll`,
`Checkpoints`). The lemmas state what those functions promise.

Some things outside the engine become parameters:
- Telegram calls are the fields of `Remote`.
- MD5 is an uninterpreted `seq<byte> -> seq<byte>`.
- The JSON serialiser returns the UTF-8 bytes of the text, or the message of
  the exception it throws.
- The host's time zone is a `DateTime -> DateTime`.

Where the source's revisions disagree with one another, the model takes the
per-channel reading:
- `BackupWorker.cs:32` and `:51` use a `LastDownloadedId` property that
  `BackupDb` does not have. The model reads and writes the cursor with
  `GetLastDownloadedId` / `SetLastDownloadedId` for `RunOptions.ChannelId`.
- `BackupWorker.cs:37` passes the cursor as `minId:`. It is taken to be the
  `start` parameter of `ScrollHistory`, after the unchecked `(int)` cast, which
  the model writes out as 32-bit wrap-around (`ToInt32`).
- The `DownloadResult` record in `BackupWorker.cs:101-108` lacks the `Write` and
  `HashMismatch` fields that `MediaDownloader.cs:91-92` sets. The model's
  `DownloadResult` has both.
- `BackupWorker.cs:55-98` carries its own copy of `ProcessMessage` and
  `BuildPath`. It differs from `MessageProcessor.cs` only in returning nothing,
  so the worker's `ProcessMessage` is `BuildPath` followed by the message
  processor's pipeline.

Three behaviours of the code worth knowing:
- The checkpoint is overwritten after every message with no monotonicity check
  (`LastWriteWins`, `CheckpointIsLastMessage`).
- The target is replaced by a delete followed by a copy, not by an atomic
  rename.
- A fetch that throws leaves its temporary file behind, because
  `File.Delete(tempPath)` is never reached (`TempsAfter`).

## Model

| member | source | states |
|---|---|---|
| `DotNetText.IntToString` | TgChannelBackup.Core/Downloader/PhotoDownloader.cs:16 | `long.ToString()` is non-empty, starts with '-' exactly for negatives, is otherwise all digits, and has no leading zero except for zero itself |
| `DotNetText.ParseIntToString` | TgChannelBackup.Core/Downloader/PhotoDownloader.cs:16 | parsing the decimal rendering of an id gives the id back |
| `DotNetText.IntToStringInjective` | TgChannelBackup.Core/Downloader/DocumentDownloader.cs:21 | distinct ids render differently |
| `DotNetText.IntToStringSuffixInjective` | TgChannelBackup.Core/Downloader/PhotoDownloader.cs:16 | two renderings followed by the same suffix are equal only for equal ids |
| `DotNetText.IntToStringDelimited` | TgChannelBackup.Core/MessageProcessor.cs:32 | a rendering followed by text that starts with neither a digit nor '-' splits back uniquely into the id and the text |
| `DotNetText.Pad2` | TgChannelBackup.Core/MessageProcessor.cs:52 | the two-digit date fields are two digits that read back as the value |
| `DotNetText.Pad4` | TgChannelBackup.Core/MessageProcessor.cs:52 | the "yyyy" field is four digits that read back as the year |
| `DotNetText.ToLowerInvariant` | TgChannelBackup.Core/Downloader/MediaDownloader.cs:106 | lower-casing keeps the length and maps each character with the ASCII lower-case mapping |
| `DotNetText.EqualsIgnoreCaseOfLowerCase` | TgChannelBackup.Core/Downloader/MediaDownloader.cs:58 | on strings without upper-case letters, the ordinal case-insensitive comparison is plain equality, both ways |
| `DotNetPath.FileNameStartSpec` | TgChannelBackup.Core/Downloader/DocumentDownloader.cs:20 | the last path segment starts just after the last separator and holds none |
| `DotNetPath.LastDotSpec` | TgChannelBackup.Core/Downloader/DocumentDownloader.cs:20 | the dot `GetExtension` and `ChangeExtension` cut at is the last dot of the last segment; without one, that segment has no dot |
| `DotNetPath.GetExtensionSpec` | TgChannelBackup.Core/Downloader/DocumentDownloader.cs:20 | `Path.GetExtension` is empty, or a '.' and at least one character ending the name, with no dot or separator after the '.'; it is empty exactly when the last segment has no dot or ends in one |
| `DotNetPath.ChangeExtensionOfDotlessName` | TgChannelBackup.Core/Downloader/DocumentDownloader.cs:21 | on a name without a dot, `Path.ChangeExtension` appends the extension, putting a '.' in front unless it has one |
| `DotNetPath.CombineWithName` | TgChannelBackup.Core/Downloader/MediaDownloader.cs:43 | a plain name is combined onto a directory with exactly one separator |
| `DotNetPath.CombineInjective` | TgChannelBackup.Core/MessageProcessor.cs:32 | two relative names combined onto the same directory give the same path only when they are the same name |
| `DotNetPath.CombineNames` | TgChannelBackup.Core/MessageProcessor.cs:52 | the four-part `Path.Combine` of three plain names nests them as one relative path |
| `PhotoDownloader.GetFileName` | TgChannelBackup.Core/Downloader/PhotoDownloader.cs:16 | a photo is named `<id>.png` whatever its format, with no separator in the name |
| `PhotoDownloader.FileIdLeadsFileName` | TgChannelBackup.Core/Downloader/PhotoDownloader.cs:14-16 | the file id is the photo's id, and the file name holds it before its first '.', where it reads back as that id |
| `PhotoDownloader.DistinctPhotosHaveDistinctNames` | TgChannelBackup.Core/Downloader/PhotoDownloader.cs:16 | distinct photo ids give distinct file names |
| `PhotoDownloader.PhotoTargetIsInsidePostPath` | TgChannelBackup.Core/Downloader/PhotoDownloader.cs:16 | the photo lies directly inside the post directory |
| `DocumentDownloader.FirstFilenameIndex` | TgChannelBackup.Core/Downloader/DocumentDownloader.cs:19 | finds the first `DocumentAttributeFilename`: nothing before it is one, and without it none is |
| `DocumentDownloader.OriginalFileNameIsFirst` | TgChannelBackup.Core/Downloader/DocumentDownloader.cs:19 | the original name is the name of the first `DocumentAttributeFilename`; there is one exactly when the attribute list exists and holds such an attribute |
| `DocumentDownloader.ExtensionIsPlain` | TgChannelBackup.Core/Downloader/DocumentDownloader.cs:20 | the extension taken from the original name is empty, or a '.' followed by at least one character that is neither a dot nor a separator |
| `DocumentDownloader.GetFileName` | TgChannelBackup.Core/Downloader/DocumentDownloader.cs:16-22 | the cast fails exactly for an empty document; otherwise the name is `<id>` plus the original extension, or `<id>.` without one (the base name dropped, no doubled dot), with no separator |
| `DocumentDownloader.FileIdLeadsFileName` | TgChannelBackup.Core/Downloader/DocumentDownloader.cs:14-21 | the file id is the document's id, and a named document's file name holds it before its first '.', where it reads back as that id |
| `DocumentDownloader.DistinctDocumentsHaveDistinctNames` | TgChannelBackup.Core/Downloader/DocumentDownloader.cs:21 | documents with different ids never share a file name, whatever their extensions |
| `MediaDownloader.GetFileName` | TgChannelBackup.Core/Downloader/MediaDownloader.cs:43 | the media's file name holds no separator |
| `MediaDownloader.FileIdLeadsFileName` | TgChannelBackup.Core/Downloader/MediaDownloader.cs:37-38 | whichever downloader handles the media, the file id it reports is what the file name holds before its first '.' |
| `MediaDownloader.LowerHex` | TgChannelBackup.Core/Downloader/MediaDownloader.cs:106 | the lower-case hex of a digest has two characters per byte, none upper-case and no '-' |
| `MediaDownloader.GetMD5IsLowerHex` | TgChannelBackup.Core/Downloader/MediaDownloader.cs:102-107 | `BitConverter.ToString`, with the dashes removed and the result lower-cased, is exactly two lower-case hex digits per byte |
| `MediaDownloader.LowerHexInjective` | TgChannelBackup.Core/Downloader/MediaDownloader.cs:106 | different digests never render alike |
| `MediaDownloader.HashesMatchIffDigestsEqual` | TgChannelBackup.Core/Downloader/MediaDownloader.cs:58 | the case-insensitive comparison of two rendered hashes holds exactly when the digests are equal |
| `MediaDownloader.Decide` | TgChannelBackup.Core/Downloader/MediaDownloader.cs:51-72 | a new target is written unless in dry run, with no mismatch; an identical one is neither written nor flagged; a differing one is flagged and written exactly under `Reconcile` and not in dry run |
| `MediaDownloader.SetFlags` | TgChannelBackup.Core/Downloader/MediaDownloader.cs:51-72 | the flags set step by step end as `Decide` says |
| `MediaDownloader.Commit` | TgChannelBackup.Core/Downloader/MediaDownloader.cs:74-83 | when writing, the target ends up holding the temporary file's bytes; otherwise the files are unchanged; the temporary file is deleted in both cases |
| `MediaDownloader.DownloadInternalEffect` | TgChannelBackup.Core/Downloader/MediaDownloader.cs:41-94 | an empty document fails with the cast message and a failing fetch with its own message, both leaving the files alone. After a successful fetch: the result carries the id, the target and the lower-hex digest; the mismatch is flagged exactly when the target held another digest; the bytes are written exactly when the target was absent, or differed under `Reconcile`, and not in dry run |
| `MediaDownloader.StoreFetched` | TgChannelBackup.Core/Downloader/MediaDownloader.cs:49-93 | hashing, flag setting and committing change the files and return the result as the specification says, and delete the temporary file |
| `MediaDownloader.DownloadInternal` | TgChannelBackup.Core/Downloader/MediaDownloader.cs:41-94 | the method's result, files and temporary files are those of `DownloadInternalSpec`, with directories unchanged |
| `MediaDownloader.DownloadEffect` | TgChannelBackup.Core/Downloader/MediaDownloader.cs:20-35 | every result carries the media's file id; a failure leaves the files alone; a success leaves no temporary file and names the target inside the post directory, changing the files only by writing the fetched bytes there; a dry run changes no file |
| `MediaDownloader.Download` | TgChannelBackup.Core/Downloader/MediaDownloader.cs:20-35 | whatever `DownloadInternal` throws comes back as a failed result with the message; the new state is `DownloadSpec`'s |
| `MessageProcessor.PostId` | TgChannelBackup.Core/MessageProcessor.cs:47-50 | the post id is the album id when it is nonzero, otherwise the message id |
| `MessageProcessor.DateDirFields` | TgChannelBackup.Core/MessageProcessor.cs:52 | the date directory is `yyyy-MM-dd`: ten characters, dashes at 4 and 7, digits reading back as year, month and day |
| `MessageProcessor.TimeOfDayFields` | TgChannelBackup.Core/MessageProcessor.cs:52 | the time part is `HH-mm-ss`, its digits reading back as hour, minute and second |
| `MessageProcessor.PostDirFields` | TgChannelBackup.Core/MessageProcessor.cs:52 | the post directory splits back into `post_<postId>`, '_' and the time of day |
| `MessageProcessor.PostDirInjective` | TgChannelBackup.Core/MessageProcessor.cs:52 | post directory names differ when the post ids or the times of day differ |
| `MessageProcessor.BuildPath` | TgChannelBackup.Core/MessageProcessor.cs:45-53 | the post path is the base combined with `channel_<peer>/<yyyy-MM-dd>/post_<postId>_<HH-mm-ss>`, none of whose levels holds a separator |
| `MessageProcessor.AlbumSharesDirectory` | TgChannelBackup.Core/MessageProcessor.cs:47-52 | messages of one album posted in the same local second share the post directory |
| `MessageProcessor.MetadataSuffix` | TgChannelBackup.Core/MessageProcessor.cs:32 | what follows the message id is exactly `.json` when there is no file id, and starts with '_' when there is one |
| `MessageProcessor.MetadataFileName` | TgChannelBackup.Core/MessageProcessor.cs:32 | the metadata name starts with 'm' and holds no separator |
| `MessageProcessor.MetadataFileNameLayout` | TgChannelBackup.Core/MessageProcessor.cs:32 | the metadata name is `metadata_`, then the message id, then `_` and the file id when there is one, then `.json` |
| `MessageProcessor.MetadataSuffixInjective` | TgChannelBackup.Core/MessageProcessor.cs:32 | the suffix determines whether a file id is present and which one |
| `MessageProcessor.MetadataFileNameInjective` | TgChannelBackup.Core/MessageProcessor.cs:32 | distinct messages, or distinct files of one message, never share a metadata name |
| `MessageProcessor.MetadataNeverNamedLikeMedia` | TgChannelBackup.Core/MessageProcessor.cs:32 | no metadata name equals a downloaded file's name |
| `MessageProcessor.Downloadable` | TgChannelBackup.Core/MessageProcessor.cs:16-23 | only photo and document media go to a downloader, and they go unchanged |
| `MessageProcessor.ProcessMessageEffect` | TgChannelBackup.Core/MessageProcessor.cs:10-43 | the result is null without downloadable media and otherwise the downloader's result; it fails exactly when, outside dry run, the serialiser throws after a successful or absent download, and carries the serialiser's message; the post directory is created exactly outside dry run; a dry run and a failed download change no file; otherwise the metadata is written at its path on top of the downloaded files |
| `MessageProcessor.MetadataKeepsDownload` | TgChannelBackup.Core/MessageProcessor.cs:22-38 | the metadata write leaves a file just downloaded with the fetched bytes |
| `MessageProcessor.ProcessMessage` | TgChannelBackup.Core/MessageProcessor.cs:10-43 | the method's result, files and directories are those of `ProcessSpec` |
| `BackupDatabase.Lookup` | TgChannelBackup.Core/BackupDb.cs:10-14 | a cursor is found only in the channel's own record, a record of the channel gives its cursor, and there is none when no record belongs to the channel |
| `BackupDatabase.Upsert` | TgChannelBackup.Core/BackupDb.cs:16-25 | upserting keeps one record per channel id and adds the record's key |
| `BackupDatabase.NeverSetIsNone` | TgChannelBackup.Core/BackupDb.cs:10-14 | a channel that was never set has no cursor |
| `BackupDatabase.GetAfterSet` | TgChannelBackup.Core/BackupDb.cs:10-25 | after setting a cursor, getting it returns the value set |
| `BackupDatabase.SetLeavesOthers` | TgChannelBackup.Core/BackupDb.cs:16-25 | setting a cursor leaves every other channel's cursor as it was |
| `BackupDatabase.SetIdempotent` | TgChannelBackup.Core/BackupDb.cs:16-25 | setting the same cursor twice is the same as setting it once |
| `BackupDatabase.LastWriteWins` | TgChannelBackup.Core/BackupDb.cs:16-25 | the second write replaces the first, even when it moves the cursor back |
| `BackupDatabase.BackupDb.GetLastDownloadedId` | TgChannelBackup.Core/BackupDb.cs:10-14 | returns the stored record's cursor for the channel, or none |
| `BackupDatabase.BackupDb.SetLastDownloadedId` | TgChannelBackup.Core/BackupDb.cs:16-25 | the store becomes the upsert of the channel's cursor record, still keyed by channel id |
| `TelegramService.OrderByIdSortedPermutation` | TgChannelBackup.Core/TelegramService.cs:79-80 | each page is yielded in ascending id order, holding exactly the messages received |
| `TelegramService.InsertByIdSorted` | TgChannelBackup.Core/TelegramService.cs:79 | inserting a message into a sorted page keeps it sorted |
| `TelegramService.InsertByIdPermutation` | TgChannelBackup.Core/TelegramService.cs:79 | inserting adds exactly that message |
| `TelegramService.MaxId` | TgChannelBackup.Core/TelegramService.cs:85 | the next offset is an id of the page, no smaller than any other |
| `TelegramService.MinId` | TgChannelBackup.Core/TelegramService.cs:113 | the first id found is an id of the response, no larger than any other |
| `TelegramService.WalkEnds` | TgChannelBackup.Core/TelegramService.cs:66-87 | the walk starts at the initial offset, takes at most the page budget, stops by itself only after a page of at most one message, and otherwise uses the whole budget on pages of more than one |
| `TelegramService.WalkSteps` | TgChannelBackup.Core/TelegramService.cs:82-85 | every page but the last has more than one message, and the next request is at its largest id |
| `TelegramService.WalkShape` | TgChannelBackup.Core/TelegramService.cs:66-87 | the whole shape of the paging loop: its start, offset updates and stop rule |
| `TelegramService.WalkYieldsEveryPage` | TgChannelBackup.Core/TelegramService.cs:79-83 | every requested page is yielded in full and sorted, in request order, the last one included |
| `TelegramService.WalkFromIsContinue` | TgChannelBackup.Core/TelegramService.cs:71-86 | the loop's accumulating walk is the recursive walk appended to what was already yielded |
| `TelegramService.FirstProbe` | TgChannelBackup.Core/TelegramService.cs:107-117 | the probe found is the first non-empty one; none found means every probe in the budget was empty |
| `TelegramService.GetFirstMessageId` | TgChannelBackup.Core/TelegramService.cs:100-118 | 0 for an empty channel; otherwise the smallest id in the first non-empty response to the probes 1, 101, 201, … |
| `TelegramService.ScrollHistory` | TgChannelBackup.Core/TelegramService.cs:66-87 | the items, offsets and stop flag are those of `History`: the walk from `start`, or from the probed first id when `start` is 0 |
| `TelegramService.FirstOtherKey` | TgChannelBackup.Core/TelegramService.cs:92 | finds the first key that is not the channel's own; without it, every key is the channel's |
| `TelegramService.CommentsGroupKey` | TgChannelBackup.Core/TelegramService.cs:89-98 | the key chosen is nonzero, not the channel's, and the first other key; none is chosen when there is no other key or it is 0 |
| `BackupWorker.ToInt32` | TgChannelBackup.Core/BackupWorker.cs:37 | the `(int)` cast is in the 32-bit range, congruent modulo 2^32, and the identity on that range |
| `BackupWorker.StartCursor` | TgChannelBackup.Core/BackupWorker.cs:32 | the start is `StartId` if given, else the stored cursor, else 0 |
| `BackupWorker.Checkpoints` | TgChannelBackup.Core/BackupWorker.cs:37-52 | the store keeps one record per channel after every message |
| `BackupWorker.LastMessageId` | TgChannelBackup.Core/BackupWorker.cs:37-52 | none exactly when no item is a message |
| `BackupWorker.LastMessageIdIsLast` | TgChannelBackup.Core/BackupWorker.cs:37-52 | the id found is that of a message with no message after it |
| `BackupWorker.CheckpointIsLastMessage` | TgChannelBackup.Core/BackupWorker.cs:37-52 | after the loop the channel's checkpoint is the last message's id, other items being skipped; without messages the store is unchanged |
| `BackupWorker.DryRunLeavesArchive` | TgChannelBackup.Core/BackupWorker.cs:58-59 | a dry run leaves files and directories as they were, however many messages it handles |
| `BackupWorker.ProcessMessage` | TgChannelBackup.Core/BackupWorker.cs:55-98 | the archive afterwards is the pipeline's under the built post path, whether it returned, logged a failed download, or threw |
| `BackupWorker.ArchiveItems` | TgChannelBackup.Core/BackupWorker.cs:37-52 | every message is archived in order, an exception not stopping the loop, and the checkpoint moves to each message's id after it |
| `BackupWorker.ExecuteAsync` | TgChannelBackup.Core/BackupWorker.cs:28-53 | the history walked is the one from the start cursor; the archive and the store end as `ArchiveAll` and `Checkpoints` of that history say |

## Left out

- Termination: `ScrollHistory`'s `while (true)` and `GetFirstMessageId`'s
  `for (;;)` have no bound. The model runs at most `maxPages` pages and
  `maxProbes` probes (`Fuel`). `History` with the probes exhausted yields
  nothing, where the source keeps probing forever.
- The lazy `IAsyncEnumerable` is collected into a sequence before the worker's
  loop runs. Interleaving of fetching and archiving is not modelled, and neither
  are cancellation or async.
- Network and console: `LogIn`, `GetChannelById`, `Config`,
  `GetVerificationCode` and `DisposeAsync` are not modelled. `DownloadFile` and
  the history and message requests are fields of `Remote`, fixed for a run.
- MD5, the JSON serialiser (with the contract resolver of `AppOptions.cs`) and
  `ToLocalTime` are parameters. AppOptions.cs is not part of this model.
- `Program.cs` (host setup and command-line parsing) and the options records
  are not part of this model. `RunOptions` drops the unused `IdFile`.
- File-system errors: `File.Exists`, `Directory.CreateDirectory`,
  `File.OpenWrite`, `File.Copy`, `File.Delete` and `File.WriteAllTextAsync` never
  fail in the model. The only exceptions modelled are:
  - the document cast;
  - the fetch;
  - the serialiser.
- Temporary files: `GetTempFileName` hands out a fresh number outside the
  archive. Its uniqueness is the operating system's guarantee.
- The stated contracts omit some state:
  - `MessageProcessor.ProcessMessage`, `BackupWorker.ProcessMessage`,
    `BackupWorker.ArchiveItems` and `BackupWorker.ExecuteAsync` do not state
    which temporary files are left behind; `MediaDownloader.Download` does.
  - `BackupWorker.ProcessMessage` does not state the value it returns for an
    exception.
- Paths use the Unix separator '/' only. `Path.Combine`'s handling of invalid
  characters and of other roots is not modelled.
- Case mapping is ASCII only, which covers the hexadecimal digests it is used
  on.
- Logging has no effect in the model.
- MediaDownloader.Download: the photo or document inside a media is never
  null in the model. In the source a null one makes `GetFileName` throw, and
  `GetFileId` in the handler (MediaDownloader.cs:32) throws again, so
  `Download` passes the exception on instead of returning a failed result.
  `DownloadEffect` covers only media whose photo or document is present.
- DotNetText.IntToString: `long.ToString()` uses the current culture's
  negative sign. The model assumes that sign is '-'.
- MessageProcessor.ProcessMessage: its own `dryRun` parameter and the
  downloaders' `RunOptions.DryRun` (MediaDownloader.cs:71) are both
  `options.dryRun`. A call that passes a `dryRun` different from the
  downloaders' option is not represented; nothing in the repository makes
  such a call.
- Integer width: message and file ids are unbounded integers. The only width
  modelled is the `(int)` cast of the start cursor (`ToInt32`).
