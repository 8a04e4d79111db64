/**
 * BackupWorker.cs: the run itself. Pick the start cursor, walk the channel's
 * history, archive every message, and move the channel's checkpoint to each
 * message once it has been handled, whatever the outcome.
 */
module BackupWorker {
  import opened Wrappers
  import opened DotNetText
  import opened TL
  import opened FileSystemModel
  import opened TelegramService
  import opened MediaDownloader
  import opened BackupDatabase
  import MessageProcessor

  /** `RunOptions`, without the unused `IdFile`. */
  datatype RunOptions = RunOptions(channelId: int, targetDir: string, startId: Option<int>, dryRun: bool, reconcile: bool)

  function DownloadOptionsOf(options: RunOptions): DownloadOptions {
    DownloadOptions(options.dryRun, options.reconcile)
  }

  /**
   * What the host provides: the MD5 digest, the JSON serialiser (the UTF-8
   * bytes of the text, or the message of the exception it throws) and the
   * conversion to local time.
   */
  datatype Host = Host(md5: seq<byte> -> seq<byte>, serialize: Message -> Result<seq<byte>, string>, toLocalTime: DateTime -> DateTime)

  /** How many probes and how many history pages a run may take; the source's loops have no bound. */
  datatype Fuel = Fuel(maxProbes: nat, maxPages: nat)

  const TwoTo31: int := 0x8000_0000
  const TwoTo32: int := 0x1_0000_0000

  /** The unchecked `(int)` cast of a `long`: keeps the low 32 bits, as two's complement. */
  function ToInt32(x: int): (r: int)
    ensures -TwoTo31 <= r < TwoTo31
    ensures (x - r) % TwoTo32 == 0
    ensures -TwoTo31 <= x < TwoTo31 ==> r == x
  {
    var low := x % TwoTo32;
    if low >= TwoTo31 then low - TwoTo32 else low
  }

  /** `StartId ?? LastDownloadedId ?? 0` */
  function StartCursor(startId: Option<int>, stored: Option<int>): (cursor: int)
    ensures startId.Some? ==> cursor == startId.value
    ensures startId.None? && stored.Some? ==> cursor == stored.value
    ensures startId.None? && stored.None? ==> cursor == 0
  {
    match startId
    case Some(id) => id
    case None => match stored
      case Some(id) => id
      case None => 0
  }

  /** The history a run walks from `start`, cast to the 32-bit offset the request takes. */
  function Backlog(remote: Remote, start: int, fuel: Fuel): seq<MessageBase> {
    History(remote, ToInt32(start), fuel.maxProbes, fuel.maxPages).items
  }

  // ---------------------------------------------------------------------
  // What a run does to the archive and to the checkpoint

  datatype Archive = Archive(files: map<string, seq<byte>>, dirs: set<string>)

  /** The archive after `ProcessMessage`, whether it returned, logged a failed download, or threw. */
  function ArchiveMessage(archive: Archive, message: Message, options: RunOptions, remote: Remote, host: Host): Archive {
    var postPath := MessageProcessor.BuildPath(options.targetDir, message, host.toLocalTime);
    var e := MessageProcessor.ProcessSpec(archive.files, archive.dirs, message, postPath, DownloadOptionsOf(options),
                                          remote.downloadFile, host.md5, host.serialize);
    Archive(e.files, e.dirs)
  }

  /** The archive after handling `items` in order; items other than messages are skipped. */
  function ArchiveAll(archive: Archive, items: seq<MessageBase>, options: RunOptions, remote: Remote, host: Host): Archive
    decreases |items|
  {
    if |items| == 0 then archive
    else
      var before := ArchiveAll(archive, items[..|items| - 1], options, remote, host);
      match items[|items| - 1]
      case MessageOf(message) => ArchiveMessage(before, message, options, remote, host)
      case _ => before
  }

  /** The checkpoint store after handling `items` in order: each message sets the channel's cursor to its id. */
  function Checkpoints(channels: map<int, ChannelRecord>, channelId: int, items: seq<MessageBase>): (r: map<int, ChannelRecord>)
    requires Keyed(channels)
    ensures Keyed(r)
    decreases |items|
  {
    if |items| == 0 then channels
    else
      var before := Checkpoints(channels, channelId, items[..|items| - 1]);
      if items[|items| - 1].MessageOf? then Upsert(before, Cursor(channelId, items[|items| - 1].ID())) else before
  }

  /** The id of the last message among `items`, if there is one. */
  function LastMessageId(items: seq<MessageBase>): (r: Option<int>)
    ensures r.None? <==> forall i :: 0 <= i < |items| ==> !items[i].MessageOf?
    decreases |items|
  {
    if |items| == 0 then None
    else if items[|items| - 1].MessageOf? then Some(items[|items| - 1].ID())
    else LastMessageId(items[..|items| - 1])
  }

  /** The id found is that of a message with no message after it. */
  lemma {:induction false} LastMessageIdIsLast(items: seq<MessageBase>)
    ensures LastMessageId(items).Some? ==>
      exists i :: 0 <= i < |items| && items[i].MessageOf? && items[i].ID() == LastMessageId(items).value
                  && forall j :: i < j < |items| ==> !items[j].MessageOf?
    decreases |items|
  {
    if |items| > 0 {
      var n := |items| - 1;
      if items[n].MessageOf? {
        assert items[n].ID() == LastMessageId(items).value;
      } else {
        var prefix := items[..n];
        LastMessageIdIsLast(prefix);
        if LastMessageId(prefix).Some? {
          var i :| 0 <= i < |prefix| && prefix[i].MessageOf? && prefix[i].ID() == LastMessageId(prefix).value
                   && forall j :: i < j < |prefix| ==> !prefix[j].MessageOf?;
          assert items[i] == prefix[i];
          assert forall j :: i < j < |items| ==> !items[j].MessageOf?;
        }
      }
    }
  }

  /**
   * After a run the channel's checkpoint is the id of the last message
   * handled (every message moves it, with no monotonicity check), or the
   * store is as it was when no message came; other channels are untouched.
   */
  lemma {:induction false} CheckpointIsLastMessage(channels: map<int, ChannelRecord>, channelId: int, items: seq<MessageBase>)
    requires Keyed(channels)
    ensures Checkpoints(channels, channelId, items)
      == match LastMessageId(items)
         case None => channels
         case Some(id) => Upsert(channels, Cursor(channelId, id))
    decreases |items|
  {
    if |items| > 0 {
      var prefix := items[..|items| - 1];
      CheckpointIsLastMessage(channels, channelId, prefix);
      if items[|items| - 1].MessageOf? && LastMessageId(prefix).Some? {
        LastWriteWins(channels, channelId, LastMessageId(prefix).value, items[|items| - 1].ID());
      }
    }
  }

  /** A dry run leaves the archive's files and directories as they were, however many messages it handles. */
  lemma {:induction false} DryRunLeavesArchive(archive: Archive, items: seq<MessageBase>, options: RunOptions, remote: Remote, host: Host)
    requires options.dryRun
    ensures ArchiveAll(archive, items, options, remote, host) == archive
    decreases |items|
  {
    if |items| > 0 {
      DryRunLeavesArchive(archive, items[..|items| - 1], options, remote, host);
      if items[|items| - 1].MessageOf? {
        var message := items[|items| - 1].message;
        var postPath := MessageProcessor.BuildPath(options.targetDir, message, host.toLocalTime);
        MessageProcessor.ProcessMessageEffect(archive.files, archive.dirs, message, postPath, DownloadOptionsOf(options),
                                              remote.downloadFile, host.md5, host.serialize);
      }
    }
  }

  // ---------------------------------------------------------------------
  // The worker

  /**
   * The worker's `ProcessMessage`: `BuildPath` under the target directory,
   * then the message processor's pipeline. Returns the message of the
   * exception it throws, if any.
   */
  method ProcessMessage(fs: FileSystem, options: RunOptions, message: Message, remote: Remote, host: Host)
    returns (thrown: Option<string>)
    requires fs.Valid()
    modifies fs
    ensures fs.Valid()
    ensures Archive(fs.files, fs.dirs) == ArchiveMessage(Archive(old(fs.files), old(fs.dirs)), message, options, remote, host)
  {
    var postPath := MessageProcessor.BuildPath(options.targetDir, message, host.toLocalTime);
    var r := MessageProcessor.ProcessMessage(fs, message, postPath, DownloadOptionsOf(options), remote.downloadFile, host.md5, host.serialize);
    thrown := if r.Failure? then Some(r.error) else None;
  }

  /**
   * `ExecuteAsync`: the history is walked from the start cursor; each
   * message is archived, an exception while doing so is logged and the loop
   * goes on, and the checkpoint then moves to the message's id.
   */
  method ExecuteAsync(fs: FileSystem, db: BackupDb, remote: Remote, options: RunOptions, host: Host, fuel: Fuel)
    requires fs.Valid() && db.Valid()
    modifies fs, db
    ensures fs.Valid() && db.Valid()
    ensures var items := Backlog(remote, StartCursor(options.startId, Lookup(old(db.channels), options.channelId)), fuel);
      && Archive(fs.files, fs.dirs) == ArchiveAll(Archive(old(fs.files), old(fs.dirs)), items, options, remote, host)
      && db.channels == Checkpoints(old(db.channels), options.channelId, items)
  {
    var lastId: int;
    if options.startId.Some? {
      lastId := options.startId.value;
    } else {
      var stored := db.GetLastDownloadedId(options.channelId);
      lastId := if stored.Some? then stored.value else 0;
    }

    var items, offsets, finished := ScrollHistory(remote, ToInt32(lastId), fuel.maxProbes, fuel.maxPages);
    ArchiveItems(fs, db, items, options, remote, host);
  }

  /** The body of the `await foreach` over the history. */
  method ArchiveItems(fs: FileSystem, db: BackupDb, items: seq<MessageBase>, options: RunOptions, remote: Remote, host: Host)
    requires fs.Valid() && db.Valid()
    modifies fs, db
    ensures fs.Valid() && db.Valid()
    ensures Archive(fs.files, fs.dirs) == ArchiveAll(Archive(old(fs.files), old(fs.dirs)), items, options, remote, host)
    ensures db.channels == Checkpoints(old(db.channels), options.channelId, items)
  {
    var i := 0;
    while i < |items|
      invariant 0 <= i <= |items|
      invariant fs.Valid() && db.Valid()
      invariant Archive(fs.files, fs.dirs) == ArchiveAll(Archive(old(fs.files), old(fs.dirs)), items[..i], options, remote, host)
      invariant db.channels == Checkpoints(old(db.channels), options.channelId, items[..i])
    {
      var messageBase := items[i];
      assert items[..i + 1][..i] == items[..i];
      if messageBase.MessageOf? {
        var thrown := ProcessMessage(fs, options, messageBase.message, remote, host);
        db.SetLastDownloadedId(options.channelId, messageBase.ID());
      }
      i := i + 1;
    }
    assert items[..|items|] == items;
  }
}
