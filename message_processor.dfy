/**
 * MessageProcessor.cs: where a post is archived (`BuildPath`) and what is
 * archived for it (`ProcessMessage`): its media, through the downloaders,
 * and a metadata file holding the serialised message.
 *
 * BackupWorker.cs carries a private copy of both, textually the same; the
 * worker module uses these.
 */
module MessageProcessor {
  import opened Wrappers
  import opened DotNetText
  import opened DotNetPath
  import opened TL
  import opened FileSystemModel
  import opened TelegramService
  import opened MediaDownloader
  import PhotoDownloader
  import DocumentDownloader

  // ---------------------------------------------------------------------
  // The post directory

  /** The post's id in its directory name: the album id when it has one, otherwise its own id. */
  function PostId(message: Message): (id: int)
    ensures message.groupedId != 0 ==> id == message.groupedId
    ensures message.groupedId == 0 ==> id == message.id
  {
    var postId := message.groupedId;
    if postId == 0 then message.id else postId
  }

  /** `channel_{peer}` */
  function ChannelDir(peerId: int): string {
    "channel_" + IntToString(peerId)
  }

  /** `date.ToString("yyyy-MM-dd")` */
  function DateDir(date: DateTime): string {
    Pad4(date.year) + "-" + Pad2(date.month) + "-" + Pad2(date.day)
  }

  /** `date.ToString("HH-mm-ss")` */
  function TimeOfDay(date: DateTime): string {
    Pad2(date.hour) + "-" + Pad2(date.minute) + "-" + Pad2(date.second)
  }

  /** `post_{postId}_{HH-mm-ss}` */
  function PostDir(postId: int, date: DateTime): string {
    "post_" + IntToString(postId) + "_" + TimeOfDay(date)
  }

  /**
   * `BuildPath`: the post's directory under `basePath`, from the local time
   * of its date (`toLocalTime` stands for the host's time zone). It is
   * `basePath` combined with the three levels
   * `channel_<peer>/<yyyy-MM-dd>/post_<postId>_<HH-mm-ss>`, none of which
   * holds a separator of its own.
   */
  function BuildPath(basePath: string, message: Message, toLocalTime: DateTime -> DateTime): (path: string)
    ensures var date := toLocalTime(message.date);
      var c, d, p := ChannelDir(message.peerId), DateDir(date), PostDir(PostId(message), date);
      && NoSeparator(c) && NoSeparator(d) && NoSeparator(p)
      && path == Combine(basePath, c + [DirectorySeparator] + d + [DirectorySeparator] + p)
  {
    var date := toLocalTime(message.date);
    DateDirFields(date);
    PostDirFields(PostId(message), date);
    CombineNames(basePath, ChannelDir(message.peerId), DateDir(date), PostDir(PostId(message), date));
    Combine4(basePath, ChannelDir(message.peerId), DateDir(date), PostDir(PostId(message), date))
  }

  /** The date directory reads back as the year, month and day, zero-padded to 4, 2 and 2 digits. */
  lemma DateDirFields(date: DateTime)
    ensures var s := DateDir(date);
      && |s| == 10 && s[4] == '-' && s[7] == '-' && NoSeparator(s)
      && AllDigits(s[..4]) && ParseNat(s[..4]) == date.year
      && AllDigits(s[5..7]) && ParseNat(s[5..7]) == date.month
      && AllDigits(s[8..]) && ParseNat(s[8..]) == date.day
  {
    var s := DateDir(date);
    assert s[..4] == Pad4(date.year);
    assert s[5..7] == Pad2(date.month);
    assert s[8..] == Pad2(date.day);
  }

  /** The time of day reads back as the hour, minute and second, each zero-padded to two digits. */
  lemma TimeOfDayFields(date: DateTime)
    ensures var t := TimeOfDay(date);
      && |t| == 8 && t[2] == '-' && t[5] == '-' && NoSeparator(t)
      && AllDigits(t[..2]) && ParseNat(t[..2]) == date.hour
      && AllDigits(t[3..5]) && ParseNat(t[3..5]) == date.minute
      && AllDigits(t[6..]) && ParseNat(t[6..]) == date.second
  {
    var t := TimeOfDay(date);
    assert t[..2] == Pad2(date.hour);
    assert t[3..5] == Pad2(date.minute);
    assert t[6..] == Pad2(date.second);
  }

  /** A post directory name splits back into `post_<postId>`, an underscore and the time of day. */
  lemma PostDirFields(postId: int, date: DateTime)
    ensures var s := PostDir(postId, date);
      && |s| > 9 && NoSeparator(s)
      && s[..|s| - 9] == "post_" + IntToString(postId)
      && s[|s| - 9] == '_' && s[|s| - 8..] == TimeOfDay(date)
  {
    var s := PostDir(postId, date);
    var head := "post_" + IntToString(postId);
    TimeOfDayFields(date);
    assert s == head + "_" + TimeOfDay(date);
    assert s[..|s| - 9] == head;
  }

  /** Posts with different ids, or posted at different times of day, get different directory names. */
  lemma PostDirInjective(a: int, b: int, da: DateTime, db: DateTime)
    ensures PostDir(a, da) == PostDir(b, db) ==> a == b && TimeOfDay(da) == TimeOfDay(db)
  {
    var xa, xb := "_" + TimeOfDay(da), "_" + TimeOfDay(db);
    assert PostDir(a, da) == "post_" + (IntToString(a) + xa);
    assert PostDir(b, db) == "post_" + (IntToString(b) + xb);
    if PostDir(a, da) == PostDir(b, db) {
      assert IntToString(a) + xa == PostDir(a, da)[5..] == PostDir(b, db)[5..] == IntToString(b) + xb;
      IntToStringDelimited(a, b, xa, xb);
      assert TimeOfDay(da) == xa[1..] == xb[1..] == TimeOfDay(db);
    }
  }

  /** Messages of one album, posted in the same second, share the post directory. */
  lemma AlbumSharesDirectory(basePath: string, a: Message, b: Message, toLocalTime: DateTime -> DateTime)
    requires a.peerId == b.peerId && a.groupedId == b.groupedId != 0
    requires toLocalTime(a.date) == toLocalTime(b.date)
    ensures BuildPath(basePath, a, toLocalTime) == BuildPath(basePath, b, toLocalTime)
  {
  }

  // ---------------------------------------------------------------------
  // The metadata file

  /** What follows the message id in a metadata file name: `_{fileId}` when a file was downloaded, then `.json`. */
  function MetadataSuffix(fileId: Option<int>): (suffix: string)
    ensures |suffix| >= 5
    ensures fileId.None? <==> suffix == ".json"
    ensures fileId.Some? ==> suffix[0] == '_'
    ensures suffix[0] == '_' || suffix[0] == '.'
  {
    var fileIdPart := match fileId
      case Some(id) => "_" + IntToString(id)
      case None => "";
    fileIdPart + ".json"
  }

  /** `metadata_{message.ID}{_fileId}.json` */
  function MetadataFileName(messageId: int, fileId: Option<int>): (name: string)
    ensures |name| > 0 && name[0] == 'm' && NoSeparator(name)
  {
    "metadata_" + (IntToString(messageId) + MetadataSuffix(fileId))
  }

  /**
   * The metadata name is `metadata_`, the message id, then `_` and the file id
   * when a file was downloaded, then `.json`.
   */
  lemma MetadataFileNameLayout(messageId: int, fileId: Option<int>)
    ensures var name := MetadataFileName(messageId, fileId);
      && |name| > 14 && name[..9] == "metadata_" && name[|name| - 5..] == ".json"
      && (fileId.None? ==> name[9..|name| - 5] == IntToString(messageId))
      && (fileId.Some? ==> name[9..|name| - 5] == IntToString(messageId) + "_" + IntToString(fileId.value))
  {
    var middle := if fileId.Some? then IntToString(messageId) + "_" + IntToString(fileId.value) else IntToString(messageId);
    MetadataFileNameSplit(messageId, fileId, middle);
    SliceLayout("metadata_", middle, ".json");
  }

  lemma MetadataFileNameSplit(messageId: int, fileId: Option<int>, middle: string)
    requires middle == if fileId.Some? then IntToString(messageId) + "_" + IntToString(fileId.value) else IntToString(messageId)
    ensures MetadataFileName(messageId, fileId) == "metadata_" + middle + ".json"
  {
    if fileId.Some? {
      assert IntToString(messageId) + MetadataSuffix(fileId) == middle + ".json";
    }
  }

  lemma SliceLayout(prefix: string, middle: string, suffix: string)
    ensures var s := prefix + middle + suffix;
      && s[..|prefix|] == prefix && s[|s| - |suffix|..] == suffix
      && s[|prefix|..|s| - |suffix|] == middle
  {
  }

  lemma MetadataSuffixInjective(fa: Option<int>, fb: Option<int>)
    ensures MetadataSuffix(fa) == MetadataSuffix(fb) ==> fa == fb
  {
    var xa, xb := MetadataSuffix(fa), MetadataSuffix(fb);
    if xa == xb && fa.Some? && fb.Some? {
      assert xa[1..] == IntToString(fa.value) + ".json";
      assert xb[1..] == IntToString(fb.value) + ".json";
      IntToStringSuffixInjective(fa.value, fb.value, ".json");
    }
  }

  /** Different messages, or different files of one message, never share a metadata file name. */
  lemma MetadataFileNameInjective(a: int, fa: Option<int>, b: int, fb: Option<int>)
    ensures MetadataFileName(a, fa) == MetadataFileName(b, fb) ==> a == b && fa == fb
  {
    if MetadataFileName(a, fa) == MetadataFileName(b, fb) {
      PrefixCancel("metadata_", IntToString(a) + MetadataSuffix(fa), IntToString(b) + MetadataSuffix(fb));
      IntToStringDelimited(a, b, MetadataSuffix(fa), MetadataSuffix(fb));
      MetadataSuffixInjective(fa, fb);
    }
  }

  /** The metadata file never takes the name of a downloaded file, which starts with the file id. */
  lemma MetadataNeverNamedLikeMedia(messageId: int, fileId: Option<int>, media: DownloadableMedia)
    ensures GetFileName(media).Some? ==> MetadataFileName(messageId, fileId) != GetFileName(media).value
  {
    if GetFileName(media).Some? {
      var id := GetFileId(media);
      assert IntToString(id)[0] == '-' || IsDigit(IntToString(id)[0]);
      assert GetFileName(media).value[0] == IntToString(id)[0];
    }
  }

  /** The metadata file's path: the name inside the post directory. */
  function MetadataPath(postPath: string, messageId: int, result: Option<DownloadResult>): string {
    Combine(postPath, MetadataFileName(messageId, if result.Some? then Some(result.value.fileId) else None))
  }

  // ---------------------------------------------------------------------
  // ProcessMessage

  /** The media a message carries that has a downloader, if any. */
  function Downloadable(media: Option<MessageMedia>): (m: Option<DownloadableMedia>)
    ensures m.Some? <==> media.Some? && !media.value.OtherMessageMedia?
    ensures m.Some? ==> m.value == media.value
  {
    match media
    case Some(MessageMediaPhoto(photo)) => Some(MessageMediaPhoto(photo))
    case Some(MessageMediaDocument(doc)) => Some(MessageMediaDocument(doc))
    case _ => None
  }

  /**
   * What `ProcessMessage` does: its result, which is the download result
   * (`None` standing for null) or the message of the exception the
   * serialiser throws; and the archive's files and directories afterwards.
   */
  datatype Outcome = Outcome(result: Result<Option<DownloadResult>, string>, files: map<string, seq<byte>>, dirs: set<string>)

  function WriteMetadata(files: map<string, seq<byte>>, dirs: set<string>, message: Message, postPath: string,
                         download: Option<DownloadResult>, dryRun: bool,
                         serialize: Message -> Result<seq<byte>, string>): Outcome
  {
    if dryRun then Outcome(Success(download), files, dirs)
    else match serialize(message)
      case Failure(error) => Outcome(Failure(error), files, dirs)
      case Success(metadata) => Outcome(Success(download), files[MetadataPath(postPath, message.id, download) := metadata], dirs)
  }

  function ProcessSpec(files: map<string, seq<byte>>, dirs: set<string>, message: Message, postPath: string,
                       options: DownloadOptions, fetch: DownloadableMedia -> FetchOutcome, md5: seq<byte> -> seq<byte>,
                       serialize: Message -> Result<seq<byte>, string>): Outcome
  {
    var dirs' := if options.dryRun then dirs else dirs + {postPath};
    match Downloadable(message.media)
    case None => WriteMetadata(files, dirs', message, postPath, None, options.dryRun, serialize)
    case Some(media) =>
      var download := DownloadSpec(files, postPath, media, options, fetch, md5);
      if !download.result.Success() then Outcome(Success(Some(download.result)), download.files, dirs')
      else WriteMetadata(download.files, dirs', message, postPath, Some(download.result), options.dryRun, serialize)
  }

  /**
   * What `ProcessMessage` promises. A photo or document goes to its
   * downloader and the result returned is the downloader's; other media
   * are not downloaded and the result is null. A failed download is
   * returned as it is, before any metadata is written. Otherwise, unless in
   * dry run, the post directory is created and the serialised message is
   * written to `metadata_<ID>[_<fileId>].json` in it, beside (never over)
   * the downloaded file; only the serialiser can throw. A dry run changes
   * neither files nor directories.
   */
  lemma ProcessMessageEffect(files: map<string, seq<byte>>, dirs: set<string>, message: Message, postPath: string,
                             options: DownloadOptions, fetch: DownloadableMedia -> FetchOutcome, md5: seq<byte> -> seq<byte>,
                             serialize: Message -> Result<seq<byte>, string>)
    ensures var e := ProcessSpec(files, dirs, message, postPath, options, fetch, md5, serialize);
      && (Downloadable(message.media).None? && e.result.Success? ==> e.result.value.None?)
      && (Downloadable(message.media).Some? && e.result.Success? ==>
            e.result.value == Some(DownloadSpec(files, postPath, Downloadable(message.media).value, options, fetch, md5).result))
      && (e.result.Failure? <==> !options.dryRun && serialize(message).Failure?
                                 && (Downloadable(message.media).None?
                                     || DownloadSpec(files, postPath, Downloadable(message.media).value, options, fetch, md5).result.Success()))
      && (e.result.Failure? ==> e.result.error == serialize(message).error)
      && (e.dirs == if options.dryRun then dirs else dirs + {postPath})
      && (options.dryRun ==> e.files == files)
    ensures var e := ProcessSpec(files, dirs, message, postPath, options, fetch, md5, serialize);
      Downloadable(message.media).Some? && !e.result.Failure? && !e.result.value.value.Success() ==> e.files == files
    ensures var e := ProcessSpec(files, dirs, message, postPath, options, fetch, md5, serialize);
      && !options.dryRun && e.result.Success?
      && (e.result.value.None? || e.result.value.value.Success()) ==>
        var meta := MetadataPath(postPath, message.id, e.result.value);
        && e.files == DownloadedFiles(files, postPath, message, options, fetch, md5)[meta := serialize(message).value]
        && meta in e.files && e.files[meta] == serialize(message).value
  {
    var e := ProcessSpec(files, dirs, message, postPath, options, fetch, md5, serialize);
    match Downloadable(message.media)
    case None =>
    case Some(media) =>
      DownloadEffect(files, postPath, media, options, fetch, md5);
  }

  /** The archive's files once the message's media, if any, is downloaded. */
  function DownloadedFiles(files: map<string, seq<byte>>, postPath: string, message: Message,
                           options: DownloadOptions, fetch: DownloadableMedia -> FetchOutcome,
                           md5: seq<byte> -> seq<byte>): map<string, seq<byte>>
  {
    match Downloadable(message.media)
    case None => files
    case Some(media) => DownloadSpec(files, postPath, media, options, fetch, md5).files
  }

  /** Writing the metadata leaves a file just downloaded into the post directory in place. */
  lemma MetadataKeepsDownload(files: map<string, seq<byte>>, dirs: set<string>, message: Message, postPath: string,
                              options: DownloadOptions, fetch: DownloadableMedia -> FetchOutcome, md5: seq<byte> -> seq<byte>,
                              serialize: Message -> Result<seq<byte>, string>)
    ensures var e := ProcessSpec(files, dirs, message, postPath, options, fetch, md5, serialize);
      e.result.Success? && e.result.value.Some? && e.result.value.value.Success() && e.result.value.value.write ==>
        var d := e.result.value.value;
        d.path in e.files && e.files[d.path] == fetch(Downloadable(message.media).value).bytes
  {
    var e := ProcessSpec(files, dirs, message, postPath, options, fetch, md5, serialize);
    if e.result.Success? && e.result.value.Some? && e.result.value.value.Success() && e.result.value.value.write {
      var media := Downloadable(message.media).value;
      DownloadEffect(files, postPath, media, options, fetch, md5);
      var d := e.result.value.value;
      var name := GetFileName(media).value;
      var metaName := MetadataFileName(message.id, Some(d.fileId));
      MetadataNeverNamedLikeMedia(message.id, Some(d.fileId), media);
      CombineInjective(postPath, name, metaName);
      assert d.path == Combine(postPath, name) != MetadataPath(postPath, message.id, Some(d));
    }
  }

  /**
   * `ProcessMessage`: creates the post directory unless in dry run,
   * downloads the media through the downloader for its kind, returns early
   * on a failed download, and otherwise writes the metadata file unless in
   * dry run. The serialiser's exception comes back as `Failure`.
   */
  method ProcessMessage(fs: FileSystem, message: Message, postPath: string, options: DownloadOptions,
                        fetch: DownloadableMedia -> FetchOutcome, md5: seq<byte> -> seq<byte>,
                        serialize: Message -> Result<seq<byte>, string>)
    returns (r: Result<Option<DownloadResult>, string>)
    requires fs.Valid()
    modifies fs
    ensures fs.Valid()
    ensures var e := ProcessSpec(old(fs.files), old(fs.dirs), message, postPath, options, fetch, md5, serialize);
      r == e.result && fs.files == e.files && fs.dirs == e.dirs
  {
    if !options.dryRun {
      fs.CreateDirectory(postPath);
    }

    var downloadResult: Option<DownloadResult> := None;
    if message.media.Some? && message.media.value.MessageMediaPhoto? {
      var result := Download(fs, postPath, message.media.value, options, fetch, md5);
      downloadResult := Some(result);
    } else if message.media.Some? && message.media.value.MessageMediaDocument? {
      var result := Download(fs, postPath, message.media.value, options, fetch, md5);
      downloadResult := Some(result);
    }

    if downloadResult.Some? && !downloadResult.value.Success() {
      return Success(downloadResult);
    }

    var fileId := if downloadResult.Some? then Some(downloadResult.value.fileId) else None;
    var metadataFilePath := Combine(postPath, MetadataFileName(message.id, fileId));

    if !options.dryRun {
      var metadata := serialize(message);
      if metadata.Failure? {
        return Failure(metadata.error);
      }
      fs.WriteAllBytes(metadataFilePath, metadata.value);
    }

    return Success(downloadResult);
  }
}
