/**
 * MediaDownloader.cs: fetch a photo or document into a temporary file, hash
 * it, and decide whether to write it into the post directory, leave the
 * existing copy alone, or overwrite a copy whose hash differs.
 */
module MediaDownloader {
  import opened Wrappers
  import opened DotNetText
  import opened DotNetPath
  import opened TL
  import opened FileSystemModel
  import opened TelegramService
  import PhotoDownloader
  import DocumentDownloader

  /** The two run options the downloaders read. */
  datatype DownloadOptions = DownloadOptions(dryRun: bool, reconcile: bool)

  /**
   * `DownloadResult`, with `Success` as the choice of constructor. A
   * successful download carries the `Write` and `HashMismatch` flags that
   * `DownloadInternal` sets.
   */
  datatype DownloadResult =
    | Downloaded(fileId: int, path: string, hash: string, write: bool, hashMismatch: bool)
    | DownloadFailed(fileId: int, errorMessage: string)
  {
    predicate Success() {
      Downloaded?
    }
  }

  /** The message of the `InvalidCastException` thrown when an empty document is cast to `Document`. */
  const InvalidCastMessage: string := "Unable to cast object of type 'TL.DocumentEmpty' to type 'TL.Document'."

  /** `GetFileId`, dispatched to the photo or document downloader. */
  function GetFileId(media: DownloadableMedia): int {
    match media
    case MessageMediaPhoto(photo) => PhotoDownloader.GetFileId(photo)
    case MessageMediaDocument(doc) => DocumentDownloader.GetFileId(doc)
  }

  /** `GetFileName`, dispatched likewise; `None` when it throws. */
  function GetFileName(media: DownloadableMedia): (name: Option<string>)
    ensures name.Some? ==> forall k :: 0 <= k < |name.value| ==> name.value[k] != DirectorySeparator
  {
    match media
    case MessageMediaPhoto(photo) => Some(PhotoDownloader.GetFileName(photo))
    case MessageMediaDocument(doc) => DocumentDownloader.GetFileName(doc)
  }

  /** Whichever downloader names it, the file id is what the file name holds before the first '.'. */
  lemma FileIdLeadsFileName(media: DownloadableMedia)
    ensures GetFileName(media).Some? ==> StartsWithIdAndDot(GetFileName(media).value, GetFileId(media))
  {
    match media
    case MessageMediaPhoto(photo) => PhotoDownloader.FileIdLeadsFileName(photo);
    case MessageMediaDocument(doc) => DocumentDownloader.FileIdLeadsFileName(doc);
  }

  // ---------------------------------------------------------------------
  // The hash string: BitConverter.ToString(hash).Replace("-", "").ToLowerInvariant()

  /** The `d`-th upper-case hexadecimal digit, as `BitConverter` prints it. */
  function UpperHexDigit(d: nat): (c: char)
    requires d < 16
    ensures c != '-'
  {
    if d < 10 then DigitChar(d) else ('A' as int + d - 10) as char
  }

  /** The `d`-th lower-case hexadecimal digit. */
  function LowerHexDigit(d: nat): (c: char)
    requires d < 16
    ensures !IsAsciiUpper(c)
  {
    if d < 10 then DigitChar(d) else ('a' as int + d - 10) as char
  }

  /** `BitConverter.ToString`: two upper-case digits per byte, pairs separated by '-'. */
  function BitConverterToString(bytes: seq<byte>): string {
    if |bytes| == 0 then ""
    else if |bytes| == 1 then [UpperHexDigit(bytes[0] / 16), UpperHexDigit(bytes[0] % 16)]
    else [UpperHexDigit(bytes[0] / 16), UpperHexDigit(bytes[0] % 16), '-'] + BitConverterToString(bytes[1..])
  }

  /** `s.Replace("-", "")` */
  function RemoveDashes(s: string): string {
    if |s| == 0 then "" else (if s[0] == '-' then "" else [s[0]]) + RemoveDashes(s[1..])
  }

  /** `BitConverter.ToString(digest).Replace("-", "").ToLowerInvariant()` */
  function RenderDigest(digest: seq<byte>): string {
    ToLowerInvariant(RemoveDashes(BitConverterToString(digest)))
  }

  /** `GetMD5(Stream)`: the MD5 digest of `content`, rendered. */
  function GetMD5(md5: seq<byte> -> seq<byte>, content: seq<byte>): string {
    RenderDigest(md5(content))
  }

  /** Lower-case hexadecimal without separators: two digits per byte. */
  function LowerHex(bytes: seq<byte>): (s: string)
    ensures |s| == 2 * |bytes|
    ensures forall i :: 0 <= i < |s| ==> !IsAsciiUpper(s[i]) && s[i] != '-'
  {
    if |bytes| == 0 then ""
    else [LowerHexDigit(bytes[0] / 16), LowerHexDigit(bytes[0] % 16)] + LowerHex(bytes[1..])
  }

  lemma {:induction false} RemoveDashesAppend(a: string, b: string)
    ensures RemoveDashes(a + b) == RemoveDashes(a) + RemoveDashes(b)
    decreases |a|
  {
    if |a| > 0 {
      RemoveDashesAppend(a[1..], b);
      assert (a + b)[0] == a[0];
      assert (a + b)[1..] == a[1..] + b;
    } else {
      assert a + b == b;
    }
  }

  lemma LowerOfUpperHexDigit(d: nat)
    requires d < 16
    ensures ToLowerAscii(UpperHexDigit(d)) == LowerHexDigit(d)
  {
  }

  /** Without its dashes, the rendering of a digest is the first byte's two digits followed by the rest's. */
  lemma RemoveDashesStep(digest: seq<byte>)
    requires |digest| > 0
    ensures RemoveDashes(BitConverterToString(digest))
         == [UpperHexDigit(digest[0] / 16), UpperHexDigit(digest[0] % 16)] + RemoveDashes(BitConverterToString(digest[1..]))
  {
    var hi, lo := UpperHexDigit(digest[0] / 16), UpperHexDigit(digest[0] % 16);
    RemoveDashesOfPair(hi, lo);
    if |digest| > 1 {
      RemoveDashesBeforeRest(hi, lo, BitConverterToString(digest[1..]));
      assert BitConverterToString(digest) == [hi, lo, '-'] + BitConverterToString(digest[1..]);
    } else {
      assert digest[1..] == [];
      assert BitConverterToString(digest) == [hi, lo];
      assert RemoveDashes(BitConverterToString(digest[1..])) == [];
      assert [hi, lo] + [] == [hi, lo];
    }
  }

  /** The dash between two bytes' digits disappears. */
  lemma RemoveDashesBeforeRest(hi: char, lo: char, rest: string)
    requires hi != '-' && lo != '-'
    ensures RemoveDashes([hi, lo, '-'] + rest) == [hi, lo] + RemoveDashes(rest)
  {
    RemoveDashesOfPair(hi, lo);
    assert [hi, lo, '-'] + rest == [hi, lo] + (['-'] + rest);
    RemoveDashesAppend([hi, lo], ['-'] + rest);
    RemoveDashesAppend(['-'], rest);
    assert RemoveDashes(['-']) == "";
  }

  lemma RemoveDashesOfPair(x: char, y: char)
    requires x != '-' && y != '-'
    ensures RemoveDashes([x, y]) == [x, y]
  {
    assert [x, y][1..] == [y] && [y][1..] == [];
    assert RemoveDashes([y]) == [y] + RemoveDashes([]);
    assert RemoveDashes([x, y]) == [x] + RemoveDashes([y]);
  }

  /** The source's rendering of a digest is exactly two lower-case hex digits per byte, with no separators. */
  lemma {:induction false} GetMD5IsLowerHex(digest: seq<byte>)
    ensures RenderDigest(digest) == LowerHex(digest)
    decreases |digest|
  {
    if |digest| > 0 {
      var b := digest[0];
      var upper := [UpperHexDigit(b / 16), UpperHexDigit(b % 16)];
      var rest := RemoveDashes(BitConverterToString(digest[1..]));
      RemoveDashesStep(digest);
      LowerOfUpperHexDigit(b / 16);
      LowerOfUpperHexDigit(b % 16);
      ToLowerInvariantAppend(upper, rest);
      assert ToLowerInvariant(upper) == [LowerHexDigit(b / 16), LowerHexDigit(b % 16)];
      GetMD5IsLowerHex(digest[1..]);
    }
  }

  /** Different digests never render alike. */
  lemma {:induction false} LowerHexInjective(a: seq<byte>, b: seq<byte>)
    ensures LowerHex(a) == LowerHex(b) ==> a == b
    decreases |a|
  {
    if LowerHex(a) == LowerHex(b) && |a| > 0 {
      var ha, hb := LowerHex(a), LowerHex(b);
      assert ha[0] == hb[0] && ha[1] == hb[1];
      assert a[0] / 16 == b[0] / 16 && a[0] % 16 == b[0] % 16;
      assert ha[2..] == LowerHex(a[1..]) && hb[2..] == LowerHex(b[1..]);
      LowerHexInjective(a[1..], b[1..]);
      assert a == [a[0]] + a[1..] && b == [b[0]] + b[1..];
    }
  }

  /**
   * The case-insensitive comparison of two rendered digests holds exactly
   * when the digests are equal.
   */
  lemma HashesMatchIffDigestsEqual(a: seq<byte>, b: seq<byte>)
    ensures EqualsOrdinalIgnoreCase(RenderDigest(a), RenderDigest(b)) <==> a == b
  {
    GetMD5IsLowerHex(a);
    GetMD5IsLowerHex(b);
    EqualsIgnoreCaseOfLowerCase(LowerHex(a), LowerHex(b));
    LowerHexInjective(a, b);
  }

  // ---------------------------------------------------------------------
  // The decision and its effect

  /** The final values of the `writeFile` and `hashMismatch` flags. */
  datatype Decision = Decision(write: bool, hashMismatch: bool)

  /**
   * The flags `DownloadInternal` ends with, given whether the target existed
   * and whether the hashes matched: a new file is written, an identical one
   * is skipped, a differing one is reported and overwritten only with
   * `Reconcile`; `DryRun` suppresses every write but no report.
   */
  function Decide(fileExists: bool, hashesMatch: bool, options: DownloadOptions): (d: Decision)
    ensures !fileExists ==> !d.hashMismatch && d.write == !options.dryRun
    ensures fileExists && hashesMatch ==> !d.write && !d.hashMismatch
    ensures fileExists && !hashesMatch ==> d.hashMismatch && d.write == (options.reconcile && !options.dryRun)
  {
    var hashMismatch := fileExists && !hashesMatch;
    var writeFile := if fileExists then hashMismatch && options.reconcile else true;
    Decision(writeFile && !options.dryRun, hashMismatch)
  }

  /** The flags as `DownloadInternal` sets them, one step after the other. */
  method SetFlags(fileExists: bool, hashesMatch: bool, options: DownloadOptions) returns (writeFile: bool, hashMismatch: bool)
    ensures Decision(writeFile, hashMismatch) == Decide(fileExists, hashesMatch, options)
  {
    writeFile := true;
    hashMismatch := false;
    if fileExists {
      writeFile := false;
      hashMismatch := !hashesMatch;
      if hashMismatch {
        if options.reconcile {
          writeFile := true;
        }
      }
    }
    if options.dryRun {
      writeFile := false;
    }
  }

  /**
   * The last steps of `DownloadInternal`: when the file is to be written, the
   * target is deleted if present and the temporary file copied over it; the
   * temporary file is deleted in any case.
   */
  method Commit(fs: FileSystem, tempPath: nat, filePath: string, writeFile: bool)
    requires fs.Valid() && tempPath in fs.temps
    modifies fs`files, fs`temps
    ensures fs.Valid()
    ensures fs.files == if writeFile then old(fs.files)[filePath := old(fs.temps)[tempPath]] else old(fs.files)
    ensures fs.temps == old(fs.temps) - {tempPath}
  {
    if writeFile {
      if fs.Exists(filePath) {
        fs.Delete(filePath);
      }
      fs.CopyTemp(tempPath, filePath);
    }
    fs.DeleteTemp(tempPath);
  }

  /**
   * What `DownloadInternal` does: its result, or the message of the exception
   * it throws; the archive's files afterwards; and the content of the
   * temporary file it leaves behind when the fetch throws.
   */
  datatype InternalEffect = InternalEffect(result: Result<DownloadResult, string>, files: map<string, seq<byte>>, leftTemp: Option<seq<byte>>)

  function DownloadInternalSpec(files: map<string, seq<byte>>, postPath: string, media: DownloadableMedia,
                                options: DownloadOptions, fetch: DownloadableMedia -> FetchOutcome,
                                md5: seq<byte> -> seq<byte>): InternalEffect
  {
    match GetFileName(media)
    case None => InternalEffect(Failure(InvalidCastMessage), files, None)
    case Some(name) =>
      var filePath := Combine(postPath, name);
      match fetch(media)
      case FetchFailed(written, message) => InternalEffect(Failure(message), files, Some(written))
      case Fetched(bytes) => Store(files, filePath, bytes, GetFileId(media), options, md5)
  }

  /** The part of `DownloadInternalSpec` after a successful fetch of `bytes`. */
  function Store(files: map<string, seq<byte>>, filePath: string, bytes: seq<byte>, fileId: int,
                 options: DownloadOptions, md5: seq<byte> -> seq<byte>): InternalEffect
  {
    var fileExists := filePath in files;
    var newHash := GetMD5(md5, bytes);
    var hashesMatch := fileExists && EqualsOrdinalIgnoreCase(newHash, GetMD5(md5, files[filePath]));
    var d := Decide(fileExists, hashesMatch, options);
    var result := Downloaded(fileId, filePath, newHash, d.write, d.hashMismatch);
    InternalEffect(Success(result), if d.write then files[filePath := bytes] else files, None)
  }

  /**
   * What `DownloadInternal` promises: a document without a file name fails
   * with the cast message and a failing fetch with its own message, both
   * leaving the archive alone (the fetch leaving its partial bytes in the
   * temporary file); a successful fetch reports the target path and the hex
   * digest of the bytes, flags a mismatch exactly when the target held a
   * different digest, and writes the bytes to the target exactly when it
   * was absent, or differed under `Reconcile`, and this is not a dry run.
   */
  lemma DownloadInternalEffect(files: map<string, seq<byte>>, postPath: string, media: DownloadableMedia,
                               options: DownloadOptions, fetch: DownloadableMedia -> FetchOutcome,
                               md5: seq<byte> -> seq<byte>)
    ensures var e := DownloadInternalSpec(files, postPath, media, options, fetch, md5);
      && (GetFileName(media).None? ==> e == InternalEffect(Failure(InvalidCastMessage), files, None))
      && (GetFileName(media).Some? && fetch(media).FetchFailed? ==>
            e == InternalEffect(Failure(fetch(media).message), files, Some(fetch(media).bytes)))
    ensures GetFileName(media).Some? && fetch(media).Fetched? ==>
      var e := DownloadInternalSpec(files, postPath, media, options, fetch, md5);
      var target := Combine(postPath, GetFileName(media).value);
      var bytes := fetch(media).bytes;
      var existedAlike := target in files && md5(files[target]) == md5(bytes);
      && e.leftTemp.None? && e.result.Success? && e.result.value.Downloaded?
      && e.result.value.fileId == GetFileId(media)
      && e.result.value.path == target
      && e.result.value.hash == LowerHex(md5(bytes))
      && e.result.value.hashMismatch == (target in files && !existedAlike)
      && e.result.value.write == (!options.dryRun && (target !in files || (!existedAlike && options.reconcile)))
      && e.files == (if e.result.value.write then files[target := bytes] else files)
  {
    if GetFileName(media).Some? && fetch(media).Fetched? {
      var target := Combine(postPath, GetFileName(media).value);
      var bytes := fetch(media).bytes;
      GetMD5IsLowerHex(md5(bytes));
      if target in files {
        HashesMatchIffDigestsEqual(md5(bytes), md5(files[target]));
      }
    }
  }

  /**
   * The steps of `DownloadInternal` after the fetch: hash the temporary file
   * and the existing target, set the flags, write if they say so, and delete
   * the temporary file.
   */
  method StoreFetched(fs: FileSystem, tempPath: nat, filePath: string, fileExists: bool, fileId: int,
                      options: DownloadOptions, md5: seq<byte> -> seq<byte>)
    returns (r: Result<DownloadResult, string>)
    requires fs.Valid() && tempPath in fs.temps && fileExists == (filePath in fs.files)
    modifies fs`files, fs`temps
    ensures fs.Valid()
    ensures var e := Store(old(fs.files), filePath, old(fs.temps)[tempPath], fileId, options, md5);
      r == e.result && fs.files == e.files
    ensures fs.temps == old(fs.temps) - {tempPath}
  {
    var newHash := GetMD5(md5, fs.temps[tempPath]);
    var hashesMatch := false;
    if fileExists {
      var existingHash := GetMD5(md5, fs.files[filePath]);
      hashesMatch := EqualsOrdinalIgnoreCase(newHash, existingHash);
    }
    var writeFile, hashMismatch := SetFlags(fileExists, hashesMatch, options);
    Commit(fs, tempPath, filePath, writeFile);
    r := Success(Downloaded(fileId, filePath, newHash, writeFile, hashMismatch));
  }

  /** The temporary files after a call that may have left one behind under the number `t`. */
  function TempsAfter(temps: map<nat, seq<byte>>, t: nat, left: Option<seq<byte>>): map<nat, seq<byte>> {
    match left
    case None => temps
    case Some(bytes) => temps[t := bytes]
  }

  /**
   * `DownloadInternal`: the flags are set step by step as in the source, and
   * the archive is changed in place. It may throw; `Failure` carries the message.
   */
  method DownloadInternal(fs: FileSystem, postPath: string, media: DownloadableMedia, options: DownloadOptions,
                          fetch: DownloadableMedia -> FetchOutcome, md5: seq<byte> -> seq<byte>)
    returns (r: Result<DownloadResult, string>)
    requires fs.Valid()
    modifies fs
    ensures fs.Valid() && fs.dirs == old(fs.dirs)
    ensures var e := DownloadInternalSpec(old(fs.files), postPath, media, options, fetch, md5);
      && r == e.result
      && fs.files == e.files
      && fs.temps == TempsAfter(old(fs.temps), old(fs.nextTemp), e.leftTemp)
  {
    var fileName := GetFileName(media);
    if fileName.None? {
      r := Failure(InvalidCastMessage);
    } else {
      var filePath := Combine(postPath, fileName.value);
      var fileExists := fs.Exists(filePath);

      var tempPath := fs.GetTempFileName();
      var fetched := fetch(media);
      fs.WriteTemp(tempPath, fetched.bytes);
      if fetched.FetchFailed? {
        r := Failure(fetched.message);  // thrown before the temporary file is deleted
      } else {
        r := StoreFetched(fs, tempPath, filePath, fileExists, GetFileId(media), options, md5);
        assert fs.temps == old(fs.temps);
      }
    }
  }

  /** What `Download` does: its result (it never throws), the archive's files, and a temporary file left behind. */
  datatype Effect = Effect(result: DownloadResult, files: map<string, seq<byte>>, leftTemp: Option<seq<byte>>)

  /** `Download`: whatever `DownloadInternal` throws comes back as a failed result carrying the message. */
  function DownloadSpec(files: map<string, seq<byte>>, postPath: string, media: DownloadableMedia,
                        options: DownloadOptions, fetch: DownloadableMedia -> FetchOutcome,
                        md5: seq<byte> -> seq<byte>): Effect
  {
    var internal := DownloadInternalSpec(files, postPath, media, options, fetch, md5);
    match internal.result
    case Success(result) => Effect(result, internal.files, internal.leftTemp)
    case Failure(message) => Effect(DownloadFailed(GetFileId(media), message), internal.files, internal.leftTemp)
  }

  /**
   * A download reports the media's file id whatever happens; a failed one
   * leaves the archive alone; a successful one leaves no temporary file,
   * names the target inside the post's directory, and changes the archive
   * only by writing the fetched bytes there; a dry run changes nothing.
   */
  lemma DownloadEffect(files: map<string, seq<byte>>, postPath: string, media: DownloadableMedia,
                       options: DownloadOptions, fetch: DownloadableMedia -> FetchOutcome,
                       md5: seq<byte> -> seq<byte>)
    ensures var e := DownloadSpec(files, postPath, media, options, fetch, md5);
      && e.result.fileId == GetFileId(media)
      && (!e.result.Success() ==> e.files == files)
      && (e.result.Success() ==>
            && e.leftTemp.None? && GetFileName(media).Some? && fetch(media).Fetched?
            && e.result.path == Combine(postPath, GetFileName(media).value)
            && e.files == (if e.result.write then files[e.result.path := fetch(media).bytes] else files))
      && (options.dryRun ==> e.files == files)
  {
    DownloadInternalEffect(files, postPath, media, options, fetch, md5);
  }

  method Download(fs: FileSystem, postPath: string, media: DownloadableMedia, options: DownloadOptions,
                  fetch: DownloadableMedia -> FetchOutcome, md5: seq<byte> -> seq<byte>)
    returns (r: DownloadResult)
    requires fs.Valid()
    modifies fs
    ensures fs.Valid() && fs.dirs == old(fs.dirs)
    ensures var e := DownloadSpec(old(fs.files), postPath, media, options, fetch, md5);
      && r == e.result
      && fs.files == e.files
      && fs.temps == TempsAfter(old(fs.temps), old(fs.nextTemp), e.leftTemp)
  {
    var internal := DownloadInternal(fs, postPath, media, options, fetch, md5);
    match internal {
      case Success(result) => r := result;
      case Failure(message) => r := DownloadFailed(GetFileId(media), message);
    }
  }
}