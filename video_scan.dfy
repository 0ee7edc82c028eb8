/**
 * The scan loop and random pick of api.php (lines 27-80). The directory walk
 * is an input: the sequence of entries the recursive iterator yields, in its
 * order, each with what the filesystem reported for it.
 */
module VideoScan {
  import opened PhpStrings
  import opened Wrappers
  import PathUrl
  import RawUrl

  /** One entry of the walk, as the filesystem reports it. */
  datatype FileEntry = FileEntry(
    pathname: seq<byte>,   // getPathname()
    filename: seq<byte>,   // getFilename()
    isFile: bool,          // isFile()
    size: int,             // getSize()
    mtime: int,            // getMTime()
    stillExists: bool)     // file_exists() at the re-check

  /** One element of $videoFiles. */
  datatype VideoRecord = VideoRecord(
    filename: seq<byte>,
    path: seq<byte>,
    url: seq<byte>,
    size: int,
    mtime: int)

  /** The $config array: the resolved video root, the allowed extensions and the base URL. */
  datatype Config = Config(videoDir: seq<byte>, allowedExt: seq<seq<byte>>, baseUrl: seq<byte>)

  /** The exceptions the try block of api.php raises and turns into an HTTP 500 answer. */
  datatype ApiError =
    | DirectoryUnavailable(videoDir: seq<byte>)  // the root is not a directory
    | ScanFailed                                // the walk, getSize or getMTime threw
    | NoVideoFiles                              // nothing survived the scan

  /** The allowed extensions configured in api.php. */
  function DefaultExtensions(): seq<seq<byte>>
  {
    [Bytes("mp4"), Bytes("mov"), Bytes("avi"), Bytes("mkv"), Bytes("webm"), Bytes("flv")]
  }

  /** The filter ignores case: two names equal up to case pass or fail together. */
  lemma FilterIgnoresCase(cfg: Config, name1: seq<byte>, name2: seq<byte>)
    requires ToLower(name1) == ToLower(name2)
    ensures HasAllowedExtension(cfg, name1) <==> HasAllowedExtension(cfg, name2)
  {
    ExtensionOfLower(name1);
    ExtensionOfLower(name2);
    ToLowerIdempotent(Extension(name1));
    ToLowerIdempotent(Extension(name2));
  }

  /** The configuration of api.php for a given resolved root (realpath gives "" when it fails). */
  function DefaultConfig(videoDir: seq<byte>): Config
  {
    Config(videoDir, DefaultExtensions(), PathUrl.DefaultBaseUrl())
  }

  /** in_array(strtolower($file->getExtension()), allowed_ext) */
  predicate HasAllowedExtension(cfg: Config, filename: seq<byte>)
  {
    ToLower(Extension(filename)) in cfg.allowedExt
  }

  /** The entry survives the loop body: a regular file, allowed extension, still there at the re-check. */
  predicate IsCandidate(cfg: Config, e: FileEntry)
  {
    e.isFile && HasAllowedExtension(cfg, e.filename) && e.stillExists
  }

  /** The record the loop body appends for an entry. */
  function MakeRecord(cfg: Config, e: FileEntry): (r: VideoRecord)
  {
    var rel := PathUrl.RelativePath(cfg.videoDir, e.pathname);
    VideoRecord(e.filename, rel, PathUrl.JoinUrl(cfg.baseUrl, PathUrl.EncodePath(rel)), e.size, e.mtime)
  }

  /** What one entry adds to the list: its record when it is a candidate, nothing otherwise. */
  function Contribution(cfg: Config, e: FileEntry): seq<VideoRecord>
  {
    if IsCandidate(cfg, e) then [MakeRecord(cfg, e)] else []
  }

  /** The records of the candidates of a walk, in walk order. */
  function Collected(cfg: Config, walk: seq<FileEntry>): seq<VideoRecord>
    decreases |walk|
  {
    if walk == [] then [] else Contribution(cfg, walk[0]) + Collected(cfg, walk[1..])
  }

  /** The records of a concatenated walk are the records of its two parts, in order. */
  lemma {:induction false} CollectedConcat(cfg: Config, w1: seq<FileEntry>, w2: seq<FileEntry>)
    ensures Collected(cfg, w1 + w2) == Collected(cfg, w1) + Collected(cfg, w2)
    decreases |w1|
  {
    if w1 == [] {
      assert w1 + w2 == w2;
    } else {
      assert (w1 + w2)[0] == w1[0];
      assert (w1 + w2)[1..] == w1[1..] + w2;
      CollectedConcat(cfg, w1[1..], w2);
    }
  }

  /** One more entry at the end of the walk appends what it contributes. */
  lemma CollectedSnoc(cfg: Config, walk: seq<FileEntry>, e: FileEntry)
    ensures Collected(cfg, walk + [e]) == Collected(cfg, walk) + Contribution(cfg, e)
  {
    CollectedConcat(cfg, walk, [e]);
    assert [e][1..] == [];
  }

  /** The records of the first i + 1 entries: those of the first i, then what entry i contributes. */
  lemma CollectedPrefix(cfg: Config, walk: seq<FileEntry>, i: int)
    requires 0 <= i < |walk|
    ensures Collected(cfg, walk[..i + 1]) == Collected(cfg, walk[..i]) + Contribution(cfg, walk[i])
  {
    assert walk[..i + 1] == walk[..i] + [walk[i]];
    CollectedSnoc(cfg, walk[..i], walk[i]);
  }

  /**
   * The foreach of api.php lines 35-73: walks the entries in order and appends
   * the record of every candidate to $videoFiles.
   */
  method CollectVideos(cfg: Config, walk: seq<FileEntry>) returns (videos: seq<VideoRecord>)
    ensures videos == Collected(cfg, walk)
  {
    videos := [];
    var i := 0;
    while i < |walk|
      invariant 0 <= i <= |walk|
      invariant videos == Collected(cfg, walk[..i])
    {
      var file := walk[i];
      CollectedPrefix(cfg, walk, i);
      if file.isFile {
        var ext := ToLower(Extension(file.filename));
        if ext !in cfg.allowedExt {
          assert !IsCandidate(cfg, file);
          i := i + 1;
          continue;
        }
        var relativePath := PathUrl.RelativePath(cfg.videoDir, file.pathname);
        var encodedPath := PathUrl.EncodePath(relativePath);
        var videoUrl := PathUrl.JoinUrl(cfg.baseUrl, encodedPath);
        if !file.stillExists {
          assert !IsCandidate(cfg, file);
          i := i + 1;
          continue;
        }
        assert IsCandidate(cfg, file);
        videos := videos + [VideoRecord(file.filename, relativePath, videoUrl, file.size, file.mtime)];
      }
      i := i + 1;
    }
    assert walk[..|walk|] == walk;
  }

  /** Position of entry i's record: the number of candidates before it. */
  function Rank(cfg: Config, walk: seq<FileEntry>, i: int): nat
    requires 0 <= i <= |walk|
  {
    |Collected(cfg, walk[..i])|
  }

  /**
   * A candidate's record sits in the list at its rank, carrying that entry's
   * own filename, size and modification time, and the path and URL derived
   * from that entry's own pathname.
   */
  lemma CollectedAt(cfg: Config, walk: seq<FileEntry>, i: int)
    requires 0 <= i < |walk| && IsCandidate(cfg, walk[i])
    ensures var r := Rank(cfg, walk, i);
            r < |Collected(cfg, walk)| && Collected(cfg, walk)[r] == MakeRecord(cfg, walk[i])
    ensures var rec := Collected(cfg, walk)[Rank(cfg, walk, i)];
            rec.filename == walk[i].filename && rec.size == walk[i].size && rec.mtime == walk[i].mtime &&
            rec.path == PathUrl.RelativePath(cfg.videoDir, walk[i].pathname) &&
            rec.url == PathUrl.FileUrl(cfg.baseUrl, cfg.videoDir, walk[i].pathname)
  {
    assert walk == walk[..i] + walk[i..];
    CollectedConcat(cfg, walk[..i], walk[i..]);
    assert walk[i..][0] == walk[i];
  }

  /** Walk order is kept: an earlier candidate's record comes before a later one's. */
  lemma CollectedOrder(cfg: Config, walk: seq<FileEntry>, i: int, j: int)
    requires 0 <= i < j < |walk| && IsCandidate(cfg, walk[i])
    ensures Rank(cfg, walk, i) < Rank(cfg, walk, j)
  {
    assert walk[..j] == walk[..i] + walk[i..j];
    CollectedConcat(cfg, walk[..i], walk[i..j]);
    assert walk[i..j][0] == walk[i];
  }

  /** Every candidate of the walk has its record in the list. */
  lemma {:induction false} CollectedComplete(cfg: Config, walk: seq<FileEntry>, i: int)
    requires 0 <= i < |walk| && IsCandidate(cfg, walk[i])
    ensures MakeRecord(cfg, walk[i]) in Collected(cfg, walk)
    decreases |walk|
  {
    var rec := MakeRecord(cfg, walk[i]);
    assert Collected(cfg, walk) == Contribution(cfg, walk[0]) + Collected(cfg, walk[1..]);
    if i == 0 {
      assert rec in Contribution(cfg, walk[0]);
    } else {
      assert walk[1..][i - 1] == walk[i];
      CollectedComplete(cfg, walk[1..], i - 1);
      assert rec in Collected(cfg, walk[1..]);
    }
  }

  /** Every record in the list is the record of some candidate of the walk. */
  lemma {:induction false} CollectedSound(cfg: Config, walk: seq<FileEntry>, r: VideoRecord)
    requires r in Collected(cfg, walk)
    ensures exists i :: 0 <= i < |walk| && IsCandidate(cfg, walk[i]) && r == MakeRecord(cfg, walk[i])
    decreases |walk|
  {
    var head := Contribution(cfg, walk[0]);
    var tail := Collected(cfg, walk[1..]);
    assert Collected(cfg, walk) == head + tail;
    if r in head {
      assert IsCandidate(cfg, walk[0]) && r == MakeRecord(cfg, walk[0]);
    } else {
      assert r in tail;
      CollectedSound(cfg, walk[1..], r);
      var j :| 0 <= j < |walk[1..]| && IsCandidate(cfg, walk[1..][j]) && r == MakeRecord(cfg, walk[1..][j]);
      assert walk[j + 1] == walk[1..][j];
      assert IsCandidate(cfg, walk[j + 1]) && r == MakeRecord(cfg, walk[j + 1]);
    }
  }

  /**
   * The request of api.php lines 27-80: an error when the root is not a
   * directory, when the scan throws (an unreadable directory met by the
   * iterator, or getSize/getMTime on a file that can no longer be read; the
   * filesystem reports this as `scanThrows`), or when nothing survives the
   * scan; otherwise one of the collected records, at an index array_rand
   * chooses (here an arbitrary one in range).
   */
  method PickRandomVideo(cfg: Config, rootIsDir: bool, scanThrows: bool, walk: seq<FileEntry>)
    returns (res: Result<VideoRecord, ApiError>)
    ensures !rootIsDir ==> res == Failure(DirectoryUnavailable(cfg.videoDir))
    ensures rootIsDir && scanThrows ==> res == Failure(ScanFailed)
    ensures rootIsDir && !scanThrows && Collected(cfg, walk) == [] ==> res == Failure(NoVideoFiles)
    ensures rootIsDir && !scanThrows && Collected(cfg, walk) != [] ==>
              res.Success? && res.value in Collected(cfg, walk)
    ensures res.Success? ==>
              exists i :: 0 <= i < |walk| && IsCandidate(cfg, walk[i]) && res.value == MakeRecord(cfg, walk[i])
  {
    if !rootIsDir {
      return Failure(DirectoryUnavailable(cfg.videoDir));
    }
    if scanThrows {
      return Failure(ScanFailed);
    }
    var videoFiles := CollectVideos(cfg, walk);
    if videoFiles == [] {
      return Failure(NoVideoFiles);
    }
    var k :| 0 <= k < |videoFiles|;
    CollectedSound(cfg, walk, videoFiles[k]);
    res := Success(videoFiles[k]);
  }

  /**
   * With allowed extensions that are non-empty and hold no '.', the filter
   * accepts a name if and only if the name ends in '.' followed by bytes whose
   * lower-case form is one of them: "clip.MP4" passes, "mp4" and "clip.mp4.txt" do not.
   */
  lemma AllowedExtensionIff(cfg: Config, name: seq<byte>)
    requires forall k | 0 <= k < |cfg.allowedExt| :: cfg.allowedExt[k] != [] && DOT !in cfg.allowedExt[k]
    ensures HasAllowedExtension(cfg, name) <==>
            exists p :: 0 <= p < |name| - 1 && name[p] == DOT && ToLower(name[p + 1..]) in cfg.allowedExt
  {
    var ext := Extension(name);
    if HasAllowedExtension(cfg, name) {
      assert ext != [];
      var p := |name| - |ext| - 1;
      assert name[p + 1..] == ext;
      assert 0 <= p < |name| - 1 && name[p] == DOT && ToLower(name[p + 1..]) in cfg.allowedExt;
    }
    if p :| 0 <= p < |name| - 1 && name[p] == DOT && ToLower(name[p + 1..]) in cfg.allowedExt {
      var n := |name| - p - 1;
      assert name[p + 1..] == name[|name| - n..];
      ToLowerKeepsDots(name[p + 1..]);
      ExtensionOfDotSuffix(name, n);
    }
  }

  /**
   * With the configured list, a file passes the filter if and only if its
   * name ends in '.' followed by mp4, mov, avi, mkv, webm or flv in any mix of case.
   */
  lemma DefaultFilterIff(videoDir: seq<byte>, name: seq<byte>)
    ensures HasAllowedExtension(DefaultConfig(videoDir), name) <==>
            exists p :: 0 <= p < |name| - 1 && name[p] == DOT && ToLower(name[p + 1..]) in DefaultExtensions()
  {
    var exts := DefaultExtensions();
    assert forall k | 0 <= k < |exts| :: exts[k] != [] && DOT !in exts[k];
    AllowedExtensionIff(DefaultConfig(videoDir), name);
  }

  /** A name stem + '.' + ext, for an ext without '.', passes the filter exactly when ext lower-cased is allowed. */
  lemma FilterByExtension(cfg: Config, stem: seq<byte>, ext: seq<byte>)
    requires DOT !in ext
    ensures HasAllowedExtension(cfg, stem + [DOT] + ext) <==> ToLower(ext) in cfg.allowedExt
  {
    ExtensionAfterDot(stem, ext);
  }

  /** The extension of stem + '.' + ext, for an ext without '.', is ext. */
  lemma ExtensionAfterDot(stem: seq<byte>, ext: seq<byte>)
    requires DOT !in ext
    ensures Extension(stem + [DOT] + ext) == ext
  {
    var name := stem + [DOT] + ext;
    assert name[|name| - |ext|..] == ext;
    ExtensionOfDotSuffix(name, |ext|);
  }

  /** "readme.txt" fails the filter of the configured extensions. */
  lemma ReadmeRejected(videoDir: seq<byte>)
    ensures !HasAllowedExtension(DefaultConfig(videoDir), Bytes("readme.txt"))
  {
    assert Bytes("readme.txt") == Bytes("readme") + [DOT] + Bytes("txt");
    TxtNotAllowed();
    FilterByExtension(DefaultConfig(videoDir), Bytes("readme"), Bytes("txt"));
  }

  /** "clip.MP4" passes it: its extension "MP4" lower-cases to "mp4". */
  lemma ClipAccepted(videoDir: seq<byte>)
    ensures HasAllowedExtension(DefaultConfig(videoDir), Bytes("clip.MP4"))
  {
    assert Bytes("clip.MP4") == Bytes("clip") + [DOT] + Bytes("MP4");
    Mp4Allowed();
    FilterByExtension(DefaultConfig(videoDir), Bytes("clip"), Bytes("MP4"));
  }

  /** "txt", lower-cased, is none of the configured extensions. */
  lemma TxtNotAllowed()
    ensures DOT !in Bytes("txt") && ToLower(Bytes("txt")) !in DefaultExtensions()
  {
    var txt := Bytes("txt");
    assert ToLower(txt) == txt;
    var exts := DefaultExtensions();
    assert forall k | 0 <= k < |exts| :: exts[k] != [] && exts[k][0] != txt[0];
  }

  /** "MP4", lower-cased, is the configured "mp4". */
  lemma Mp4Allowed()
    ensures DOT !in Bytes("MP4") && ToLower(Bytes("MP4")) in DefaultExtensions()
  {
    assert ToLower(Bytes("MP4")) == Bytes("mp4");
  }

  /** Below root "/v", "/v/a/b/clip.MP4" has relative path "a/b/clip.MP4". */
  lemma ClipRelativePath()
    ensures PathUrl.RelativePath(Bytes("/v"), Bytes("/v/a/b/clip.MP4")) == Bytes("a/b/clip.MP4")
  {
    var root := Bytes("/v");
    var rel := Bytes("a/b/clip.MP4");
    ClipPathBytes();
    ClipPathChars();
    NoOccurrenceWithoutByte(root, [SLASH] + rel, 1);
    PathUrl.RelativePathOfChild(root, rel);
  }

  /** The clip's pathname is the root, one '/', and the relative path. */
  lemma ClipPathBytes()
    ensures Bytes("/v/a/b/clip.MP4") == Bytes("/v") + [SLASH] + Bytes("a/b/clip.MP4")
  {
  }

  /** The bytes of the clip's relative path that keep the root from matching again and ltrim from acting. */
  lemma ClipPathChars()
    ensures |Bytes("/v")| == 2 && Bytes("/v")[1] !in [SLASH] + Bytes("a/b/clip.MP4")
    ensures BACKSLASH !in Bytes("a/b/clip.MP4") && Bytes("a/b/clip.MP4")[0] !in PathUrl.SEPARATORS
  {
  }

  /** Its URL is the configured base './video/' followed by "a/b/clip.MP4". */
  lemma ClipUrl()
    ensures PathUrl.FileUrl(PathUrl.DefaultBaseUrl(), Bytes("/v"), Bytes("/v/a/b/clip.MP4"))
            == PathUrl.DefaultBaseUrl() + Bytes("a/b/clip.MP4")
  {
    ClipPathUnchanged();
    ClipRelativePath();
    DefaultUrlOfPlainPath(Bytes("/v"), Bytes("/v/a/b/clip.MP4"), Bytes("a/b/clip.MP4"));
  }

  /** Every byte of "a/b/clip.MP4" is unreserved or '/', so encoding leaves it as it is. */
  lemma ClipPathUnchanged()
    ensures PathUrl.EncodePath(Bytes("a/b/clip.MP4")) == Bytes("a/b/clip.MP4")
  {
    var rel := Bytes("a/b/clip.MP4");
    assert forall i | 0 <= i < |rel| :: RawUrl.IsUnreserved(rel[i]) || rel[i] == SLASH;
    PathUrl.EncodePathUnreserved(rel);
  }

  /** A relative path that the encoding leaves alone is appended to './video/' as it is. */
  lemma DefaultUrlOfPlainPath(root: seq<byte>, pathname: seq<byte>, rel: seq<byte>)
    requires PathUrl.RelativePath(root, pathname) == rel && PathUrl.EncodePath(rel) == rel
    ensures PathUrl.FileUrl(PathUrl.DefaultBaseUrl(), root, pathname) == PathUrl.DefaultBaseUrl() + rel
  {
    PathUrl.DefaultUrl(root, pathname);
  }

  /**
   * A walk below root "/v" holding "a/b/clip.MP4" (1024 bytes, modified at
   * mtime) and "a/readme.txt" collects exactly one record: the clip, with path
   * "a/b/clip.MP4" and URL './video/' + "a/b/clip.MP4".
   */
  lemma ClipScenario(mtime: int)
    ensures var cfg := DefaultConfig(Bytes("/v"));
            var clip := FileEntry(Bytes("/v/a/b/clip.MP4"), Bytes("clip.MP4"), true, 1024, mtime, true);
            var readme := FileEntry(Bytes("/v/a/readme.txt"), Bytes("readme.txt"), true, 10, mtime, true);
            Collected(cfg, [clip, readme]) ==
              [VideoRecord(Bytes("clip.MP4"), Bytes("a/b/clip.MP4"),
                           PathUrl.DefaultBaseUrl() + Bytes("a/b/clip.MP4"), 1024, mtime)]
  {
    var cfg := DefaultConfig(Bytes("/v"));
    var clip := FileEntry(Bytes("/v/a/b/clip.MP4"), Bytes("clip.MP4"), true, 1024, mtime, true);
    var readme := FileEntry(Bytes("/v/a/readme.txt"), Bytes("readme.txt"), true, 10, mtime, true);
    assert !IsCandidate(cfg, readme) by { ReadmeRejected(Bytes("/v")); }
    assert IsCandidate(cfg, clip) by { ClipAccepted(Bytes("/v")); }
    ClipRecord(mtime);
    CollectedOneOfTwo(cfg, clip, readme);
  }

  /** The record of the clip below root "/v" with the configured base. */
  lemma ClipRecord(mtime: int)
    ensures MakeRecord(DefaultConfig(Bytes("/v")),
                       FileEntry(Bytes("/v/a/b/clip.MP4"), Bytes("clip.MP4"), true, 1024, mtime, true))
            == VideoRecord(Bytes("clip.MP4"), Bytes("a/b/clip.MP4"),
                           PathUrl.DefaultBaseUrl() + Bytes("a/b/clip.MP4"), 1024, mtime)
  {
    ClipRelativePath();
    ClipUrl();
  }

  /** Of two entries where only the first is a candidate, only the first's record is collected. */
  lemma CollectedOneOfTwo(cfg: Config, a: FileEntry, b: FileEntry)
    requires IsCandidate(cfg, a) && !IsCandidate(cfg, b)
    ensures Collected(cfg, [a, b]) == [MakeRecord(cfg, a)]
  {
    var w := [a, b];
    assert w[1..] == [b];
    assert [b][1..] == [];
    assert Collected(cfg, [b]) == [];
    assert Collected(cfg, w) == [MakeRecord(cfg, a)] + Collected(cfg, [b]);
  }
}
