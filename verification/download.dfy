/** The pure part of download-manager.js: which extension a download gets,
    how the file name is given that extension, and the path handed to the
    browser's download API. Text values that may be `undefined` are
    `Option<string>`. */
module Download {
  import opened Wrappers
  import opened Text

  /** `blob.type.includes('mp4') ? 'mp4' : 'webm'`. */
  function DefaultFormat(blobType: string): (r: string)
    ensures r == "mp4" || r == "webm"
    ensures r == "mp4" <==> exists k :: OccursAt(blobType, "mp4", k)
  {
    if Contains(blobType, "mp4") then "mp4" else "webm"
  }

  // ---------------------------------------------------------------------
  // The extension regex /\.[^/.]+$/
  // ---------------------------------------------------------------------

  /** Position `k` starts a match of `/\.[^/.]+$/`: a dot followed by at
      least one character, up to the end, none of them a slash or a dot. */
  predicate ExtensionAt(s: string, k: int)
  {
    && 0 <= k < |s| - 1
    && s[k] == '.'
    && forall j :: k < j < |s| ==> s[j] != '/' && s[j] != '.'
  }

  /** The regex matches at most one position: a second dot would lie inside
      the other match. */
  lemma ExtensionAtUnique(s: string, k: int, k2: int)
    requires ExtensionAt(s, k) && ExtensionAt(s, k2)
    ensures k == k2
  {
  }

  /** A match of the regex starts at the last dot, and no slash follows
      it. */
  lemma ExtensionIsLastDot(s: string, k: int)
    requires ExtensionAt(s, k)
    ensures LastIndex(s, '.') == Some(k) && k + 1 < |s| && Lacks(s[k + 1..], '/')
  {
    assert s == s[..k] + ['.'] + s[k + 1..];
    LastIndexSplit(s[..k], '.', s[k + 1..]);
  }

  /** `name.replace(/\.[^/.]+$/, '')`: the extension is removed when there
      is one, and the name is kept as it is otherwise. */
  function StripExtension(s: string): (r: string)
    ensures (exists k :: ExtensionAt(s, k)) ==> ExtensionAt(s, |r|) && r == s[..|r|]
    ensures (forall k :: !ExtensionAt(s, k)) ==> r == s
  {
    match LastIndex(s, '.')
    case None => s
    case Some(k) =>
      if k + 1 < |s| && Lacks(s[k + 1..], '/') then
        assert ExtensionAt(s, k) by {
          forall j | k < j < |s| ensures s[j] != '/' {
            assert s[j] == s[k + 1..][j - k - 1];
          }
        }
        s[..k]
      else
        assert forall k2 :: !ExtensionAt(s, k2) by {
          forall k2 | ExtensionAt(s, k2) ensures false {
            ExtensionIsLastDot(s, k2);
          }
        }
        s
  }

  /** `generateFilename`: a name that already ends with ".<format>" is
      kept; any other name loses its extension, if it has one, and gets
      ".<format>". */
  function GenerateFilename(base: string, format: string): (r: string)
    ensures EndsWith(r, "." + format)
    ensures EndsWith(base, "." + format) ==> r == base
    ensures !EndsWith(base, "." + format) ==>
      var stem := r[..|r| - |format| - 1];
      || (ExtensionAt(base, |stem|) && stem == base[..|stem|])
      || ((forall k :: !ExtensionAt(base, k)) && stem == base)
  {
    var ext := "." + format;
    if !EndsWith(base, ext) then
      var stem := StripExtension(base);
      assert (stem + ext)[..|stem|] == stem;
      stem + ext
    else base
  }

  /** Naming a download twice names it once. */
  lemma GenerateFilenameIdempotent(base: string, format: string)
    ensures GenerateFilename(GenerateFilename(base, format), format) == GenerateFilename(base, format)
  {
  }

  /** A name without the extension keeps a dotted folder name whole: only
      a dot after the last slash starts an extension. */
  lemma FolderDotIsNoExtension()
    ensures GenerateFilename("a.b/c", "mp4") == "a.b/c.mp4"
  {
    var s := "a.b/c";
    assert s[4] != '.' && s[3] != '.' && s[2] != '.';
    assert LastIndex(s[..4], '.') == LastIndex(s[..3], '.');
    assert s[..3][..2] == s[..2];
    assert LastIndex(s, '.') == Some(1);
    assert s[2..][1] == '/';
  }

  /** A WebM recording saved as MP4 keeps its name and changes extension. */
  lemma WebmNameAsMp4()
    ensures GenerateFilename("rec.webm", "mp4") == "rec.mp4"
  {
    var s := "rec.webm";
    assert ExtensionAt(s, 3);
    assert s[4] == 'w';
    var r := GenerateFilename(s, "mp4");
    var stem := r[..|r| - 4];
    ExtensionAtUnique(s, 3, |stem|);
    assert r == stem + r[|r| - 4..];
  }

  // ---------------------------------------------------------------------
  // downloadVideo's options
  // ---------------------------------------------------------------------

  /** A JavaScript string is truthy unless it is empty or `undefined`. */
  predicate Truthy(s: Option<string>)
  {
    s.Some? && s.value != ""
  }

  /** The `filename` handed to the download API: the folder, a slash and
      the name when the folder is truthy, the bare name otherwise. */
  function DownloadTarget(path: Option<string>, name: string): (r: string)
    ensures EndsWith(r, name)
    ensures Truthy(path) ==> |r| == |path.value| + 1 + |name|
    ensures Truthy(path) ==> r[..|path.value|] == path.value && r[|path.value|] == '/'
    ensures !Truthy(path) ==> r == name
  {
    if Truthy(path) then path.value + "/" + name else name
  }

  /** The download's file name is the last part of the path when the name
      holds no slash: the folder never changes the file name. */
  lemma DownloadTargetName(path: Option<string>, name: string)
    requires Lacks(name, '/')
    ensures Truthy(path) ==> LastIndex(DownloadTarget(path, name), '/') == Some(|path.value|)
    ensures !Truthy(path) ==> LastIndex(DownloadTarget(path, name), '/') == None
  {
    if Truthy(path) {
      assert path.value + "/" + name == path.value + ['/'] + name;
      LastIndexSplit(path.value, '/', name);
    }
  }

  /** The options `downloadVideo` may be given; an absent one is
      `undefined`. */
  datatype Options = Options(downloadPath: Option<string>, format: Option<string>)

  /** The folder `downloadVideo` uses: the option when it is given, even
      empty, and the stored `downloadPath` setting when it is `undefined`. */
  function PathOf(options: Options, storedPath: Option<string>): Option<string>
  {
    if options.downloadPath.Some? then options.downloadPath else storedPath
  }

  /** The format `downloadVideo` uses: the option when it is given, the
      blob type's otherwise. */
  function FormatOf(blobType: string, options: Options): string
  {
    if options.format.Some? then options.format.value else DefaultFormat(blobType)
  }

  /** The download file name `downloadVideo` asks for: an absent folder
      defaults to the stored `downloadPath` setting, an absent format to
      the blob type's, and the name gets that format's extension. */
  function DownloadFilename(blobType: string, filename: string, options: Options, storedPath: Option<string>): (r: string)
    ensures options.format.Some? ==> EndsWith(r, "." + options.format.value)
    ensures options.format.None? ==> EndsWith(r, "." + DefaultFormat(blobType))
    ensures options.downloadPath.None? && Truthy(storedPath) ==>
      |storedPath.value| < |r| && r[..|storedPath.value| + 1] == storedPath.value + "/"
    ensures Truthy(options.downloadPath) ==>
      |options.downloadPath.value| < |r| && r[..|options.downloadPath.value| + 1] == options.downloadPath.value + "/"
    ensures Truthy(PathOf(options, storedPath)) ==>
      var folder := PathOf(options, storedPath).value;
      var name := GenerateFilename(filename, FormatOf(blobType, options));
      |r| == |folder| + 1 + |name| && r[|folder| + 1..] == name
    ensures !Truthy(options.downloadPath) && (options.downloadPath.Some? || !Truthy(storedPath)) ==>
      r == GenerateFilename(filename, if options.format.Some? then options.format.value else DefaultFormat(blobType))
  {
    var path := PathOf(options, storedPath);
    var format := FormatOf(blobType, options);
    var name := GenerateFilename(filename, format);
    var r := DownloadTarget(path, name);
    EndsWithTrans(r, name, "." + format);
    assert Truthy(path) ==> r[..|path.value| + 1] == path.value + "/" by {
      if Truthy(path) {
        assert r[..|path.value|] + [r[|path.value|]] == r[..|path.value| + 1];
      }
    }
    r
  }
}
