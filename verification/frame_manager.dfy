/** The frame scheduler: loading a background of one of the five kinds into
    a list of output-sized frames (or a live window capture), and the polling
    state machine that decides which frame to show at a given clock reading.
    The clock is a `now` parameter in seconds; the filesystem and the media
    decoders are the `Host` record. */
module FrameManager {
  import opened Wrappers
  import opened Readings
  import opened Text
  import opened Sorting
  import opened Images
  import opened Paths
  import Config
  import WindowCapture

  const SupportedVideoFormats: seq<string> := [".mp4", ".avi", ".mkv", ".mov", ".webm", ".flv", ".wmv", ".m4v"]

  /** Seconds a frame stays up unless the source says otherwise. */
  const DefaultFrameDuration: real := 2.0

  /** The suffixes the image-collection globs look for (each also in upper case). */
  const ImageExtensions: seq<string> := [".jpg", ".jpeg", ".png", ".bmp", ".tiff", ".webp"]

  // ---------------------------------------------------------------------
  // File-type tests and metadata
  // ---------------------------------------------------------------------

  /** `_is_video_file`: a non-empty path whose lower-cased extension is one
      of the supported video formats. */
  function IsVideoFile(path: string, windows: bool): (r: bool)
    ensures r ==> path != ""
    ensures r <==> Lower(Extension(path, windows)) in SupportedVideoFormats
  {
    if path == "" then false
    else Lower(Extension(path, windows)) in SupportedVideoFormats
  }

  /** For a file named `stem + e` in any directory, being a video depends
      only on `e`, in any letter case; a name that is all extension (a hidden
      file such as `.mp4`) is never a video. */
  lemma VideoFileByName(dir: string, stem: string, e: string, windows: bool)
    requires dir == "" || IsSep(dir[|dir| - 1], windows)
    requires NoSep(stem, windows) && !AllDots(stem)
    requires |e| > 0 && e[0] == '.' && '.' !in e[1..] && NoSep(e, windows)
    ensures IsVideoFile(dir + stem + e, windows) <==> Lower(e) in SupportedVideoFormats
  {
    ExtensionOfName(dir, stem, e, windows);
  }

  lemma ClipExtension(e: string)
    requires |e| > 0 && e[0] == '.' && '.' !in e[1..] && NoSep(e, false)
    ensures Extension("clip" + e, false) == e
  {
    assert "clip"[0] != '.';
    ExtensionOfName("", "clip", e, false);
    assert "" + "clip" + e == "clip" + e;
  }

  /** An upper-case extension still names a video. */
  lemma UpperCaseVideoExample()
    ensures IsVideoFile("clip.MP4", false)
  {
    ClipExtension(".MP4");
    assert "clip" + ".MP4" == "clip.MP4";
    LowerMp4();
  }

  lemma LowerMp4()
    ensures Lower(".MP4") == ".mp4" && ".mp4" in SupportedVideoFormats
  {
  }

  /** A GIF path is not a video, so the VIDEO kind falls back to a still. */
  lemma GifIsNotVideoExample()
    ensures !IsVideoFile("clip.gif", false)
  {
    ClipExtension(".gif");
    assert "clip" + ".gif" == "clip.gif";
    LowerGif();
  }

  lemma LowerGif()
    ensures Lower(".gif") !in SupportedVideoFormats
  {
    assert Lower(".gif") == ".gif";
  }

  /** A file name that starts with its only dot, such as `.mp4`, has no
      extension. */
  lemma HiddenNameExtension(name: string, windows: bool)
    requires |name| > 0 && name[0] == '.' && '.' !in name[1..] && NoSep(name, windows)
    ensures Extension(name, windows) == ""
  {
    BasenameOfJoined("", name, windows);
    assert "" + name == name;
    LastDotOfName("", name);
    assert AllDots(name[..0]);
  }

  /** A hidden file named only by an extension has no extension, so it is
      never a video, whatever that extension is. */
  lemma HiddenFileIsNotVideo(name: string, windows: bool)
    requires |name| > 0 && name[0] == '.' && '.' !in name[1..] && NoSep(name, windows)
    ensures !IsVideoFile(name, windows)
  {
    HiddenNameExtension(name, windows);
    assert Lower("") == "";
    assert "" !in SupportedVideoFormats;
  }

  /** The `duration` entry of a GIF frame's metadata: absent, a number of
      milliseconds, or a value that cannot be divided. */
  datatype DurationInfo = NoDuration | DurationMs(ms: int) | BadDuration

  /** `_gif_duration`: the metadata's milliseconds in seconds, with 100 ms
      when the entry is missing and 0.1 s when it cannot be read. */
  function GifDuration(d: DurationInfo): (r: real)
    ensures d.DurationMs? ==> r * 1000.0 == d.ms as real
    ensures !d.DurationMs? ==> r * 1000.0 == 100.0
    ensures d.DurationMs? && d.ms > 0 ==> r > 0.0
  {
    match d
    case NoDuration => 100.0 / 1000.0
    case DurationMs(ms) => (ms as real) / 1000.0
    case BadDuration => 0.1
  }

  // ---------------------------------------------------------------------
  // What the host provides
  // ---------------------------------------------------------------------

  datatype GifFrame = GifFrame(img: Image, duration: DurationInfo)

  /** The frames of an opened GIF; there is always at least one. */
  datatype Animation = Animation(first: GifFrame, rest: seq<GifFrame>) {
    function Frames(): seq<GifFrame> { [first] + rest }
  }

  /** An opened video: whether OpenCV opens it, the fps and frame count it
      reports, and the frames `read()` returns before the first failed read. */
  datatype VideoFile = VideoFile(opens: bool, fps: real, frameCount: int, readable: seq<Image>)

  /** The filesystem and decoders the loaders see. `present` are the
      existing files; `listing` maps each existing directory to the names of
      its entries. `decode` and `animation` answer `None` when PIL cannot open
      the file. */
  datatype Host = Host(
    present: set<string>,
    listing: map<string, seq<string>>,
    decode: string -> Option<Image>,
    animation: string -> Option<Animation>,
    video: string -> VideoFile,
    hasOpenCv: bool,
    hasWindowCapture: bool,
    windows: bool,
    capture: WindowCapture.CaptureHost,
    metricsError: Option<string>)

  /** `os.path.exists`. */
  predicate PathExists(h: Host, p: string) {
    p in h.present || p in h.listing
  }

  datatype LoadError =
    | FileNotFound(path: string)       // FileNotFoundError
    | CannotOpen(path: string)         // PIL cannot open the file
    | CannotOpenVideo(path: string)    // RuntimeError: the capture does not open
    | NotADirectory(path: string)      // NotADirectoryError
    | NoImagesFound(path: string)      // RuntimeError: the collection is empty
    | CaptureUnavailable               // RuntimeError: no capture module
    | MissingWindowTitle               // ValueError
    | CaptureFailed(cause: WindowCapture.CaptureError)

  /** Why constructing the manager raised: starting the metric collectors
      failed, or the background did not load. */
  datatype InitError =
    | MetricsFailed(message: string)
    | LoadFailed(cause: LoadError)

  /** `_resize_image`: the output size, in RGBA. */
  function Fit(img: Image, w: nat, h: nat): (r: Image)
    ensures Width(r) == w && Height(r) == h && ModeOf(r) == Rgba
  {
    ToRgba(Resized(img, w, h))
  }

  /** Every frame has the output size and is RGBA. */
  ghost predicate OutputSized(frames: seq<Image>, w: nat, h: nat) {
    forall i :: 0 <= i < |frames| ==> Width(frames[i]) == w && Height(frames[i]) == h && ModeOf(frames[i]) == Rgba
  }

  /** The fallback frame of window-capture mode. */
  function BlackFrame(w: nat, h: nat): (r: Image)
    ensures Width(r) == w && Height(r) == h && ModeOf(r) == Rgba
    ensures forall x, y :: PixelAt(r, x, y) == Solid(OpaqueBlack)
  {
    Canvas(w, h, Rgba, OpaqueBlack)
  }

  // ---------------------------------------------------------------------
  // Loaders
  // ---------------------------------------------------------------------

  /** What a loader leaves behind. */
  datatype Loaded = Loaded(
    frames: seq<Image>,
    gifDurations: seq<real>,
    frameDuration: real,
    capture: Option<WindowCapture.Capturer>)

  /** `_load_static_image`. */
  function LoadStatic(path: string, w: nat, ht: nat, h: Host): (r: Result<Loaded, LoadError>)
    ensures !PathExists(h, path) <==> r == Err(FileNotFound(path))
    ensures PathExists(h, path) && h.decode(path).None? <==> r == Err(CannotOpen(path))
    ensures r.Ok? ==> r.value == Loaded([Fit(h.decode(path).value, w, ht)], [], DefaultFrameDuration, None)
  {
    if !PathExists(h, path) then Err(FileNotFound(path))
    else match h.decode(path)
      case None => Err(CannotOpen(path))
      case Some(img) => Ok(Loaded([Fit(img, w, ht)], [], DefaultFrameDuration, None))
  }

  /** `_load_gif`: every frame fitted, every frame's duration recorded, and the
      first frame's duration current. */
  function LoadGif(path: string, w: nat, ht: nat, h: Host): (r: Result<Loaded, LoadError>)
    ensures !PathExists(h, path) <==> r == Err(FileNotFound(path))
    ensures PathExists(h, path) && h.animation(path).None? <==> r == Err(CannotOpen(path))
    ensures r.Ok? ==>
              var fs := h.animation(path).value.Frames();
              && |r.value.frames| == |fs| == |r.value.gifDurations|
              && (forall i :: 0 <= i < |fs| ==>
                    r.value.frames[i] == Fit(fs[i].img, w, ht)
                    && r.value.gifDurations[i] == GifDuration(fs[i].duration))
              && r.value.frameDuration == r.value.gifDurations[0]
              && r.value.capture.None?
  {
    if !PathExists(h, path) then Err(FileNotFound(path))
    else match h.animation(path)
      case None => Err(CannotOpen(path))
      case Some(a) =>
        var fs := a.Frames();
        var durations := seq(|fs|, i requires 0 <= i < |fs| => GifDuration(fs[i].duration));
        Ok(Loaded(seq(|fs|, i requires 0 <= i < |fs| => Fit(fs[i].img, w, ht)),
                  durations, durations[0], None))
  }

  /** The frames `_load_video` keeps: at most `frameCount`, stopping at the
      first failed read. */
  function VideoFrameCount(v: VideoFile): (n: nat)
    ensures n <= |v.readable|
    ensures v.frameCount <= 0 ==> n == 0
    ensures v.frameCount > 0 ==> n == if v.frameCount < |v.readable| then v.frameCount else |v.readable|
  {
    if v.frameCount <= 0 then 0
    else if v.frameCount < |v.readable| then v.frameCount
    else |v.readable|
  }

  /** `_load_video`, as reached from the loader dispatch (which has already
      established that OpenCV is present and the extension is supported). */
  function LoadVideo(path: string, w: nat, ht: nat, h: Host): (r: Result<Loaded, LoadError>)
    ensures !PathExists(h, path) <==> r == Err(FileNotFound(path))
    ensures PathExists(h, path) && !h.video(path).opens <==> r == Err(CannotOpenVideo(path))
    ensures r.Ok? ==>
              var v := h.video(path);
              && |r.value.frames| == VideoFrameCount(v)
              && (forall i :: 0 <= i < |r.value.frames| ==> r.value.frames[i] == Fit(v.readable[i], w, ht))
              && (v.fps > 0.0 ==> r.value.frameDuration * v.fps == 1.0)
              && (v.fps <= 0.0 ==> r.value.frameDuration * 30.0 == 1.0)
              && r.value.capture.None?
  {
    if !PathExists(h, path) then Err(FileNotFound(path))
    else
      var v := h.video(path);
      if !v.opens then Err(CannotOpenVideo(path))
      else
        var n := VideoFrameCount(v);
        var duration := if v.fps > 0.0 then 1.0 / v.fps else 1.0 / 30.0;
        Ok(Loaded(seq(n, i requires 0 <= i < n => Fit(v.readable[i], w, ht)), [], duration, None))
  }

  /** `name` matches the glob pattern `"*" + suffix`: `*` never matches a
      leading dot, and matching ignores case when the platform does. */
  predicate GlobMatches(name: string, suffix: string, ignoreCase: bool) {
    |name| > 0 && name[0] != '.'
    && if ignoreCase then EndsWith(Lower(name), Lower(suffix)) else EndsWith(name, suffix)
  }

  /** The entries of a directory listing that match `"*" + suffix`, in
      listing order. */
  function MatchingNames(names: seq<string>, suffix: string, ignoreCase: bool): (r: seq<string>)
    ensures |r| <= |names|
    ensures forall n :: n in r <==> n in names && GlobMatches(n, suffix, ignoreCase)
  {
    if |names| == 0 then []
    else
      var rest := MatchingNames(names[1..], suffix, ignoreCase);
      assert forall n :: n in names <==> n == names[0] || n in names[1..] by {
        assert names == [names[0]] + names[1..];
      }
      if GlobMatches(names[0], suffix, ignoreCase) then [names[0]] + rest else rest
  }

  /** `name` matches the lower- or the upper-case pattern of one of `exts`. */
  predicate MatchesAnyExtension(name: string, exts: seq<string>, ignoreCase: bool) {
    exists k :: 0 <= k < |exts| && MatchesExtension(name, exts[k], ignoreCase)
  }

  predicate MatchesExtension(name: string, ext: string, ignoreCase: bool) {
    GlobMatches(name, ext, ignoreCase) || GlobMatches(name, Upper(ext), ignoreCase)
  }

  /** The names the twelve globs of `_load_image_collection` return, in glob
      order: for each extension, its lower-case then its upper-case pattern. */
  function GlobbedNames(names: seq<string>, exts: seq<string>, ignoreCase: bool): (r: seq<string>)
    ensures forall n :: n in r <==> n in names && MatchesAnyExtension(n, exts, ignoreCase)
  {
    if |exts| == 0 then []
    else
      var rest := GlobbedNames(names, exts[1..], ignoreCase);
      var r := MatchingNames(names, exts[0], ignoreCase) + MatchingNames(names, Upper(exts[0]), ignoreCase) + rest;
      assert forall n :: MatchesAnyExtension(n, exts, ignoreCase) <==>
               MatchesExtension(n, exts[0], ignoreCase) || MatchesAnyExtension(n, exts[1..], ignoreCase) by {
        forall n ensures MatchesAnyExtension(n, exts, ignoreCase) <==>
               MatchesExtension(n, exts[0], ignoreCase) || MatchesAnyExtension(n, exts[1..], ignoreCase) {
          if MatchesAnyExtension(n, exts, ignoreCase) {
            var k :| 0 <= k < |exts| && MatchesExtension(n, exts[k], ignoreCase);
            if k > 0 {
              assert exts[k] == exts[1..][k - 1];
            }
          }
          if MatchesAnyExtension(n, exts[1..], ignoreCase) {
            var k :| 0 <= k < |exts[1..]| && MatchesExtension(n, exts[1..][k], ignoreCase);
            assert exts[1..][k] == exts[k + 1];
          }
        }
      }
      r
  }

  /** The full paths of a list of names inside `dir`. */
  function InDir(dir: string, names: seq<string>, windows: bool): (r: seq<string>)
    ensures |r| == |names|
    ensures forall i :: 0 <= i < |names| ==> r[i] == JoinPath(dir, names[i], windows)
  {
    seq(|names|, i requires 0 <= i < |names| => JoinPath(dir, names[i], windows))
  }

  /** The file list `_load_image_collection` builds, exactly as written: the
      twelve glob results concatenated and sorted. Where globbing ignores
      case, a file matches both the lower- and the upper-case pattern of its
      extension and is listed twice. */
  function CollectionFilesAsWritten(dir: string, names: seq<string>, windows: bool): (r: seq<string>)
    ensures SortedBy(r, Identity)
    ensures multiset(r) == multiset(InDir(dir, GlobbedNames(names, ImageExtensions, windows), windows))
  {
    Sort(InDir(dir, GlobbedNames(names, ImageExtensions, windows), windows))
  }

  /** Case-insensitively, a name cannot end with an extension (in either
      case) whose last-but-one letter differs from its own. */
  lemma NoMatchBySecondLast(name: string, ext: string)
    requires |name| >= 2 && |ext| >= 2
    requires LowerChar(name[|name| - 2]) != LowerChar(ext[|ext| - 2])
    ensures !MatchesExtension(name, ext, true)
  {
    LowerUpper(ext);
  }

  /** `photo.jpg` matches none of the extensions after `.jpg`. */
  lemma PhotoMatchesOnlyJpg(name: string, exts: seq<string>)
    requires name == "photo.jpg" && exts == ImageExtensions[1..]
    ensures !MatchesAnyExtension(name, exts, true)
  {
    assert name[7] == 'p';
    forall k | 0 <= k < |exts| ensures !MatchesExtension(name, exts[k], true) {
      var e := exts[k];
      assert e == ImageExtensions[k + 1];
      assert e[|e| - 2] in "enmfb" by {
        if k == 0 { assert e == ".jpeg"; }
        else if k == 1 { assert e == ".png"; }
        else if k == 2 { assert e == ".bmp"; }
        else if k == 3 { assert e == ".tiff"; }
        else { assert e == ".webp"; }
      }
      NoMatchBySecondLast(name, e);
    }
  }

  /** A name that matches a pattern ignoring case is found by it. */
  lemma SingleNameMatches(name: string, suffix: string)
    requires GlobMatches(name, suffix, true)
    ensures MatchingNames([name], suffix, true) == [name]
  {
    assert [name][1..] == [];
  }

  /** A pattern that no name matches yields nothing. */
  lemma {:induction false} MatchingNone(names: seq<string>, suffix: string, ignoreCase: bool)
    requires forall k :: 0 <= k < |names| ==> !GlobMatches(names[k], suffix, ignoreCase)
    ensures MatchingNames(names, suffix, ignoreCase) == []
    decreases |names|
  {
    if |names| > 0 {
      assert !GlobMatches(names[0], suffix, ignoreCase);
      MatchingNone(names[1..], suffix, ignoreCase);
    }
  }

  /** Names that match none of the extensions are globbed by none of them. */
  lemma {:induction false} GlobbedNone(names: seq<string>, exts: seq<string>, ignoreCase: bool)
    requires forall k :: 0 <= k < |names| ==> !MatchesAnyExtension(names[k], exts, ignoreCase)
    ensures GlobbedNames(names, exts, ignoreCase) == []
    decreases |exts|
  {
    if |exts| > 0 {
      forall k | 0 <= k < |names| ensures !MatchesExtension(names[k], exts[0], ignoreCase)
                                     && !MatchesAnyExtension(names[k], exts[1..], ignoreCase) {
      }
      MatchingNone(names, exts[0], ignoreCase);
      MatchingNone(names, Upper(exts[0]), ignoreCase);
      GlobbedNone(names, exts[1..], ignoreCase);
    }
  }

  /** `photo.jpg` matches `*.jpg` and, ignoring case, `*.JPG`. */
  lemma PhotoMatchesJpg(name: string, ext: string)
    requires name == "photo.jpg" && ext == ".jpg"
    ensures GlobMatches(name, ext, true) && GlobMatches(name, Upper(ext), true)
  {
    assert Lower(name) == "photo.jpg";
    LowerUpper(ext);
    assert Lower(ext) == ".jpg";
  }

  lemma PhotoGlobbedTwice(name: string, exts: seq<string>)
    requires name == "photo.jpg" && exts == ImageExtensions
    ensures GlobbedNames([name], exts, true) == [name, name]
  {
    PhotoMatchesOnlyJpg(name, exts[1..]);
    GlobbedNone([name], exts[1..], true);
    PhotoMatchesJpg(name, exts[0]);
    SingleNameMatches(name, exts[0]);
    SingleNameMatches(name, Upper(exts[0]));
  }

  /** Sorting two equal paths leaves them as they are. */
  lemma SortTwins(p: string)
    ensures Sort([p, p]) == [p, p]
  {
    var r := Sort([p, p]);
    assert multiset(r) == multiset{p, p};
    assert r[0] in multiset(r) && r[1] in multiset(r);
  }

  lemma PicsPhotoPath()
    ensures InDir("C:\\pics", ["photo.jpg", "photo.jpg"], true) == ["C:\\pics\\photo.jpg", "C:\\pics\\photo.jpg"]
  {
    assert JoinPath("C:\\pics", "photo.jpg", true) == "C:\\pics\\photo.jpg";
  }

  /** On Windows a single `photo.jpg` becomes two frames. */
  lemma CollectionDuplicatesOnWindows()
    ensures CollectionFilesAsWritten("C:\\pics", ["photo.jpg"], true)
            == ["C:\\pics\\photo.jpg", "C:\\pics\\photo.jpg"]
  {
    PhotoGlobbedTwice("photo.jpg", ImageExtensions);
    PicsPhotoPath();
    SortTwins("C:\\pics\\photo.jpg");
  }

  /** The file list with each matching file once, in sorted order: every
      file the globs find, and nothing else. */
  function CollectionFiles(dir: string, names: seq<string>, windows: bool): (r: seq<string>)
    ensures SortedBy(r, Identity)
    ensures NoDuplicates(r)
    ensures forall p :: p in r <==> p in CollectionFilesAsWritten(dir, names, windows)
  {
    var found := CollectionFilesAsWritten(dir, names, windows);
    var r := Sort(Distinct(found));
    NoDuplicatesPermutation(Distinct(found), r);
    assert forall p :: p in r <==> p in Distinct(found) by {
      forall p ensures p in r <==> p in Distinct(found) {
        assert p in r <==> p in multiset(r);
        assert p in Distinct(found) <==> p in multiset(Distinct(found));
      }
    }
    r
  }

  /** `Image.open` and `_resize_image` on each path in order; the first file
      PIL cannot open aborts the load. */
  function DecodeAll(paths: seq<string>, w: nat, ht: nat, h: Host): (r: Result<seq<Image>, LoadError>)
    ensures r.Ok? <==> forall i :: 0 <= i < |paths| ==> h.decode(paths[i]).Some?
    ensures r.Ok? ==> |r.value| == |paths|
                      && forall i :: 0 <= i < |paths| ==> r.value[i] == Fit(h.decode(paths[i]).value, w, ht)
    ensures r.Err? ==> r.error.CannotOpen? && r.error.path in paths && h.decode(r.error.path).None?
  {
    if |paths| == 0 then Ok([])
    else match h.decode(paths[0])
      case None => Err(CannotOpen(paths[0]))
      case Some(img) =>
        match DecodeAll(paths[1..], w, ht, h)
        case Err(e) => Err(e)
        case Ok(rest) =>
          assert forall i :: 0 < i < |paths| ==> paths[i] == paths[1..][i - 1];
          Ok([Fit(img, w, ht)] + rest)
  }

  /** The loading step of `_load_image_collection` once the file list is
      known: an empty list is an error, otherwise every file is decoded. */
  function LoadFiles(path: string, files: seq<string>, w: nat, ht: nat, h: Host): (r: Result<Loaded, LoadError>)
    ensures files == [] <==> r == Err(NoImagesFound(path))
    ensures r.Err? && files != [] ==> r.error.CannotOpen? && r.error.path in files
    ensures r.Ok? ==>
              && |r.value.frames| == |files| > 0
              && (forall i :: 0 <= i < |files| ==> h.decode(files[i]).Some?)
              && (forall i :: 0 <= i < |files| ==> r.value.frames[i] == Fit(h.decode(files[i]).value, w, ht))
              && r.value.frameDuration == DefaultFrameDuration && r.value.capture.None?
  {
    if files == [] then Err(NoImagesFound(path))
    else match DecodeAll(files, w, ht, h)
      case Err(e) => Err(e)
      case Ok(frames) => Ok(Loaded(frames, [], DefaultFrameDuration, None))
  }

  /** `_load_image_collection` as written: the sorted glob results, where a
      file that two case-variant patterns match is loaded twice. */
  function LoadCollectionAsWritten(path: string, w: nat, ht: nat, h: Host): (r: Result<Loaded, LoadError>)
    ensures path !in h.listing <==> r == Err(NotADirectory(path))
    ensures path in h.listing && CollectionFilesAsWritten(path, h.listing[path], h.windows) == []
            <==> r == Err(NoImagesFound(path))
    ensures r.Ok? ==>
              var files := CollectionFilesAsWritten(path, h.listing[path], h.windows);
              && |r.value.frames| == |files| > 0
              && (forall i :: 0 <= i < |files| ==> h.decode(files[i]).Some?
                                                   && r.value.frames[i] == Fit(h.decode(files[i]).value, w, ht))
              && r.value.frameDuration == DefaultFrameDuration && r.value.capture.None?
  {
    if path !in h.listing then Err(NotADirectory(path))
    else LoadFiles(path, CollectionFilesAsWritten(path, h.listing[path], h.windows), w, ht, h)
  }

  /** `_load_image_collection` with each matching file loaded once, in
      sorted path order. */
  function LoadCollection(path: string, w: nat, ht: nat, h: Host): (r: Result<Loaded, LoadError>)
    ensures path !in h.listing <==> r == Err(NotADirectory(path))
    ensures path in h.listing && CollectionFiles(path, h.listing[path], h.windows) == []
            <==> r == Err(NoImagesFound(path))
    ensures r.Ok? ==>
              var files := CollectionFiles(path, h.listing[path], h.windows);
              && |r.value.frames| == |files| > 0
              && (forall i :: 0 <= i < |files| ==> h.decode(files[i]).Some?
                                                   && r.value.frames[i] == Fit(h.decode(files[i]).value, w, ht))
              && r.value.frameDuration == DefaultFrameDuration && r.value.capture.None?
  {
    if path !in h.listing then Err(NotADirectory(path))
    else LoadFiles(path, CollectionFiles(path, h.listing[path], h.windows), w, ht, h)
  }

  /** `_load_window_capture` with the capture's zoom factor as a parameter. */
  function LoadWindowCaptureWith(c: Config.DisplayConfig, h: Host, scalePct: nat): (r: Result<Loaded, LoadError>)
    ensures !h.hasWindowCapture <==> r == Err(CaptureUnavailable)
    ensures h.hasWindowCapture && (c.windowTitle.None? || c.windowTitle.value == "")
            <==> r == Err(MissingWindowTitle)
    ensures r.Ok? ==>
              && c.windowTitle.Some? && c.windowTitle.value != ""
              && r.value.frames == [BlackFrame(c.outputWidth, c.outputHeight)]
              && r.value.capture.Some?
              && r.value.capture.value.title == c.windowTitle.value
              && r.value.capture.value.targetWidth == c.outputWidth
              && r.value.capture.value.targetHeight == c.outputHeight
              && r.value.capture.value.scalePct == scalePct
              && r.value.frameDuration * (c.captureFps as real) == 1.0
  {
    if !h.hasWindowCapture then Err(CaptureUnavailable)
    else if c.windowTitle.None? || c.windowTitle.value == "" then Err(MissingWindowTitle)
    else
      match WindowCapture.NewCapturer(c.windowTitle.value, c.outputWidth, c.outputHeight,
                                      c.captureFps, scalePct, h.capture)
      case Err(e) => Err(CaptureFailed(e))
      case Ok(cap) =>
        Ok(Loaded([BlackFrame(c.outputWidth, c.outputHeight)], [], 1.0 / (c.captureFps as real), Some(cap)))
  }

  /** `_load_window_capture` as written: the capture is built without the
      configured scale factor, so it keeps its default of 1.0. */
  function LoadWindowCaptureAsWritten(c: Config.DisplayConfig, h: Host): (r: Result<Loaded, LoadError>)
    ensures r.Ok? ==> r.value.capture.Some? && r.value.capture.value.scalePct == 100
  {
    LoadWindowCaptureWith(c, h, 100)
  }

  /** Whatever zoom is configured, the capture built as written never zooms. */
  lemma CaptureIgnoresConfiguredScale(c: Config.DisplayConfig, h: Host)
    requires c.scalePct != 100
    requires LoadWindowCaptureAsWritten(c, h).Ok?
    ensures LoadWindowCaptureAsWritten(c, h).value.capture.value.scalePct != c.scalePct
  {
  }

  /** `_load_window_capture` with the configured zoom passed on. */
  function LoadWindowCapture(c: Config.DisplayConfig, h: Host): (r: Result<Loaded, LoadError>)
    ensures r.Ok? ==> r.value.capture.Some? && r.value.capture.value.scalePct == c.scalePct
    ensures r.Ok? <==> LoadWindowCaptureAsWritten(c, h).Ok?
  {
    LoadWindowCaptureWith(c, h, c.scalePct)
  }

  /** The dispatch of `_load_background`. A video falls back to the
      static-image loader when OpenCV is missing or the extension is not a
      supported video format. Only a collection and a capture depend on the
      reading. */
  function LoadFrames(c: Config.DisplayConfig, h: Host, rd: Reading): (r: Result<Loaded, LoadError>)
    ensures r.Ok? && c.backgroundType != Config.WindowCapture ==> r.value.capture.None?
    ensures r.Ok? && c.backgroundType == Config.WindowCapture ==>
              r.value.capture.Some? && r.value.capture.value.scalePct == (if rd.AsWritten? then 100 else c.scalePct)
  {
    var path, w, ht := c.backgroundPath, c.outputWidth, c.outputHeight;
    match c.backgroundType
    case Image => LoadStatic(path, w, ht, h)
    case Gif => LoadGif(path, w, ht, h)
    case Video =>
      if h.hasOpenCv && IsVideoFile(path, h.windows) then LoadVideo(path, w, ht, h)
      else LoadStatic(path, w, ht, h)
    case ImageCollection =>
      if rd.AsWritten? then LoadCollectionAsWritten(path, w, ht, h) else LoadCollection(path, w, ht, h)
    case WindowCapture =>
      if rd.AsWritten? then LoadWindowCaptureAsWritten(c, h) else LoadWindowCapture(c, h)
  }

  /** Only a collection and a capture load differently under the two
      readings, and a capture succeeds or fails the same way under both;
      what differs there is the zoom alone. */
  lemma ReadingsDifferOnlyThere(c: Config.DisplayConfig, h: Host)
    ensures c.backgroundType != Config.ImageCollection && c.backgroundType != Config.WindowCapture ==>
              LoadFrames(c, h, AsWritten) == LoadFrames(c, h, Corrected)
    ensures c.backgroundType == Config.WindowCapture ==>
              (LoadFrames(c, h, AsWritten).Ok? <==> LoadFrames(c, h, Corrected).Ok?)
  {
  }

  /** The two readings of a collection succeed and fail together: the lists
      hold the same files, so they are empty together and name the same
      undecodable files. */
  lemma CollectionReadingsAgree(c: Config.DisplayConfig, h: Host)
    requires c.backgroundType == Config.ImageCollection
    ensures LoadFrames(c, h, AsWritten).Ok? <==> LoadFrames(c, h, Corrected).Ok?
  {
    var path, w, ht := c.backgroundPath, c.outputWidth, c.outputHeight;
    assert LoadFrames(c, h, AsWritten) == LoadCollectionAsWritten(path, w, ht, h);
    assert LoadFrames(c, h, Corrected) == LoadCollection(path, w, ht, h);
    if path in h.listing {
      var a := CollectionFilesAsWritten(path, h.listing[path], h.windows);
      var b := CollectionFiles(path, h.listing[path], h.windows);
      assert LoadCollectionAsWritten(path, w, ht, h) == LoadFiles(path, a, w, ht, h);
      assert LoadCollection(path, w, ht, h) == LoadFiles(path, b, w, ht, h);
      assert a == [] <==> b == [] by {
        if a != [] { assert a[0] in b; }
        if b != [] { assert b[0] in a; }
      }
      assert DecodeAll(a, w, ht, h).Ok? <==> DecodeAll(b, w, ht, h).Ok? by {
        DecodeAllAgree(a, b, w, ht, h);
      }
    }
  }

  /** Decoding succeeds on two lists holding the same paths together. */
  lemma DecodeAllAgree(a: seq<string>, b: seq<string>, w: nat, ht: nat, h: Host)
    requires forall p :: p in a <==> p in b
    ensures DecodeAll(a, w, ht, h).Ok? <==> DecodeAll(b, w, ht, h).Ok?
  {
    if DecodeAll(a, w, ht, h).Ok? {
      forall i | 0 <= i < |b| ensures h.decode(b[i]).Some? {
        assert b[i] in a;
        var k :| 0 <= k < |a| && a[k] == b[i];
      }
    }
    if DecodeAll(b, w, ht, h).Ok? {
      forall i | 0 <= i < |a| ensures h.decode(a[i]).Some? {
        assert a[i] in b;
        var k :| 0 <= k < |b| && b[k] == a[i];
      }
    }
  }

  /** A video that cannot be played as one loads exactly as a still image
      at the same path would. */
  lemma VideoFallsBackToStill(c: Config.DisplayConfig, h: Host, rd: Reading)
    requires c.backgroundType == Config.Video
    requires !(h.hasOpenCv && IsVideoFile(c.backgroundPath, h.windows))
    ensures LoadFrames(c, h, rd) == LoadFrames(c.(backgroundType := Config.Image), h, rd)
    ensures LoadFrames(c, h, rd).Err? <==> !PathExists(h, c.backgroundPath) || h.decode(c.backgroundPath).None?
  {
  }

  /** What every successful load leaves: output-sized RGBA frames, at least
      one unless a video yields none, one duration per GIF frame with the
      first one current, and in capture mode the black placeholder and a
      capture of the output size. */
  lemma LoadedShape(c: Config.DisplayConfig, h: Host, rd: Reading)
    requires LoadFrames(c, h, rd).Ok?
    ensures var l := LoadFrames(c, h, rd).value;
            && OutputSized(l.frames, c.outputWidth, c.outputHeight)
            && (c.backgroundType != Config.Video ==> |l.frames| > 0)
            && (c.backgroundType == Config.Gif ==>
                  |l.gifDurations| == |l.frames| && l.frameDuration == l.gifDurations[0])
            && (c.backgroundType == Config.WindowCapture ==>
                  && l.frames == [BlackFrame(c.outputWidth, c.outputHeight)]
                  && l.capture.Some?
                  && l.capture.value.targetWidth == c.outputWidth
                  && l.capture.value.targetHeight == c.outputHeight)
  {
    var path, w, ht := c.backgroundPath, c.outputWidth, c.outputHeight;
    var l := LoadFrames(c, h, rd).value;
    match c.backgroundType
    case Image =>
    case Gif =>
      var fs := h.animation(path).value.Frames();
      forall i | 0 <= i < |l.frames| ensures Width(l.frames[i]) == w && Height(l.frames[i]) == ht && ModeOf(l.frames[i]) == Rgba {
        assert l.frames[i] == Fit(fs[i].img, w, ht);
      }
    case Video =>
      if h.hasOpenCv && IsVideoFile(path, h.windows) {
        var v := h.video(path);
        forall i | 0 <= i < |l.frames| ensures Width(l.frames[i]) == w && Height(l.frames[i]) == ht && ModeOf(l.frames[i]) == Rgba {
          assert l.frames[i] == Fit(v.readable[i], w, ht);
        }
      }
    case ImageCollection =>
      var files := if rd.AsWritten? then CollectionFilesAsWritten(path, h.listing[path], h.windows)
                   else CollectionFiles(path, h.listing[path], h.windows);
      forall i | 0 <= i < |l.frames| ensures Width(l.frames[i]) == w && Height(l.frames[i]) == ht && ModeOf(l.frames[i]) == Rgba {
        assert l.frames[i] == Fit(h.decode(files[i]).value, w, ht);
      }
    case WindowCapture =>
  }

  // ---------------------------------------------------------------------
  // The scheduler
  // ---------------------------------------------------------------------

  /** The scheduler's state: the loaded frames, the current index, the
      current frame's duration and when it started, and the live capture. */
  datatype Manager = Manager(
    kind: Config.BackgroundType,
    width: nat,
    height: nat,
    frames: seq<Image>,
    gifDurations: seq<real>,
    index: nat,
    frameDuration: real,
    startTime: real,
    capture: Option<WindowCapture.Capturer>,
    captureMode: bool,
    metricsRunning: bool)

  /** The invariant polling relies on and keeps: a frame to show, an index
      inside the list, one duration per GIF frame, output-sized frames, and
      in capture mode the single black placeholder and a capture of the same
      size. */
  ghost predicate Valid(m: Manager) {
    && 0 < |m.frames|
    && m.index < |m.frames|
    && (m.kind == Config.Gif ==> |m.gifDurations| == |m.frames|)
    && OutputSized(m.frames, m.width, m.height)
    && (m.captureMode ==> m.kind == Config.WindowCapture && m.frames == [BlackFrame(m.width, m.height)])
    && (m.capture.Some? ==> m.capture.value.targetWidth == m.width && m.capture.value.targetHeight == m.height)
  }

  /** Every duration the scheduler may switch to is positive. */
  ghost predicate PositiveDurations(m: Manager) {
    m.frameDuration > 0.0 && forall i :: 0 <= i < |m.gifDurations| ==> m.gifDurations[i] > 0.0
  }

  /** Metric collection is configured: some overlay is to be drawn. */
  predicate MetricsWanted(c: Config.DisplayConfig) {
    |Config.Metrics(c)| != 0
  }

  /** `FrameManager(config)`: with overlays configured, start the metric
      collectors first, and fail if that raises; then load the background
      and start its first frame's clock at `now`. Metric collection runs iff
      overlays are configured. */
  function Load(c: Config.DisplayConfig, h: Host, now: real, rd: Reading): (r: Result<Manager, InitError>)
    ensures MetricsWanted(c) && h.metricsError.Some? <==> r.Err? && r.error.MetricsFailed?
    ensures r.Err? && r.error.MetricsFailed? ==> h.metricsError == Some(r.error.message)
    ensures r.Ok? <==> !(MetricsWanted(c) && h.metricsError.Some?) && LoadFrames(c, h, rd).Ok?
    ensures r.Err? && r.error.LoadFailed? ==> LoadFrames(c, h, rd) == Err(r.error.cause)
    ensures r.Ok? ==>
              var l := LoadFrames(c, h, rd).value;
              && r.value.index == 0 && r.value.startTime == now
              && r.value.frames == l.frames && r.value.gifDurations == l.gifDurations
              && r.value.frameDuration == l.frameDuration && r.value.capture == l.capture
              && r.value.width == c.outputWidth && r.value.height == c.outputHeight
              && r.value.kind == c.backgroundType
              && r.value.captureMode == (c.backgroundType == Config.WindowCapture)
              && r.value.metricsRunning == MetricsWanted(c)
  {
    Start(c, h, LoadFrames(c, h, rd), now)
  }

  /** The rest of `__init__` once the background has been loaded (or has
      failed to load) as `lf`: a metrics start-up failure comes first,
      then a load failure, and otherwise the fresh manager. */
  function Start(c: Config.DisplayConfig, h: Host, lf: Result<Loaded, LoadError>, now: real): (r: Result<Manager, InitError>)
    ensures MetricsWanted(c) && h.metricsError.Some? <==> r.Err? && r.error.MetricsFailed?
    ensures r.Err? && r.error.MetricsFailed? ==> h.metricsError == Some(r.error.message)
    ensures r.Ok? <==> !(MetricsWanted(c) && h.metricsError.Some?) && lf.Ok?
    ensures r.Err? && r.error.LoadFailed? ==> lf == Err(r.error.cause)
    ensures r.Ok? ==> lf.Ok? && r.value == Fresh(c, lf.value, now)
  {
    if MetricsWanted(c) && h.metricsError.Some? then Err(MetricsFailed(h.metricsError.value))
    else if lf.Err? then Err(LoadFailed(lf.error))
    else Ok(Fresh(c, lf.value, now))
  }

  /** The manager that `__init__` leaves behind once the frames are loaded:
      first frame, timer started at `now`, capture mode for window capture. */
  function Fresh(c: Config.DisplayConfig, l: Loaded, now: real): (m: Manager)
    ensures m.index == 0 && m.startTime == now
    ensures m.frames == l.frames && m.gifDurations == l.gifDurations
    ensures m.frameDuration == l.frameDuration && m.capture == l.capture
    ensures m.width == c.outputWidth && m.height == c.outputHeight && m.kind == c.backgroundType
    ensures m.captureMode <==> c.backgroundType == Config.WindowCapture
    ensures m.metricsRunning <==> MetricsWanted(c)
  {
    Manager(c.backgroundType, c.outputWidth, c.outputHeight, l.frames, l.gifDurations, 0,
            l.frameDuration, now, l.capture, c.backgroundType == Config.WindowCapture,
            MetricsWanted(c))
  }

  /** A freshly loaded manager satisfies the polling invariant, except for a
      video that yielded no frame at all. */
  lemma LoadValid(c: Config.DisplayConfig, h: Host, now: real, rd: Reading)
    requires Load(c, h, now, rd).Ok?
    ensures c.backgroundType != Config.Video ==> Valid(Load(c, h, now, rd).value)
    ensures c.backgroundType == Config.Video ==> (Valid(Load(c, h, now, rd).value) <==> |Load(c, h, now, rd).value.frames| > 0)
    ensures c.backgroundType == Config.Gif ==>
              var m := Load(c, h, now, rd).value;
              |m.gifDurations| > 0 && m.frameDuration == m.gifDurations[0]
  {
    LoadedShape(c, h, rd);
  }

  /** A GIF frame's duration is positive unless its metadata gives a
      non-positive number of milliseconds. */
  predicate PositiveGifFrame(f: GifFrame) {
    !f.duration.DurationMs? || f.duration.ms > 0
  }

  lemma GifLoadPositive(path: string, w: nat, ht: nat, h: Host)
    requires LoadGif(path, w, ht, h).Ok?
    requires forall i :: 0 <= i < |h.animation(path).value.Frames()| ==> PositiveGifFrame(h.animation(path).value.Frames()[i])
    ensures var l := LoadGif(path, w, ht, h).value;
            l.frameDuration > 0.0 && forall i :: 0 <= i < |l.gifDurations| ==> l.gifDurations[i] > 0.0
  {
    var l := LoadGif(path, w, ht, h).value;
    var fs := h.animation(path).value.Frames();
    forall i | 0 <= i < |l.gifDurations| ensures l.gifDurations[i] > 0.0 {
      assert l.gifDurations[i] == GifDuration(fs[i].duration);
      assert PositiveGifFrame(fs[i]);
    }
  }

  lemma VideoLoadPositive(path: string, w: nat, ht: nat, h: Host)
    requires LoadVideo(path, w, ht, h).Ok?
    ensures LoadVideo(path, w, ht, h).value.frameDuration > 0.0
  {
    var l := LoadVideo(path, w, ht, h).value;
    var v := h.video(path);
    if v.fps > 0.0 {
      assert l.frameDuration * v.fps == 1.0;
    } else {
      assert l.frameDuration * 30.0 == 1.0;
    }
  }

  lemma CaptureLoadPositive(c: Config.DisplayConfig, h: Host, scalePct: nat)
    requires LoadWindowCaptureWith(c, h, scalePct).Ok? && c.captureFps > 0
    ensures LoadWindowCaptureWith(c, h, scalePct).value.frameDuration > 0.0
  {
    var l := LoadWindowCaptureWith(c, h, scalePct).value;
    assert l.frameDuration * (c.captureFps as real) == 1.0;
  }

  /** A GIF whose every frame has a positive duration (or none, meaning
      100 ms) starts with positive durations throughout; so do the other
      kinds, given a positive capture rate. */
  lemma LoadPositiveDurations(c: Config.DisplayConfig, h: Host, now: real, rd: Reading)
    requires Load(c, h, now, rd).Ok?
    requires c.backgroundType == Config.Gif ==>
               forall i :: 0 <= i < |h.animation(c.backgroundPath).value.Frames()| ==>
                 PositiveGifFrame(h.animation(c.backgroundPath).value.Frames()[i])
    requires c.backgroundType == Config.WindowCapture ==> c.captureFps > 0
    ensures PositiveDurations(Load(c, h, now, rd).value)
  {
    var path, w, ht := c.backgroundPath, c.outputWidth, c.outputHeight;
    match c.backgroundType
    case Image =>
    case Gif => GifLoadPositive(path, w, ht, h);
    case Video =>
      if h.hasOpenCv && IsVideoFile(path, h.windows) {
        VideoLoadPositive(path, w, ht, h);
      }
    case ImageCollection =>
    case WindowCapture => CaptureLoadPositive(c, h, if rd.AsWritten? then 100 else c.scalePct);
  }

  /** The capture is consulted only in capture mode while it is alive. */
  predicate Capturing(m: Manager) {
    m.captureMode && m.capture.Some?
  }

  /** The current frame's time is up. */
  predicate Due(m: Manager, now: real) {
    now - m.startTime >= m.frameDuration
  }

  datatype Polled = Polled(next: Manager, frame: Image)

  /** `get_current_frame` at clock reading `now`, with the desktop as it is
      at that moment. */
  function Poll(m: Manager, now: real, desktop: WindowCapture.Desktop,
                grab: WindowCapture.Rect -> Option<Image>): (r: Polled)
    requires Valid(m)
    ensures Valid(r.next)
    ensures PositiveDurations(m) ==> PositiveDurations(r.next)
    ensures r.next == m.(index := r.next.index, startTime := r.next.startTime,
                         frameDuration := r.next.frameDuration)
    ensures r.next.startTime == if Due(m, now) then now else m.startTime
    ensures Width(r.frame) == m.width && Height(r.frame) == m.height && ModeOf(r.frame) == Rgba
    ensures Capturing(m) ==>
              && r.next.index == m.index && r.next.frameDuration == m.frameDuration
              && r.frame == WindowCapture.CaptureFrame(m.capture.value, desktop, grab).GetOr(m.frames[0])
    ensures !Capturing(m) ==>
              && r.next.index == (if Due(m, now) then (m.index + 1) % |m.frames| else m.index)
              && r.frame == m.frames[r.next.index]
              && r.next.frameDuration == if m.kind == Config.Gif then m.gifDurations[r.next.index] else m.frameDuration
  {
    var due := Due(m, now);
    var start := if due then now else m.startTime;
    if Capturing(m) then
      var captured := WindowCapture.CaptureFrame(m.capture.value, desktop, grab);
      Polled(m.(startTime := start), captured.GetOr(m.frames[0]))
    else
      var i := if due then (m.index + 1) % |m.frames| else m.index;
      var duration := if m.kind == Config.Gif then m.gifDurations[i] else m.frameDuration;
      Polled(m.(index := i, startTime := start, frameDuration := duration), m.frames[i])
  }

  /** In capture mode a poll shows the capture taken during that poll, or
      the black placeholder; nothing captured by an earlier poll is shown
      again. */
  lemma CaptureNotReplayed(m: Manager, t1: real, d1: WindowCapture.Desktop, g1: WindowCapture.Rect -> Option<Image>,
                           t2: real, d2: WindowCapture.Desktop, g2: WindowCapture.Rect -> Option<Image>)
    requires Valid(m) && Capturing(m)
    ensures var m1 := Poll(m, t1, d1, g1).next;
            Poll(m1, t2, d2, g2).frame == Poll(m, t2, d2, g2).frame
    ensures WindowCapture.CaptureFrame(m.capture.value, d2, g2).None? ==>
              Poll(m, t2, d2, g2).frame == BlackFrame(m.width, m.height)
  {
  }

  /** `cleanup`: stop metric collection and drop the capture. */
  function Cleanup(m: Manager): (r: Manager)
    ensures !Capturing(r) && !r.metricsRunning
    ensures r.(capture := m.capture, metricsRunning := m.metricsRunning) == m
    ensures Valid(m) ==> Valid(r)
  {
    m.(capture := None, metricsRunning := false)
  }

  /** After cleanup, a capture-mode manager shows the black placeholder on
      every poll. */
  lemma PollAfterCleanupIsBlack(m: Manager, now: real, d: WindowCapture.Desktop, g: WindowCapture.Rect -> Option<Image>)
    requires Valid(m) && m.captureMode
    ensures Poll(Cleanup(m), now, d, g).frame == BlackFrame(m.width, m.height)
  {
    var r := Poll(Cleanup(m), now, d, g);
    assert r.next.index < 1;
  }

  /** Poll at each clock reading in turn. */
  function RunPolls(m: Manager, nows: seq<real>, d: WindowCapture.Desktop,
                    g: WindowCapture.Rect -> Option<Image>): (r: Manager)
    requires Valid(m)
    ensures Valid(r)
    ensures r.frames == m.frames && r.kind == m.kind && r.captureMode == m.captureMode && r.capture == m.capture
    decreases |nows|
  {
    if |nows| == 0 then m
    else RunPolls(Poll(m, nows[0], d, g).next, nows[1..], d, g)
  }

  /** Every poll of the run finds its frame's time up. */
  ghost predicate AllDue(m: Manager, nows: seq<real>, d: WindowCapture.Desktop, g: WindowCapture.Rect -> Option<Image>)
    requires Valid(m)
    decreases |nows|
  {
    |nows| == 0 || (Due(m, nows[0]) && AllDue(Poll(m, nows[0], d, g).next, nows[1..], d, g))
  }

  /** No poll of the run finds its frame's time up. */
  ghost predicate NoneDue(m: Manager, nows: seq<real>, d: WindowCapture.Desktop, g: WindowCapture.Rect -> Option<Image>)
    requires Valid(m)
    decreases |nows|
  {
    |nows| == 0 || (!Due(m, nows[0]) && NoneDue(Poll(m, nows[0], d, g).next, nows[1..], d, g))
  }

  /** Where the index stands after `k` advances from `i`, for `k` up to one
      full loop: `(i + k) mod n` without the division. */
  function Rotated(i: nat, k: nat, n: nat): nat {
    if i + k < n then i + k else i + k - n
  }

  /** One advance is one step of the rotation. */
  lemma AdvanceStep(i: nat, k: nat, n: nat)
    requires i < n && k < n
    ensures Rotated((i + 1) % n, k, n) == Rotated(i, k + 1, n)
  {
    if i + 1 < n {
      assert (i + 1) % n == i + 1;
    } else {
      assert (i + 1) % n == 0;
    }
  }

  /** Up to a full loop, `k` due polls move the index `k` places round it. */
  lemma {:induction false} DuePollsAdvance(m: Manager, nows: seq<real>, d: WindowCapture.Desktop, g: WindowCapture.Rect -> Option<Image>)
    requires Valid(m) && !Capturing(m) && AllDue(m, nows, d, g)
    requires |nows| <= |m.frames|
    ensures RunPolls(m, nows, d, g).index == Rotated(m.index, |nows|, |m.frames|)
    decreases |nows|
  {
    if |nows| > 0 {
      var m1 := Poll(m, nows[0], d, g).next;
      DuePollsAdvance(m1, nows[1..], d, g);
      AdvanceStep(m.index, |nows| - 1, |m.frames|);
    }
  }

  /** As many due polls as there are frames bring the index back to where
      it started: the loop never ends and never skips. */
  lemma FullLoopReturns(m: Manager, nows: seq<real>, d: WindowCapture.Desktop, g: WindowCapture.Rect -> Option<Image>)
    requires Valid(m) && !Capturing(m) && AllDue(m, nows, d, g)
    requires |nows| == |m.frames|
    ensures RunPolls(m, nows, d, g).index == m.index
  {
    DuePollsAdvance(m, nows, d, g);
  }

  /** Polls that all come too early change neither the index nor the start
      time. */
  lemma {:induction false} EarlyPollsHold(m: Manager, nows: seq<real>, d: WindowCapture.Desktop, g: WindowCapture.Rect -> Option<Image>)
    requires Valid(m) && !Capturing(m) && NoneDue(m, nows, d, g)
    ensures RunPolls(m, nows, d, g).index == m.index
    ensures RunPolls(m, nows, d, g).startTime == m.startTime
    decreases |nows|
  {
    if |nows| > 0 {
      EarlyPollsHold(Poll(m, nows[0], d, g).next, nows[1..], d, g);
    }
  }

  /** In GIF mode, after any run of polls the current duration is that of
      the frame being shown. */
  lemma {:induction false} GifDurationFollowsFrame(m: Manager, nows: seq<real>, d: WindowCapture.Desktop, g: WindowCapture.Rect -> Option<Image>)
    requires Valid(m) && m.kind == Config.Gif && !m.captureMode && |nows| > 0
    ensures var r := RunPolls(m, nows, d, g);
            r.frameDuration == r.gifDurations[r.index]
    decreases |nows|
  {
    var m1 := Poll(m, nows[0], d, g).next;
    if |nows| > 1 {
      GifDurationFollowsFrame(m1, nows[1..], d, g);
    }
  }
}
