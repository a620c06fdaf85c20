/** The Windows video-codec survey: codec packs found through the registry
    or on disk, FFmpeg on the `PATH`, what the OpenCV build supports, the
    Media Foundation feature state, and the recommendations drawn from what
    is missing. The registry, the file system, `subprocess.run` and `cv2`
    are parameters. */
module CodecDetector {
  import opened Wrappers
  import opened Readings
  import opened Text

  /** The detector refuses to exist off Windows. */
  datatype Detector = Detector(packKeys: seq<(string, seq<string>)>)

  const KLiteName := "K-Lite Codec Pack"
  const LavName := "LAV Filters"

  /** `CODEC_PACK_KEYS`: each pack with its `HKEY_LOCAL_MACHINE` subkeys, in
      the order they are tried. */
  const PackKeys: seq<(string, seq<string>)> := [
    (KLiteName, ["SOFTWARE\\KLCodecPack", "SOFTWARE\\WOW6432Node\\KLCodecPack"]),
    (LavName, ["SOFTWARE\\LAV", "SOFTWARE\\WOW6432Node\\LAV"])
  ]

  /** `CodecDetector()`: a `RuntimeError` unless running on Windows. */
  function NewDetector(windows: bool): (r: Result<Detector, string>)
    ensures r.Ok? <==> windows
    ensures r.Ok? ==> r.value.packKeys == PackKeys
    ensures r.Err? ==> r.error == "Codec detector only works on Windows"
  {
    if windows then Ok(Detector(PackKeys)) else Err("Codec detector only works on Windows")
  }

  // ---------------------------------------------------------------------
  // Codec packs
  // ---------------------------------------------------------------------

  datatype Source = Registry | Filesystem

  /** One detected pack: `{'name', 'source', 'version'?, 'path'?}`. */
  datatype PackInfo = PackInfo(name: string, source: Source, version: Option<string>, path: Option<string>)

  /** What opening one registry key gives: the key is missing
      (`FileNotFoundError`), opening it fails some other way, or it opens and
      the values `Version`, `InstallDir` and `InstallPath` can each be read
      or not. */
  datatype RegKey =
    | NotFound
    | Unreadable
    | Opened(version: Option<string>, installDir: Option<string>, installPath: Option<string>)

  /** `_check_registry_keys`: the first key that opens decides; keys that
      are missing or fail to open are skipped. */
  function CheckRegistryKeys(name: string, keys: seq<string>, reg: string -> RegKey): (r: Option<PackInfo>)
    ensures r.None? <==> forall k :: 0 <= k < |keys| ==> !reg(keys[k]).Opened?
    ensures r.Some? ==> r.value.name == name && r.value.source == Registry
    decreases |keys|
  {
    if |keys| == 0 then None
    else
      match reg(keys[0])
      case Opened(v, dir, path) =>
        Some(PackInfo(name, Registry, v, if dir.Some? then dir else path))
      case _ =>
        assert forall k :: 0 < k < |keys| ==> keys[k] == keys[1..][k - 1];
        CheckRegistryKeys(name, keys[1..], reg)
  }

  /** The reported information comes from the first key that opens: its
      `Version`, and its `InstallDir` in preference to its `InstallPath`. */
  lemma {:induction false} RegistryFirstOpened(name: string, keys: seq<string>, reg: string -> RegKey, k: nat)
    requires k < |keys| && reg(keys[k]).Opened?
    requires forall j :: 0 <= j < k ==> !reg(keys[j]).Opened?
    ensures var key := reg(keys[k]);
            CheckRegistryKeys(name, keys, reg)
            == Some(PackInfo(name, Registry, key.version, if key.installDir.Some? then key.installDir else key.installPath))
    decreases k
  {
    if k > 0 {
      assert keys[1..][k - 1] == keys[k];
      RegistryFirstOpened(name, keys[1..], reg, k - 1);
    }
  }

  /** `CODEC_LOCATIONS`, keyed by the short names the source gives it. */
  const CodecLocations: map<string, seq<string>> := map[
    "K-Lite" := ["C:\\Program Files\\K-Lite Codec Pack", "C:\\Program Files (x86)\\K-Lite Codec Pack"],
    "LAV" := ["C:\\Program Files\\LAV Filters", "C:\\Program Files (x86)\\LAV Filters"]
  ]

  /** `CODEC_LOCATIONS.get(pack_name, [])` as the source looks it up. */
  function LocationsAsWritten(packName: string): (r: seq<string>)
    ensures packName != "K-Lite" && packName != "LAV" ==> r == []
  {
    if packName in CodecLocations then CodecLocations[packName] else []
  }

  /** The folders that evidently belong to each pack, keyed by the names
      `detect_codec_packs` actually passes. */
  function Locations(packName: string): (r: seq<string>)
    ensures packName == KLiteName ==> r == CodecLocations["K-Lite"]
    ensures packName == LavName ==> r == CodecLocations["LAV"]
    ensures packName != KLiteName && packName != LavName ==> r == []
  {
    if packName == KLiteName then CodecLocations["K-Lite"]
    else if packName == LavName then CodecLocations["LAV"]
    else []
  }

  /** `_check_file_locations` over a given list of folders: a folder that
      exists, reported with source `filesystem`. */
  function CheckFileLocations(packName: string, locations: seq<string>, present: string -> bool): (r: Option<PackInfo>)
    ensures r.None? <==> forall k :: 0 <= k < |locations| ==> !present(locations[k])
    ensures r.Some? ==> r.value.name == packName && r.value.source == Filesystem && r.value.version.None?
    decreases |locations|
  {
    if |locations| == 0 then None
    else if present(locations[0]) then Some(PackInfo(packName, Filesystem, None, Some(locations[0])))
    else
      assert forall k :: 0 < k < |locations| ==> locations[k] == locations[1..][k - 1];
      CheckFileLocations(packName, locations[1..], present)
  }

  /** The folder reported is the first one that exists. */
  lemma {:induction false} FirstExistingLocation(packName: string, locations: seq<string>, present: string -> bool, k: nat)
    requires k < |locations| && present(locations[k])
    requires forall j :: 0 <= j < k ==> !present(locations[j])
    ensures CheckFileLocations(packName, locations, present) == Some(PackInfo(packName, Filesystem, None, Some(locations[k])))
    decreases k
  {
    if k > 0 {
      assert locations[1..][k - 1] == locations[k];
      FirstExistingLocation(packName, locations[1..], present, k - 1);
    }
  }

  /** One pack of `detect_codec_packs`: the registry first, the file system
      only when the registry gives nothing. */
  function DetectPack(name: string, keys: seq<string>, reg: string -> RegKey,
                      locations: string -> seq<string>, present: string -> bool): (r: Option<PackInfo>)
    ensures CheckRegistryKeys(name, keys, reg).Some? ==> r == CheckRegistryKeys(name, keys, reg)
    ensures CheckRegistryKeys(name, keys, reg).None? ==> r == CheckFileLocations(name, locations(name), present)
    ensures r.Some? ==> r.value.name == name
  {
    var info := CheckRegistryKeys(name, keys, reg);
    if info.Some? then info else CheckFileLocations(name, locations(name), present)
  }

  /** A pack goes undetected exactly when none of its keys opens and none of
      its folders exists. */
  lemma DetectPackNone(name: string, keys: seq<string>, reg: string -> RegKey,
                       locations: string -> seq<string>, present: string -> bool)
    ensures DetectPack(name, keys, reg, locations, present).None?
            <==> (forall k :: 0 <= k < |keys| ==> !reg(keys[k]).Opened?)
                 && (forall k :: 0 <= k < |locations(name)| ==> !present(locations(name)[k]))
  {
  }

  /** The names of detected packs, in order. */
  function Names(r: seq<PackInfo>): (n: seq<string>)
    ensures |n| == |r| && forall i :: 0 <= i < |r| ==> n[i] == r[i].name
  {
    seq(|r|, i requires 0 <= i < |r| => r[i].name)
  }

  /** The names of the packs asked about, in order. */
  function PackNames(packs: seq<(string, seq<string>)>): (n: seq<string>)
    ensures |n| == |packs| && forall i :: 0 <= i < |packs| ==> n[i] == packs[i].0
  {
    seq(|packs|, i requires 0 <= i < |packs| => packs[i].0)
  }

  /** `detect_codec_packs` with a given folder lookup: the packs found, in
      the order of `packs`. */
  function DetectPacks(packs: seq<(string, seq<string>)>, reg: string -> RegKey,
                       locations: string -> seq<string>, present: string -> bool): (r: seq<PackInfo>)
    ensures |r| <= |packs|
    ensures forall n :: n in Names(r) ==> n in PackNames(packs)
    decreases |packs|
  {
    if |packs| == 0 then []
    else
      var rest := DetectPacks(packs[1..], reg, locations, present);
      assert PackNames(packs) == [packs[0].0] + PackNames(packs[1..]);
      match DetectPack(packs[0].0, packs[0].1, reg, locations, present)
      case Some(info) =>
        assert Names([info] + rest) == [info.name] + Names(rest);
        [info] + rest
      case None => rest
  }

  /** Every pack that is detected through some route appears, and every pack
      that appears was detected; with distinct pack names nothing appears
      twice. */
  lemma {:induction false} DetectPacksComplete(packs: seq<(string, seq<string>)>, reg: string -> RegKey,
                                               locations: string -> seq<string>, present: string -> bool, k: nat)
    requires k < |packs|
    ensures DetectPack(packs[k].0, packs[k].1, reg, locations, present).Some? ==>
              DetectPack(packs[k].0, packs[k].1, reg, locations, present).value in DetectPacks(packs, reg, locations, present)
    decreases |packs|
  {
    if k > 0 {
      DetectPacksComplete(packs[1..], reg, locations, present, k - 1);
      assert packs[1..][k - 1] == packs[k];
    }
  }

  /** The survey over two packs is the first pack's finding, then the
      second's. */
  lemma PacksOfTwo(packs: seq<(string, seq<string>)>, reg: string -> RegKey,
                   locations: string -> seq<string>, present: string -> bool)
    requires |packs| == 2
    ensures var p0 := DetectPack(packs[0].0, packs[0].1, reg, locations, present);
            var p1 := DetectPack(packs[1].0, packs[1].1, reg, locations, present);
            DetectPacks(packs, reg, locations, present)
            == (if p0.Some? then [p0.value] else []) + (if p1.Some? then [p1.value] else [])
  {
    assert packs[1..][0] == packs[1];
    assert packs[1..][1..] == [];
  }

  /** The survey as the source runs it: `CODEC_PACK_KEYS` with the
      `CODEC_LOCATIONS.get` fallback. */
  function DetectCodecPacksAsWritten(reg: string -> RegKey, present: string -> bool): (r: seq<PackInfo>)
    ensures |r| <= 2
  {
    DetectPacks(PackKeys, reg, LocationsAsWritten, present)
  }

  /** The survey with the fallback keyed by the names it is asked about. */
  function DetectCodecPacks(reg: string -> RegKey, present: string -> bool): (r: seq<PackInfo>)
    ensures |r| <= 2
    ensures forall n :: n in Names(r) ==> n == KLiteName || n == LavName
  {
    assert PackNames(PackKeys) == [KLiteName, LavName];
    DetectPacks(PackKeys, reg, Locations, present)
  }

  /** The fallback as written never finds anything: neither pack name is a
      key of `CODEC_LOCATIONS`. */
  lemma FallbackNeverMatches(k: nat, present: string -> bool)
    requires k < |PackKeys|
    ensures LocationsAsWritten(PackKeys[k].0) == []
    ensures CheckFileLocations(PackKeys[k].0, LocationsAsWritten(PackKeys[k].0), present).None?
  {
  }

  /** A K-Lite install that left no registry key but whose folder is on disk:
      the survey as written reports no codec pack at all (and so recommends
      installing K-Lite), while the corrected one finds it through the file
      system. */
  lemma KLiteOnDiskMissed(reg: string -> RegKey, present: string -> bool)
    requires forall key :: reg(key) == NotFound
    requires forall p :: present(p) <==> p == "C:\\Program Files\\K-Lite Codec Pack"
    ensures DetectCodecPacksAsWritten(reg, present) == []
    ensures DetectCodecPacks(reg, present)
            == [PackInfo(KLiteName, Filesystem, None, Some("C:\\Program Files\\K-Lite Codec Pack"))]
  {
    FallbackNeverMatches(0, present);
    FallbackNeverMatches(1, present);
    PacksOfTwo(PackKeys, reg, LocationsAsWritten, present);
    PacksOfTwo(PackKeys, reg, Locations, present);
    var lav := Locations(LavName);
    assert !present(lav[0]) && !present(lav[1]);
  }

  /** With distinct pack names, a pack's name is among the results exactly
      when that pack is detected. */
  lemma {:induction false} DetectPacksNamed(packs: seq<(string, seq<string>)>, reg: string -> RegKey,
                                            locations: string -> seq<string>, present: string -> bool, k: nat)
    requires k < |packs|
    requires forall i, j :: 0 <= i < j < |packs| ==> packs[i].0 != packs[j].0
    ensures packs[k].0 in Names(DetectPacks(packs, reg, locations, present))
            <==> DetectPack(packs[k].0, packs[k].1, reg, locations, present).Some?
    decreases |packs|
  {
    var r := DetectPacks(packs, reg, locations, present);
    var rest := DetectPacks(packs[1..], reg, locations, present);
    var p0 := DetectPack(packs[0].0, packs[0].1, reg, locations, present);
    var head := if p0.Some? then [p0.value] else [];
    assert r == head + rest;
    assert Names(r) == Names(head) + Names(rest);
    if k == 0 {
      if p0.None? {
        assert packs[0].0 !in PackNames(packs[1..]);
      } else {
        assert Names(r)[0] == packs[0].0;
      }
    } else {
      DetectPacksNamed(packs[1..], reg, locations, present, k - 1);
      assert packs[1..][k - 1] == packs[k];
      assert packs[k].0 !in Names(head);
    }
  }

  /** With the corrected fallback, a pack is reported exactly when one of its
      registry keys opens or one of its folders exists. */
  lemma DetectCodecPacksSound(reg: string -> RegKey, present: string -> bool, k: nat)
    requires k < |PackKeys|
    ensures PackKeys[k].0 in Names(DetectCodecPacks(reg, present))
            <==> (exists j :: 0 <= j < |PackKeys[k].1| && reg(PackKeys[k].1[j]).Opened?)
                 || (exists j :: 0 <= j < |Locations(PackKeys[k].0)| && present(Locations(PackKeys[k].0)[j]))
  {
    assert PackKeys[0].0 != PackKeys[1].0;
    DetectPacksNamed(PackKeys, reg, Locations, present, k);
    DetectPackNone(PackKeys[k].0, PackKeys[k].1, reg, Locations, present);
  }

  /** Nothing in the registry and nothing on disk: no pack is reported. */
  lemma NothingInstalled(reg: string -> RegKey, present: string -> bool)
    requires forall key :: !reg(key).Opened?
    requires forall p :: !present(p)
    ensures DetectCodecPacks(reg, present) == []
    ensures DetectCodecPacksAsWritten(reg, present) == []
  {
    PacksOfTwo(PackKeys, reg, Locations, present);
    DetectPackNone(PackKeys[0].0, PackKeys[0].1, reg, Locations, present);
    DetectPackNone(PackKeys[1].0, PackKeys[1].1, reg, Locations, present);
    PacksOfTwo(PackKeys, reg, LocationsAsWritten, present);
    DetectPackNone(PackKeys[0].0, PackKeys[0].1, reg, LocationsAsWritten, present);
    DetectPackNone(PackKeys[1].0, PackKeys[1].1, reg, LocationsAsWritten, present);
  }

  // ---------------------------------------------------------------------
  // FFmpeg, OpenCV and Media Foundation
  // ---------------------------------------------------------------------

  /** What `subprocess.run(..., capture_output=True, text=True)` gives: the
      call raises, with the text `str(e)` of the exception (a missing
      program's `FileNotFoundError`, a timeout), or the program exits with a
      return code and its standard output. */
  datatype Run = Raised(message: string) | Exited(code: int, stdout: string)

  /** `{'available': True, 'version': ..., 'path': 'In system PATH'}`. */
  datatype FFmpegInfo = FFmpegInfo(version: string, path: string)

  /** `detect_ffmpeg`: the first line of `ffmpeg -version`, reported only
      when it exits with 0. */
  function DetectFFmpeg(run: Run): (r: Option<FFmpegInfo>)
    ensures r.Some? <==> run.Exited? && run.code == 0
    ensures r.Some? ==> '\n' !in r.value.version && r.value.version <= run.stdout
    ensures r.Some? ==> r.value.path == "In system PATH"
  {
    match run
    case Exited(code, out) =>
      if code == 0 then
        var first := Split(out, '\n')[0];
        FirstLinePrefix(out);
        Some(FFmpegInfo(first, "In system PATH"))
      else None
    case _ => None
  }

  /** The first piece of `s.split('\n')` is the first line of `s`: all of it
      when there is no newline, otherwise what comes before the first one. */
  lemma FirstLinePrefix(s: string)
    ensures Split(s, '\n')[0] <= s
    ensures '\n' !in s ==> Split(s, '\n')[0] == s
    ensures '\n' in s ==> Split(s, '\n')[0] + "\n" <= s
  {
    if '\n' in s {
      var i := IndexOf(s, '\n');
      assert Split(s, '\n')[0] == s[..i];
      assert s[..i] + "\n" == s[..i + 1];
    }
  }

  /** The reported version is the whole first line of the output: it is the
      whole output, or a newline follows it there. */
  lemma FFmpegVersionIsFirstLine(code: int, stdout: string)
    requires code == 0
    ensures DetectFFmpeg(Exited(code, stdout)).Some?
    ensures var v := DetectFFmpeg(Exited(code, stdout)).value.version;
            v == stdout || v + "\n" <= stdout
  {
    FirstLinePrefix(stdout);
  }

  /** What importing `cv2` and reading its build information gives. */
  datatype CvBuild = CvNotInstalled | CvRaised(message: string) | CvReady(version: string, buildInfo: string)

  /** `detect_opencv_codecs`: the support flags, or `{'error': ...}`. */
  datatype OpenCvInfo =
    | CvError(error: string)
    | CvInfo(version: string, ffmpegSupport: bool, gstreamerSupport: bool, mediaFoundationSupport: bool,
             videoBackends: seq<string>)

  /** The three support flags, each a case-insensitive substring test on the
      build information. */
  function BuildFlags(buildInfo: string): (r: (bool, bool, bool))
    ensures r.0 <==> Occurs("ffmpeg", Lower(buildInfo)) || Occurs("avcodec", Lower(buildInfo))
    ensures r.1 <==> Occurs("gstreamer", Lower(buildInfo))
    ensures r.2 <==> Occurs("media foundation", Lower(buildInfo)) || Occurs("msmf", Lower(buildInfo))
  {
    var b := Lower(buildInfo);
    (Contains(b, "ffmpeg") || Contains(b, "avcodec"),
     Contains(b, "gstreamer"),
     Contains(b, "media foundation") || Contains(b, "msmf"))
  }

  /** The flags do not depend on letter case: upper-casing or lower-casing
      the build information leaves them as they are. */
  lemma BuildFlagsIgnoreCase(buildInfo: string)
    ensures BuildFlags(Upper(buildInfo)) == BuildFlags(buildInfo)
    ensures BuildFlags(Lower(buildInfo)) == BuildFlags(buildInfo)
  {
    LowerUpper(buildInfo);
    LowerIdempotent(buildInfo);
  }

  /** `_get_opencv_backends`' table, in its order. */
  const BackendNames: seq<string> := ["Media Foundation", "DirectShow", "FFmpeg"]

  /** The backends among `names` whose capture opens, in order; a backend
      whose probe raises counts as not opening. */
  function Backends(names: seq<string>, opens: string -> bool): (r: seq<string>)
    ensures |r| <= |names|
    ensures forall n :: n in r <==> n in names && opens(n)
  {
    if |names| == 0 then []
    else (if opens(names[0]) then [names[0]] else []) + Backends(names[1..], opens)
  }

  /** The backends are reported in the table's order: those of an earlier
      stretch of names come before those of a later one. */
  lemma {:induction false} BackendsAppend(a: seq<string>, b: seq<string>, opens: string -> bool)
    ensures Backends(a + b, opens) == Backends(a, opens) + Backends(b, opens)
  {
    if |a| > 0 {
      assert (a + b)[0] == a[0] && (a + b)[1..] == a[1..] + b;
      BackendsAppend(a[1..], b, opens);
    } else {
      assert a + b == b;
    }
  }

  /** Over the table: Media Foundation, then DirectShow, then FFmpeg, each
      present exactly when its capture opens. */
  lemma BackendsInTableOrder(opens: string -> bool)
    ensures Backends(BackendNames, opens)
            == (if opens("Media Foundation") then ["Media Foundation"] else [])
               + (if opens("DirectShow") then ["DirectShow"] else [])
               + (if opens("FFmpeg") then ["FFmpeg"] else [])
  {
    var mf, ds, ff := BackendNames[..1], BackendNames[1..2], BackendNames[2..];
    assert BackendNames == mf + (ds + ff);
    BackendsAppend(mf, ds + ff, opens);
    BackendsAppend(ds, ff, opens);
    assert Backends(ff, opens) == (if opens("FFmpeg") then ["FFmpeg"] else []) by {
      assert ff == ["FFmpeg"] && ff[1..] == [];
    }
    assert Backends(ds, opens) == (if opens("DirectShow") then ["DirectShow"] else []) by {
      assert ds == ["DirectShow"] && ds[1..] == [];
    }
    assert Backends(mf, opens) == (if opens("Media Foundation") then ["Media Foundation"] else []) by {
      assert mf == ["Media Foundation"] && mf[1..] == [];
    }
  }

  /** `detect_opencv_codecs` with `cv2` given by its build and its backend
      probes. */
  function DetectOpenCvCodecs(build: CvBuild, opens: string -> bool): (r: OpenCvInfo)
    ensures r.CvError? <==> !build.CvReady?
    ensures build.CvNotInstalled? ==> r == CvError("OpenCV not installed")
    ensures build.CvRaised? ==> r == CvError(build.message)
    ensures r.CvInfo? ==> r.version == build.version
                          && (r.ffmpegSupport, r.gstreamerSupport, r.mediaFoundationSupport) == BuildFlags(build.buildInfo)
                          && r.videoBackends == (if opens("Media Foundation") then ["Media Foundation"] else [])
                                                + (if opens("DirectShow") then ["DirectShow"] else [])
                                                + (if opens("FFmpeg") then ["FFmpeg"] else [])
  {
    match build
    case CvNotInstalled => CvError("OpenCV not installed")
    case CvRaised(m) => CvError(m)
    case CvReady(v, info) =>
      BackendsInTableOrder(opens);
      var f := BuildFlags(info);
      CvInfo(v, f.0, f.1, f.2, Backends(BackendNames, opens))
  }

  /** `check_media_foundation`: `Enabled` anywhere in the PowerShell output
      means available; the return code is not looked at; a call that raises
      leaves the state unknown. */
  datatype MediaFoundation = MfKnown(available: bool, status: string) | MfUnknown(error: string)

  function CheckMediaFoundation(run: Run): (r: MediaFoundation)
    ensures r.MfUnknown? <==> run.Raised?
    ensures r.MfUnknown? ==> r.error == run.message
    ensures r.MfKnown? ==> (r.available <==> Occurs("Enabled", run.stdout))
    ensures r.MfKnown? ==> (r.status == "Enabled" <==> r.available)
    ensures r.MfKnown? ==> (r.status == "Disabled" <==> !r.available)
  {
    match run
    case Exited(_, out) =>
      var on := Contains(out, "Enabled");
      MfKnown(on, if on then "Enabled" else "Disabled")
    case Raised(m) => MfUnknown(m)
  }

  /** What opening a video with `cv2` gives, step by step. */
  datatype PlayProbe = PlayNoOpenCv | PlayRaised(message: string) | NotOpened | ReadFrame(ok: bool, hasFrame: bool)

  /** `can_play_video`: playable exactly when the file opens and a frame
      comes back. */
  function CanPlayVideo(probe: PlayProbe): (r: (bool, string))
    ensures r.0 <==> probe.ReadFrame? && probe.ok && probe.hasFrame
    ensures probe.PlayRaised? ==> r.1 == "Error: " + probe.message
    ensures probe.NotOpened? ==> r.1 == "Failed to open video file"
  {
    match probe
    case PlayNoOpenCv => (false, "OpenCV not installed")
    case PlayRaised(m) => (false, "Error: " + m)
    case NotOpened => (false, "Failed to open video file")
    case ReadFrame(ok, frame) =>
      if ok && frame then (true, "Video can be played") else (false, "Failed to read video frame")
  }

  // ---------------------------------------------------------------------
  // The whole survey
  // ---------------------------------------------------------------------

  datatype Priority = High | Medium

  datatype Recommendation = Recommendation(name: string, reason: string, url: string, priority: Priority)

  const KLiteRecommendation := Recommendation(
    "K-Lite Codec Pack Basic",
    "No codec pack detected. K-Lite provides comprehensive video codec support.",
    "https://codecguide.com/download_kl.htm", High)

  const FFmpegRecommendation := Recommendation(
    "FFmpeg", "FFmpeg not found. Useful for video format conversion.",
    "https://ffmpeg.org/download.html", Medium)

  datatype Survey = Survey(codecPacks: seq<PackInfo>, ffmpeg: Option<FFmpegInfo>, opencv: OpenCvInfo,
                           mediaFoundation: MediaFoundation, recommendations: seq<Recommendation>)

  /** The recommendations of `detect_all_codecs`, from what it found. */
  function Recommendations(codecPacks: seq<PackInfo>, ffmpeg: Option<FFmpegInfo>): (r: seq<Recommendation>)
    ensures KLiteRecommendation in r <==> codecPacks == []
    ensures FFmpegRecommendation in r <==> ffmpeg.None?
    ensures forall k :: 0 <= k < |r| ==> r[k] == KLiteRecommendation || r[k] == FFmpegRecommendation
    ensures codecPacks == [] ==> |r| >= 1 && r[0] == KLiteRecommendation
    ensures |r| == (if codecPacks == [] then 1 else 0) + (if ffmpeg.None? then 1 else 0)
  {
    (if codecPacks == [] then [KLiteRecommendation] else [])
    + (if ffmpeg.None? then [FFmpegRecommendation] else [])
  }

  /** `detect_all_codecs`: the pack survey (as written, or with the
      corrected fallback), FFmpeg, OpenCV and Media Foundation, and the
      recommendations that follow from the first two. */
  function DetectAllCodecs(reg: string -> RegKey, present: string -> bool, ffmpegRun: Run,
                           build: CvBuild, opens: string -> bool, powershell: Run, rd: Reading): (r: Survey)
    ensures rd.AsWritten? ==> r.codecPacks == DetectCodecPacksAsWritten(reg, present)
    ensures rd.Corrected? ==> r.codecPacks == DetectCodecPacks(reg, present)
    ensures r.ffmpeg == DetectFFmpeg(ffmpegRun)
    ensures r.opencv == DetectOpenCvCodecs(build, opens)
    ensures r.mediaFoundation == CheckMediaFoundation(powershell)
    ensures r.recommendations == Recommendations(r.codecPacks, r.ffmpeg)
  {
    var packs := if rd.AsWritten? then DetectCodecPacksAsWritten(reg, present) else DetectCodecPacks(reg, present);
    var ffmpeg := DetectFFmpeg(ffmpegRun);
    Survey(packs, ffmpeg, DetectOpenCvCodecs(build, opens), CheckMediaFoundation(powershell),
           Recommendations(packs, ffmpeg))
  }

  /** A clean machine (no registry key, no folder, no `ffmpeg` to run) gets
      both recommendations, K-Lite first. */
  lemma CleanMachineGetsBoth(reg: string -> RegKey, present: string -> bool, notFound: string, build: CvBuild,
                             opens: string -> bool, powershell: Run, rd: Reading)
    requires forall key :: !reg(key).Opened?
    requires forall p :: !present(p)
    ensures DetectAllCodecs(reg, present, Raised(notFound), build, opens, powershell, rd).recommendations
            == [KLiteRecommendation, FFmpegRecommendation]
  {
    NothingInstalled(reg, present);
    assert Recommendations([], None) == [KLiteRecommendation, FFmpegRecommendation];
  }
}
