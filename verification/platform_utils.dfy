/** Platform detection and the per-platform configuration, data and log
    directories. The system name, the environment variables, the home
    directory and the effective user id are inputs. */
module PlatformUtils {
  import opened Wrappers
  import opened Text
  import opened Paths

  datatype PlatformType = Windows | Linux | MacOs | Unknown {
    function Value(): string {
      match this
      case Windows => "windows"
      case Linux => "linux"
      case MacOs => "macos"
      case Unknown => "unknown"
    }
  }

  /** `get_platform` for the name `platform.system()` reports. */
  function GetPlatform(system: string): (r: PlatformType)
    ensures r == Windows <==> Lower(system) == "windows"
    ensures r == Linux <==> Lower(system) == "linux"
    ensures r == MacOs <==> Lower(system) == "darwin"
    ensures r == Unknown <==> Lower(system) !in {"windows", "linux", "darwin"}
  {
    var s := Lower(system);
    if s == "windows" then Windows
    else if s == "linux" then Linux
    else if s == "darwin" then MacOs
    else Unknown
  }

  predicate IsWindows(p: PlatformType) { p == Windows }
  predicate IsLinux(p: PlatformType) { p == Linux }
  predicate IsMacOs(p: PlatformType) { p == MacOs }

  /** At most one of the platform tests holds, and none does on an
      unrecognised system. */
  lemma AtMostOnePlatform(system: string)
    ensures var p := GetPlatform(system);
            && !(IsWindows(p) && IsLinux(p)) && !(IsWindows(p) && IsMacOs(p)) && !(IsLinux(p) && IsMacOs(p))
            && (p == Unknown <==> !IsWindows(p) && !IsLinux(p) && !IsMacOs(p))
  {
  }

  /** The part of the process environment the directory functions read.
      `euid` is `None` where `os.geteuid` does not exist. */
  datatype Env = Env(appData: Option<string>, localAppData: Option<string>, home: string, euid: Option<int>)

  const AppDir := "thermalright-lcd-control"

  /** Path components with no separator in them and not empty. */
  predicate PlainParts(parts: seq<string>, windows: bool) {
    forall k :: 0 <= k < |parts| ==> parts[k] != "" && NoSep(parts[k], windows)
  }

  /** `os.path.join` of several relative components, with the separator
      rules of the platform's `os.path`. */
  function JoinAll(base: string, parts: seq<string>, windows: bool): (r: string)
    ensures |parts| == 0 ==> r == base
    ensures |parts| > 0 ==> EndsWith(r, parts[|parts| - 1])
    ensures |parts| == 1 ==> r == JoinPrefix(base, windows) + parts[0]
    decreases |parts|
  {
    if |parts| == 0 then base
    else
      var init, last := parts[..|parts| - 1], parts[|parts| - 1];
      var inner := JoinAll(base, init, windows);
      assert |parts| == 1 ==> init == [] && inner == base;
      JoinPath(inner, last, windows)
  }

  /** Joining one more plain component onto a join that ends with a plain
      component adds one separator and that component. */
  lemma JoinAllSnoc(base: string, parts: seq<string>, x: string, all: seq<string>, windows: bool)
    requires all == parts + [x]
    requires |parts| > 0 && PlainParts(all, windows)
    ensures JoinAll(base, all, windows) == JoinAll(base, parts, windows) + [SepChar(windows)] + x
  {
    assert all[..|all| - 1] == parts;
    var inner := JoinAll(base, parts, windows);
    var last := parts[|parts| - 1];
    assert last == all[|parts| - 1];
    assert inner[|inner| - 1] == last[|last| - 1];
  }

  /** A single path component: not empty, with no separator in it. */
  predicate Plain(x: string, windows: bool) {
    x != "" && NoSep(x, windows)
  }

  /** A list of plain components with one more plain component after it is
      still plain. */
  lemma PlainSnoc(parts: seq<string>, x: string, windows: bool)
    requires PlainParts(parts, windows) && Plain(x, windows)
    ensures PlainParts(parts + [x], windows)
  {
    forall k | 0 <= k < |parts| + 1 ensures (parts + [x])[k] != "" && NoSep((parts + [x])[k], windows) {
      if k < |parts| { assert (parts + [x])[k] == parts[k]; } else { assert (parts + [x])[k] == x; }
    }
  }

  /** Two plain components joined onto a base, written out. */
  lemma JoinAll2(base: string, a: string, b: string, windows: bool)
    requires Plain(a, windows) && Plain(b, windows)
    ensures JoinAll(base, [a, b], windows) == JoinPrefix(base, windows) + a + [SepChar(windows)] + b
  {
    assert PlainParts([a, b], windows) by {
      assert PlainParts([a], windows) by { assert [a][0] == a; }
      PlainSnoc([a], b, windows);
      assert [a] + [b] == [a, b];
    }
    JoinAllSnoc(base, [a], b, [a, b], windows);
  }

  /** Three plain components joined onto a base, written out. */
  lemma JoinAll3(base: string, a: string, b: string, c: string, windows: bool)
    requires Plain(a, windows) && Plain(b, windows) && Plain(c, windows)
    ensures var s := [SepChar(windows)];
            JoinAll(base, [a, b, c], windows) == JoinPrefix(base, windows) + a + s + b + s + c
  {
    var s := [SepChar(windows)];
    assert JoinAll(base, [a, b], windows) == JoinPrefix(base, windows) + a + s + b by {
      JoinAll2(base, a, b, windows);
    }
    assert JoinAll(base, [a, b, c], windows) == JoinAll(base, [a, b], windows) + s + c by {
      assert PlainParts([a, b, c], windows) by {
        assert PlainParts([a, b], windows) by { assert [a, b][0] == a && [a, b][1] == b; }
        PlainSnoc([a, b], c, windows);
        assert [a, b] + [c] == [a, b, c];
      }
      JoinAllSnoc(base, [a, b], c, [a, b, c], windows);
    }
  }

  /** Four plain components joined onto a base, written out. */
  lemma JoinAll4(base: string, a: string, b: string, c: string, d: string, windows: bool)
    requires Plain(a, windows) && Plain(b, windows) && Plain(c, windows) && Plain(d, windows)
    ensures var s := [SepChar(windows)];
            JoinAll(base, [a, b, c, d], windows) == JoinPrefix(base, windows) + a + s + b + s + c + s + d
  {
    var s := [SepChar(windows)];
    assert JoinAll(base, [a, b, c], windows) == JoinPrefix(base, windows) + a + s + b + s + c by {
      JoinAll3(base, a, b, c, windows);
    }
    assert JoinAll(base, [a, b, c, d], windows) == JoinAll(base, [a, b, c], windows) + s + d by {
      assert PlainParts([a, b, c, d], windows) by {
        assert PlainParts([a, b, c], windows) by { assert [a, b, c][0] == a && [a, b, c][1] == b && [a, b, c][2] == c; }
        PlainSnoc([a, b, c], d, windows);
        assert [a, b, c] + [d] == [a, b, c, d];
      }
      JoinAllSnoc(base, [a, b, c], d, [a, b, c, d], windows);
    }
  }

  /** `get_config_dir`. Without `APPDATA` the Windows directory is the bare,
      relative application folder name. */
  function GetConfigDir(p: PlatformType, env: Env): (r: string)
    ensures p == Unknown <==> r == "."
    ensures p == Windows ==> r == JoinPrefix(env.appData.GetOr(""), true) + AppDir
    ensures p == Windows && (env.appData.None? || env.appData == Some("")) ==> r == AppDir
    ensures p == Linux ==> r == JoinPrefix(env.home, false) + ".config" + "/" + AppDir
    ensures p == MacOs ==> r == JoinPrefix(env.home, false) + "Library" + "/" + "Application Support" + "/" + AppDir
  {
    match p
    case Windows =>
      var base := env.appData.GetOr("");
      assert env.appData.None? ==> base == "";
      JoinAll(base, [AppDir], true)
    case Linux =>
      JoinAll2(env.home, ".config", AppDir, false);
      JoinAll(env.home, [".config", AppDir], false)
    case MacOs =>
      JoinAll3(env.home, "Library", "Application Support", AppDir, false);
      JoinAll(env.home, ["Library", "Application Support", AppDir], false)
    case Unknown => "."
  }

  /** `get_data_dir`, with the same fallback for a missing `LOCALAPPDATA`. */
  function GetDataDir(p: PlatformType, env: Env): (r: string)
    ensures p == Unknown <==> r == "."
    ensures p == Windows ==> r == JoinPrefix(env.localAppData.GetOr(""), true) + AppDir
    ensures p == Windows && (env.localAppData.None? || env.localAppData == Some("")) ==> r == AppDir
    ensures p == Linux ==> r == JoinPrefix(env.home, false) + ".local" + "/" + "share" + "/" + AppDir
    ensures p == MacOs ==> r == JoinPrefix(env.home, false) + "Library" + "/" + "Application Support" + "/" + AppDir
  {
    match p
    case Windows =>
      var base := env.localAppData.GetOr("");
      assert env.localAppData.None? ==> base == "";
      JoinAll(base, [AppDir], true)
    case Linux =>
      JoinAll3(env.home, ".local", "share", AppDir, false);
      JoinAll(env.home, [".local", "share", AppDir], false)
    case MacOs =>
      JoinAll3(env.home, "Library", "Application Support", AppDir, false);
      JoinAll(env.home, ["Library", "Application Support", AppDir], false)
    case Unknown => "."
  }

  /** `get_log_dir`. On Linux a root process logs to `/var/log`; everyone
      else logs under the per-user data directory; macOS has its own
      per-user log folder. */
  function GetLogDir(p: PlatformType, env: Env): (r: string)
    ensures p == Unknown <==> r == "."
    ensures p == Windows ==> r == JoinPrefix(env.localAppData.GetOr(""), true) + AppDir + "\\" + "logs"
    ensures p == Linux ==> (r == "/var/log" <==> env.euid == Some(0))
    ensures p == Linux && env.euid != Some(0) ==>
              r == JoinPrefix(env.home, false) + ".local" + "/" + "share" + "/" + AppDir + "/" + "logs"
    ensures p == MacOs ==> r == JoinPrefix(env.home, false) + "Library" + "/" + "Logs" + "/" + AppDir
  {
    match p
    case Windows =>
      var parts := [AppDir, "logs"];
      JoinAll2(env.localAppData.GetOr(""), AppDir, "logs", true);
      JoinAll(env.localAppData.GetOr(""), parts, true)
    case Linux =>
      if env.euid == Some(0) then "/var/log"
      else
        var parts := [".local", "share", AppDir, "logs"];
        JoinAll4(env.home, ".local", "share", AppDir, "logs", false);
        var r := JoinAll(env.home, parts, false);
        assert EndsWith(r, "logs");
        assert "/var/log"[7] != "logs"[3];
        r
    case MacOs =>
      JoinAll3(env.home, "Library", "Logs", AppDir, false);
      JoinAll(env.home, ["Library", "Logs", AppDir], false)
    case Unknown => "."
  }

  /** Outside macOS and a root Linux process, logs go to a `logs` folder
      inside the data directory. */
  lemma LogsUnderData(p: PlatformType, env: Env)
    requires p == Windows || (p == Linux && env.euid != Some(0))
    ensures GetLogDir(p, env) == GetDataDir(p, env) + [SepChar(p == Windows)] + "logs"
  {
  }

  /** On macOS configuration and data share one directory. */
  lemma MacOsConfigIsData(env: Env)
    ensures GetConfigDir(MacOs, env) == GetDataDir(MacOs, env)
  {
  }
}
