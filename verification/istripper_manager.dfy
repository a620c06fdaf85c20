/** The iStripper integration: finding the installation (cache, registry,
    usual folders, full search), watching the process start and stop,
    finding the content folder, and listing the models' media files. The
    registry keys, the process list and the disk are inputs. */
module IStripperManager {
  import opened Wrappers
  import opened Readings
  import opened Text
  import opened Sorting
  import opened PurePath
  import AppDetector
  import Scan

  /** The executables tried in every installation folder, in order. */
  const ExeNames: seq<string> := ["iStripper.exe", "vghd.exe"]

  /** The manager's fields that the modelled methods read and write. */
  datatype Manager = Manager(
    installationPath: Option<Path>,
    executableName: Option<string>,
    contentDirectory: Option<Path>,
    isRunning: bool)

  const NewManager := Manager(None, None, None, false)

  /** One of the three `Totem Entertainment\iStripper` registry keys, in
      the order they are tried: a key that cannot be opened, or its
      `InstallPath` and `DataPath` values (`None` when missing). */
  datatype RegKey = Unopenable | Key(installPath: Option<string>, dataPath: Option<string>)

  /** A detected executable and the name recorded for it. */
  datatype Found = Found(path: Path, exe: string)

  // ---------------------------------------------------------------------
  // Installation: registry
  // ---------------------------------------------------------------------

  /** The first of `ExeNames` that exists in `dir`. */
  function FirstExisting(fs: Fs, dir: Path): (r: Option<Found>)
    ensures r.Some? ==> r.value.exe in ExeNames && r.value.path == Child(dir, r.value.exe) && fs.present(r.value.path)
    ensures r.None? <==> !fs.present(Child(dir, "iStripper.exe")) && !fs.present(Child(dir, "vghd.exe"))
    ensures fs.present(Child(dir, "iStripper.exe")) ==> r == Some(Found(Child(dir, "iStripper.exe"), "iStripper.exe"))
  {
    if fs.present(Child(dir, "iStripper.exe")) then Some(Found(Child(dir, "iStripper.exe"), "iStripper.exe"))
    else if fs.present(Child(dir, "vghd.exe")) then Some(Found(Child(dir, "vghd.exe"), "vghd.exe"))
    else None
  }

  /** `_detect_from_registry`: off Windows nothing; otherwise the first key
      with an `InstallPath` whose folder holds one of the executables. */
  function DetectFromRegistry(windows: bool, keys: seq<RegKey>, fs: Fs): (r: Option<Found>)
    ensures !windows ==> r.None?
    ensures r.Some? ==> exists i :: 0 <= i < |keys| && keys[i].Key? && keys[i].installPath.Some?
                          && r == FirstExisting(fs, PathOf(keys[i].installPath.value))
    ensures windows ==> (r.None? <==> forall i :: 0 <= i < |keys| ==> KeyInstall(keys[i], fs).None?)
    ensures r.Some? ==> exists i :: 0 <= i < |keys| && r == KeyInstall(keys[i], fs)
                          && forall j :: 0 <= j < i ==> KeyInstall(keys[j], fs).None?
  {
    if !windows then None
    else
      var r := Scan.First(keys, k => KeyInstall(k, fs));
      assert r.Some? ==> exists i :: 0 <= i < |keys| && keys[i].Key? && keys[i].installPath.Some?
                          && r == FirstExisting(fs, PathOf(keys[i].installPath.value)) by {
        if r.Some? {
          var i :| 0 <= i < |keys| && r == KeyInstall(keys[i], fs);
        }
      }
      r
  }

  /** What one registry key gives: nothing when it cannot be opened or has
      no `InstallPath`, else the first executable in that folder. */
  function KeyInstall(k: RegKey, fs: Fs): (r: Option<Found>)
    ensures k.Key? && k.installPath.Some? ==> r == FirstExisting(fs, PathOf(k.installPath.value))
    ensures !(k.Key? && k.installPath.Some?) ==> r.None?
  {
    if k.Key? && k.installPath.Some? then FirstExisting(fs, PathOf(k.installPath.value)) else None
  }

  // ---------------------------------------------------------------------
  // Installation: usual folders
  // ---------------------------------------------------------------------

  const Drives: seq<string> := ["C:", "D:", "E:"]
  const BaseFolders: seq<string> := ["Program Files", "Program Files (x86)", "Games"]
  const AppFolders: seq<string> := ["iStripper", "Totem Entertainment/iStripper", "VirtuaGirl HD"]

  /** The 27 Windows folders, each under the given anchor for its drive. */
  function WindowsCandidates(anchorOf: string -> string): (r: seq<Path>)
    ensures |r| == 27
    ensures forall i :: 0 <= i < 27 ==> r[i].anchor == anchorOf(Drives[i / 9])
  {
    seq(27, i requires 0 <= i < 27 =>
      Join1(Join1(Path(anchorOf(Drives[i / 9]), []), BaseFolders[(i / 3) % 3]), AppFolders[i % 3]))
  }

  /** The folders are tried drive by drive, base folder by base folder,
      application folder by application folder. */
  lemma CandidateOrder(anchorOf: string -> string, d: int, b: int, a: int)
    requires 0 <= d < 3 && 0 <= b < 3 && 0 <= a < 3
    ensures 0 <= 9 * d + 3 * b + a < 27
    ensures WindowsCandidates(anchorOf)[9 * d + 3 * b + a]
            == Join1(Join1(Path(anchorOf(Drives[d]), []), BaseFolders[b]), AppFolders[a])
  {
    var i := 9 * d + 3 * b + a;
    DivByNine(d, 3 * b + a);
    DivByThree(3 * d + b, a);
    DivByThree(d, b);
    assert i / 9 == d && (i / 3) % 3 == b && i % 3 == a;
    assert WindowsCandidates(anchorOf)[i]
        == Join1(Join1(Path(anchorOf(Drives[i / 9]), []), BaseFolders[(i / 3) % 3]), AppFolders[i % 3]);
  }

  /** Division with remainder by nine and by three is unique. */
  lemma DivByNine(q: int, r: int)
    requires 0 <= r < 9
    ensures (9 * q + r) / 9 == q && (9 * q + r) % 9 == r
  {
  }

  lemma DivByThree(q: int, r: int)
    requires 0 <= r < 3
    ensures (3 * q + r) / 3 == q && (3 * q + r) % 3 == r
  {
  }

  /** `Path(drive)` for `drive` = `"C:"`: a bare drive, with no root. */
  function DriveOnly(drive: string): string { drive }

  /** The drive with its root, `"C:\"`. */
  function DriveRooted(drive: string): string { drive + "\\" }

  /** The two Wine folders checked off Windows. */
  function WineCandidates(home: Path): (r: seq<Path>)
    ensures |r| == 2 && forall i :: 0 <= i < 2 ==> AppDetector.Under(home, r[i]) && Name(r[i]) == "iStripper"
  {
    var driveC := Child(Child(home, ".wine"), "drive_c");
    [Child(Child(driveC, "Program Files"), "iStripper"), Child(Child(driveC, "Program Files (x86)"), "iStripper")]
  }

  /** `common_paths` as the code builds it, `Path("C:") / base / app`:
      every Windows folder is drive-relative, naming a folder under the
      current directory of its drive rather than under the drive's root. */
  function CommonCandidatesAsWritten(windows: bool, home: Path): (r: seq<Path>)
    ensures windows ==> r == WindowsCandidates(DriveOnly)
    ensures windows ==> forall i :: 0 <= i < |r| ==> !IsRooted(r[i])
    ensures !windows ==> r == WineCandidates(home)
  {
    if windows then WindowsCandidates(DriveOnly) else WineCandidates(home)
  }

  /** The usual folders as evidently intended: under each drive's root. */
  function CommonCandidates(windows: bool, home: Path): (r: seq<Path>)
    ensures windows ==> r == WindowsCandidates(DriveRooted)
    ensures windows ==> forall i :: 0 <= i < |r| ==> IsRooted(r[i]) && r[i].anchor == Drives[i / 9] + "\\"
    ensures !windows ==> r == WineCandidates(home)
  {
    if windows then WindowsCandidates(DriveRooted) else WineCandidates(home)
  }

  /** The first corrected folder is `C:\\Program Files\\iStripper`. */
  lemma FirstRootedCandidate(a: string, b: string)
    requires a == "Program Files" && b == "iStripper"
    ensures CommonCandidates(true, Path("", []))[0] == Path("C:\\", [a, b])
  {
    CandidateOrder(DriveRooted, 0, 0, 0);
    assert DriveRooted(Drives[0]) == "C:\\";
    assert BaseFolders[0] == a && AppFolders[0] == b;
    AppDetector.ProgramFilesIsClean();
    IStripperIsClean();
    TwoNames("C:\\", a, b);
  }

  lemma IStripperIsClean()
    ensures CleanPart("iStripper")
  {
  }

  lemma TwoNames(anchor: string, a: string, b: string)
    requires CleanPart(a) && CleanPart(b)
    ensures Join1(Join1(Path(anchor, []), a), b) == Path(anchor, [a, b])
  {
    ComponentsOfName(a);
    ComponentsOfName(b);
  }

  /** One candidate folder: its executable, provided the folder exists. */
  function FolderHit(fs: Fs, p: Path): (r: Option<Found>)
    ensures !fs.present(p) ==> r.None?
    ensures fs.present(p) ==> r == FirstExisting(fs, p)
  {
    if fs.present(p) then FirstExisting(fs, p) else None
  }

  /** `_detect_from_common_locations`: the first existing folder, in order,
      that holds one of the executables. */
  function FirstInFolders(fs: Fs, folders: seq<Path>): (r: Option<Found>)
    ensures r.Some? ==> exists i :: 0 <= i < |folders| && fs.present(folders[i]) && r == FirstExisting(fs, folders[i])
    ensures r.None? <==> forall i :: 0 <= i < |folders| ==> !fs.present(folders[i]) || FirstExisting(fs, folders[i]).None?
    ensures r.None? <==> forall i :: 0 <= i < |folders| ==> FolderHit(fs, folders[i]).None?
    ensures r.Some? ==> exists i :: 0 <= i < |folders| && r == FolderHit(fs, folders[i])
                          && forall j :: 0 <= j < i ==> FolderHit(fs, folders[j]).None?
  {
    var r := Scan.First(folders, p => FolderHit(fs, p));
    assert r.Some? ==> exists i :: 0 <= i < |folders| && fs.present(folders[i]) && r == FirstExisting(fs, folders[i]) by {
      if r.Some? {
        var i :| 0 <= i < |folders| && r == FolderHit(fs, folders[i]);
      }
    }
    r
  }

  /** On a disk where only the rooted `C:\Program Files\iStripper` holds
      the executable, the folders as written find nothing while the rooted
      folders find it. */
  lemma CommonLocationsMissRootedInstall(fs: Fs)
    requires forall p :: fs.present(p) ==> IsRooted(p)
    requires fs.present(Path("C:\\", ["Program Files", "iStripper"]))
    requires fs.present(Path("C:\\", ["Program Files", "iStripper", "iStripper.exe"]))
    ensures FirstInFolders(fs, CommonCandidatesAsWritten(true, Path("", []))).None?
    ensures FirstInFolders(fs, CommonCandidates(true, Path("", []))).Some?
  {
    var c := CommonCandidates(true, Path("", []));
    FirstRootedCandidate("Program Files", "iStripper");
    assert Child(c[0], "iStripper.exe") == Path("C:\\", ["Program Files", "iStripper", "iStripper.exe"]);
  }

  // ---------------------------------------------------------------------
  // Installation: full search and the detection order
  // ---------------------------------------------------------------------

  /** `_detect_from_full_search`: the detector's iStripper path, parsed
      back into a path; the executable is `vghd.exe` exactly when that text
      occurs in the path. */
  function DetectFromFullSearch(windows: bool, m: AppDetector.Machine): (r: Option<Found>)
    ensures r.Some? <==> (var s := AppDetector.FindIStripperPath(windows, m); s.Some? && s.value != "")
    ensures r.Some? ==>
              var s := AppDetector.FindIStripperPath(windows, m).value;
              && r.value.path == PathOf(s)
              && (r.value.exe == "vghd.exe" <==> Contains(s, "vghd.exe"))
              && (r.value.exe == "iStripper.exe" <==> !Contains(s, "vghd.exe"))
  {
    match AppDetector.FindIStripperPath(windows, m)
    case None => None
    case Some(s) =>
      if s == "" then None
      else Some(Found(PathOf(s), if Contains(s, "vghd.exe") then "vghd.exe" else "iStripper.exe"))
  }

  /** When the detector's path is well formed, the full search records
      exactly that path. */
  lemma FullSearchKeepsPath(m: AppDetector.Machine)
    requires AppDetector.FindApplication("istripper", false, m).Some?
    requires WellFormed(AppDetector.FindApplication("istripper", false, m).value)
    ensures DetectFromFullSearch(true, m).Some?
    ensures DetectFromFullSearch(true, m).value.path == AppDetector.FindApplication("istripper", false, m).value
  {
    var p := AppDetector.FindApplication("istripper", false, m).value;
    var s := AppDetector.FindIStripperPath(true, m);
    assert s == Some(Str(p));
    assert Str(p) != "" by {
      if p.parts != [] {
        NoSlashInJoin(p.parts);
      }
    }
    assert PathOf(Str(p)) == p by { StrRoundTrip(p); }
  }

  /** What `detect_installation` can consult besides the manager. */
  datatype Host = Host(windows: bool, keys: seq<RegKey>, home: Path, machine: AppDetector.Machine)

  /** The usual folders under either reading. */
  function Candidates(windows: bool, home: Path, rd: Reading): seq<Path> {
    if rd.AsWritten? then CommonCandidatesAsWritten(windows, home) else CommonCandidates(windows, home)
  }

  /** The three detection stages, in the order they are tried: the registry
      (Windows only), the usual folders, and the full search. */
  function Stages(h: Host, rd: Reading): (r: seq<Option<Found>>)
    ensures |r| == 3
    ensures !h.windows ==> r[0].None?
    ensures r[0] == DetectFromRegistry(h.windows, h.keys, h.machine.fs)
    ensures r[1] == FirstInFolders(h.machine.fs, Candidates(h.windows, h.home, rd))
    ensures r[2] == DetectFromFullSearch(h.windows, h.machine)
  {
    [DetectFromRegistry(h.windows, h.keys, h.machine.fs),
     FirstInFolders(h.machine.fs, Candidates(h.windows, h.home, rd)),
     DetectFromFullSearch(h.windows, h.machine)]
  }

  /** Off Windows both readings look in the same Wine folders, so they
      detect alike; on Windows they differ only in the usual-folder stage. */
  lemma StagesReadingsAgree(h: Host)
    ensures !h.windows ==> Stages(h, AsWritten) == Stages(h, Corrected)
    ensures Stages(h, AsWritten)[0] == Stages(h, Corrected)[0]
    ensures Stages(h, AsWritten)[2] == Stages(h, Corrected)[2]
  {
  }

  /** The first successful stage. */
  function FirstStage(stages: seq<Option<Found>>): (r: Option<Found>)
    ensures r.None? <==> forall i :: 0 <= i < |stages| ==> stages[i].None?
    ensures r.Some? ==> exists i :: 0 <= i < |stages| && r == stages[i] && forall j :: 0 <= j < i ==> stages[j].None?
  {
    if |stages| == 0 then None
    else if stages[0].Some? then stages[0]
    else
      var r := FirstStage(stages[1..]);
      assert forall i :: 0 < i < |stages| ==> stages[i] == stages[1..][i - 1];
      if r.Some? then
        var i :| 0 <= i < |stages[1..]| && r == stages[1..][i] && forall j :: 0 <= j < i ==> stages[1..][j].None?;
        assert r == stages[i + 1];
        r
      else r
  }

  /** A cached installation path that still exists. */
  predicate CacheHit(mgr: Manager, useCache: bool, fs: Fs) {
    useCache && mgr.installationPath.Some? && fs.present(mgr.installationPath.value)
  }

  /** `detect_installation`: the cached path if asked for and still there;
      otherwise the first stage that succeeds, whose path and executable are
      recorded. When every stage fails the manager is left as it was. */
  function DetectInstallation(mgr: Manager, useCache: bool, h: Host, rd: Reading): (r: (Option<Path>, Manager))
    ensures CacheHit(mgr, useCache, h.machine.fs) ==> r == (mgr.installationPath, mgr)
    ensures !CacheHit(mgr, useCache, h.machine.fs) ==>
              var f := FirstStage(Stages(h, rd));
              && (r.0.Some? <==> f.Some?)
              && (f.Some? ==>
                    && r.0 == Some(f.value.path)
                    && r.1 == mgr.(installationPath := Some(f.value.path), executableName := Some(f.value.exe)))
              && (f.None? ==> r.1 == mgr)
  {
    if CacheHit(mgr, useCache, h.machine.fs) then (mgr.installationPath, mgr)
    else
      match FirstStage(Stages(h, rd))
      case None => (None, mgr)
      case Some(f) => (Some(f.path), mgr.(installationPath := Some(f.path), executableName := Some(f.exe)))
  }

  /** With the registry entry present, the usual folders and the full search
      are not consulted. */
  lemma RegistryFirst(mgr: Manager, useCache: bool, h: Host, rd: Reading)
    requires !CacheHit(mgr, useCache, h.machine.fs)
    requires DetectFromRegistry(h.windows, h.keys, h.machine.fs).Some?
    ensures DetectInstallation(mgr, useCache, h, rd).0 == Some(DetectFromRegistry(h.windows, h.keys, h.machine.fs).value.path)
  {
    assert Stages(h, rd)[0].Some?;
  }

  /** A path found in the registry or in a usual folder exists, so asking
      again with the cache returns it without any search and without
      changing the manager. */
  lemma DetectedThenCached(mgr: Manager, useCache: bool, h: Host, rd: Reading)
    requires var f := FirstStage(Stages(h, rd));
             !CacheHit(mgr, useCache, h.machine.fs) && f.Some? && f != Stages(h, rd)[2]
    ensures var r := DetectInstallation(mgr, useCache, h, rd);
            DetectInstallation(r.1, true, h, rd) == r
  {
    var st := Stages(h, rd);
    var f := FirstStage(st);
    var i :| 0 <= i < |st| && f == st[i] && forall j :: 0 <= j < i ==> st[j].None?;
    assert i < 2;
    assert h.machine.fs.present(f.value.path);
  }

  // ---------------------------------------------------------------------
  // Process monitoring
  // ---------------------------------------------------------------------

  const ProcessNames: seq<string> := ["iStripper.exe", "vghd.exe", "iStripper", "vghd"]

  /** `is_process_running` over the names `process_iter` reports (`None`
      for a process that vanished or denies access). */
  function IsProcessRunning(names: seq<Option<string>>): (r: bool)
    ensures r <==> exists i :: 0 <= i < |names| && names[i].Some? && names[i].value in ProcessNames
  {
    if |names| == 0 then false
    else
      var rest := IsProcessRunning(names[1..]);
      assert forall i :: 0 < i < |names| ==> names[i] == names[1..][i - 1];
      (names[0].Some? && names[0].value in ProcessNames) || rest
  }

  /** What a round of `_monitor_loop` fires. Callbacks run inside `try`, so
      an exception in one does not change what the round does. */
  datatype Event = NoEvent | StartedEvent | StoppedEvent

  /** The loop's variables: the previous observation and `is_running`. */
  datatype Monitor = Monitor(last: bool, isRunning: bool)

  /** One round: an event only on a change of state, `is_running` set on
      that change, and the observation remembered in every round. */
  function Round(s: Monitor, current: bool): (r: (Monitor, Event))
    ensures r.0.last == current
    ensures r.1 == StartedEvent <==> current && !s.last
    ensures r.1 == StoppedEvent <==> !current && s.last
    ensures r.1 == NoEvent ==> r.0.isRunning == s.isRunning
    ensures r.1 != NoEvent ==> r.0.isRunning == current
  {
    if current && !s.last then (Monitor(current, true), StartedEvent)
    else if !current && s.last then (Monitor(current, false), StoppedEvent)
    else (Monitor(current, s.isRunning), NoEvent)
  }

  /** The loop over a sequence of observations. */
  function Run(s: Monitor, obs: seq<bool>): (r: (Monitor, seq<Event>))
    ensures |r.1| == |obs|
    ensures obs != [] ==> r.0.last == obs[|obs| - 1]
    ensures obs == [] ==> r.0 == s
    decreases |obs|
  {
    if |obs| == 0 then (s, [])
    else
      var (s1, e) := Round(s, obs[0]);
      var (s2, es) := Run(s1, obs[1..]);
      assert obs[1..] != [] ==> obs[1..][|obs[1..]| - 1] == obs[|obs| - 1];
      (s2, [e] + es)
  }

  /** The observation before round `i`. */
  function Before(s: Monitor, obs: seq<bool>, i: int): bool
    requires 0 <= i < |obs|
  {
    if i == 0 then s.last else obs[i - 1]
  }

  /** Round `i` fires the start event exactly on a false-to-true change and
      the stop event exactly on a true-to-false change. */
  lemma {:induction false} RunEvents(s: Monitor, obs: seq<bool>, i: int)
    requires 0 <= i < |obs|
    ensures Run(s, obs).1[i] == StartedEvent <==> obs[i] && !Before(s, obs, i)
    ensures Run(s, obs).1[i] == StoppedEvent <==> !obs[i] && Before(s, obs, i)
    decreases |obs|
  {
    var (s1, e) := Round(s, obs[0]);
    if i > 0 {
      RunEvents(s1, obs[1..], i - 1);
      assert obs[1..][i - 1] == obs[i];
      if i > 1 {
        assert obs[1..][i - 2] == obs[i - 1];
      }
    }
  }

  /** After a run with at least one event, `is_running` is the last
      observation; without any, it is what it was. */
  lemma {:induction false} RunIsRunning(s: Monitor, obs: seq<bool>)
    ensures (forall i :: 0 <= i < |obs| ==> Run(s, obs).1[i] == NoEvent) ==> Run(s, obs).0.isRunning == s.isRunning
    ensures (exists i :: 0 <= i < |obs| && Run(s, obs).1[i] != NoEvent) ==> Run(s, obs).0.isRunning == obs[|obs| - 1]
    decreases |obs|
  {
    if |obs| > 0 {
      var (s1, e) := Round(s, obs[0]);
      RunIsRunning(s1, obs[1..]);
      var es := Run(s1, obs[1..]).1;
      assert Run(s, obs).1 == [e] + es;
      assert forall i :: 0 < i < |obs| ==> Run(s, obs).1[i] == es[i - 1];
      if exists i :: 0 <= i < |obs| && Run(s, obs).1[i] != NoEvent {
        if forall i :: 0 <= i < |es| ==> es[i] == NoEvent {
          assert e != NoEvent;
          assert s1.last == obs[0] && s1.isRunning == obs[0];
          if |obs| > 1 {
            NoEventsKeepLast(s1, obs[1..]);
            assert obs[1..][|obs| - 2] == obs[|obs| - 1];
          }
        } else {
          var k :| 0 <= k < |es| && es[k] != NoEvent;
          assert Run(s, obs).1[k + 1] != NoEvent;
          assert obs[1..][|obs| - 2] == obs[|obs| - 1];
        }
      } else {
        assert Run(s, obs).1[0] == e == NoEvent;
        assert forall i :: 0 <= i < |es| ==> es[i] == Run(s, obs).1[i + 1];
      }
    }
  }

  /** A run without events never sees a change, so every observation equals
      the one before it. */
  lemma {:induction false} NoEventsKeepLast(s: Monitor, obs: seq<bool>)
    requires |obs| > 0
    requires forall i :: 0 <= i < |obs| ==> Run(s, obs).1[i] == NoEvent
    ensures obs[|obs| - 1] == s.last
    decreases |obs|
  {
    var (s1, e) := Round(s, obs[0]);
    assert Run(s, obs).1[0] == e;
    if |obs| > 1 {
      assert forall i :: 0 <= i < |obs| - 1 ==> Run(s1, obs[1..]).1[i] == Run(s, obs).1[i + 1];
      NoEventsKeepLast(s1, obs[1..]);
      assert obs[1..][|obs| - 2] == obs[|obs| - 1];
    }
  }

  /** The loop starts from one observation; if iStripper is already running
      then and keeps running, no start is ever reported and `is_running`
      stays false. */
  lemma AlreadyRunningNotReported(obs: seq<bool>)
    requires forall i :: 0 <= i < |obs| ==> obs[i]
    ensures Run(Monitor(true, false), obs).0.isRunning == false
    ensures forall i :: 0 <= i < |obs| ==> Run(Monitor(true, false), obs).1[i] == NoEvent
  {
    var s := Monitor(true, false);
    forall i | 0 <= i < |obs| ensures Run(s, obs).1[i] == NoEvent {
      RunEvents(s, obs, i);
    }
    RunIsRunning(s, obs);
  }

  // ---------------------------------------------------------------------
  // Content folder
  // ---------------------------------------------------------------------

  const ContentDirNames: seq<string> := ["DATA", "data", "Models", "models", "Shows", "shows"]

  /** A content folder exists, is a directory and holds a model folder. */
  predicate Qualifies(fs: Fs, p: Path) {
    fs.present(p) && fs.isDir(p) && HasSubdir(fs, p)
  }

  /** The first of `names` under `dir` that qualifies. */
  function FirstContent(fs: Fs, dir: Path, names: seq<string>): (r: Option<Path>)
    ensures r.Some? ==> exists k :: 0 <= k < |names| && r.value == Child(dir, names[k]) && Qualifies(fs, r.value)
                          && forall j :: 0 <= j < k ==> !Qualifies(fs, Child(dir, names[j]))
    ensures r.None? <==> forall k :: 0 <= k < |names| ==> !Qualifies(fs, Child(dir, names[k]))
  {
    if |names| == 0 then None
    else if Qualifies(fs, Child(dir, names[0])) then Some(Child(dir, names[0]))
    else
      var r := FirstContent(fs, dir, names[1..]);
      assert forall k :: 0 < k < |names| ==> names[k] == names[1..][k - 1];
      if r.Some? then
        var k :| 0 <= k < |names[1..]| && r.value == Child(dir, names[1..][k]) && Qualifies(fs, r.value)
                 && forall j :: 0 <= j < k ==> !Qualifies(fs, Child(dir, names[1..][j]));
        assert r.value == Child(dir, names[k + 1]);
        r
      else r
  }

  /** `_detect_content_from_registry`: per key, an existing `DataPath`
      folder, else the first existing data folder under `InstallPath`. No
      model folder is required here. */
  function ContentFromRegistry(windows: bool, keys: seq<RegKey>, fs: Fs): (r: Option<Path>)
    ensures !windows ==> r.None?
    ensures r.Some? ==> fs.present(r.value) && fs.isDir(r.value)
    ensures windows ==> (r.None? <==> forall i :: 0 <= i < |keys| ==> KeyContent(keys[i], fs).None?)
    ensures r.Some? ==> exists i :: 0 <= i < |keys| && r == KeyContent(keys[i], fs)
                          && forall j :: 0 <= j < i ==> KeyContent(keys[j], fs).None?
  {
    if !windows then None
    else Scan.First(keys, k => KeyContent(k, fs))
  }

  /** The data folders tried under an `InstallPath`, in order. */
  const DataDirNames: seq<string> := ["DATA", "data", "Models", "models"]

  /** An existing directory. */
  predicate IsFolder(fs: Fs, p: Path) {
    fs.present(p) && fs.isDir(p)
  }

  /** What one registry key gives: its `DataPath` when that is an existing
      folder, else the first existing data folder under its `InstallPath`;
      nothing for a key that cannot be opened. */
  function KeyContent(k: RegKey, fs: Fs): (r: Option<Path>)
    ensures k.Unopenable? ==> r.None?
    ensures k.Key? && k.dataPath.Some? && IsFolder(fs, PathOf(k.dataPath.value)) ==> r == Some(PathOf(k.dataPath.value))
    ensures k.Key? && !(k.dataPath.Some? && IsFolder(fs, PathOf(k.dataPath.value))) ==>
              r == (if k.installPath.Some? then FirstDataDir(fs, PathOf(k.installPath.value), DataDirNames) else None)
    ensures r.Some? ==> IsFolder(fs, r.value)
  {
    match k
    case Unopenable => None
    case Key(ip, dp) =>
      if dp.Some? && IsFolder(fs, PathOf(dp.value)) then Some(PathOf(dp.value))
      else if ip.Some? then FirstDataDir(fs, PathOf(ip.value), DataDirNames)
      else None
  }

  /** The first of `names` under `dir` that is an existing folder. */
  function FirstDataDir(fs: Fs, dir: Path, names: seq<string>): (r: Option<Path>)
    ensures r.Some? ==> fs.present(r.value) && fs.isDir(r.value) && exists k :: 0 <= k < |names| && r.value == Child(dir, names[k])
    ensures r.None? <==> forall k :: 0 <= k < |names| ==> !IsFolder(fs, Child(dir, names[k]))
    ensures r.Some? ==> exists k :: 0 <= k < |names| && r.value == Child(dir, names[k])
                          && forall j :: 0 <= j < k ==> !IsFolder(fs, Child(dir, names[j]))
  {
    if |names| == 0 then None
    else if IsFolder(fs, Child(dir, names[0])) then Some(Child(dir, names[0]))
    else
      var r := FirstDataDir(fs, dir, names[1..]);
      assert forall k :: 0 < k < |names| ==> names[k] == names[1..][k - 1];
      if r.Some? then
        var k :| 0 <= k < |names[1..]| && r.value == Child(dir, names[1..][k])
                 && forall j :: 0 <= j < k ==> !IsFolder(fs, Child(dir, names[1..][j]));
        assert r.value == Child(dir, names[k + 1]);
        r
      else r
  }

  /** `detect_content_directory`: nothing without an existing installation
      path; otherwise the installation folder's content folders, then (on
      Windows) the registry, then the folders beside the installation
      folder. A found folder is recorded. */
  function DetectContentDirectory(mgr: Manager, installationPath: Option<Path>, windows: bool, keys: seq<RegKey>, fs: Fs): (r: (Option<Path>, Manager))
    ensures var ip := if installationPath.Some? then installationPath else mgr.installationPath;
            ip.None? || !fs.present(ip.value) ==> r == (None, mgr)
    ensures r.0.None? ==> r.1 == mgr
    ensures r.0.Some? ==> r.1 == mgr.(contentDirectory := r.0)
    ensures var ip := if installationPath.Some? then installationPath else mgr.installationPath;
            ip.Some? && fs.present(ip.value) ==>
              var first := FirstContent(fs, Parent(ip.value), ContentDirNames);
              && (first.Some? ==> r.0 == first)
              && (first.None? && ContentFromRegistry(windows, keys, fs).Some? ==>
                    r.0 == ContentFromRegistry(windows, keys, fs))
              && (first.None? && ContentFromRegistry(windows, keys, fs).None? ==>
                    r.0 == FirstContent(fs, Parent(Parent(ip.value)), ContentDirNames))
  {
    var ip := if installationPath.Some? then installationPath else mgr.installationPath;
    if ip.None? || !fs.present(ip.value) then (None, mgr)
    else
      var installDir := Parent(ip.value);
      var found :=
        match FirstContent(fs, installDir, ContentDirNames)
        case Some(p) => Some(p)
        case None =>
          match ContentFromRegistry(windows, keys, fs)
          case Some(p) => Some(p)
          case None => FirstContent(fs, Parent(installDir), ContentDirNames);
      if found.Some? then (found, mgr.(contentDirectory := found)) else (None, mgr)
  }

  /** A content folder found beside or inside the installation always holds
      at least one model folder. */
  lemma FoundContentQualifies(mgr: Manager, installationPath: Option<Path>, keys: seq<RegKey>, fs: Fs)
    requires DetectContentDirectory(mgr, installationPath, false, keys, fs).0.Some?
    ensures Qualifies(fs, DetectContentDirectory(mgr, installationPath, false, keys, fs).0.value)
  {
  }

  /** `get_content_directory`: the recorded folder while it exists, else a
      detection when asked to. */
  function GetContentDirectory(mgr: Manager, autoDetect: bool, windows: bool, keys: seq<RegKey>, fs: Fs): (r: (Option<Path>, Manager))
    ensures mgr.contentDirectory.Some? && fs.present(mgr.contentDirectory.value) ==> r == (mgr.contentDirectory, mgr)
    ensures !(mgr.contentDirectory.Some? && fs.present(mgr.contentDirectory.value)) && !autoDetect ==> r == (None, mgr)
    ensures r.0.Some? ==> r.1.contentDirectory == r.0
    ensures !(mgr.contentDirectory.Some? && fs.present(mgr.contentDirectory.value)) && autoDetect ==>
              r == DetectContentDirectory(mgr, None, windows, keys, fs)
  {
    if mgr.contentDirectory.Some? && fs.present(mgr.contentDirectory.value) then (mgr.contentDirectory, mgr)
    else if autoDetect then DetectContentDirectory(mgr, None, windows, keys, fs)
    else (None, mgr)
  }

  /** A detected content folder is recorded, so the next request returns it
      without detecting again, whatever it asks for. */
  lemma ContentDirectoryThenCached(mgr: Manager, windows: bool, keys: seq<RegKey>, fs: Fs, again: bool)
    requires GetContentDirectory(mgr, true, windows, keys, fs).0.Some?
    ensures var (c, m) := GetContentDirectory(mgr, true, windows, keys, fs);
            GetContentDirectory(m, again, windows, keys, fs) == (c, m)
  {
  }

  // ---------------------------------------------------------------------
  // Models and media
  // ---------------------------------------------------------------------

  /** The entries of `dir` that are directories, in listing order. */
  function SubdirsOf(fs: Fs, dir: Path, names: seq<string>): (r: seq<Path>)
    ensures forall p :: p in r <==> exists k :: 0 <= k < |names| && p == Child(dir, names[k]) && fs.isDir(p)
  {
    if |names| == 0 then []
    else
      var rest := SubdirsOf(fs, dir, names[1..]);
      assert forall k :: 0 < k < |names| ==> names[k] == names[1..][k - 1];
      var c := Child(dir, names[0]);
      if fs.isDir(c) then [c] + rest else rest
  }

  /** `list_model_directories`: the content folder's subdirectories sorted
      by name; nothing when there is no content folder or it cannot be
      listed. */
  function ListModelDirectories(mgr: Manager, windows: bool, keys: seq<RegKey>, fs: Fs): (r: (seq<Path>, Manager))
    ensures r.1 == GetContentDirectory(mgr, true, windows, keys, fs).1
    ensures SortedBy(r.0, Name)
    ensures var c := GetContentDirectory(mgr, true, windows, keys, fs).0;
            && (c.None? || fs.listing(c.value).None? ==> r.0 == [])
            && (c.Some? && fs.listing(c.value).Some? ==>
                  multiset(r.0) == multiset(SubdirsOf(fs, c.value, fs.listing(c.value).value)))
  {
    var (c, m) := GetContentDirectory(mgr, true, windows, keys, fs);
    if c.None? then ([], m)
    else
      match fs.listing(c.value)
      case None => ([], m)
      case Some(names) => (SortBy(SubdirsOf(fs, c.value, names), Name), m)
  }

  const DefaultMediaExtensions: seq<string> := [".mp4", ".avi", ".mkv", ".mov", ".jpg", ".jpeg", ".png", ".gif"]

  /** A media file: a file whose lower-cased suffix is listed. */
  predicate IsMedia(fs: Fs, p: Path, exts: seq<string>) {
    fs.isFile(p) && Lower(Suffix(Name(p))) in exts
  }

  function MediaOf(fs: Fs, items: seq<Path>, exts: seq<string>): (r: seq<Path>)
    ensures forall p :: p in r <==> p in items && IsMedia(fs, p, exts)
    ensures multiset(r) <= multiset(items)
  {
    if |items| == 0 then []
    else
      var rest := MediaOf(fs, items[1..], exts);
      assert items == [items[0]] + items[1..];
      if IsMedia(fs, items[0], exts) then [items[0]] + rest else rest
  }

  /** `get_model_media_files`: the media files `rglob('*')` yields (`None`
      when the walk raises), sorted by file name; nothing for a folder that
      is missing or not a directory. */
  function ModelMediaFiles(fs: Fs, rglob: Path -> Option<seq<Path>>, modelDir: Path, extensions: Option<seq<string>>): (r: seq<Path>)
    ensures !fs.present(modelDir) || !fs.isDir(modelDir) || rglob(modelDir).None? ==> r == []
    ensures SortedBy(r, Name)
    ensures fs.present(modelDir) && fs.isDir(modelDir) && rglob(modelDir).Some? ==>
              var exts := extensions.GetOr(DefaultMediaExtensions);
              && (forall p :: p in r <==> p in rglob(modelDir).value && IsMedia(fs, p, exts))
              && multiset(r) == multiset(MediaOf(fs, rglob(modelDir).value, exts))
  {
    var exts := extensions.GetOr(DefaultMediaExtensions);
    if !fs.present(modelDir) || !fs.isDir(modelDir) then []
    else
      match rglob(modelDir)
      case None => []
      case Some(items) =>
        var media := MediaOf(fs, items, exts);
        var r := SortBy(media, Name);
        assert forall p :: p in r <==> p in media by {
          forall p ensures p in r <==> p in media {
            assert p in r <==> p in multiset(r);
            assert p in media <==> p in multiset(media);
          }
        }
        r
  }

  /** `s[:n]` for a Python list: a negative `n` counts from the end. */
  function PyPrefix<T>(s: seq<T>, n: int): (r: seq<T>)
    ensures r <= s
    ensures n >= 0 ==> |r| == if n < |s| then n else |s|
    ensures n < 0 ==> |r| == if |s| + n > 0 then |s| + n else 0
  {
    if n >= 0 then (if n < |s| then s[..n] else s)
    else (if |s| + n > 0 then s[..|s| + n] else [])
  }

  /** The models processed: truncated only when `limit` is truthy, so `0`
      and `None` both mean every model. */
  function LimitModels(dirs: seq<Path>, limit: Option<int>): (r: seq<Path>)
    ensures limit.None? || limit == Some(0) ==> r == dirs
    ensures r <= dirs
  {
    if limit.Some? && limit.value != 0 then PyPrefix(dirs, limit.value) else dirs
  }

  /** The loop of `get_all_model_media`: one entry per model with media,
      keyed by the model folder's name; a later folder of the same name
      overwrites an earlier one. `media` gives a folder's media files. */
  function MediaByModel(dirs: seq<Path>, media: Path -> seq<Path>): (r: map<string, seq<Path>>)
    ensures forall k :: k in r ==> r[k] != []
    decreases |dirs|
  {
    if |dirs| == 0 then map[]
    else
      var r := MediaByModel(dirs[..|dirs| - 1], media);
      var last := dirs[|dirs| - 1];
      if media(last) != [] then r[Name(last) := media(last)] else r
  }

  /** Every model with media has an entry, and every entry is the media of
      a model of that name. */
  lemma {:induction false} MediaByModelEntries(dirs: seq<Path>, media: Path -> seq<Path>)
    ensures var r := MediaByModel(dirs, media);
            && (forall i :: 0 <= i < |dirs| && media(dirs[i]) != [] ==> Name(dirs[i]) in r)
            && (forall k :: k in r ==> exists i :: 0 <= i < |dirs| && Name(dirs[i]) == k && r[k] == media(dirs[i]))
    decreases |dirs|
  {
    if |dirs| > 0 {
      var init := dirs[..|dirs| - 1];
      var last := dirs[|dirs| - 1];
      MediaByModelEntries(init, media);
      assert forall i :: 0 <= i < |init| ==> init[i] == dirs[i];
      var r0 := MediaByModel(init, media);
      var r := MediaByModel(dirs, media);
      forall k | k in r
        ensures exists i :: 0 <= i < |dirs| && Name(dirs[i]) == k && r[k] == media(dirs[i])
      {
        if media(last) != [] && k == Name(last) {
          assert Name(dirs[|dirs| - 1]) == k;
        } else {
          assert k in r0 && r[k] == r0[k];
          var i :| 0 <= i < |init| && Name(init[i]) == k && r0[k] == media(init[i]);
          assert dirs[i] == init[i];
        }
      }
    }
  }

  /** `get_all_model_media`: the models of the content folder, limited,
      with the ones that have no media left out. */
  function AllModelMedia(mgr: Manager, windows: bool, keys: seq<RegKey>, fs: Fs, rglob: Path -> Option<seq<Path>>,
                         extensions: Option<seq<string>>, limit: Option<int>): (r: (map<string, seq<Path>>, Manager))
    ensures r.1 == ListModelDirectories(mgr, windows, keys, fs).1
    ensures var dirs := LimitModels(ListModelDirectories(mgr, windows, keys, fs).0, limit);
            && (forall i :: 0 <= i < |dirs| && ModelMediaFiles(fs, rglob, dirs[i], extensions) != [] ==> Name(dirs[i]) in r.0)
            && (forall k :: k in r.0 ==>
                  && r.0[k] != []
                  && exists i :: 0 <= i < |dirs| && Name(dirs[i]) == k && r.0[k] == ModelMediaFiles(fs, rglob, dirs[i], extensions))
  {
    var (dirs, m) := ListModelDirectories(mgr, windows, keys, fs);
    var media := d => ModelMediaFiles(fs, rglob, d, extensions);
    var limited := LimitModels(dirs, limit);
    MediaByModelEntries(limited, media);
    (MediaByModel(limited, media), m)
  }

  /** A limit of 0 processes every model, exactly as no limit does. */
  lemma ZeroLimitIsNoLimit(mgr: Manager, windows: bool, keys: seq<RegKey>, fs: Fs, rglob: Path -> Option<seq<Path>>, extensions: Option<seq<string>>)
    ensures AllModelMedia(mgr, windows, keys, fs, rglob, extensions, Some(0))
            == AllModelMedia(mgr, windows, keys, fs, rglob, extensions, None)
  {
  }
}
