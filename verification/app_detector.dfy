/** The Windows application detector: where it looks for iStripper and VLC
    (the registry's uninstall entries, then the Program Files folders, first
    their usual sub-folders and then a depth-bounded walk), and the
    dictionaries it reports. The registry, the environment, the drive probes
    and the disk are inputs. */
module AppDetector {
  import opened Wrappers
  import opened Text
  import opened PurePath
  import Scan

  // ---------------------------------------------------------------------
  // The two applications
  // ---------------------------------------------------------------------

  /** `APP_EXECUTABLES.get(app, [])`. */
  function AppExecutables(app: string): (r: seq<string>)
    ensures r == [] <==> app !in {"istripper", "vlc"}
  {
    if app == "istripper" then ["iStripper.exe", "vghd.exe"]
    else if app == "vlc" then ["vlc.exe"]
    else []
  }

  /** `COMMON_SUBDIRS.get(app, [])`. */
  function CommonSubdirs(app: string): (r: seq<string>)
    ensures r == [] <==> app !in {"istripper", "vlc"}
  {
    if app == "istripper" then ["iStripper", "Totem Entertainment", "VirtuaGirl HD"]
    else if app == "vlc" then ["VLC", "VideoLAN\\VLC"]
    else []
  }

  /** An executable is found where the path exists and is a file. */
  predicate Hit(fs: Fs, p: Path) {
    fs.present(p) && fs.isFile(p)
  }

  /** `p` lies at or below `base`. */
  predicate Under(base: Path, p: Path) {
    p.anchor == base.anchor && base.parts <= p.parts
  }

  // ---------------------------------------------------------------------
  // Program Files folders
  // ---------------------------------------------------------------------

  /** What `get_all_drives` learns about one letter: whether `X:/` exists
      and `GetDriveTypeW`'s answer, `None` when the call raises. */
  datatype DriveProbe = DriveProbe(present: bool, driveType: Option<int>)

  /** A drive is kept when it exists and is fixed (type 3), or when its type
      cannot be determined. */
  predicate KeptDrive(d: DriveProbe) {
    d.present && (d.driveType.None? || d.driveType == Some(3))
  }

  const Letters := "ABCDEFGHIJKLMNOPQRSTUVWXYZ"

  function DriveRoot(letter: char): Path {
    Path([letter, ':', '\\'], [])
  }

  /** `get_all_drives` over the given letters, in order. */
  function AllDrives(letters: string, probe: char -> DriveProbe): (r: seq<Path>)
    ensures |r| <= |letters|
    ensures forall i :: 0 <= i < |r| ==> r[i].parts == [] && |r[i].anchor| == 3 && KeptDrive(probe(r[i].anchor[0]))
    ensures forall k :: 0 <= k < |letters| ==> (DriveRoot(letters[k]) in r <==> KeptDrive(probe(letters[k])))
    ensures forall i :: 0 <= i < |r| ==> exists k :: 0 <= k < |letters| && r[i] == DriveRoot(letters[k])
    decreases |letters|, 1
  {
    if |letters| == 0 then []
    else
      var rest := AllDrives(letters[1..], probe);
      AllDrivesStep(letters, probe);
      if KeptDrive(probe(letters[0])) then
        var r := [DriveRoot(letters[0])] + rest;
        assert forall j :: 0 < j < |r| ==> r[j] == rest[j - 1];
        r
      else rest
  }

  /** What the drives found for all but the first letter say about the
      whole list of letters. */
  lemma AllDrivesStep(letters: string, probe: char -> DriveProbe)
    requires |letters| > 0
    decreases |letters|, 0
    ensures var rest := AllDrives(letters[1..], probe);
            && (forall k :: 0 < k < |letters| ==> letters[k] == letters[1..][k - 1])
            && (forall k :: 0 <= k < |letters| && DriveRoot(letters[k]) in rest ==> KeptDrive(probe(letters[k])))
            && (forall i :: 0 <= i < |rest| ==> exists k :: 1 <= k < |letters| && rest[i] == DriveRoot(letters[k]))
  {
    var rest := AllDrives(letters[1..], probe);
    forall k | 0 <= k < |letters| && DriveRoot(letters[k]) in rest ensures KeptDrive(probe(letters[k])) {
      var i :| 0 <= i < |rest| && rest[i] == DriveRoot(letters[k]);
      assert rest[i].anchor[0] == letters[k];
    }
    forall i | 0 <= i < |rest| ensures exists k :: 1 <= k < |letters| && rest[i] == DriveRoot(letters[k]) {
      var k :| 0 <= k < |letters[1..]| && rest[i] == DriveRoot(letters[1..][k]);
      assert rest[i] == DriveRoot(letters[k + 1]);
    }
  }

  /** The drives are reported letter by letter: those of an earlier stretch
      of letters come before those of a later one, and one letter gives its
      root exactly when the drive is kept. */
  lemma {:induction false} AllDrivesAppend(a: string, b: string, probe: char -> DriveProbe)
    ensures AllDrives(a + b, probe) == AllDrives(a, probe) + AllDrives(b, probe)
    ensures |a| == 1 ==> AllDrives(a, probe) == if KeptDrive(probe(a[0])) then [DriveRoot(a[0])] else []
  {
    if |a| > 0 {
      assert (a + b)[0] == a[0] && (a + b)[1..] == a[1..] + b;
      AllDrivesAppend(a[1..], b, probe);
    } else {
      assert a + b == b;
    }
  }

  /** The two variables `get_program_files_dirs` reads; an empty value counts
      as unset. */
  datatype Env = Env(programFiles: Option<string>, programFilesX86: Option<string>)

  predicate IsSet(v: Option<string>) {
    v.Some? && v.value != ""
  }

  /** The four places searched on every drive: its Program Files folders,
      its Games folder and its root. */
  function DriveFolders(drives: seq<Path>): (r: seq<Path>)
    ensures |r| == 4 * |drives|
    ensures forall i :: 0 <= i < |drives| ==>
              && r[4 * i] == Child(drives[i], "Program Files")
              && r[4 * i + 1] == Child(drives[i], "Program Files (x86)")
              && r[4 * i + 2] == Child(drives[i], "Games")
              && r[4 * i + 3] == drives[i]
  {
    if |drives| == 0 then []
    else
      var d := drives[0];
      var rest := DriveFolders(drives[1..]);
      var r := [Child(d, "Program Files"), Child(d, "Program Files (x86)"), Child(d, "Games"), d] + rest;
      assert forall i :: 1 <= i < |drives| ==> drives[i] == drives[1..][i - 1] && r[4 * i] == rest[4 * (i - 1)];
      r
  }

  /** The folders `get_program_files_dirs` considers before dropping the
      ones that do not exist. Without all drives: the set variables, in
      order, and the two `C:` folders only when neither variable is set. */
  function ProgramFilesCandidates(includeAllDrives: bool, env: Env, probe: char -> DriveProbe): (r: seq<Path>)
    ensures includeAllDrives ==> r == DriveFolders(AllDrives(Letters, probe))
    ensures !includeAllDrives && (IsSet(env.programFiles) || IsSet(env.programFilesX86)) ==>
              r == (if IsSet(env.programFiles) then [PathOf(env.programFiles.value)] else [])
                   + (if IsSet(env.programFilesX86) then [PathOf(env.programFilesX86.value)] else [])
    ensures !includeAllDrives && !IsSet(env.programFiles) && !IsSet(env.programFilesX86) ==>
              r == [Path("C:\\", ["Program Files"]), Path("C:\\", ["Program Files (x86)"])]
  {
    if includeAllDrives then DriveFolders(AllDrives(Letters, probe))
    else
      var fromEnv := (if IsSet(env.programFiles) then [PathOf(env.programFiles.value)] else [])
                     + (if IsSet(env.programFilesX86) then [PathOf(env.programFilesX86.value)] else []);
      if fromEnv == [] then [Path("C:\\", ["Program Files"]), Path("C:\\", ["Program Files (x86)"])]
      else fromEnv
  }

  /** The two fallback folders are what `Path` makes of their literal
      spellings: first `C:\Program Files`, */
  lemma FallbackParsed(pf: string)
    requires pf == "C:\\Program Files"
    ensures PathOf(pf) == Path("C:\\", ["Program Files"])
  {
    assert pf == "C:\\" + "Program Files";
    ProgramFilesIsClean();
    DriveFolderParsed(pf, "Program Files");
  }

  /** then `C:\Program Files (x86)`. */
  lemma FallbackX86Parsed(pfx86: string)
    requires pfx86 == "C:\\Program Files (x86)"
    ensures PathOf(pfx86) == Path("C:\\", ["Program Files (x86)"])
  {
    assert pfx86 == "C:\\" + "Program Files (x86)";
    ProgramFilesX86IsClean();
    DriveFolderParsed(pfx86, "Program Files (x86)");
  }

  lemma ProgramFilesIsClean()
    ensures CleanPart("Program Files")
  {
  }

  lemma ProgramFilesX86IsClean()
    ensures CleanPart("Program Files (x86)")
  {
  }

  /** A single folder name right under the root of drive `C:`. */
  lemma DriveFolderParsed(s: string, name: string)
    requires s == "C:\\" + name && CleanPart(name)
    ensures PathOf(s) == Path("C:\\", [name])
  {
    assert s[1] == ':' && s[2..][0] == '\\';
    assert s[2..][1..] == name && s[..2] + "\\" == "C:\\";
    ComponentsOfName(name);
  }

  /** `[d for d in dirs if d.exists()]`. */
  function Existing(dirs: seq<Path>, fs: Fs): (r: seq<Path>)
    ensures |r| <= |dirs|
    ensures forall p :: p in r <==> p in dirs && fs.present(p)
  {
    if |dirs| == 0 then []
    else
      var rest := Existing(dirs[1..], fs);
      assert forall p :: p in dirs <==> p == dirs[0] || p in dirs[1..];
      if fs.present(dirs[0]) then [dirs[0]] + rest else rest
  }

  /** `get_program_files_dirs`: the candidates that exist. */
  function ProgramFilesDirs(includeAllDrives: bool, env: Env, probe: char -> DriveProbe, fs: Fs): (r: seq<Path>)
    ensures forall p :: p in r <==> p in ProgramFilesCandidates(includeAllDrives, env, probe) && fs.present(p)
  {
    Existing(ProgramFilesCandidates(includeAllDrives, env, probe), fs)
  }

  /** The comprehension keeps the candidates' order: the existing folders of
      an earlier stretch come before those of a later one, and one folder is
      kept exactly when it exists. */
  lemma {:induction false} ExistingAppend(a: seq<Path>, b: seq<Path>, fs: Fs)
    ensures Existing(a + b, fs) == Existing(a, fs) + Existing(b, fs)
    ensures |a| == 1 ==> Existing(a, fs) == if fs.present(a[0]) then a else []
  {
    if |a| > 0 {
      assert (a + b)[0] == a[0] && (a + b)[1..] == a[1..] + b;
      ExistingAppend(a[1..], b, fs);
    } else {
      assert a + b == b;
    }
  }

  /** The base folders are reported in candidate order: cutting the
      candidate list in two cuts the result the same way. */
  lemma ProgramFilesDirsAppend(includeAllDrives: bool, env: Env, probe: char -> DriveProbe, fs: Fs, a: seq<Path>, b: seq<Path>)
    requires ProgramFilesCandidates(includeAllDrives, env, probe) == a + b
    ensures ProgramFilesDirs(includeAllDrives, env, probe, fs) == Existing(a, fs) + Existing(b, fs)
  {
    ExistingAppend(a, b, fs);
  }

  /** With either variable set, no hard-coded `C:` folder is searched unless
      a variable names it. */
  lemma FallbackOnlyWhenUnset(env: Env, probe: char -> DriveProbe, fs: Fs, p: Path)
    requires IsSet(env.programFiles) || IsSet(env.programFilesX86)
    requires p in ProgramFilesDirs(false, env, probe, fs)
    ensures (IsSet(env.programFiles) && p == PathOf(env.programFiles.value))
            || (IsSet(env.programFilesX86) && p == PathOf(env.programFilesX86.value))
  {
  }

  // ---------------------------------------------------------------------
  // The depth-bounded walk
  // ---------------------------------------------------------------------

  /** The first name in `exes` that is an existing file in `dir`. */
  function FirstExe(fs: Fs, dir: Path, exes: seq<string>): (r: Option<Path>)
    ensures r.None? <==> forall k :: 0 <= k < |exes| ==> !Hit(fs, Child(dir, exes[k]))
    ensures r.Some? ==> exists k :: 0 <= k < |exes| && r.value == Child(dir, exes[k]) && Hit(fs, r.value)
                          && forall j :: 0 <= j < k ==> !Hit(fs, Child(dir, exes[j]))
    ensures r.Some? ==> Parent(r.value) == dir && Under(dir, r.value) && |r.value.parts| == |dir.parts| + 1
                          && Hit(fs, r.value) && Name(r.value) in exes
  {
    if |exes| == 0 then None
    else if Hit(fs, Child(dir, exes[0])) then Some(Child(dir, exes[0]))
    else
      var r := FirstExe(fs, dir, exes[1..]);
      assert forall k :: 0 < k < |exes| ==> exes[k] == exes[1..][k - 1];
      if r.Some? then
        var k :| 0 <= k < |exes[1..]| && r.value == Child(dir, exes[1..][k]) && Hit(fs, r.value)
                 && forall j :: 0 <= j < k ==> !Hit(fs, Child(dir, exes[1..][j]));
        assert r.value == Child(dir, exes[k + 1]);
        r
      else r
  }

  /** A found executable lies below the directory searched, at most
      `levels` components further down, is an existing file and carries one
      of the names looked for. */
  predicate FoundBelow(fs: Fs, dir: Path, exes: seq<string>, levels: nat, p: Path) {
    && Under(dir, p)
    && |dir.parts| < |p.parts| <= |dir.parts| + levels + 1
    && Hit(fs, p)
    && Name(p) in exes
  }

  /** `search_recursive(dir, depth)`: the executables of `dir` first, then,
      above the depth limit, each listed subdirectory in listing order. A
      directory that cannot be listed contributes only its own executables. */
  function Search(fs: Fs, dir: Path, exes: seq<string>, depth: nat, maxDepth: nat): (r: Option<Path>)
    ensures depth > maxDepth ==> r.None?
    ensures r.Some? ==> FoundBelow(fs, dir, exes, maxDepth - depth, r.value)
    decreases maxDepth + 1 - depth, 0
  {
    if depth > maxDepth then None
    else
      match FirstExe(fs, dir, exes)
      case Some(p) => Some(p)
      case None =>
        if depth < maxDepth then
          match fs.listing(dir)
          case None => None
          case Some(names) => SearchChildren(fs, dir, names, exes, depth + 1, maxDepth)
        else None
  }

  /** The loop over `iterdir()` at child depth `depth`: the first
      subdirectory whose search finds something. */
  function SearchChildren(fs: Fs, dir: Path, names: seq<string>, exes: seq<string>, depth: nat, maxDepth: nat): (r: Option<Path>)
    requires 0 < depth <= maxDepth
    ensures r.Some? ==> FoundBelow(fs, dir, exes, maxDepth - depth + 1, r.value)
    decreases maxDepth + 1 - depth, |names|
  {
    if |names| == 0 then None
    else
      var child := Child(dir, names[0]);
      var found := if fs.isDir(child) then Search(fs, child, exes, depth, maxDepth) else None;
      if found.Some? then found
      else SearchChildren(fs, dir, names[1..], exes, depth, maxDepth)
  }

  /** `search_directory_recursive` with its default limit of three levels. */
  function SearchDirectory(fs: Fs, base: Path, exes: seq<string>): (r: Option<Path>)
    ensures r.Some? ==> FoundBelow(fs, base, exes, 3, r.value)
  {
    Search(fs, base, exes, 0, 3)
  }

  // ---------------------------------------------------------------------
  // Reference: the pre-order list of visited directories
  // ---------------------------------------------------------------------

  /** Every directory the walk from `dir` at `depth` visits, in the order it
      visits them when nothing is found. */
  function Visited(fs: Fs, dir: Path, depth: nat, maxDepth: nat): (r: seq<Path>)
    ensures depth <= maxDepth ==> |r| > 0 && r[0] == dir
    ensures depth <= maxDepth && (depth == maxDepth || fs.listing(dir).None?) ==> r == [dir]
    decreases maxDepth + 1 - depth, 0
  {
    if depth > maxDepth then []
    else if depth < maxDepth && fs.listing(dir).Some? then
      [dir] + VisitedChildren(fs, dir, fs.listing(dir).value, depth + 1, maxDepth)
    else [dir]
  }

  function VisitedChildren(fs: Fs, dir: Path, names: seq<string>, depth: nat, maxDepth: nat): (r: seq<Path>)
    requires 0 < depth <= maxDepth
    decreases maxDepth + 1 - depth, |names|
  {
    if |names| == 0 then []
    else
      var child := Child(dir, names[0]);
      (if fs.isDir(child) then Visited(fs, child, depth, maxDepth) else [])
      + VisitedChildren(fs, dir, names[1..], depth, maxDepth)
  }

  /** The executable found in the first of `dirs` that holds one. */
  function FirstHit(fs: Fs, dirs: seq<Path>, exes: seq<string>): (r: Option<Path>)
    ensures r.None? <==> forall i :: 0 <= i < |dirs| ==> FirstExe(fs, dirs[i], exes).None?
  {
    if |dirs| == 0 then None
    else if FirstExe(fs, dirs[0], exes).Some? then FirstExe(fs, dirs[0], exes)
    else
      var r := FirstHit(fs, dirs[1..], exes);
      assert forall i :: 0 < i < |dirs| ==> dirs[i] == dirs[1..][i - 1];
      r
  }

  lemma {:induction false} FirstHitAppend(fs: Fs, a: seq<Path>, b: seq<Path>, exes: seq<string>)
    ensures FirstHit(fs, a + b, exes) == if FirstHit(fs, a, exes).Some? then FirstHit(fs, a, exes) else FirstHit(fs, b, exes)
  {
    if |a| > 0 {
      assert (a + b)[0] == a[0] && (a + b)[1..] == a[1..] + b;
      FirstHitAppend(fs, a[1..], b, exes);
    } else {
      assert a + b == b;
    }
  }

  /** The walk returns the first executable of the first directory, in
      pre-order, that holds one: executables before subdirectories, earlier
      listing entries before later ones. */
  lemma {:induction false} SearchIsFirstHit(fs: Fs, dir: Path, exes: seq<string>, depth: nat, maxDepth: nat)
    ensures Search(fs, dir, exes, depth, maxDepth) == FirstHit(fs, Visited(fs, dir, depth, maxDepth), exes)
    decreases maxDepth + 1 - depth, 0, 1
  {
    if depth < maxDepth && fs.listing(dir).Some? {
      ListedStep(fs, dir, fs.listing(dir).value, exes, depth, maxDepth);
    } else if depth <= maxDepth {
      assert Visited(fs, dir, depth, maxDepth) == [dir];
      assert [dir][1..] == [];
    }
  }

  /** One step of `SearchIsFirstHit` for a directory that is listed. */
  lemma {:induction false} ListedStep(fs: Fs, dir: Path, names: seq<string>, exes: seq<string>, depth: nat, maxDepth: nat)
    requires depth < maxDepth && fs.listing(dir) == Some(names)
    ensures Search(fs, dir, exes, depth, maxDepth) == FirstHit(fs, Visited(fs, dir, depth, maxDepth), exes)
    decreases maxDepth + 1 - depth, 0, 0
  {
    SearchChildrenIsFirstHit(fs, dir, names, exes, depth + 1, maxDepth);
    var here := FirstExe(fs, dir, exes);
    var rest := VisitedChildren(fs, dir, names, depth + 1, maxDepth);
    assert FirstHit(fs, [dir], exes) == here by {
      assert [dir][1..] == [];
    }
    assert Visited(fs, dir, depth, maxDepth) == [dir] + rest;
    FirstHitAppend(fs, [dir], rest, exes);
    assert Search(fs, dir, exes, depth, maxDepth)
        == if here.Some? then here else SearchChildren(fs, dir, names, exes, depth + 1, maxDepth);
  }

  lemma {:induction false} SearchChildrenIsFirstHit(fs: Fs, dir: Path, names: seq<string>, exes: seq<string>, depth: nat, maxDepth: nat)
    requires 0 < depth <= maxDepth
    ensures SearchChildren(fs, dir, names, exes, depth, maxDepth) == FirstHit(fs, VisitedChildren(fs, dir, names, depth, maxDepth), exes)
    decreases maxDepth + 1 - depth, |names|, 0
  {
    if |names| > 0 {
      var child := Child(dir, names[0]);
      var here := if fs.isDir(child) then Visited(fs, child, depth, maxDepth) else [];
      var rest := VisitedChildren(fs, dir, names[1..], depth, maxDepth);
      FirstHitAppend(fs, here, rest, exes);
      SearchChildrenIsFirstHit(fs, dir, names[1..], exes, depth, maxDepth);
      if fs.isDir(child) {
        SearchIsFirstHit(fs, child, exes, depth, maxDepth);
      }
    }
  }

  /** No probe for an executable happens more than `maxDepth - depth`
      levels below the directory the walk starts from: every visited
      directory lies within that many components. */
  lemma {:induction false} VisitedWithinDepth(fs: Fs, dir: Path, depth: nat, maxDepth: nat, p: Path)
    requires p in Visited(fs, dir, depth, maxDepth)
    ensures Under(dir, p) && |p.parts| <= |dir.parts| + (maxDepth - depth)
    decreases maxDepth + 1 - depth, 0
  {
    if p != dir {
      VisitedChildrenWithinDepth(fs, dir, fs.listing(dir).value, depth + 1, maxDepth, p);
    }
  }

  lemma {:induction false} VisitedChildrenWithinDepth(fs: Fs, dir: Path, names: seq<string>, depth: nat, maxDepth: nat, p: Path)
    requires 0 < depth <= maxDepth
    requires p in VisitedChildren(fs, dir, names, depth, maxDepth)
    ensures Under(dir, p) && |dir.parts| < |p.parts| <= |dir.parts| + (maxDepth - depth) + 1
    decreases maxDepth + 1 - depth, |names|
  {
    var child := Child(dir, names[0]);
    var here := if fs.isDir(child) then Visited(fs, child, depth, maxDepth) else [];
    if p in here {
      VisitedWithinDepth(fs, child, depth, maxDepth, p);
    } else {
      VisitedChildrenWithinDepth(fs, dir, names[1..], depth, maxDepth, p);
    }
  }

  /** A subdirectory that cannot be listed and holds no executable is
      passed over: the walk goes on with its next sibling. */
  lemma InaccessibleSkipped(fs: Fs, dir: Path, names: seq<string>, exes: seq<string>, depth: nat, maxDepth: nat)
    requires 0 < depth <= maxDepth && |names| > 0
    requires fs.isDir(Child(dir, names[0])) && fs.listing(Child(dir, names[0])).None?
    requires FirstExe(fs, Child(dir, names[0]), exes).None?
    ensures SearchChildren(fs, dir, names, exes, depth, maxDepth) == SearchChildren(fs, dir, names[1..], exes, depth, maxDepth)
  {
  }

  // ---------------------------------------------------------------------
  // Registry, per-folder search, and the application lookup
  // ---------------------------------------------------------------------

  /** One subkey of an `Uninstall` key: its name and its `InstallLocation`
      value (`None` when the subkey or the value cannot be read). */
  datatype Subkey = Subkey(name: string, installLocation: Option<string>)

  /** The executable one matching subkey points to, if any: the first name
      in the application's list that exists in its existing install folder. */
  function SubkeyHit(k: Subkey, app: string, fs: Fs): (r: Option<Path>)
    ensures r.Some? ==> Contains(Lower(k.name), app) && Name(r.value) in AppExecutables(app) && fs.present(r.value)
    ensures r.Some? <==> Contains(Lower(k.name), app) && IsSet(k.installLocation)
                         && fs.present(PathOf(k.installLocation.value))
                         && FirstExisting(fs, PathOf(k.installLocation.value), AppExecutables(app)).Some?
    ensures r.Some? ==> r == FirstExisting(fs, PathOf(k.installLocation.value), AppExecutables(app))
  {
    if Contains(Lower(k.name), app) && IsSet(k.installLocation) && fs.present(PathOf(k.installLocation.value)) then
      FirstExisting(fs, PathOf(k.installLocation.value), AppExecutables(app))
    else None
  }

  /** The first name in `exes` that exists in `dir` (the registry path only
      checks existence). */
  function FirstExisting(fs: Fs, dir: Path, exes: seq<string>): (r: Option<Path>)
    ensures r.Some? ==> exists k :: 0 <= k < |exes| && r.value == Child(dir, exes[k]) && fs.present(r.value)
    ensures r.Some? ==> Name(r.value) in exes
    ensures r.None? <==> forall k :: 0 <= k < |exes| ==> !fs.present(Child(dir, exes[k]))
    ensures r.Some? ==> exists k :: 0 <= k < |exes| && r.value == Child(dir, exes[k])
                          && forall j :: 0 <= j < k ==> !fs.present(Child(dir, exes[j]))
  {
    if |exes| == 0 then None
    else if fs.present(Child(dir, exes[0])) then Some(Child(dir, exes[0]))
    else
      var r := FirstExisting(fs, dir, exes[1..]);
      assert forall k :: 0 < k < |exes| ==> exes[k] == exes[1..][k - 1];
      if r.Some? then
        var k :| 0 <= k < |exes[1..]| && r.value == Child(dir, exes[1..][k])
                 && forall j :: 0 <= j < k ==> !fs.present(Child(dir, exes[1..][j]));
        assert r.value == Child(dir, exes[k + 1]);
        r
      else r
  }

  /** The subkeys of one opened `Uninstall` key, in enumeration order: the
      hit of the first subkey that has one. */
  function FirstSubkeyHit(keys: seq<Subkey>, app: string, fs: Fs): (r: Option<Path>)
    ensures r.Some? ==> Name(r.value) in AppExecutables(app) && fs.present(r.value)
    ensures r.None? <==> forall i :: 0 <= i < |keys| ==> SubkeyHit(keys[i], app, fs).None?
    ensures r.Some? ==> exists i :: 0 <= i < |keys| && r == SubkeyHit(keys[i], app, fs)
                          && forall j :: 0 <= j < i ==> SubkeyHit(keys[j], app, fs).None?
  {
    Scan.First(keys, k => SubkeyHit(k, app, fs))
  }

  /** What one of the three `Uninstall` keys contributes: nothing when it
      cannot be opened, else the first hit among its subkeys. */
  function RootHit(root: Option<seq<Subkey>>, app: string, fs: Fs): (r: Option<Path>)
    ensures root.None? ==> r.None?
    ensures root.Some? ==> r == FirstSubkeyHit(root.value, app, fs)
    ensures r.Some? ==> Name(r.value) in AppExecutables(app) && fs.present(r.value)
  {
    if root.Some? then FirstSubkeyHit(root.value, app, fs) else None
  }

  /** `check_registry`: the three `Uninstall` keys in order (`None` for one
      that cannot be opened), each subkey in enumeration order. */
  function CheckRegistry(roots: seq<Option<seq<Subkey>>>, app: string, fs: Fs): (r: Option<Path>)
    ensures AppExecutables(Lower(app)) == [] ==> r.None?
    ensures r.Some? ==> Name(r.value) in AppExecutables(Lower(app)) && fs.present(r.value)
    ensures r == RegistryScan(roots, Lower(app), fs)
  {
    RegistryScan(roots, Lower(app), fs)
  }

  /** The scan of `check_registry` for an already lower-cased name. */
  function RegistryScan(roots: seq<Option<seq<Subkey>>>, app: string, fs: Fs): (r: Option<Path>)
    ensures AppExecutables(app) == [] ==> r.None?
    ensures r.Some? ==> Name(r.value) in AppExecutables(app) && fs.present(r.value)
    ensures r.None? <==> forall i :: 0 <= i < |roots| ==> RootHit(roots[i], app, fs).None?
    ensures r.Some? ==> exists i :: 0 <= i < |roots| && r == RootHit(roots[i], app, fs)
                          && forall j :: 0 <= j < i ==> RootHit(roots[j], app, fs).None?
  {
    RegistryHitSound(roots, app, fs);
    var f := k => RootHit(k, app, fs);
    assert forall i :: 0 <= i < |roots| ==> f(roots[i]) == RootHit(roots[i], app, fs);
    Scan.First(roots, f)
  }

  /** A registry hit names one of the application's executables and exists. */
  lemma RegistryHitSound(roots: seq<Option<seq<Subkey>>>, app: string, fs: Fs)
    ensures var r := Scan.First(roots, k => RootHit(k, app, fs));
            r.Some? ==> Name(r.value) in AppExecutables(app) && fs.present(r.value)
  {
    var r := Scan.First(roots, k => RootHit(k, app, fs));
    if r.Some? {
      var i :| 0 <= i < |roots| && r == RootHit(roots[i], app, fs);
    }
  }

  /** `drive` of a path: the `X:` part of its anchor. */
  function Drive(p: Path): (d: string)
    ensures d == "" || (|d| == 2 && d[1] == ':' && d <= p.anchor)
  {
    if |p.anchor| >= 2 && p.anchor[1] == ':' then p.anchor[..2] else ""
  }

  /** The usual sub-folders of one base folder, in order: the first existing
      executable of the first existing sub-folder that has one. */
  function FirstInSubdirs(fs: Fs, base: Path, subdirs: seq<string>, exes: seq<string>): (r: Option<Path>)
    ensures r.Some? ==> exists k :: 0 <= k < |subdirs| && fs.present(Join1(base, subdirs[k]))
                          && r == FirstExe(fs, Join1(base, subdirs[k]), exes)
    ensures r.Some? ==> Under(base, r.value) && Hit(fs, r.value) && Name(r.value) in exes
    ensures r.Some? ==> exists k :: 0 <= k < |subdirs| && Parent(r.value) == Join1(base, subdirs[k])
    ensures r.None? <==> forall k :: 0 <= k < |subdirs| ==> SubdirHit(fs, base, subdirs[k], exes).None?
    ensures r.Some? ==> exists k :: 0 <= k < |subdirs| && r == SubdirHit(fs, base, subdirs[k], exes)
                          && forall j :: 0 <= j < k ==> SubdirHit(fs, base, subdirs[j], exes).None?
  {
    Scan.First(subdirs, d => SubdirHit(fs, base, d, exes))
  }

  /** One usual sub-folder: its first executable, provided the sub-folder
      exists. */
  function SubdirHit(fs: Fs, base: Path, subdir: string, exes: seq<string>): (r: Option<Path>)
    ensures !fs.present(Join1(base, subdir)) ==> r.None?
    ensures fs.present(Join1(base, subdir)) ==> r == FirstExe(fs, Join1(base, subdir), exes)
  {
    var d := Join1(base, subdir);
    if fs.present(d) then FirstExe(fs, d, exes) else None
  }

  /** One iteration of the loop over base folders: the usual sub-folders
      first; then the walk, unless all drives are searched and the base is
      not on `C:`. */
  function SearchBase(fs: Fs, base: Path, subdirs: seq<string>, exes: seq<string>, searchAllDrives: bool): (r: Option<Path>)
    ensures FirstInSubdirs(fs, base, subdirs, exes).Some? ==> r == FirstInSubdirs(fs, base, subdirs, exes)
    ensures r.Some? ==> Under(base, r.value) && Hit(fs, r.value) && Name(r.value) in exes
    ensures r.Some? && searchAllDrives && Drive(base) != "C:" ==>
              exists k :: 0 <= k < |subdirs| && Parent(r.value) == Join1(base, subdirs[k])
    ensures FirstInSubdirs(fs, base, subdirs, exes).None? && (!searchAllDrives || Drive(base) == "C:") ==>
              r == SearchDirectory(fs, base, exes)
    ensures FirstInSubdirs(fs, base, subdirs, exes).None? && searchAllDrives && Drive(base) != "C:" ==> r.None?
  {
    var s := FirstInSubdirs(fs, base, subdirs, exes);
    if s.Some? then s
    else if !searchAllDrives || Drive(base) == "C:" then SearchDirectory(fs, base, exes)
    else None
  }

  function SearchBases(fs: Fs, bases: seq<Path>, subdirs: seq<string>, exes: seq<string>, searchAllDrives: bool): (r: Option<Path>)
    ensures r.Some? ==> exists i :: 0 <= i < |bases| && r == SearchBase(fs, bases[i], subdirs, exes, searchAllDrives)
    ensures r.None? <==> forall i :: 0 <= i < |bases| ==> SearchBase(fs, bases[i], subdirs, exes, searchAllDrives).None?
    ensures r.Some? ==> exists i :: 0 <= i < |bases| && r == SearchBase(fs, bases[i], subdirs, exes, searchAllDrives)
                          && forall j :: 0 <= j < i ==> SearchBase(fs, bases[j], subdirs, exes, searchAllDrives).None?
  {
    Scan.First(bases, b => SearchBase(fs, b, subdirs, exes, searchAllDrives))
  }

  /** Everything the detector reads from the machine. */
  datatype Machine = Machine(
    uninstall: seq<Option<seq<Subkey>>>,
    env: Env,
    probe: char -> DriveProbe,
    fs: Fs)

  /** `find_application`: a registry hit is returned as it is; an unknown
      name finds nothing; otherwise the Program Files folders are searched
      in order. */
  function FindApplication(appName: string, searchAllDrives: bool, m: Machine): (r: Option<Path>)
    ensures CheckRegistry(m.uninstall, Lower(appName), m.fs).Some? ==> r == CheckRegistry(m.uninstall, Lower(appName), m.fs)
    ensures Lower(appName) !in {"istripper", "vlc"} ==> r.None?
    ensures r.Some? && CheckRegistry(m.uninstall, Lower(appName), m.fs).None? ==>
              exists b :: b in ProgramFilesDirs(searchAllDrives, m.env, m.probe, m.fs)
                && Under(b, r.value) && Hit(m.fs, r.value) && Name(r.value) in AppExecutables(Lower(appName))
    ensures CheckRegistry(m.uninstall, Lower(appName), m.fs).None? && Lower(appName) in {"istripper", "vlc"} ==>
              r == SearchBases(m.fs, ProgramFilesDirs(searchAllDrives, m.env, m.probe, m.fs),
                               CommonSubdirs(Lower(appName)), AppExecutables(Lower(appName)), searchAllDrives)
  {
    var app := Lower(appName);
    LowerIdempotent(appName);
    var reg := CheckRegistry(m.uninstall, app, m.fs);
    if reg.Some? then reg
    else
      var exes := AppExecutables(app);
      if exes == [] then None
      else
        var bases := ProgramFilesDirs(searchAllDrives, m.env, m.probe, m.fs);
        var r := SearchBases(m.fs, bases, CommonSubdirs(app), exes, searchAllDrives);
        if r.Some? then
          var i :| 0 <= i < |bases| && r == SearchBase(m.fs, bases[i], CommonSubdirs(app), exes, searchAllDrives);
          assert bases[i] in bases;
          r
        else r
  }

  /** After a registry miss, the first base folder that answers decides:
      when its usual sub-folders hold nothing and it may be walked, the
      application found is the first executable of the walk's pre-order. */
  lemma FindApplicationWalks(appName: string, searchAllDrives: bool, m: Machine, i: nat)
    requires CheckRegistry(m.uninstall, Lower(appName), m.fs).None? && Lower(appName) in {"istripper", "vlc"}
    requires var bases := ProgramFilesDirs(searchAllDrives, m.env, m.probe, m.fs);
             && i < |bases|
             && (forall j :: 0 <= j < i ==>
                   SearchBase(m.fs, bases[j], CommonSubdirs(Lower(appName)), AppExecutables(Lower(appName)), searchAllDrives).None?)
             && FirstInSubdirs(m.fs, bases[i], CommonSubdirs(Lower(appName)), AppExecutables(Lower(appName))).None?
             && (!searchAllDrives || Drive(bases[i]) == "C:")
    requires var bases := ProgramFilesDirs(searchAllDrives, m.env, m.probe, m.fs);
             FirstHit(m.fs, Visited(m.fs, bases[i], 0, 3), AppExecutables(Lower(appName))).Some?
    ensures var bases := ProgramFilesDirs(searchAllDrives, m.env, m.probe, m.fs);
            FindApplication(appName, searchAllDrives, m) == FirstHit(m.fs, Visited(m.fs, bases[i], 0, 3), AppExecutables(Lower(appName)))
  {
    var app := Lower(appName);
    var bases := ProgramFilesDirs(searchAllDrives, m.env, m.probe, m.fs);
    var subdirs, exes := CommonSubdirs(app), AppExecutables(app);
    assert SearchBase(m.fs, bases[i], subdirs, exes, searchAllDrives) == FirstHit(m.fs, Visited(m.fs, bases[i], 0, 3), exes) by {
      SearchIsFirstHit(m.fs, bases[i], exes, 0, 3);
    }
    SearchBasesAt(m.fs, bases, subdirs, exes, searchAllDrives, i);
  }

  /** The loop over base folders answers with the first base that answers. */
  lemma SearchBasesAt(fs: Fs, bases: seq<Path>, subdirs: seq<string>, exes: seq<string>, searchAllDrives: bool, i: nat)
    requires i < |bases| && SearchBase(fs, bases[i], subdirs, exes, searchAllDrives).Some?
    requires forall j :: 0 <= j < i ==> SearchBase(fs, bases[j], subdirs, exes, searchAllDrives).None?
    ensures SearchBases(fs, bases, subdirs, exes, searchAllDrives) == SearchBase(fs, bases[i], subdirs, exes, searchAllDrives)
  {
    var r := SearchBases(fs, bases, subdirs, exes, searchAllDrives);
    var k :| 0 <= k < |bases| && r == SearchBase(fs, bases[k], subdirs, exes, searchAllDrives)
             && forall j :: 0 <= j < k ==> SearchBase(fs, bases[j], subdirs, exes, searchAllDrives).None?;
    assert k == i;
  }

  /** `detect_all_applications`: one entry per known application; only
      iStripper may search every drive. */
  function DetectAllApplications(searchAllDrives: bool, m: Machine): (r: map<string, Option<Path>>)
    ensures r.Keys == {"istripper", "vlc"}
    ensures r["istripper"] == FindApplication("istripper", searchAllDrives, m)
    ensures r["vlc"] == FindApplication("vlc", false, m)
  {
    Report(FindApplication("istripper", searchAllDrives, m), FindApplication("vlc", false, m))
  }

  /** The dictionary of the two findings. */
  function Report(istripper: Option<Path>, vlc: Option<Path>): (r: map<string, Option<Path>>)
    ensures r.Keys == {"istripper", "vlc"}
    ensures r["istripper"] == istripper && r["vlc"] == vlc
  {
    map["istripper" := istripper, "vlc" := vlc]
  }

  /** Asking for an all-drive search never changes what is reported for VLC. */
  lemma VlcIgnoresAllDrives(m: Machine)
    ensures DetectAllApplications(true, m)["vlc"] == DetectAllApplications(false, m)["vlc"]
  {
  }

  /** `detect_applications`: nothing off Windows; otherwise the same
      entries with every found path printed as a string and `None` kept. */
  function DetectApplications(windows: bool, searchAllDrives: bool, m: Machine): (r: map<string, Option<string>>)
    ensures !windows ==> r == map[]
    ensures windows ==> r.Keys == {"istripper", "vlc"}
    ensures windows ==> forall app :: app in r ==>
              var found := DetectAllApplications(searchAllDrives, m)[app];
              (r[app].None? <==> found.None?) && (found.Some? ==> r[app] == Some(Str(found.value)))
  {
    if !windows then map[] else Printed(DetectAllApplications(searchAllDrives, m))
  }

  /** Every found path printed as a string, `None` kept. */
  function Printed(all: map<string, Option<Path>>): (r: map<string, Option<string>>)
    ensures r.Keys == all.Keys
    ensures forall app :: app in r ==>
              (r[app].None? <==> all[app].None?) && (all[app].Some? ==> r[app] == Some(Str(all[app].value)))
  {
    map app | app in all :: if all[app].Some? then Some(Str(all[app].value)) else None
  }

  /** `find_istripper_path`: the iStripper entry of a default detection. */
  function FindIStripperPath(windows: bool, m: Machine): (r: Option<string>)
    ensures !windows ==> r.None?
    ensures windows ==> (r.Some? <==> FindApplication("istripper", false, m).Some?)
    ensures r.Some? ==> r.value == Str(FindApplication("istripper", false, m).value)
  {
    var apps := DetectApplications(windows, false, m);
    if "istripper" in apps then
      assert DetectAllApplications(false, m)["istripper"] == FindApplication("istripper", false, m);
      apps["istripper"]
    else None
  }
}
