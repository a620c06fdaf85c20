/** The record of applications the Windows installer found: where its JSON
    file lives, how it is read and re-validated, and the getters. Whether a
    path exists on disk is the input predicate `onDisk`. */
module DetectedAppsConfig {
  import opened Wrappers
  import opened Paths

  const ConfigFileName := "detected_apps.json"

  /** `_get_config_file_path`: under `LOCALAPPDATA` on Windows when that
      variable is set and non-empty, otherwise in the data directory. */
  function ConfigFilePath(windows: bool, localAppData: Option<string>, dataDir: string): (r: string)
    ensures windows && localAppData.Some? && localAppData.value != "" ==>
              r == JoinPath(JoinPath(localAppData.value, "thermalright-lcd-control", windows), ConfigFileName, windows)
    ensures !(windows && localAppData.Some? && localAppData.value != "") ==>
              r == JoinPath(dataDir, ConfigFileName, windows)
    ensures Basename(r, windows) == ConfigFileName
  {
    assert NoSep(ConfigFileName, windows) by {
      forall k | 0 <= k < |ConfigFileName| ensures !IsSep(ConfigFileName[k], windows) { }
    }
    if windows && localAppData.GetOr("") != "" then
      BasenameOfJoinPath(JoinPath(localAppData.value, "thermalright-lcd-control", windows), ConfigFileName, windows);
      JoinPath(JoinPath(localAppData.value, "thermalright-lcd-control", windows), ConfigFileName, windows)
    else
      BasenameOfJoinPath(dataDir, ConfigFileName, windows);
      JoinPath(dataDir, ConfigFileName, windows)
  }

  /** What reading the file yields: no file, a file that is not valid JSON or
      cannot be read, or the three recorded values (`null` or missing keys
      are `None`). */
  datatype ConfigFile =
    | Missing
    | Unreadable
    | Parsed(istripper: Option<string>, vlc: Option<string>, detectionDate: Option<string>)

  datatype DetectedApps = DetectedApps(istripper: Option<string>, vlc: Option<string>, detectionDate: Option<string>)

  const NoneDetected := DetectedApps(None, None, None)

  /** The validation step of `_load_config`: a recorded, non-empty path that
      is no longer on disk is forgotten. */
  function Revalidate(p: Option<string>, onDisk: string -> bool): (r: Option<string>)
    ensures r.Some? ==> r == p
    ensures r.None? <==> p.None? || (p.value != "" && !onDisk(p.value))
  {
    match p
    case None => None
    case Some(s) => if s != "" && !onDisk(s) then None else p
  }

  /** `DetectedAppsConfig()`: the defaults, overridden by a readable file. */
  function Load(file: ConfigFile, onDisk: string -> bool): (r: DetectedApps)
    ensures !file.Parsed? ==> r == NoneDetected
    ensures file.Parsed? ==>
              && r.istripper == Revalidate(file.istripper, onDisk)
              && r.vlc == Revalidate(file.vlc, onDisk)
              && r.detectionDate == file.detectionDate
  {
    match file
    case Missing => NoneDetected
    case Unreadable => NoneDetected
    case Parsed(i, v, d) => DetectedApps(Revalidate(i, onDisk), Revalidate(v, onDisk), d)
  }

  /** A loaded non-empty path always existed at load time. */
  lemma LoadedPathsExisted(file: ConfigFile, onDisk: string -> bool)
    ensures var r := Load(file, onDisk);
            && (r.istripper.Some? && r.istripper.value != "" ==> onDisk(r.istripper.value))
            && (r.vlc.Some? && r.vlc.value != "" ==> onDisk(r.vlc.value))
  {
  }

  /** `has_istripper` / `has_vlc`: recorded and still present now. */
  predicate Has(p: Option<string>, onDisk: string -> bool) {
    p.Some? && onDisk(p.value)
  }

  /** `get_istripper_path` / `get_vlc_path`: the path iff it is still there. */
  function GetPath(p: Option<string>, onDisk: string -> bool): (r: Option<string>)
    ensures r.Some? <==> Has(p, onDisk)
    ensures r.Some? ==> r == p
  {
    if Has(p, onDisk) then p else None
  }

  /** `get_all_detected_apps`: exactly the two known applications. */
  function AllDetectedApps(d: DetectedApps, onDisk: string -> bool): (r: map<string, Option<string>>)
    ensures r.Keys == {"istripper", "vlc"}
    ensures r["istripper"] == GetPath(d.istripper, onDisk) && r["vlc"] == GetPath(d.vlc, onDisk)
  {
    map["istripper" := GetPath(d.istripper, onDisk), "vlc" := GetPath(d.vlc, onDisk)]
  }

  /** `get_detected_apps_config`: the stored instance if there is one,
      otherwise a freshly loaded one, which is then stored. */
  function GetInstance(slot: Option<DetectedApps>, file: ConfigFile, onDisk: string -> bool): (r: (DetectedApps, Option<DetectedApps>))
    ensures r.1 == Some(r.0)
    ensures slot.Some? ==> r.0 == slot.value
    ensures slot.None? ==> r.0 == Load(file, onDisk)
  {
    match slot
    case Some(d) => (d, slot)
    case None =>
      var d := Load(file, onDisk);
      (d, Some(d))
  }

  /** Every later call returns the first instance, even if the file has
      changed in between. */
  lemma SameInstance(slot: Option<DetectedApps>, f1: ConfigFile, e1: string -> bool, f2: ConfigFile, e2: string -> bool)
    ensures var first := GetInstance(slot, f1, e1);
            GetInstance(first.1, f2, e2).0 == first.0
  {
  }
}
