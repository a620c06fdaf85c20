/** The diagnostics report: the Python version check, the dependency check
    with its classification of `hid` import errors, the report dictionary
    and the exit code. Which modules import, and the outcomes of the checks
    that talk to the system, are inputs. */
module SystemChecker {
  import opened Wrappers
  import opened Text
  import Numerals

  /** `DiagnosticCheck`. */
  datatype Check = Check(name: string, passed: bool, message: string, fixHint: Option<string>)

  /** `DiagnosticCheck.__repr__`: a tick or a cross, the name and the
      message. */
  function Repr(c: Check): (r: string)
    ensures |r| > 0 && (r[0] == '✓' <==> c.passed) && (r[0] == '✗' <==> !c.passed)
    ensures EndsWith(r, ": " + c.message)
  {
    var status := if c.passed then "✓" else "✗";
    var r := status + " " + c.name + ": " + c.message;
    assert r[|r| - |": " + c.message|..] == ": " + c.message;
    r
  }

  // ---------------------------------------------------------------------
  // Python version
  // ---------------------------------------------------------------------

  datatype Version = Version(major: nat, minor: nat, micro: nat)

  /** `sys.version_info >= (3, 10)`: tuples compare lexicographically, and
      the longer tuple wins a tie on the common prefix. */
  predicate AtLeast(v: Version, major: nat, minor: nat) {
    v.major > major || (v.major == major && v.minor >= minor)
  }

  function VersionText(v: Version): string {
    Numerals.Decimal(v.major) + "." + Numerals.Decimal(v.minor) + "." + Numerals.Decimal(v.micro)
  }

  const PythonFixHint := "Install Python 3.10 or higher from python.org"

  /** `check_python_version`. */
  function CheckPythonVersion(v: Version): (r: Check)
    ensures r.name == "Python Version"
    ensures r.passed <==> AtLeast(v, 3, 10)
    ensures r.passed <==> r.fixHint.None?
    ensures !r.passed ==> r.fixHint == Some(PythonFixHint)
    ensures StartsWith(r.message, "Python " + VersionText(v))
  {
    var shown := "Python " + VersionText(v);
    if AtLeast(v, 3, 10) then Check("Python Version", true, shown + " (required: 3.10+)", None)
    else Check("Python Version", false, shown + " is too old", Some(PythonFixHint))
  }

  /** Version 3.10 passes and 3.9 fails, whatever the micro version; a
      larger major version passes with any minor. */
  lemma VersionBoundary(micro: nat, minor: nat)
    ensures CheckPythonVersion(Version(3, 10, micro)).passed
    ensures !CheckPythonVersion(Version(3, 9, micro)).passed
    ensures CheckPythonVersion(Version(4, minor, micro)).passed
  {
  }

  // ---------------------------------------------------------------------
  // Dependencies
  // ---------------------------------------------------------------------

  /** `(import name, pip name)` of the required packages, in order. */
  const RequiredPackages: seq<(string, string)> := [
    ("PySide6", "PySide6"),
    ("psutil", "psutil"),
    ("cv2", "opencv-python"),
    ("usb", "pyusb"),
    ("PIL", "pillow"),
    ("yaml", "pyyaml")
  ]

  /** How `import hid` went: it loaded, or raised `ImportError` with this
      text. */
  datatype HidImport = HidLoaded | HidFailed(error: string)

  /** Words that mark the native hidapi library as what is missing. */
  const NativeMarkers: seq<string> := ["hidapi", "dll", "library", ".so", "dylib"]

  const NativeLabel := "hid (native hidapi library missing – see fix hint below)"

  /** A missing package: the label shown to the user and the pip name. */
  datatype Missing = Missing(shown: string, pip: string)

  /** The entry `import hid` adds: a bare label, or the explanatory one when
      the error names the native library. */
  function HidMissing(h: HidImport): (r: Option<Missing>)
    ensures r.None? <==> h.HidLoaded?
    ensures r.Some? ==> r.value.pip == "hid"
    ensures r.Some? ==> (r.value.shown == NativeLabel <==> ContainsAny(h.error, NativeMarkers))
    ensures r.Some? ==> (r.value.shown == "hid" <==> !ContainsAny(h.error, NativeMarkers))
  {
    match h
    case HidLoaded => None
    case HidFailed(e) => Some(if ContainsAny(e, NativeMarkers) then Missing(NativeLabel, "hid") else Missing("hid", "hid"))
  }

  /** The packages whose import fails, in order, each labelled with its pip
      name. */
  function MissingPackages(packages: seq<(string, string)>, importable: string -> bool): (r: seq<Missing>)
    ensures |r| <= |packages|
    ensures forall m :: m in r <==> exists k :: 0 <= k < |packages| && !importable(packages[k].0)
                                                 && m == Missing(packages[k].1, packages[k].1)
  {
    if |packages| == 0 then []
    else
      var rest := MissingPackages(packages[1..], importable);
      assert forall k :: 0 < k < |packages| ==> packages[k] == packages[1..][k - 1];
      if importable(packages[0].0) then rest
      else [Missing(packages[0].1, packages[0].1)] + rest
  }

  /** The entry one package contributes: nothing, or itself labelled with
      its pip name. */
  function MissingEntry(p: (string, string), importable: string -> bool): (r: seq<Missing>)
    ensures r == [] <==> importable(p.0)
    ensures r != [] ==> r == [Missing(p.1, p.1)]
  {
    if importable(p.0) then [] else [Missing(p.1, p.1)]
  }

  /** The missing list is an order-preserving filter: the entries of a
      concatenation are those of the first part followed by those of the
      second, so each package's entry lands where the package stands. */
  lemma {:induction false} MissingPackagesAppend(a: seq<(string, string)>, b: seq<(string, string)>, importable: string -> bool)
    ensures MissingPackages(a + b, importable) == MissingPackages(a, importable) + MissingPackages(b, importable)
    decreases |a|
  {
    if |a| > 0 {
      assert (a + b)[1..] == a[1..] + b;
      MissingPackagesAppend(a[1..], b, importable);
    } else {
      assert a + b == b;
    }
  }

  /** Checking the packages one at a time from the end gives the same list:
      each package appends its own entry. */
  lemma MissingPackagesSnoc(packages: seq<(string, string)>, p: (string, string), importable: string -> bool)
    ensures MissingPackages(packages + [p], importable) == MissingPackages(packages, importable) + MissingEntry(p, importable)
  {
    MissingPackagesAppend(packages, [p], importable);
    assert [p][1..] == [];
  }

  /** Everything `check_dependencies` finds missing: the packages first, then
      `hid`. */
  function AllMissing(importable: string -> bool, h: HidImport): (r: seq<Missing>)
    ensures r == [] <==> (forall k :: 0 <= k < |RequiredPackages| ==> importable(RequiredPackages[k].0)) && h.HidLoaded?
  {
    var base := MissingPackages(RequiredPackages, importable);
    assert base == [] <==> forall k :: 0 <= k < |RequiredPackages| ==> importable(RequiredPackages[k].0) by {
      if base != [] { assert base[0] in base; }
    }
    match HidMissing(h)
    case None => base
    case Some(m) => base + [m]
  }

  function Labels(ms: seq<Missing>): (r: seq<string>)
    ensures |r| == |ms| && forall k :: 0 <= k < |ms| ==> r[k] == ms[k].shown
  {
    seq(|ms|, k requires 0 <= k < |ms| => ms[k].shown)
  }

  function PipNames(ms: seq<Missing>): (r: seq<string>)
    ensures |r| == |ms| && forall k :: 0 <= k < |ms| ==> r[k] == ms[k].pip
  {
    seq(|ms|, k requires 0 <= k < |ms| => ms[k].pip)
  }

  const AllInstalled := "All required packages are installed"

  /** `check_dependencies`: passes exactly when nothing is missing;
      otherwise the message lists the labels and the fix hint the pip
      names. */
  function CheckDependencies(importable: string -> bool, h: HidImport): (r: Check)
    ensures r.name == "Required Dependencies"
    ensures r.passed <==> AllMissing(importable, h) == []
    ensures r.passed ==> r.message == AllInstalled && r.fixHint.None?
    ensures !r.passed ==>
              var ms := AllMissing(importable, h);
              && r.message == "Missing packages: " + Join(Labels(ms), ", ")
              && r.fixHint == Some("Install with: pip install " + Join(PipNames(ms), " "))
  {
    var ms := AllMissing(importable, h);
    if ms == [] then Check("Required Dependencies", true, AllInstalled, None)
    else Check("Required Dependencies", false, "Missing packages: " + Join(Labels(ms), ", "),
               Some("Install with: pip install " + Join(PipNames(ms), " ")))
  }

  /** No character `c` occurs in any of the parts or the separator, so none
      occurs in their join. */
  lemma {:induction false} JoinAvoids(parts: seq<string>, sep: string, c: char)
    requires c !in sep && forall k :: 0 <= k < |parts| ==> c !in parts[k]
    ensures c !in Join(parts, sep)
    decreases |parts|
  {
    if |parts| > 1 {
      JoinAvoids(parts[1..], sep, c);
    }
  }

  /** A string that contains `sub` contains each of its characters. */
  lemma OccursKeepsChars(sub: string, s: string, k: int)
    requires Occurs(sub, s) && 0 <= k < |sub|
    ensures sub[k] in s
  {
    var i :| OccursAt(sub, s, i);
    assert s[i..i + |sub|][k] == s[i + k];
  }

  /** The fix hint never repeats the explanatory label: it is built from pip
      names only, and none of them (nor the rest of the hint) contains the
      letter `r` of "library". */
  lemma FixHintHasNoLabel(importable: string -> bool, h: HidImport)
    requires !CheckDependencies(importable, h).passed
    ensures !Contains(CheckDependencies(importable, h).fixHint.value, "native hidapi library missing")
  {
    var ms := AllMissing(importable, h);
    var pips := PipNames(ms);
    forall k | 0 <= k < |pips| ensures 'r' !in pips[k] {
      MissingPip(importable, h, k);
      if ms[k].pip != "hid" {
        var j :| 0 <= j < |RequiredPackages| && ms[k].pip == RequiredPackages[j].1;
        PipAvoidsR(j);
      }
    }
    HintAvoids(pips, "Install with: pip install ");
    var text := "native hidapi library missing";
    assert text[17] == 'r';
    MissingCharNoMatch(text, "Install with: pip install " + Join(pips, " "), 17);
  }

  lemma HintAvoids(pips: seq<string>, prefix: string)
    requires prefix == "Install with: pip install "
    requires forall k :: 0 <= k < |pips| ==> 'r' !in pips[k]
    ensures 'r' !in prefix + Join(pips, " ")
  {
    JoinAvoids(pips, " ", 'r');
    NotInConcat(prefix, Join(pips, " "), 'r');
  }

  lemma NotInConcat(a: string, b: string, c: char)
    requires c !in a && c !in b
    ensures c !in a + b
  {
  }

  /** A string lacking one of `sub`'s characters does not contain `sub`. */
  lemma MissingCharNoMatch(sub: string, s: string, k: int)
    requires 0 <= k < |sub| && sub[k] !in s
    ensures !Contains(s, sub)
  {
    if Contains(s, sub) {
      OccursKeepsChars(sub, s, k);
    }
  }

  /** Each missing entry's pip name is `hid` or a required package's. */
  lemma MissingPip(importable: string -> bool, h: HidImport, k: int)
    requires 0 <= k < |AllMissing(importable, h)|
    ensures var m := AllMissing(importable, h)[k];
            m.pip == "hid" || exists j :: 0 <= j < |RequiredPackages| && m.pip == RequiredPackages[j].1
  {
    var ms := AllMissing(importable, h);
    var base := MissingPackages(RequiredPackages, importable);
    if k < |base| {
      assert ms[k] == base[k] && base[k] in base;
    }
  }

  lemma PipAvoidsR(j: int)
    requires 0 <= j < |RequiredPackages|
    ensures 'r' !in RequiredPackages[j].1
  {
  }

  /** A native-library error is reported with the explanatory label. */
  lemma NativeErrorExplained(importable: string -> bool, e: string)
    requires ContainsAny(e, NativeMarkers)
    ensures var r := CheckDependencies(importable, HidFailed(e));
            !r.passed && EndsWith(r.message, NativeLabel)
  {
    var ms := AllMissing(importable, HidFailed(e));
    var labels := Labels(ms);
    assert labels[|labels| - 1] == NativeLabel;
    JoinLast(labels, ", ");
  }

  /** The join ends with the last part. */
  lemma {:induction false} JoinLast(parts: seq<string>, sep: string)
    requires |parts| >= 1
    ensures EndsWith(Join(parts, sep), parts[|parts| - 1])
    decreases |parts|
  {
    if |parts| > 1 {
      JoinLast(parts[1..], sep);
      var j := Join(parts[1..], sep);
      var whole := parts[0] + sep + j;
      assert whole[|whole| - |j|..] == j;
    }
  }

  /** With every package importable and `hid` loading, the check passes
      with the all-installed message. */
  lemma AllPresentPasses(importable: string -> bool)
    requires forall name :: importable(name)
    ensures CheckDependencies(importable, HidLoaded) == Check("Required Dependencies", true, AllInstalled, None)
  {
  }

  // ---------------------------------------------------------------------
  // The whole run, the report and the exit code
  // ---------------------------------------------------------------------

  /** The platform branch of `run_all_checks`. */
  datatype Platform = WindowsPlatform | LinuxPlatform | OtherPlatform

  /** The results of the checks that consult the system, each as the list
      of checks it appends. */
  datatype Outcomes = Outcomes(
    windowsSpecific: seq<Check>,
    videoCodecs: seq<Check>,
    linuxSpecific: seq<Check>,
    usbDevice: seq<Check>,
    gpuSupport: seq<Check>,
    windowCapture: seq<Check>,
    istripper: seq<Check>)

  /** `run_all_checks`: the list is emptied first, then every check appends
      in a fixed order. */
  function RunAllChecks(previous: seq<Check>, p: Platform, v: Version, importable: string -> bool, h: HidImport, o: Outcomes): (r: seq<Check>)
    ensures |r| >= 2 && r[0] == CheckPythonVersion(v) && r[1] == CheckDependencies(importable, h)
    ensures r[2..] == PlatformChecks(p, o) + o.usbDevice + o.gpuSupport + o.windowCapture + o.istripper
  {
    var rest := PlatformChecks(p, o) + o.usbDevice + o.gpuSupport + o.windowCapture + o.istripper;
    var r := [CheckPythonVersion(v), CheckDependencies(importable, h)] + rest;
    assert r[2..] == rest;
    r
  }

  /** The checks only one platform runs: the Windows service and codec
      checks, or the Linux ones. */
  function PlatformChecks(p: Platform, o: Outcomes): (r: seq<Check>)
    ensures p == OtherPlatform ==> r == []
  {
    match p
    case WindowsPlatform => o.windowsSpecific + o.videoCodecs
    case LinuxPlatform => o.linuxSpecific
    case OtherPlatform => []
  }

  /** Running again never carries over earlier results. */
  lemma RunAllChecksForgets(prev1: seq<Check>, prev2: seq<Check>, p: Platform, v: Version, importable: string -> bool, h: HidImport, o: Outcomes)
    ensures RunAllChecks(prev1, p, v, importable, h, o) == RunAllChecks(prev2, p, v, importable, h, o)
  {
  }

  function CountPassed(checks: seq<Check>): (n: nat)
    ensures n <= |checks|
  {
    if |checks| == 0 then 0
    else (if checks[0].passed then 1 else 0) + CountPassed(checks[1..])
  }

  function CountFailed(checks: seq<Check>): (n: nat)
    ensures n <= |checks|
  {
    if |checks| == 0 then 0
    else (if checks[0].passed then 0 else 1) + CountFailed(checks[1..])
  }

  /** Every check is counted once, as passed or as failed. */
  lemma {:induction false} CountsAddUp(checks: seq<Check>)
    ensures CountPassed(checks) + CountFailed(checks) == |checks|
  {
    if |checks| > 0 {
      CountsAddUp(checks[1..]);
    }
  }

  /** No failure is counted exactly when every check passed. */
  lemma {:induction false} NoFailures(checks: seq<Check>)
    ensures CountFailed(checks) == 0 <==> forall k :: 0 <= k < |checks| ==> checks[k].passed
  {
    if |checks| > 0 {
      NoFailures(checks[1..]);
      assert forall k :: 0 < k < |checks| ==> checks[k] == checks[1..][k - 1];
    }
  }

  datatype Summary = Summary(total: nat, passed: nat, failed: nat)
  datatype Report = Report(checks: seq<Check>, summary: Summary)

  /** `generate_report_dict`: the checks in order and the counts. */
  function GenerateReport(checks: seq<Check>): (r: Report)
    ensures r.checks == checks
    ensures r.summary.total == |checks|
    ensures r.summary.passed + r.summary.failed == r.summary.total
    ensures r.summary.failed == 0 <==> forall k :: 0 <= k < |checks| ==> checks[k].passed
  {
    CountsAddUp(checks);
    NoFailures(checks);
    Report(checks, Summary(|checks|, CountPassed(checks), CountFailed(checks)))
  }

  /** `main`'s exit status. */
  function ExitCode(checks: seq<Check>): (code: int)
    ensures code == 0 <==> forall k :: 0 <= k < |checks| ==> checks[k].passed
    ensures code == 0 || code == 1
  {
    NoFailures(checks);
    if CountFailed(checks) == 0 then 0 else 1
  }

  predicate AllPassed(checks: seq<Check>) {
    forall k :: 0 <= k < |checks| ==> checks[k].passed
  }

  lemma AllPassedAppend(a: seq<Check>, b: seq<Check>)
    ensures AllPassed(a + b) <==> AllPassed(a) && AllPassed(b)
  {
    if AllPassed(a) && AllPassed(b) {
      forall k | 0 <= k < |a + b| ensures (a + b)[k].passed {
        if k >= |a| { assert (a + b)[k] == b[k - |a|]; }
      }
    }
    if AllPassed(a + b) {
      forall k | 0 <= k < |a| ensures a[k].passed { assert (a + b)[k] == a[k]; }
      forall k | 0 <= k < |b| ensures b[k].passed { assert (a + b)[|a| + k] == b[k]; }
    }
  }

  /** The run exits with status 0 exactly when Python is recent enough,
      nothing is missing, and every check the platform and the system
      outcomes contribute passed. */
  lemma RunExitsCleanly(prev: seq<Check>, p: Platform, v: Version, importable: string -> bool, h: HidImport, o: Outcomes)
    ensures ExitCode(RunAllChecks(prev, p, v, importable, h, o)) == 0 <==>
              && AtLeast(v, 3, 10) && AllMissing(importable, h) == []
              && AllPassed(PlatformChecks(p, o)) && AllPassed(o.usbDevice) && AllPassed(o.gpuSupport)
              && AllPassed(o.windowCapture) && AllPassed(o.istripper)
  {
    var r := RunAllChecks(prev, p, v, importable, h, o);
    var head := [CheckPythonVersion(v), CheckDependencies(importable, h)];
    assert r == head + r[2..];
    AllPassedAppend(head, r[2..]);
    AllPassedAppend(PlatformChecks(p, o) + o.usbDevice + o.gpuSupport + o.windowCapture, o.istripper);
    AllPassedAppend(PlatformChecks(p, o) + o.usbDevice + o.gpuSupport, o.windowCapture);
    AllPassedAppend(PlatformChecks(p, o) + o.usbDevice, o.gpuSupport);
    AllPassedAppend(PlatformChecks(p, o), o.usbDevice);
    assert AllPassed(head) <==> head[0].passed && head[1].passed;
  }

  /** An old Python alone makes the run exit with status 1. */
  lemma OldPythonFails(prev: seq<Check>, p: Platform, v: Version, importable: string -> bool, h: HidImport, o: Outcomes)
    requires !AtLeast(v, 3, 10)
    ensures ExitCode(RunAllChecks(prev, p, v, importable, h, o)) == 1
  {
    var r := RunAllChecks(prev, p, v, importable, h, o);
    assert !r[0].passed;
  }
}
