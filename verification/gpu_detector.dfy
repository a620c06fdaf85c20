/** GPU detection: the list of detected GPUs, how `nvidia-smi` output
    becomes entries of that list, and which entry is the primary GPU. The
    subprocess, sysfs and WMI probes are inputs. */
module GpuDetector {
  import opened Wrappers
  import opened Text

  /** `GPUInfo(vendor, name, index)`; `vendor` is `nvidia`, `amd` or `intel`. */
  datatype GpuInfo = GpuInfo(vendor: string, name: string, index: int)

  // ---------------------------------------------------------------------
  // Primary selection
  // ---------------------------------------------------------------------

  /** The vendor preference of `get_primary_gpu`: NVIDIA, then AMD, then
      Intel, then anything else. */
  function Rank(vendor: string): nat {
    if vendor == "nvidia" then 0
    else if vendor == "amd" then 1
    else if vendor == "intel" then 2
    else 3
  }

  /** Position `k` holds the best-ranked vendor, and is the first position
      holding that rank. */
  predicate BestRanked(gpus: seq<GpuInfo>, k: int) {
    && 0 <= k < |gpus|
    && forall j :: 0 <= j < |gpus| ==>
         Rank(gpus[k].vendor) < Rank(gpus[j].vendor)
         || (Rank(gpus[k].vendor) == Rank(gpus[j].vendor) && k <= j)
  }

  /** The first position whose vendor is `vendor`, or -1: one of the loops
      of `get_primary_gpu`. */
  function FirstOfVendor(gpus: seq<GpuInfo>, vendor: string): (k: int)
    ensures -1 <= k < |gpus|
    ensures k >= 0 ==> gpus[k].vendor == vendor
    ensures forall j :: 0 <= j < |gpus| && (k < 0 || j < k) ==> gpus[j].vendor != vendor
  {
    if |gpus| == 0 then -1
    else if gpus[0].vendor == vendor then 0
    else
      var k := FirstOfVendor(gpus[1..], vendor);
      assert forall j :: 0 < j < |gpus| ==> gpus[j] == gpus[1..][j - 1];
      if k < 0 then -1 else k + 1
  }

  /** `get_primary_gpu`: `None` for no GPU; otherwise the first NVIDIA entry,
      else the first AMD entry, else the first Intel entry, else the first
      entry. */
  function PrimaryGpu(gpus: seq<GpuInfo>): (r: Option<GpuInfo>)
    ensures r.None? <==> |gpus| == 0
    ensures r.Some? ==> exists k :: BestRanked(gpus, k) && r.value == gpus[k]
  {
    if |gpus| == 0 then None
    else
      var n := FirstOfVendor(gpus, "nvidia");
      var a := FirstOfVendor(gpus, "amd");
      var i := FirstOfVendor(gpus, "intel");
      var k := if n >= 0 then n else if a >= 0 then a else if i >= 0 then i else 0;
      assert BestRanked(gpus, k);
      Some(gpus[k])
  }

  /** At most one position is best-ranked, so the primary GPU is determined
      by the preference order alone. */
  lemma BestRankedUnique(gpus: seq<GpuInfo>, k1: int, k2: int)
    requires BestRanked(gpus, k1) && BestRanked(gpus, k2)
    ensures k1 == k2
  {
    assert Rank(gpus[k1].vendor) <= Rank(gpus[k2].vendor);
    assert Rank(gpus[k2].vendor) <= Rank(gpus[k1].vendor);
  }

  /** With any NVIDIA GPU present, the primary GPU is the first of them,
      whatever else was detected. */
  lemma NvidiaFirst(gpus: seq<GpuInfo>, k: int)
    requires 0 <= k < |gpus| && gpus[k].vendor == "nvidia"
    requires forall j :: 0 <= j < k ==> gpus[j].vendor != "nvidia"
    ensures PrimaryGpu(gpus) == Some(gpus[k])
  {
    var p := PrimaryGpu(gpus);
    var b :| BestRanked(gpus, b) && p.value == gpus[b];
    assert BestRanked(gpus, k);
    BestRankedUnique(gpus, b, k);
  }

  // ---------------------------------------------------------------------
  // Detection
  // ---------------------------------------------------------------------

  /** What one run of `nvidia-smi --query-gpu=name` produced. */
  datatype ProcessResult = ProcessResult(returnCode: int, stdout: string)

  /** `_detect_nvidia`: on success, one entry per line of the stripped
      output, with the stripped line as its name and its line number as its
      index. */
  function ParseNvidia(p: ProcessResult): (r: seq<GpuInfo>)
    ensures p.returnCode != 0 || Strip(p.stdout) == "" ==> r == []
    ensures p.returnCode == 0 && Strip(p.stdout) != "" ==>
              var lines := Split(Strip(p.stdout), '\n');
              && |r| == |lines| > 0
              && forall i :: 0 <= i < |r| ==> r[i] == GpuInfo("nvidia", Strip(lines[i]), i)
  {
    if p.returnCode == 0 && Strip(p.stdout) != "" then
      var lines := Split(Strip(p.stdout), '\n');
      seq(|lines|, i requires 0 <= i < |lines| => GpuInfo("nvidia", Strip(lines[i]), i))
    else []
  }

  /** A name as `nvidia-smi` prints it: one non-empty line without
      surrounding whitespace. */
  predicate CleanName(n: string) {
    n != "" && '\n' !in n && !IsSpace(n[0]) && !IsSpace(n[|n| - 1])
  }

  /** Printing clean names one per line, with any surrounding whitespace,
      and parsing the output gives back exactly those names, numbered from 0. */
  lemma ParseNvidiaRoundTrip(names: seq<string>, before: string, after: string)
    requires |names| > 0
    requires forall k :: 0 <= k < |names| ==> CleanName(names[k])
    requires forall k :: 0 <= k < |before| ==> IsSpace(before[k])
    requires forall k :: 0 <= k < |after| ==> IsSpace(after[k])
    ensures var r := ParseNvidia(ProcessResult(0, before + Join(names, "\n") + after));
            |r| == |names| && forall i :: 0 <= i < |r| ==> r[i] == GpuInfo("nvidia", names[i], i)
  {
    var body := Join(names, "\n");
    JoinEnds(names, "\n");
    StripAround(before, body, after);
    JoinSplit(names, '\n');
    forall i | 0 <= i < |names| ensures Strip(names[i]) == names[i] {
      StripUnchanged(names[i]);
    }
  }

  /** Whitespace around a text that neither starts nor ends with whitespace
      is exactly what stripping removes. */
  lemma StripAround(before: string, body: string, after: string)
    requires |body| > 0 && !IsSpace(body[0]) && !IsSpace(body[|body| - 1])
    requires forall k :: 0 <= k < |before| ==> IsSpace(before[k])
    requires forall k :: 0 <= k < |after| ==> IsSpace(after[k])
    ensures Strip(before + body + after) == body
  {
    var s := before + body + after;
    var r := Strip(s);
    var i :| TrimmedAt(s, r, i);
    var first, last := |before|, |before| + |body| - 1;
    assert s[first] == body[0] && s[last] == body[|body| - 1];
    // Neither end of the body can have been cut off, so the cut is exact.
    assert i <= first && first < i + |r|;
    assert i <= last && last < i + |r|;
    assert r == s[first..last + 1];
  }

  /** Every entry `_detect_all_gpus` collects, in probe order: NVIDIA, then
      AMD, then Intel. The AMD and Intel probes read sysfs or WMI and are
      inputs. */
  function DetectAll(nvidia: ProcessResult, amd: seq<GpuInfo>, intel: seq<GpuInfo>): (r: seq<GpuInfo>)
    ensures |r| == |ParseNvidia(nvidia)| + |amd| + |intel|
    ensures r[..|ParseNvidia(nvidia)|] == ParseNvidia(nvidia)
    ensures r[|ParseNvidia(nvidia)|..|r| - |intel|] == amd
    ensures r[|r| - |intel|..] == intel
  {
    var n := ParseNvidia(nvidia);
    var r := n + amd + intel;
    assert r[|n|..|r| - |intel|] == amd;
    r
  }

  /** The vendor file of a DRM card, as `_detect_intel_linux` reads it:
      unreadable, or its text. */
  predicate IsIntelVendor(file: Option<string>) {
    file.Some? && Strip(file.value) == "0x8086"
  }

  /** How many of the vendor files name Intel. */
  function IntelCount(files: seq<Option<string>>): (n: nat)
    ensures n <= |files|
  {
    if |files| == 0 then 0
    else (if IsIntelVendor(files[0]) then 1 else 0) + IntelCount(files[1..])
  }

  /** No card names Intel exactly when the count is zero. */
  lemma {:induction false} IntelCountZero(files: seq<Option<string>>)
    ensures IntelCount(files) == 0 <==> forall k :: 0 <= k < |files| ==> !IsIntelVendor(files[k])
  {
    if |files| > 0 {
      IntelCountZero(files[1..]);
      assert forall k :: 0 < k < |files| ==> files[k] == files[1..][k - 1];
    }
  }

  /** `_detect_intel_linux`: one generic entry per DRM card whose vendor file
      reads `0x8086` once stripped, numbered on from `start`, the length of
      the list at the time. An unreadable file is skipped. */
  function IntelFromSysfs(files: seq<Option<string>>, start: nat): (r: seq<GpuInfo>)
    ensures |r| == IntelCount(files)
    ensures forall i :: 0 <= i < |r| ==> r[i] == GpuInfo("intel", "Intel GPU", start + i)
  {
    if |files| == 0 then []
    else if IsIntelVendor(files[0]) then
      [GpuInfo("intel", "Intel GPU", start)] + IntelFromSysfs(files[1..], start + 1)
    else IntelFromSysfs(files[1..], start)
  }

  /** On Linux the Intel entries come from sysfs, numbered by the length of
      the list when each is added. */
  function DetectAllLinux(nvidia: ProcessResult, amd: seq<GpuInfo>, files: seq<Option<string>>): (r: seq<GpuInfo>)
    ensures r == DetectAll(nvidia, amd, IntelFromSysfs(files, |ParseNvidia(nvidia)| + |amd|))
  {
    DetectAll(nvidia, amd, IntelFromSysfs(files, |ParseNvidia(nvidia)| + |amd|))
  }

  /** Every NVIDIA and Intel entry of the Linux list carries its own
      position as its index; there is an Intel entry exactly when some
      vendor file names Intel. */
  lemma LinuxIndicesArePositions(nvidia: ProcessResult, amd: seq<GpuInfo>, files: seq<Option<string>>)
    ensures var r := DetectAllLinux(nvidia, amd, files);
            var n := |ParseNvidia(nvidia)|;
            && (forall i :: 0 <= i < n ==> r[i].vendor == "nvidia" && r[i].index == i)
            && (forall i :: n + |amd| <= i < |r| ==> r[i].vendor == "intel" && r[i].index == i)
            && (|r| > n + |amd| <==> exists k :: 0 <= k < |files| && IsIntelVendor(files[k]))
  {
    var r := DetectAllLinux(nvidia, amd, files);
    var n := ParseNvidia(nvidia);
    var intel := IntelFromSysfs(files, |n| + |amd|);
    IntelCountZero(files);
    forall i | 0 <= i < |n| ensures r[i].vendor == "nvidia" && r[i].index == i {
      assert r[..|n|][i] == r[i];
    }
    forall i | |n| + |amd| <= i < |r| ensures r[i].vendor == "intel" && r[i].index == i {
      assert r[|r| - |intel|..][i - |n| - |amd|] == r[i];
    }
  }

  /** `get_gpu_metrics_handler`: whether a handler is returned. It is,
      unless no GPU is given and none was detected. */
  function HasMetricsHandler(gpus: seq<GpuInfo>, requested: Option<GpuInfo>): (r: bool)
    ensures r <==> requested.Some? || PrimaryGpu(gpus).Some?
    ensures !r <==> requested.None? && |gpus| == 0
  {
    match requested
    case Some(_) => true
    case None => PrimaryGpu(gpus).Some?
  }
}
