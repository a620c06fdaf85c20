/** The Zadig driver helper: the supported devices, the installation
    instructions for a device, the download progress the report hook
    passes on, and the classification of a device's driver status. USB
    access and the download are inputs. */
module ZadigManager {
  import opened Wrappers
  import opened Text
  import opened Numerals

  datatype Device = Device(vid: int, pid: int, name: string)

  /** `SUPPORTED_DEVICES`. */
  const SupportedDevices: seq<Device> := [
    Device(0x0416, 0x5302, "Thermalright LCD 320x240"),
    Device(0x0418, 0x5304, "Thermalright LCD 480x480"),
    Device(0x87AD, 0x70DB, "ChiZhu Tech USBDISPLAY")
  ]

  /** No two supported devices share a vendor and product id, so a lookup
      never depends on the list's order. */
  lemma SupportedDevicesDistinct()
    ensures |SupportedDevices| == 3
    ensures forall i, j :: 0 <= i < j < |SupportedDevices| ==>
              (SupportedDevices[i].vid, SupportedDevices[i].pid) != (SupportedDevices[j].vid, SupportedDevices[j].pid)
  {
  }

  /** The loop of `get_installation_instructions`: the first device with
      both ids equal. */
  function FindDevice(devices: seq<Device>, vid: int, pid: int): (r: Option<Device>)
    ensures r.None? <==> forall i :: 0 <= i < |devices| ==> !(devices[i].vid == vid && devices[i].pid == pid)
    ensures r.Some? ==> exists i :: 0 <= i < |devices| && devices[i] == r.value && r.value.vid == vid && r.value.pid == pid
  {
    if |devices| == 0 then None
    else if devices[0].vid == vid && devices[0].pid == pid then Some(devices[0])
    else
      var r := FindDevice(devices[1..], vid, pid);
      assert forall i :: 0 < i < |devices| ==> devices[i] == devices[1..][i - 1];
      r
  }

  /** `USB ID` text: the two ids as `f"{vid:04x}:{pid:04x}"`. */
  function UsbId(vid: int, pid: int): string {
    Hex4(vid) + ":" + Hex4(pid)
  }

  /** The device name: the supported device's own name, or a generic name
      built from the ids. */
  function DeviceName(vid: int, pid: int): (r: string)
    ensures FindDevice(SupportedDevices, vid, pid).Some? ==> r == FindDevice(SupportedDevices, vid, pid).value.name
    ensures FindDevice(SupportedDevices, vid, pid).None? ==> r == "Device " + UsbId(vid, pid)
  {
    match FindDevice(SupportedDevices, vid, pid)
    case Some(d) => d.name
    case None => "Device " + UsbId(vid, pid)
  }

  /** Each supported device is named by its own name. */
  lemma SupportedDeviceNamed(i: int)
    requires 0 <= i < |SupportedDevices|
    ensures DeviceName(SupportedDevices[i].vid, SupportedDevices[i].pid) == SupportedDevices[i].name
  {
    SupportedDevicesDistinct();
  }

  /** One step of the instructions; the optional keys are present only on
      some steps. */
  datatype Step = Step(
    number: int,
    title: string,
    description: string,
    note: Option<string>,
    warning: Option<string>,
    action: Option<string>,
    imageHint: string)

  datatype Instructions = Instructions(
    device: string,
    vid: string,
    pid: string,
    driver: string,
    steps: seq<Step>,
    notes: seq<string>,
    troubleshooting: map<string, string>)

  const LaunchStep := Step(1, "Launch Zadig", "Open Zadig.exe (will be launched automatically)", None, None, None, "zadig_main_window.png")
  const ListAllStep := Step(2, "Enable \"List All Devices\"", "Click Options → List All Devices", None, None, None, "zadig_options_menu.png")
  const DriverStep := Step(4, "Select WinUSB Driver", "In the driver selection (middle), choose \"WinUSB\"",
                           Some("If another driver is already installed, you can replace it"), None, None, "zadig_driver_selection.png")
  const InstallStep := Step(5, "Install Driver", "Click \"Install Driver\" or \"Replace Driver\" button",
                            None, Some("This may take a minute. Do not disconnect the device."), None, "zadig_install_button.png")
  const VerifyStep := Step(6, "Verify Installation", "Wait for \"Driver installed successfully\" message",
                           None, None, Some("After installation, restart Thermalright LCD Control"), "zadig_success.png")

  const LookFor := "In the dropdown, find and select your device:\nLook for \""

  /** The third step names the device and its USB id. */
  function SelectStep(deviceName: string, usbId: string): (r: Step)
    ensures r.number == 3
    ensures Contains(r.description, deviceName) && Contains(r.description, "USB ID " + usbId)
  {
    var d := LookFor + deviceName + "\" or \"" + ("USB ID " + usbId) + "\"";
    Pieces(LookFor, deviceName, "\" or \"", "USB ID " + usbId, "\"");
    Step(3, "Select Your Device", d, None, None, None, "zadig_device_selection.png")
  }

  /** A string contains each of the pieces it is made of. */
  lemma Pieces(a: string, b: string, c: string, d: string, e: string)
    ensures Contains(a + b + c + d + e, b) && Contains(a + b + c + d + e, d)
  {
    var s := a + b + c + d + e;
    assert s[|a|..|a| + |b|] == b;
    assert OccursAt(b, s, |a|);
    assert s[|a + b + c|..|a + b + c| + |d|] == d;
    assert OccursAt(d, s, |a + b + c|);
  }

  function Steps(deviceName: string, usbId: string): (r: seq<Step>)
    ensures |r| == 6
    ensures forall i :: 0 <= i < 6 ==> r[i].number == i + 1
    ensures r[2] == SelectStep(deviceName, usbId)
  {
    [LaunchStep, ListAllStep, SelectStep(deviceName, usbId), DriverStep, InstallStep, VerifyStep]
  }

  const Notes: seq<string> := [
    "Administrator privileges required",
    "Keep the device connected during installation",
    "If installation fails, try a different USB port",
    "Some antivirus software may interfere - temporarily disable if needed"
  ]

  const Troubleshooting: map<string, string> := map[
    "device_not_listed" := "Try enabling \"List All Devices\" in Options menu",
    "installation_failed" := "Run Zadig as Administrator and try again",
    "driver_conflict" := "Use \"Replace Driver\" option to replace existing driver",
    "access_denied" := "Close any applications that might be using the device"
  ]

  /** `get_installation_instructions`. */
  function InstallationInstructions(vid: int, pid: int): (r: Instructions)
    ensures r.device == DeviceName(vid, pid)
    ensures r.vid == Hex4(vid) && r.pid == Hex4(pid)
    ensures r.driver == "WinUSB"
    ensures |r.steps| == 6 && forall i :: 0 <= i < 6 ==> r.steps[i].number == i + 1
    ensures Contains(r.steps[2].description, r.device)
    ensures Contains(r.steps[2].description, "USB ID " + UsbId(vid, pid))
    ensures r.troubleshooting.Keys == {"device_not_listed", "installation_failed", "driver_conflict", "access_denied"}
  {
    var name := DeviceName(vid, pid);
    Instructions(name, Hex4(vid), Hex4(pid), "WinUSB", Steps(name, UsbId(vid, pid)), Notes, Troubleshooting)
  }

  /** For ids that fit in 16 bits, the printed ids are four hex digits that
      read back as the ids. */
  lemma InstructionIds(vid: int, pid: int)
    requires 0 <= vid < 0x10000 && 0 <= pid < 0x10000
    ensures var r := InstallationInstructions(vid, pid);
            && |r.vid| == 4 && |r.pid| == 4
            && FromBase(r.vid, 16) == vid && FromBase(r.pid, 16) == pid
            && forall k :: 0 <= k < 4 ==> IsDigit(r.vid[k], 16) && IsDigit(r.pid[k], 16)
  {
  }

  // ---------------------------------------------------------------------
  // Download progress
  // ---------------------------------------------------------------------

  /** The percentage the report hook passes to the callback, or `None` when
      it passes nothing: without a callback or without a known size. */
  function Progress(hasCallback: bool, blockNum: int, blockSize: int, totalSize: int): (r: Option<int>)
    ensures r.Some? <==> hasCallback && totalSize > 0
    ensures r.Some? ==> r.value <= 100
    ensures r.Some? && blockNum >= 0 && blockSize >= 0 ==> 0 <= r.value
    ensures r.Some? && blockNum * blockSize >= totalSize ==> r.value == 100
    ensures r.Some? && blockNum * blockSize < totalSize ==>
              r.value * totalSize <= blockNum * blockSize * 100 < (r.value + 1) * totalSize
  {
    if hasCallback && totalSize > 0 then
      var downloaded := blockNum * blockSize;
      var pct := downloaded * 100 / totalSize;
      assert downloaded >= totalSize ==> pct >= 100 by {
        if downloaded >= totalSize { DivAtLeast(downloaded * 100, totalSize * 100, totalSize); }
      }
      FloorDiv(downloaded * 100, totalSize);
      assert downloaded < totalSize ==> pct < 100 by {
        if downloaded < totalSize { DivBelow(downloaded * 100, totalSize); }
      }
      Some(if pct < 100 then pct else 100)
    else None
  }

  /** Floor division by a positive divisor, as Python's `//` computes it:
      the quotient is the largest `q` with `q * d <= a`. */
  lemma FloorDiv(a: int, d: int)
    requires d > 0
    ensures (a / d) * d <= a < (a / d + 1) * d
  {
  }

  lemma DivBelow(a: int, d: int)
    requires d > 0 && a < 100 * d
    ensures a / d < 100
  {
    FloorDiv(a, d);
    if a / d >= 100 {
      MulMono(100, a / d, d);
    }
  }

  lemma DivAtLeast(a: int, b: int, d: int)
    requires d > 0 && a >= b && b == 100 * d
    ensures a / d >= 100
  {
  }

  /** The percentage never goes down as blocks arrive. */
  lemma ProgressMonotone(b1: int, b2: int, blockSize: int, totalSize: int)
    requires 0 <= b1 <= b2 && 0 <= blockSize && 0 < totalSize
    ensures Progress(true, b1, blockSize, totalSize).value <= Progress(true, b2, blockSize, totalSize).value
  {
    MulMono(b1, b2, blockSize * 100);
    assert b1 * blockSize * 100 <= b2 * blockSize * 100;
    DivMono(b1 * blockSize * 100, b2 * blockSize * 100, totalSize);
  }

  lemma MulMono(a: int, b: int, c: int)
    requires a <= b && 0 <= c
    ensures a * c <= b * c
  {
  }

  lemma DivMono(a: int, b: int, d: int)
    requires a <= b && d > 0
    ensures a / d <= b / d
  {
    var qa, qb := a / d, b / d;
    if qa > qb {
      MulMono(qb + 1, qa, d);
    }
  }

  // ---------------------------------------------------------------------
  // Driver status
  // ---------------------------------------------------------------------

  /** What looking at the device gives: not connected, its configuration
      read, a `USBError` with its text while reading it, or any other
      exception (including a missing `usb` module) with its text. */
  datatype Probe = NotConnected | Configured | UsbError(text: string) | Raised(text: string)

  datatype DriverStatus = DriverStatus(
    status: string,
    message: string,
    driver: Option<string>,
    error: Option<string>,
    recommendation: Option<string>)

  /** `USBError` text that means the driver blocks access. */
  predicate AccessDeniedText(text: string) {
    Contains(text, "Access denied") || Contains(text, "Access is denied")
  }

  /** `check_device_driver_status`. */
  function CheckDriverStatus(p: Probe): (r: DriverStatus)
    ensures r.status == "not_found" <==> p.NotConnected?
    ensures r.status == "accessible" <==> p.Configured?
    ensures r.status == "access_denied" <==> p.UsbError? && AccessDeniedText(p.text)
    ensures r.status == "error" <==> p.UsbError? && !AccessDeniedText(p.text)
    ensures r.status == "unknown" <==> p.Raised?
    ensures r.error.Some? <==> p.UsbError? || p.Raised?
    ensures r.error.Some? ==> r.error.value == p.text
    ensures r.recommendation.Some? <==> r.status == "access_denied"
  {
    match p
    case NotConnected => DriverStatus("not_found", "Device not connected", None, None, None)
    case Configured => DriverStatus("accessible", "Device accessible", Some("WinUSB or compatible"), None, None)
    case UsbError(t) =>
      if AccessDeniedText(t) then
        DriverStatus("access_denied", "Driver missing or incompatible", None, Some(t), Some("Install WinUSB driver using Zadig"))
      else DriverStatus("error", "Device communication error", None, Some(t), None)
    case Raised(t) => DriverStatus("unknown", "Could not determine driver status", None, Some(t), None)
  }

  /** `detect_thermalright_devices`: the supported devices that are
      connected, in list order, each with its driver status; nothing when
      the `usb` module is missing. */
  function DetectDevices(devices: seq<Device>, usbAvailable: bool, connected: (int, int) -> bool, probe: (int, int) -> Probe): (r: seq<(Device, DriverStatus)>)
    ensures !usbAvailable ==> r == []
    ensures |r| <= |devices|
    ensures forall k :: 0 <= k < |r| ==>
              && r[k].0 in devices && connected(r[k].0.vid, r[k].0.pid)
              && r[k].1 == CheckDriverStatus(probe(r[k].0.vid, r[k].0.pid))
  {
    if !usbAvailable || |devices| == 0 then []
    else
      var d := devices[0];
      var rest := DetectDevices(devices[1..], usbAvailable, connected, probe);
      assert forall k :: 0 <= k < |rest| ==> rest[k].0 in devices;
      if connected(d.vid, d.pid) then [(d, CheckDriverStatus(probe(d.vid, d.pid)))] + rest else rest
  }

  /** Every connected supported device is reported. */
  lemma {:induction false} DetectDevicesComplete(devices: seq<Device>, connected: (int, int) -> bool, probe: (int, int) -> Probe, i: int)
    requires 0 <= i < |devices| && connected(devices[i].vid, devices[i].pid)
    ensures exists k :: 0 <= k < |DetectDevices(devices, true, connected, probe)| && DetectDevices(devices, true, connected, probe)[k].0 == devices[i]
    decreases |devices|
  {
    var r := DetectDevices(devices, true, connected, probe);
    var rest := DetectDevices(devices[1..], true, connected, probe);
    if i == 0 {
      assert r[0].0 == devices[0];
    } else {
      assert exists k :: 0 <= k < |rest| && rest[k].0 == devices[i] by {
        DetectDevicesComplete(devices[1..], connected, probe, i - 1);
        assert devices[1..][i - 1] == devices[i];
      }
      var k :| 0 <= k < |rest| && rest[k].0 == devices[i];
      var d := devices[0];
      if connected(d.vid, d.pid) {
        assert r == [(d, CheckDriverStatus(probe(d.vid, d.pid)))] + rest;
        assert r[k + 1].0 == rest[k].0;
      } else {
        assert r == rest;
      }
    }
  }
}
