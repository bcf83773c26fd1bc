/** Where the 1-Wire file system is mounted and where each device keeps its
    temperature file. */
module Paths {
  import opened Results

  /** The mount point of the 1-Wire file system, scanned for devices. */
  const OnewireDevicePath: string := "/mnt/1wire/"

  /** The per-device file that holds the current reading. */
  const TemperatureFileName: string := "temperature"

  /** The length of everything `TemperatureFilePath` adds after the device name. */
  const SuffixLength: nat := 1 + |TemperatureFileName|

  /** The temperature file of a device: the mount point, the device's directory,
      then the fixed file name.  For a device name that is a single clean path
      element (what a directory listing yields) this is the string Go's
      `path.Join(OnewireDevicePath, deviceID, "temperature")` produces. */
  function TemperatureFilePath(deviceID: string): (p: string)
    ensures |p| == |OnewireDevicePath| + |deviceID| + SuffixLength
    ensures p[..|OnewireDevicePath|] == OnewireDevicePath
    ensures p[|p| - SuffixLength..] == "/" + TemperatureFileName
  {
    OnewireDevicePath + deviceID + "/" + TemperatureFileName
  }

  /** Recovers the device name from a temperature-file path, or `None` when the
      path does not have the shape `TemperatureFilePath` produces. */
  function DeviceIDOfPath(p: string): (r: Option<string>)
    ensures r.Some? ==> |r.value| + |OnewireDevicePath| + SuffixLength == |p|
  {
    var n := |OnewireDevicePath|;
    if n + SuffixLength <= |p|
       && p[..n] == OnewireDevicePath
       && p[|p| - SuffixLength..] == "/" + TemperatureFileName
    then Some(p[n..|p| - SuffixLength])
    else None
  }

  /** Every device's temperature path is recognised and gives the device back. */
  lemma DeviceIDOfTemperatureFilePath(deviceID: string)
    ensures DeviceIDOfPath(TemperatureFilePath(deviceID)) == Some(deviceID)
  {
    var p := TemperatureFilePath(deviceID);
    var n := |OnewireDevicePath|;
    assert p == OnewireDevicePath + (deviceID + ("/" + TemperatureFileName));
    assert p[..n] == OnewireDevicePath;
    assert p[|p| - SuffixLength..] == "/" + TemperatureFileName;
    assert p[n..|p| - SuffixLength] == deviceID;
  }

  /** Every path that is recognised is the temperature path of the device it names. */
  lemma TemperatureFilePathOfDeviceID(p: string, deviceID: string)
    requires DeviceIDOfPath(p) == Some(deviceID)
    ensures TemperatureFilePath(deviceID) == p
  {
  }

  /** Distinct devices never share a temperature file, so reading or stat-ing
      one device's file says nothing about another's. */
  lemma TemperatureFilePathInjective(a: string, b: string)
    ensures TemperatureFilePath(a) == TemperatureFilePath(b) <==> a == b
  {
    if TemperatureFilePath(a) == TemperatureFilePath(b) {
      DeviceIDOfTemperatureFilePath(a);
      DeviceIDOfTemperatureFilePath(b);
    }
  }
}
