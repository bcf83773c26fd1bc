/** Reading one device: the temperature file's contents parsed as a number,
    with Go's "zero value plus error" convention on failure. */
module Reader {
  import opened Results
  import opened Fs
  import opened Paths

  /** A decimal-number parser: `Some(v)` for text it accepts, `None` otherwise.
      It stands for `strconv.ParseFloat(_, 64)` and is applied to the raw file
      contents, with no trimming. */
  type Parser = string -> Option<real>

  /** Why a read produced no reading. */
  datatype ReadError =
    | IOFailure(cause: IoError)
    | ParseFailure

  /** The pair `readOnewireDevicePayload` returns: a value and an error that
      is `None` exactly when the value is real. */
  datatype Reading = Reading(value: real, err: Option<ReadError>)

  /** `readOnewireDevicePayload`: read the device's temperature file and parse
      it.  Either failure yields value 0 with the corresponding error. */
  function ReadOnewireDevicePayload(fs: FileSystem, parse: Parser, deviceID: string): (r: Reading)
    ensures r.err.None? <==>
      fs.readFile(TemperatureFilePath(deviceID)).Success?
      && parse(fs.readFile(TemperatureFilePath(deviceID)).value).Some?
    ensures r.err.Some? ==> r.value == 0.0
    ensures fs.readFile(TemperatureFilePath(deviceID)).Failure? ==>
      r.err == Some(IOFailure(fs.readFile(TemperatureFilePath(deviceID)).error))
    ensures (fs.readFile(TemperatureFilePath(deviceID)).Success?
      && parse(fs.readFile(TemperatureFilePath(deviceID)).value).None?) ==>
      r.err == Some(ParseFailure)
    ensures r.err.None? ==>
      parse(fs.readFile(TemperatureFilePath(deviceID)).value) == Some(r.value)
  {
    var contents := fs.readFile(TemperatureFilePath(deviceID));
    if contents.Failure? then
      Reading(0.0, Some(IOFailure(contents.error)))
    else
      match parse(contents.value)
      case None => Reading(0.0, Some(ParseFailure))
      case Some(v) => Reading(v, None)
  }

  /** A device's reading depends on its own temperature file and nothing else
      on the filesystem: two filesystems that agree on that file give the same
      reading, error included. */
  lemma ReadingDependsOnlyOnOwnFile(fs1: FileSystem, fs2: FileSystem, parse: Parser, deviceID: string)
    requires fs1.readFile(TemperatureFilePath(deviceID)) == fs2.readFile(TemperatureFilePath(deviceID))
    ensures ReadOnewireDevicePayload(fs1, parse, deviceID) == ReadOnewireDevicePayload(fs2, parse, deviceID)
  {
  }

  /** The value alone does not reveal a failure: a device whose file reads as
      a genuine zero and one whose file cannot be read report the same value. */
  lemma FailureValueMatchesGenuineZero(fs: FileSystem, parse: Parser, a: string, b: string)
    requires fs.readFile(TemperatureFilePath(a)).Success?
    requires parse(fs.readFile(TemperatureFilePath(a)).value) == Some(0.0)
    requires fs.readFile(TemperatureFilePath(b)).Failure?
    ensures ReadOnewireDevicePayload(fs, parse, a).value == ReadOnewireDevicePayload(fs, parse, b).value
    ensures ReadOnewireDevicePayload(fs, parse, a).err.None?
    ensures ReadOnewireDevicePayload(fs, parse, b).err.Some?
  {
  }
}
