# onewire-prom-exporter: a verified model of discovery and sampling

The exporter watches the 1-Wire file system mounted at `/mnt/1wire/`. At
start-up it discovers the temperature sensors there. Then it samples them
every ten seconds. Each sample goes to two places: a Prometheus gauge vector
`onewire_temperature_c`, labelled by `device_id` and `hostname`, and a sensor
list served as JSON.

This project models the two pieces of sequential logic in `main.go`:

- **Device discovery** (`createOnewireDeviceList`). It lists the mount point
  and keeps each entry that is a directory, has a name starting with `28.`,
  and whose `temperature` file `stat` does not report as missing. The kept
  names are appended, in listing order, to the existing device list. A
  failed listing returns the error and leaves the list alone.
- **One sampling cycle** (the body of the loop in `observeOnewireTemperature`).
  For each device in list order it reads the temperature file and parses it.
  A failed read or parse gives the value 0. The device's gauge series is set
  to that value and a sensor with it is appended to a freshly emptied list.

Modules:

| file | module | contents |
|---|---|---|
| `results.dfy` | `Results` | `Option`, `Result` |
| `filesystem.dfy` | `Fs` | directory entries, stat outcomes, and a filesystem given as three total functions (`readDir`, `stat`, `readFile`) |
| `paths.dfy` | `Paths` | the mount point, `TemperatureFilePath` and its inverse |
| `discovery.dfy` | `Discovery` | the discovery filter, its ordered-selection characterisation, the imperative `CreateOnewireDeviceList` |
| `reader.dfy` | `Reader` | `ReadOnewireDevicePayload` with the zero-on-error convention |
| `sampling.dfy` | `Sampling` | sensors, the gauge as a map, one cycle as a fold and as a loop, cross-cycle lemmas |
| `exporter.dfy` | `Exporter` | the background task, discovery followed by a bounded number of cycles, and a worked two-cycle scenario |

The filesystem, `strconv.ParseFloat` and the host name are parameters. A
`FileSystem` value is one frozen view of the disk. The parser is any
function `string -> Option<real>`. Readings are `real`.

Behaviour of `main.go` that the model reproduces as written:

- **Failed reads are not skipped.** The gauge series is set to 0 and a
  sensor with value 0 is appended (`main.go:103-108`). A failed device keeps
  its place in the sensor list, and its earlier gauge value is overwritten.
  `Sampling.FailedDeviceStillPublished` and `Exporter.ScenarioTwoCycles`
  state this.
- **Only "does not exist" excludes an entry at stat time.** An entry is
  skipped only when `os.IsNotExist` holds for its temperature file. Any
  other stat error keeps the entry (`main.go:143-146`).
- **The family is recognised by name alone.** The test is the name prefix
  `28.` (`main.go:138`). No per-device family file is read.
- **The file contents are parsed untrimmed.** `strconv.ParseFloat` gets the
  raw contents of the temperature file (`main.go:122`), so the model hands
  the parser the raw contents too.

## Model

| member | source | states |
|---|---|---|
| Paths.TemperatureFilePath | main.go:155-157 | the temperature path starts with the mount point `/mnt/1wire/`, ends with `/temperature`, and is the device name's length plus a fixed overhead long |
| Paths.DeviceIDOfPath | main.go:155-157 | inverse of the path function: a recognised path is exactly the fixed overhead longer than the device name it yields |
| Paths.DeviceIDOfTemperatureFilePath | main.go:155-157 | a device's temperature path has the form mount point, device name, `/temperature`, and the device name can be recovered from it |
| Paths.TemperatureFilePathOfDeviceID | main.go:155-157 | every path of that form is the temperature path of the device it names, so the two functions are mutually inverse |
| Paths.TemperatureFilePathInjective | main.go:155-157 | two devices share a temperature path exactly when they are the same device |
| Discovery.Eligible | main.go:138-146 | non-directories, names without prefix `28.` and entries whose temperature file is reported missing are rejected; a directory with the prefix is kept when stat finds the file or fails for any other reason |
| Discovery.KeptNames | main.go:137-150 | the discovered list is no longer than the listing, and every name in it has prefix `28.` and a temperature file not reported missing |
| Discovery.KeptNamesIsOrderedSelection | main.go:137-150 | the discovered names are those of exactly the listing positions that are eligible, each taken once, in listing order |
| Discovery.OrderedSelectionIsUnique | main.go:137-150 | that ordered-selection property determines the discovered list completely, so the filter has no other admissible result |
| Discovery.KeptNamesMembership | main.go:137-146 | a name is discovered iff some entry with that name is a directory, has prefix `28.`, and its temperature file is not reported missing; other stat errors do not exclude it |
| Discovery.KeptNamesDistinct | main.go:137-150 | when the listing names no entry twice, the discovered device identifiers are pairwise distinct |
| Discovery.CreateOnewireDeviceList | main.go:131-153 | a failed listing returns its error and leaves the device list unchanged; otherwise the result is the prior list followed by the discovered names |
| Reader.ReadOnewireDevicePayload | main.go:114-129 | the error is absent iff the file was read and parsed; a missing or unreadable file gives an I/O error carrying the read's error; a file that was read but rejected by the parser gives a parse error; every error comes with value 0; success gives the parsed value |
| Reader.ReadingDependsOnlyOnOwnFile | main.go:114-116 | a device's reading depends only on its own temperature file |
| Reader.FailureValueMatchesGenuineZero | main.go:116-128 | a failed read and a genuine reading of 0 report the same value and differ only in the error |
| Sampling.ObserveDevice | main.go:102-108 | handling a device appends exactly one sensor after the sensors already there, with the device's id, type `temperature` and the value read (0 on a failed read); the gauge gains the `(device, host)` series if new and no other series |
| Sampling.ObserveDeviceSetsGauge | main.go:107 | the gauge update is last-write-wins on `(device, host)`: that series takes the value just read, 0 on a failed read, and every other series keeps its value |
| Sampling.Cycle | main.go:100-109 | a cycle yields one sensor per device, in list order, with the device's id and type `temperature`, whatever the sensor list held before |
| Sampling.ObserveCycles | main.go:99-111 | after a bounded run the sensor list is empty if no cycle ran and has one entry per device otherwise; every gauge series belongs to a listed device on this host, and after at least one cycle every listed device has one |
| Sampling.ObserveDeviceExtendsCycle | main.go:101-108 | handling one more device extends a completed cycle over a prefix to a completed cycle over the longer list |
| Sampling.CycleMeetsSpec | main.go:100-109 | a cycle yields one sensor per device in list order with type `temperature`, the device's id and the value read; it sets each device's gauge series to that value and leaves every other series unchanged |
| Sampling.PublishesCycleIsUnique | main.go:100-109 | that description of a cycle determines the resulting sensor list and gauge completely |
| Sampling.ObserveOnewireTemperatureCycle | main.go:100-109 | the loop that resets the list, reads each device, sets its gauge and appends its sensor publishes exactly that cycle |
| Sampling.FailedDeviceStillPublished | main.go:102-108 | a device whose read fails still gets a sensor with value 0 at its position, and its gauge series becomes 0 |
| Sampling.LaterCycleSupersedes | main.go:99-109 | a cycle over the same devices overwrites everything the previous cycle published, in both the sensor list and the gauge |
| Sampling.CycleIdempotent | main.go:99-109 | repeating a cycle on an unchanged filesystem changes nothing |
| Sampling.LastCycleDetermines | main.go:99-111 | after any non-empty run of cycles, the store equals what the last cycle alone publishes onto an empty gauge |
| Exporter.ObserveOnewireTemperature | main.go:93-111 | a failed discovery stops the task with that error before any cycle; otherwise the store is the bounded run of cycles over the discovered devices |
| Exporter.ObserveCyclesPublishesLastCycle | main.go:99-111 | after a non-empty run, the sensor list and gauge meet the cycle description for the last filesystem state, starting from an empty gauge |
| Exporter.ScenarioTwoCycles | main.go:93-153 | with `28.aaa` and `29.bbb`, discovery keeps `28.aaa`; a cycle reading `23.500` publishes 23.5; a later cycle with an unreadable file publishes a sensor with 0 and sets the gauge to 0 |

## Left out

- HTTP handlers, routing and `ListenAndServe` (`main.go:62-91`): I/O plumbing with no logic of their own.
- Prometheus registration and the exposition format (`main.go:34-43`, `59`, `65`): a foreign library. The gauge vector is modelled only as a map from `(device_id, hostname)` to the last value set.
- Flag parsing, logger set-up and every `log.*` call (`main.go:46-60` and throughout): no effect on the published data.
- `strconv.ParseFloat` and float64 arithmetic (`main.go:122`): the parser is an arbitrary function `string -> Option<real>`, and values are `real`. IEEE rounding is not modelled.
- `path.Join` cleaning (`main.go:156`): `TemperatureFilePath` is plain concatenation. This equals `path.Join` when the device name is one clean path element, which is what a directory listing yields for names starting with `28.`.
- The unending loop and `time.Sleep` (`main.go:99`, `110`): modelled as a bounded run of cycles, one filesystem state per cycle.
- Sharing `sensors` with the JSON handler without synchronisation (`main.go:89`, `100`): a concurrency concern. The model describes the store after each completed cycle only. A reader that runs mid-cycle can see a partly rebuilt list, and that is not modelled.
- `os.Hostname` (`main.go:30`): the host name is a parameter. An error from it leaves the host name empty, which is just another parameter value.
- The order of `ioutil.ReadDir` (sorted by file name) and the uniqueness of its entries: `readDir` may return any sequence. Discovery preserves whatever order the listing has, and `Discovery.KeptNamesDistinct` takes distinct names as its hypothesis rather than from the listing.
- Real filesystem access (`ioutil.ReadDir`, `os.Stat`, `ioutil.ReadFile`): replaced by the `FileSystem` value. Each call is a total function of the path, so a file that changes between calls within one cycle is not modelled.
- `log.Fatal` after a failed discovery (`main.go:96-97`): the process exit is modelled as the task returning the error.
