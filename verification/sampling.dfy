/** The sampling loop: each cycle reads every discovered device, rebuilds the
    JSON sensor list from scratch and upserts the temperature gauge. */
module Sampling {
  import opened Results
  import opened Fs
  import opened Reader

  /** The `type` field of every published sensor. */
  const SensorTypeTemperature: string := "temperature"

  /** One entry of the JSON snapshot. */
  datatype Sensor = Sensor(sensorID: string, sensorType: string, sensorValue: real)

  /** A gauge series is labelled by device and host name, in that order. */
  type GaugeKey = (string, string)

  /** The gauge vector `onewire_temperature_c`: last value set per label pair. */
  type Gauge = map<GaugeKey, real>

  /** The two published read models: the snapshot list and the gauge. */
  datatype Store = Store(sensors: seq<Sensor>, gauge: Gauge)

  /** The gauge key a device writes on the given host. */
  predicate IsDeviceKey(devices: seq<string>, hostname: string, k: GaugeKey)
  {
    k.1 == hostname && k.0 in devices
  }

  /** What one completed cycle over `devices` publishes, starting from `gauge`:
      one sensor per device in list order, failed reads included with value 0;
      every device's gauge series holds this cycle's value; every other series
      is kept untouched; no series is removed. */
  ghost predicate PublishesCycle(
    fs: FileSystem, parse: Parser, hostname: string, devices: seq<string>, gauge: Gauge, st: Store)
  {
    && |st.sensors| == |devices|
    && (forall i :: 0 <= i < |devices| ==>
          && st.sensors[i].sensorID == devices[i]
          && st.sensors[i].sensorType == SensorTypeTemperature
          && st.sensors[i].sensorValue == ReadOnewireDevicePayload(fs, parse, devices[i]).value)
    && (forall k :: k in st.gauge <==> k in gauge || IsDeviceKey(devices, hostname, k))
    && (forall d :: d in devices ==>
          (d, hostname) in st.gauge && st.gauge[(d, hostname)] == ReadOnewireDevicePayload(fs, parse, d).value)
    && (forall k :: k in gauge && !IsDeviceKey(devices, hostname, k) ==>
          k in st.gauge && st.gauge[k] == gauge[k])
  }

  /** Handling of one device inside a cycle: set its gauge series to the value
      read, then append its sensor.  A failed read still does both, with 0. */
  function ObserveDevice(fs: FileSystem, parse: Parser, hostname: string, st: Store, deviceID: string): (r: Store)
    ensures |r.sensors| == |st.sensors| + 1
    ensures forall i :: 0 <= i < |st.sensors| ==> r.sensors[i] == st.sensors[i]
    ensures r.sensors[|st.sensors|] == Sensor(deviceID, SensorTypeTemperature, ReadOnewireDevicePayload(fs, parse, deviceID).value)
    ensures ReadOnewireDevicePayload(fs, parse, deviceID).err.Some? ==> r.sensors[|st.sensors|].sensorValue == 0.0
    ensures forall k :: k in r.gauge <==> k in st.gauge || k == (deviceID, hostname)
  {
    var value := ReadOnewireDevicePayload(fs, parse, deviceID).value;
    Store(
      st.sensors + [Sensor(deviceID, SensorTypeTemperature, value)],
      st.gauge[(deviceID, hostname) := value])
  }

  /** The gauge update is an upsert with last-write-wins: the device's series
      takes the value just read (0 on a failed read) and every other series
      keeps its value. */
  lemma ObserveDeviceSetsGauge(fs: FileSystem, parse: Parser, hostname: string, st: Store, deviceID: string)
    ensures (deviceID, hostname) in ObserveDevice(fs, parse, hostname, st, deviceID).gauge
    ensures ObserveDevice(fs, parse, hostname, st, deviceID).gauge[(deviceID, hostname)]
         == ReadOnewireDevicePayload(fs, parse, deviceID).value
    ensures ReadOnewireDevicePayload(fs, parse, deviceID).err.Some? ==>
      ObserveDevice(fs, parse, hostname, st, deviceID).gauge[(deviceID, hostname)] == 0.0
    ensures forall k :: k in st.gauge && k != (deviceID, hostname) ==>
      ObserveDevice(fs, parse, hostname, st, deviceID).gauge[k] == st.gauge[k]
  {
  }

  /** One sampling cycle as a fold over the device list: the sensor list
      starts empty, the gauge starts as the previous cycle left it. */
  function Cycle(fs: FileSystem, parse: Parser, hostname: string, devices: seq<string>, gauge: Gauge): (r: Store)
    ensures |r.sensors| == |devices|
    ensures forall i :: 0 <= i < |devices| ==>
      r.sensors[i].sensorID == devices[i] && r.sensors[i].sensorType == SensorTypeTemperature
  {
    if |devices| == 0 then Store([], gauge)
    else ObserveDevice(fs, parse, hostname, Cycle(fs, parse, hostname, devices[..|devices| - 1], gauge), devices[|devices| - 1])
  }

  /** Folding one more device onto a cycle over a prefix publishes the cycle
      over the longer list. */
  lemma ObserveDeviceExtendsCycle(
    fs: FileSystem, parse: Parser, hostname: string, devices: seq<string>, gauge: Gauge, st: Store, d: string)
    requires PublishesCycle(fs, parse, hostname, devices, gauge, st)
    ensures PublishesCycle(fs, parse, hostname, devices + [d], gauge, ObserveDevice(fs, parse, hostname, st, d))
  {
  }

  /** The fold publishes exactly what a cycle is specified to publish. */
  lemma {:induction false} CycleMeetsSpec(
    fs: FileSystem, parse: Parser, hostname: string, devices: seq<string>, gauge: Gauge)
    ensures PublishesCycle(fs, parse, hostname, devices, gauge, Cycle(fs, parse, hostname, devices, gauge))
  {
    if |devices| != 0 {
      var init := devices[..|devices| - 1];
      CycleMeetsSpec(fs, parse, hostname, init, gauge);
      ObserveDeviceExtendsCycle(fs, parse, hostname, init, gauge,
        Cycle(fs, parse, hostname, init, gauge), devices[|devices| - 1]);
      assert init + [devices[|devices| - 1]] == devices;
    }
  }

  /** The cycle specification leaves no freedom: any two stores that meet it
      for the same inputs are equal. */
  lemma PublishesCycleIsUnique(
    fs: FileSystem, parse: Parser, hostname: string, devices: seq<string>, gauge: Gauge, st1: Store, st2: Store)
    requires PublishesCycle(fs, parse, hostname, devices, gauge, st1)
    requires PublishesCycle(fs, parse, hostname, devices, gauge, st2)
    ensures st1 == st2
  {
  }

  /** The body of the `for` loop of `observeOnewireTemperature`: reset the
      sensor list, then for each device read it, set its gauge series and
      append its sensor. */
  method ObserveOnewireTemperatureCycle(
    fs: FileSystem, parse: Parser, hostname: string, devices: seq<string>, gauge: Gauge)
    returns (st: Store)
    ensures PublishesCycle(fs, parse, hostname, devices, gauge, st)
  {
    var sensors: seq<Sensor> := [];
    var g := gauge;
    for i := 0 to |devices|
      invariant PublishesCycle(fs, parse, hostname, devices[..i], gauge, Store(sensors, g))
    {
      ghost var before := Store(sensors, g);
      var deviceID := devices[i];
      var reading := ReadOnewireDevicePayload(fs, parse, deviceID);
      g := g[(deviceID, hostname) := reading.value];
      sensors := sensors + [Sensor(deviceID, SensorTypeTemperature, reading.value)];
      ObserveDeviceExtendsCycle(fs, parse, hostname, devices[..i], gauge, before, deviceID);
      assert devices[..i + 1] == devices[..i] + [deviceID];
    }
    assert devices[..|devices|] == devices;
    st := Store(sensors, g);
  }

  /** A device whose read fails is not skipped: it still gets a sensor with
      value 0 in the snapshot, and its gauge series is overwritten with 0
      rather than keeping an earlier value. */
  lemma FailedDeviceStillPublished(
    fs: FileSystem, parse: Parser, hostname: string, devices: seq<string>, gauge: Gauge, st: Store, i: int)
    requires PublishesCycle(fs, parse, hostname, devices, gauge, st)
    requires 0 <= i < |devices|
    requires ReadOnewireDevicePayload(fs, parse, devices[i]).err.Some?
    ensures st.sensors[i] == Sensor(devices[i], SensorTypeTemperature, 0.0)
    ensures (devices[i], hostname) in st.gauge && st.gauge[(devices[i], hostname)] == 0.0
  {
  }

  /** A cycle over the same device list completely overwrites what the
      previous cycle published: running cycle 2 after cycle 1 gives the same
      store as running cycle 2 directly on the gauge cycle 1 started from. */
  lemma LaterCycleSupersedes(
    fs1: FileSystem, fs2: FileSystem, parse: Parser, hostname: string, devices: seq<string>, gauge: Gauge)
    ensures Cycle(fs2, parse, hostname, devices, Cycle(fs1, parse, hostname, devices, gauge).gauge)
         == Cycle(fs2, parse, hostname, devices, gauge)
  {
    var mid := Cycle(fs1, parse, hostname, devices, gauge);
    var twice := Cycle(fs2, parse, hostname, devices, mid.gauge);
    var once := Cycle(fs2, parse, hostname, devices, gauge);
    CycleMeetsSpec(fs1, parse, hostname, devices, gauge);
    CycleMeetsSpec(fs2, parse, hostname, devices, mid.gauge);
    CycleMeetsSpec(fs2, parse, hostname, devices, gauge);
    assert PublishesCycle(fs2, parse, hostname, devices, gauge, twice);
    PublishesCycleIsUnique(fs2, parse, hostname, devices, gauge, twice, once);
  }

  /** Repeating a cycle on an unchanged filesystem changes nothing further. */
  lemma CycleIdempotent(fs: FileSystem, parse: Parser, hostname: string, devices: seq<string>, gauge: Gauge)
    ensures Cycle(fs, parse, hostname, devices, Cycle(fs, parse, hostname, devices, gauge).gauge)
         == Cycle(fs, parse, hostname, devices, gauge)
  {
    LaterCycleSupersedes(fs, fs, parse, hostname, devices, gauge);
  }

  /** The store before any cycle: no sensors, no gauge series. */
  const InitialStore: Store := Store([], map[])

  /** A bounded run of the sampling loop, one filesystem state per cycle. */
  function ObserveCycles(fss: seq<FileSystem>, parse: Parser, hostname: string, devices: seq<string>): (r: Store)
    ensures |r.sensors| == if |fss| == 0 then 0 else |devices|
    ensures |fss| != 0 ==> forall i :: 0 <= i < |devices| ==>
      r.sensors[i].sensorID == devices[i] && r.sensors[i].sensorType == SensorTypeTemperature
    ensures forall k :: k in r.gauge ==> IsDeviceKey(devices, hostname, k)
    ensures |fss| != 0 ==> forall d :: d in devices ==> (d, hostname) in r.gauge
  {
    if |fss| == 0 then InitialStore
    else
      var prev := ObserveCycles(fss[..|fss| - 1], parse, hostname, devices);
      CycleMeetsSpec(fss[|fss| - 1], parse, hostname, devices, prev.gauge);
      Cycle(fss[|fss| - 1], parse, hostname, devices, prev.gauge)
  }

  /** After any non-empty run the published store is what the last cycle alone
      publishes from an empty gauge: every series belongs to a listed device on
      this host, and none carries a value from an earlier cycle. */
  lemma {:induction false} LastCycleDetermines(
    fss: seq<FileSystem>, parse: Parser, hostname: string, devices: seq<string>)
    requires |fss| != 0
    ensures ObserveCycles(fss, parse, hostname, devices)
         == Cycle(fss[|fss| - 1], parse, hostname, devices, map[])
  {
    var n := |fss| - 1;
    var init := fss[..n];
    var prev := ObserveCycles(init, parse, hostname, devices);
    assert ObserveCycles(fss, parse, hostname, devices) == Cycle(fss[n], parse, hostname, devices, prev.gauge);
    if n == 0 {
      assert prev == InitialStore;
    } else {
      LastCycleDetermines(init, parse, hostname, devices);
      assert init[n - 1] == fss[n - 1];
      assert prev == Cycle(fss[n - 1], parse, hostname, devices, map[]);
      LaterCycleSupersedes(fss[n - 1], fss[n], parse, hostname, devices, map[]);
    }
  }
}
