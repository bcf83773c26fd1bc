/** The exporter's background task: discover devices once, then sample them
    cycle after cycle.  The endless loop is modelled as a bounded run with one
    filesystem state per cycle. */
module Exporter {
  import opened Results
  import opened Fs
  import opened Paths
  import opened Reader
  import opened Discovery
  import opened Sampling

  /** `observeOnewireTemperature`, cut off after `|cycles|` cycles.  Discovery
      starts from the empty device list on filesystem `boot`; if listing the
      mount point fails the task stops with that error before any cycle runs
      (the process exits there).  Otherwise each cycle reads the devices on
      its own filesystem state and publishes into the store the previous
      cycle left behind, starting with no sensors and no gauge series. */
  method ObserveOnewireTemperature(boot: FileSystem, cycles: seq<FileSystem>, parse: Parser, hostname: string)
    returns (outcome: Result<Store, IoError>)
    ensures boot.readDir(OnewireDevicePath).Failure? ==>
      outcome == Failure(boot.readDir(OnewireDevicePath).error)
    ensures boot.readDir(OnewireDevicePath).Success? ==>
      outcome == Success(ObserveCycles(cycles, parse, hostname, KeptNames(boot, boot.readDir(OnewireDevicePath).value)))
  {
    var err, devices := CreateOnewireDeviceList(boot, []);
    if err.Some? {
      return Failure(err.value);
    }
    assert devices == KeptNames(boot, boot.readDir(OnewireDevicePath).value) by {
      assert [] + KeptNames(boot, boot.readDir(OnewireDevicePath).value)
          == KeptNames(boot, boot.readDir(OnewireDevicePath).value);
    }
    var st := InitialStore;
    for i := 0 to |cycles|
      invariant st == ObserveCycles(cycles[..i], parse, hostname, devices)
    {
      var next := ObserveOnewireTemperatureCycle(cycles[i], parse, hostname, devices, st.gauge);
      CycleMeetsSpec(cycles[i], parse, hostname, devices, st.gauge);
      PublishesCycleIsUnique(cycles[i], parse, hostname, devices, st.gauge,
        next, Cycle(cycles[i], parse, hostname, devices, st.gauge));
      assert cycles[..i + 1][..i] == cycles[..i];
      st := next;
    }
    assert cycles[..|cycles|] == cycles;
    outcome := Success(st);
  }

  /** Whatever happened in earlier cycles, the store after a non-empty run
      holds exactly what the last cycle publishes on a fresh gauge. */
  lemma ObserveCyclesPublishesLastCycle(fss: seq<FileSystem>, parse: Parser, hostname: string, devices: seq<string>)
    requires |fss| != 0
    ensures PublishesCycle(fss[|fss| - 1], parse, hostname, devices, map[], ObserveCycles(fss, parse, hostname, devices))
  {
    LastCycleDetermines(fss, parse, hostname, devices);
    CycleMeetsSpec(fss[|fss| - 1], parse, hostname, devices, map[]);
  }

  /** Mount point holding a temperature sensor `28.aaa` and a device `29.bbb`
      of another family, both directories with their temperature files present. */
  function ScenarioListing(): seq<FileInfo>
  {
    [FileInfo("28.aaa", true), FileInfo("29.bbb", true)]
  }

  /** The scenario's filesystem while every temperature file reads "23.500". */
  function ScenarioHealthy(): FileSystem
  {
    FileSystem(
      p => if p == OnewireDevicePath then Success(ScenarioListing()) else Failure(IoError("no such directory")),
      p => StatFound,
      p => Success("23.500"))
  }

  /** The same filesystem once the temperature files have become unreadable. */
  function ScenarioBroken(): FileSystem
  {
    FileSystem(
      ScenarioHealthy().readDir,
      p => StatFound,
      p => Failure(IoError("input/output error")))
  }

  /** A parser that knows the one reading of the scenario. */
  function ScenarioParser(): Parser
  {
    s => if s == "23.500" then Some(23.5) else None
  }

  /** Discovery keeps `28.aaa` and drops `29.bbb`; the first cycle publishes
      23.5; after the file becomes unreadable the second cycle publishes a
      sensor with 0 and sets the gauge to 0, rather than dropping the sensor
      and keeping 23.5. */
  lemma ScenarioTwoCycles(hostname: string)
    ensures KeptNames(ScenarioHealthy(), ScenarioListing()) == ["28.aaa"]
    ensures ObserveCycles([ScenarioHealthy()], ScenarioParser(), hostname, ["28.aaa"])
         == Store([Sensor("28.aaa", "temperature", 23.5)], map[("28.aaa", hostname) := 23.5])
    ensures ObserveCycles([ScenarioHealthy(), ScenarioBroken()], ScenarioParser(), hostname, ["28.aaa"])
         == Store([Sensor("28.aaa", "temperature", 0.0)], map[("28.aaa", hostname) := 0.0])
  {
    var listing := ScenarioListing();
    assert !HasPrefix("29.bbb", FamilyPrefix) by {
      assert "29.bbb"[..3][1] != "28."[1];
    }
    assert HasPrefix("28.aaa", FamilyPrefix) by {
      assert "28.aaa"[..3] == "28.";
    }
    assert listing[..1] == [FileInfo("28.aaa", true)];
    assert [FileInfo("28.aaa", true)][..0] == [];
    var one := [ScenarioHealthy()];
    assert one[..0] == [];
    var two := [ScenarioHealthy(), ScenarioBroken()];
    assert two[..1] == one;
    var devices := ["28.aaa"];
    assert devices[..0] == [];
    var h := hostname;
    assert ReadOnewireDevicePayload(ScenarioHealthy(), ScenarioParser(), "28.aaa") == Reading(23.5, None);
    assert ReadOnewireDevicePayload(ScenarioBroken(), ScenarioParser(), "28.aaa").value == 0.0;
    var first := Cycle(ScenarioHealthy(), ScenarioParser(), h, devices, map[]);
    assert Cycle(ScenarioHealthy(), ScenarioParser(), h, devices[..0], map[]) == Store([], map[]);
    assert [] + [Sensor("28.aaa", "temperature", 23.5)] == [Sensor("28.aaa", "temperature", 23.5)];
    assert first == Store([Sensor("28.aaa", "temperature", 23.5)], map[("28.aaa", h) := 23.5]);
    assert ObserveCycles(one, ScenarioParser(), h, devices) == first;
    var second := Cycle(ScenarioBroken(), ScenarioParser(), h, devices, first.gauge);
    assert Cycle(ScenarioBroken(), ScenarioParser(), h, devices[..0], first.gauge) == Store([], first.gauge);
    assert [] + [Sensor("28.aaa", "temperature", 0.0)] == [Sensor("28.aaa", "temperature", 0.0)];
    assert first.gauge[("28.aaa", h) := 0.0] == map[("28.aaa", h) := 0.0];
    assert second == Store([Sensor("28.aaa", "temperature", 0.0)], map[("28.aaa", h) := 0.0]);
  }
}
