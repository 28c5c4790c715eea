/** The configuration and the refreshable state of the fan tool (`src/model.rs`). */
module Model {
  import opened Wrappers
  import opened Errors
  import opened Decimal
  import opened Sysfs
  import opened Firmware
  import Acpi
  import opened Sorting

  datatype VisibleTempSensors = All | Active

  datatype DesiredFanMode = Bios | Smart | Manual

  /** A level the user or the threshold table may ask for: one of the eight
      firmware levels, or full speed. */
  datatype DesiredManualFanLevel = Firmware(level: FirmwareLevel) | FullSpeed

  /** One entry of the sensor-name list: a channel with or without a name. */
  datatype Slot = Unnamed | Named(name: string)

  /** The normalised configuration: sensor names by 0-based channel, and the
      threshold table sorted by temperature. */
  datatype Config = Config(sensors: seq<Slot>, fanLevel: seq<(Acpi.Temp, DesiredManualFanLevel)>)

  /** A key of the `fan_level` table: its text and what it parses to as a
      temperature (`None` when it is not a number). */
  datatype TempKey = TempKey(text: string, bound: Option<Acpi.Temp>)

  /** The configuration file's two tables as key/value pairs, in the order they
      are visited. */
  datatype RawConfig = RawConfig(sensors: seq<(string, string)>, fanLevel: seq<(TempKey, string)>)

  datatype ConfigError =
    | NotASensorIndex(key: string)       // "a sensor index"
    | SensorIndexZero(key: string)       // index 0 names slot -1: the load panics
    | NotATemperature(key: string)       // "a temperature in degrees Celsius"
    | NotALevelSelector(value: string)   // "0-7 or full-speed"

  /** A sensor key parsed as a `usize`. */
  function SensorIndex(key: string): Option<nat> {
    ParseUnsigned(key, UsizeLimit)
  }

  /** A key the sensor loop can place: a `usize` of at least 1. */
  predicate Placeable(key: string) {
    SensorIndex(key).Some? && SensorIndex(key).value >= 1
  }

  /** Stores `name` in slot `index - 1`, first growing the list with unnamed
      slots when it is shorter than `index`; it never shrinks. */
  function PlaceSensor(slots: seq<Slot>, index: nat, name: string): (r: seq<Slot>)
    requires index >= 1
    ensures |r| == if |slots| < index then index else |slots|
    ensures r[index - 1] == Named(name)
    ensures forall i :: 0 <= i < |r| && i != index - 1 ==> r[i] == if i < |slots| then slots[i] else Unnamed
  {
    var grown := if |slots| < index then slots + seq(index - |slots|, _ => Unnamed) else slots;
    grown[index - 1 := Named(name)]
  }

  /** Every key of the table can be placed. */
  predicate AllPlaceable(pairs: seq<(string, string)>) {
    forall j :: 0 <= j < |pairs| ==> Placeable(pairs[j].0)
  }

  /** The pairs with their keys parsed to slot numbers (1-based). */
  function Indexed(pairs: seq<(string, string)>): seq<(nat, string)>
    requires AllPlaceable(pairs)
  {
    seq(|pairs|, j requires 0 <= j < |pairs| => (SensorIndex(pairs[j].0).value, pairs[j].1))
  }

  /** No entry names slot 0. */
  predicate Positive(entries: seq<(nat, string)>) {
    forall j :: 0 <= j < |entries| ==> entries[j].0 >= 1
  }

  /** The slot list the `sensors` loop builds when no key fails: each entry in
      turn stores its name in the slot it names, so a later entry for the same
      slot overwrites an earlier one. */
  function Placed(entries: seq<(nat, string)>): seq<Slot>
    requires Positive(entries)
    decreases |entries|
  {
    if |entries| == 0 then []
    else
      var n := |entries| - 1;
      assert forall j :: 0 <= j < n ==> entries[..n][j] == entries[j];
      PlaceSensor(Placed(entries[..n]), entries[n].0, entries[n].1)
  }

  /** The first pair whose key cannot be placed. */
  function FirstUnplaceable(pairs: seq<(string, string)>): (j: nat)
    requires !AllPlaceable(pairs)
    ensures FirstBadSensorKey(pairs, j)
    decreases |pairs|
  {
    if !Placeable(pairs[0].0) then 0
    else
      assert forall j :: 0 <= j < |pairs| - 1 ==> pairs[1..][j] == pairs[j + 1];
      1 + FirstUnplaceable(pairs[1..])
  }

  /** The `sensors` loop of `Config::deserialize`. The loop stops at the first
      key that is not a `usize`, and the program panics on a key of 0 (slot
      `0 - 1`); both fail the whole load, so the loop either places every pair
      or reports the first key it could not place. */
  function PlaceSensors(pairs: seq<(string, string)>): (r: Result<seq<Slot>, ConfigError>)
    ensures r.Ok? <==> forall j :: 0 <= j < |pairs| ==> Placeable(pairs[j].0)
    ensures r.Err? ==> exists j: nat :: FirstBadSensorKey(pairs, j) && r.error == KeyError(pairs[j].0)
  {
    if AllPlaceable(pairs) then Ok(Placed(Indexed(pairs)))
    else
      var j := FirstUnplaceable(pairs);
      Err(KeyError(pairs[j].0))
  }

  /** Why a sensor key cannot be placed. */
  function KeyError(key: string): ConfigError {
    if SensorIndex(key).None? then NotASensorIndex(key) else SensorIndexZero(key)
  }

  predicate FirstBadSensorKey(pairs: seq<(string, string)>, j: nat) {
    && j < |pairs|
    && !Placeable(pairs[j].0)
    && forall i :: 0 <= i < j ==> Placeable(pairs[i].0)
  }

  /** Entry `j` is the last entry naming slot `i` (0-based). */
  predicate LastNaming(entries: seq<(nat, string)>, j: nat, i: nat) {
    && j < |entries|
    && entries[j].0 == i + 1
    && forall j' :: j < j' < |entries| ==> entries[j'].0 != i + 1
  }

  /** The placed list has exactly as many slots as the largest slot number. */
  lemma {:induction false} PlacedLength(entries: seq<(nat, string)>)
    requires Positive(entries)
    ensures forall j :: 0 <= j < |entries| ==> entries[j].0 <= |Placed(entries)|
    ensures |Placed(entries)| == 0 || exists j :: 0 <= j < |entries| && entries[j].0 == |Placed(entries)|
    decreases |entries|
  {
    if |entries| > 0 {
      var n := |entries| - 1;
      var init := entries[..n];
      assert forall j :: 0 <= j < n ==> init[j] == entries[j];
      PlacedLength(init);
      var prev := Placed(init);
      var slots := Placed(entries);
      if |slots| == |prev| && |slots| > 0 {
        var j :| 0 <= j < |init| && init[j].0 == |prev|;
        assert entries[j].0 == |slots|;
      }
    }
  }

  /** A slot is named iff some entry names it. */
  lemma {:induction false} PlacedNamed(entries: seq<(nat, string)>, i: nat)
    requires Positive(entries)
    requires i < |Placed(entries)|
    ensures Placed(entries)[i].Named? <==> exists j :: 0 <= j < |entries| && entries[j].0 == i + 1
    decreases |entries|
  {
    var n := |entries| - 1;
    var init := entries[..n];
    assert forall j :: 0 <= j < n ==> init[j] == entries[j];
    var prev := Placed(init);
    var slots := Placed(entries);
    if i == entries[n].0 - 1 {
      assert slots[i].Named?;
    } else if i < |prev| {
      assert slots[i] == prev[i];
      PlacedNamed(init, i);
      if exists j :: 0 <= j < |entries| && entries[j].0 == i + 1 {
        var j :| 0 <= j < |entries| && entries[j].0 == i + 1;
        assert init[j].0 == i + 1;
      }
    } else {
      assert slots[i] == Unnamed;
      PlacedLength(init);
    }
  }

  /** A named slot holds the name of the last entry naming it. */
  lemma {:induction false} PlacedLast(entries: seq<(nat, string)>, i: nat, j: nat)
    requires Positive(entries)
    requires LastNaming(entries, j, i)
    ensures i < |Placed(entries)| && Placed(entries)[i] == Named(entries[j].1)
    decreases |entries|
  {
    var n := |entries| - 1;
    var init := entries[..n];
    assert forall j :: 0 <= j < n ==> init[j] == entries[j];
    if j < n {
      assert LastNaming(init, j, i);
      PlacedLast(init, i, j);
    }
  }

  /** When no two keys name the same slot, every pair's name is found in the
      slot its key names, and the list is no longer than the largest key. */
  lemma SensorPlacedAtIndex(pairs: seq<(string, string)>, j: nat)
    requires PlaceSensors(pairs).Ok?
    requires forall a, b :: 0 <= a < b < |pairs| ==> SensorIndex(pairs[a].0) != SensorIndex(pairs[b].0)
    requires j < |pairs|
    ensures var slots := PlaceSensors(pairs).value;
            && SensorIndex(pairs[j].0).value - 1 < |slots|
            && slots[SensorIndex(pairs[j].0).value - 1] == Named(pairs[j].1)
  {
    var entries := Indexed(pairs);
    var i := SensorIndex(pairs[j].0).value - 1;
    assert LastNaming(entries, j, i);
    PlacedLast(entries, i, j);
  }

  /** The text a selector must be, for each level the table may ask for. */
  function SelectorText(d: DesiredManualFanLevel): string {
    match d
    case Firmware(l) => DisplayText(l)
    case FullSpeed => "full-speed"
  }

  /** A `fan_level` value: "0" to "7" for the firmware levels, "full-speed";
      nothing else. */
  function ParseSelector(s: string): (r: Option<DesiredManualFanLevel>)
    ensures r.Some? ==> SelectorText(r.value) == s
  {
    if s == "0" then Some(Firmware(Zero))
    else if s == "1" then Some(Firmware(One))
    else if s == "2" then Some(Firmware(Two))
    else if s == "3" then Some(Firmware(Three))
    else if s == "4" then Some(Firmware(Four))
    else if s == "5" then Some(Firmware(Five))
    else if s == "6" then Some(Firmware(Six))
    else if s == "7" then Some(Firmware(Seven))
    else if s == "full-speed" then Some(FullSpeed)
    else None
  }

  /** Every level has exactly one selector: parsing accepts `s` as `d` iff `s`
      is the selector text of `d`. The digit a firmware level displays as is
      its selector. */
  lemma SelectorRoundTrip(d: DesiredManualFanLevel, s: string)
    ensures ParseSelector(s) == Some(d) <==> s == SelectorText(d)
    ensures d.Firmware? ==> ParseSelector(DisplayText(d.level)) == Some(d)
  {
  }

  /** One `fan_level` pair: the key must be a temperature, then the value a
      selector. */
  function ParseLevelEntry(entry: (TempKey, string)): (r: Result<(Acpi.Temp, DesiredManualFanLevel), ConfigError>)
    ensures r.Ok? <==> entry.0.bound.Some? && ParseSelector(entry.1).Some?
    ensures r.Ok? ==> r.value.0 == entry.0.bound.value && SelectorText(r.value.1) == entry.1
    ensures entry.0.bound.None? ==> r == Err(NotATemperature(entry.0.text))
    ensures entry.0.bound.Some? && ParseSelector(entry.1).None? ==> r == Err(NotALevelSelector(entry.1))
  {
    match entry.0.bound
    case None => Err(NotATemperature(entry.0.text))
    case Some(t) =>
      match ParseSelector(entry.1)
      case None => Err(NotALevelSelector(entry.1))
      case Some(d) => Ok((t, d))
  }

  /** The `fan_level` loop: every pair parsed, in order; the first bad pair
      fails the whole load. */
  function ParseLevels(entries: seq<(TempKey, string)>): (r: Result<seq<(Acpi.Temp, DesiredManualFanLevel)>, ConfigError>)
    ensures r.Ok? <==> forall j :: 0 <= j < |entries| ==> ParseLevelEntry(entries[j]).Ok?
    ensures r.Ok? ==> |r.value| == |entries|
                      && forall j :: 0 <= j < |entries| ==> r.value[j] == ParseLevelEntry(entries[j]).value
    ensures r.Err? ==> exists j: nat :: FirstBadLevel(entries, j) && r.error == ParseLevelEntry(entries[j]).error
    decreases |entries|
  {
    if |entries| == 0 then Ok([])
    else
      var n := |entries| - 1;
      var init := entries[..n];
      assert forall j :: 0 <= j < n ==> init[j] == entries[j];
      match ParseLevels(init)
      case Err(e) => Err(e)
      case Ok(levels) =>
        match ParseLevelEntry(entries[n])
        case Err(e) =>
          assert FirstBadLevel(entries, n);
          Err(e)
        case Ok(pair) => Ok(levels + [pair])
  }

  predicate FirstBadLevel(entries: seq<(TempKey, string)>, j: nat) {
    && j < |entries|
    && ParseLevelEntry(entries[j]).Err?
    && forall i :: 0 <= i < j ==> ParseLevelEntry(entries[i]).Ok?
  }

  /** `Config::deserialize`: place the sensor names, parse the threshold table,
      then sort it by temperature. Sensor keys are checked before the table. */
  function Deserialize(raw: RawConfig): (r: Result<Config, ConfigError>)
    ensures r.Ok? <==> PlaceSensors(raw.sensors).Ok? && ParseLevels(raw.fanLevel).Ok?
    ensures PlaceSensors(raw.sensors).Err? ==> r == Err(PlaceSensors(raw.sensors).error)
    ensures PlaceSensors(raw.sensors).Ok? && ParseLevels(raw.fanLevel).Err? ==> r == Err(ParseLevels(raw.fanLevel).error)
    ensures r.Ok? ==> r.value.sensors == PlaceSensors(raw.sensors).value
    ensures r.Ok? ==> SortedByKey(r.value.fanLevel)
    ensures r.Ok? ==> multiset(r.value.fanLevel) == multiset(ParseLevels(raw.fanLevel).value)
    ensures r.Ok? ==> |r.value.fanLevel| == |raw.fanLevel|
  {
    match PlaceSensors(raw.sensors)
    case Err(e) => Err(e)
    case Ok(sensors) =>
      match ParseLevels(raw.fanLevel)
      case Err(e) => Err(e)
      case Ok(levels) => Ok(Config(sensors, SortByKey(levels)))
  }

  /** The state the screen and the control loop share. */
  datatype State = State(
    config: Config,
    temps: Result<seq<Option<Acpi.Temp>>, Error>,
    visibleTempSensors: VisibleTempSensors,
    tempScale: Acpi.TempScale,
    fanIsWritable: bool,
    fan: Result<(Acpi.FanLevel, nat), Error>,
    desiredFanMode: DesiredFanMode,
    desiredManualFanLevel: DesiredManualFanLevel)

  /** `State::new`: one slot per configured sensor, read once; a failed read of
      the temperatures or of the fan is kept in the state, but a failed
      writability probe fails the start-up. The selections start at their
      defaults: active sensors, Celsius, smart mode, full speed. */
  function NewState(config: Config, files: Files, intervalSecs: nat, watchdog: WriteAttempt): (r: Result<State, Error>)
    requires intervalSecs * 2 < U64Limit
    ensures r.Err? <==> watchdog.WriteFails? || (watchdog.CreateFails? && watchdog.createKind != PermissionDenied)
    ensures r.Err? ==> r.error == AttemptError(watchdog)
    ensures r.Ok? ==> r.value.config == config && r.value.fanIsWritable == watchdog.Succeeds?
    ensures r.Ok? ==> (r.value.temps.Ok? <==> forall j :: 0 <= j < |config.sensors| ==> Acpi.ChannelRead(files, j).Ok?)
    ensures r.Ok? && r.value.temps.Ok? ==>
              && |r.value.temps.value| == |config.sensors|
              && forall j :: 0 <= j < |config.sensors| ==> r.value.temps.value[j] == Acpi.ChannelRead(files, j).value
    ensures r.Ok? && r.value.temps.Err? ==>
              exists k :: 0 <= k < |config.sensors| && Acpi.FirstChannelError(files, k, r.value.temps.error)
    ensures r.Ok? ==> r.value.fan == Acpi.ReadFan(files)
    ensures r.Ok? ==> r.value.visibleTempSensors == Active && r.value.tempScale == Acpi.Celsius
                      && r.value.desiredFanMode == Smart && r.value.desiredManualFanLevel == FullSpeed
  {
    var temps := Acpi.ReadTempsInto(files, seq(|config.sensors|, _ => None));
    match Acpi.FanIsWritable(intervalSecs, watchdog).0
    case Err(e) => Err(e)
    case Ok(writable) => Ok(State(config, temps, Active, Acpi.Celsius, writable, Acpi.ReadFan(files), Smart, FullSpeed))
  }

  /** `update_sensors`: re-read the temperatures into the existing slots and
      re-read the fan. An earlier temperature error is kept as it is and the
      slots are not read again; nothing else in the state changes. */
  function UpdateSensors(s: State, files: Files): (r: State)
    ensures s.temps.Err? ==> r.temps == s.temps
    ensures s.temps.Ok? ==> (r.temps.Ok? <==> forall j :: 0 <= j < |s.temps.value| ==> Acpi.ChannelRead(files, j).Ok?)
    ensures s.temps.Ok? && r.temps.Ok? ==>
              && |r.temps.value| == |s.temps.value|
              && forall j :: 0 <= j < |s.temps.value| ==> r.temps.value[j] == Acpi.ChannelRead(files, j).value
    ensures s.temps.Ok? && r.temps.Err? ==>
              exists k :: 0 <= k < |s.temps.value| && Acpi.FirstChannelError(files, k, r.temps.error)
    ensures r.fan == Acpi.ReadFan(files)
    ensures r.(temps := s.temps, fan := s.fan) == s
  {
    var temps := match s.temps
      case Err(e) => Err(e)
      case Ok(slots) => Acpi.ReadTempsInto(files, slots);
    s.(temps := temps, fan := Acpi.ReadFan(files))
  }

  /** The sensors refreshed once per snapshot, as the main loop does each tick. */
  function Refresh(s: State, snapshots: seq<Files>): State
    decreases |snapshots|
  {
    if |snapshots| == 0 then s else Refresh(UpdateSensors(s, snapshots[0]), snapshots[1..])
  }

  /** Over any number of ticks a temperature error never clears, a good slot
      list keeps its length, and the configuration and selections stay put. */
  lemma {:induction false} RefreshKeepsShape(s: State, snapshots: seq<Files>)
    ensures s.temps.Err? ==> Refresh(s, snapshots).temps == s.temps
    ensures s.temps.Ok? && Refresh(s, snapshots).temps.Ok? ==>
              |Refresh(s, snapshots).temps.value| == |s.temps.value|
    ensures Refresh(s, snapshots).(temps := s.temps, fan := s.fan) == s
    decreases |snapshots|
  {
    if |snapshots| > 0 {
      var next := UpdateSensors(s, snapshots[0]);
      RefreshKeepsShape(next, snapshots[1..]);
    }
  }
}
