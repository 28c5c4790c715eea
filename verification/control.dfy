/** What the main loop does with the state each tick (`src/main.rs`): choose
    the fan level to write, and decide which temperature rows to show. */
module Control {
  import opened Wrappers
  import opened Errors
  import opened Firmware
  import opened Sysfs
  import Acpi
  import Model

  type Temp = Acpi.Temp
  type Table = seq<(Temp, Model.DesiredManualFanLevel)>

  /** The fan level that carries out a level the user or the table asks for. */
  function ToFanLevel(d: Model.DesiredManualFanLevel): (l: Acpi.FanLevel)
    ensures !l.Auto?
    ensures l.FullSpeed? <==> d.FullSpeed?
    ensures l.Firmware? ==> d.Firmware? && l.level == d.level
  {
    match d
    case Firmware(level) => Acpi.FanLevel.Firmware(level)
    case FullSpeed => Acpi.FanLevel.FullSpeed
  }

  /** Distinct requests give distinct fan levels. */
  lemma ToFanLevelInjective(a: Model.DesiredManualFanLevel, b: Model.DesiredManualFanLevel)
    requires ToFanLevel(a) == ToFanLevel(b)
    ensures a == b
  {
  }

  // ---------------------------------------------------------------------------
  // The hottest reading

  /** The order `Option<Temp>` has in Rust: `None` below every `Some`. */
  predicate ReadingLe(a: Option<Temp>, b: Option<Temp>) {
    a.None? || (b.Some? && a.value <= b.value)
  }

  /** `Iterator::max` over the slots: `None` for no slots at all, otherwise a
      greatest slot in the order above. */
  function MaxReading(temps: seq<Option<Temp>>): (r: Option<Option<Temp>>)
    ensures r.None? <==> |temps| == 0
    ensures r.Some? ==> r.value in temps
    ensures r.Some? ==> forall i :: 0 <= i < |temps| ==> ReadingLe(temps[i], r.value)
    decreases |temps|
  {
    if |temps| == 0 then None
    else
      var n := |temps| - 1;
      match MaxReading(temps[..n])
      case None => Some(temps[n])
      case Some(best) => if ReadingLe(best, temps[n]) then Some(temps[n]) else Some(best)
  }

  /** `m` is the highest reading among the channels that have one. */
  predicate IsHottest(temps: seq<Option<Temp>>, m: Temp) {
    && (exists i :: 0 <= i < |temps| && temps[i] == Some(m))
    && forall i :: 0 <= i < |temps| && temps[i].Some? ==> temps[i].value <= m
  }

  /** The maximum is a reading exactly when some channel has one, and then it
      is the highest reading; absent channels never win over a reading. */
  lemma MaxReadingIsHottest(temps: seq<Option<Temp>>, m: Temp)
    ensures MaxReading(temps) == Some(Some(m)) <==> IsHottest(temps, m)
  {
    var r := MaxReading(temps);
    if IsHottest(temps, m) {
      var i :| 0 <= i < |temps| && temps[i] == Some(m);
      assert ReadingLe(temps[i], r.value);
      var k :| 0 <= k < |temps| && temps[k] == r.value;
      assert ReadingLe(temps[k], temps[i]);
    }
  }

  /** With no channel reading (no slots, or every slot absent) the maximum is
      not a reading. */
  lemma MaxReadingWithoutReadings(temps: seq<Option<Temp>>)
    ensures (forall i :: 0 <= i < |temps| ==> temps[i].None?) <==> !(MaxReading(temps).Some? && MaxReading(temps).value.Some?)
  {
    var r := MaxReading(temps);
    if r.Some? && r.value.Some? {
      var k :| 0 <= k < |temps| && temps[k] == r.value;
    }
    if exists i :: 0 <= i < |temps| && temps[i].Some? {
      var i :| 0 <= i < |temps| && temps[i].Some?;
      assert ReadingLe(temps[i], r.value);
    }
  }

  // ---------------------------------------------------------------------------
  // The threshold table

  /** The smart-mode loop over the table: start from full speed and take the
      level of every entry whose bound the hottest reading strictly exceeds, so
      the last such entry in table order wins. */
  function SelectLevel(table: Table, m: Temp): (d: Model.DesiredManualFanLevel)
    decreases |table|
  {
    if |table| == 0 then Model.FullSpeed
    else
      var n := |table| - 1;
      if m > table[n].0 then table[n].1 else SelectLevel(table[..n], m)
  }

  /** Entry `j` is the last entry of the table whose bound is below `m`. */
  predicate LastBelow(table: Table, m: Temp, j: nat) {
    && j < |table|
    && table[j].0 < m
    && forall k :: j < k < |table| ==> table[k].0 >= m
  }

  /** The selection is the level of the last entry whose bound is strictly
      below the reading, and full speed when there is none. */
  lemma {:induction false} SelectLevelSpec(table: Table, m: Temp)
    ensures forall j: nat :: LastBelow(table, m, j) ==> SelectLevel(table, m) == table[j].1
    ensures (forall k :: 0 <= k < |table| ==> table[k].0 >= m) ==> SelectLevel(table, m) == Model.FullSpeed
    decreases |table|
  {
    if |table| > 0 {
      var n := |table| - 1;
      var init := table[..n];
      assert forall k :: 0 <= k < n ==> init[k] == table[k];
      SelectLevelSpec(init, m);
      assert SelectLevel(table, m) == (if m > table[n].0 then table[n].1 else SelectLevel(init, m));
      forall j: nat | LastBelow(table, m, j)
        ensures SelectLevel(table, m) == table[j].1
      {
        if j < n {
          assert LastBelow(init, m, j);
        }
      }
    }
  }

  /** An entry whose bound is not below the reading has no say: removing it
      does not change the selection. This is why a reading equal to a bound
      does not select that entry. */
  lemma {:induction false} SelectIgnoresEntryAtOrAbove(a: Table, x: (Temp, Model.DesiredManualFanLevel), b: Table, m: Temp)
    requires x.0 >= m
    ensures SelectLevel(a + [x] + b, m) == SelectLevel(a + b, m)
    decreases |b|
  {
    if |b| == 0 {
      assert (a + [x] + b)[..|a|] == a;
      assert a + b == a;
    } else {
      var n := |b| - 1;
      assert (a + [x] + b)[..|a| + 1 + n] == a + [x] + b[..n];
      assert (a + b)[..|a| + n] == a + b[..n];
      SelectIgnoresEntryAtOrAbove(a, x, b[..n], m);
    }
  }

  /** The example table 40 / 60 / 80 degrees (in millidegrees). */
  const ExampleTable: Table := [(40000, Model.Firmware(Two)), (60000, Model.Firmware(Five)), (80000, Model.FullSpeed)]

  /** 65 degrees selects the 60-degree entry; exactly 60 degrees does not
      select it and falls back to the 40-degree entry; 35 degrees is below
      every bound and gives full speed. */
  lemma ExampleSelections()
    ensures SelectLevel(ExampleTable, 65000) == Model.Firmware(Five)
    ensures SelectLevel(ExampleTable, 60000) == Model.Firmware(Two)
    ensures SelectLevel(ExampleTable, 35000) == Model.FullSpeed
  {
    SelectLevelSpec(ExampleTable, 65000);
    assert LastBelow(ExampleTable, 65000, 1);
    SelectLevelSpec(ExampleTable, 60000);
    assert LastBelow(ExampleTable, 60000, 0);
    SelectLevelSpec(ExampleTable, 35000);
  }

  // ---------------------------------------------------------------------------
  // The level written each tick

  /** Smart mode: the table's choice for the hottest reading, and full speed
      when the temperatures failed or no channel has a reading. */
  function SmartLevel(table: Table, temps: Result<seq<Option<Temp>>, Error>): (l: Acpi.FanLevel)
    ensures !l.Auto?
    ensures temps.Err? ==> l == Acpi.FanLevel.FullSpeed
  {
    match temps
    case Err(_) => Acpi.FanLevel.FullSpeed
    case Ok(ts) =>
      match MaxReading(ts)
      case Some(Some(m)) => ToFanLevel(SelectLevel(table, m))
      case _ => Acpi.FanLevel.FullSpeed
  }

  /** With readings, smart mode carries out the table's choice for the
      highest one; without any reading it runs the fan at full speed. */
  lemma SmartLevelSpec(table: Table, ts: seq<Option<Temp>>, m: Temp)
    ensures IsHottest(ts, m) ==> SmartLevel(table, Ok(ts)) == ToFanLevel(SelectLevel(table, m))
    ensures (forall i :: 0 <= i < |ts| ==> ts[i].None?) ==> SmartLevel(table, Ok(ts)) == Acpi.FanLevel.FullSpeed
  {
    MaxReadingIsHottest(ts, m);
    MaxReadingWithoutReadings(ts);
  }

  /** The level the main loop writes for the current state: automatic under
      BIOS control, the selected level in manual mode, the table's choice in
      smart mode. Only BIOS mode hands the fan back to the firmware. */
  function DesiredFanLevel(s: Model.State): (l: Acpi.FanLevel)
    ensures l.Auto? <==> s.desiredFanMode.Bios?
    ensures s.desiredFanMode.Manual? ==> l == ToFanLevel(s.desiredManualFanLevel)
    ensures s.desiredFanMode.Smart? ==> l == SmartLevel(s.config.fanLevel, s.temps)
  {
    match s.desiredFanMode
    case Bios => Acpi.FanLevel.Auto
    case Smart => SmartLevel(s.config.fanLevel, s.temps)
    case Manual => ToFanLevel(s.desiredManualFanLevel)
  }

  /** The writes of one tick: nothing when the fan is not writable, otherwise
      the writes that put the fan in the desired level. */
  function TickWrites(s: Model.State): (w: seq<FileWrite>)
    ensures |w| == 0 <==> !s.fanIsWritable
    ensures s.fanIsWritable ==> w == Acpi.WriteFan(DesiredFanLevel(s))
  {
    if s.fanIsWritable then Acpi.WriteFan(DesiredFanLevel(s)) else []
  }

  /** After a tick's writes the fan reads back as the desired level, and a
      read-only fan keeps whatever level it had. */
  lemma TickThenReadFan(s: Model.State, files: Files)
    ensures s.fanIsWritable ==> Acpi.ReadFanLevel(ApplyWrites(files, TickWrites(s))) == Ok(DesiredFanLevel(s))
    ensures !s.fanIsWritable ==> ApplyWrites(files, TickWrites(s)) == files
  {
    if s.fanIsWritable {
      Acpi.WriteThenReadFan(files, DesiredFanLevel(s));
    }
  }

  // ---------------------------------------------------------------------------
  // The temperature rows

  /** A row of the temperature list: the sensor's name and its reading, or no
      reading (shown as "n/a"). */
  datatype Row = Row(name: string, reading: Option<Temp>)

  /** The row, if any, for one channel: a named channel with a reading always
      has one, a named channel without a reading only when all sensors are
      shown, and an unnamed channel never. */
  function RowFor(slot: Model.Slot, t: Option<Temp>, visible: Model.VisibleTempSensors): (r: Option<Row>)
    ensures r.Some? <==> slot.Named? && (t.Some? || visible.All?)
    ensures r.Some? ==> r.value == Row(slot.name, t)
  {
    match (slot, t)
    case (Named(name), Some(_)) => Some(Row(name, t))
    case (Named(name), None) => if visible.All? then Some(Row(name, None)) else None
    case (Unnamed, _) => None
  }

  /** Channel `i` appears in the list: it is paired (both lists reach it) and
      its row is not filtered out. */
  predicate Shown(sensors: seq<Model.Slot>, temps: seq<Option<Temp>>, visible: Model.VisibleTempSensors, i: nat) {
    && i < |sensors|
    && i < |temps|
    && sensors[i].Named?
    && (temps[i].Some? || visible.All?)
  }

  /** `render_temps`: pair names with readings up to the shorter list, and
      keep the rows of the channels that are shown, in channel order. */
  function Rows(sensors: seq<Model.Slot>, temps: seq<Option<Temp>>, visible: Model.VisibleTempSensors): (rows: seq<Row>)
    ensures |rows| <= |sensors| && |rows| <= |temps|
    decreases |sensors|
  {
    if |sensors| == 0 || |temps| == 0 then []
    else
      var rest := Rows(sensors[1..], temps[1..], visible);
      match RowFor(sensors[0], temps[0], visible)
      case Some(row) => [row] + rest
      case None => rest
  }

  /** Every row belongs to a shown channel and carries that channel's name
      and reading. */
  lemma {:induction false} RowsSound(sensors: seq<Model.Slot>, temps: seq<Option<Temp>>, visible: Model.VisibleTempSensors, k: nat)
    requires k < |Rows(sensors, temps, visible)|
    ensures exists i: nat :: Shown(sensors, temps, visible, i)
              && Rows(sensors, temps, visible)[k] == Row(sensors[i].name, temps[i])
    decreases |sensors|
  {
    var rest := Rows(sensors[1..], temps[1..], visible);
    var head := RowFor(sensors[0], temps[0], visible);
    if head.Some? && k == 0 {
      assert Shown(sensors, temps, visible, 0);
    } else {
      var k' := if head.Some? then k - 1 else k;
      assert Rows(sensors, temps, visible)[k] == rest[k'];
      RowsSound(sensors[1..], temps[1..], visible, k');
      var i: nat :| Shown(sensors[1..], temps[1..], visible, i) && rest[k'] == Row(sensors[1..][i].name, temps[1..][i]);
      assert Shown(sensors, temps, visible, i + 1);
    }
  }

  /** Every shown channel has its row in the list. */
  lemma {:induction false} RowsComplete(sensors: seq<Model.Slot>, temps: seq<Option<Temp>>, visible: Model.VisibleTempSensors, i: nat)
    requires Shown(sensors, temps, visible, i)
    ensures Row(sensors[i].name, temps[i]) in Rows(sensors, temps, visible)
    decreases |sensors|
  {
    if i > 0 {
      assert Shown(sensors[1..], temps[1..], visible, i - 1);
      RowsComplete(sensors[1..], temps[1..], visible, i - 1);
    }
  }

  /** Under "active" every row has a reading. */
  lemma RowsByVisibility(sensors: seq<Model.Slot>, temps: seq<Option<Temp>>, visible: Model.VisibleTempSensors, k: nat)
    requires k < |Rows(sensors, temps, visible)|
    ensures visible.Active? ==> Rows(sensors, temps, visible)[k].reading.Some?
  {
    RowsSound(sensors, temps, visible, k);
  }

  /** `render_temps` on the state: the rows when the temperatures were read,
      otherwise the error, which is taken out of the state and replaced by an
      empty list of readings. */
  function RenderTemps(s: Model.State): (r: (Result<seq<Row>, Error>, Model.State))
    ensures r.0.Err? <==> s.temps.Err?
    ensures r.0.Err? ==> r.0.error == s.temps.error && r.1 == s.(temps := Ok([]))
    ensures r.0.Ok? ==> r.1 == s && r.0.value == Rows(s.config.sensors, s.temps.value, s.visibleTempSensors)
  {
    match s.temps
    case Ok(ts) => (Ok(Rows(s.config.sensors, ts, s.visibleTempSensors)), s)
    case Err(e) => (Err(e), s.(temps := Ok([])))
  }

  /** Once the error has been taken out, rendering again succeeds with no
      rows. The main loop never does this (it quits on the first error), so
      this only shows that the error is not reported twice. */
  lemma RenderAfterError(s: Model.State)
    requires s.temps.Err?
    ensures RenderTemps(RenderTemps(s).1).0 == Ok([])
  {
  }

  // ---------------------------------------------------------------------------
  // The manual level list

  /** The levels offered in manual mode, in the order shown. */
  const AllDesiredManualFanLevels: seq<Model.DesiredManualFanLevel> := [
    Model.Firmware(Zero), Model.Firmware(One), Model.Firmware(Two), Model.Firmware(Three),
    Model.Firmware(Four), Model.Firmware(Five), Model.Firmware(Six), Model.Firmware(Seven),
    Model.FullSpeed]

  /** `Iterator::position`: the first index holding `x`. */
  function Position<T(==)>(s: seq<T>, x: T): (r: Option<nat>)
    ensures r.None? <==> x !in s
    ensures r.Some? ==> r.value < |s| && s[r.value] == x && x !in s[..r.value]
    decreases |s|
  {
    if |s| == 0 then None
    else if s[0] == x then Some(0)
    else match Position(s[1..], x)
      case None => None
      case Some(i) =>
        assert s[..i + 1] == [s[0]] + s[1..][..i];
        Some(i + 1)
  }

  /** Where a level sits in the list: firmware levels by ordinal, full speed
      last. */
  function ListIndex(d: Model.DesiredManualFanLevel): (i: nat)
    ensures i < |AllDesiredManualFanLevels| && AllDesiredManualFanLevels[i] == d
  {
    match d
    case Firmware(l) => Ordinal(l)
    case FullSpeed => 8
  }

  /** Every entry of the list sits at its own index, so no level is listed
      twice. */
  lemma ListIndexOfEntry(i: nat)
    requires i < |AllDesiredManualFanLevels|
    ensures ListIndex(AllDesiredManualFanLevels[i]) == i
  {
  }

  /** No level is listed twice. */
  lemma ListDistinct(i: nat, j: nat)
    requires i < j < |AllDesiredManualFanLevels|
    ensures AllDesiredManualFanLevels[i] != AllDesiredManualFanLevels[j]
  {
    ListIndexOfEntry(i);
    ListIndexOfEntry(j);
  }

  /** Looking up the current selection in the list always succeeds and finds
      that level, at its own index. */
  lemma AllLevelsListed(d: Model.DesiredManualFanLevel)
    ensures Position(AllDesiredManualFanLevels, d) == Some(ListIndex(d))
  {
    var p := Position(AllDesiredManualFanLevels, d);
    assert AllDesiredManualFanLevels[ListIndex(d)] == d;
    ListIndexOfEntry(p.value);
  }
}
