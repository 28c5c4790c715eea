/** Reading the temperature channels and the fan, and commanding the fan,
    through the hwmon files of the thinkpad driver (`src/acpi.rs`). */
module Acpi {
  import opened Wrappers
  import opened Errors
  import opened Decimal
  import opened Sysfs
  import opened Firmware

  /** A temperature, in the millidegrees Celsius a `temp*_input` file reports. */
  type Temp = int

  datatype TempScale = Celsius | Fahrenheit

  /** The fan control mode as the driver reports and accepts it. */
  datatype FanLevel = Auto | Firmware(level: FirmwareLevel) | FullSpeed

  /** The reading of one temperature channel (0-based `i`, file
      `temp{i+1}_input`): a value, `None` when the kernel reports the channel
      absent (ENXIO), or the error that aborts the whole scan. */
  function ChannelRead(files: Files, i: nat): (r: Result<Option<Temp>, Error>)
    ensures r == Ok(None) <==> ReadLine(files, TempInput(i + 1)) == Err(Io(NoDevice))
    ensures r.Ok? && r.value.Some? <==> ReadLine(files, TempInput(i + 1)).Ok?
    ensures r.Ok? && r.value.Some? ==> r.value.value == ReadLine(files, TempInput(i + 1)).value
    ensures r.Err? ==> r.error != Io(NoDevice) && ReadLine(files, TempInput(i + 1)) == Err(r.error)
  {
    match ReadLine(files, TempInput(i + 1))
    case Ok(v) => Ok(Some(v))
    case Err(e) => if e == Io(NoDevice) then Ok(None) else Err(e)
  }

  /** A channel whose input file does not exist is not an absent channel: the
      open fails with "not found" rather than ENXIO, and that aborts the scan. */
  lemma MissingChannelAborts(files: Files, i: nat)
    requires TempInput(i + 1) !in files
    ensures ChannelRead(files, i) == Err(Io(NotFound))
  {
  }

  /** The scan of `read_temps` stopped at channel `k` with error `e`: channels
      `from` to `k - 1` were read into `after`, while channel `k` and all later
      slots still hold what they held in `before`. */
  predicate AbortsAt(files: Files, before: seq<Option<Temp>>, after: seq<Option<Temp>>,
                     from: nat, k: nat, e: Error)
    requires |before| == |after|
  {
    && from <= k < |before|
    && ChannelRead(files, k) == Err(e)
    && (forall j :: from <= j < k ==> ChannelRead(files, j).Ok? && after[j] == ChannelRead(files, j).value)
    && (forall j :: k <= j < |before| ==> after[j] == before[j])
  }

  /** `read_temps` from channel `from` on: the slots are updated in index order
      and the first channel whose read fails (other than as absent) ends the
      scan with that error. */
  function ReadTempsFrom(files: Files, temps: seq<Option<Temp>>, from: nat)
    : (r: (seq<Option<Temp>>, Result<(), Error>))
    requires from <= |temps|
    ensures |r.0| == |temps|
    ensures forall j :: 0 <= j < from ==> r.0[j] == temps[j]
    ensures r.1.Ok? <==> forall j :: from <= j < |temps| ==> ChannelRead(files, j).Ok?
    ensures r.1.Ok? ==> forall j :: from <= j < |temps| ==> r.0[j] == ChannelRead(files, j).value
    ensures r.1.Err? ==> exists k :: AbortsAt(files, temps, r.0, from, k, r.1.error)
    decreases |temps| - from
  {
    if from == |temps| then (temps, Ok(()))
    else match ChannelRead(files, from)
      case Err(e) =>
        assert AbortsAt(files, temps, temps, from, from, e);
        (temps, Err(e))
      case Ok(slot) =>
        var r := ReadTempsFrom(files, temps[from := slot], from + 1);
        if r.1.Err? then
          var k :| AbortsAt(files, temps[from := slot], r.0, from + 1, k, r.1.error);
          assert AbortsAt(files, temps, r.0, from, k, r.1.error);
          r
        else
          r
  }

  /** `read_temps`: every slot, in index order. */
  function ReadTemps(files: Files, temps: seq<Option<Temp>>): (r: (seq<Option<Temp>>, Result<(), Error>))
    ensures |r.0| == |temps|
    ensures r.1.Ok? <==> forall j :: 0 <= j < |temps| ==> ChannelRead(files, j).Ok?
    ensures r.1.Ok? ==> forall j :: 0 <= j < |temps| ==> r.0[j] == ChannelRead(files, j).value
    ensures r.1.Err? ==> exists k :: AbortsAt(files, temps, r.0, 0, k, r.1.error)
  {
    ReadTempsFrom(files, temps, 0)
  }

  /** `read_temps(&mut temps).map(|()| temps)`: the refreshed readings, or the
      error; the partly updated slots of a failed scan are dropped. */
  function ReadTempsInto(files: Files, temps: seq<Option<Temp>>): (r: Result<seq<Option<Temp>>, Error>)
    ensures r.Ok? <==> forall j :: 0 <= j < |temps| ==> ChannelRead(files, j).Ok?
    ensures r.Ok? ==> |r.value| == |temps|
                      && forall j :: 0 <= j < |temps| ==> r.value[j] == ChannelRead(files, j).value
    ensures r.Err? ==> exists k :: 0 <= k < |temps| && FirstChannelError(files, k, r.error)
  {
    var (out, res) := ReadTemps(files, temps);
    if res.Ok? then Ok(out)
    else
      var k :| AbortsAt(files, temps, out, 0, k, res.error);
      assert FirstChannelError(files, k, res.error);
      Err(res.error)
  }

  /** Channel `k` is the first whose read fails, and it fails with `e`. */
  predicate FirstChannelError(files: Files, k: nat, e: Error)
  {
    && ChannelRead(files, k) == Err(e)
    && forall j :: 0 <= j < k ==> ChannelRead(files, j).Ok?
  }

  /** The fan mode part of `read_fan`: decode `pwm1_enable`, and for mode 1
      also `pwm1`. */
  function ReadFanLevel(files: Files): (r: Result<FanLevel, Error>)
    ensures r == Ok(Auto) <==> ReadLine(files, PwmEnable) == Ok(2)
    ensures r == Ok(FullSpeed) <==> ReadLine(files, PwmEnable) == Ok(0)
    ensures r.Ok? && r.value.Firmware? <==>
              ReadLine(files, PwmEnable) == Ok(1) && ReadLine(files, Pwm).Ok?
              && ReadLine(files, Pwm).value in HwmonCodes
    ensures r.Ok? && r.value.Firmware? ==> ReadLine(files, Pwm) == Ok(ToHwmonLevel(r.value.level))
    ensures ReadLine(files, PwmEnable).Err? ==> r == Err(ReadLine(files, PwmEnable).error)
    ensures ReadLine(files, PwmEnable) == Ok(1) && ReadLine(files, Pwm).Err? ==> r == Err(ReadLine(files, Pwm).error)
    ensures ReadLine(files, PwmEnable) == Ok(1) && ReadLine(files, Pwm).Ok?
            && ReadLine(files, Pwm).value !in HwmonCodes
            ==> r == Err(Msg(UnrecognizedHwmonLevel(ReadLine(files, Pwm).value)))
    ensures ReadLine(files, PwmEnable).Ok? && ReadLine(files, PwmEnable).value > 2
            ==> r == Err(Msg(UnrecognizedPwmMode(ReadLine(files, PwmEnable).value)))
  {
    match ReadLine(files, PwmEnable)
    case Err(e) => Err(e)
    case Ok(mode) =>
      if mode == 2 then Ok(Auto)
      else if mode == 1 then
        match ReadLine(files, Pwm)
        case Err(e) => Err(e)
        case Ok(code) =>
          match FromHwmonLevel(code)
          case Some(level) => Ok(Firmware(level))
          case None => Err(Msg(UnrecognizedHwmonLevel(code)))
      else if mode == 0 then Ok(FullSpeed)
      else Err(Msg(UnrecognizedPwmMode(mode)))
  }

  /** `read_fan`: the fan mode, then the speed from `fan1_input`. */
  function ReadFan(files: Files): (r: Result<(FanLevel, nat), Error>)
    ensures r.Ok? <==> ReadFanLevel(files).Ok? && ReadLine(files, FanInput).Ok?
    ensures r.Ok? ==> r.value == (ReadFanLevel(files).value, ReadLine(files, FanInput).value)
    ensures ReadFanLevel(files).Err? ==> r == Err(ReadFanLevel(files).error)
    ensures ReadFanLevel(files).Ok? && ReadLine(files, FanInput).Err?
            ==> r == Err(ReadLine(files, FanInput).error)
  {
    match ReadFanLevel(files)
    case Err(e) => Err(e)
    case Ok(level) =>
      match ReadLine(files, FanInput)
      case Ok(speed) => Ok((level, speed))
      case Err(e) => Err(e)
  }

  /** Mode 2 is decoded without looking at `pwm1`: whatever `pwm1` holds,
      the fan reads as `Auto`. */
  lemma AutoIgnoresPwm(files: Files, pwm: FileState)
    requires ReadLine(files, PwmEnable) == Ok(2)
    ensures ReadFan(files[Pwm := pwm]) == ReadFan(files)
    ensures ReadFanLevel(files) == Ok(Auto)
  {
    assert Lookup(files[Pwm := pwm], PwmEnable) == Lookup(files, PwmEnable);
    assert Lookup(files[Pwm := pwm], FanInput) == Lookup(files, FanInput);
  }

  /** `fan1_input` is read only once the mode decoded: a mode that fails to
      decode gives the same error whatever the speed file holds. */
  lemma SpeedReadAfterMode(files: Files, speed: FileState)
    requires ReadFanLevel(files).Err?
    ensures ReadFan(files[FanInput := speed]) == ReadFan(files)
  {
    assert Lookup(files[FanInput := speed], PwmEnable) == Lookup(files, PwmEnable);
    assert Lookup(files[FanInput := speed], Pwm) == Lookup(files, Pwm);
  }

  /** `write_fan`: the writes that put the fan in `level`, in the order issued. */
  function WriteFan(level: FanLevel): (w: seq<FileWrite>)
    ensures 1 <= |w| <= 2 && w[0].path == PwmEnable
    ensures w[0].text == match level case Auto => "2" case Firmware(_) => "1" case FullSpeed => "0"
    ensures ParseUnsigned(w[0].text, U32Limit) == Some(match level case Auto => 2 case Firmware(_) => 1 case FullSpeed => 0)
    ensures |w| == 2 <==> level.Firmware?
    ensures |w| == 2 ==> w[1].path == Pwm && w[1].text == Show(ToHwmonLevel(level.level))
                         && ParseUnsigned(w[1].text, U32Limit) == Some(ToHwmonLevel(level.level))
    ensures forall i :: 0 <= i < |w| ==> w[i].path != FanInput && !w[i].path.TempInput?
  {
    match level
    case Auto => [FileWrite(PwmEnable, "2")]
    case Firmware(l) =>
      ParseShow(ToHwmonLevel(l), U32Limit);
      [FileWrite(PwmEnable, "1"), FileWrite(Pwm, Show(ToHwmonLevel(l)))]
    case FullSpeed => [FileWrite(PwmEnable, "0")]
  }

  /** Writing a level and then reading the fan back gives that level, with the
      speed the files already reported. */
  lemma {:induction false} WriteThenReadFan(files: Files, level: FanLevel)
    ensures ReadFanLevel(ApplyWrites(files, WriteFan(level))) == Ok(level)
    ensures ReadLine(ApplyWrites(files, WriteFan(level)), FanInput) == ReadLine(files, FanInput)
    ensures ReadFan(ApplyWrites(files, WriteFan(level))) ==
              match ReadLine(files, FanInput)
              case Ok(speed) => Ok((level, speed))
              case Err(e) => Err(e)
  {
    var w := WriteFan(level);
    var after := ApplyWrites(files, w);
    ApplyWritesFrame(files, w, FanInput);
    match level
    case Auto =>
      ApplyWritesLast(files, w);
      ReadLineShow(after, PwmEnable, 2);
    case FullSpeed =>
      ApplyWritesLast(files, w);
      ReadLineShow(after, PwmEnable, 0);
    case Firmware(l) =>
      var code := ToHwmonLevel(l);
      ApplyWritesAppend(files, w[..1], w[1..]);
      assert w[..1] + w[1..] == w;
      var mid := ApplyWrites(files, w[..1]);
      ApplyWritesLast(files, w[..1]);
      ApplyWritesFrame(mid, w[1..], PwmEnable);
      ReadLineShow(after, PwmEnable, 1);
      ApplyWritesLast(mid, w[1..]);
      ReadLineShow(after, Pwm, code);
      HwmonLevelRoundTrip(l);
  }

  /** The two writes for a firmware level are not atomic: if the second one
      fails, the fan is left in mode 1 with the stale `pwm1` code. */
  lemma FirmwareWriteInterrupted(files: Files, l: FirmwareLevel, k: IoKind)
    ensures var r := ExecuteWrites(files, WriteFan(Firmware(l)), [Succeeds, CreateFails(k)]);
            && r.1 == Err(Io(k))
            && ReadLine(r.0, PwmEnable) == Ok(1)
            && Lookup(r.0, Pwm) == Lookup(files, Pwm)
  {
    var w := WriteFan(Firmware(l));
    var attempts := [Succeeds, CreateFails(k)];
    var r := ExecuteWrites(files, w, attempts);
    var j :| 0 <= j < |attempts| && FailsFirstAt(attempts, j)
             && r.0 == ApplyWrites(files, w[..j]) && r.1.error == AttemptError(attempts[j]);
    assert j == 1;
    ApplyWritesLast(files, w[..1]);
    ApplyWritesFrame(files, w[..1], Pwm);
    ReadLineShow(r.0, PwmEnable, 1);
  }

  /** `fan_is_writable`: try to write twice the update interval (in seconds) to
      the fan watchdog. A create refused for lack of permission means the fan is
      read-only; every other failure is an error. Returns the verdict and the
      writes performed. */
  function FanIsWritable(intervalSecs: nat, attempt: WriteAttempt): (r: (Result<bool, Error>, seq<FileWrite>))
    requires intervalSecs * 2 < U64Limit
    ensures r.0 == Ok(true) <==> attempt.Succeeds?
    ensures r.0 == Ok(false) <==> attempt == CreateFails(PermissionDenied)
    ensures r.0.Err? && attempt.CreateFails? ==> r.0.error != Io(PermissionDenied)
    ensures r.0.Err? ==> r.0.error == AttemptError(attempt)
    ensures |r.1| > 0 <==> r.0 == Ok(true)
    ensures r.0 == Ok(true) ==> |r.1| == 1 && r.1[0].path == FanWatchdog
                                && r.1[0].text == Show(2 * intervalSecs)
                                && ParseUnsigned(r.1[0].text, U64Limit) == Some(2 * intervalSecs)
  {
    match attempt
    case Succeeds =>
      ParseShow(intervalSecs * 2, U64Limit);
      (Ok(true), [FileWrite(FanWatchdog, Show(intervalSecs * 2))])
    case CreateFails(k) => if k == PermissionDenied then (Ok(false), []) else (Err(Io(k)), [])
    case WriteFails(k) => (Err(Io(k)), [])
  }
}
