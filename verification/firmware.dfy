/** The eight fan speeds the embedded controller offers (`FanFirmwareLevel`)
    and the fixed, non-linear `pwm1` code that stands for each. */
module Firmware {
  import opened Wrappers

  datatype FirmwareLevel = Zero | One | Two | Three | Four | Five | Six | Seven

  /** The codes `pwm1` holds for the eight levels, slowest first. */
  const HwmonCodes: seq<nat> := [0, 36, 72, 109, 145, 182, 218, 255]

  /** The position of a level among the eight, 0 for the slowest. */
  function Ordinal(level: FirmwareLevel): (n: nat)
    ensures n < 8
  {
    match level
    case Zero => 0
    case One => 1
    case Two => 2
    case Three => 3
    case Four => 4
    case Five => 5
    case Six => 6
    case Seven => 7
  }

  /** `to_hwmon_level`: the code `pwm1` holds while the fan runs at `level`. */
  function ToHwmonLevel(level: FirmwareLevel): (code: nat)
    ensures code == HwmonCodes[Ordinal(level)]
    ensures code <= 255
  {
    match level
    case Zero => 0
    case One => 36
    case Two => 72
    case Three => 109
    case Four => 145
    case Five => 182
    case Six => 218
    case Seven => 255
  }

  /** `from_hwmon_level`: the level a `pwm1` code stands for. Only the eight
      table codes are recognised; every other code is refused, not rounded to
      a nearby level. */
  function FromHwmonLevel(code: nat): (r: Option<FirmwareLevel>)
    ensures r.Some? <==> code in HwmonCodes
    ensures r.Some? ==> ToHwmonLevel(r.value) == code
  {
    if code == 0 then Some(Zero)
    else if code == 36 then Some(One)
    else if code == 72 then Some(Two)
    else if code == 109 then Some(Three)
    else if code == 145 then Some(Four)
    else if code == 182 then Some(Five)
    else if code == 218 then Some(Six)
    else if code == 255 then Some(Seven)
    else None
  }

  /** Encoding a level and decoding its code gives the level back. */
  lemma HwmonLevelRoundTrip(level: FirmwareLevel)
    ensures FromHwmonLevel(ToHwmonLevel(level)) == Some(level)
  {
  }

  /** Distinct levels have distinct codes, and the codes rise with the level. */
  lemma HwmonLevelStrictlyIncreasing(a: FirmwareLevel, b: FirmwareLevel)
    ensures Ordinal(a) < Ordinal(b) <==> ToHwmonLevel(a) < ToHwmonLevel(b)
    ensures a == b <==> ToHwmonLevel(a) == ToHwmonLevel(b)
  {
  }

  /** The `Display` text of a level: its ordinal as one digit. */
  function DisplayText(level: FirmwareLevel): (s: string)
    ensures |s| == 1 && '0' <= s[0] <= '7'
    ensures s[0] as int - '0' as int == Ordinal(level)
  {
    match level
    case Zero => "0"
    case One => "1"
    case Two => "2"
    case Three => "3"
    case Four => "4"
    case Five => "5"
    case Six => "6"
    case Seven => "7"
  }
}
