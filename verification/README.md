# tpfancontrol-rs fan-control core in Dafny

This project models the decision and encoding logic of tpfancontrol-rs, a
terminal fan controller for ThinkPads. The controller reads temperatures and
the fan state from the `thinkpad_acpi` hwmon files. Each tick it writes a fan
level chosen by the user (BIOS, smart or manual mode).

The device files become a pure value: a map from path to "unreadable with
this I/O error" or "this text". Commands to the fan become an ordered list of
`(path, text)` writes. The modules follow the source files:

- `Firmware`: the eight firmware fan levels, their `pwm1` codes 0/36/72/109/145/182/218/255 and their one-digit display text.
- `Decimal`: Rust's `u32`/`usize` `parse` (an optional `+`, then decimal digits that fit the type) and `{}` formatting.
- `Sysfs`: device files, ordered writes with per-write outcomes, `BufRead::lines().next()`, and `read_line`.
- `Acpi`: per-channel temperature classification (value, absent on ENXIO, or an aborting error), `read_temps`, `read_fan`, `write_fan` and `fan_is_writable`.
- `Hwmon`: the search for the driver's directory under `/sys/class/hwmon`.
- `Sorting`: the stable `sort_by_key` on temperature.
- `Model`: `Config::deserialize`, `State::new`, `State::update_sensors` and the `Default` selections.
- `Control`: the main loop's per-tick fan-level decision, the `render_temps` row filter and the 9-entry manual level list.

Temperatures are integers, in the millidegrees Celsius a `temp*_input` file
reports. Threshold bounds use the same unit. Only their order matters to the
decision.

Behaviour worth noting in the program:

- The hwmon `name` file must read exactly `"thinkpad\n"`, with no trimming. The first match in listing order wins, even when several entries match (src/acpi.rs:218-219).
- The threshold table may hold equal temperatures. The stable sort keeps them in their order and rejects nothing (src/model.rs:100).
- Smart mode does not rise steadily with temperature. A reading at or below every bound gives full speed, while a reading just above the lowest bound gives that entry's level (src/main.rs:62-67).

## Model

| member | source | states |
|---|---|---|
| Firmware.ToHwmonLevel | src/acpi.rs:162-191 | each level's code is the table entry at its ordinal, at most 255 |
| Firmware.FromHwmonLevel | src/acpi.rs:175-187 | a code decodes iff it is one of the eight table codes, and then to the level that encodes to it |
| Firmware.HwmonLevelRoundTrip | src/acpi.rs:162-191 | decoding a level's code gives the level back |
| Firmware.HwmonLevelStrictlyIncreasing | src/acpi.rs:163-172 | codes rise strictly with the level, so distinct levels have distinct codes |
| Firmware.DisplayText | src/acpi.rs:194-207 | a level displays as the single digit of its ordinal |
| Decimal.ParseUnsigned | src/acpi.rs:247 | accepts exactly an optional '+' followed by at least one digit, with a value below the type's limit; the value is that of the digits, with or without the '+' |
| Decimal.ShowIsDigits | src/acpi.rs:123 | formatting gives a non-empty digit string with no sign and no leading zero, whose value is the number |
| Decimal.ParseShow | src/acpi.rs:121-124 | parsing the formatted text of any value of the type gives the value back |
| Decimal.ShowInjective | src/acpi.rs:123 | two numbers with the same text are equal |
| Sysfs.ApplyWritesFrame | src/acpi.rs:106-134 | a path no write names is unchanged |
| Sysfs.ApplyWritesLast | src/acpi.rs:106-134 | the path of the last write reads back that write's text |
| Sysfs.ApplyWritesAppend | src/acpi.rs:115-125 | two batches of writes one after the other equal their concatenation |
| Sysfs.ExecuteWrites | src/acpi.rs:106-134 | succeeds iff every attempt succeeds; otherwise stops at the first failed attempt, with exactly the earlier writes applied and that attempt's I/O error |
| Sysfs.FirstLine | src/acpi.rs:246 | the first line is a newline-free prefix of the text, and the whole text when it has no newline |
| Sysfs.FirstLineOf | src/acpi.rs:246 | a line followed by '\n' and anything reads back as that line |
| Sysfs.FirstLineOfCrLf | src/acpi.rs:246 | a line ended by "\r\n" reads back without the carriage return |
| Sysfs.ReadLine | src/acpi.rs:242-251 | open errors pass through, an empty file is "empty file"; otherwise a first line that parses as a u32 gives that value, and one that does not gives a parse error |
| Sysfs.ReadLineTerminated | src/acpi.rs:242-251 | a file holding the decimal text of a u32 followed by a newline and anything reads back as that number |
| Sysfs.ReadLineShow | src/acpi.rs:242-251 | a file holding the decimal text of a u32 reads back as that number |
| Acpi.ChannelRead | src/acpi.rs:3-14 | channel i reads `temp{i+1}_input`: a value, absent exactly when the read fails with ENXIO, otherwise the read's error |
| Acpi.MissingChannelAborts | src/acpi.rs:7-11 | a missing `temp{i+1}_input` is a not-found error that aborts the scan, not an absent channel |
| Acpi.ReadTempsFrom | src/acpi.rs:1-19 | slot count kept; succeeds iff every channel from `from` reads; the first failing channel stops the scan with earlier slots updated and later ones untouched |
| Acpi.ReadTemps | src/acpi.rs:1-19 | the same for the whole slot list, starting at channel 0 |
| Acpi.ReadTempsInto | src/model.rs:27-29 | the readings of every slot in channel order, or the error of the first failing channel |
| Acpi.ReadFanLevel | src/acpi.rs:71-81 | mode 2 is Auto, 0 is FullSpeed, 1 is the firmware level of the `pwm1` code; an unknown code or mode is its error; read errors pass through |
| Acpi.ReadFan | src/acpi.rs:71-86 | the level, then the speed from `fan1_input`; the speed is read only when the level decoded |
| Acpi.AutoIgnoresPwm | src/acpi.rs:72-74 | in mode 2 the contents of `pwm1` do not matter |
| Acpi.SpeedReadAfterMode | src/acpi.rs:72-83 | when the mode fails to decode, the contents of `fan1_input` do not matter |
| Acpi.WriteFan | src/acpi.rs:106-134 | one write to `pwm1_enable` first, of "2" for Auto, "1" for a firmware level and "0" for full speed; a second write to `pwm1`, holding the decimal text of the level's code, exactly for firmware levels; no other file is touched |
| Acpi.WriteThenReadFan | src/acpi.rs:106-134 | after the writes of any level, reading the fan gives that level and the unchanged speed |
| Acpi.FirmwareWriteInterrupted | src/acpi.rs:115-125 | if the `pwm1` write fails, the fan is left in mode 1 with the old `pwm1` contents |
| Acpi.FanIsWritable | src/acpi.rs:88-104 | true iff the watchdog write succeeds, and then it wrote the decimal text of twice the interval; false iff the create is refused for permission; any other failure is its I/O error |
| Hwmon.FindHwmon | src/acpi.rs:211-227 | none iff no entry's name reads exactly "thinkpad\n"; otherwise the first such entry, with unreadable entries skipped |
| Hwmon.NameWithoutNewlineRejected | src/acpi.rs:218 | a name of "thinkpad" without the newline does not match |
| Hwmon.FirstMatchWins | src/acpi.rs:212-219 | with several matches the first listed is chosen |
| Sorting.InsertByKey | src/model.rs:100 | inserting into a sorted list keeps it sorted and adds exactly that pair |
| Sorting.SortByKey | src/model.rs:100 | the result is sorted non-decreasing by temperature and is a permutation of the input |
| Sorting.SortSortedIsIdentity | src/model.rs:100 | an already sorted table is left as it is, equal temperatures in their order |
| Sorting.InsertAtEnd | src/model.rs:100 | a pair whose key is not below any key goes last, after equal keys |
| Model.PlaceSensor | src/model.rs:76-79 | the list grows to `index` slots if shorter and never shrinks; slot index-1 holds the name; every other slot keeps its old name or is unnamed |
| Model.FirstUnplaceable | src/model.rs:74-75 | the first pair whose key is not a usize of at least 1 |
| Model.PlaceSensors | src/model.rs:74-80 | succeeds iff every key is a usize of at least 1; otherwise the first bad key's error, "a sensor index" for a non-number |
| Model.PlacedLength | src/model.rs:70-79 | the list has exactly as many slots as the largest index, and none when there are no pairs |
| Model.PlacedNamed | src/model.rs:70-79 | a slot is named iff some key names it; every other slot is unnamed |
| Model.PlacedLast | src/model.rs:74-80 | a slot holds the name of the last pair naming it |
| Model.SensorPlacedAtIndex | src/model.rs:74-80 | with distinct indices, every key k has `sensors[k-1]` equal to its name |
| Model.ParseSelector | src/model.rs:84-94 | only "0".."7" and "full-speed" are accepted, and each stands for the level whose selector text it is |
| Model.SelectorRoundTrip | src/model.rs:84-94 | a string parses to a level iff it is that level's selector; a firmware level's display digit parses to that level |
| Model.ParseLevelEntry | src/model.rs:82-97 | a table entry fails on its key ("a temperature") before its value ("0-7 or full-speed"); otherwise it gives that bound and level |
| Model.ParseLevels | src/model.rs:82-98 | succeeds iff every entry parses, keeping order and count; otherwise the first bad entry's error |
| Model.Deserialize | src/model.rs:59-104 | sensor errors come first; when the sensors load, a table failure gives the first bad entry's error; on success the sensors are placed and the table is sorted and a permutation of the parsed entries |
| Model.NewState | src/model.rs:17-43 | one slot per configured sensor; temperature and fan read errors are kept in the state, the temperature error being the first failing channel's; only a watchdog failure other than permission fails start-up; defaults are Active/Celsius/Smart/FullSpeed |
| Model.UpdateSensors | src/model.rs:46-50 | a temperature error stays as it is; good slots keep their count and get fresh readings, or the first failing channel's error; the fan is re-read; nothing else changes |
| Model.RefreshKeepsShape | src/model.rs:46-50 | over any number of ticks a temperature error never clears, the slot count holds, and config and selections stay put |
| Control.ToFanLevel | src/main.rs:69-72 | never Auto; full speed iff full speed is asked for; a firmware level passes through unchanged |
| Control.ToFanLevelInjective | src/main.rs:83-86 | distinct requests give distinct fan levels |
| Control.MaxReading | src/main.rs:61 | none exactly for an empty list; otherwise a slot of the list at least every slot, with absent below every reading |
| Control.MaxReadingIsHottest | src/main.rs:61 | the maximum is reading m iff m is some channel's reading and no reading exceeds it |
| Control.MaxReadingWithoutReadings | src/main.rs:61-76 | the maximum is not a reading iff no channel has a reading |
| Control.SelectLevelSpec | src/main.rs:62-67 | the table's choice is the level of the last entry whose bound is strictly below m, and full speed when there is none |
| Control.SelectIgnoresEntryAtOrAbove | src/main.rs:63-66 | an entry whose bound is at least m can be removed without changing the choice |
| Control.ExampleSelections | src/main.rs:62-67 | for bounds 40/60/80 degrees: 65 gives level 5, exactly 60 gives level 2, 35 gives full speed |
| Control.SmartLevel | src/main.rs:59-81 | never Auto; full speed when the temperatures failed |
| Control.SmartLevelSpec | src/main.rs:59-81 | with hottest reading m the table's choice for m; with no reading at all, full speed |
| Control.DesiredFanLevel | src/main.rs:56-87 | Auto iff BIOS mode; manual passes the selection through; smart uses the table |
| Control.TickWrites | src/main.rs:56-90 | no write at all iff the fan is not writable; otherwise the writes for the desired level |
| Control.TickThenReadFan | src/main.rs:56-90 | after a tick's writes the fan reads back as the desired level; a read-only fan's files are untouched |
| Control.RowFor | src/main.rs:252-264 | a channel has a row iff it is named and has a reading or all sensors are shown; the row carries its name and reading |
| Control.Rows | src/main.rs:250-266 | never more rows than either list is long |
| Control.RowsSound | src/main.rs:250-266 | every row belongs to a named, paired channel that passes the filter, with its name and reading |
| Control.RowsComplete | src/main.rs:250-266 | every named, paired channel that passes the filter has its row in the list |
| Control.RowsByVisibility | src/main.rs:252-264 | under "active" every row has a reading |
| Control.RenderTemps | src/main.rs:247-269 | an error iff the temperatures failed, returning that error and leaving an empty reading list; otherwise the rows, with the state unchanged |
| Control.RenderAfterError | src/main.rs:265-268 | once the error is taken out, rendering again gives no rows and no error (the main loop quits instead, main.rs:92-97) |
| Control.Position | src/main.rs:236 | the first index holding the value, and none iff it is absent |
| Control.ListIndex | src/main.rs:219-229 | every level sits in the list, firmware levels at their ordinal and full speed last |
| Control.ListIndexOfEntry | src/main.rs:219-229 | each entry sits at its own index |
| Control.ListDistinct | src/main.rs:219-229 | no level is listed twice |
| Control.AllLevelsListed | src/main.rs:236 | looking up any selection finds it at its own index, so the `unwrap` cannot fail |

## Left out

- File I/O, errno values and `read_dir` are replaced by the file map, the per-write outcome list and the directory entry list. The `unwrap` on `read_dir` is left out.
- The hwmon search's panic when nothing matches is the `None` result of `Hwmon.FindHwmon`. The path constants memoised by `lazy_static` are fixed `Path` constructors.
- Floating point is left out. The `/ 1000` conversion, `NotNaN<f64>` (and its panic on NaN), the Fahrenheit conversion and rounding are not modelled. The f64 parse of `fan_level` keys is an input: each key comes with its parsed bound or none.
- TOML and serde are left out, and so is the HashMap iteration order. The two tables are given as key/value pairs in the order visited. Two different keys naming the same sensor (for example "1" and "01") leave the last one visited, as `Model.PlacedLast` states.
- The program panics on a sensor key of 0 (`index - 1` underflows). The model turns this into a failed load with a `SensorIndexZero` error.
- Acpi.FanIsWritable: the u64 product `as_secs() * 2` is required not to overflow rather than modelled (it panics in a debug build and wraps in a release build); the program's only interval is 5 seconds, so it never overflows.
- Model.NewState: carries the same requirement on the interval, for the same reason.
- Model.PlaceSensors: allocation failure is not modelled. In the source, `resize(index, None)` panics with a capacity overflow or aborts when a key names an index too large to allocate (such as "18446744073709551615"). The model instead succeeds with that many slots, because memory limits are outside an unbounded model.
- Reading the configuration file in `State::new` is left out; the parsed `Config` is a parameter.
- `BufRead::lines` rejects invalid UTF-8; text is modelled as characters.
- The cursive UI is left out: layout, radio groups, `render_fan` and the window loop. The selections read back from the widgets are the `State` fields.
- Row text formatting is left out. A row carries the name and the reading, or none for "n/a".
- The `unwrap` on `write_fan` in the main loop is left out. `Control.TickWrites` gives the writes, and `Sysfs.ExecuteWrites` models their failure.
- A write that fails after its file was opened is modelled as leaving the file unchanged.
- Sorting.SortByKey: the contract states sortedness and permutation, not stability. Stability holds by construction; `Sorting.SortSortedIsIdentity` and `Sorting.InsertAtEnd` state its consequences for tables that are already sorted.
- Control.Rows: the contract states soundness and completeness of the row set and the length bound, not the order of rows. The definition keeps channel order.
- Error messages are structured values rather than formatted strings.
