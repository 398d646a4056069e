# METAR sensor — a Dafny model

This project models the update logic of a Home Assistant custom sensor that
shows an airport's METAR (routine aviation weather report). One poll of the sensor:

1. builds the bulletin address `BASE_URL + airport_code + ".TXT"`;
2. reads the response line by line. It decodes and strips each line, and stops
   at the first line that starts with the airport code;
3. hands that line to the METAR parser;
4. goes through the monitored condition names. `temperature` writes the
   `Temperature` attribute and the primary state. `weather` writes the
   `Weather` attribute. Every other name does nothing.

A missing report field (an `AttributeError`) skips only its condition. Any
other exception during the poll is logged and swallowed. Writes made before
such an exception are kept.

Files:

- `wrappers.dfy`: `Option`.
- `string_ops.dfy`: Python's `str.strip()`, using the code points of
  `str.isspace`, and `str.startswith`.
- `bulletin.dfy`: the bulletin address and its inverse. It also holds
  `SelectLine` (the first report line among decoded lines), `Scan` (the
  same over a response whose lines may fail to read or decode) and
  `ScanLines` (the loop with `break`).
- `report.dfy`: the condition dispatch of `_parse_report` over an abstract
  parsed report. It also gives a closed-form table of what the dispatch writes.
- `sensor.dfy`: the sensor record, its initial state, one poll (`Update`),
  and a run of polls (`Run`) with the invariants that hold across it.

Modelling choices:

- The parsed report is two field reads, `temp.value("C")` and
  `present_weather()`. Each read is `Found(v)`, `Missing` (an
  `AttributeError`) or `Raises` (any other exception). The temperature
  type `T` and the weather type `W` are opaque type parameters.
- The HTTP fetch is a function from an address to `FetchFailed` or a body of
  lines. Each line is `Text(s)` or `Unreadable` (a read or decode error). Taking
  the fetch as a function shows that a poll looks only at the bulletin address.
- The METAR parser is a function from the stripped line to `Some(report)`.
  It returns `None` when the parser raises.
- `BASE_URL` comes from `const.py`, which is not part of this model. The
  base address is a parameter.

Behaviour the model keeps as the code has it, although a reader might expect otherwise:

- There is no throttle and no cache. Every poll fetches.
- Attributes are never cleared or rebuilt. A field missing from a new report
  keeps the value of the last report that had it.
- Only `temperature` and `weather` write anything. `wind`, `pressure`,
  `visibility` and `sky` can be selected but write nothing.
- `str.startswith` with an empty airport code matches every line, so the
  first readable line is then the report line.

## Model

| member | source | states |
|---|---|---|
| MetarSensor.Init | custom_components/metar/sensor.py:23-28 | a new sensor keeps its configuration, has no state and an empty attribute map, and satisfies the key and state invariants from the start |
| Bulletin.ReportUrl | custom_components/metar/sensor.py:47 | the address is the base, then exactly the airport code, then `.TXT`, and nothing else |
| Bulletin.CodeOfReportUrl | custom_components/metar/sensor.py:47 | the airport code can be read back from the address built from it |
| Bulletin.ReportUrlOfCode | custom_components/metar/sensor.py:47 | every address of the bulletin shape is the one built from the code it names |
| Bulletin.ReportUrlInjective | custom_components/metar/sensor.py:47 | two different airports are never fetched from the same address |
| StringOps.IsSpace | custom_components/metar/sensor.py:51 | the characters `strip()` removes: tab, newline, carriage return and space are among them, and digits, letters and `/`, the characters of a report, are not |
| StringOps.StartsWith | custom_components/metar/sensor.py:52 | a line that starts with the code is at least as long as the code and shares its first character; the empty code starts every line |
| StringOps.StartsWithSlice | custom_components/metar/sensor.py:52 | `line.startswith(code)` holds exactly when the code is no longer than the line and equals the line's first characters |
| Bulletin.IsReportLine | custom_components/metar/sensor.py:51-52 | a report line is at least as long as the airport code; a code that begins with whitespace never matches, because stripping removes the line's leading whitespace; the empty code matches every line |
| StringOps.Strip | custom_components/metar/sensor.py:51 | the stripped line is no longer than the line, and is empty or starts and ends with a non-whitespace character |
| StringOps.StripRemovesSpaces | custom_components/metar/sensor.py:51 | stripping keeps one contiguous part of the line and removes only whitespace before and after it |
| StringOps.StripIdempotent | custom_components/metar/sensor.py:51 | stripping an already stripped line changes nothing |
| StringOps.StripPadded | custom_components/metar/sensor.py:51 | whitespace around a report, such as the line terminator, is removed and the report text is kept whole |
| StringOps.StripBlank | custom_components/metar/sensor.py:51 | a blank line strips to the empty string |
| Bulletin.SelectLine | custom_components/metar/sensor.py:50-55 | the index returned is a line that starts with the code after stripping, and no earlier line does; None means no line does |
| Bulletin.SelectLineFirst | custom_components/metar/sensor.py:50-55 | any index that is a report line with no report line before it is the selection, so the selection is unique |
| Bulletin.SelectLineIgnoresLater | custom_components/metar/sensor.py:50-55 | lines appended after a report line do not change the selection (first match wins) |
| Bulletin.SelectLineIgnoresEarlier | custom_components/metar/sensor.py:50-55 | non-report lines put in front only shift the index of the selected line, and a body without a report line stays without one |
| Bulletin.Scan | custom_components/metar/sensor.py:48-57 | the scan ends at the first line that fails to read or is a report line: it returns that report line stripped, or the read error, or no match when every line reads and none matches |
| Bulletin.ScanLines | custom_components/metar/sensor.py:50-55 | the loop with `break` computes the same outcome as the scan |
| Bulletin.ScanStopsAt | custom_components/metar/sensor.py:50-55 | when every earlier line reads and is not a report line, the scan stops at a given unreadable line or report line |
| Bulletin.ScanIgnoresLater | custom_components/metar/sensor.py:50-55 | after the report line has been found, later lines, even unreadable ones, do not change the outcome |
| Bulletin.ScanIgnoresEarlier | custom_components/metar/sensor.py:50-55 | lines the scan reads past (readable and not report lines) put in front only shift the index where the scan stops: the same report text is parsed, a read error stays a read error, and no match stays no match |
| Bulletin.ScanNoMatch | custom_components/metar/sensor.py:50-55 | when every line reads and none is a report line, the scan finds no match |
| Bulletin.ScanReadable | custom_components/metar/sensor.py:50-55 | on a response whose lines all decode, the scan parses exactly the line that SelectLine picks |
| ParsedReport.LabelsOf | custom_components/metar/sensor.py:61-68 | the only attribute keys are Temperature and Weather, each present exactly when its condition name is monitored |
| ParsedReport.ApplyCondition | custom_components/metar/sensor.py:62-70 | one condition stops the loop exactly when its field read raises something other than AttributeError; otherwise it adds exactly its own label when the field is present, and keeps state and Temperature in step |
| ParsedReport.ParseReport | custom_components/metar/sensor.py:59-70 | attributes are only added or overwritten, never removed; new keys are labels of monitored conditions; the state changes only to the report's temperature when temperature is monitored |
| ParsedReport.Cut | custom_components/metar/sensor.py:61-70 | locates the first monitored condition whose read escapes the per-condition handler |
| ParsedReport.TableStep | custom_components/metar/sensor.py:62-68 | handling one condition and then recording the rest in the table gives the same readings as recording all of them in the table |
| ParsedReport.ParseReportIsTable | custom_components/metar/sensor.py:59-70 | the dispatch equals the condition table applied to the conditions before the first escaping exception, with the earlier writes kept |
| ParsedReport.ParseReportCompletes | custom_components/metar/sensor.py:61-70 | when no read escapes, every monitored condition is processed |
| ParsedReport.TemperatureRecorded | custom_components/metar/sensor.py:61-65 | when temperature is monitored, is reached before any escaping exception and is present in the report, the state and the Temperature attribute both equal the report's Celsius temperature |
| ParsedReport.WeatherRecorded | custom_components/metar/sensor.py:61-67 | when weather is monitored, is reached before any escaping exception and is present in the report, the Weather attribute holds it, even when the temperature is missing |
| ParsedReport.DefaultConditionsRecordTemperature | custom_components/metar/sensor.py:61-65 | with the default list of monitored conditions, a present temperature becomes the state and the Temperature attribute, and no other attribute changes, whatever the weather read would do |
| ParsedReport.MissingTemperatureKeepsPrevious | custom_components/metar/sensor.py:62-70 | a missing temperature leaves the state and the Temperature attribute as they were |
| ParsedReport.MissingWeatherKeepsPrevious | custom_components/metar/sensor.py:66-70 | a missing weather field leaves the Weather attribute as it was |
| ParsedReport.ParseReportFrame | custom_components/metar/sensor.py:61-68 | attributes outside the labels of the monitored conditions keep their values |
| ParsedReport.OtherConditionsInert | custom_components/metar/sensor.py:63-68 | a list without temperature and weather, such as wind, pressure, visibility and sky, changes nothing |
| ParsedReport.ParseReportIdempotent | custom_components/metar/sensor.py:59-70 | parsing the same report a second time changes nothing |
| ParsedReport.ParseReportOrderFree | custom_components/metar/sensor.py:61-68 | when no read escapes, the order and repetition of monitored names do not matter |
| MetarSensor.Update | custom_components/metar/sensor.py:45-57 | a poll keeps the configuration, never removes an attribute, adds only labels of monitored conditions, changes the state only through a monitored temperature, and keeps state and Temperature in step; a failed fetch, or a read or decode error before the report line, leaves the sensor unchanged |
| MetarSensor.ReadErrorNoChange | custom_components/metar/sensor.py:48-57 | a line that cannot be read or decoded, reached before any report line, leaves the sensor unchanged whatever follows it |
| MetarSensor.UpdateReadsOnlyReportUrl | custom_components/metar/sensor.py:47-49 | the poll depends only on what the service returns for the airport's bulletin address |
| MetarSensor.NoReportLineNoChange | custom_components/metar/sensor.py:48-57 | a body in which no readable line is a report line leaves the sensor unchanged |
| MetarSensor.UpdateParsesFirstReportLine | custom_components/metar/sensor.py:50-55 | the poll records exactly the parse of the first report line, stripped; a parser error leaves the sensor unchanged |
| MetarSensor.UpdateIgnoresLaterLines | custom_components/metar/sensor.py:50-55 | lines after the report line do not affect the poll |
| MetarSensor.Run | custom_components/metar/sensor.py:45-70 | over any run of polls the configuration is fixed, attributes are never removed, new keys are labels of monitored conditions, and state and Temperature stay in step |
| MetarSensor.SensorInvariant | custom_components/metar/sensor.py:23-70 | from configuration on, the keys are only Temperature and Weather, and only for monitored conditions; the state is None exactly while there is no Temperature attribute, and equals it otherwise |
| MetarSensor.ExampleScan | custom_components/metar/sensor.py:50-55 | on a bulletin of a timestamp line and a report line, the timestamp is read past and the report line is picked with its line terminator stripped |
| MetarSensor.ExampleBulletin | custom_components/metar/sensor.py:45-65 | for any service that returns that bulletin and any parser that reads 21 degrees and no weather from its report line, the first poll of a new sensor with the default conditions makes 21 the state and the only attribute |

## Left out

- The HTTP transport (`urlopen`) is left out because it is I/O. The model
  has a fetch function that returns `FetchFailed` or a body of lines.
- Byte decoding is left out. A line is decoded text, or `Unreadable` when
  reading or decoding it fails.
- The METAR grammar (`Metar.Metar`) and the accessors `temp.value("C")` and
  `present_weather()` are left out. They belong to an external library. The
  parser is a function parameter, and the reads are `Lookup` values. The
  temperature is an opaque type, because the library uses a float.
- The `BASE_URL` constant is left out because `const.py` is not part of
  this model. The base address is a parameter.
- Logging is left out. It has no effect on the state or the attributes.
- The `name` property is left out. It only shows the configured name with
  the prefix `METAR ` and plays no part in a poll.
- The `state` and `extra_state_attributes` properties are left out. They are
  getters of fields that the `Sensor` record exposes directly.
- `async_setup_entry` in `sensor.py`, all of `__init__.py` and the config
  flow are left out. They are host-platform wiring. The config flow's only
  logic is the default `["temperature"]` for the monitored conditions.
- No throttle or cache is modelled, because this code has none.
