/**
  The METAR sensor entity: its configuration, what it shows, and one poll of
  the weather service. The transport, the METAR grammar and logging are
  outside the model: the fetch and the parser are parameters.
 */
module MetarSensor {
  import opened Wrappers
  import opened StringOps
  import opened Bulletin
  import opened ParsedReport

  /** What the service returned for one request: a failure, or the body split into lines. */
  datatype Fetched = FetchFailed | Body(lines: seq<RawLine>)

  /** A sensor: its fixed configuration and the readings it shows. */
  datatype Sensor<+T, +W> = Sensor(
    name: string,
    airportCode: string,
    monitored: seq<string>,
    readings: Readings<T, W>)

  /** The configuration a poll never changes. */
  ghost predicate SameConfig<T, W>(a: Sensor<T, W>, b: Sensor<T, W>) {
    a.name == b.name && a.airportCode == b.airportCode && a.monitored == b.monitored
  }

  /** Attribute keys only within the labels of the monitored conditions. */
  ghost predicate KeysMonitored<T, W>(s: Sensor<T, W>) {
    s.readings.attributes.Keys <= LabelsOf(s.monitored)
  }

  /** A newly configured sensor: no state and no attributes yet. */
  function Init<T, W>(name: string, airportCode: string, monitored: seq<string>): (s: Sensor<T, W>)
    ensures s.name == name && s.airportCode == airportCode && s.monitored == monitored
    ensures s.readings.state.None? && |s.readings.attributes| == 0
    ensures Coherent(s.readings) && KeysMonitored(s)
  {
    Sensor(name, airportCode, monitored, Readings(None, map[]))
  }

  /**
    One poll: fetch the airport's bulletin, find the first report line, parse
    it and record the monitored conditions. A failed fetch, a read error before
    the report line, a body without a report line and a parser error all leave
    the sensor as it was.
   */
  function Update<T, W>(
    s: Sensor<T, W>,
    base: string,
    fetch: string -> Fetched,
    parse: string -> Option<Report<T, W>>
  ): (s': Sensor<T, W>)
    ensures SameConfig(s, s')
    ensures s.readings.attributes.Keys <= s'.readings.attributes.Keys
    ensures s'.readings.attributes.Keys <= s.readings.attributes.Keys + LabelsOf(s.monitored)
    ensures s'.readings.state != s.readings.state ==>
      TemperatureCondition in s.monitored && s'.readings.state.Some?
    ensures Coherent(s.readings) ==> Coherent(s'.readings)
    ensures fetch(ReportUrl(base, s.airportCode)).FetchFailed? ==> s' == s
    ensures (fetch(ReportUrl(base, s.airportCode)).Body?
             && Scan(s.airportCode, fetch(ReportUrl(base, s.airportCode)).lines).ReadError?)
            ==> s' == s
  {
    match fetch(ReportUrl(base, s.airportCode))
    case FetchFailed => s
    case Body(lines) =>
      match Scan(s.airportCode, lines)
      case Matched(_, line) =>
        (match parse(line)
         case None => s
         case Some(r) => s.(readings := ParseReport(s.readings, s.monitored, r)))
      case _ => s
  }

  /** A poll looks at the service's answer for the airport's bulletin address and nothing else. */
  lemma UpdateReadsOnlyReportUrl<T, W>(
    s: Sensor<T, W>, base: string,
    fetch: string -> Fetched, fetch': string -> Fetched,
    parse: string -> Option<Report<T, W>>)
    requires fetch(ReportUrl(base, s.airportCode)) == fetch'(ReportUrl(base, s.airportCode))
    ensures Update(s, base, fetch, parse) == Update(s, base, fetch', parse)
  {
  }

  /**
    A line that cannot be read or decoded, reached before any report line,
    ends the poll with the sensor unchanged, whatever follows it.
   */
  lemma ReadErrorNoChange<T, W>(
    s: Sensor<T, W>, base: string, fetch: string -> Fetched, parse: string -> Option<Report<T, W>>,
    lines: seq<RawLine>, i: nat)
    requires fetch(ReportUrl(base, s.airportCode)) == Body(lines)
    requires i < |lines| && lines[i].Unreadable?
    requires forall j :: 0 <= j < i ==> PassedOver(s.airportCode, lines[j])
    ensures Update(s, base, fetch, parse) == s
  {
    ScanStopsAt(s.airportCode, lines, i);
  }

  /** A body with no readable report line leaves the sensor unchanged. */
  lemma NoReportLineNoChange<T, W>(
    s: Sensor<T, W>, base: string, fetch: string -> Fetched, parse: string -> Option<Report<T, W>>)
    requires fetch(ReportUrl(base, s.airportCode)).Body?
    requires forall j :: 0 <= j < |fetch(ReportUrl(base, s.airportCode)).lines| ==>
      var line := fetch(ReportUrl(base, s.airportCode)).lines[j];
      line.Text? ==> !IsReportLine(s.airportCode, line.text)
    ensures Update(s, base, fetch, parse) == s
  {
  }

  /**
    The first report line decides the poll: when every earlier line was read
    and is not a report line, the sensor records exactly what the parser makes
    of that line, stripped; when the parser fails, nothing changes.
   */
  lemma UpdateParsesFirstReportLine<T, W>(
    s: Sensor<T, W>, base: string, fetch: string -> Fetched, parse: string -> Option<Report<T, W>>,
    lines: seq<RawLine>, i: nat)
    requires fetch(ReportUrl(base, s.airportCode)) == Body(lines)
    requires i < |lines| && lines[i].Text? && IsReportLine(s.airportCode, lines[i].text)
    requires forall j :: 0 <= j < i ==> PassedOver(s.airportCode, lines[j])
    ensures parse(Strip(lines[i].text)).None? ==> Update(s, base, fetch, parse) == s
    ensures parse(Strip(lines[i].text)).Some? ==>
      Update(s, base, fetch, parse).readings
        == ParseReport(s.readings, s.monitored, parse(Strip(lines[i].text)).value)
  {
    ScanStopsAt(s.airportCode, lines, i);
  }

  /** Lines after the report line, whatever they hold, do not affect the poll. */
  lemma UpdateIgnoresLaterLines<T, W>(
    s: Sensor<T, W>, base: string,
    fetch: string -> Fetched, fetch': string -> Fetched,
    parse: string -> Option<Report<T, W>>,
    lines: seq<RawLine>, later: seq<RawLine>)
    requires fetch(ReportUrl(base, s.airportCode)) == Body(lines)
    requires fetch'(ReportUrl(base, s.airportCode)) == Body(lines + later)
    requires Scan(s.airportCode, lines).Matched?
    ensures Update(s, base, fetch', parse) == Update(s, base, fetch, parse)
  {
    ScanIgnoresLater(s.airportCode, lines, later);
  }

  /** A run of polls, one fetch result per poll, against the same service and parser. */
  function Run<T, W>(
    s: Sensor<T, W>,
    base: string,
    polls: seq<string -> Fetched>,
    parse: string -> Option<Report<T, W>>
  ): (s': Sensor<T, W>)
    ensures SameConfig(s, s')
    ensures s.readings.attributes.Keys <= s'.readings.attributes.Keys
    ensures s'.readings.attributes.Keys <= s.readings.attributes.Keys + LabelsOf(s.monitored)
    ensures s'.readings.state != s.readings.state ==> TemperatureCondition in s.monitored
    ensures Coherent(s.readings) ==> Coherent(s'.readings)
    decreases |polls|
  {
    if |polls| == 0 then s
    else Run(Update(s, base, polls[0], parse), base, polls[1..], parse)
  }

  /**
    From configuration on, whatever the polls return: the attribute keys are
    labels of monitored conditions (so only Temperature and Weather), and the
    state is None exactly while there is no Temperature attribute and equals
    it otherwise.
   */
  lemma SensorInvariant<T, W>(
    name: string, code: string, monitored: seq<string>,
    base: string, polls: seq<string -> Fetched>, parse: string -> Option<Report<T, W>>)
    ensures KeysMonitored(Run(Init(name, code, monitored), base, polls, parse))
    ensures Run(Init(name, code, monitored), base, polls, parse).readings.attributes.Keys
      <= {TemperatureKey, WeatherKey}
    ensures Coherent(Run(Init(name, code, monitored), base, polls, parse).readings)
  {
  }

  const ExampleCode: string := "KXYZ"
  const ExampleStamp: string := "2026/10/10 19:51"
  const ExampleReport: string := ExampleCode + " 291951Z 10008KT 10SM 21/15 A3000"

  /** The example bulletin: a timestamp line, then the station's report ending in a newline. */
  function ExampleLines(): seq<RawLine> {
    [Text(ExampleStamp), Text(ExampleReport + "\n")]
  }

  /** The timestamp line of the example bulletin is not a report line. */
  lemma ExampleStampIsNoReport()
    ensures !IsReportLine(ExampleCode, ExampleStamp)
  {
    StripPadded("", ExampleStamp, "");
    assert "" + ExampleStamp + "" == ExampleStamp;
    assert ExampleStamp[0] != ExampleCode[0];
  }

  /** The report line of the example bulletin strips to the report, which starts with the code. */
  lemma ExampleReportLine()
    ensures Strip(ExampleReport + "\n") == ExampleReport
    ensures IsReportLine(ExampleCode, ExampleReport + "\n")
  {
    StripPadded("", ExampleReport, "\n");
    assert "" + ExampleReport + "\n" == ExampleReport + "\n";
    assert StartsWith(ExampleReport, ExampleCode);
  }

  /** In the example bulletin the scan skips the timestamp and hands over the report, stripped. */
  lemma ExampleScan(lines: seq<RawLine>)
    requires lines == ExampleLines()
    ensures Scan(ExampleCode, lines) == Matched(1, ExampleReport)
  {
    ExampleStampIsNoReport();
    ExampleReportLine();
    assert lines[0] == Text(ExampleStamp);
    assert lines[1] == Text(ExampleReport + "\n");
    ScanStopsAt(ExampleCode, lines, 1);
  }

  /**
    The example bulletin, with only the temperature monitored, from a service
    that returns it at the airport's address and a parser that reads 21 degrees
    and no weather from the report: the state and the Temperature attribute
    become 21.
   */
  lemma ExampleBulletin(
    base: string, fetch: string -> Fetched, parse: string -> Option<Report<int, string>>)
    requires fetch(ReportUrl(base, ExampleCode)) == Body(ExampleLines())
    requires parse(ExampleReport) == Some(Report(Found(21), Missing))
    ensures Update(Init("Example", ExampleCode, [TemperatureCondition]), base, fetch, parse).readings
      == Readings(Some(21), map[TemperatureKey := TempAttr(21)])
  {
    var s0: Sensor<int, string> := Init("Example", ExampleCode, [TemperatureCondition]);
    ExampleScan(ExampleLines());
    assert Update(s0, base, fetch, parse).readings
      == ParseReport(s0.readings, s0.monitored, Report(Found(21), Missing));
    DefaultConditionsRecordTemperature(s0.readings, Report(Found(21), Missing));
  }
}
