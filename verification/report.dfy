/**
  The condition dispatch of `_parse_report`: each monitored condition name
  copies one field of the parsed report into the sensor's attributes, and the
  temperature also becomes the sensor's state.

  The parsed report comes from an external METAR library; here it is the two
  field reads the dispatch performs, each of which can succeed, fail with an
  `AttributeError` (the field is missing) or fail with any other exception.
  T is the library's temperature value in degrees Celsius and W its
  present-weather value; both stay opaque.
 */
module ParsedReport {
  import opened Wrappers

  const TemperatureCondition: string := "temperature"
  const WeatherCondition: string := "weather"
  const TemperatureKey: string := "Temperature"
  const WeatherKey: string := "Weather"

  /** The outcome of reading one field of the parsed report. */
  datatype Lookup<+V> =
    | Found(value: V)
    | Missing  // AttributeError: this condition is skipped, the others go on
    | Raises   // any other exception: it leaves the dispatch, which stops there

  /** The two field reads the dispatch makes: `temp.value("C")` and `present_weather()`. */
  datatype Report<+T, +W> = Report(temp: Lookup<T>, presentWeather: Lookup<W>)

  /** A value stored in the attribute map. */
  datatype AttrValue<+T, +W> = TempAttr(celsius: T) | WeatherAttr(weather: W)

  /** What the sensor shows: its primary state and its extra attributes. */
  datatype Readings<+T, +W> = Readings(state: Option<T>, attributes: map<string, AttrValue<T, W>>)

  /** The attribute keys a list of condition names can ever write. */
  function LabelsOf(conds: seq<string>): (keys: set<string>)
    ensures keys <= {TemperatureKey, WeatherKey}
    ensures TemperatureKey in keys <==> TemperatureCondition in conds
    ensures WeatherKey in keys <==> WeatherCondition in conds
  {
    (if TemperatureCondition in conds then {TemperatureKey} else {})
    + (if WeatherCondition in conds then {WeatherKey} else {})
  }

  /** Reading the field for condition `c` raises an exception other than AttributeError. */
  predicate Faults<T, W>(c: string, r: Report<T, W>) {
    || (c == TemperatureCondition && r.temp.Raises?)
    || (c == WeatherCondition && r.presentWeather.Raises?)
  }

  /** The state the primary value and the Temperature attribute keep in step. */
  ghost predicate Coherent<T, W>(rd: Readings<T, W>) {
    && (rd.state.None? <==> TemperatureKey !in rd.attributes)
    && (rd.state.Some? ==> rd.attributes[TemperatureKey] == TempAttr(rd.state.value))
  }

  /** The result of handling one condition: the readings so far, or an escaping exception. */
  datatype Step<+T, +W> = Next(readings: Readings<T, W>) | Halt

  /** One pass of the loop body of `_parse_report` for condition `c`. */
  function ApplyCondition<T, W>(rd: Readings<T, W>, c: string, r: Report<T, W>): (s: Step<T, W>)
    ensures s.Halt? <==> Faults(c, r)
    ensures s.Next? ==> s.readings.attributes.Keys == rd.attributes.Keys + LabelsOf([c]) * WrittenKeys(r)
    ensures s.Next? && Coherent(rd) ==> Coherent(s.readings)
  {
    if c == TemperatureCondition then
      match r.temp
      case Found(t) => Next(Readings(Some(t), rd.attributes[TemperatureKey := TempAttr(t)]))
      case Missing => Next(rd)
      case Raises => Halt
    else if c == WeatherCondition then
      match r.presentWeather
      case Found(w) => Next(rd.(attributes := rd.attributes[WeatherKey := WeatherAttr(w)]))
      case Missing => Next(rd)
      case Raises => Halt
    else Next(rd)
  }

  /** The keys whose fields the report holds. */
  function WrittenKeys<T, W>(r: Report<T, W>): set<string> {
    (if r.temp.Found? then {TemperatureKey} else {})
    + (if r.presentWeather.Found? then {WeatherKey} else {})
  }

  /**
    `_parse_report`: the monitored conditions handled in order. A missing field
    skips its condition; any other exception stops the loop and keeps what was
    written before it, because nothing rolls back.
   */
  function ParseReport<T, W>(rd: Readings<T, W>, conds: seq<string>, r: Report<T, W>): (rd': Readings<T, W>)
    ensures rd.attributes.Keys <= rd'.attributes.Keys
    ensures rd'.attributes.Keys <= rd.attributes.Keys + LabelsOf(conds)
    ensures rd'.state != rd.state ==>
      TemperatureCondition in conds && r.temp.Found? && rd'.state == Some(r.temp.value)
    ensures Coherent(rd) ==> Coherent(rd')
    decreases |conds|
  {
    if |conds| == 0 then rd
    else
      match ApplyCondition(rd, conds[0], r)
      case Halt => rd
      case Next(rd1) => ParseReport(rd1, conds[1..], r)
  }

  /** Index of the first condition whose field read raises, or |conds| when none does. */
  function Cut<T, W>(conds: seq<string>, r: Report<T, W>): (k: nat)
    ensures k <= |conds|
    ensures forall j :: 0 <= j < k ==> !Faults(conds[j], r)
    ensures k < |conds| ==> Faults(conds[k], r)
  {
    if |conds| == 0 || Faults(conds[0], r) then 0 else 1 + Cut(conds[1..], r)
  }

  /**
    The condition-to-attribute table read as a whole: the attributes the listed
    conditions record when the report has their fields.
   */
  function Written<T, W>(conds: seq<string>, r: Report<T, W>): map<string, AttrValue<T, W>> {
    TemperatureEntry(conds, r) + WeatherEntry(conds, r)
  }

  /** The table entry for the temperature: the Temperature attribute when monitored and present. */
  function TemperatureEntry<T, W>(conds: seq<string>, r: Report<T, W>): map<string, AttrValue<T, W>> {
    if TemperatureCondition in conds && r.temp.Found?
    then map[TemperatureKey := TempAttr(r.temp.value)] else map[]
  }

  /** The table entry for the weather: the Weather attribute when monitored and present. */
  function WeatherEntry<T, W>(conds: seq<string>, r: Report<T, W>): map<string, AttrValue<T, W>> {
    if WeatherCondition in conds && r.presentWeather.Found?
    then map[WeatherKey := WeatherAttr(r.presentWeather.value)] else map[]
  }

  /** The readings after recording every listed condition whose field is present, in any order. */
  function Table<T, W>(rd: Readings<T, W>, conds: seq<string>, r: Report<T, W>): Readings<T, W> {
    Readings(
      if TemperatureCondition in conds && r.temp.Found? then Some(r.temp.value) else rd.state,
      rd.attributes + Written(conds, r))
  }

  /** Handling the temperature condition first is the same as recording it in the table. */
  lemma TemperatureStep<T, W>(rd: Readings<T, W>, rest: seq<string>, r: Report<T, W>)
    requires !r.temp.Raises?
    ensures Table(ApplyCondition(rd, TemperatureCondition, r).readings, rest, r)
      == Table(rd, [TemperatureCondition] + rest, r)
  {
    var conds := [TemperatureCondition] + rest;
    assert TemperatureCondition in conds;
    assert WeatherCondition in conds <==> WeatherCondition in rest;
    var w := WeatherEntry(rest, r);
    assert WeatherEntry(conds, r) == w;
    match r.temp
    case Missing =>
      assert TemperatureEntry(conds, r) == TemperatureEntry(rest, r);
    case Found(t) =>
      var e := map[TemperatureKey := TempAttr(t)];
      assert ApplyCondition(rd, TemperatureCondition, r).readings == Readings(Some(t), rd.attributes + e);
      assert TemperatureEntry(conds, r) == e;
      MergeRewrite(rd.attributes, e, TemperatureEntry(rest, r), w);
  }

  /** Handling the weather condition first is the same as recording it in the table. */
  lemma WeatherStep<T, W>(rd: Readings<T, W>, rest: seq<string>, r: Report<T, W>)
    requires !r.presentWeather.Raises?
    ensures Table(ApplyCondition(rd, WeatherCondition, r).readings, rest, r)
      == Table(rd, [WeatherCondition] + rest, r)
  {
    var conds := [WeatherCondition] + rest;
    assert WeatherCondition in conds;
    assert TemperatureCondition in conds <==> TemperatureCondition in rest;
    var t := TemperatureEntry(rest, r);
    assert TemperatureEntry(conds, r) == t;
    match r.presentWeather
    case Missing =>
      assert WeatherEntry(conds, r) == WeatherEntry(rest, r);
    case Found(w) =>
      var e := map[WeatherKey := WeatherAttr(w)];
      assert ApplyCondition(rd, WeatherCondition, r).readings == rd.(attributes := rd.attributes + e);
      assert WeatherEntry(conds, r) == e;
      MergeRewriteLast(rd.attributes, t, e, WeatherEntry(rest, r));
  }

  /** Writing an entry and then writing it again, or nothing, before `w` is writing it once before `w`. */
  lemma MergeRewrite<K, V>(a: map<K, V>, e: map<K, V>, x: map<K, V>, w: map<K, V>)
    requires x == e || x == map[]
    ensures (a + e) + (x + w) == a + (e + w)
  {
  }

  /** Writing an entry, then `t`, then the entry again or nothing, is writing `t` and the entry when their keys differ. */
  lemma MergeRewriteLast<K, V>(a: map<K, V>, t: map<K, V>, e: map<K, V>, x: map<K, V>)
    requires x == e || x == map[]
    requires t.Keys !! e.Keys
    ensures (a + e) + (t + x) == a + (t + e)
  {
  }

  /** Handling one more condition first is the same as recording it in the table. */
  lemma TableStep<T, W>(rd: Readings<T, W>, c: string, rest: seq<string>, r: Report<T, W>)
    requires !Faults(c, r)
    ensures Table(ApplyCondition(rd, c, r).readings, rest, r) == Table(rd, [c] + rest, r)
  {
    if c == TemperatureCondition {
      TemperatureStep(rd, rest, r);
    } else if c == WeatherCondition {
      WeatherStep(rd, rest, r);
    } else {
      var conds := [c] + rest;
      assert TemperatureCondition in conds <==> TemperatureCondition in rest;
      assert WeatherCondition in conds <==> WeatherCondition in rest;
    }
  }

  /**
    `_parse_report` equals the table applied to the conditions before the first
    one whose read raises: order does not matter, missing fields are skipped,
    and the writes before an escaping exception stay.
   */
  lemma {:induction false} ParseReportIsTable<T, W>(rd: Readings<T, W>, conds: seq<string>, r: Report<T, W>)
    ensures ParseReport(rd, conds, r) == Table(rd, conds[..Cut(conds, r)], r)
    decreases |conds|
  {
    if |conds| == 0 || Faults(conds[0], r) {
      assert conds[..Cut(conds, r)] == [];
      assert rd.attributes + map[] == rd.attributes;
    } else {
      var rest := conds[1..];
      var rd1 := ApplyCondition(rd, conds[0], r).readings;
      ParseReportIsTable(rd1, rest, r);
      TableStep(rd, conds[0], rest[..Cut(rest, r)], r);
      assert conds[..Cut(conds, r)] == [conds[0]] + rest[..Cut(rest, r)];
    }
  }

  /** No field read of the listed conditions raises anything but AttributeError. */
  predicate Completes<T, W>(conds: seq<string>, r: Report<T, W>) {
    forall j :: 0 <= j < |conds| ==> !Faults(conds[j], r)
  }

  /** When no read raises, every listed condition is handled: the whole table applies. */
  lemma ParseReportCompletes<T, W>(rd: Readings<T, W>, conds: seq<string>, r: Report<T, W>)
    requires Completes(conds, r)
    ensures ParseReport(rd, conds, r) == Table(rd, conds, r)
  {
    ParseReportIsTable(rd, conds, r);
    assert conds[..|conds|] == conds;
  }

  /**
    A monitored temperature that the report holds, and that the loop reaches
    before any escaping exception, becomes both the state and the Temperature
    attribute.
   */
  lemma TemperatureRecorded<T, W>(rd: Readings<T, W>, conds: seq<string>, r: Report<T, W>)
    requires TemperatureCondition in conds[..Cut(conds, r)] && r.temp.Found?
    ensures ParseReport(rd, conds, r).state == Some(r.temp.value)
    ensures TemperatureKey in ParseReport(rd, conds, r).attributes
    ensures ParseReport(rd, conds, r).attributes[TemperatureKey] == TempAttr(r.temp.value)
  {
    ParseReportIsTable(rd, conds, r);
  }

  /**
    A monitored weather field that the report holds, and that the loop reaches
    before any escaping exception, is recorded, whether or not the temperature
    is missing.
   */
  lemma WeatherRecorded<T, W>(rd: Readings<T, W>, conds: seq<string>, r: Report<T, W>)
    requires WeatherCondition in conds[..Cut(conds, r)] && r.presentWeather.Found?
    ensures WeatherKey in ParseReport(rd, conds, r).attributes
    ensures ParseReport(rd, conds, r).attributes[WeatherKey] == WeatherAttr(r.presentWeather.value)
  {
    ParseReportIsTable(rd, conds, r);
  }

  /** With the default configuration the temperature is recorded whatever the weather read does. */
  lemma DefaultConditionsRecordTemperature<T, W>(rd: Readings<T, W>, r: Report<T, W>)
    requires r.temp.Found?
    ensures ParseReport(rd, [TemperatureCondition], r).state == Some(r.temp.value)
    ensures ParseReport(rd, [TemperatureCondition], r).attributes
      == rd.attributes[TemperatureKey := TempAttr(r.temp.value)]
  {
    assert !Faults(TemperatureCondition, r);
    assert Cut([TemperatureCondition], r) == 1;
    assert [TemperatureCondition][..1] == [TemperatureCondition];
    TemperatureRecorded(rd, [TemperatureCondition], r);
    ParseReportIsTable(rd, [TemperatureCondition], r);
  }

  /** A missing temperature leaves the state and the Temperature attribute as they were. */
  lemma MissingTemperatureKeepsPrevious<T, W>(rd: Readings<T, W>, conds: seq<string>, r: Report<T, W>)
    requires r.temp.Missing?
    ensures ParseReport(rd, conds, r).state == rd.state
    ensures TemperatureKey in ParseReport(rd, conds, r).attributes <==> TemperatureKey in rd.attributes
    ensures TemperatureKey in rd.attributes ==>
      ParseReport(rd, conds, r).attributes[TemperatureKey] == rd.attributes[TemperatureKey]
  {
    ParseReportIsTable(rd, conds, r);
  }

  /** A missing weather field leaves the Weather attribute as it was. */
  lemma MissingWeatherKeepsPrevious<T, W>(rd: Readings<T, W>, conds: seq<string>, r: Report<T, W>)
    requires r.presentWeather.Missing?
    ensures WeatherKey in ParseReport(rd, conds, r).attributes <==> WeatherKey in rd.attributes
    ensures WeatherKey in rd.attributes ==>
      ParseReport(rd, conds, r).attributes[WeatherKey] == rd.attributes[WeatherKey]
  {
    ParseReportIsTable(rd, conds, r);
  }

  /** Attributes outside the labels of the monitored conditions keep their values. */
  lemma ParseReportFrame<T, W>(rd: Readings<T, W>, conds: seq<string>, r: Report<T, W>)
    ensures forall k :: k in rd.attributes && k !in LabelsOf(conds) ==>
      ParseReport(rd, conds, r).attributes[k] == rd.attributes[k]
  {
    ParseReportIsTable(rd, conds, r);
    var p := conds[..Cut(conds, r)];
    assert forall x :: x in p ==> x in conds;
  }

  /** Names other than temperature and weather write nothing at all. */
  lemma OtherConditionsInert<T, W>(rd: Readings<T, W>, conds: seq<string>, r: Report<T, W>)
    requires TemperatureCondition !in conds && WeatherCondition !in conds
    ensures ParseReport(rd, conds, r) == rd
  {
    ParseReportIsTable(rd, conds, r);
    var p := conds[..Cut(conds, r)];
    assert forall x :: x in p ==> x in conds;
    assert rd.attributes + map[] == rd.attributes;
  }

  /** Parsing the same report twice is parsing it once. */
  lemma ParseReportIdempotent<T, W>(rd: Readings<T, W>, conds: seq<string>, r: Report<T, W>)
    ensures ParseReport(ParseReport(rd, conds, r), conds, r) == ParseReport(rd, conds, r)
  {
    var rd1 := ParseReport(rd, conds, r);
    ParseReportIsTable(rd, conds, r);
    ParseReportIsTable(rd1, conds, r);
    var p := conds[..Cut(conds, r)];
    assert rd1.attributes + Written(p, r) == rd1.attributes;
  }

  /** When no read raises, the order and repetition of the monitored conditions do not matter. */
  lemma ParseReportOrderFree<T, W>(rd: Readings<T, W>, conds: seq<string>, conds': seq<string>, r: Report<T, W>)
    requires Completes(conds, r) && Completes(conds', r)
    requires forall x :: x in conds <==> x in conds'
    ensures ParseReport(rd, conds, r) == ParseReport(rd, conds', r)
  {
    ParseReportCompletes(rd, conds, r);
    ParseReportCompletes(rd, conds', r);
  }
}
