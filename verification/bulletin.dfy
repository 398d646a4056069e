/**
  The fetch side of a sensor update: the bulletin URL built from the airport
  code, and the scan of the response for the first line that is that airport's
  report.
 */
module Bulletin {
  import opened Wrappers
  import opened StringOps

  const Suffix: string := ".TXT"

  /** The bulletin address for `code` under the service prefix `base`. */
  function ReportUrl(base: string, code: string): (url: string)
    ensures |url| == |base| + |code| + |Suffix|
    ensures url[..|base|] == base
    ensures url[|base|..|base| + |code|] == code
    ensures url[|base| + |code|..] == Suffix
  {
    base + code + Suffix
  }

  /** The airport code a bulletin address names, if it has the service's shape. */
  function CodeOfUrl(base: string, url: string): (code: Option<string>)
    ensures code.Some? ==> |url| == |base| + |code.value| + |Suffix|
    ensures code.Some? ==> base <= url && url[|base|..|base| + |code.value|] == code.value
  {
    if |url| >= |base| + |Suffix| && base <= url && url[|url| - |Suffix|..] == Suffix
    then Some(url[|base|..|url| - |Suffix|])
    else None
  }

  /** Reading the code back from the address gives the code it was built from. */
  lemma CodeOfReportUrl(base: string, code: string)
    ensures CodeOfUrl(base, ReportUrl(base, code)) == Some(code)
  {
    var url := ReportUrl(base, code);
    assert url[|url| - |Suffix|..] == Suffix;
    assert url[|base|..|url| - |Suffix|] == code;
  }

  /** Every address that names a code is the address built from that code. */
  lemma ReportUrlOfCode(base: string, url: string)
    requires CodeOfUrl(base, url).Some?
    ensures ReportUrl(base, CodeOfUrl(base, url).value) == url
  {
    var code := CodeOfUrl(base, url).value;
    assert url == url[..|base|] + url[|base|..|url| - |Suffix|] + url[|url| - |Suffix|..];
  }

  /** Different airports are fetched from different addresses. */
  lemma ReportUrlInjective(base: string, a: string, b: string)
    requires ReportUrl(base, a) == ReportUrl(base, b)
    ensures a == b
  {
    CodeOfReportUrl(base, a);
    CodeOfReportUrl(base, b);
  }

  /** A response line after decoding and stripping starts with the airport code. */
  predicate IsReportLine(code: string, line: string)
    ensures IsReportLine(code, line) ==> |code| <= |line|
    ensures IsReportLine(code, line) && |code| > 0 ==> !IsSpace(code[0])
    ensures |code| == 0 ==> IsReportLine(code, line)
  {
    StartsWith(Strip(line), code)
  }

  /** Index of the first line that is the airport's report, or None when no line is. */
  function SelectLine(code: string, lines: seq<string>): (i: Option<nat>)
    ensures i.Some? ==> i.value < |lines| && IsReportLine(code, lines[i.value])
    ensures i.Some? ==> forall j :: 0 <= j < i.value ==> !IsReportLine(code, lines[j])
    ensures i.None? ==> forall j :: 0 <= j < |lines| ==> !IsReportLine(code, lines[j])
  {
    SelectFrom(code, lines, 0)
  }

  /** Index of the first report line at or after position `k`. */
  function SelectFrom(code: string, lines: seq<string>, k: nat): (i: Option<nat>)
    ensures i.Some? ==> k <= i.value < |lines| && IsReportLine(code, lines[i.value])
    ensures i.Some? ==> forall j :: k <= j < i.value ==> !IsReportLine(code, lines[j])
    ensures i.None? ==> forall j :: k <= j < |lines| ==> !IsReportLine(code, lines[j])
    decreases |lines| - k
  {
    if k >= |lines| then None
    else if IsReportLine(code, lines[k]) then Some(k)
    else SelectFrom(code, lines, k + 1)
  }

  /** The first report line is the one SelectLine picks: the selection is determined by its contract. */
  lemma SelectLineFirst(code: string, lines: seq<string>, i: nat)
    requires i < |lines| && IsReportLine(code, lines[i])
    requires forall j :: 0 <= j < i ==> !IsReportLine(code, lines[j])
    ensures SelectLine(code, lines) == Some(i)
  {
  }

  /** Lines after the first report line do not change the selection. */
  lemma SelectLineIgnoresLater(code: string, lines: seq<string>, later: seq<string>)
    requires SelectLine(code, lines).Some?
    ensures SelectLine(code, lines + later) == SelectLine(code, lines)
  {
    var i := SelectLine(code, lines).value;
    var all := lines + later;
    assert all[i] == lines[i];
    assert forall j :: 0 <= j < i ==> all[j] == lines[j];
    SelectLineFirst(code, all, i);
  }

  /** Lines before the report that are not report lines only shift its index. */
  lemma SelectLineIgnoresEarlier(code: string, earlier: seq<string>, lines: seq<string>)
    requires forall j :: 0 <= j < |earlier| ==> !IsReportLine(code, earlier[j])
    ensures SelectLine(code, lines).None? ==> SelectLine(code, earlier + lines).None?
    ensures SelectLine(code, lines).Some? ==>
      SelectLine(code, earlier + lines) == Some(|earlier| + SelectLine(code, lines).value)
  {
    match SelectLine(code, lines)
    case None =>
      NoReportBefore(code, earlier, lines, |lines|);
    case Some(m) =>
      NoReportBefore(code, earlier, lines, m);
      assert (earlier + lines)[|earlier| + m] == lines[m];
      SelectLineFirst(code, earlier + lines, |earlier| + m);
  }

  /** Joining two runs of non-report lines gives one run of non-report lines. */
  lemma NoReportBefore(code: string, earlier: seq<string>, lines: seq<string>, m: nat)
    requires m <= |lines|
    requires forall j :: 0 <= j < |earlier| ==> !IsReportLine(code, earlier[j])
    requires forall j :: 0 <= j < m ==> !IsReportLine(code, lines[j])
    ensures forall j :: 0 <= j < |earlier| + m ==> !IsReportLine(code, (earlier + lines)[j])
  {
    var all := earlier + lines;
    forall j | 0 <= j < |earlier| + m
      ensures !IsReportLine(code, all[j])
    {
      if j < |earlier| {
        assert all[j] == earlier[j];
      } else {
        assert all[j] == lines[j - |earlier|];
      }
    }
  }

  /** One line of the response: decoded text, or a line that could not be read or decoded. */
  datatype RawLine = Text(text: string) | Unreadable

  /** A line the scan reads past: readable, and not the airport's report. */
  predicate PassedOver(code: string, line: RawLine) {
    line.Text? && !IsReportLine(code, line.text)
  }

  /** What the scan of a response found. */
  datatype ScanOutcome =
    | Matched(index: nat, line: string)  // the stripped report line, handed to the parser
    | NoMatch                            // every line was read and none is a report line
    | ReadError(index: nat)              // reading or decoding failed before a report line

  /**
    The response read line by line, stopping at the first report line; a line
    that cannot be read ends the scan with an error unless a report line came
    before it.
   */
  function Scan(code: string, lines: seq<RawLine>): (o: ScanOutcome)
    ensures o.Matched? ==>
      && o.index < |lines| && lines[o.index].Text?
      && IsReportLine(code, lines[o.index].text) && o.line == Strip(lines[o.index].text)
    ensures o.ReadError? ==> o.index < |lines| && lines[o.index].Unreadable?
    ensures o.NoMatch? ==> forall j :: 0 <= j < |lines| ==> PassedOver(code, lines[j])
    ensures !o.NoMatch? ==> forall j :: 0 <= j < o.index ==> PassedOver(code, lines[j])
  {
    ScanFrom(code, lines, 0)
  }

  /** The scan continued from position `k`, every earlier line having been read past. */
  function ScanFrom(code: string, lines: seq<RawLine>, k: nat): (o: ScanOutcome)
    ensures o.Matched? ==>
      && k <= o.index < |lines| && lines[o.index].Text?
      && IsReportLine(code, lines[o.index].text) && o.line == Strip(lines[o.index].text)
    ensures o.ReadError? ==> k <= o.index < |lines| && lines[o.index].Unreadable?
    ensures o.NoMatch? ==> forall j :: k <= j < |lines| ==> PassedOver(code, lines[j])
    ensures !o.NoMatch? ==> forall j :: k <= j < o.index ==> PassedOver(code, lines[j])
    decreases |lines| - k
  {
    if k >= |lines| then NoMatch
    else
      match lines[k]
      case Unreadable => ReadError(k)
      case Text(t) =>
        if IsReportLine(code, t) then Matched(k, Strip(t))
        else ScanFrom(code, lines, k + 1)
  }

  /** The line-by-line loop of the update, stopping at the first report line. */
  method ScanLines(code: string, lines: seq<RawLine>) returns (o: ScanOutcome)
    ensures o == Scan(code, lines)
  {
    var i := 0;
    while i < |lines|
      invariant 0 <= i <= |lines|
      invariant forall j :: 0 <= j < i ==> PassedOver(code, lines[j])
    {
      match lines[i]
      case Unreadable =>
        ScanStopsAt(code, lines, i);
        return ReadError(i);
      case Text(t) =>
        var line := Strip(t);
        if StartsWith(line, code) {
          ScanStopsAt(code, lines, i);
          return Matched(i, line);
        }
      i := i + 1;
    }
    ScanNoMatch(code, lines);
    return NoMatch;
  }

  /** A response whose lines all read and none of which is a report line scans to NoMatch. */
  lemma ScanNoMatch(code: string, lines: seq<RawLine>)
    requires forall j :: 0 <= j < |lines| ==> PassedOver(code, lines[j])
    ensures Scan(code, lines) == NoMatch
  {
  }

  /** The scan stops at the first line that cannot be read or is a report line. */
  lemma ScanStopsAt(code: string, lines: seq<RawLine>, i: nat)
    requires i < |lines|
    requires forall j :: 0 <= j < i ==> PassedOver(code, lines[j])
    requires lines[i].Unreadable? || IsReportLine(code, lines[i].text)
    ensures lines[i].Unreadable? ==> Scan(code, lines) == ReadError(i)
    ensures lines[i].Text? ==> Scan(code, lines) == Matched(i, Strip(lines[i].text))
  {
  }

  /** Lines after the report line, readable or not, do not change the scan. */
  lemma ScanIgnoresLater(code: string, lines: seq<RawLine>, later: seq<RawLine>)
    requires Scan(code, lines).Matched?
    ensures Scan(code, lines + later) == Scan(code, lines)
  {
    var i := Scan(code, lines).index;
    var all := lines + later;
    assert forall j :: 0 <= j <= i ==> all[j] == lines[j];
    ScanStopsAt(code, all, i);
  }

  /** Lines the scan reads past, put in front, only shift the index where the scan stops. */
  lemma ScanIgnoresEarlier(code: string, earlier: seq<RawLine>, lines: seq<RawLine>)
    requires forall j :: 0 <= j < |earlier| ==> PassedOver(code, earlier[j])
    ensures Scan(code, lines).Matched? ==>
      Scan(code, earlier + lines) == Matched(|earlier| + Scan(code, lines).index, Scan(code, lines).line)
    ensures Scan(code, lines).NoMatch? ==> Scan(code, earlier + lines).NoMatch?
    ensures Scan(code, lines).ReadError? ==>
      Scan(code, earlier + lines) == ReadError(|earlier| + Scan(code, lines).index)
  {
    var o := Scan(code, lines);
    if o.NoMatch? {
      PassedOverBefore(code, earlier, lines, |lines|);
      ScanNoMatch(code, earlier + lines);
    } else {
      PassedOverBefore(code, earlier, lines, o.index);
      assert (earlier + lines)[|earlier| + o.index] == lines[o.index];
      ScanStopsAt(code, earlier + lines, |earlier| + o.index);
    }
  }

  /** Joining two runs of lines the scan reads past gives one such run. */
  lemma PassedOverBefore(code: string, earlier: seq<RawLine>, lines: seq<RawLine>, m: nat)
    requires m <= |lines|
    requires forall j :: 0 <= j < |earlier| ==> PassedOver(code, earlier[j])
    requires forall j :: 0 <= j < m ==> PassedOver(code, lines[j])
    ensures forall j :: 0 <= j < |earlier| + m ==> PassedOver(code, (earlier + lines)[j])
  {
    var all := earlier + lines;
    forall j | 0 <= j < |earlier| + m
      ensures PassedOver(code, all[j])
    {
      if j < |earlier| {
        assert all[j] == earlier[j];
      } else {
        assert all[j] == lines[j - |earlier|];
      }
    }
  }

  /** Text lines as they arrive from a response that reads cleanly. */
  function Lift(ts: seq<string>): (lines: seq<RawLine>)
    ensures |lines| == |ts|
    ensures forall j :: 0 <= j < |ts| ==> lines[j] == Text(ts[j])
  {
    if |ts| == 0 then [] else [Text(ts[0])] + Lift(ts[1..])
  }

  /** On a response that reads cleanly the scan parses exactly the line SelectLine picks. */
  lemma ScanReadable(code: string, ts: seq<string>)
    ensures SelectLine(code, ts).Some? ==>
      Scan(code, Lift(ts)) == Matched(SelectLine(code, ts).value, Strip(ts[SelectLine(code, ts).value]))
    ensures SelectLine(code, ts).None? ==> Scan(code, Lift(ts)) == NoMatch
  {
    var lines := Lift(ts);
    match SelectLine(code, ts)
    case Some(i) =>
      ScanStopsAt(code, lines, i);
    case None =>
  }
}
