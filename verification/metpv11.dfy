/** The fixed-width ("vertical") METPV-11 decoder: a header line with the station's identity
    and position at fixed columns, then one line per element code and day holding 24 packed
    five-character hourly fields. Values are collected per element code purely in line order
    and laid out on an 8760-hour axis starting 2016-01-01 00:00. */
module Metpv11 {
  import opened Wrappers
  import opened Text
  import opened Numerals
  import Calendar
  import opened Geo

  /** Shortest data line accepted, counted in characters including the line terminator. */
  const MinLineLength := 130
  const FirstFieldOffset := 15
  const FieldWidth := 5
  const ValueWidth := 4
  const HoursPerLine := 24
  /** Raw value meaning "no observation". */
  const Sentinel := 8888
  const TableLength := 8760

  const GhiCode := "00001"
  const BeamCode := "00002"
  const DiffuseCode := "00003"
  const TemperatureCode := "00005"
  const WindCode := "00007"

  /** 0.01 MJ/m² per hour to W/m², as the source rounds it. */
  const IrradianceScale: real := 2.7778
  /** Tenths of °C or of m/s. */
  const TenthsScale: real := 0.1

  /** A decoded hourly value: `None` is the source's NaN. */
  type Raw = Option<int>

  /** Element code to the hourly values read for it, in line order. */
  type ChannelRows = map<string, seq<Raw>>

  datatype Station = Station(id: string, name: string, latitude: real, longitude: real, elevation: real)

  datatype HourRow = HourRow(
    time: Calendar.Instant,
    ghi: Option<real>, dniHoriz: Option<real>, dhi: Option<real>,
    temperature: Option<real>, windSpeed: Option<real>,
    latitude: real, longitude: real, elevation: real)

  datatype Failure =
    | EmptyFile      // `lines[0]` raises IndexError
    | BadHeader      // a header `float()` raises ValueError

  // ---------------------------------------------------------------- header

  /** The station header: id in columns [0,5), name in [6,26), latitude degrees and minutes in
      [26,31) and [31,36), longitude in [36,41) and [41,46), elevation in [46,54). */
  function DecodeHeader(header: string): (r: Option<Station>)
    ensures r.Some? <==>
      && ParseDecimal(Slice(header, 26, 31)).Some? && ParseDecimal(Slice(header, 31, 36)).Some?
      && ParseDecimal(Slice(header, 36, 41)).Some? && ParseDecimal(Slice(header, 41, 46)).Some?
      && ParseDecimal(Slice(header, 46, 54)).Some?
    ensures r.Some? ==>
      && r.value.id == Strip(Slice(header, 0, 5)) && r.value.name == Strip(Slice(header, 6, 26))
      && r.value.latitude == Degrees(ParseDecimal(Slice(header, 26, 31)).value, ParseDecimal(Slice(header, 31, 36)).value)
      && r.value.longitude == Degrees(ParseDecimal(Slice(header, 36, 41)).value, ParseDecimal(Slice(header, 41, 46)).value)
      && r.value.elevation == ParseDecimal(Slice(header, 46, 54)).value
  {
    match (ParseDecimal(Slice(header, 26, 31)), ParseDecimal(Slice(header, 31, 36)),
           ParseDecimal(Slice(header, 36, 41)), ParseDecimal(Slice(header, 41, 46)),
           ParseDecimal(Slice(header, 46, 54)))
    case (Some(latDeg), Some(latMin), Some(lonDeg), Some(lonMin), Some(elev)) =>
      Some(Station(Strip(Slice(header, 0, 5)), Strip(Slice(header, 6, 26)),
                   Degrees(latDeg, latMin), Degrees(lonDeg, lonMin), elev))
    case _ => None
  }

  /** Two texts that agree on their first `n` characters (as far as they reach) agree on
      every slice that ends by `n`. */
  lemma SliceWithinPrefix(s1: string, s2: string, n: nat, i: nat, j: nat)
    requires Slice(s1, 0, n) == Slice(s2, 0, n) && j <= n
    ensures Slice(s1, i, j) == Slice(s2, i, j)
  {
    var p1, p2 := Slice(s1, 0, n), Slice(s2, 0, n);
    assert |p1| == |p2|;
    var a, b := Slice(s1, i, j), Slice(s2, i, j);
    assert |a| == |b|;
    forall k | 0 <= k < |a| ensures a[k] == b[k] {
      assert a[k] == p1[i + k];
      assert b[k] == p2[i + k];
    }
  }

  /** Only the first 54 characters of the header line matter. */
  lemma HeaderReadsFirst54(h1: string, h2: string)
    requires Slice(h1, 0, 54) == Slice(h2, 0, 54)
    ensures DecodeHeader(h1) == DecodeHeader(h2)
  {
    SliceWithinPrefix(h1, h2, 54, 0, 5);
    SliceWithinPrefix(h1, h2, 54, 6, 26);
    SliceWithinPrefix(h1, h2, 54, 26, 31);
    SliceWithinPrefix(h1, h2, 54, 31, 36);
    SliceWithinPrefix(h1, h2, 54, 36, 41);
    SliceWithinPrefix(h1, h2, 54, 41, 46);
    SliceWithinPrefix(h1, h2, 54, 46, 54);
  }

  // ---------------------------------------------------------------- one data line

  function FieldStart(h: nat): nat {
    FirstFieldOffset + FieldWidth * h
  }

  /** `line[0:5].strip()`. */
  function ElementCode(line: string): string {
    Strip(Slice(line, 0, 5))
  }

  /** The first four characters of the five-character window at `15 + 5h`; the fifth
      character is the remark and is dropped here. */
  function ValueWindow(line: string, h: nat): (w: string)
    ensures w == Slice(line, FieldStart(h), FieldStart(h) + ValueWidth)
  {
    SliceOfSlice(line, FieldStart(h), FieldWidth, ValueWidth);
    Slice(Slice(line, FieldStart(h), FieldStart(h) + FieldWidth), 0, ValueWidth)
  }

  /** The value text of hour `h`: its value window, stripped. */
  function ValueText(line: string, h: nat): string {
    Strip(ValueWindow(line, h))
  }

  /** `int(val_str)` with the sentinel and parse failures both read as missing. */
  function HourValue(text: string): (r: Raw)
    ensures r.Some? <==> ParseInt(text).Some? && ParseInt(text).value != Sentinel
    ensures r.Some? ==> r == ParseInt(text)
  {
    match ParseInt(text)
    case None => None
    case Some(v) => if v == Sentinel then None else Some(v)
  }

  function DecodeHour(line: string, h: nat): Raw {
    HourValue(ValueText(line, h))
  }

  /** The 24 hourly values of one data line, in hour order. */
  function DecodeLine(line: string): (vals: seq<Raw>)
    ensures |vals| == HoursPerLine
    ensures forall h :: 0 <= h < HoursPerLine ==> vals[h] == DecodeHour(line, h)
  {
    seq(HoursPerLine, h requires 0 <= h < HoursPerLine => DecodeHour(line, h))
  }

  function Get(rows: ChannelRows, code: string): seq<Raw> {
    if code in rows then rows[code] else []
  }

  predicate Accepted(line: string) {
    |line| >= MinLineLength
  }

  /** What one line does to the per-code accumulation. */
  function Step(rows: ChannelRows, line: string): ChannelRows {
    if Accepted(line) then rows[ElementCode(line) := Get(rows, ElementCode(line)) + DecodeLine(line)]
    else rows
  }

  /** The per-code accumulation after all of `lines` in order. */
  function Accumulate(lines: seq<string>): ChannelRows {
    if lines == [] then map[] else Step(Accumulate(lines[..|lines| - 1]), lines[|lines| - 1])
  }

  /** A short line changes nothing; an accepted line appends its 24 values to its own code's
      sequence (creating it if new) and leaves every other code as it was. */
  lemma StepEffect(rows: ChannelRows, line: string, c: string)
    ensures !Accepted(line) ==> Step(rows, line) == rows
    ensures Accepted(line) ==> Step(rows, line).Keys == rows.Keys + {ElementCode(line)}
    ensures Accepted(line) && c == ElementCode(line) ==> Get(Step(rows, line), c) == Get(rows, c) + DecodeLine(line)
    ensures c != ElementCode(line) ==> Get(Step(rows, line), c) == Get(rows, c)
  {
  }

  /** Some accepted line among `lines` carries element code `code`. */
  ghost predicate CodeSeen(lines: seq<string>, code: string) {
    exists i :: 0 <= i < |lines| && Accepted(lines[i]) && ElementCode(lines[i]) == code
  }

  /** The accumulation has a key for exactly the element codes some accepted line carries. */
  lemma {:induction false} AccumulateKeys(lines: seq<string>, c: string)
    ensures c in Accumulate(lines) <==> CodeSeen(lines, c)
  {
    if lines != [] {
      AccumulateKeys(lines[..|lines| - 1], c);
      StepEffect(Accumulate(lines[..|lines| - 1]), lines[|lines| - 1], c);
      CodeSeenStep(lines);
    }
  }

  /** The codes seen in `lines` are those seen before its last line and, when that line is
      accepted, its code. */
  lemma CodeSeenStep(lines: seq<string>)
    requires lines != []
    ensures var last := lines[|lines| - 1];
      forall c :: CodeSeen(lines, c) <==>
        CodeSeen(lines[..|lines| - 1], c) || (Accepted(last) && ElementCode(last) == c)
  {
    var init := lines[..|lines| - 1];
    forall c | CodeSeen(lines, c) && !CodeSeen(init, c)
      ensures Accepted(lines[|lines| - 1]) && ElementCode(lines[|lines| - 1]) == c
    {
      var i :| 0 <= i < |lines| && Accepted(lines[i]) && ElementCode(lines[i]) == c;
      assert i == |init|;
    }
    forall c | CodeSeen(init, c) ensures CodeSeen(lines, c) {
      var i :| 0 <= i < |init| && Accepted(init[i]) && ElementCode(init[i]) == c;
      assert lines[i] == init[i];
    }
  }

  /** One hourly field: the value window read as an integer, the sentinel and a parse
      failure both giving missing. */
  method DecodeField(line: string, h: nat) returns (v: Raw)
    ensures v == DecodeHour(line, h)
  {
    var field := Slice(line, FieldStart(h), FieldStart(h) + FieldWidth);
    var window := Slice(field, 0, ValueWidth);
    assert window == ValueWindow(line, h);
    var parsed := ParseInt(Strip(window));
    if parsed.None? || parsed.value == Sentinel {
      v := None;
    } else {
      v := parsed;
    }
  }

  /** The loop over the 24 hourly windows of one line. */
  method DecodeHours(line: string) returns (hourly: seq<Raw>)
    ensures hourly == DecodeLine(line)
  {
    hourly := [];
    assert DecodeLine(line)[..0] == [];
    for h := 0 to HoursPerLine
      invariant hourly == DecodeLine(line)[..h]
    {
      var v := DecodeField(line, h);
      PrefixStep(DecodeLine(line), h);
      hourly := hourly + [v];
    }
  }

  /** The loop over data lines: each accepted line's 24 values are appended to its element
      code's list. */
  method DecodeDataLines(lines: seq<string>) returns (rows: ChannelRows)
    ensures rows == Accumulate(lines)
  {
    rows := map[];
    var i := 0;
    while i < |lines|
      invariant 0 <= i <= |lines|
      invariant rows == Accumulate(lines[..i])
    {
      var line := lines[i];
      AccumulateStep(lines, i);
      if |line| >= MinLineLength {
        var code := Strip(Slice(line, 0, 5));
        var hourly := DecodeHours(line);
        ghost var expected := rows[code := Get(rows, code) + hourly];
        assert Step(rows, line) == expected;
        if code !in rows {
          rows := rows[code := []];
        }
        rows := rows[code := rows[code] + hourly];
        assert rows == expected;
      }
      i := i + 1;
    }
    assert lines[..i] == lines;
  }

  lemma AccumulateStep(lines: seq<string>, i: nat)
    requires i < |lines|
    ensures Accumulate(lines[..i + 1]) == Step(Accumulate(lines[..i]), lines[i])
  {
    assert lines[..i + 1][..i] == lines[..i];
  }

  // ---------------------------------------------------------------- properties of the accumulation

  /** The hourly values of hour `h` depend only on the four value characters of its window. */
  lemma HourReadsOnlyValueChars(l1: string, l2: string, h: nat)
    requires Slice(l1, FieldStart(h), FieldStart(h) + ValueWidth) == Slice(l2, FieldStart(h), FieldStart(h) + ValueWidth)
    ensures DecodeHour(l1, h) == DecodeHour(l2, h)
  {
    assert ValueWindow(l1, h) == ValueWindow(l2, h);
  }

  /** The remark character (the fifth of each window) never changes the decoded value. */
  lemma RemarkIgnored(line: string, h: nat, c: char)
    requires FieldStart(h) + ValueWidth < |line|
    ensures DecodeHour(line[FieldStart(h) + ValueWidth := c], h) == DecodeHour(line, h)
  {
    var l2 := line[FieldStart(h) + ValueWidth := c];
    var a, b := Slice(line, FieldStart(h), FieldStart(h) + ValueWidth), Slice(l2, FieldStart(h), FieldStart(h) + ValueWidth);
    assert a == b;
    HourReadsOnlyValueChars(line, l2, h);
  }

  /** The sentinel never survives decoding, and a field that fails to parse is missing. */
  lemma SentinelAndGarbageAreMissing(line: string, h: nat)
    ensures DecodeHour(line, h) != Some(Sentinel)
    ensures ParseInt(ValueText(line, h)).None? ==> DecodeHour(line, h).None?
    ensures ParseInt(ValueText(line, h)) == Some(Sentinel) ==> DecodeHour(line, h).None?
  {
  }

  /** A bad field spoils its own hour only: changing the text of one window leaves the other
      23 decoded hours as they were. */
  lemma OtherHoursUnaffected(line: string, h: nat, text: string)
    requires h < HoursPerLine && |text| == ValueWidth
    requires FieldStart(h) + ValueWidth <= |line|
    ensures var l2 := line[..FieldStart(h)] + text + line[FieldStart(h) + ValueWidth..];
      forall k :: 0 <= k < HoursPerLine && k != h ==> DecodeLine(l2)[k] == DecodeLine(line)[k]
  {
    var l2 := line[..FieldStart(h)] + text + line[FieldStart(h) + ValueWidth..];
    assert |l2| == |line|;
    forall k | 0 <= k < HoursPerLine && k != h ensures DecodeLine(l2)[k] == DecodeLine(line)[k] {
      var a := Slice(line, FieldStart(k), FieldStart(k) + ValueWidth);
      var b := Slice(l2, FieldStart(k), FieldStart(k) + ValueWidth);
      assert |a| == |b|;
      forall n | 0 <= n < |a| ensures a[n] == b[n] {
        var p := FieldStart(k) + n;
        assert p < FieldStart(h) || p >= FieldStart(h) + ValueWidth;
        if p < FieldStart(h) {
          assert l2[p] == line[p];
        } else {
          assert l2[p] == line[FieldStart(h) + ValueWidth..][p - FieldStart(h) - ValueWidth];
        }
      }
      assert a == b;
      HourReadsOnlyValueChars(line, l2, k);
    }
  }

  /** The month and day columns ([5,15)) are never read: lines that agree elsewhere have the
      same effect. */
  lemma MonthDayIgnored(rows: ChannelRows, l1: string, l2: string)
    requires |l1| == |l2|
    requires forall k :: 0 <= k < |l1| && (k < 5 || k >= FirstFieldOffset) ==> l1[k] == l2[k]
    ensures Step(rows, l1) == Step(rows, l2)
  {
    if |l1| >= MinLineLength {
      assert Slice(l1, 0, 5) == Slice(l2, 0, 5);
      forall h | 0 <= h < HoursPerLine ensures DecodeHour(l1, h) == DecodeHour(l2, h) {
        var a := Slice(l1, FieldStart(h), FieldStart(h) + ValueWidth);
        var b := Slice(l2, FieldStart(h), FieldStart(h) + ValueWidth);
        assert a == b;
        HourReadsOnlyValueChars(l1, l2, h);
      }
      assert DecodeLine(l1) == DecodeLine(l2);
    }
  }

  /** A line shorter than 130 characters contributes nothing, wherever it sits. */
  lemma {:induction false} ShortLineIgnored(before: seq<string>, line: string, after: seq<string>)
    requires |line| < MinLineLength
    ensures Accumulate(before + [line] + after) == Accumulate(before + after)
    decreases |after|
  {
    var with, without := before + [line] + after, before + after;
    if after == [] {
      assert with == before + [line];
      assert with[..|with| - 1] == before;
      assert without == before;
    } else {
      var init, last := after[..|after| - 1], after[|after| - 1];
      ShortLineIgnored(before, line, init);
      assert with[..|with| - 1] == before + [line] + init;
      assert with[|with| - 1] == last;
      assert without[..|without| - 1] == before + init;
      assert without[|without| - 1] == last;
    }
  }

  /** The accepted lines of element code `code`, in file order. */
  function LinesOf(lines: seq<string>, code: string): (r: seq<string>)
    ensures forall l :: l in r ==> l in lines && Accepted(l) && ElementCode(l) == code
    ensures forall i :: 0 <= i < |lines| && Accepted(lines[i]) && ElementCode(lines[i]) == code ==> lines[i] in r
  {
    if lines == [] then []
    else
      var last := lines[|lines| - 1];
      var init := lines[..|lines| - 1];
      var prior := LinesOf(init, code);
      assert forall i :: 0 <= i < |init| ==> init[i] == lines[i];
      if Accepted(last) && ElementCode(last) == code then prior + [last] else prior
  }

  /** Selection keeps file order and multiplicity: one more line is appended after the lines
      already selected exactly when it is accepted and carries the code. */
  lemma LinesOfAppend(lines: seq<string>, line: string, code: string)
    ensures LinesOf(lines + [line], code) ==
      LinesOf(lines, code) + (if Accepted(line) && ElementCode(line) == code then [line] else [])
  {
    assert (lines + [line])[..|lines|] == lines;
  }

  /** The decoded hours of several lines, one after the other. */
  function Concat(lines: seq<string>): (vals: seq<Raw>)
    ensures |vals| == HoursPerLine * |lines|
  {
    if lines == [] then [] else Concat(lines[..|lines| - 1]) + DecodeLine(lines[|lines| - 1])
  }

  /** The sequence of an element code is exactly the concatenation of the decoded hours of the
      accepted lines carrying that code, in file order: each accepted line appends its 24 values
      after everything appended before it. */
  lemma {:induction false} ChannelIsConcatenation(lines: seq<string>, code: string)
    ensures Get(Accumulate(lines), code) == Concat(LinesOf(lines, code))
    decreases |lines|
  {
    if lines != [] {
      ChannelIsConcatenation(lines[..|lines| - 1], code);
    }
  }

  /** Value `24k + h` of an element code's sequence is hour `h` of the `k`-th accepted line
      with that code; the sequence is 24 times as long as there are such lines. */
  lemma {:induction false} ConcatIndex(lines: seq<string>, k: nat, h: nat)
    requires k < |lines| && h < HoursPerLine
    ensures HoursPerLine * k + h < |Concat(lines)|
    ensures Concat(lines)[HoursPerLine * k + h] == DecodeHour(lines[k], h)
    decreases |lines|
  {
    var init := lines[..|lines| - 1];
    assert Concat(lines) == Concat(init) + DecodeLine(lines[|lines| - 1]);
    assert |Concat(init)| == HoursPerLine * (|lines| - 1);
    if k < |lines| - 1 {
      ConcatIndex(init, k, h);
      assert init[k] == lines[k];
      assert HoursPerLine * k + h < HoursPerLine * (k + 1) <= HoursPerLine * |init|;
    } else {
      assert HoursPerLine * k + h == |Concat(init)| + h;
    }
  }

  /** Where a decoded value lands: hour `h` of the `k`-th accepted line of code `code`. */
  lemma ChannelPosition(lines: seq<string>, code: string, k: nat, h: nat)
    requires k < |LinesOf(lines, code)| && h < HoursPerLine
    ensures |Get(Accumulate(lines), code)| == HoursPerLine * |LinesOf(lines, code)|
    ensures Get(Accumulate(lines), code)[HoursPerLine * k + h] == DecodeHour(LinesOf(lines, code)[k], h)
  {
    ChannelIsConcatenation(lines, code);
    ConcatIndex(LinesOf(lines, code), k, h);
  }

  // ---------------------------------------------------------------- the 8760-hour table

  function ScaleValue(v: Raw, scale: real): Option<real> {
    match v
    case None => None
    case Some(x) => Some(x as real * scale)
  }

  /** `get_param(code, scale)`: the code's values padded with missing or cut to 8760, each
      multiplied by `scale` once. */
  function Column(rows: ChannelRows, code: string, scale: real): (col: seq<Option<real>>)
    ensures |col| == TableLength
    ensures forall i :: 0 <= i < TableLength ==>
      col[i] == if i < |Get(rows, code)| then ScaleValue(Get(rows, code)[i], scale) else None
  {
    var vals := Get(rows, code);
    var padded := if |vals| < TableLength then vals + seq(TableLength - |vals|, _ => None) else vals;
    seq(TableLength, i requires 0 <= i < TableLength => ScaleValue(padded[i], scale))
  }

  /** The output table: row `i` is instant `i` (2016-01-01 00:00 plus `i` hours) with the five
      known channels and the station position repeated on every row. */
  function BuildTable(station: Station, rows: ChannelRows): (table: seq<HourRow>)
    ensures |table| == TableLength
    ensures forall i :: 0 <= i < |table| ==> table[i].time == i
    ensures forall i :: 0 <= i < |table| ==>
      && table[i].latitude == station.latitude
      && table[i].longitude == station.longitude
      && table[i].elevation == station.elevation
  {
    var ghi := Column(rows, GhiCode, IrradianceScale);
    var beam := Column(rows, BeamCode, IrradianceScale);
    var diffuse := Column(rows, DiffuseCode, IrradianceScale);
    var temperature := Column(rows, TemperatureCode, TenthsScale);
    var wind := Column(rows, WindCode, TenthsScale);
    seq(TableLength, i requires 0 <= i < TableLength =>
      HourRow(i, ghi[i], beam[i], diffuse[i], temperature[i], wind[i],
              station.latitude, station.longitude, station.elevation))
  }

  /** The whole conversion of a file given as its lines (each with its terminator). */
  method Convert(lines: seq<string>) returns (r: Result<seq<HourRow>, Failure>)
    ensures lines == [] ==> r == Err(EmptyFile)
    ensures lines != [] && DecodeHeader(lines[0]).None? ==> r == Err(BadHeader)
    ensures lines != [] && DecodeHeader(lines[0]).Some? ==>
      r == Ok(BuildTable(DecodeHeader(lines[0]).value, Accumulate(lines[1..])))
  {
    if lines == [] {
      return Err(EmptyFile);
    }
    var station := DecodeHeader(lines[0]);
    if station.None? {
      return Err(BadHeader);
    }
    var rows := DecodeDataLines(lines[1..]);
    r := Ok(BuildTable(station.value, rows));
  }

  // ---------------------------------------------------------------- properties of the table

  /** Timestamps start at 2016-01-01 00:00 and advance exactly one hour per row, so they are
      strictly increasing with no duplicates and no gaps. */
  lemma TableIsHourly(station: Station, rows: ChannelRows)
    ensures BuildTable(station, rows)[0].time == 0
    ensures Calendar.ToDateTime(BuildTable(station, rows)[0].time) == Calendar.DateTime(1, 1, 0)
    ensures forall i :: 0 <= i < TableLength - 1 ==>
      BuildTable(station, rows)[i + 1].time == BuildTable(station, rows)[i].time + 1
    ensures forall i, j :: 0 <= i < j < TableLength ==>
      BuildTable(station, rows)[i].time < BuildTable(station, rows)[j].time
  {
  }

  /** Because 2016 is a leap year, the 8760 hours end at 2016-12-30 23:00, and the 60th day's
      values (March 1 in a 365-day file) fall on February 29. */
  lemma TableCalendarSpan()
    ensures Calendar.ToDateTime(TableLength - 1) == Calendar.DateTime(12, 30, 23)
    ensures Calendar.ToDateTime(59 * Calendar.HoursPerDay) == Calendar.DateTime(2, 29, 0)
  {
    Calendar.ToDateTimeOfInstant(12, 30, 23);
    Calendar.ToDateTimeOfInstant(2, 29, 0);
  }

  /** Each emitted channel holds its code's values scaled once, padded with missing after the
      last decoded value; a code never seen gives an all-missing column. */
  lemma TableChannels(station: Station, rows: ChannelRows, i: nat)
    requires i < TableLength
    ensures BuildTable(station, rows)[i].ghi == Column(rows, GhiCode, IrradianceScale)[i]
    ensures BuildTable(station, rows)[i].dniHoriz == Column(rows, BeamCode, IrradianceScale)[i]
    ensures BuildTable(station, rows)[i].dhi == Column(rows, DiffuseCode, IrradianceScale)[i]
    ensures BuildTable(station, rows)[i].temperature == Column(rows, TemperatureCode, TenthsScale)[i]
    ensures BuildTable(station, rows)[i].windSpeed == Column(rows, WindCode, TenthsScale)[i]
    ensures GhiCode !in rows ==> BuildTable(station, rows)[i].ghi.None?
  {
  }

  /** Codes other than the five known ones are accumulated but never reach the table. */
  lemma UnknownCodesNotEmitted(station: Station, rows: ChannelRows, code: string, vals: seq<Raw>)
    requires code != GhiCode && code != BeamCode && code != DiffuseCode
    requires code != TemperatureCode && code != WindCode
    ensures BuildTable(station, rows[code := vals]) == BuildTable(station, rows)
  {
    var rows' := rows[code := vals];
    assert Get(rows', GhiCode) == Get(rows, GhiCode);
    assert Get(rows', BeamCode) == Get(rows, BeamCode);
    assert Get(rows', DiffuseCode) == Get(rows, DiffuseCode);
    assert Get(rows', TemperatureCode) == Get(rows, TemperatureCode);
    assert Get(rows', WindCode) == Get(rows, WindCode);
  }
}
