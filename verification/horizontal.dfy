/** The comma-delimited ("horizontal") METPV decoder. The first row carries the station
    position; every further row is one element type on one day: type, month, day, year, then
    24 hourly cells. Each hourly value is stored under its own timestamp in a map from instant
    to four channels, and the map is written out in ascending time order. */
module HorizontalMetpv {
  import opened Wrappers
  import opened Text
  import opened Numerals
  import opened Geo
  import Calendar

  const MinRowCells := 30
  const FirstHourCell := 4
  const HoursPerRow := 24
  /** Instants are keyed within 2016: 366 days of 24 hours. */
  const YearHours := Calendar.DaysInYear * Calendar.HoursPerDay

  const GhiType := 1
  const DiffuseType := 2
  const TemperatureType := 5
  const WindType := 7

  datatype Channels = Channels(ghi: real, dhi: real, temperature: real, windSpeed: real)

  /** The entry a timestamp gets when it is first touched. */
  const Zero := Channels(0.0, 0.0, 0.0, 0.0)

  type Data = map<Calendar.Instant, Channels>

  /** One accepted data row: its type, the instant of its day's 00:00, and its 24 values. */
  datatype Reading = Reading(kind: int, start: Calendar.Instant, values: seq<real>)

  datatype Metadata = Metadata(lat: real, lon: real, elev: real)

  // ---------------------------------------------------------------- cells

  /** `[x.strip() for x in row]`. */
  function StripCells(row: seq<string>): (r: seq<string>)
    ensures |r| == |row| && forall i :: 0 <= i < |r| ==> r[i] == Strip(row[i])
  {
    seq(|row|, i requires 0 <= i < |row| => Strip(row[i]))
  }

  /** `int(float(x))`. */
  function IntCell(x: string): (r: Option<int>)
    ensures r.Some? <==> ParseDecimal(x).Some?
    ensures r.Some? ==> r.value == Truncate(ParseDecimal(x).value)
  {
    match ParseDecimal(x)
    case None => None
    case Some(v) => Some(Truncate(v))
  }

  /** `float(x) if x != '' else 0.0`. */
  function HourCell(x: string): (r: Option<real>)
    ensures x == [] ==> r == Some(0.0)
    ensures x != [] ==> r == ParseDecimal(x)
  {
    if x == [] then Some(0.0) else ParseDecimal(x)
  }

  /** Every hourly cell reads as a number (blank cells read as zero). */
  predicate AllHoursRead(cells: seq<string>) {
    forall i :: 0 <= i < |cells| ==> HourCell(cells[i]).Some?
  }

  /** The hourly list comprehension: every cell must read, or the whole row is dropped. */
  function HourCells(cells: seq<string>): (r: Option<seq<real>>)
    ensures r.Some? <==> AllHoursRead(cells)
    ensures r.Some? ==> |r.value| == |cells|
    ensures r.Some? ==> forall i :: 0 <= i < |cells| ==> HourCell(cells[i]) == Some(r.value[i])
  {
    if AllHoursRead(cells) then Some(seq(|cells|, i requires 0 <= i < |cells| => HourCell(cells[i]).value))
    else None
  }

  /** A data row is read when it has at least 30 cells, its type, month, day and year cells and
      all 24 hourly cells read as numbers, and its month and day are a date of 2016. */
  predicate RowReads(raw: seq<string>) {
    |raw| >= MinRowCells &&
    var row := StripCells(raw);
    && IntCell(row[0]).Some? && IntCell(row[1]).Some? && IntCell(row[2]).Some? && IntCell(row[3]).Some?
    && AllHoursRead(row[FirstHourCell..FirstHourCell + HoursPerRow])
    && Calendar.ValidDate(IntCell(row[1]).value, IntCell(row[2]).value)
  }

  /** The reading a raw data row yields, or `None` when the row is skipped: it has fewer than
      30 cells, a type/month/day/year or hourly cell does not read as a number, or its month
      and day are not a date of 2016. The year is read but not used. */
  function Accept(raw: seq<string>): (r: Option<Reading>)
    ensures |raw| < MinRowCells ==> r.None?
    ensures r.Some? <==> RowReads(raw)
    ensures r.Some? ==>
      var row := StripCells(raw);
      && IntCell(row[0]) == Some(r.value.kind)
      && Calendar.InstantOf(IntCell(row[1]).value, IntCell(row[2]).value, 0) == Some(r.value.start)
      && HourCells(row[FirstHourCell..FirstHourCell + HoursPerRow]) == Some(r.value.values)
    ensures r.Some? ==>
      && |r.value.values| == HoursPerRow
      && r.value.start % Calendar.HoursPerDay == 0
      && r.value.start + HoursPerRow <= YearHours
  {
    if |raw| < MinRowCells then None
    else
      var row := StripCells(raw);
      match IntCell(row[0])
      case None => None
      case Some(kind) =>
        match IntCell(row[1])
        case None => None
        case Some(month) =>
          match IntCell(row[2])
          case None => None
          case Some(day) =>
            match IntCell(row[3])
            case None => None
            case Some(_) =>
              match HourCells(row[FirstHourCell..FirstHourCell + HoursPerRow])
              case None => None
              case Some(values) =>
                assert |values| == HoursPerRow;
                match Calendar.InstantOf(month, day, 0)
                case None => None
                case Some(start) => Some(Reading(kind, start, values))
  }

  // ---------------------------------------------------------------- the timestamp map

  /** The value type `kind` stores for raw value `v`: irradiance in 0.01 MJ/m² to W/m²,
      tenths to units. */
  function Convert(kind: int, v: real): (r: real)
    ensures kind == GhiType || kind == DiffuseType ==> r * 3600.0 == v * 10000.0
    ensures kind != GhiType && kind != DiffuseType ==> r * 10.0 == v
  {
    if kind == GhiType || kind == DiffuseType then v * 10000.0 / 3600.0 else v * 0.1
  }

  /** One row's write into one timestamp's entry: only the channel of its type changes. */
  function Update(c: Channels, kind: int, v: real): (r: Channels)
    ensures kind == GhiType ==> r == c.(ghi := Convert(kind, v))
    ensures kind == DiffuseType ==> r == c.(dhi := Convert(kind, v))
    ensures kind == TemperatureType ==> r == c.(temperature := Convert(kind, v))
    ensures kind == WindType ==> r == c.(windSpeed := Convert(kind, v))
    ensures kind !in {GhiType, DiffuseType, TemperatureType, WindType} ==> r == c
  {
    if kind == GhiType then c.(ghi := v * 10000.0 / 3600.0)
    else if kind == DiffuseType then c.(dhi := v * 10000.0 / 3600.0)
    else if kind == TemperatureType then c.(temperature := v * 0.1)
    else if kind == WindType then c.(windSpeed := v * 0.1)
    else c
  }

  /** The entry of `t` before a write: zeros on first touch. */
  function Prior(data: Data, t: Calendar.Instant): Channels {
    if t in data then data[t] else Zero
  }

  function ApplyHour(data: Data, kind: int, t: Calendar.Instant, v: real): Data {
    data[t := Update(Prior(data, t), kind, v)]
  }

  /** The first `n` hours of one reading applied in hour order. */
  function ApplyHours(data: Data, r: Reading, n: nat): Data
    requires n <= |r.values|
  {
    if n == 0 then data else ApplyHour(ApplyHours(data, r, n - 1), r.kind, r.start + n - 1, r.values[n - 1])
  }

  /** One data row's effect: a skipped row changes nothing, an accepted one writes its day. */
  function StepRow(data: Data, reading: Option<Reading>): Data
    requires reading.Some? ==> |reading.value.values| == HoursPerRow
  {
    match reading
    case None => data
    case Some(r) => ApplyHours(data, r, HoursPerRow)
  }

  /** The map after all data rows in order. */
  function Decode(rows: seq<seq<string>>): Data {
    if rows == [] then map[] else StepRow(Decode(rows[..|rows| - 1]), Accept(rows[|rows| - 1]))
  }

  lemma DecodeStep(rows: seq<seq<string>>, i: nat)
    requires i < |rows|
    ensures Decode(rows[..i + 1]) == StepRow(Decode(rows[..i]), Accept(rows[i]))
  {
    assert rows[..i + 1][..i] == rows[..i];
  }

  /** The hour loop for one accepted row. */
  method ApplyReading(data: Data, r: Reading) returns (out: Data)
    requires |r.values| == HoursPerRow
    ensures out == ApplyHours(data, r, HoursPerRow)
  {
    out := data;
    for h := 0 to HoursPerRow
      invariant out == ApplyHours(data, r, h)
    {
      var t := r.start + h;
      if t !in out {
        out := out[t := Zero];
      }
      var c := out[t];
      if r.kind == GhiType {
        out := out[t := c.(ghi := r.values[h] * 10000.0 / 3600.0)];
      } else if r.kind == DiffuseType {
        out := out[t := c.(dhi := r.values[h] * 10000.0 / 3600.0)];
      } else if r.kind == TemperatureType {
        out := out[t := c.(temperature := r.values[h] * 0.1)];
      } else if r.kind == WindType {
        out := out[t := c.(windSpeed := r.values[h] * 0.1)];
      }
    }
  }

  lemma DecodeAppend(rows: seq<seq<string>>, raw: seq<string>)
    ensures Decode(rows + [raw]) == StepRow(Decode(rows), Accept(raw))
  {
    var all := rows + [raw];
    assert all[..|all| - 1] == rows;
  }

  /** The row loop. */
  method DecodeRows(rows: seq<seq<string>>) returns (data: Data)
    ensures data == Decode(rows)
  {
    data := map[];
    var i := 0;
    while i < |rows|
      invariant 0 <= i <= |rows|
      invariant data == Decode(rows[..i])
    {
      DecodeStep(rows, i);
      var reading := Accept(rows[i]);
      if reading.Some? {
        data := ApplyReading(data, reading.value);
      }
      i := i + 1;
    }
    assert rows[..i] == rows;
  }

  // ---------------------------------------------------------------- properties of the map

  /** The instants `start`, …, `start + n - 1`. */
  function Span(start: Calendar.Instant, n: nat): (s: set<Calendar.Instant>)
    ensures forall t :: t in s <==> start <= t < start + n
  {
    if n == 0 then {} else Span(start, n - 1) + {start + n - 1}
  }

  /** A reading touches exactly the instants of its day. */
  lemma {:induction false} ApplyHoursKeys(data: Data, r: Reading, n: nat)
    requires n <= |r.values|
    ensures ApplyHours(data, r, n).Keys == data.Keys + Span(r.start, n)
  {
    if n > 0 {
      ApplyHoursKeys(data, r, n - 1);
    }
  }

  /** Hour `h` of a reading lands at `start + h`, written over what was there before the
      reading (zeros on first touch); instants outside the day are left alone. */
  lemma {:induction false} ApplyHoursValues(data: Data, r: Reading, n: nat, t: Calendar.Instant)
    requires n <= |r.values|
    ensures r.start <= t < r.start + n ==>
      t in ApplyHours(data, r, n) &&
      ApplyHours(data, r, n)[t] == Update(Prior(data, t), r.kind, r.values[t - r.start])
    ensures !(r.start <= t < r.start + n) ==>
      (t in ApplyHours(data, r, n) <==> t in data) &&
      (t in data ==> ApplyHours(data, r, n)[t] == data[t])
  {
    if n > 0 {
      ApplyHoursValues(data, r, n - 1, t);
    }
  }

  /** Every instant in the map lies within 2016. */
  ghost predicate WithinYear(data: Data) {
    forall t :: t in data ==> t < YearHours
  }

  lemma {:induction false} DecodeWithinYear(rows: seq<seq<string>>)
    ensures WithinYear(Decode(rows))
  {
    if rows != [] {
      var prior := Decode(rows[..|rows| - 1]);
      DecodeWithinYear(rows[..|rows| - 1]);
      var reading := Accept(rows[|rows| - 1]);
      if reading.Some? {
        ApplyHoursKeys(prior, reading.value, HoursPerRow);
      }
    }
  }

  /** Instant `t` is an hour of the day an accepted row covers. */
  ghost predicate Covers(reading: Option<Reading>, t: Calendar.Instant) {
    reading.Some? && reading.value.start <= t < reading.value.start + HoursPerRow
  }

  /** What each row reads as, in file order. */
  function Readings(rows: seq<seq<string>>): (r: seq<Option<Reading>>)
    ensures |r| == |rows|
    ensures forall i :: 0 <= i < |rows| ==> r[i] == Accept(rows[i])
  {
    if rows == [] then [] else Readings(rows[..|rows| - 1]) + [Accept(rows[|rows| - 1])]
  }

  /** Some accepted row among `readings` covers instant `t`. */
  ghost predicate CoveredBy(readings: seq<Option<Reading>>, t: Calendar.Instant) {
    exists i :: 0 <= i < |readings| && Covers(readings[i], t)
  }

  /** One more reading covers what the earlier ones cover and its own day. */
  lemma CoveredByAppend(readings: seq<Option<Reading>>, last: Option<Reading>, t: Calendar.Instant)
    ensures CoveredBy(readings + [last], t) <==> CoveredBy(readings, t) || Covers(last, t)
  {
    var all := readings + [last];
    if CoveredBy(readings, t) {
      var i :| 0 <= i < |readings| && Covers(readings[i], t);
      assert all[i] == readings[i];
    }
    if Covers(last, t) {
      assert all[|readings|] == last;
    }
  }

  /** A row adds to the map's instants exactly the hours it covers. */
  lemma StepRowKeys(data: Data, reading: Option<Reading>, t: Calendar.Instant)
    requires reading.Some? ==> |reading.value.values| == HoursPerRow
    ensures t in StepRow(data, reading) <==> t in data || Covers(reading, t)
  {
    if reading.Some? {
      ApplyHoursKeys(data, reading.value, HoursPerRow);
    }
  }

  /** The decoded map has an entry for exactly the hours of the days of its accepted rows. */
  lemma {:induction false} DecodeKeys(rows: seq<seq<string>>, t: Calendar.Instant)
    ensures t in Decode(rows) <==> CoveredBy(Readings(rows), t)
  {
    if rows != [] {
      var init := rows[..|rows| - 1];
      var reading := Accept(rows[|rows| - 1]);
      DecodeKeys(init, t);
      StepRowKeys(Decode(init), reading, t);
      assert Readings(rows) == Readings(init) + [reading];
      CoveredByAppend(Readings(init), reading, t);
    }
  }

  /** A skipped row (too short, unreadable cell, impossible date) leaves the map unchanged. */
  lemma SkippedRowChangesNothing(rows: seq<seq<string>>, raw: seq<string>)
    requires Accept(raw).None?
    ensures Decode(rows + [raw]) == Decode(rows)
  {
    DecodeAppend(rows, raw);
  }

  /** The effect of an accepted row, stated per instant: hour `h` of the row lands at
      `start + h`, where `Update` writes the converted value into its type's channel over what
      was there (zeros if the instant is new), so a later row of the same type and instant
      wins; every instant outside the row's day keeps its entry, or stays absent. */
  lemma AcceptedRowEffect(rows: seq<seq<string>>, raw: seq<string>, r: Reading, t: Calendar.Instant)
    requires Accept(raw) == Some(r)
    ensures r.start <= t < r.start + HoursPerRow ==>
      && t in Decode(rows + [raw])
      && Decode(rows + [raw])[t] == Update(Prior(Decode(rows), t), r.kind, r.values[t - r.start])
    ensures !(r.start <= t < r.start + HoursPerRow) ==>
      && (t in Decode(rows + [raw]) <==> t in Decode(rows))
      && (t in Decode(rows) ==> Decode(rows + [raw])[t] == Decode(rows)[t])
  {
    DecodeAppend(rows, raw);
    ApplyHoursValues(Decode(rows), r, HoursPerRow, t);
  }

  /** A row's key is its own month and day in 2016 plus the hour offset; the year cell does not
      take part: rows that differ only in a readable year cell are read the same. */
  lemma YearIgnored(raw1: seq<string>, raw2: seq<string>)
    requires |raw1| == |raw2| >= MinRowCells
    requires forall i :: 0 <= i < |raw1| && i != 3 ==> raw1[i] == raw2[i]
    requires IntCell(Strip(raw1[3])).Some? && IntCell(Strip(raw2[3])).Some?
    ensures Accept(raw1) == Accept(raw2)
  {
    var row1, row2 := StripCells(raw1), StripCells(raw2);
    assert row1[FirstHourCell..FirstHourCell + HoursPerRow] == row2[FirstHourCell..FirstHourCell + HoursPerRow];
  }

  /** Blank hourly cells read as zero, not as missing. */
  lemma BlankCellIsZero(raw: seq<string>, h: nat)
    requires Accept(raw).Some? && h < HoursPerRow
    requires Strip(raw[FirstHourCell + h]) == []
    ensures Accept(raw).value.values[h] == 0.0
  {
    var cells := StripCells(raw)[FirstHourCell..FirstHourCell + HoursPerRow];
    AcceptedValues(raw);
    assert cells[h] == [];
  }

  /** An accepted row's values are its hourly cells, read. */
  lemma AcceptedValues(raw: seq<string>)
    requires Accept(raw).Some?
    ensures HourCells(StripCells(raw)[FirstHourCell..FirstHourCell + HoursPerRow]) == Some(Accept(raw).value.values)
  {
  }

  // ---------------------------------------------------------------- output

  /** The instants of `data` below `n` in ascending order. */
  function InstantsBelow(data: Data, n: nat): (ts: seq<Calendar.Instant>)
    ensures forall i, j :: 0 <= i < j < |ts| ==> ts[i] < ts[j]
    ensures forall t :: t in ts <==> t in data && t < n
  {
    if n == 0 then []
    else
      var prior := InstantsBelow(data, n - 1);
      assert forall i :: 0 <= i < |prior| ==> prior[i] < n - 1 by {
        forall i | 0 <= i < |prior| ensures prior[i] < n - 1 {
          assert prior[i] in prior;
        }
      }
      if n - 1 in data then prior + [n - 1] else prior
  }

  datatype OutRow = OutRow(time: Calendar.Instant, values: Channels, position: Option<Metadata>)

  /** `sort_index()` of the map, with the station position on every row when known. */
  function SortedRows(data: Data, meta: Option<Metadata>): (rows: seq<OutRow>)
    requires WithinYear(data)
    ensures forall i, j :: 0 <= i < j < |rows| ==> rows[i].time < rows[j].time
    ensures forall i :: 0 <= i < |rows| ==> rows[i].time in data && rows[i].values == data[rows[i].time]
    ensures forall i :: 0 <= i < |rows| ==> rows[i].position == meta
  {
    var ts := InstantsBelow(data, YearHours);
    seq(|ts|, i requires 0 <= i < |ts| => OutRow(ts[i], data[ts[i]], meta))
  }

  /** Every instant of the map has its row: the output is the whole map, once each. */
  lemma SortedRowsComplete(data: Data, meta: Option<Metadata>)
    requires WithinYear(data)
    ensures forall t :: t in data <==> exists i :: 0 <= i < |SortedRows(data, meta)| && SortedRows(data, meta)[i].time == t
  {
    var ts := InstantsBelow(data, YearHours);
    var rows := SortedRows(data, meta);
    assert |rows| == |ts| && forall i :: 0 <= i < |ts| ==> rows[i].time == ts[i];
    forall t | t in data
      ensures exists i :: 0 <= i < |rows| && rows[i].time == t
    {
      assert t in ts;
      var i :| 0 <= i < |ts| && ts[i] == t;
      assert rows[i].time == t;
    }
  }

  // ---------------------------------------------------------------- header and whole run

  /** Every cell reads as a number. */
  predicate AllRead(cells: seq<string>) {
    forall i :: 0 <= i < |cells| ==> ParseDecimal(cells[i]).Some?
  }

  /** `float(x)` of every cell, or `None` if one of them raises. */
  function ReadNumbers(cells: seq<string>): (r: Option<seq<real>>)
    ensures r.Some? <==> AllRead(cells)
    ensures r.Some? ==> |r.value| == |cells|
    ensures r.Some? ==> forall i :: 0 <= i < |cells| ==> ParseDecimal(cells[i]) == Some(r.value[i])
  {
    if AllRead(cells) then Some(seq(|cells|, i requires 0 <= i < |cells| => ParseDecimal(cells[i]).value))
    else None
  }

  /** Reading two runs of cells one after the other reads their concatenation. */
  lemma ReadNumbersAppend(a: seq<string>, b: seq<string>)
    ensures ReadNumbers(a + b).Some? <==> ReadNumbers(a).Some? && ReadNumbers(b).Some?
    ensures ReadNumbers(a + b).Some? ==> ReadNumbers(a + b).value == ReadNumbers(a).value + ReadNumbers(b).value
  {
    var ab := a + b;
    assert forall i :: 0 <= i < |a| ==> ab[i] == a[i];
    assert forall i :: 0 <= i < |b| ==> ab[|a| + i] == b[i];
    if AllRead(a) && AllRead(b) {
      assert AllRead(ab) by {
        forall i | 0 <= i < |ab| ensures ParseDecimal(ab[i]).Some? {
          if i >= |a| {
            assert ab[i] == b[i - |a|];
          }
        }
      }
    }
  }

  datatype HeaderOutcome =
    | Parsed(meta: Metadata)
    | TooShort     // fewer than 7 cells: no position, nothing reported
    | Malformed    // no first row, or a position cell does not read: reported, decoding goes on

  /** The station row, read all or nothing: `lat = h[2] + h[3]/60`, `lon = h[4] + h[5]/60`,
      `elev = h[6]`. */
  function ParseHeader(file: seq<seq<string>>): (r: HeaderOutcome)
    ensures r.TooShort? <==> file != [] && |file[0]| < 7
    ensures r.Malformed? <==> (file == [] || (|file[0]| >= 7 && !AllRead(file[0][2..7])))
    ensures r.Parsed? <==> file != [] && |file[0]| >= 7 && AllRead(file[0][2..7])
    ensures r.Parsed? ==>
      var v := ReadNumbers(file[0][2..7]).value;
      r.meta == Metadata(Degrees(v[0], v[1]), Degrees(v[2], v[3]), v[4])
  {
    if file == [] then Malformed
    else
      var h := file[0];
      if |h| < 7 then TooShort
      else
        match ReadNumbers(h[2..7])
        case None => Malformed
        case Some(v) => Parsed(Metadata(Degrees(v[0], v[1]), Degrees(v[2], v[3]), v[4]))
  }

  /** The position cells are the header's cells 2 to 6, read with `float()`. */
  lemma ParsedHeaderCells(file: seq<seq<string>>)
    requires ParseHeader(file).Parsed?
    ensures file != [] && |file[0]| >= 7
    ensures var h, m := file[0], ParseHeader(file).meta;
      && ParseDecimal(h[2]).Some? && ParseDecimal(h[3]).Some? && ParseDecimal(h[4]).Some?
      && ParseDecimal(h[5]).Some? && ParseDecimal(h[6]).Some?
      && m.lat == Degrees(ParseDecimal(h[2]).value, ParseDecimal(h[3]).value)
      && m.lon == Degrees(ParseDecimal(h[4]).value, ParseDecimal(h[5]).value)
      && m.elev == ParseDecimal(h[6]).value
  {
    var h := file[0];
    var cells := h[2..7];
    assert cells[0] == h[2] && cells[1] == h[3] && cells[2] == h[4] && cells[3] == h[5] && cells[4] == h[6];
  }

  datatype Outcome =
    | NoData                   // nothing decoded: nothing is written
    | Written(rows: seq<OutRow>)

  /** The whole conversion of a file given as its CSV rows. A header problem is reported and
      never stops the run; with no decoded row nothing is written. */
  method ConvertFile(file: seq<seq<string>>) returns (header: HeaderOutcome, out: Outcome)
    ensures header == ParseHeader(file)
    ensures out.NoData? <==> Decode(if file == [] then [] else file[1..]) == map[]
    ensures out.Written? ==>
      var data := Decode(file[1..]);
      && WithinYear(data)
      && out.rows == SortedRows(data, if header.Parsed? then Some(header.meta) else None)
  {
    header := ParseHeader(file);
    var body := if file == [] then [] else file[1..];
    var data := DecodeRows(body);
    if data == map[] {
      return header, NoData;
    }
    DecodeWithinYear(body);
    out := Written(SortedRows(data, if header.Parsed? then Some(header.meta) else None));
  }

  // ---------------------------------------------------------------- the header as written

  /** The metadata dictionary as the header block leaves it: the three assignments run in
      order and the first unreadable cell abandons the rest, so `lat` can be set without
      `lon`, and `lat` and `lon` without `elev`. */
  datatype PartialMetadata = PartialMetadata(lat: Option<real>, lon: Option<real>, elev: Option<real>)

  /** `float(h[k]) + float(h[k + 1])/60.0`, or `None` if either cell raises. */
  function DegreesAt(h: seq<string>, k: nat): (r: Option<real>)
    requires k + 2 <= |h|
    ensures r.Some? <==> ReadNumbers(h[k..k + 2]).Some?
    ensures r.Some? ==> r.value == Degrees(ReadNumbers(h[k..k + 2]).value[0], ReadNumbers(h[k..k + 2]).value[1])
    ensures r.Some? <==> ParseDecimal(h[k]).Some? && ParseDecimal(h[k + 1]).Some?
    ensures r.Some? ==> r.value == Degrees(ParseDecimal(h[k]).value, ParseDecimal(h[k + 1]).value)
  {
    var pair := h[k..k + 2];
    assert pair[0] == h[k] && pair[1] == h[k + 1];
    match ReadNumbers(pair)
    case None => None
    case Some(v) => Some(Degrees(v[0], v[1]))
  }

  function HeaderAsWritten(file: seq<seq<string>>): (m: PartialMetadata)
    ensures m.lon.Some? ==> m.lat.Some?
    ensures m.elev.Some? ==> m.lon.Some?
    ensures file == [] || |file[0]| < 7 ==> m == PartialMetadata(None, None, None)
    ensures m.lat.Some? <==>
      file != [] && |file[0]| >= 7 && ParseDecimal(file[0][2]).Some? && ParseDecimal(file[0][3]).Some?
    ensures m.lat.Some? ==> m.lat.value == Degrees(ParseDecimal(file[0][2]).value, ParseDecimal(file[0][3]).value)
    ensures m.lon.Some? <==> m.lat.Some? && ParseDecimal(file[0][4]).Some? && ParseDecimal(file[0][5]).Some?
    ensures m.lon.Some? ==> m.lon.value == Degrees(ParseDecimal(file[0][4]).value, ParseDecimal(file[0][5]).value)
    ensures m.elev.Some? <==> m.lon.Some? && ParseDecimal(file[0][6]).Some?
    ensures m.elev.Some? ==> m.elev.value == ParseDecimal(file[0][6]).value
  {
    if file == [] || |file[0]| < 7 then PartialMetadata(None, None, None)
    else
      var h := file[0];
      var lat := DegreesAt(h, 2);
      if lat.None? then PartialMetadata(None, None, None)
      else
        var lon := DegreesAt(h, 4);
        if lon.None? then PartialMetadata(lat, None, None)
        else PartialMetadata(lat, lon, ParseDecimal(h[6]))
  }

  /** Five cells that each read are read all together. */
  lemma FiveCellsRead(cells: seq<string>)
    requires |cells| == 5
    requires ParseDecimal(cells[0]).Some? && ParseDecimal(cells[1]).Some? && ParseDecimal(cells[2]).Some?
    requires ParseDecimal(cells[3]).Some? && ParseDecimal(cells[4]).Some?
    ensures AllRead(cells)
  {
    forall i | 0 <= i < 5
      ensures ParseDecimal(cells[i]).Some?
    {
      assert i == 0 || i == 1 || i == 2 || i == 3 || i == 4;
    }
  }

  /** The all-or-nothing header agrees with the dictionary exactly when the latter is
      complete, and then on every value. */
  lemma HeaderAsWrittenComplete(file: seq<seq<string>>)
    ensures HeaderAsWritten(file).elev.Some? <==> ParseHeader(file).Parsed?
    ensures ParseHeader(file).Parsed? ==>
      var m := HeaderAsWritten(file);
      var p := ParseHeader(file).meta;
      m.lat == Some(p.lat) && m.lon == Some(p.lon) && m.elev == Some(p.elev)
  {
    if file != [] && |file[0]| >= 7 {
      var h := file[0];
      var cells := h[2..7];
      if ParseHeader(file).Parsed? {
        ParsedHeaderCells(file);
      } else if HeaderAsWritten(file).elev.Some? {
        assert cells[0] == h[2] && cells[1] == h[3] && cells[2] == h[4] && cells[3] == h[5] && cells[4] == h[6];
        FiveCellsRead(cells);
        assert false;
      }
    }
  }

  datatype RunAsWritten =
    | NothingWritten             // no decoded row: the run returns before the output step
    | Aborted                    // `metadata['lon']` or `metadata['elev']` raises `KeyError`
    | Saved(rows: seq<OutRow>)

  /** The output step as written: `if metadata:` is true as soon as `lat` is set, and the
      lookups of `lon` and `elev` then fail on a partial dictionary, after all data rows were
      decoded and before anything is written. */
  function ConvertAsWritten(file: seq<seq<string>>): (r: RunAsWritten)
    ensures r.NothingWritten? <==> Decode(if file == [] then [] else file[1..]) == map[]
  {
    var body := if file == [] then [] else file[1..];
    var data := Decode(body);
    if data == map[] then NothingWritten
    else
      DecodeWithinYear(body);
      var m := HeaderAsWritten(file);
      if m.lat.None? then Saved(SortedRows(data, None))
      else if m.lon.None? || m.elev.None? then Aborted
      else Saved(SortedRows(data, Some(Metadata(m.lat.value, m.lon.value, m.elev.value))))
  }

  /** As written, a run with decoded data is lost exactly when the header's latitude reads
      but its longitude or elevation does not; the all-or-nothing header never loses it and
      otherwise writes the same rows. */
  lemma AbortedExactlyOnPartialHeader(file: seq<seq<string>>)
    requires Decode(if file == [] then [] else file[1..]) != map[]
    ensures ConvertAsWritten(file).Aborted? <==>
      HeaderAsWritten(file).lat.Some? && HeaderAsWritten(file).elev.None?
    ensures ConvertAsWritten(file).Saved? ==>
      var data := Decode(file[1..]);
      WithinYear(data) &&
      ConvertAsWritten(file).rows ==
        SortedRows(data, if ParseHeader(file).Parsed? then Some(ParseHeader(file).meta) else None)
  {
    HeaderAsWrittenComplete(file);
    if file != [] {
      DecodeWithinYear(file[1..]);
    }
  }

  lemma ReadPair(a: string, b: string, x: real, y: real)
    requires ParseDecimal(a) == Some(x) && ParseDecimal(b) == Some(y)
    ensures ReadNumbers([a, b]) == Some([x, y])
  {
    var cells := [a, b];
    assert cells[0] == a && cells[1] == b;
    assert AllRead(cells);
    ReadPairValues(cells, x, y);
  }

  lemma ReadPairValues(cells: seq<string>, x: real, y: real)
    requires |cells| == 2 && AllRead(cells)
    requires ParseDecimal(cells[0]) == Some(x) && ParseDecimal(cells[1]) == Some(y)
    ensures ReadNumbers(cells) == Some([x, y])
  {
    var v := ReadNumbers(cells).value;
    assert |v| == 2;
    assert ParseDecimal(cells[0]) == Some(v[0]);
    assert ParseDecimal(cells[1]) == Some(v[1]);
    assert v == [v[0], v[1]];
  }

  lemma BlankCellUnreadable()
    ensures ParseDecimal("") == None
  {
  }

  lemma NumeralsSpelled()
    ensures NatToString(34) == "34" && NatToString(51) == "51"
  {
  }

  /** Two readable cells at `k` give degrees and minutes. */
  lemma DegreesRead(h: seq<string>, k: nat, x: real, y: real)
    requires k + 2 <= |h|
    requires ParseDecimal(h[k]) == Some(x) && ParseDecimal(h[k + 1]) == Some(y)
    ensures DegreesAt(h, k) == Some(Degrees(x, y))
  {
    assert h[k..k + 2] == [h[k], h[k + 1]];
    ReadPair(h[k], h[k + 1], x, y);
  }

  /** A blank minutes cell at `k + 1` makes the pair unreadable. */
  lemma BlankMinutesUnread(h: seq<string>, k: nat)
    requires k + 2 <= |h| && h[k + 1] == []
    ensures DegreesAt(h, k) == None
  {
    BlankCellUnreadable();
    assert h[k..k + 2][1] == h[k + 1];
  }

  /** A station row whose latitude cells read and whose longitude minutes cell is blank
      sets `lat` and nothing else. */
  lemma BlankLongitudeMinutesIsPartial(h: seq<string>, x: real, y: real)
    requires |h| >= 7 && h[5] == []
    requires ParseDecimal(h[2]) == Some(x) && ParseDecimal(h[3]) == Some(y)
    ensures HeaderAsWritten([h]) == PartialMetadata(Some(Degrees(x, y)), None, None)
  {
    DegreesRead(h, 2, x, y);
    BlankMinutesUnread(h, 4);
  }

  /** The same row is malformed for the all-or-nothing header. */
  lemma BlankLongitudeMinutesIsMalformed(h: seq<string>)
    requires |h| >= 7 && h[5] == []
    ensures ParseHeader([h]) == Malformed
  {
    BlankCellUnreadable();
    assert !AllRead(h[2..7]) by {
      assert h[2..7][3] == h[5];
    }
  }

  /** A hypothetical station row whose longitude-minutes cell is blank, such as
      `53091,Tsu,34,51,136,,2`. */
  const BlankLonMinutesRow: seq<string> := ["53091", "Tsu", "34", "51", "136", "", "2"]

  /** With that row `lat` is set to 34°51' and `lon` is not. */
  lemma BlankLonMinutesRowIsPartial(h: seq<string>)
    requires h == BlankLonMinutesRow
    ensures HeaderAsWritten([h]) == PartialMetadata(Some(Degrees(34.0, 51.0)), None, None)
  {
    NumeralsSpelled();
    assert |h| == 7 && h[5] == [] && h[2] == NatToString(34) && h[3] == NatToString(51);
    ParseDecimalOfNatToString(34);
    ParseDecimalOfNatToString(51);
    BlankLongitudeMinutesIsPartial(h, 34.0, 51.0);
  }

  /** The all-or-nothing header reports that row malformed. */
  lemma BlankLonMinutesRowIsMalformed(h: seq<string>)
    requires h == BlankLonMinutesRow
    ensures ParseHeader([h]) == Malformed
  {
    assert |h| == 7 && h[5] == [];
    BlankLongitudeMinutesIsMalformed(h);
  }

  /** A file headed by that row loses all its decoded data as written, while the
      all-or-nothing header reports the row and writes the data without a position. */
  lemma FileWithBlankLonMinutesIsLost(file: seq<seq<string>>)
    requires file != [] && file[0] == BlankLonMinutesRow
    requires Decode(file[1..]) != map[]
    ensures ConvertAsWritten(file) == Aborted
    ensures ParseHeader(file) == Malformed
  {
    var h := file[0];
    BlankLonMinutesRowIsPartial(h);
    BlankLonMinutesRowIsMalformed(h);
    assert HeaderAsWritten(file) == HeaderAsWritten([h]);
    assert ParseHeader(file) == ParseHeader([h]);
    AbortedExactlyOnPartialHeader(file);
  }
}
