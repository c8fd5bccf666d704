# Solar-plant simulation inputs: METPV weather decoders and site configuration

This project models the data-preparation core of a toolchain that simulates the yield of a
photovoltaic plant in Japan:

- **The fixed-width METPV-11 decoder** (`Metpv11`). It reads the station header at fixed
  columns and collects, per element code, the 24 five-character hourly fields of every data
  line of 130 characters or more. The field's fifth character is a remark and is dropped. The
  sentinel 8888 and unreadable fields become missing values. The decoder lays each code's
  values on an 8760-hour axis that starts at 2016-01-01 00:00, and scales them once. The
  station position is repeated on every row.
- **The comma-delimited METPV decoder** (`HorizontalMetpv`). It reads the station row's
  position and turns every readable row into 24 timestamped values. A readable row has 30
  cells or more, its cells 0 to 3 read, its hour cells are blank or read, and its month and day form a 2016
  date; other rows are skipped. It stores those
  values in a map keyed by instant, where the row's type chooses which of four channels is
  written. The map is then written out in ascending time order, with the position when the
  header supplied one.
- **The site configuration step** (`SiteConfig`). It takes the project name from a drawing's
  file name (the text after the last underscore, stripped) and looks it up in the site table.
  It turns the compass text into an azimuth: 180 is south, turned west or east by the first
  number in the text. It expands each PCS group, whose unit count is the number before `台`,
  into one inverter system per unit, in area order, then group order, then unit order.
- **Two helpers of the desktop automation script** (`DemoAutomation`). One picks a save name
  that does not overwrite an existing file (`name`, then `name_1` … `name_100`). When all of
  `name_1` … `name_100` exist it falls back to `name` even though that file exists. The other
  resolves a possibly negative list index.

Shared modules model the Python behaviour the core relies on:

- `Text`: `strip()` over the `isspace` characters, clamped slicing, and the substring test.
- `Numerals`: `int()` and `float()` on plain decimal literals, `int(float(x))` truncation, and
  `str(n)`.
- `Calendar`: the hours of the leap year 2016.
- `Geo`: degrees and minutes.

The file system, the configuration file and the CSV reader are parameters. A file is its
sequence of lines or of rows of cells, and the disk is the set of paths that exist.

## Model

| member | source | states |
|---|---|---|
| Metpv11.DecodeHeader | metpv_11_automation/convert_metpv11_FINAL_CORRECT.py:16-21 | The header decodes exactly when all five position fields parse. Then the id and name are the stripped columns [0,5) and [6,26), latitude and longitude are degrees + minutes/60 of [26,31)/[31,36) and [36,41)/[41,46), and elevation is [46,54). |
| Metpv11.HeaderReadsFirst54 | metpv_11_automation/convert_metpv11_FINAL_CORRECT.py:16-21 | Two headers that agree on their first 54 characters decode alike. |
| Metpv11.ValueWindow | metpv_11_automation/convert_metpv11_FINAL_CORRECT.py:40-45 | The first four characters of the five-character field at 15 + 5h are the line's characters [15+5h, 19+5h), clamped at the line's end. |
| Metpv11.HourValue | metpv_11_automation/convert_metpv11_FINAL_CORRECT.py:48-55 | A field is a value exactly when `int()` accepts it and it is not 8888, and the value is what `int()` gives. |
| Metpv11.DecodeLine | metpv_11_automation/convert_metpv11_FINAL_CORRECT.py:37-55 | A line yields 24 values, and value h is the decoded field h. |
| Metpv11.DecodeField | metpv_11_automation/convert_metpv11_FINAL_CORRECT.py:40-55 | The field-decoding statements compute the decoded field h. |
| Metpv11.DecodeHours | metpv_11_automation/convert_metpv11_FINAL_CORRECT.py:37-55 | The 24-hour loop produces exactly the decoded line. |
| Metpv11.DecodeDataLines | metpv_11_automation/convert_metpv11_FINAL_CORRECT.py:32-59 | The loop over data lines produces the per-code accumulation of all lines in order. |
| Metpv11.StepEffect | metpv_11_automation/convert_metpv11_FINAL_CORRECT.py:32-59 | A line under 130 characters changes nothing. An accepted line adds its code to the keys and appends its 24 values to that code's sequence; every other code's sequence is unchanged. |
| Metpv11.AccumulateKeys | metpv_11_automation/convert_metpv11_FINAL_CORRECT.py:32-59 | The accumulation has a key for a code exactly when some line of 130 characters or more carries that code. |
| Metpv11.HourReadsOnlyValueChars | metpv_11_automation/convert_metpv11_FINAL_CORRECT.py:42-46 | Hour h's value depends only on the four value characters of its window. |
| Metpv11.RemarkIgnored | metpv_11_automation/convert_metpv11_FINAL_CORRECT.py:44-46 | Changing a window's fifth (remark) character never changes the value. |
| Metpv11.SentinelAndGarbageAreMissing | metpv_11_automation/convert_metpv11_FINAL_CORRECT.py:48-55 | 8888 never survives decoding. A field `int()` rejects is missing, and so is the sentinel. |
| Metpv11.OtherHoursUnaffected | metpv_11_automation/convert_metpv11_FINAL_CORRECT.py:39-55 | Rewriting one hour's window leaves the other 23 decoded hours as they were. |
| Metpv11.MonthDayIgnored | metpv_11_automation/convert_metpv11_FINAL_CORRECT.py:32-59 | Columns [5,15) (month and day) are never read: lines that differ only there have the same effect. |
| Metpv11.ShortLineIgnored | metpv_11_automation/convert_metpv11_FINAL_CORRECT.py:33 | A line under 130 characters contributes nothing wherever it sits among the others. |
| Metpv11.LinesOf | metpv_11_automation/convert_metpv11_FINAL_CORRECT.py:32-35 | The selected lines are exactly the file's lines of 130 characters or more that carry the code: every selected line is such a line, and every such line is selected. |
| Metpv11.LinesOfAppend | metpv_11_automation/convert_metpv11_FINAL_CORRECT.py:32-35 | Selection keeps file order and multiplicity: one more line is appended after those already selected exactly when it is 130 characters or more and carries the code. |
| Metpv11.ChannelIsConcatenation | metpv_11_automation/convert_metpv11_FINAL_CORRECT.py:57-59 | A code's sequence is exactly the decoded hours of its accepted lines, concatenated in file order. |
| Metpv11.ConcatIndex | metpv_11_automation/convert_metpv11_FINAL_CORRECT.py:57-59 | In a concatenation, value 24k + h is hour h of the k-th line. |
| Metpv11.ChannelPosition | metpv_11_automation/convert_metpv11_FINAL_CORRECT.py:57-59 | A code's sequence is 24 values per accepted line, and value 24k + h is hour h of the code's k-th accepted line. |
| Metpv11.Column | metpv_11_automation/convert_metpv11_FINAL_CORRECT.py:65-70 | A column has 8760 entries. Entry i is value i scaled once, or missing past the code's last value. |
| Metpv11.BuildTable | metpv_11_automation/convert_metpv11_FINAL_CORRECT.py:61-63 | The table has 8760 rows. Row i is instant i and carries the station's latitude, longitude and elevation. |
| Metpv11.Convert | metpv_11_automation/convert_metpv11_FINAL_CORRECT.py:11-93 | An empty file fails, and an unreadable header fails. Otherwise the result is the table built from the header's station and the accumulation of lines 1 onward. |
| Metpv11.TableIsHourly | metpv_11_automation/convert_metpv11_FINAL_CORRECT.py:62-63 | The first row is 2016-01-01 00:00 and each row is one hour after the previous one, so times strictly increase. |
| Metpv11.TableCalendarSpan | metpv_11_automation/convert_metpv11_FINAL_CORRECT.py:62-63 | The last row is 2016-12-30 23:00, and day 60 falls on February 29. |
| Metpv11.TableChannels | metpv_11_automation/convert_metpv11_FINAL_CORRECT.py:79-85 | Each output channel is its code's column (GHI, beam and diffuse ×2.7778; temperature and wind ×0.1). A code never seen gives missing values. |
| Metpv11.UnknownCodesNotEmitted | metpv_11_automation/convert_metpv11_FINAL_CORRECT.py:79-89 | Codes other than 00001/2/3/5/7 never change the table. |
| HorizontalMetpv.StripCells | metpv_20_automation/convert_horizontal_pysam.py:26 | Every cell is stripped, and the row keeps its length. |
| HorizontalMetpv.IntCell | metpv_20_automation/convert_horizontal_pysam.py:31-34 | `int(float(x))` succeeds exactly when `float` does, and truncates toward zero. |
| HorizontalMetpv.HourCell | metpv_20_automation/convert_horizontal_pysam.py:37 | A blank hourly cell reads 0.0, and any other cell is read with `float()`. |
| HorizontalMetpv.HourCells | metpv_20_automation/convert_horizontal_pysam.py:37 | The hourly values exist exactly when every cell reads, and then value i is cell i read. |
| HorizontalMetpv.Convert | metpv_20_automation/convert_horizontal_pysam.py:58-69 | Irradiance (types 1 and 2) is converted from 0.01 MJ/m² to W/m²: the result times 3600 is the value times 10000. Other types are tenths: the result times 10 is the value. |
| HorizontalMetpv.Accept | metpv_20_automation/convert_horizontal_pysam.py:26-49 | A row is accepted exactly when it has 30 cells or more, its stripped cells 0 to 3 pass `int(float())`, its 24 hourly cells read, and month and day form a date of 2016; rows under 30 cells are skipped. The reading's type is cell 0 read, its start is 2016-month-day 00:00 from cells 1 and 2, and its values are cells 4 to 27 read. The day lies wholly within 2016. |
| HorizontalMetpv.Update | metpv_20_automation/convert_horizontal_pysam.py:58-69 | Type 1 writes GHI (×10000/3600), 2 writes DHI, 5 writes temperature (×0.1) and 7 writes wind. Any other type leaves the entry as it was. |
| HorizontalMetpv.ApplyReading | metpv_20_automation/convert_horizontal_pysam.py:51-69 | The hour loop writes the row's 24 values in order, with zeros on first touch, as the specification function does. |
| HorizontalMetpv.DecodeStep | metpv_20_automation/convert_horizontal_pysam.py:25-72 | Row i's effect is applied to the map built from the rows before it. |
| HorizontalMetpv.DecodeAppend | metpv_20_automation/convert_horizontal_pysam.py:25-72 | The map after one more row is that row's effect on the map before it. |
| HorizontalMetpv.DecodeRows | metpv_20_automation/convert_horizontal_pysam.py:25-72 | The row loop produces exactly the map of all rows in order. |
| HorizontalMetpv.ApplyHoursKeys | metpv_20_automation/convert_horizontal_pysam.py:51-56 | An accepted row adds exactly the 24 instants of its day to the map's keys. |
| HorizontalMetpv.ApplyHoursValues | metpv_20_automation/convert_horizontal_pysam.py:51-69 | Hour h lands at start + h, over what was there before the row. Other instants are untouched. |
| HorizontalMetpv.DecodeWithinYear | metpv_20_automation/convert_horizontal_pysam.py:49-53 | Every decoded instant lies within 2016. |
| HorizontalMetpv.Readings | metpv_20_automation/convert_horizontal_pysam.py:25-72 | One reading per row, in file order, each what that row reads as. |
| HorizontalMetpv.StepRowKeys | metpv_20_automation/convert_horizontal_pysam.py:51-56 | After one row the map has an entry at an instant exactly when it had one before or the row is accepted and covers that hour. |
| HorizontalMetpv.DecodeKeys | metpv_20_automation/convert_horizontal_pysam.py:24-73 | The decoded map has an entry at an instant exactly when some accepted row covers that hour of its day. |
| HorizontalMetpv.SkippedRowChangesNothing | metpv_20_automation/convert_horizontal_pysam.py:71-72 | A skipped row leaves the map as it was. |
| HorizontalMetpv.AcceptedRowEffect | metpv_20_automation/convert_horizontal_pysam.py:51-69 | After an accepted row, each instant of its day holds the type's channel written over the previous entry (zeros when new), so a later row of the same type wins. Every other instant keeps its entry or stays absent. |
| HorizontalMetpv.YearIgnored | metpv_20_automation/convert_horizontal_pysam.py:34-49 | Rows that differ only in a readable year cell are read the same: the key always uses 2016. |
| HorizontalMetpv.BlankCellIsZero | metpv_20_automation/convert_horizontal_pysam.py:37 | In an accepted row, a blank hourly cell is the value 0.0, not a missing value. |
| HorizontalMetpv.AcceptedValues | metpv_20_automation/convert_horizontal_pysam.py:37 | An accepted row's values are its 24 hourly cells, read. |
| HorizontalMetpv.InstantsBelow | metpv_20_automation/convert_horizontal_pysam.py:85 | The map's instants below n, strictly ascending, each exactly once. |
| HorizontalMetpv.SortedRows | metpv_20_automation/convert_horizontal_pysam.py:84-91 | Output rows are strictly ascending in time. Each carries its instant's map entry and the same position. |
| HorizontalMetpv.SortedRowsComplete | metpv_20_automation/convert_horizontal_pysam.py:78-85 | Every instant of the map has an output row, and every output row is an instant of the map. |
| HorizontalMetpv.ReadNumbers | metpv_20_automation/convert_horizontal_pysam.py:18-20 | A run of cells reads exactly when every cell reads, and then value i is cell i read. |
| HorizontalMetpv.ReadNumbersAppend | metpv_20_automation/convert_horizontal_pysam.py:18-20 | Reading two runs one after the other is reading their concatenation. |
| HorizontalMetpv.ParseHeader | metpv_20_automation/convert_horizontal_pysam.py:14-23 | Corrected reading (see ## Findings). A header of fewer than 7 cells gives no position, and only such a header does. It is malformed exactly when there is no row, or when cells 2 to 6 do not all read. It parses exactly when a row of 7 or more cells has cells 2 to 6 all readable, and then lat = h2 + h3/60, lon = h4 + h5/60 and elev = h6. |
| HorizontalMetpv.ParsedHeaderCells | metpv_20_automation/convert_horizontal_pysam.py:17-20 | A parsed position comes from the header's cells 2 to 6, each read with `float()`. |
| HorizontalMetpv.ConvertFile | metpv_20_automation/convert_horizontal_pysam.py:5-93 | Corrected reading (see ## Findings). A header problem never stops the run. Nothing is written exactly when no row decodes. Otherwise the output is the sorted map of rows 1 onward, with the position when the header parsed. |
| HorizontalMetpv.DegreesAt | metpv_20_automation/convert_horizontal_pysam.py:18-19 | Degrees and minutes from two adjacent cells, present exactly when both cells read, and then degrees + minutes/60 of their values. |
| HorizontalMetpv.HeaderAsWritten | metpv_20_automation/convert_horizontal_pysam.py:17-20 | The metadata dictionary as the code leaves it. `lat` is set exactly when the row has 7 or more cells and cells 2 and 3 read, and then it is h2 + h3/60. `lon` is set exactly when `lat` is set and cells 4 and 5 read, and then it is h4 + h5/60. `elev` is set exactly when `lon` is set and cell 6 reads, and then it is h6. A short or absent header leaves it empty. |
| HorizontalMetpv.HeaderAsWrittenComplete | metpv_20_automation/convert_horizontal_pysam.py:17-20 | The dictionary is complete exactly when the all-or-nothing header parses, and then it holds the same three values. |
| HorizontalMetpv.ConvertAsWritten | metpv_20_automation/convert_horizontal_pysam.py:74-91 | The run as the code does it writes nothing exactly when no row decodes. |
| HorizontalMetpv.AbortedExactlyOnPartialHeader | metpv_20_automation/convert_horizontal_pysam.py:88-91 | With decoded data, the run as written is lost exactly when `lat` is set but `elev` is not. Whenever it saves, it writes what the all-or-nothing header's run writes. |
| HorizontalMetpv.ReadPair | metpv_20_automation/convert_horizontal_pysam.py:18-19 | Two cells that read give their two values. |
| HorizontalMetpv.DegreesRead | metpv_20_automation/convert_horizontal_pysam.py:18-19 | Two readable cells give degrees + minutes/60. |
| HorizontalMetpv.BlankMinutesUnread | metpv_20_automation/convert_horizontal_pysam.py:19 | A blank minutes cell makes that coordinate unreadable. |
| HorizontalMetpv.BlankLongitudeMinutesIsPartial | metpv_20_automation/convert_horizontal_pysam.py:17-20 | When the latitude reads and the longitude-minutes cell is blank, the dictionary holds `lat` only. |
| HorizontalMetpv.BlankLongitudeMinutesIsMalformed | metpv_20_automation/convert_horizontal_pysam.py:17-20 | Such a header is malformed for the all-or-nothing reading. |
| HorizontalMetpv.BlankLonMinutesRowIsPartial | metpv_20_automation/convert_horizontal_pysam.py:17-20 | The hypothetical station row `53091,Tsu,34,51,136,,2`, whose longitude-minutes cell is blank, sets `lat` = 34°51' and nothing else. |
| HorizontalMetpv.BlankLonMinutesRowIsMalformed | metpv_20_automation/convert_horizontal_pysam.py:17-20 | The same row is malformed for the all-or-nothing reading. |
| HorizontalMetpv.FileWithBlankLonMinutesIsLost | metpv_20_automation/convert_horizontal_pysam.py:88-91 | A file headed by that row and holding decoded data is aborted as written, while the all-or-nothing header reports it malformed. |
| SiteConfig.LastIndex | input_parser_with_modes.py:216 | The position of the last `_`, absent exactly when there is none. |
| SiteConfig.Normalize | input_parser_with_modes.py:212-217 | Without `_` the result is the stripped name. Otherwise it is the stripped text after the last `_`. The result never contains `_`. |
| SiteConfig.NormalizeIdempotent | input_parser_with_modes.py:212-217 | Normalizing twice is normalizing once. |
| SiteConfig.NormalizeSuffix | input_parser_with_modes.py:216-217 | `prefix_name`, for a trimmed name without `_`, normalizes to that name whatever the prefix. |
| SiteConfig.DrawingNameExample | input_parser_with_modes.py:213-214 | The documented drawing file name normalizes to `Mie Tsu`. |
| SiteConfig.SiteOf | input_parser_with_modes.py:226-229 | A site is found exactly when the normalized name is in the table, and then it is that table entry. |
| SiteConfig.SiteFoundAfterLastUnderscore | input_parser_with_modes.py:219-229 | Any file name ending in `_` plus a known site name finds that site's coordinates. |
| SiteConfig.RunEnd | input_parser_with_modes.py:234 | The end of the maximal run of digits from a position. |
| SiteConfig.FirstMatch | input_parser_with_modes.py:234 | `re.search` gives the leftmost match position, with no match before it, or no match at all. |
| SiteConfig.SearchNumber | input_parser_with_modes.py:234-235 | A number is found exactly when the pattern matches somewhere. It is the value of the whole run of digits at the leftmost match. |
| SiteConfig.FirstMatchStartsRun | input_parser_with_modes.py:234 | The leftmost match begins a run of digits: it is not preceded by a digit. |
| SiteConfig.SearchNumberAfterPrefix | input_parser_with_modes.py:234-235 | Digits after a digit-free prefix, and followed by the suffix when one is required, are the number found. |
| SiteConfig.SearchNumberAt | input_parser_with_modes.py:234-235 | A whole run of digits, followed by the suffix when one is required and with no match before it, is the number found. |
| SiteConfig.Azimuth | input_parser_with_modes.py:231-242 | Text containing `West` gives 180 + n. Otherwise text containing `East` gives 180 - n. Otherwise it is 180. n is the first number in the text, or 0, and a missing text reads "0 degrees". |
| SiteConfig.AzimuthSide | input_parser_with_modes.py:237-240 | West never faces east of south, text without `West` never faces west of south, and text naming neither direction faces south. |
| SiteConfig.FiveDegreesNumber | input_parser_with_modes.py:234-235 | The first number in "5 degrees West" is 5. |
| SiteConfig.FiveDegreesDirection | input_parser_with_modes.py:237 | "5 degrees West" contains `West`. |
| SiteConfig.FiveDegreesWest | input_parser_with_modes.py:231 | "5 degrees West" faces 185. |
| SiteConfig.MissingAzimuthFacesSouth | input_parser_with_modes.py:232-241 | A missing compass text faces 180. |
| SiteConfig.UnitCount | input_parser_with_modes.py:259-265 | A group has a unit count exactly when its name has digits directly before `台`. |
| SiteConfig.UnitCountOfSingleDigit | input_parser_with_modes.py:259-265 | A single digit directly before `台`, with no count marked before it, is the unit count. |
| SiteConfig.UnitCountOfExample | input_parser_with_modes.py:259-265 | The name from the error message, "PCS 01~04 (4台)", counts 4 units; 01 and 04 are not counts. |
| SiteConfig.SystemOf | input_parser_with_modes.py:249-291 | A unit's system has the area's tilt, the plant's azimuth, the group's stringing, the module rating with γ = -0.0029, inverter pdc0 = module kW × 1000 and η = 0.984. |
| SiteConfig.Repeat | input_parser_with_modes.py:283 | n copies of one system. |
| SiteConfig.GroupsSystemsStep | input_parser_with_modes.py:258-292 | One more group extends an area's systems by its units, or fails on it. |
| SiteConfig.SystemsStep | input_parser_with_modes.py:255-293 | One more area extends the plant's systems by its own, or fails in it. |
| SiteConfig.AppendUnits | input_parser_with_modes.py:283-292 | The unit loop appends exactly `units` copies of the group's system. |
| SiteConfig.BuildAreaSystems | input_parser_with_modes.py:258-292 | The group loop appends the area's systems, or fails naming the first group without a count. |
| SiteConfig.ErrPropagates | input_parser_with_modes.py:259-264 | A failing group stops the area: the error of a prefix is the error of all of its groups. |
| SiteConfig.GroupsErrNamesFirst | input_parser_with_modes.py:258-264 | A failing area reports the name of its first group without a unit count, every earlier group having one. |
| SiteConfig.BuildSystems | input_parser_with_modes.py:244-293 | The loops give exactly the plant's systems, or the first group without a count. |
| SiteConfig.SystemsErrPropagates | input_parser_with_modes.py:259-264 | A failing area stops the plant: the error of a prefix is the error of all areas. |
| SiteConfig.SystemsErrNamesFirst | input_parser_with_modes.py:255-264 | A failing plant reports the error of its first failing area, every group of the earlier areas having a unit count. |
| SiteConfig.GroupsOk | input_parser_with_modes.py:258-264 | An area builds exactly when every one of its groups has a unit count. |
| SiteConfig.GroupsCount | input_parser_with_modes.py:258-292 | An area yields one system per unit, summed over its groups. |
| SiteConfig.GroupsFrom | input_parser_with_modes.py:258-292 | Every system of an area is the system of one of its groups. |
| SiteConfig.SystemsOk | input_parser_with_modes.py:255-264 | The plant builds exactly when every group of every area has a unit count. |
| SiteConfig.SystemsCount | input_parser_with_modes.py:255-293 | The plant has as many systems as units summed over all groups of all areas. |
| SiteConfig.SystemsFromGroups | input_parser_with_modes.py:255-293 | Every system is the system of some group of some area, with that area's tilt. |
| DemoAutomation.Join | demo-automation.py:217 | A backslash is inserted between directory and name unless the directory already ends in a separator. |
| DemoAutomation.DiskPathShape | demo-automation.py:216-219 | The checked path ends with the name and extension, begins with the output directory, and is just the name and extension when no directory is configured. |
| DemoAutomation.CandidateShape | demo-automation.py:227 | An alternative name is the base, an underscore, and a numeral that reads back as the counter. |
| DemoAutomation.DiskPathInjective | demo-automation.py:216-232 | Different save names are checked at different paths. |
| DemoAutomation.CandidateInjective | demo-automation.py:227 | Different counters give different candidate names. |
| DemoAutomation.SafeFilename | demo-automation.py:196-240 | With overwrite on, or when the base path is free, the result is the base name. Otherwise it is the first `base_k` (1 ≤ k ≤ 100) whose path is free, all earlier ones being taken, or the base name when all hundred are taken. |
| DemoAutomation.ResolveIndex | demo-automation.py:89-98 | An item is selected exactly when the list is non-empty and -count ≤ index < count. That is the index itself when non-negative, else count + index. |
| DemoAutomation.FrontAndBackAgree | demo-automation.py:93-94 | Position p and position p - count select the same item. |
| Text.Strip | input_parser_with_modes.py:217 | The result is no longer than the input and does not begin or end with whitespace. |
| Text.StripTrims | input_parser_with_modes.py:217 | The result is one contiguous part of the text with only whitespace cut away before and after it; with Text.Strip's ends this is `strip()` exactly. |
| Text.StripAvoids | input_parser_with_modes.py:217 | `strip()` adds no character the text lacks. |
| Text.StripEmpty | metpv_20_automation/convert_horizontal_pysam.py:37 | `strip()` yields the empty string exactly when the text is all whitespace. |
| Text.StripKeepsChars | input_parser_with_modes.py:217 | `strip()` only removes characters. |
| Text.StripTrimmed | input_parser_with_modes.py:217 | Text not beginning or ending with whitespace is its own `strip()`. |
| Text.StripIdempotent | input_parser_with_modes.py:217 | `strip()` is idempotent. |
| Text.Slice | metpv_11_automation/convert_metpv11_FINAL_CORRECT.py:17-21 | Python slicing with both bounds clamped: the length is as clamped, and character k is character i + k. |
| Text.SliceOfSlice | metpv_11_automation/convert_metpv11_FINAL_CORRECT.py:42-45 | The first k characters of a w-wide window are the k-wide window. |
| Text.Contains | input_parser_with_modes.py:237-239 | `t in s` holds exactly when t occurs in s at some position. |
| Text.FirstCharAbsent | input_parser_with_modes.py:237-239 | A text without t's first character does not contain t. |
| Numerals.NatToString | demo-automation.py:227 | A non-empty digit string whose value is n, with no leading zero. |
| Numerals.ParseInt | metpv_11_automation/convert_metpv11_FINAL_CORRECT.py:49 | `int()` accepts exactly an optionally signed, non-empty run of digits once stripped, with that signed value. |
| Numerals.ParseUnsignedDecimal | metpv_20_automation/convert_horizontal_pysam.py:18-20 | A magnitude is accepted exactly when it is a non-empty run of digits or has one point with digits on either side and at least one digit in all. A digit run reads as its value, and any accepted literal is non-negative. |
| Numerals.PointValue | metpv_20_automation/convert_horizontal_pysam.py:18-20 | A literal with its point at k reads as the digits before k plus the digits after k over the matching power of ten. |
| Numerals.UnsignedLiteral | metpv_20_automation/convert_horizontal_pysam.py:18-20 | `whole.frac` reads as the value of its whole and fractional digits, including `12.` and `.5`. |
| Numerals.ParseDecimal | metpv_20_automation/convert_horizontal_pysam.py:18-20 | `float()` accepts exactly a stripped text that, after an optional sign, is a decimal magnitude; it never accepts a blank or all-whitespace cell. |
| Numerals.ParseDecimalIgnoresPadding | metpv_20_automation/convert_horizontal_pysam.py:18-20 | Whitespace around a cell does not change what `float()` reads. |
| Numerals.SignedText | metpv_20_automation/convert_horizontal_pysam.py:18-20 | A sign followed by a literal that starts and ends with a digit or point is its own `strip()`, and the sign is read off it. |
| Numerals.DecimalLiteral | metpv_20_automation/convert_horizontal_pysam.py:18-20 | An optional sign, digits, a point and digits read as the signed value of the digits. |
| Numerals.ParseDecimalOfInt | metpv_20_automation/convert_horizontal_pysam.py:31-34 | Every literal `int()` accepts, `float()` accepts with the same value. |
| Numerals.ParseIntOfNatToString | demo-automation.py:227 | `int(str(n)) == n`. |
| Numerals.ParseDecimalOfNatToString | demo-automation.py:227 | `float(str(n)) == n`. |
| Numerals.Truncate | metpv_20_automation/convert_horizontal_pysam.py:31-34 | `int()` of a float truncates toward zero. |
| Calendar.DayIndex | metpv_20_automation/convert_horizontal_pysam.py:49 | A day index exists exactly when the month and day are a date of 2016, and it is below 366. |
| Calendar.MonthContaining | metpv_11_automation/convert_metpv11_FINAL_CORRECT.py:62-63 | The month holding a day of the year: the day lies between the days before that month and the days before the next. |
| Calendar.ToDateTime | metpv_11_automation/convert_metpv11_FINAL_CORRECT.py:62-63 | The date and hour of an instant form a valid 2016 date, whose day index is the instant's day. |
| Calendar.InstantOf | metpv_20_automation/convert_horizontal_pysam.py:49-53 | `Timestamp(2016, m, d) + h hours` exists exactly for valid dates. It lies on that date at that hour, and its whole day falls within 2016. |
| Calendar.DayIndexInjective | metpv_20_automation/convert_horizontal_pysam.py:49 | Distinct dates have distinct day indices. |
| Calendar.InstantOfToDateTime | metpv_11_automation/convert_metpv11_FINAL_CORRECT.py:62-63 | The instant built from an instant's date and hour is that instant. |
| Calendar.ToDateTimeOfInstant | metpv_20_automation/convert_horizontal_pysam.py:49-53 | The date and hour of the instant built from a date and hour are that date and hour. |
| Calendar.HoursAfterMidnight | metpv_20_automation/convert_horizontal_pysam.py:49-53 | h hours after 00:00 of a valid date lies on that date at hour h, within 2016. |
| Geo.Degrees | metpv_11_automation/convert_metpv11_FINAL_CORRECT.py:19-20 | Zero minutes gives the degrees, and minutes in [0, 60) stay within the degree. |

## Left out

- Reading files, the `shift-jis` and `utf-8-sig` decodings, and the CSV reader's tokenising
  are not modelled. A vertical file is its list of lines, each with its terminator. A
  horizontal file is its list of rows of cells.
- Column offsets and the 130-character test count characters, as Python does after decoding.
  A byte-oriented reading of the format would differ on the Japanese station names.
- `int()` and `float()` are modelled on plain decimal literals: an optional sign, ASCII digits,
  and at most one decimal point. Exponents, `inf`/`nan`, underscores between digits and
  non-ASCII digits are not modelled. `re`'s `\d` is taken as ASCII digits for the same reason.
- Floating-point rounding is not modelled. Values are exact reals, and NaN is `None`.
- The pandas/numpy table objects, the CSV output format and the console messages are not
  modelled. The output is the sequence of rows the table would hold.
- `os.path.join` is modelled for a relative name only. An absolute or drive-qualified name,
  which would discard the directory, is not modelled. Nor is a directory that is a bare drive
  such as `C:`, which Windows joins without a separator (`C:x.pdf`); the model inserts one.
  `os.path.exists` is membership in a set
  of existing paths.
- `get_site_config` and `build_systems_from_json` take the already-extracted fields: the
  project name, the compass text (absent or a string), the areas, their groups and the module
  rating. A present but non-string `azimuth_angle` value is not modelled. The LLM extraction,
  pvlib's model objects and the temperature-model table are not modelled.
- SiteConfig.BuildSystems: the systems of one group share a single pvlib `Array` object in the
  source. The model gives each system its own copy of the array's parameters, so aliasing is
  not captured.
- SiteConfig.GetSiteConfig has no contract of its own. It pairs SiteConfig.SiteOf and
  SiteConfig.Azimuth, whose contracts state its meaning.
- The source's single loops are each split into a method per nesting level:
  - Metpv11.DecodeField and Metpv11.DecodeHours inside Metpv11.DecodeDataLines;
  - HorizontalMetpv.ApplyReading inside HorizontalMetpv.DecodeRows;
  - SiteConfig.AppendUnits and SiteConfig.BuildAreaSystems inside SiteConfig.BuildSystems.
- The rest of the automation script (window handling, dialogs, keystrokes), the simulation
  runners and the other parsers are not part of this model.

## Findings

| source | as written | input that shows it | evidently intended | confidence | as-written member | corrected member |
|---|---|---|---|---|---|---|
| metpv_20_automation/convert_horizontal_pysam.py:17-20, 88-91 | The three metadata assignments run one by one inside a `try`. A `ValueError` on the longitude leaves `metadata` holding `lat` only, and `metadata['lon']` (line 90) raises `KeyError`. A `ValueError` on the elevation leaves `lat` and `lon`, and `metadata['elev']` (line 91) raises `KeyError`. Either way `if metadata:` is true and the error comes after every data row was decoded and before anything is written. | A station row with a blank longitude-minutes cell, such as `53091,Tsu,34,51,136,,2`, followed by any decodable data row | The header is read all or nothing: a malformed header is reported and the data are written without a position | not executed | HorizontalMetpv.FileWithBlankLonMinutesIsLost | HorizontalMetpv.ConvertFile |
