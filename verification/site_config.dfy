/** The site and array configuration step of the simulator: the project name taken from a
    drawing's file name, the site table it is looked up in, the compass text turned into an
    azimuth, and the list of inverter systems expanded from the PCS groups of every area. */
module SiteConfig {
  import opened Wrappers
  import opened Text
  import opened Numerals

  // ---------------------------------------------------------------- project name

  /** The position of the last `c` in `s`. */
  function LastIndex(s: string, c: char): (r: Option<nat>)
    ensures r.None? <==> c !in s
    ensures r.Some? ==> r.value < |s| && s[r.value] == c && c !in s[r.value + 1..]
  {
    if s == [] then None
    else if s[|s| - 1] == c then
      assert s[|s|..] == [];
      Some(|s| - 1)
    else
      var r := LastIndex(s[..|s| - 1], c);
      assert s == s[..|s| - 1] + [s[|s| - 1]];
      if r.Some? then
        assert s[r.value + 1..] == s[..|s| - 1][r.value + 1..] + [s[|s| - 1]];
        r
      else r
  }

  /** `raw.rsplit("_", 1)[-1].strip()`: the text after the last underscore, or all of `raw`
      when it has none, with surrounding whitespace removed. */
  function Normalize(raw: string): (r: string)
    ensures '_' !in raw ==> r == Strip(raw)
    ensures '_' in raw ==>
      exists k :: 0 <= k < |raw| && raw[k] == '_' && '_' !in raw[k + 1..] && r == Strip(raw[k + 1..])
    ensures '_' !in r
  {
    match LastIndex(raw, '_')
    case None =>
      StripAvoids(raw, '_');
      Strip(raw)
    case Some(k) =>
      assert raw[k] == '_' && '_' !in raw[k + 1..];
      StripAvoids(raw[k + 1..], '_');
      Strip(raw[k + 1..])
  }

  /** Normalizing twice is normalizing once. */
  lemma NormalizeIdempotent(raw: string)
    ensures Normalize(Normalize(raw)) == Normalize(raw)
  {
    match LastIndex(raw, '_')
    case None => StripIdempotent(raw);
    case Some(k) => StripIdempotent(raw[k + 1..]);
  }

  /** A trimmed name without underscores after the last underscore is the project name,
      whatever precedes it. */
  lemma NormalizeSuffix(prefix: string, name: string)
    requires '_' !in name
    requires name == [] || (!IsSpace(name[0]) && !IsSpace(name[|name| - 1]))
    ensures Normalize(prefix + "_" + name) == name
  {
    var raw := prefix + "_" + name;
    var k := |prefix|;
    assert raw[k] == '_';
    assert raw[k + 1..] == name;
    StripTrimmed(name);
  }

  /** The drawing-file example: `モジュール配置図_RP-0039-SL01-00_Mie Tsu` names `Mie Tsu`. */
  lemma DrawingNameExample()
    ensures Normalize("\U{30E2}\U{30B8}\U{30E5}\U{30FC}\U{30EB}\U{914D}\U{7F6E}\U{56F3}_RP-0039-SL01-00_Mie Tsu") == "Mie Tsu"
  {
    assert "\U{30E2}\U{30B8}\U{30E5}\U{30FC}\U{30EB}\U{914D}\U{7F6E}\U{56F3}_RP-0039-SL01-00_Mie Tsu"
      == "\U{30E2}\U{30B8}\U{30E5}\U{30FC}\U{30EB}\U{914D}\U{7F6E}\U{56F3}_RP-0039-SL01-00" + "_" + "Mie Tsu";
    NormalizeSuffix("\U{30E2}\U{30B8}\U{30E5}\U{30FC}\U{30EB}\U{914D}\U{7F6E}\U{56F3}_RP-0039-SL01-00", "Mie Tsu");
  }

  // ---------------------------------------------------------------- site table

  datatype Coordinates = Coordinates(lat: real, lon: real)

  /** The known sites. */
  const SiteLookup: map<string, Coordinates> := map[
    "Mie Tsu" := Coordinates(34.856, 136.452),
    "Mie Fukuo" := Coordinates(34.856, 136.452)
  ]

  // ---------------------------------------------------------------- digit runs

  /** The end of the run of digits that starts at `i` (`i` itself when `s[i]` is no digit). */
  function RunEnd(s: string, i: nat): (j: nat)
    requires i <= |s|
    ensures i <= j <= |s|
    ensures forall k :: i <= k < j ==> IsDigit(s[k])
    ensures j == |s| || !IsDigit(s[j])
    decreases |s| - i
  {
    if i < |s| && IsDigit(s[i]) then RunEnd(s, i + 1) else i
  }

  /** Where a regular expression `(\d+)` (no `suffix`) or `(\d+)X` (`suffix == Some(X)`)
      can match: at a digit whose maximal run of digits is followed by the suffix. A shorter
      run is followed by a digit, so backtracking never helps. */
  predicate MatchAt(s: string, i: nat, suffix: Option<char>) {
    i < |s| && IsDigit(s[i]) &&
    (suffix.None? || (RunEnd(s, i) < |s| && s[RunEnd(s, i)] == suffix.value))
  }

  /** `re.search`: the leftmost position at or after `from` where the pattern matches. */
  function FirstMatch(s: string, from: nat, suffix: Option<char>): (r: Option<nat>)
    requires from <= |s|
    ensures r.Some? ==> from <= r.value < |s| && MatchAt(s, r.value, suffix)
    ensures r.Some? ==> forall m :: from <= m < r.value ==> !MatchAt(s, m, suffix)
    ensures r.None? ==> forall m :: from <= m < |s| ==> !MatchAt(s, m, suffix)
    decreases |s| - from
  {
    if from == |s| then None
    else if MatchAt(s, from, suffix) then Some(from)
    else FirstMatch(s, from + 1, suffix)
  }

  /** The number `group(1)` of the leftmost match, read as a decimal. */
  function SearchNumber(s: string, suffix: Option<char>): (r: Option<nat>)
    ensures r.Some? <==> exists m :: 0 <= m < |s| && MatchAt(s, m, suffix)
    ensures r.Some? ==>
      var k := FirstMatch(s, 0, suffix).value;
      AllDigits(s[k..RunEnd(s, k)]) && r.value == DigitsValue(s[k..RunEnd(s, k)])
  {
    match FirstMatch(s, 0, suffix)
    case None => None
    case Some(k) =>
      var run := s[k..RunEnd(s, k)];
      assert AllDigits(run) by {
        forall i | 0 <= i < |run| ensures IsDigit(run[i]) {
          assert run[i] == s[k + i];
        }
      }
      Some(DigitsValue(run))
  }

  /** The leftmost match covers a whole run of digits: it starts where the run starts. */
  lemma FirstMatchStartsRun(s: string, suffix: Option<char>)
    requires FirstMatch(s, 0, suffix).Some?
    ensures var k := FirstMatch(s, 0, suffix).value; k == 0 || !IsDigit(s[k - 1])
  {
    var k := FirstMatch(s, 0, suffix).value;
    if k > 0 && IsDigit(s[k - 1]) {
      assert RunEnd(s, k - 1) == RunEnd(s, k);
      assert MatchAt(s, k - 1, suffix);
      assert false;
    }
  }

  /** A number standing alone in the text is the one found: digits `d` after a prefix with
      no digits at all. */
  lemma SearchNumberAfterPrefix(prefix: string, digits: string, rest: string, suffix: Option<char>)
    requires forall i :: 0 <= i < |prefix| ==> !IsDigit(prefix[i])
    requires digits != [] && AllDigits(digits)
    requires suffix.None? ==> rest == [] || !IsDigit(rest[0])
    requires suffix.Some? ==> rest != [] && rest[0] == suffix.value && !IsDigit(suffix.value)
    ensures SearchNumber(prefix + digits + rest, suffix) == Some(DigitsValue(digits))
  {
    var s := prefix + digits + rest;
    var p, e := |prefix|, |prefix| + |digits|;
    assert forall i :: 0 <= i < |digits| ==> s[p + i] == digits[i];
    assert forall i :: 0 <= i < |prefix| ==> s[i] == prefix[i];
    assert e < |s| ==> s[e] == rest[0];
    RunEndOfRun(s, p, e);
    assert MatchAt(s, p, suffix);
    var k := FirstMatch(s, 0, suffix).value;
    assert k == p;
    assert s[p..e] == digits;
  }

  /** The number found is the run of digits `s[p..e]` when no match starts before `p` and
      that run is followed by the suffix. */
  lemma SearchNumberAt(s: string, p: nat, e: nat, suffix: Option<char>)
    requires p < e <= |s| && forall k :: p <= k < e ==> IsDigit(s[k])
    requires e == |s| || !IsDigit(s[e])
    requires suffix.Some? ==> e < |s| && s[e] == suffix.value
    requires forall m :: 0 <= m < p ==> !MatchAt(s, m, suffix)
    ensures AllDigits(s[p..e]) && SearchNumber(s, suffix) == Some(DigitsValue(s[p..e]))
  {
    RunEndOfRun(s, p, e);
    assert MatchAt(s, p, suffix);
    assert FirstMatch(s, 0, suffix) == Some(p);
  }

  lemma {:induction false} RunEndOfRun(s: string, i: nat, e: nat)
    requires i <= e <= |s|
    requires forall k :: i <= k < e ==> IsDigit(s[k])
    requires e == |s| || !IsDigit(s[e])
    ensures RunEnd(s, i) == e
    decreases e - i
  {
    if i < e {
      RunEndOfRun(s, i + 1, e);
    }
  }

  // ---------------------------------------------------------------- azimuth

  /** The compass text when the extraction has none. */
  const DefaultAzimuthText := "0 degrees"
  /** Due south. */
  const South := 180.0

  /** The azimuth in degrees: south, turned west by the first number in the text when the
      text says "West", else turned east by it when it says "East"; no number turns by 0. */
  function Azimuth(text: Option<string>): (az: real)
    ensures var t := text.GetOr(DefaultAzimuthText);
      var offset := SearchNumber(t, None).GetOr(0) as real;
      && (Contains(t, "West") ==> az == South + offset)
      && (!Contains(t, "West") && Contains(t, "East") ==> az == South - offset)
      && (!Contains(t, "West") && !Contains(t, "East") ==> az == South)
  {
    var t := text.GetOr(DefaultAzimuthText);
    var offset := match SearchNumber(t, None) case None => 0.0 case Some(n) => n as real;
    if Contains(t, "West") then South + offset
    else if Contains(t, "East") then South - offset
    else South
  }

  /** West turns clockwise from south, east counter-clockwise, and text naming neither
      direction leaves the array facing south. */
  lemma AzimuthSide(text: Option<string>)
    ensures Contains(text.GetOr(DefaultAzimuthText), "West") ==> Azimuth(text) >= South
    ensures !Contains(text.GetOr(DefaultAzimuthText), "West") ==> Azimuth(text) <= South
    ensures !Contains(text.GetOr(DefaultAzimuthText), "West") && !Contains(text.GetOr(DefaultAzimuthText), "East") ==>
      Azimuth(text) == South
  {
  }

  lemma FiveDegreesNumber()
    ensures SearchNumber("5 degrees West", None) == Some(5)
  {
    assert DigitsValue("5") == 5 && AllDigits("5") by {
      assert "5"[..0] == [];
    }
    assert "5 degrees West" == [] + "5" + " degrees West";
    SearchNumberAfterPrefix([], "5", " degrees West", None);
  }

  lemma FiveDegreesDirection()
    ensures Contains("5 degrees West", "West")
  {
    assert OccursAt("5 degrees West", "West", 10);
  }

  /** `5 degrees West` faces 185 degrees. */
  lemma FiveDegreesWest()
    ensures Azimuth(Some("5 degrees West")) == 185.0
  {
    FiveDegreesNumber();
    FiveDegreesDirection();
  }

  /** No compass text: the default text has the number 0 and no direction, so south. */
  lemma MissingAzimuthFacesSouth()
    ensures Azimuth(None) == South
  {
    var t := DefaultAzimuthText;
    assert 'W' !in t && 'E' !in t;
    FirstCharAbsent(t, "West");
    FirstCharAbsent(t, "East");
  }

  /** `SITE_LOOKUP.get(name)` for the normalized project name: the site's position, or
      `None` for a name the table does not know. */
  function SiteOf(projectName: string): (r: Option<Coordinates>)
    ensures r.Some? <==> Normalize(projectName) in SiteLookup
    ensures r.Some? ==> r.value == SiteLookup[Normalize(projectName)]
  {
    var name := Normalize(projectName);
    if name in SiteLookup then Some(SiteLookup[name]) else None
  }

  /** `get_site_config`: the site position and the azimuth. */
  function GetSiteConfig(projectName: string, azimuthText: Option<string>): (Option<Coordinates>, real) {
    (SiteOf(projectName), Azimuth(azimuthText))
  }

  /** A drawing's file name ending in `_` and a known site name finds that site, whatever
      precedes it. */
  lemma SiteFoundAfterLastUnderscore(prefix: string, name: string)
    requires name in SiteLookup
    ensures SiteOf(prefix + "_" + name) == Some(SiteLookup[name])
  {
    assert name == "Mie Tsu" || name == "Mie Fukuo";
    NormalizeSuffix(prefix, name);
  }

  // ---------------------------------------------------------------- systems

  /** The character `台` (counter for machines). */
  const UnitMark := '\U{53F0}'

  datatype PcsGroup = PcsGroup(groupName: string, modulesInSeries: int, stringsPerPcs: int, moduleOutputKw: real)
  datatype Area = Area(tilt: real, groups: seq<PcsGroup>)

  /** One inverter system: its array's mount and stringing, module and inverter parameters. */
  datatype PvSystem = PvSystem(
    tilt: real, azimuth: real,
    modulesPerString: int, strings: int,
    modulePdc0: real, gammaPdc: real,
    inverterPdc0: real, etaInvNom: real)

  const GammaPdc := -0.0029
  const EtaInvNom := 0.984

  /** The number of units a group stands for: the digits right before `台`. */
  function UnitCount(g: PcsGroup): (r: Option<nat>)
    ensures r.Some? <==> exists m :: 0 <= m < |g.groupName| && MatchAt(g.groupName, m, Some(UnitMark))
  {
    SearchNumber(g.groupName, Some(UnitMark))
  }

  /** The group name of the example in the missing-count error message. */
  const ExampleGroupName := "PCS 01~04 (4\U{53F0})"

  /** "PCS 01~04 (4台)" counts 4 units: the numbers 01 and 04 before it are not followed by
      the unit mark. */
  lemma UnitCountOfExample(g: PcsGroup)
    requires g.groupName == ExampleGroupName
    ensures UnitCount(g) == Some(4)
  {
    ExampleEarlierNumbersUnmarked(g.groupName);
    UnitCountOfSingleDigit(g, 11);
  }

  /** A single digit followed by the unit mark, with no count marked before it, is the count. */
  lemma UnitCountOfSingleDigit(g: PcsGroup, p: nat)
    requires p + 1 < |g.groupName| && IsDigit(g.groupName[p]) && g.groupName[p + 1] == UnitMark
    requires forall m :: 0 <= m < p ==> !MatchAt(g.groupName, m, Some(UnitMark))
    ensures UnitCount(g) == Some(DigitValue(g.groupName[p]))
  {
    var s := g.groupName;
    SearchNumberAt(s, p, p + 1, Some(UnitMark));
    assert s[p..p + 1] == [s[p]] && s[p..p + 1][..0] == [];
  }

  /** The example's first two numbers, 01 and 04, are not counts: `~` and a space follow them. */
  lemma ExampleEarlierNumbersUnmarked(s: string)
    requires s == ExampleGroupName
    ensures |s| == 14 && s[11] == '4' && s[12] == UnitMark
    ensures forall m :: 0 <= m < 11 ==> !MatchAt(s, m, Some(UnitMark))
  {
    RunEndOfRun(s, 4, 6);
    RunEndOfRun(s, 5, 6);
    RunEndOfRun(s, 7, 9);
    RunEndOfRun(s, 8, 9);
  }

  /** The system every unit of group `g` in an area of tilt `tilt` becomes. */
  function SystemOf(g: PcsGroup, tilt: real, azimuth: real, moduleW: real): (s: PvSystem)
    ensures s.tilt == tilt && s.azimuth == azimuth
    ensures s.modulesPerString == g.modulesInSeries && s.strings == g.stringsPerPcs
    ensures s.modulePdc0 == moduleW && s.gammaPdc == GammaPdc
    ensures s.inverterPdc0 == g.moduleOutputKw * 1000.0 && s.etaInvNom == EtaInvNom
  {
    PvSystem(tilt, azimuth, g.modulesInSeries, g.stringsPerPcs, moduleW, GammaPdc,
             g.moduleOutputKw * 1000.0, EtaInvNom)
  }

  function Repeat(s: PvSystem, n: nat): (r: seq<PvSystem>)
    ensures |r| == n && forall i :: 0 <= i < n ==> r[i] == s
  {
    seq(n, _ => s)
  }

  /** The systems of groups in order, or the name of the first group with no unit count. */
  function GroupsSystems(groups: seq<PcsGroup>, tilt: real, azimuth: real, moduleW: real): Result<seq<PvSystem>, string> {
    if groups == [] then Ok([])
    else
      match GroupsSystems(groups[..|groups| - 1], tilt, azimuth, moduleW)
      case Err(e) => Err(e)
      case Ok(prior) =>
        var g := groups[|groups| - 1];
        match UnitCount(g)
        case None => Err(g.groupName)
        case Some(n) => Ok(prior + Repeat(SystemOf(g, tilt, azimuth, moduleW), n))
  }

  /** The systems of all areas in order, or the name of the first group with no unit count. */
  function Systems(areas: seq<Area>, azimuth: real, moduleW: real): Result<seq<PvSystem>, string> {
    if areas == [] then Ok([])
    else
      match Systems(areas[..|areas| - 1], azimuth, moduleW)
      case Err(e) => Err(e)
      case Ok(prior) =>
        var a := areas[|areas| - 1];
        match GroupsSystems(a.groups, a.tilt, azimuth, moduleW)
        case Err(e) => Err(e)
        case Ok(more) => Ok(prior + more)
  }

  lemma GroupsSystemsStep(groups: seq<PcsGroup>, j: nat, tilt: real, azimuth: real, moduleW: real)
    requires j < |groups|
    ensures GroupsSystems(groups[..j + 1], tilt, azimuth, moduleW) ==
      match GroupsSystems(groups[..j], tilt, azimuth, moduleW)
      case Err(e) => Err(e)
      case Ok(prior) =>
        match UnitCount(groups[j])
        case None => Err(groups[j].groupName)
        case Some(n) => Ok(prior + Repeat(SystemOf(groups[j], tilt, azimuth, moduleW), n))
  {
    assert groups[..j + 1][..j] == groups[..j];
  }

  lemma SystemsStep(areas: seq<Area>, i: nat, azimuth: real, moduleW: real)
    requires i < |areas|
    ensures Systems(areas[..i + 1], azimuth, moduleW) ==
      match Systems(areas[..i], azimuth, moduleW)
      case Err(e) => Err(e)
      case Ok(prior) =>
        match GroupsSystems(areas[i].groups, areas[i].tilt, azimuth, moduleW)
        case Err(e) => Err(e)
        case Ok(more) => Ok(prior + more)
  {
    assert areas[..i + 1][..i] == areas[..i];
  }

  /** `for _ in range(num_units): systems.append(...)`. */
  method AppendUnits(systems: seq<PvSystem>, system: PvSystem, units: nat) returns (out: seq<PvSystem>)
    ensures out == systems + Repeat(system, units)
  {
    out := systems;
    for u := 0 to units
      invariant out == systems + Repeat(system, u)
    {
      assert Repeat(system, u + 1) == Repeat(system, u) + [system];
      out := out + [system];
    }
  }

  /** The loops over one area's groups and each group's units. */
  method BuildAreaSystems(area: Area, azimuth: real, moduleW: real, before: seq<PvSystem>)
    returns (r: Result<seq<PvSystem>, string>)
    ensures r == match GroupsSystems(area.groups, area.tilt, azimuth, moduleW)
      case Err(e) => Err(e)
      case Ok(more) => Ok(before + more)
  {
    var systems := before;
    var j := 0;
    while j < |area.groups|
      invariant 0 <= j <= |area.groups|
      invariant GroupsSystems(area.groups[..j], area.tilt, azimuth, moduleW).Ok?
      invariant systems == before + GroupsSystems(area.groups[..j], area.tilt, azimuth, moduleW).value
    {
      GroupsSystemsStep(area.groups, j, area.tilt, azimuth, moduleW);
      var group := area.groups[j];
      var count := UnitCount(group);
      if count.None? {
        assert area.groups[..j + 1] + area.groups[j + 1..] == area.groups;
        ErrPropagates(area.groups, j + 1, area.tilt, azimuth, moduleW);
        return Err(group.groupName);
      }
      var system := SystemOf(group, area.tilt, azimuth, moduleW);
      systems := AppendUnits(systems, system, count.value);
      j := j + 1;
    }
    assert area.groups[..j] == area.groups;
    return Ok(systems);
  }

  /** An error in a prefix of the groups is the error of all of them. */
  lemma {:induction false} ErrPropagates(groups: seq<PcsGroup>, j: nat, tilt: real, azimuth: real, moduleW: real)
    requires j <= |groups|
    requires GroupsSystems(groups[..j], tilt, azimuth, moduleW).Err?
    ensures GroupsSystems(groups, tilt, azimuth, moduleW) == GroupsSystems(groups[..j], tilt, azimuth, moduleW)
    decreases |groups| - j
  {
    if j < |groups| {
      GroupsSystemsStep(groups, j, tilt, azimuth, moduleW);
      ErrPropagates(groups, j + 1, tilt, azimuth, moduleW);
    } else {
      assert groups[..j] == groups;
    }
  }

  /** `build_systems_from_json`: areas in order, each area's groups in order, each group's
      units in order; the first group with no unit count raises. */
  method BuildSystems(areas: seq<Area>, azimuth: real, moduleW: real) returns (r: Result<seq<PvSystem>, string>)
    ensures r == Systems(areas, azimuth, moduleW)
  {
    var systems: seq<PvSystem> := [];
    var i := 0;
    while i < |areas|
      invariant 0 <= i <= |areas|
      invariant Systems(areas[..i], azimuth, moduleW) == Ok(systems)
    {
      SystemsStep(areas, i, azimuth, moduleW);
      var next := BuildAreaSystems(areas[i], azimuth, moduleW, systems);
      if next.Err? {
        SystemsErrPropagates(areas, i + 1, azimuth, moduleW);
        return next;
      }
      systems := next.value;
      i := i + 1;
    }
    assert areas[..i] == areas;
    return Ok(systems);
  }

  lemma {:induction false} SystemsErrPropagates(areas: seq<Area>, i: nat, azimuth: real, moduleW: real)
    requires i <= |areas|
    requires Systems(areas[..i], azimuth, moduleW).Err?
    ensures Systems(areas, azimuth, moduleW) == Systems(areas[..i], azimuth, moduleW)
    decreases |areas| - i
  {
    if i < |areas| {
      SystemsStep(areas, i, azimuth, moduleW);
      SystemsErrPropagates(areas, i + 1, azimuth, moduleW);
    } else {
      assert areas[..i] == areas;
    }
  }

  // ---------------------------------------------------------------- properties of the list

  /** Every group has a unit count. */
  ghost predicate AllCounted(groups: seq<PcsGroup>) {
    forall j :: 0 <= j < |groups| ==> UnitCount(groups[j]).Some?
  }

  /** The sum of the unit counts of groups that have one. */
  function Units(groups: seq<PcsGroup>): nat {
    if groups == [] then 0 else Units(groups[..|groups| - 1]) + UnitCount(groups[|groups| - 1]).GetOr(0)
  }

  function TotalUnits(areas: seq<Area>): nat {
    if areas == [] then 0 else TotalUnits(areas[..|areas| - 1]) + Units(areas[|areas| - 1].groups)
  }

  /** One area succeeds exactly when every one of its groups has a unit count. */
  lemma {:induction false} GroupsOk(groups: seq<PcsGroup>, tilt: real, azimuth: real, moduleW: real)
    ensures GroupsSystems(groups, tilt, azimuth, moduleW).Ok? <==> AllCounted(groups)
  {
    if groups != [] {
      var init := groups[..|groups| - 1];
      GroupsOk(init, tilt, azimuth, moduleW);
      assert forall j :: 0 <= j < |init| ==> init[j] == groups[j];
      if !AllCounted(init) {
        var j :| 0 <= j < |init| && UnitCount(init[j]).None?;
        assert UnitCount(groups[j]).None?;
      }
    }
  }

  /** Group `j` is the first group of `groups` without a unit count. */
  ghost predicate FirstUncounted(groups: seq<PcsGroup>, j: int) {
    0 <= j < |groups| && UnitCount(groups[j]).None? && AllCounted(groups[..j])
  }

  /** A failing area names its first group without a unit count. */
  lemma {:induction false} GroupsErrNamesFirst(groups: seq<PcsGroup>, tilt: real, azimuth: real, moduleW: real)
    requires GroupsSystems(groups, tilt, azimuth, moduleW).Err?
    ensures exists j ::
              FirstUncounted(groups, j) &&
              groups[j].groupName == GroupsSystems(groups, tilt, azimuth, moduleW).error
  {
    var init := groups[..|groups| - 1];
    if GroupsSystems(init, tilt, azimuth, moduleW).Err? {
      GroupsErrNamesFirst(init, tilt, azimuth, moduleW);
      var j :| FirstUncounted(init, j) && init[j].groupName == GroupsSystems(init, tilt, azimuth, moduleW).error;
      assert init[j] == groups[j] && init[..j] == groups[..j];
      assert FirstUncounted(groups, j);
    } else {
      GroupsOk(init, tilt, azimuth, moduleW);
      assert FirstUncounted(groups, |init|);
    }
  }

  /** One area yields one system per unit of each of its groups. */
  lemma {:induction false} GroupsCount(groups: seq<PcsGroup>, tilt: real, azimuth: real, moduleW: real)
    requires GroupsSystems(groups, tilt, azimuth, moduleW).Ok?
    ensures |GroupsSystems(groups, tilt, azimuth, moduleW).value| == Units(groups)
  {
    if groups != [] {
      GroupsCount(groups[..|groups| - 1], tilt, azimuth, moduleW);
    }
  }

  /** Every system of one area is the system of one of its groups, with the area's tilt. */
  lemma {:induction false} GroupsFrom(groups: seq<PcsGroup>, tilt: real, azimuth: real, moduleW: real)
    requires GroupsSystems(groups, tilt, azimuth, moduleW).Ok?
    ensures var out := GroupsSystems(groups, tilt, azimuth, moduleW).value;
      forall k :: 0 <= k < |out| ==>
        exists j :: 0 <= j < |groups| && out[k] == SystemOf(groups[j], tilt, azimuth, moduleW)
  {
    if groups != [] {
      var init := groups[..|groups| - 1];
      var g := groups[|groups| - 1];
      GroupsFrom(init, tilt, azimuth, moduleW);
      var prior := GroupsSystems(init, tilt, azimuth, moduleW).value;
      var out := GroupsSystems(groups, tilt, azimuth, moduleW).value;
      var n := UnitCount(g).value;
      assert out == prior + Repeat(SystemOf(g, tilt, azimuth, moduleW), n);
      forall k | 0 <= k < |out|
        ensures exists j :: 0 <= j < |groups| && out[k] == SystemOf(groups[j], tilt, azimuth, moduleW)
      {
        if k < |prior| {
          var j :| 0 <= j < |init| && prior[k] == SystemOf(init[j], tilt, azimuth, moduleW);
          assert init[j] == groups[j];
        } else {
          assert out[k] == SystemOf(groups[|groups| - 1], tilt, azimuth, moduleW);
        }
      }
    }
  }

  /** The whole plant is built exactly when every group of every area has a unit count. */
  lemma {:induction false} SystemsOk(areas: seq<Area>, azimuth: real, moduleW: real)
    ensures Systems(areas, azimuth, moduleW).Ok? <==>
      forall i :: 0 <= i < |areas| ==> AllCounted(areas[i].groups)
  {
    if areas != [] {
      var init := areas[..|areas| - 1];
      var a := areas[|areas| - 1];
      SystemsOk(init, azimuth, moduleW);
      GroupsOk(a.groups, a.tilt, azimuth, moduleW);
      assert forall i :: 0 <= i < |init| ==> init[i] == areas[i];
    }
  }

  /** A failing plant reports the error of its first area that fails: the areas before it
      build, and with GroupsErrNamesFirst that is the first group without a unit count. */
  lemma {:induction false} SystemsErrNamesFirst(areas: seq<Area>, azimuth: real, moduleW: real)
    requires Systems(areas, azimuth, moduleW).Err?
    ensures exists i ::
              && 0 <= i < |areas|
              && (forall k :: 0 <= k < i ==> AllCounted(areas[k].groups))
              && GroupsSystems(areas[i].groups, areas[i].tilt, azimuth, moduleW) ==
                   Err(Systems(areas, azimuth, moduleW).error)
  {
    var init := areas[..|areas| - 1];
    if Systems(init, azimuth, moduleW).Err? {
      SystemsErrNamesFirst(init, azimuth, moduleW);
      var i :| 0 <= i < |init| && (forall k :: 0 <= k < i ==> AllCounted(init[k].groups)) &&
        GroupsSystems(init[i].groups, init[i].tilt, azimuth, moduleW) == Err(Systems(init, azimuth, moduleW).error);
      assert forall k :: 0 <= k <= i ==> init[k] == areas[k];
    } else {
      SystemsOk(init, azimuth, moduleW);
      assert forall k :: 0 <= k < |init| ==> init[k] == areas[k];
    }
  }

  /** The plant holds as many systems as the units summed over all groups of all areas. */
  lemma {:induction false} SystemsCount(areas: seq<Area>, azimuth: real, moduleW: real)
    requires Systems(areas, azimuth, moduleW).Ok?
    ensures |Systems(areas, azimuth, moduleW).value| == TotalUnits(areas)
  {
    if areas != [] {
      var init := areas[..|areas| - 1];
      var a := areas[|areas| - 1];
      SystemsCount(init, azimuth, moduleW);
      GroupsCount(a.groups, a.tilt, azimuth, moduleW);
    }
  }

  /** Every system of the plant is the system of some group of some area, with that area's
      tilt, the plant's azimuth and the module rating. */
  lemma {:induction false} SystemsFromGroups(areas: seq<Area>, azimuth: real, moduleW: real)
    requires Systems(areas, azimuth, moduleW).Ok?
    ensures var out := Systems(areas, azimuth, moduleW).value;
      forall k :: 0 <= k < |out| ==>
        exists i, j :: (0 <= i < |areas| && 0 <= j < |areas[i].groups| &&
          out[k] == SystemOf(areas[i].groups[j], areas[i].tilt, azimuth, moduleW))
  {
    if areas != [] {
      var init := areas[..|areas| - 1];
      var a := areas[|areas| - 1];
      SystemsFromGroups(init, azimuth, moduleW);
      GroupsFrom(a.groups, a.tilt, azimuth, moduleW);
      var prior := Systems(init, azimuth, moduleW).value;
      var more := GroupsSystems(a.groups, a.tilt, azimuth, moduleW).value;
      var out := Systems(areas, azimuth, moduleW).value;
      assert out == prior + more;
      forall k | 0 <= k < |out|
        ensures exists i, j :: (0 <= i < |areas| && 0 <= j < |areas[i].groups| &&
          out[k] == SystemOf(areas[i].groups[j], areas[i].tilt, azimuth, moduleW))
      {
        if k < |prior| {
          var i, j :| 0 <= i < |init| && 0 <= j < |init[i].groups| &&
            prior[k] == SystemOf(init[i].groups[j], init[i].tilt, azimuth, moduleW);
          assert init[i] == areas[i];
          assert out[k] == SystemOf(areas[i].groups[j], areas[i].tilt, azimuth, moduleW);
        } else {
          var j :| 0 <= j < |a.groups| && more[k - |prior|] == SystemOf(a.groups[j], a.tilt, azimuth, moduleW);
          assert out[k] == SystemOf(areas[|areas| - 1].groups[j], areas[|areas| - 1].tilt, azimuth, moduleW);
        }
      }
    }
  }
}
