/**
 * `get_fallback_location` and the choice between tiers in `main`: the tz database's
 * zone table searched for the host's zone, and the UTC-offset estimate when that fails.
 * The timezone name, the table's lines and the offset are inputs; reading them is not modelled.
 */
module Location {
  import opened Wrappers
  import opened Text
  import opened Arith
  import opened GeoParser

  const Tab: char := '\t'

  /** Comment lines and lines holding only whitespace are passed over. */
  predicate Skipped(line: string) {
    (|line| > 0 && line[0] == '#') || Strip(line) == []
  }

  /** What one table line contributes for zone `tz`: its decoded coordinate column, if it names `tz`. */
  function LineCoordinates(line: string, tz: string): Option<Coord> {
    if Skipped(line) then None
    else
      var fields := Split(line, Tab);
      if |fields| >= 3 && Strip(fields[2]) == tz then Iso6709(fields[1]) else None
  }

  /** The zone-table search: the first line that contributes a coordinate. */
  function ZoneCoordinates(lines: seq<string>, tz: string): Option<Coord>
    decreases |lines|
  {
    if lines == [] then None
    else match LineCoordinates(lines[0], tz)
      case Some(c) => Some(c)
      case None => ZoneCoordinates(lines[1..], tz)
  }

  /** The line-by-line loop with its early return. */
  method LookupZone(lines: seq<string>, tz: string) returns (r: Option<Coord>)
    ensures r == ZoneCoordinates(lines, tz)
  {
    for i := 0 to |lines|
      invariant ZoneCoordinates(lines[i..], tz) == ZoneCoordinates(lines, tz)
    {
      assert lines[i..][1..] == lines[i + 1..];
      var line := lines[i];
      if (|line| > 0 && line[0] == '#') || Strip(line) == [] {
        continue;
      }
      var parts := Split(line, Tab);
      if |parts| >= 3 && Strip(parts[2]) == tz {
        var coords := ParseIso6709(parts[1]);
        if coords.Some? {
          return coords;
        }
      }
    }
    assert lines[|lines|..] == [];
    r := None;
  }

  /** The first line that yields a coordinate decides the answer; later lines are never consulted. */
  lemma {:induction false} FirstMatchWins(lines: seq<string>, tz: string, i: nat)
    requires i < |lines| && LineCoordinates(lines[i], tz).Some?
    requires forall j :: 0 <= j < i ==> LineCoordinates(lines[j], tz).None?
    ensures ZoneCoordinates(lines, tz) == LineCoordinates(lines[i], tz)
  {
    if i > 0 {
      FirstMatchWins(lines[1..], tz, i - 1);
    }
  }

  /** The search fails exactly when no line yields a coordinate, matching lines with bad coordinates included. */
  lemma {:induction false} NoMatchIff(lines: seq<string>, tz: string)
    ensures ZoneCoordinates(lines, tz).None? <==> forall i :: 0 <= i < |lines| ==> LineCoordinates(lines[i], tz).None?
    decreases |lines|
  {
    if lines != [] {
      NoMatchIff(lines[1..], tz);
      if LineCoordinates(lines[0], tz).None? {
        forall i | 0 <= i < |lines| && ZoneCoordinates(lines, tz).None?
          ensures LineCoordinates(lines[i], tz).None?
        {
          if i > 0 {
            assert lines[i] == lines[1..][i - 1];
          }
        }
      }
    }
  }

  /**
   * What may follow a row's zone column: a tab and the comment column, or (in a row
   * without comments) nothing but the line's whitespace ending, such as its newline.
   */
  predicate RowEnding(rest: string) {
    (|rest| > 0 && rest[0] == Tab) || (Tab !in rest && AllSpace(rest))
  }

  /** Splitting a row gives its coordinate column second and its zone, once stripped, third. */
  lemma {:induction false} SplitRow(codes: string, coord: string, zone: string, rest: string)
    requires Tab !in codes && Tab !in coord && Tab !in zone && Trimmed(zone)
    requires RowEnding(rest)
    ensures var fields := Split(codes + [Tab] + coord + [Tab] + zone + rest, Tab);
      |fields| >= 3 && fields[1] == coord && Strip(fields[2]) == zone
  {
    var line := codes + [Tab] + coord + [Tab] + zone + rest;
    assert line == codes + [Tab] + (coord + [Tab] + (zone + rest));
    SplitAtFirst(codes, coord + [Tab] + (zone + rest), Tab);
    SplitAtFirst(coord, zone + rest, Tab);
    if |rest| > 0 && rest[0] == Tab {
      assert zone + rest == zone + [Tab] + rest[1..];
      SplitAtFirst(zone, rest[1..], Tab);
      StripTrimmed(zone);
    } else {
      assert Tab !in zone + rest;
      SplitNoSeparator(zone + rest, Tab);
      StripTrailingSpace(zone, rest);
    }
  }

  /** An encoded coordinate is a sign followed by digits and signs only, so it holds no tab. */
  lemma EncodedHasNoTab(lat: Angle, lon: Angle, latWidth: nat, lonWidth: nat)
    ensures Tab !in Encode(lat, latWidth) + Encode(lon, lonWidth)
  {
    var a, b := Encode(lat, latWidth), Encode(lon, lonWidth);
    forall j | 0 <= j < |a + b| ensures (a + b)[j] != Tab {
      if j < |a| {
        if j > 0 { assert a[j] == a[1..][j - 1]; }
      } else {
        if j > |a| { assert b[j - |a|] == b[1..][j - |a| - 1]; }
      }
    }
  }

  /** A row whose coordinate column starts with a sign is neither comment nor blank. */
  lemma RowNotSkipped(codes: string, coord: string, zone: string, rest: string)
    requires codes == [] || codes[0] != '#'
    requires |coord| > 0 && IsSign(coord[0])
    ensures !Skipped(codes + [Tab] + coord + [Tab] + zone + rest)
  {
    var line := codes + [Tab] + coord + [Tab] + zone + rest;
    assert line[|codes| + 1] == coord[0];
    assert !AllSpace(line);
    StripEmptyIffBlank(line);
  }

  /** A row naming `zone` in its third column contributes the decoding of its second column. */
  lemma RowContributes(codes: string, coord: string, zone: string, rest: string)
    requires Tab !in codes && (codes == [] || codes[0] != '#')
    requires Tab !in coord && |coord| > 0 && IsSign(coord[0])
    requires Tab !in zone && Trimmed(zone)
    requires RowEnding(rest)
    ensures LineCoordinates(codes + [Tab] + coord + [Tab] + zone + rest, zone) == Iso6709(coord)
  {
    var line := codes + [Tab] + coord + [Tab] + zone + rest;
    SplitRow(codes, coord, zone, rest);
    RowNotSkipped(codes, coord, zone, rest);
    var fields := Split(line, Tab);
    assert |fields| >= 3 && fields[1] == coord && Strip(fields[2]) == zone;
  }

  /**
   * A well-formed table row `codes TAB coordinates TAB zone`, followed by a tab and a
   * comment or by its line ending, is found under its own zone name and yields the
   * coordinate it was written from.
   */
  lemma TableRowYields(codes: string, lat: Angle, lon: Angle, latWidth: nat, lonWidth: nat,
                       zone: string, rest: string)
    requires Tab !in codes && (codes == [] || codes[0] != '#')
    requires latWidth == 2 || latWidth == 3
    requires lonWidth == 2 || lonWidth == 3
    requires Fits(lat, latWidth) && Fits(lon, lonWidth)
    requires Tab !in zone && Trimmed(zone)
    requires RowEnding(rest)
    ensures LineCoordinates(codes + [Tab] + (Encode(lat, latWidth) + Encode(lon, lonWidth)) + [Tab] + zone + rest, zone)
            == Some(Coord(Degrees(lat), Degrees(lon)))
  {
    var coord := Encode(lat, latWidth) + Encode(lon, lonWidth);
    EncodedHasNoTab(lat, lon, latWidth, lonWidth);
    RowContributes(codes, coord, zone, rest);
    EncodeThenParse(lat, lon, latWidth, lonWidth);
  }

  /** Hours east of UTC, from whole seconds. */
  function OffsetHours(offsetSeconds: int): real {
    offsetSeconds as real / 3600.0
  }

  /** The terminal estimate: fifteen degrees of longitude per hour of offset, wrapped into `[-180, 180)`. */
  function OffsetLongitude(offsetSeconds: int): (lon: real)
    ensures -180.0 <= lon < 180.0
  {
    FloorMod(OffsetHours(offsetSeconds) * 15.0 + 180.0, 360.0) - 180.0
  }

  /** For a positive divisor the real quotient's floor is integer division. */
  lemma FloorOfQuotient(a: int, b: int)
    requires b > 0
    ensures (a as real / b as real).Floor == a / b
  {
    var q, r := a / b, a % b;
    assert a as real == q as real * b as real + r as real;
    assert q as real <= a as real / b as real < q as real + 1.0 by {
      MulMonotone(q as real, a as real / b as real, b as real);
      MulMonotone(a as real / b as real, q as real + 1.0, b as real);
    }
  }

  /** The estimate in whole arithmetic: 240 times the longitude is the offset wrapped into `[-43200, 43200)`. */
  lemma OffsetLongitudeExact(offsetSeconds: int)
    ensures 240.0 * OffsetLongitude(offsetSeconds) == ((offsetSeconds + 43200) % 86400 - 43200) as real
  {
    var a := offsetSeconds + 43200;
    var x := OffsetHours(offsetSeconds) * 15.0 + 180.0;
    assert x == a as real / 240.0;
    assert x / 360.0 == a as real / 86400 as real;
    FloorOfQuotient(a, 86400);
    var q := a / 86400;
    assert FloorMod(x, 360.0) == x - 360.0 * q as real;
    assert a == q * 86400 + a % 86400;
  }

  /** Whole-hour offsets from UTC-12 up to UTC+11 give exactly fifteen degrees per hour. */
  lemma WholeHourOffsets(hours: int)
    requires -12 <= hours < 12
    ensures OffsetLongitude(3600 * hours) == 15.0 * hours as real
  {
    OffsetLongitudeExact(3600 * hours);
    assert (3600 * hours + 43200) % 86400 == 3600 * hours + 43200;
  }

  /** Offsets a whole day apart give the same longitude, so UTC+12 lands on -180 and UTC+14 on -150. */
  lemma OffsetLongitudePeriodic(offsetSeconds: int)
    ensures OffsetLongitude(offsetSeconds + 86400) == OffsetLongitude(offsetSeconds)
  {
    OffsetLongitudeExact(offsetSeconds);
    OffsetLongitudeExact(offsetSeconds + 86400);
    assert (offsetSeconds + 86400 + 43200) % 86400 == (offsetSeconds + 43200) % 86400;
  }

  /** The table tier's answer: only consulted for a non-empty zone name and a table that could be opened. */
  function TableTier(tzName: Option<string>, table: Option<seq<string>>): Option<Coord> {
    if tzName.Some? && tzName.value != [] && table.Some? then ZoneCoordinates(table.value, tzName.value) else None
  }

  /** `get_fallback_location`: the zone table first, then the offset estimate at latitude 0. */
  method GetFallbackLocation(tzName: Option<string>, table: Option<seq<string>>, offsetSeconds: int)
    returns (c: Coord)
    ensures TableTier(tzName, table).Some? ==> c == TableTier(tzName, table).value
    ensures TableTier(tzName, table).None? ==> c.lat == 0.0 && c.lon == OffsetLongitude(offsetSeconds)
    ensures TableTier(tzName, table).None? ==> -180.0 <= c.lon < 180.0
  {
    if tzName.Some? && tzName.value != [] {
      if table.Some? {
        var coords := LookupZone(table.value, tzName.value);
        if coords.Some? {
          return coords.value;
        }
      }
    }
    var lon := OffsetLongitude(offsetSeconds);
    c := Coord(0.0, lon);
  }

  /** The tier order of `main`: the network answer unless skipped or failed, else the fallback chain. */
  method ResolveLocation(noIp: bool, ipLocation: Option<Coord>, tzName: Option<string>,
                         table: Option<seq<string>>, offsetSeconds: int)
    returns (c: Coord)
    ensures !noIp && ipLocation.Some? ==> c == ipLocation.value
    ensures (noIp || ipLocation.None?) && TableTier(tzName, table).Some? ==> c == TableTier(tzName, table).value
    ensures (noIp || ipLocation.None?) && TableTier(tzName, table).None? ==>
      c == Coord(0.0, OffsetLongitude(offsetSeconds))
  {
    var loc: Option<Coord> := None;
    if !noIp {
      loc := ipLocation;
    }
    if loc.Some? {
      c := loc.value;
    } else {
      c := GetFallbackLocation(tzName, table, offsetSeconds);
    }
  }
}
