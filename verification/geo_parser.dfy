/**
 * `parse_iso6709` and its nested `parse_part`: the compact `±DDMM[SS]±DDDMM[SS]`
 * coordinate notation of ISO 6709 as the tz database's zone table writes it.
 * Degrees are exact rationals.
 */
module GeoParser {
  import opened Wrappers
  import opened Text

  datatype Coord = Coord(lat: real, lon: real)

  predicate IsSign(c: char) {
    c == '+' || c == '-'
  }

  /** The index of the first `+` or `-` at or after `from`, if any. */
  function FirstSignFrom(s: string, from: nat): (k: Option<nat>)
    ensures k.Some? ==> from <= k.value < |s| && IsSign(s[k.value])
    ensures k.Some? ==> forall j :: from <= j < k.value ==> !IsSign(s[j])
    ensures k.None? ==> forall j :: from <= j < |s| ==> !IsSign(s[j])
    decreases |s| - from
  {
    if from >= |s| then None
    else if IsSign(s[from]) then Some(from)
    else FirstSignFrom(s, from + 1)
  }

  /** Where the longitude starts: the second sign, searched from index 1. */
  function LongitudeStart(s: string): Option<nat> {
    FirstSignFrom(s, 1)
  }

  /**
   * A half is refused only when its digit count selects a layout and the digits
   * are not all decimal; any other count decodes to 0.0.
   */
  predicate Decodable(part: string)
    requires |part| > 0
  {
    var digits := |part| - 1;
    !(4 <= digits <= 7) || AllDigits(part[1..])
  }

  /**
   * The unsigned value of a digit field: the last two digits are minutes, or with
   * six or seven digits the last four are minutes and seconds; the rest are degrees.
   */
  function FieldDegrees(val: string): (d: real)
    requires 4 <= |val| <= 7 && AllDigits(val)
    ensures d >= 0.0
  {
    if |val| <= 5 then
      var deg := NatOf(val[..|val| - 2]);
      var min := NatOf(val[|val| - 2..]);
      deg as real + min as real / 60.0
    else
      var deg := NatOf(val[..|val| - 4]);
      var min := NatOf(val[|val| - 4..|val| - 2]);
      var sec := NatOf(val[|val| - 2..]);
      deg as real + min as real / 60.0 + sec as real / 3600.0
  }

  /** `parse_part`: one signed half decoded into degrees. */
  function ParsePart(part: string): (r: Option<real>)
    requires |part| > 0
    ensures r.Some? <==> Decodable(part)
    ensures !(4 <= |part| - 1 <= 7) ==> r == Some(0.0)
    ensures r.Some? && part[0] == '+' ==> r.value >= 0.0
    ensures r.Some? && part[0] != '+' ==> r.value <= 0.0
  {
    var val := part[1..];
    if 4 <= |val| <= 7 then
      if AllDigits(val) then
        var d := FieldDegrees(val);
        Some(if part[0] == '+' then d else -d)
      else None
    else Some(0.0)
  }

  /** `parse_iso6709` as a value: split at the second sign, decode both halves. */
  function Iso6709(s: string): (r: Option<Coord>)
    ensures LongitudeStart(s).None? ==> r.None?
    ensures LongitudeStart(s).Some? ==>
      var k := LongitudeStart(s).value;
      (r.Some? <==> Decodable(s[..k]) && Decodable(s[k..]))
      && (r.Some? ==> Some(r.value.lat) == ParsePart(s[..k]) && Some(r.value.lon) == ParsePart(s[k..]))
  {
    match LongitudeStart(s)
    case None => None
    case Some(k) =>
      var lat := ParsePart(s[..k]);
      var lon := ParsePart(s[k..]);
      if lat.Some? && lon.Some? then Some(Coord(lat.value, lon.value)) else None
  }

  /** `parse_iso6709` as the program runs it: a scan for the second sign, then the split. */
  method ParseIso6709(s: string) returns (r: Option<Coord>)
    ensures r == Iso6709(s)
  {
    var signIdx := -1;
    var i := 1;
    while i < |s|
      invariant 1 <= i
      invariant forall j :: 1 <= j < i && j < |s| ==> !IsSign(s[j])
    {
      if IsSign(s[i]) {
        signIdx := i;
        break;
      }
      i := i + 1;
    }
    if signIdx == -1 {
      return None;
    }
    var latPart := s[..signIdx];
    var lonPart := s[signIdx..];
    var lat := ParsePart(latPart);
    var lon := ParsePart(lonPart);
    if lat.Some? && lon.Some? {
      r := Some(Coord(lat.value, lon.value));
    } else {
      r := None;
    }
  }

  /** One half as the zone table writes it: sign, degrees, minutes and optional seconds. */
  datatype Angle = Angle(negative: bool, deg: nat, min: nat, sec: Option<nat>)

  /** The unsigned size of the angle in decimal degrees. */
  function Magnitude(a: Angle): real {
    a.deg as real + a.min as real / 60.0 + (if a.sec.Some? then a.sec.value as real / 3600.0 else 0.0)
  }

  /** The angle in decimal degrees. */
  function Degrees(a: Angle): real {
    if a.negative then -Magnitude(a) else Magnitude(a)
  }

  /** An angle whose fields fit `degWidth` degree digits and two digits each for minutes and seconds. */
  predicate Fits(a: Angle, degWidth: nat) {
    a.deg < Pow10(degWidth) && a.min < 100 && (a.sec.Some? ==> a.sec.value < 100)
  }

  /** The digit field of one half: degrees, minutes and the optional seconds, zero-padded. */
  function Field(a: Angle, degWidth: nat): (s: string)
    ensures |s| == degWidth + 2 + (if a.sec.Some? then 2 else 0) && AllDigits(s)
  {
    DigitsOf(a.deg, degWidth) + DigitsOf(a.min, 2) + (if a.sec.Some? then DigitsOf(a.sec.value, 2) else "")
  }

  /** The fixed-width text of one half. */
  function Encode(a: Angle, degWidth: nat): (s: string)
    ensures |s| == 1 + degWidth + 2 + (if a.sec.Some? then 2 else 0)
    ensures IsSign(s[0]) && AllDigits(s[1..])
  {
    [if a.negative then '-' else '+'] + Field(a, degWidth)
  }

  /** A field written with two or three degree digits reads back as the angle's magnitude. */
  lemma FieldThenFieldDegrees(a: Angle, degWidth: nat)
    requires degWidth == 2 || degWidth == 3
    requires Fits(a, degWidth)
    ensures FieldDegrees(Field(a, degWidth)) == Magnitude(a)
  {
    var val := Field(a, degWidth);
    var d := DigitsOf(a.deg, degWidth);
    var m := DigitsOf(a.min, 2);
    NatOfDigitsOf(a.deg, degWidth);
    NatOfDigitsOf(a.min, 2);
    if a.sec.Some? {
      var sc := DigitsOf(a.sec.value, 2);
      NatOfDigitsOf(a.sec.value, 2);
      assert val[..|val| - 4] == d;
      assert val[|val| - 4..|val| - 2] == m;
      assert val[|val| - 2..] == sc;
    } else {
      assert val[..|val| - 2] == d;
      assert val[|val| - 2..] == m;
    }
  }

  /** Decoding a half written with two- or three-digit degrees gives its angle back. */
  lemma EncodeThenParsePart(a: Angle, degWidth: nat)
    requires degWidth == 2 || degWidth == 3
    requires Fits(a, degWidth)
    ensures ParsePart(Encode(a, degWidth)) == Some(Degrees(a))
  {
    var s := Encode(a, degWidth);
    assert s[1..] == Field(a, degWidth);
    FieldThenFieldDegrees(a, degWidth);
  }

  /** A zone-table coordinate written from two angles decodes to exactly those angles. */
  lemma EncodeThenParse(lat: Angle, lon: Angle, latWidth: nat, lonWidth: nat)
    requires latWidth == 2 || latWidth == 3
    requires lonWidth == 2 || lonWidth == 3
    requires Fits(lat, latWidth) && Fits(lon, lonWidth)
    ensures Iso6709(Encode(lat, latWidth) + Encode(lon, lonWidth)) == Some(Coord(Degrees(lat), Degrees(lon)))
  {
    var a := Encode(lat, latWidth);
    var b := Encode(lon, lonWidth);
    var s := a + b;
    assert s[|a|] == b[0];
    forall j | 1 <= j < |a| ensures !IsSign(s[j]) {
      assert s[j] == a[1..][j - 1];
    }
    assert LongitudeStart(s) == Some(|a|);
    assert s[..|a|] == a && s[|a|..] == b;
    EncodeThenParsePart(lat, latWidth);
    EncodeThenParsePart(lon, lonWidth);
  }

  /** Auckland's entry: south 36°52', east 174°46'. */
  lemma AucklandExample()
    ensures Iso6709("-3652+17446") == Some(Coord(-(36.0 + 52.0 / 60.0), 174.0 + 46.0 / 60.0))
  {
    var lat := Angle(true, 36, 52, None);
    var lon := Angle(false, 174, 46, None);
    assert DigitsOf(36, 2) == "36" && DigitsOf(52, 2) == "52";
    assert DigitsOf(174, 3) == "174" && DigitsOf(46, 2) == "46";
    assert Encode(lat, 2) == "-3652" && Encode(lon, 3) == "+17446";
    assert Encode(lat, 2) + Encode(lon, 3) == "-3652+17446";
    EncodeThenParse(lat, lon, 2, 3);
  }
}
