/**
 * Positions in a GPGGA sentence: latitude and longitude written as degrees and minutes packed
 * into one number (`ddmm.mmmm`, `dddmm.mmmm`) with a separate hemisphere letter, and the
 * UTM coordinates the driver obtains for the converted position.
 */
module Coordinates {
  import opened Wrappers
  import opened Numeric

  /** `int(v / 100)`: the whole degrees, truncated toward zero. */
  function Degrees(v: real): (dd: int)
    ensures 0.0 <= v ==> 0 <= dd && dd as real * 100.0 <= v < dd as real * 100.0 + 100.0
  {
    Trunc(v / 100.0)
  }

  /** `v - degrees * 100`: the minutes left over. */
  function MinutesPart(v: real): (mm: real)
    ensures 0.0 <= v ==> 0.0 <= mm < 100.0
    ensures Degrees(v) as real * 100.0 + mm == v
  {
    v - Degrees(v) as real * 100.0
  }

  /**
   * `degrees + minutes / 60`: decimal degrees. For a non-negative reading the result lies at or
   * above its whole degrees, and below the next degree when the minutes are below sixty.
   */
  function DegMinToDecimal(v: real): (d: real)
    ensures 0.0 <= v ==> Degrees(v) as real <= d
    ensures 0.0 <= v && MinutesPart(v) < 60.0 ==> d < Degrees(v) as real + 1.0
  {
    Degrees(v) as real + MinutesPart(v) / 60.0
  }

  /** The hemisphere letter that turns a latitude negative. */
  const South: string := "S"

  /** The hemisphere letter that turns a longitude negative. */
  const West: string := "W"

  /** Decimal latitude: negated exactly when the hemisphere field is `S`; any other text keeps it. */
  function Latitude(v: real, hemisphere: string): (lat: real)
    ensures lat == DegMinToDecimal(v) || lat == -DegMinToDecimal(v)
  {
    var d := DegMinToDecimal(v);
    if hemisphere == South then -d else d
  }

  /** Decimal longitude: negated exactly when the hemisphere field is `W`; any other text keeps it. */
  function Longitude(v: real, hemisphere: string): (lon: real)
    ensures lon == DegMinToDecimal(v) || lon == -DegMinToDecimal(v)
  {
    var d := DegMinToDecimal(v);
    if hemisphere == West then -d else d
  }

  /**
   * The conversion inverts the packing `degrees * 100 + minutes`: whole degrees and minutes
   * below one hundred come back as `degrees + minutes / 60`.
   */
  lemma DegMinRoundTrip(degrees: nat, minutes: real)
    requires 0.0 <= minutes < 100.0
    ensures var v := degrees as real * 100.0 + minutes;
      Degrees(v) == degrees && MinutesPart(v) == minutes &&
      DegMinToDecimal(v) == degrees as real + minutes / 60.0
  {
    var v := degrees as real * 100.0 + minutes;
    assert degrees as real <= v / 100.0 < degrees as real + 1.0;
  }

  /** A negative reading converts to the negation of the positive one. */
  lemma DegMinOdd(v: real)
    ensures DegMinToDecimal(-v) == -DegMinToDecimal(v)
  {
    TruncVersusFloor(v / 100.0);
    assert -v / 100.0 == -(v / 100.0);
  }

  /** For a positive reading, the latitude is negative exactly when the hemisphere is `S`. */
  lemma LatitudeSign(v: real, hemisphere: string)
    requires 0.0 < v
    ensures Latitude(v, hemisphere) < 0.0 <==> hemisphere == South
  {
    PositiveReading(v);
  }

  /** For a positive reading, the longitude is negative exactly when the hemisphere is `W`. */
  lemma LongitudeSign(v: real, hemisphere: string)
    requires 0.0 < v
    ensures Longitude(v, hemisphere) < 0.0 <==> hemisphere == West
  {
    PositiveReading(v);
  }

  /**
   * For any reading, zero and negative ones included: `S` gives the negation of what any other
   * hemisphere text gives, and negating the reading negates the latitude.
   */
  lemma LatitudeMirror(v: real, hemisphere: string)
    ensures hemisphere != South ==> Latitude(v, South) == -Latitude(v, hemisphere)
    ensures Latitude(-v, hemisphere) == -Latitude(v, hemisphere)
  {
    DegMinOdd(v);
  }

  /**
   * For any reading, zero and negative ones included: `W` gives the negation of what any other
   * hemisphere text gives, and negating the reading negates the longitude.
   */
  lemma LongitudeMirror(v: real, hemisphere: string)
    ensures hemisphere != West ==> Longitude(v, West) == -Longitude(v, hemisphere)
    ensures Longitude(-v, hemisphere) == -Longitude(v, hemisphere)
  {
    DegMinOdd(v);
  }

  /** A positive reading converts to a positive number of degrees. */
  lemma PositiveReading(v: real)
    requires 0.0 < v
    ensures 0.0 < DegMinToDecimal(v)
  {
    if Degrees(v) == 0 {
      assert MinutesPart(v) == v;
    }
  }

  /** `4807.038` (48 degrees 7.038 minutes) is 48.1173 degrees exactly. */
  lemma LatitudeExample()
    ensures Latitude(4807.038, "N") == 48.1173 && Latitude(4807.038, "S") == -48.1173
  {
    DegMinRoundTrip(48, 7.038);
  }

  /** `01131.000` (11 degrees 31 minutes east) is 11 + 31/60 degrees, about 11.5167. */
  lemma LongitudeExample()
    ensures Longitude(1131.0, "E") == 11.0 + 31.0 / 60.0 && Longitude(1131.0, "W") == -(11.0 + 31.0 / 60.0)
  {
    DegMinRoundTrip(11, 31.0);
  }

  /** A UTM position as `utm.from_latlon` returns it: easting, northing, zone number and letter. */
  datatype UtmPoint = UtmPoint(easting: real, northing: real, zone: int, letter: string)

  /**
   * `utm.from_latlon` for a latitude and a longitude. `None` stands for the `ValueError`
   * (`OutOfRangeError`) the library raises, which the driver catches like a parse failure.
   */
  type Projection = (real, real) -> Option<UtmPoint>
}
