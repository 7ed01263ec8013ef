/**
 * `get_current_state`: day or night from the current instant and the day's sun times.
 * Instants are integers on one UTC time line; the sun times are an input, absent for
 * polar day or night.
 */
module DayNight {
  import opened Wrappers

  datatype DayState = Day | Night

  datatype SunTimes = SunTimes(sunrise: int, sunset: int)

  function Opposite(s: DayState): DayState {
    if s == Day then Night else Day
  }

  /** `now` lies in the closed interval from `lo` to `hi`. */
  predicate Within(now: int, lo: int, hi: int) {
    lo <= now <= hi
  }

  /**
   * Absent sun times mean day. With sunrise strictly before sunset it is day on the
   * closed span between them; otherwise, equal times included, it is night on the
   * closed span from sunset to sunrise.
   */
  function CurrentState(now: int, sun: Option<SunTimes>): (s: DayState)
    ensures sun.None? ==> s == Day
    ensures sun.Some? && sun.value.sunrise < sun.value.sunset ==>
      (s == Day <==> Within(now, sun.value.sunrise, sun.value.sunset))
    ensures sun.Some? && sun.value.sunrise >= sun.value.sunset ==>
      (s == Night <==> Within(now, sun.value.sunset, sun.value.sunrise))
  {
    match sun
    case None => Day
    case Some(t) =>
      if t.sunrise < t.sunset then
        if t.sunrise <= now <= t.sunset then Day else Night
      else
        if t.sunset <= now <= t.sunrise then Night else Day
  }

  /** Exchanging two different sun times turns day into night and back at every instant. */
  lemma SwapInvertsState(now: int, a: int, b: int)
    requires a != b
    ensures CurrentState(now, Some(SunTimes(b, a))) == Opposite(CurrentState(now, Some(SunTimes(a, b))))
  {
  }

  /**
   * Equal sunrise and sunset take the inverted branch, because the ordering test is
   * strict: it is night at that single instant and day at every other.
   */
  lemma EqualTimesNightOnlyAtThatInstant(now: int, t: int)
    ensures CurrentState(now, Some(SunTimes(t, t))) == Night <==> now == t
  {
  }

  /** Both boundaries of an ordinary day are daytime; the instants just outside are night. */
  lemma BoundariesInclusive(sunrise: int, sunset: int)
    requires sunrise < sunset
    ensures CurrentState(sunrise, Some(SunTimes(sunrise, sunset))) == Day
    ensures CurrentState(sunset, Some(SunTimes(sunrise, sunset))) == Day
    ensures CurrentState(sunrise - 1, Some(SunTimes(sunrise, sunset))) == Night
    ensures CurrentState(sunset + 1, Some(SunTimes(sunrise, sunset))) == Night
  {
  }

  /** In an ordinary day the daytime instants form one unbroken stretch. */
  lemma DaytimeIsContiguous(sun: SunTimes, t1: int, t: int, t2: int)
    requires sun.sunrise < sun.sunset && t1 <= t <= t2
    requires CurrentState(t1, Some(sun)) == Day && CurrentState(t2, Some(sun)) == Day
    ensures CurrentState(t, Some(sun)) == Day
  {
  }
}
