/** The observation records of the buoy poller and the queries it asks of them
    (buoys.py, classes `Observation` and `Observations`). */
module Buoys {
  import opened Wrappers

  /** The UTC minute a data row reports. Python compares the aware datetimes
      built from these fields as instants, which for calendar dates is the
      lexicographic order of (year, month, day, hour, minute). */
  datatype Instant = Instant(year: int, month: int, day: int, hour: int, minute: int)
  {
    /** Strictly earlier than `other`. */
    predicate Before(other: Instant)
    {
      if year != other.year then year < other.year
      else if month != other.month then month < other.month
      else if day != other.day then day < other.day
      else if hour != other.hour then hour < other.hour
      else minute < other.minute
    }
  }

  lemma BeforeIsStrictTotalOrder(a: Instant, b: Instant, c: Instant)
    ensures !a.Before(a)
    ensures a.Before(b) ==> !b.Before(a)
    ensures a.Before(b) && b.Before(c) ==> a.Before(c)
    ensures a != b ==> a.Before(b) || b.Before(a)
  {
  }

  /** One buoy reading: when, significant wave height in feet, dominant period in seconds. */
  datatype Observation = Observation(time: Instant, waveHeight: real, period: real)

  /** The readings of one station, newest first as the data file lists them. */
  datatype Observations = Observations(items: seq<Observation>)
  {
    predicate HasLatest()
    {
      |items| > 0
    }

    /** The newest reading, if any: the first one listed. */
    function Latest(): (r: Option<Observation>)
      ensures r.Some? <==> HasLatest()
      ensures r.Some? ==> r.value == items[0]
    {
      if |items| > 0 then Some(items[0]) else None
    }

    /** The time of the newest reading, if any. */
    function LatestTime(): (r: Option<Instant>)
      ensures r.Some? <==> Latest().Some?
      ensures r.Some? ==> r.value == Latest().value.time
    {
      if |items| > 0 then Some(items[0].time) else None
    }

    /** The trend shown as `+`: rising or level between the two newest
        readings, and rising by default when there are fewer than two. */
    predicate WaveHeightUp()
    {
      |items| < 2 || items[0].waveHeight >= items[1].waveHeight
    }

    /** This set has a newest reading, and the other has none or an earlier one. */
    predicate NewerThan(other: Observations)
    {
      match LatestTime()
      case None => false
      case Some(mine) =>
        match other.LatestTime()
        case None => true
        case Some(theirs) => theirs.Before(mine)
    }
  }

  /** Only a falling height between the two newest readings shows as `-`; a tie shows as `+`. */
  lemma {:induction false} WaveHeightUpUnlessFalling(obs: Observations)
    ensures !obs.WaveHeightUp() <==> |obs.items| >= 2 && obs.items[0].waveHeight < obs.items[1].waveHeight
    ensures |obs.items| >= 2 && obs.items[0].waveHeight == obs.items[1].waveHeight ==> obs.WaveHeightUp()
  {
  }

  /** `NewerThan` is a strict order, an empty set is never newer, and any
      non-empty set is newer than an empty one. */
  lemma {:induction false} NewerThanIsStrictOrder(a: Observations, b: Observations, c: Observations)
    ensures !a.NewerThan(a)
    ensures a.NewerThan(b) ==> !b.NewerThan(a)
    ensures a.NewerThan(b) && b.NewerThan(c) ==> a.NewerThan(c)
    ensures !a.HasLatest() ==> !a.NewerThan(b)
    ensures a.HasLatest() && !b.HasLatest() ==> a.NewerThan(b)
  {
    if a.HasLatest() && b.HasLatest() && c.HasLatest() {
      BeforeIsStrictTotalOrder(c.items[0].time, b.items[0].time, a.items[0].time);
      BeforeIsStrictTotalOrder(a.items[0].time, b.items[0].time, c.items[0].time);
    }
  }
}
