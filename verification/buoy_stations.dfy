/** One polling round over the configured stations and the message lines
    written from them (buoys.py, `update_observations`, `format_line` and the
    line selection of `update_message_file_restart_proc`). */
module BuoyStations {
  import opened Wrappers
  import opened Sequences
  import opened Buoys
  import opened BuoyParsing

  /** A configured station and the observations stored for it, if any. A
      stored empty set counts as present: `Observations` defines no length,
      so Python treats every instance as true. */
  datatype Station = Station(id: string, name: string, observations: Option<Observations>)

  /** What one fetch yields: the data file split into lines of words, or
      `None` when the download raised. */
  type Response = Option<seq<seq<string>>>

  /** The observations a fetch produces, or `None` when the download or the
      parse raised (the exception is logged and the station skipped). */
  function Fetched(response: Response, num: Numerals): (r: Option<Observations>)
    ensures r.Some? <==> response.Some? && ParseObservations(response.value, num).Success?
    ensures r.Some? ==> r.value == ParseObservations(response.value, num).value
  {
    match response
    case None => None
    case Some(lines) =>
      match ParseObservations(lines, num)
      case Success(obs) => Some(obs)
      case Failure(_) => None
  }

  /** Fresh observations replace the stored ones when nothing was stored or
      they are newer. */
  predicate Replaces(incoming: Observations, stored: Option<Observations>)
  {
    stored.None? || incoming.NewerThan(stored.value)
  }

  /** The station after one fetch attempt whose outcome is `fetched`. */
  function Refresh(station: Station, fetched: Option<Observations>): (s: Station)
    ensures s.id == station.id && s.name == station.name
    ensures s.observations == station.observations || s.observations == fetched
  {
    if fetched.Some? && Replaces(fetched.value, station.observations) then
      station.(observations := fetched)
    else station
  }

  /** A station changes exactly when its fetch succeeded and the replacement
      rule admits the new set: a replacement never stores an equal value. */
  lemma RefreshChangesIffReplaced(station: Station, fetched: Option<Observations>)
    ensures Refresh(station, fetched) != station <==> fetched.Some? && Replaces(fetched.value, station.observations)
  {
    if fetched.Some? {
      NewerThanIsStrictOrder(fetched.value, fetched.value, fetched.value);
    }
  }

  /** Stored observations never move back in time: once a station holds a
      set, it keeps one, and the newest time it holds never decreases. */
  lemma StoredNeverRegresses(station: Station, fetched: Option<Observations>)
    requires station.observations.Some?
    ensures Refresh(station, fetched).observations.Some?
    ensures var before := station.observations.value;
            var after := Refresh(station, fetched).observations.value;
            before.HasLatest() ==> after.HasLatest() && !after.LatestTime().value.Before(before.LatestTime().value)
  {
    var before := station.observations.value;
    var after := Refresh(station, fetched).observations.value;
    NewerThanIsStrictOrder(after, before, before);
    if before.HasLatest() && after != before {
      BeforeIsStrictTotalOrder(before.LatestTime().value, after.LatestTime().value, before.LatestTime().value);
    }
  }

  /** One polling round: each station is refreshed, in order, from the
      outcome of its own fetch (`Fetched` of its response), and the result
      says whether any station changed. */
  method UpdateObservations(stations: seq<Station>, outcomes: seq<Option<Observations>>)
    returns (next: seq<Station>, updated: bool)
    requires |outcomes| == |stations|
    ensures |next| == |stations|
    ensures forall i :: 0 <= i < |stations| ==> next[i] == Refresh(stations[i], outcomes[i])
    ensures updated <==> exists i :: 0 <= i < |stations| && stations[i] != next[i]
    ensures updated <==> exists i :: 0 <= i < |stations| && outcomes[i].Some? && Replaces(outcomes[i].value, stations[i].observations)
  {
    next := [];
    updated := false;
    var i := 0;
    while i < |stations|
      invariant 0 <= i <= |stations|
      invariant |next| == i
      invariant forall j :: 0 <= j < i ==> next[j] == Refresh(stations[j], outcomes[j])
      invariant updated <==> exists j :: 0 <= j < i && stations[j] != next[j]
      invariant updated <==> exists j :: 0 <= j < i && outcomes[j].Some? && Replaces(outcomes[j].value, stations[j].observations)
    {
      var station := stations[i];
      var fetched := outcomes[i];
      if fetched.Some? && Replaces(fetched.value, station.observations) {
        station := station.(observations := fetched);
        updated := true;
      }
      RefreshChangesIffReplaced(stations[i], fetched);
      next := next + [station];
      i := i + 1;
    }
  }

  /** A polling round from the raw fetch results: a station whose download
      or parse failed keeps what it had, and every station keeps its id and
      name. */
  method PollStations(stations: seq<Station>, responses: seq<Response>, num: Numerals)
    returns (next: seq<Station>, updated: bool)
    requires |responses| == |stations|
    ensures |next| == |stations|
    ensures forall i :: 0 <= i < |stations| ==> next[i] == Refresh(stations[i], Fetched(responses[i], num))
    ensures forall i :: 0 <= i < |stations| ==> next[i].id == stations[i].id && next[i].name == stations[i].name
    ensures forall i :: 0 <= i < |stations| && responses[i].None? ==> next[i] == stations[i]
    ensures updated <==> exists i :: 0 <= i < |stations| && stations[i] != next[i]
  {
    var outcomes := seq(|responses|, i requires 0 <= i < |responses| => Fetched(responses[i], num));
    next, updated := UpdateObservations(stations, outcomes);
  }

  /** One message line: the trend sign, the station's name and its newest
      reading (the numeric and clock formatting are not modelled). */
  datatype Line = Line(trend: char, name: string, waveHeight: real, period: real, time: Instant)

  function FormatLine(name: string, obs: Observations): (line: Line)
    requires obs.HasLatest()
    ensures line.trend == '+' || line.trend == '-'
    ensures line.trend == '+' <==> obs.WaveHeightUp()
    ensures Some(line.time) == obs.LatestTime()
    ensures line.name == name
    ensures line.waveHeight == obs.items[0].waveHeight && line.period == obs.items[0].period
  {
    var latest := obs.Latest().value;
    Line(if obs.WaveHeightUp() then '+' else '-', name, latest.waveHeight, latest.period, latest.time)
  }

  /** The line a station contributes: one exactly when it holds a non-empty set. */
  function LineOf(station: Station): Option<Line>
  {
    if station.observations.Some? && station.observations.value.HasLatest() then
      Some(FormatLine(station.name, station.observations.value))
    else None
  }

  /** The lines written to the message file, in station order. */
  function MessageLines(stations: seq<Station>): seq<Line>
  {
    FilterMap(stations, LineOf)
  }

  /** The message holds one line per station with a non-empty set, in station
      order, and no other lines. */
  lemma MessageLinesOnePerStation(stations: seq<Station>)
    ensures OrderedSelection(stations, LineOf, MessageLines(stations), Positions(stations, LineOf))
    ensures |MessageLines(stations)| <= |stations|
  {
    FilterMapSelects(stations, LineOf);
  }
}
