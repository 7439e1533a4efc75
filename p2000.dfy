/**
 * The two objects of the P2000 sensor platform: `P2000Data`, whose update
 * method advances the cursor and replaces the latest event in place, and
 * `P2000Sensor`, which copies the event's text into its state and exposes
 * the event's attributes.
 */
module P2000 {
  import opened Builtins
  import opened DateTime
  import opened UpdateCycle

  class P2000Data {
    /** `_lat`, `_lon` and `_maxdist`, fixed at construction. */
    const station: Station
    var restart: bool
    var lastmsgTime: Option<Timestamp>
    var data: Option<Event>

    ghost predicate Valid()
      reads this
    {
      ValidSession(State())
    }

    /** The three fields the update cycle changes, as one value. */
    function State(): Session
      reads this
    {
      Session(restart, lastmsgTime, data)
    }

    constructor (latitude: real, longitude: real, radiusInMtr: real)
      ensures Valid()
      ensures station == Station(latitude, longitude, radiusInMtr)
      ensures State() == InitialSession
    {
      station := Station(latitude, longitude, radiusInMtr);
      restart := true;
      lastmsgTime := None;
      data := None;
    }

    /** `latest_data`: the event held, if any (an event dictionary is never empty, so never falsy). */
    function LatestData(): (r: Option<Event>)
      reads this
      ensures r.Some? <==> data.Some?
      ensures r.Some? ==> r.value == data.value
    {
      match data
      case Some(event) => Some(event)
      case None => None
    }

    /**
     * `async_update` from the point where the feed has been fetched and
     * parsed (`feed` is None when that gave nothing). The new fields and the
     * way the call ends are those of `Cycle`; the cursor never moves back.
     */
    method AsyncUpdate(feed: Option<Feed>, meters: Geodesic) returns (outcome: Outcome)
      requires Valid()
      modifies this
      ensures Valid()
      ensures Finish(State(), outcome) == Cycle(station, meters, old(State()), feed)
      ensures old(lastmsgTime).Some? ==> lastmsgTime.Some? && !Before(lastmsgTime.value, old(lastmsgTime).value)
    {
      if feed.None? {
        return Returned;
      }
      var entries := feed.value.entries;
      if feed.value.bozo || |entries| == 0 {
        return Returned;
      }
      if restart {
        var newest := entries[0];
        if newest.published.None? {
          return Raised(KeyError);
        }
        var converted := ConvertTime(newest.published.value);
        if converted.Raise? {
          if converted.error == ValueError {
            data := None;
            return Returned;
          }
          return Raised(converted.error);
        }
        lastmsgTime := Some(converted.value);
        restart := false;
        return Returned;
      }

      var failure, vars := ScanEntries(entries, meters);
      if failure.Some? {
        if failure.value == ValueError {
          data := None;
          return Returned;
        }
        return Raised(failure.value);
      }
      if vars.msgtext != "" {
        if vars.lastmsgTime.None? {
          return Raised(UnboundLocalError);
        }
        data := Some(Event(vars.msgtext, vars.latEvent, vars.lonEvent, RoundHalfEven(vars.dist), vars.lastmsgTime.value));
      }
      return Returned;
    }

    /**
     * The loop `for item in reversed(entries)` of `async_update`, which moves
     * the cursor as it goes and stops at the first exception. It returns that
     * exception, if one was raised, and the loop's locals as the last pass
     * left them.
     */
    method ScanEntries(entries: seq<Entry>, meters: Geodesic) returns (failure: Option<Error>, vars: Locals)
      requires lastmsgTime.Some?
      modifies this`lastmsgTime
      ensures lastmsgTime.Some?
      ensures ScanFeed(station, meters, entries, Ongoing(old(lastmsgTime).value, Fresh)) ==
        if failure.None? then Ongoing(lastmsgTime.value, vars) else Aborted(lastmsgTime.value, failure.value)
    {
      ghost var start := Ongoing(lastmsgTime.value, Fresh);
      vars := Fresh;
      failure := None;
      var i := |entries|;
      while i > 0 && failure.None?
        invariant 0 <= i <= |entries|
        invariant lastmsgTime.Some?
        invariant ScanFeed(station, meters, entries[i..], start) ==
          if failure.None? then Ongoing(lastmsgTime.value, vars) else Aborted(lastmsgTime.value, failure.value)
      {
        i := i - 1;
        assert entries[i..][1..] == entries[i + 1..];
        failure, vars := Pass(entries[i], vars, meters);
      }
      if failure.Some? {
        ScanAbortPropagates(station, meters, entries, i, start);
      } else {
        assert entries[i..] == entries;
      }
    }

    /**
     * One pass of the loop body over `item`, from the locals `vars` the
     * previous pass left: it returns the exception the pass raised, if any,
     * and the locals it leaves for the next pass.
     */
    method Pass(item: Entry, vars: Locals, meters: Geodesic) returns (failure: Option<Error>, next: Locals)
      requires lastmsgTime.Some?
      modifies this`lastmsgTime
      ensures lastmsgTime.Some?
      ensures Step(station, meters, old(lastmsgTime).value, vars, item) ==
        if failure.None? then Ongoing(lastmsgTime.value, next) else Aborted(lastmsgTime.value, failure.value)
    {
      var msgtext, pubdate, lastmsg := vars.msgtext, vars.pubdate, vars.lastmsgTime;
      var latEvent, lonEvent, dist := 0.0, 0.0, 0.0;
      if item.published.Some? {
        pubdate := item.published;
        var converted := ConvertTime(pubdate.value);
        if converted.Raise? {
          return Some(converted.error), vars;
        }
        lastmsg := Some(converted.value);
      }
      if lastmsg.None? {
        return Some(UnboundLocalError), vars;
      }
      if Before(lastmsg.value, lastmsgTime.value) {
        return None, Locals(msgtext, latEvent, lonEvent, dist, pubdate, lastmsg);
      }
      lastmsgTime := lastmsg;
      match item.geoLat {
        case Missing => return None, Locals(msgtext, latEvent, lonEvent, dist, pubdate, lastmsg);
        case Unparsable => return Some(ValueError), vars;
        case Number(x) => latEvent := x;
      }
      match item.geoLong {
        case Missing => return None, Locals(msgtext, latEvent, lonEvent, dist, pubdate, lastmsg);
        case Unparsable => return Some(ValueError), vars;
        case Number(y) => lonEvent := y;
      }
      if latEvent != 0.0 && lonEvent != 0.0 {
        var d := meters(station.latitude, station.longitude, latEvent, lonEvent);
        if d.None? {
          return Some(ValueError), vars;
        }
        dist := d.value;
        if pubdate.None? {
          return Some(UnboundLocalError), vars;
        }
        msgtext := MessageText(item.title, pubdate.value);
      }
      if dist > station.maxdist {
        msgtext := "";
      }
      return None, Locals(msgtext, latEvent, lonEvent, dist, pubdate, lastmsg);
    }
  }

  /** An aborted loop over a suffix of the entries is the result of the whole loop. */
  lemma {:induction false} ScanAbortPropagates(st: Station, meters: Geodesic, entries: seq<Entry>, i: nat, start: Progress)
    requires i <= |entries|
    requires ScanFeed(st, meters, entries[i..], start).Aborted?
    ensures ScanFeed(st, meters, entries, start) == ScanFeed(st, meters, entries[i..], start)
    decreases i
  {
    if i > 0 {
      assert entries[i - 1..][1..] == entries[i..];
      ScanAbortPropagates(st, meters, entries, i - 1, start);
    }
  }

  /** The attribute values of the sensor. */
  datatype AttrValue = Real(r: real) | Integer(n: int) | Time(t: Timestamp) | Text(s: string)

  const Attribution := "Data provided by feeds.livep2000.nl"

  class P2000Sensor {
    /** The shared `P2000Data` object (the sensor's `_data`). */
    const source: P2000Data
    /** `_state`: the displayed message text, None until an event has been seen. */
    var state: Option<string>

    constructor (data: P2000Data)
      ensures source == data && state == None
    {
      source := data;
      state := None;
    }

    /**
     * `device_state_attributes`: empty without an event; otherwise the event's
     * coordinates, distance and time and the attribution line.
     */
    function DeviceStateAttributes(): (attrs: map<string, AttrValue>)
      reads this, source
      ensures source.LatestData().None? ==> attrs == map[]
      ensures source.LatestData().Some? ==>
        && attrs.Keys == {"longitude", "latitude", "distance", "time", "attribution"}
        && attrs["longitude"] == Real(source.LatestData().value.longitude)
        && attrs["latitude"] == Real(source.LatestData().value.latitude)
        && attrs["distance"] == Integer(source.LatestData().value.distance)
        && attrs["time"] == Time(source.LatestData().value.msgtime)
        && attrs["attribution"] == Text(Attribution)
    {
      match source.LatestData()
      case None => map[]
      case Some(event) =>
        map["longitude" := Real(event.longitude), "latitude" := Real(event.latitude),
            "distance" := Integer(event.distance), "time" := Time(event.msgtime),
            "attribution" := Text(Attribution)]
    }

    /**
     * `async_update`: run the data object's cycle, then show the latest
     * event's text; the state stays as it was when there is no event or the
     * cycle raised.
     */
    method AsyncUpdate(feed: Option<Feed>, meters: Geodesic) returns (outcome: Outcome)
      requires source.Valid()
      modifies this, source
      ensures source.Valid()
      ensures Finish(source.State(), outcome) == Cycle(source.station, meters, old(source.State()), feed)
      ensures state == if outcome.Returned? && source.data.Some? then Some(source.data.value.msgtext) else old(state)
    {
      outcome := source.AsyncUpdate(feed, meters);
      if outcome.Raised? {
        return;
      }
      var latest := source.LatestData();
      if latest.Some? {
        state := Some(latest.value.msgtext);
      }
    }
  }
}
