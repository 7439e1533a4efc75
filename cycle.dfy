/**
 * What one call of `P2000Data.async_update` does once the feed has been
 * fetched and parsed, as functions on values: the timestamp conversion, one
 * pass of the loop over the entries, the whole loop, and the cycle with its
 * cold start and its exception handling.
 */
module UpdateCycle {
  import opened Builtins
  import opened DateTime

  /** A present `geo_lat` / `geo_long` string either converts with `float()` or raises ValueError. */
  datatype Coordinate = Missing | Unparsable | Number(value: real)

  /** One entry of the parsed feed. */
  datatype Entry = Entry(published: Option<string>, geoLat: Coordinate, geoLong: Coordinate, title: string)

  /** The parsed feed: the `bozo` (malformed) flag and the entries, newest first. */
  datatype Feed = Feed(bozo: bool, entries: seq<Entry>)

  /** The event dictionary `_data` holds. */
  datatype Event = Event(msgtext: string, latitude: real, longitude: real, distance: int, msgtime: Timestamp)

  /** The configuration `P2000Data` keeps: the home location and the radius in meters. */
  datatype Station = Station(latitude: real, longitude: real, maxdist: real)

  /**
   * The geodesic distance in meters between two (latitude, longitude) points,
   * or None when the distance library raises ValueError.
   */
  type Geodesic = (real, real, real, real) -> Option<real>

  /** The fields `_restart`, `_lastmsg_time` (the cursor) and `_data`. */
  datatype Session = Session(restart: bool, lastmsgTime: Option<Timestamp>, data: Option<Event>)

  /** The cursor is unset exactly while the session still waits for its cold start. */
  predicate ValidSession(s: Session) {
    s.restart <==> s.lastmsgTime.None?
  }

  const InitialSession := Session(true, None, None)

  /** How `async_update` ends: it returns, or an exception escapes from it. */
  datatype Outcome = Returned | Raised(error: Error)

  datatype Finish = Finish(session: Session, outcome: Outcome)

  /** `P2000Data._convert_time`: the second comma-separated field, minus its last 6 characters, parsed. */
  function ConvertTime(time: string): (r: Result<Timestamp>)
    ensures r == Raise(IndexError) <==> ',' !in time
    ensures r.Raise? ==> r.error == ValueError || r.error == IndexError
    ensures r.Ok? ==> Valid(r.value)
  {
    var fields := Split(time, ',');
    if |fields| < 2 then Raise(IndexError) else Strptime(DropLast(fields[1], 6))
  }

  /**
   * The loop's local variables: `msgtext`, `lat_event`, `lon_event`, `dist`,
   * and `pubdate` and `lastmsg_time`, which stay unbound until an entry with
   * `published` is met.
   */
  datatype Locals = Locals(msgtext: string, latEvent: real, lonEvent: real, dist: real,
                           pubdate: Option<string>, lastmsgTime: Option<Timestamp>)

  /** The locals before the first pass: `msgtext = ''`, everything else not yet assigned. */
  const Fresh := Locals("", 0.0, 0.0, 0.0, None, None)

  /** The loop so far: still running with the cursor and locals, or stopped by an exception. */
  datatype Progress = Ongoing(cursor: Timestamp, vars: Locals) | Aborted(cursor: Timestamp, error: Error)

  /** The message text built from an entry's title and publication string. */
  function MessageText(title: string, pubdate: string): (r: string)
    ensures r != ""
    ensures |r| == |title| - multiset(title)['~'] + |pubdate| + 2
    ensures r[..|r| - |pubdate| - 2] == RemoveAll(title, '~')
    ensures r[|r| - |pubdate| - 2..] == "\n" + pubdate + "\n"
  {
    var r := RemoveAll(title, '~') + "\n" + pubdate + "\n";
    assert r == RemoveAll(title, '~') + ("\n" + pubdate + "\n");
    r
  }

  /** The range test that ends every examined pass. */
  function RangeCheck(st: Station, cursor: Timestamp, v: Locals): (r: Progress)
    ensures r.Ongoing? && r.cursor == cursor
    ensures v.dist > st.maxdist ==> r.vars == v.(msgtext := "")
    ensures v.dist <= st.maxdist ==> r.vars == v
  {
    if v.dist > st.maxdist then Ongoing(cursor, v.(msgtext := "")) else Ongoing(cursor, v)
  }

  /** The rest of a pass over an entry that was not skipped; the cursor already stands at its time. */
  function Examine(st: Station, meters: Geodesic, cursor: Timestamp, v: Locals, item: Entry): (r: Progress)
    ensures r.cursor == cursor
  {
    match item.geoLat
    case Missing => Ongoing(cursor, v)
    case Unparsable => Aborted(cursor, ValueError)
    case Number(lat) =>
      var v := v.(latEvent := lat);
      match item.geoLong
      case Missing => Ongoing(cursor, v)
      case Unparsable => Aborted(cursor, ValueError)
      case Number(lon) =>
        var v := v.(lonEvent := lon);
        if lat != 0.0 && lon != 0.0 then
          match meters(st.latitude, st.longitude, lat, lon)
          case None => Aborted(cursor, ValueError)
          case Some(d) =>
            match v.pubdate
            case None => Aborted(cursor, UnboundLocalError)
            case Some(p) => RangeCheck(st, cursor, v.(dist := d, msgtext := MessageText(item.title, p)))
        else RangeCheck(st, cursor, v)
  }

  /** One pass of `for item in reversed(entries)`, from the cursor and locals the previous pass left. */
  function Step(st: Station, meters: Geodesic, cursor: Timestamp, vars: Locals, item: Entry): (r: Progress)
    ensures !Before(r.cursor, cursor)
  {
    var v := vars.(latEvent := 0.0, lonEvent := 0.0, dist := 0.0);
    match item.published
    case Some(p) =>
      (match ConvertTime(p)
       case Raise(e) => Aborted(cursor, e)
       case Ok(t) =>
         var v := v.(pubdate := Some(p), lastmsgTime := Some(t));
         if Before(t, cursor) then Ongoing(cursor, v) else Examine(st, meters, t, v, item))
    case None =>
      match v.lastmsgTime
      case None => Aborted(cursor, UnboundLocalError)
      case Some(t) => if Before(t, cursor) then Ongoing(cursor, v) else Examine(st, meters, t, v, item)
  }

  /**
   * The whole loop over `entries` (newest first), which visits the last entry
   * first and `entries[0]` last. The cursor never moves backwards, and an
   * exception ends the loop.
   */
  function ScanFeed(st: Station, meters: Geodesic, entries: seq<Entry>, start: Progress): (r: Progress)
    ensures !Before(r.cursor, start.cursor)
    ensures start.Aborted? ==> r == start
    decreases |entries|
  {
    if entries == [] then start
    else
      var before := ScanFeed(st, meters, entries[1..], start);
      if before.Aborted? then before
      else
        var r := Step(st, meters, before.cursor, before.vars, entries[0]);
        NotBeforeTransitive(r.cursor, before.cursor, start.cursor);
        r
  }

  /**
   * The cold-start branch: only the newest entry's time is read. It either
   * sets the cursor and clears the flag, or (on ValueError) clears the event,
   * or raises KeyError (no `published`) or IndexError (no comma) and changes
   * nothing.
   */
  function ColdStart(s: Session, newest: Entry): (r: Finish)
    ensures r.outcome == Raised(KeyError) <==> newest.published.None?
    ensures r.outcome == Raised(IndexError) <==> newest.published.Some? && ',' !in newest.published.value
    ensures r.outcome.Raised? ==> r.session == s
    ensures r.session.restart != s.restart ==>
      && newest.published.Some? && ConvertTime(newest.published.value).Ok?
      && r.session == s.(restart := false, lastmsgTime := Some(ConvertTime(newest.published.value).value))
    ensures r.session.data != s.data ==> r.outcome == Returned && r.session == s.(data := None)
    ensures newest.published.Some? && ConvertTime(newest.published.value) == Raise(ValueError) ==>
      r == Finish(s.(data := None), Returned)
    ensures newest.published.Some? && ConvertTime(newest.published.value).Ok? ==>
      r == Finish(s.(restart := false, lastmsgTime := Some(ConvertTime(newest.published.value).value)), Returned)
  {
    match newest.published
    case None => Finish(s, Raised(KeyError))
    case Some(p) =>
      match ConvertTime(p)
      case Ok(t) => Finish(s.(restart := false, lastmsgTime := Some(t)), Returned)
      case Raise(ValueError) => Finish(s.(data := None), Returned)
      case Raise(e) => Finish(s, Raised(e))
  }

  /**
   * What follows the loop: the cursor is the one the loop reached; a
   * ValueError clears the event and any other exception escapes with the
   * event kept; without exception, a non-empty text makes a new event.
   */
  function AfterLoop(s: Session, r: Progress): (f: Finish)
    ensures f.session.restart == s.restart && f.session.lastmsgTime == Some(r.cursor)
    ensures f.outcome != Raised(ValueError)
    ensures f.outcome.Raised? ==> f.session.data == s.data
    ensures r.Aborted? && r.error == ValueError ==> f == Finish(s.(lastmsgTime := Some(r.cursor), data := None), Returned)
    ensures r.Aborted? && r.error != ValueError ==> f == Finish(s.(lastmsgTime := Some(r.cursor)), Raised(r.error))
    ensures r.Ongoing? && r.vars.msgtext == "" ==> f == Finish(s.(lastmsgTime := Some(r.cursor)), Returned)
    ensures r.Ongoing? && r.vars.msgtext != "" && r.vars.lastmsgTime.None? ==>
      f == Finish(s.(lastmsgTime := Some(r.cursor)), Raised(UnboundLocalError))
    ensures r.Ongoing? && f.session.data != s.data ==>
      && f.outcome == Returned && r.vars.lastmsgTime.Some?
      && f.session.data == Some(Event(r.vars.msgtext, r.vars.latEvent, r.vars.lonEvent, RoundHalfEven(r.vars.dist), r.vars.lastmsgTime.value))
  {
    var s := s.(lastmsgTime := Some(r.cursor));
    match r
    case Aborted(_, ValueError) => Finish(s.(data := None), Returned)
    case Aborted(_, e) => Finish(s, Raised(e))
    case Ongoing(_, v) =>
      if v.msgtext == "" then Finish(s, Returned)
      else
        match v.lastmsgTime
        case None => Finish(s, Raised(UnboundLocalError))
        case Some(t) =>
          Finish(s.(data := Some(Event(v.msgtext, v.latEvent, v.lonEvent, RoundHalfEven(v.dist), t))), Returned)
  }

  /**
   * One update cycle on a fetched feed (None when the fetch gave nothing).
   * A ValueError never escapes it, and it keeps the session valid.
   */
  function Cycle(st: Station, meters: Geodesic, s: Session, feed: Option<Feed>): (r: Finish)
    requires ValidSession(s)
    ensures ValidSession(r.session)
    ensures r.outcome != Raised(ValueError)
  {
    match feed
    case None => Finish(s, Returned)
    case Some(f) =>
      if f.bozo || |f.entries| == 0 then Finish(s, Returned)
      else if s.restart then ColdStart(s, f.entries[0])
      else AfterLoop(s, ScanFeed(st, meters, f.entries, Ongoing(s.lastmsgTime.value, Fresh)))
  }
}
