/**
 * Properties of the update cycle of `P2000Data.async_update`: cold-start
 * suppression, the "already seen" test, the cursor as a running maximum, the
 * distance rule for the message text, which pass the new event's fields come
 * from, and what an exception leaves behind.
 */
module CycleProperties {
  import opened Builtins
  import opened DateTime
  import opened UpdateCycle

  // ---------------------------------------------------------------- cold start

  /** A feed that is missing, malformed (`bozo`) or empty changes nothing. */
  lemma UncleanFeedChangesNothing(st: Station, meters: Geodesic, s: Session, feed: Option<Feed>)
    requires ValidSession(s)
    requires feed.None? || feed.value.bozo || feed.value.entries == []
    ensures Cycle(st, meters, s, feed) == Finish(s, Returned)
  {
  }

  /**
   * The first clean, non-empty feed only sets the cursor to the newest
   * entry's time and clears the restart flag; the event is left alone.
   */
  lemma ColdStartOnlySetsCursor(st: Station, meters: Geodesic, s: Session, f: Feed, p: string, t: Timestamp)
    requires ValidSession(s) && s.restart
    requires !f.bozo && |f.entries| > 0
    requires f.entries[0].published == Some(p) && ConvertTime(p) == Ok(t)
    ensures Cycle(st, meters, s, Some(f)) == Finish(Session(false, Some(t), s.data), Returned)
  {
  }

  /**
   * No entry is examined at cold start: the outcome depends on the newest
   * entry only, not on the older ones, their coordinates or the distances.
   */
  lemma ColdStartIgnoresBacklog(st: Station, m1: Geodesic, m2: Geodesic, s: Session, f: Feed, g: Feed)
    requires ValidSession(s) && s.restart
    requires f.bozo == g.bozo && |f.entries| > 0 && |g.entries| > 0 && f.entries[0] == g.entries[0]
    ensures Cycle(st, m1, s, Some(f)) == Cycle(st, m2, s, Some(g))
  {
  }

  // ------------------------------------------------------- the "already seen" test

  /** The locals at the start of a pass that reads the entry's time `t` from `p`. */
  function Reset(v: Locals, p: string, t: Timestamp): Locals {
    v.(latEvent := 0.0, lonEvent := 0.0, dist := 0.0, pubdate := Some(p), lastmsgTime := Some(t))
  }

  /**
   * An entry strictly older than the cursor is skipped: whatever its
   * coordinates and title, the cursor and the message text stay as they were.
   */
  lemma OlderEntrySkipped(st: Station, meters: Geodesic, cursor: Timestamp, v: Locals, item: Entry, p: string, t: Timestamp)
    requires item.published == Some(p) && ConvertTime(p) == Ok(t)
    requires Before(t, cursor)
    ensures Step(st, meters, cursor, v, item) == Ongoing(cursor, Reset(v, p, t))
  {
  }

  /**
   * An entry not older than the cursor (equal times included) is examined:
   * the cursor moves to its time, and its coordinates are converted, so an
   * unconvertible latitude raises ValueError.
   */
  lemma NotOlderEntryExamined(st: Station, meters: Geodesic, cursor: Timestamp, v: Locals, item: Entry, p: string, t: Timestamp)
    requires item.published == Some(p) && ConvertTime(p) == Ok(t)
    requires !Before(t, cursor)
    ensures Step(st, meters, cursor, v, item).cursor == t
    ensures item.geoLat == Unparsable ==> Step(st, meters, cursor, v, item) == Aborted(t, ValueError)
    ensures item.geoLat.Number? && item.geoLong == Unparsable ==> Step(st, meters, cursor, v, item) == Aborted(t, ValueError)
    ensures item.geoLat.Number? && item.geoLong.Number? && item.geoLat.value != 0.0 && item.geoLong.value != 0.0 &&
            meters(st.latitude, st.longitude, item.geoLat.value, item.geoLong.value).None? ==>
      Step(st, meters, cursor, v, item) == Aborted(t, ValueError)
  {
  }

  /** A loop entry whose date does not convert ends the loop with that exception, the cursor unchanged. */
  lemma UnconvertibleLoopDateAborts(st: Station, meters: Geodesic, cursor: Timestamp, v: Locals, item: Entry, p: string, e: Error)
    requires item.published == Some(p) && ConvertTime(p) == Raise(e)
    ensures Step(st, meters, cursor, v, item) == Aborted(cursor, e)
    ensures e == IndexError <==> ',' !in p
  {
  }

  /**
   * An entry whose time equals the cursor is processed again: in range, it
   * sets the message text once more.
   */
  lemma EqualTimeProcessedAgain(st: Station, meters: Geodesic, v: Locals, item: Entry, p: string, t: Timestamp,
                                lat: real, lon: real, d: real)
    requires item.published == Some(p) && ConvertTime(p) == Ok(t)
    requires item.geoLat == Number(lat) && item.geoLong == Number(lon) && lat != 0.0 && lon != 0.0
    requires meters(st.latitude, st.longitude, lat, lon) == Some(d) && d <= st.maxdist
    ensures Step(st, meters, t, v, item).Ongoing?
    ensures Step(st, meters, t, v, item).vars.msgtext == MessageText(item.title, p)
  {
    BeforeIrreflexive(t);
  }

  // ------------------------------------------------------------ missing coordinates

  /** An examined entry without `geo_lat` or `geo_long` is discarded, but it has moved the cursor. */
  lemma MissingCoordinateStillAdvances(st: Station, meters: Geodesic, cursor: Timestamp, v: Locals, item: Entry, p: string, t: Timestamp)
    requires item.published == Some(p) && ConvertTime(p) == Ok(t)
    requires !Before(t, cursor)
    requires item.geoLat == Missing || (item.geoLat.Number? && item.geoLong == Missing)
    ensures Step(st, meters, cursor, v, item).Ongoing?
    ensures Step(st, meters, cursor, v, item).cursor == t
    ensures Step(st, meters, cursor, v, item).vars.msgtext == v.msgtext
    ensures Step(st, meters, cursor, v, item).vars.dist == 0.0
  {
  }

  // --------------------------------------------------------------- the distance rule

  /** Within the radius, the message text becomes the title without `~`, a newline, the date string and a newline. */
  lemma InRangeSetsMessage(st: Station, meters: Geodesic, cursor: Timestamp, v: Locals, item: Entry, p: string, t: Timestamp,
                           lat: real, lon: real, d: real)
    requires item.published == Some(p) && ConvertTime(p) == Ok(t) && !Before(t, cursor)
    requires item.geoLat == Number(lat) && item.geoLong == Number(lon) && lat != 0.0 && lon != 0.0
    requires meters(st.latitude, st.longitude, lat, lon) == Some(d) && d <= st.maxdist
    ensures Step(st, meters, cursor, v, item) ==
      Ongoing(t, Reset(v, p, t).(msgtext := RemoveAll(item.title, '~') + "\n" + p + "\n", latEvent := lat, lonEvent := lon, dist := d))
  {
  }

  /** Beyond the radius, the message text is reset to "", losing an earlier match of the same batch. */
  lemma OutOfRangeClearsMessage(st: Station, meters: Geodesic, cursor: Timestamp, v: Locals, item: Entry, p: string, t: Timestamp,
                                lat: real, lon: real, d: real)
    requires item.published == Some(p) && ConvertTime(p) == Ok(t) && !Before(t, cursor)
    requires item.geoLat == Number(lat) && item.geoLong == Number(lon) && lat != 0.0 && lon != 0.0
    requires meters(st.latitude, st.longitude, lat, lon) == Some(d) && d > st.maxdist
    ensures Step(st, meters, cursor, v, item) ==
      Ongoing(t, Reset(v, p, t).(msgtext := "", latEvent := lat, lonEvent := lon, dist := d))
  {
  }

  /**
   * With a zero coordinate no distance is computed: the distance stays 0 and,
   * for a non-negative radius, the message text keeps its earlier value.
   */
  lemma ZeroCoordinateKeepsMessage(st: Station, m1: Geodesic, m2: Geodesic, cursor: Timestamp, v: Locals, item: Entry,
                                   p: string, t: Timestamp, lat: real, lon: real)
    requires item.published == Some(p) && ConvertTime(p) == Ok(t) && !Before(t, cursor)
    requires item.geoLat == Number(lat) && item.geoLong == Number(lon) && (lat == 0.0 || lon == 0.0)
    requires st.maxdist >= 0.0
    ensures Step(st, m1, cursor, v, item) == Step(st, m2, cursor, v, item)
    ensures Step(st, m1, cursor, v, item) == Ongoing(t, Reset(v, p, t).(latEvent := lat, lonEvent := lon))
  {
  }

  // ------------------------------------------------------- the cursor as a running maximum

  /** The time an entry carries, when it has `published` and it converts. */
  function StampOf(e: Entry): Option<Timestamp> {
    match e.published
    case None => None
    case Some(p) => match ConvertTime(p) case Ok(t) => Some(t) case Raise(_) => None
  }

  /** The latest of `c` and the times of `entries`. */
  function NewestStamp(c: Timestamp, entries: seq<Entry>): (r: Timestamp)
    ensures !Before(r, c)
    ensures forall i :: 0 <= i < |entries| && StampOf(entries[i]).Some? ==> !Before(r, StampOf(entries[i]).value)
    ensures r == c || exists i :: 0 <= i < |entries| && StampOf(entries[i]) == Some(r)
    decreases |entries|
  {
    if entries == [] then c
    else
      var m := NewestStamp(c, entries[1..]);
      var r := match StampOf(entries[0]) case None => m case Some(t) => Later(m, t);
      assert forall i :: 1 <= i < |entries| ==> entries[i] == entries[1..][i - 1];
      assert r != m ==> StampOf(entries[0]) == Some(r);
      assert r == m ==> r == c || exists i :: 1 <= i < |entries| && StampOf(entries[i]) == Some(r);
      r
  }

  /** The loop's `lastmsg_time`, once bound, is never after the cursor. */
  predicate LocalNotAfterCursor(cursor: Timestamp, v: Locals) {
    v.lastmsgTime.Some? ==> !Before(cursor, v.lastmsgTime.value)
  }

  /** A pass that does not raise leaves the cursor at `max(cursor, time of the entry)`. */
  lemma StepCursorIsLater(st: Station, meters: Geodesic, cursor: Timestamp, v: Locals, item: Entry)
    requires LocalNotAfterCursor(cursor, v)
    requires Step(st, meters, cursor, v, item).Ongoing?
    ensures var r := Step(st, meters, cursor, v, item);
      && LocalNotAfterCursor(r.cursor, r.vars)
      && r.cursor == match StampOf(item) case None => cursor case Some(t) => Later(cursor, t)
  {
    var r := Step(st, meters, cursor, v, item);
    BeforeIrreflexive(r.cursor);
    match StampOf(item)
    case Some(t) =>
      BeforeTotal(t, cursor);
    case None =>
      BeforeTotal(v.lastmsgTime.value, cursor);
  }

  /**
   * After a loop without an exception, the cursor is the latest of its
   * starting value and every entry's time (an entry without `published`
   * re-reads the previous time, which cannot raise it).
   */
  lemma {:induction false} CursorIsRunningMax(st: Station, meters: Geodesic, entries: seq<Entry>, c: Timestamp, v: Locals)
    requires LocalNotAfterCursor(c, v)
    requires ScanFeed(st, meters, entries, Ongoing(c, v)).Ongoing?
    ensures var r := ScanFeed(st, meters, entries, Ongoing(c, v));
      r.cursor == NewestStamp(c, entries) && LocalNotAfterCursor(r.cursor, r.vars)
    decreases |entries|
  {
    if entries != [] {
      var before := ScanFeed(st, meters, entries[1..], Ongoing(c, v));
      CursorIsRunningMax(st, meters, entries[1..], c, v);
      StepCursorIsLater(st, meters, before.cursor, before.vars, entries[0]);
    }
  }

  /** The cursor after a clean cycle on a non-cold session. */
  lemma CycleCursorIsRunningMax(st: Station, meters: Geodesic, s: Session, f: Feed)
    requires ValidSession(s) && !s.restart && !f.bozo && |f.entries| > 0
    requires ScanFeed(st, meters, f.entries, Ongoing(s.lastmsgTime.value, Fresh)).Ongoing?
    ensures Cycle(st, meters, s, Some(f)).session.lastmsgTime == Some(NewestStamp(s.lastmsgTime.value, f.entries))
  {
    CursorIsRunningMax(st, meters, f.entries, s.lastmsgTime.value, Fresh);
  }

  // ------------------------------------------------------------------ the new event

  /** Once the message text is set, the time and date string it was built with are bound. */
  predicate MessageBound(v: Locals) {
    v.msgtext != "" ==> v.lastmsgTime.Some? && v.pubdate.Some?
  }

  lemma StepKeepsMessageBound(st: Station, meters: Geodesic, c: Timestamp, v: Locals, item: Entry)
    requires MessageBound(v)
    ensures var r := Step(st, meters, c, v, item); r.Ongoing? ==> MessageBound(r.vars)
  {
    var w := v.(latEvent := 0.0, lonEvent := 0.0, dist := 0.0);
    if item.published.Some? {
      var converted := ConvertTime(item.published.value);
      if converted.Ok? && !Before(converted.value, c) {
        var t := converted.value;
        ExamineKeepsMessageBound(st, meters, t, w.(pubdate := item.published, lastmsgTime := Some(t)), item);
      }
    } else if w.lastmsgTime.Some? && !Before(w.lastmsgTime.value, c) {
      ExamineKeepsMessageBound(st, meters, w.lastmsgTime.value, w, item);
    }
  }

  lemma ExamineKeepsMessageBound(st: Station, meters: Geodesic, c: Timestamp, v: Locals, item: Entry)
    requires v.lastmsgTime.Some? && (v.msgtext != "" ==> v.pubdate.Some?)
    ensures var r := Examine(st, meters, c, v, item); r.Ongoing? ==> MessageBound(r.vars)
  {
  }

  lemma {:induction false} ScanKeepsMessageBound(st: Station, meters: Geodesic, entries: seq<Entry>, c: Timestamp, v: Locals)
    requires MessageBound(v)
    ensures var r := ScanFeed(st, meters, entries, Ongoing(c, v)); r.Ongoing? ==> MessageBound(r.vars)
    decreases |entries|
  {
    if entries != [] {
      ScanKeepsMessageBound(st, meters, entries[1..], c, v);
      var before := ScanFeed(st, meters, entries[1..], Ongoing(c, v));
      if before.Ongoing? {
        StepKeepsMessageBound(st, meters, before.cursor, before.vars, entries[0]);
      }
    }
  }

  /**
   * On a non-cold cycle whose loop raised nothing, the event is replaced
   * exactly when the message text is not empty, with the text and the
   * coordinates, rounded distance and time the last pass left; otherwise it
   * stays as it was. The cursor is the loop's.
   */
  lemma EventReplacedIffMessage(st: Station, meters: Geodesic, s: Session, f: Feed)
    requires ValidSession(s) && !s.restart && !f.bozo && |f.entries| > 0
    requires ScanFeed(st, meters, f.entries, Ongoing(s.lastmsgTime.value, Fresh)).Ongoing?
    ensures var r := ScanFeed(st, meters, f.entries, Ongoing(s.lastmsgTime.value, Fresh));
      && (r.vars.msgtext != "" ==> r.vars.lastmsgTime.Some?)
      && Cycle(st, meters, s, Some(f)) ==
         Finish(Session(false, Some(r.cursor),
                        if r.vars.msgtext == "" then s.data
                        else Some(Event(r.vars.msgtext, r.vars.latEvent, r.vars.lonEvent,
                                        RoundHalfEven(r.vars.dist), r.vars.lastmsgTime.value))),
                Returned)
  {
    ScanKeepsMessageBound(st, meters, f.entries, s.lastmsgTime.value, Fresh);
  }

  /**
   * The event mixes entries: when the newest entry is examined but has no
   * latitude, the event keeps the text an older entry set, yet takes
   * latitude 0, longitude 0, distance 0 and the newest entry's time.
   */
  lemma EventTakesLastPassFields(st: Station, meters: Geodesic, s: Session, f: Feed, p: string, t: Timestamp)
    requires ValidSession(s) && !s.restart && !f.bozo && |f.entries| > 0
    requires var older := ScanFeed(st, meters, f.entries[1..], Ongoing(s.lastmsgTime.value, Fresh));
      older.Ongoing? && older.vars.msgtext != "" && !Before(t, older.cursor)
    requires f.entries[0].published == Some(p) && ConvertTime(p) == Ok(t) && f.entries[0].geoLat == Missing
    ensures var older := ScanFeed(st, meters, f.entries[1..], Ongoing(s.lastmsgTime.value, Fresh));
      Cycle(st, meters, s, Some(f)) == Finish(Session(false, Some(t), Some(Event(older.vars.msgtext, 0.0, 0.0, 0, t))), Returned)
  {
  }

  /**
   * Latest wins, including when it loses: a newest entry beyond the radius
   * clears the text an older in-range entry had set, and the event stays as
   * it was before the cycle.
   */
  lemma OutOfRangeNewestKeepsOldEvent(st: Station, meters: Geodesic, s: Session, f: Feed, p: string, t: Timestamp,
                                      lat: real, lon: real, d: real)
    requires ValidSession(s) && !s.restart && !f.bozo && |f.entries| > 0
    requires var older := ScanFeed(st, meters, f.entries[1..], Ongoing(s.lastmsgTime.value, Fresh));
      older.Ongoing? && !Before(t, older.cursor)
    requires f.entries[0].published == Some(p) && ConvertTime(p) == Ok(t)
    requires f.entries[0].geoLat == Number(lat) && f.entries[0].geoLong == Number(lon) && lat != 0.0 && lon != 0.0
    requires meters(st.latitude, st.longitude, lat, lon) == Some(d) && d > st.maxdist
    ensures Cycle(st, meters, s, Some(f)) == Finish(Session(false, Some(t), s.data), Returned)
  {
  }

  // ------------------------------------------------------------------- exceptions

  /**
   * A ValueError inside the loop (a date or coordinate that does not convert,
   * or a failed distance) clears the event but keeps the cursor the loop had
   * reached, which is not before the old one.
   */
  lemma ValueErrorClearsEventKeepsCursor(st: Station, meters: Geodesic, s: Session, f: Feed, c: Timestamp)
    requires ValidSession(s) && !s.restart && !f.bozo && |f.entries| > 0
    requires ScanFeed(st, meters, f.entries, Ongoing(s.lastmsgTime.value, Fresh)) == Aborted(c, ValueError)
    ensures Cycle(st, meters, s, Some(f)) == Finish(Session(false, Some(c), None), Returned)
    ensures !Before(c, s.lastmsgTime.value)
  {
  }

  /** A ValueError from the newest entry's date at cold start clears the event and keeps the session waiting. */
  lemma ColdStartValueErrorClearsEvent(st: Station, meters: Geodesic, s: Session, f: Feed, p: string)
    requires ValidSession(s) && s.restart && !f.bozo && |f.entries| > 0
    requires f.entries[0].published == Some(p) && ConvertTime(p) == Raise(ValueError)
    ensures Cycle(st, meters, s, Some(f)) == Finish(s.(data := None), Returned)
    ensures Cycle(st, meters, s, Some(f)).session.restart
  {
  }

  /**
   * Any other exception inside the loop (IndexError from a date without a
   * comma, UnboundLocalError) escapes the cycle, keeping the event and the
   * cursor the loop had reached.
   */
  lemma LoopErrorEscapes(st: Station, meters: Geodesic, s: Session, f: Feed, c: Timestamp, e: Error)
    requires ValidSession(s) && !s.restart && !f.bozo && |f.entries| > 0
    requires ScanFeed(st, meters, f.entries, Ongoing(s.lastmsgTime.value, Fresh)) == Aborted(c, e) && e != ValueError
    ensures Cycle(st, meters, s, Some(f)) == Finish(Session(false, Some(c), s.data), Raised(e))
  {
  }

  /**
   * An exception that escapes the cycle is never a ValueError and leaves the
   * event as it was; only the cursor may have moved.
   */
  lemma EscapingErrorKeepsEvent(st: Station, meters: Geodesic, s: Session, feed: Option<Feed>)
    requires ValidSession(s)
    requires Cycle(st, meters, s, feed).outcome.Raised?
    ensures Cycle(st, meters, s, feed).outcome.error != ValueError
    ensures Cycle(st, meters, s, feed).session.data == s.data
    ensures Cycle(st, meters, s, feed).session.restart == s.restart
  {
    var f := feed.value;
    if !s.restart {
      ScanKeepsMessageBound(st, meters, f.entries, s.lastmsgTime.value, Fresh);
    }
  }

  /**
   * An entry whose date string has no comma makes `_convert_time` raise
   * IndexError, which the ValueError handler does not catch.
   */
  lemma DateWithoutCommaEscapes(st: Station, meters: Geodesic, s: Session, f: Feed, p: string)
    requires ValidSession(s) && s.restart && !f.bozo && |f.entries| > 0
    requires f.entries[0].published == Some(p) && ',' !in p
    ensures Cycle(st, meters, s, Some(f)) == Finish(s, Raised(IndexError))
  {
  }

  // -------------------------------------------------------------- the date strings

  /**
   * A feed date `"<day>, DD Mon YYYY HH:MM:SS <zone>"` with a six-character
   * zone converts to the date-time it spells, whatever the day name and zone,
   * and whatever follows a further comma: only the second field is read.
   */
  lemma ConvertFeedDate(day: string, t: Timestamp, zone: string, rest: string)
    requires ',' !in day && ',' !in zone && |zone| == 6 && Valid(t)
    requires rest == "" || rest[0] == ','
    ensures ConvertTime(day + "," + Format(t) + zone + rest) == Ok(t)
  {
    var s := Format(t);
    assert ',' !in s by {
      forall i | 0 <= i < |s| ensures s[i] != ',' {
        assert s[i] == ' ' || s[i] == ':' || IsDigit(s[i]) || 'A' <= s[i] <= 'z';
      }
    }
    var x := s + zone;
    assert ',' !in x;
    assert day + "," + Format(t) + zone + rest == day + [','] + (x + rest);
    SplitAtFirst(day, x + rest, ',');
    if rest == "" {
      assert x + rest == x;
      SplitOfSeparatorFree(x, ',');
    } else {
      assert x + rest == x + [','] + rest[1..];
      SplitAtFirst(x, rest[1..], ',');
    }
    assert Split(day + "," + Format(t) + zone + rest, ',')[1] == x;
    assert DropLast(x, 6) == s;
    ParseFormat(t);
  }

  // ----------------------------------------------- re-fetching after the cold start

  /** Entries all strictly older than the cursor leave the empty message text empty. */
  lemma {:induction false} OlderEntriesAllSkipped(st: Station, meters: Geodesic, entries: seq<Entry>, c: Timestamp, v: Locals)
    requires v.msgtext == ""
    requires forall i :: 0 <= i < |entries| ==> StampOf(entries[i]).Some? && Before(StampOf(entries[i]).value, c)
    ensures var r := ScanFeed(st, meters, entries, Ongoing(c, v)); r.Ongoing? && r.cursor == c && r.vars.msgtext == ""
    decreases |entries|
  {
    if entries != [] {
      assert forall i :: 0 <= i < |entries| - 1 ==> entries[1..][i] == entries[i + 1];
      OlderEntriesAllSkipped(st, meters, entries[1..], c, v);
    }
  }

  /**
   * Fetching the same feed again right after the cold start surfaces its
   * newest entry, when that entry is within the radius: its time equals the
   * cursor, and equal times are not treated as already seen.
   */
  lemma SameFeedAfterColdStartSurfacesNewest(st: Station, meters: Geodesic, f: Feed, p: string, t: Timestamp,
                                              lat: real, lon: real, d: real)
    requires !f.bozo && |f.entries| > 0
    requires forall i :: 1 <= i < |f.entries| ==> StampOf(f.entries[i]).Some? && Before(StampOf(f.entries[i]).value, t)
    requires f.entries[0].published == Some(p) && ConvertTime(p) == Ok(t)
    requires f.entries[0].geoLat == Number(lat) && f.entries[0].geoLong == Number(lon) && lat != 0.0 && lon != 0.0
    requires meters(st.latitude, st.longitude, lat, lon) == Some(d) && d <= st.maxdist
    ensures var first := Cycle(st, meters, InitialSession, Some(f));
      && first == Finish(Session(false, Some(t), None), Returned)
      && Cycle(st, meters, first.session, Some(f)) ==
         Finish(Session(false, Some(t), Some(Event(MessageText(f.entries[0].title, p), lat, lon, RoundHalfEven(d), t))), Returned)
  {
    var older := f.entries[1..];
    forall i | 0 <= i < |older| ensures StampOf(older[i]).Some? && Before(StampOf(older[i]).value, t) {
      assert older[i] == f.entries[i + 1];
    }
    OlderEntriesAllSkipped(st, meters, older, t, Fresh);
    BeforeIrreflexive(t);
  }

  // ------------------------------------------------------ re-fetching an unchanged feed

  /**
   * How a second run over the same entries, starting at the first run's final
   * cursor `c`, trails the first: it stays at `c`; while the first run is
   * still below `c` the second has no message text; once the first reaches
   * `c` both agree on every local except that the second's text is "" or
   * the first's.
   */
  predicate Shadows(c: Timestamp, p1: Progress, p2: Progress) {
    && p1.Ongoing? && p2.Ongoing?
    && p2.cursor == c && !Before(c, p1.cursor)
    && p2.vars.pubdate == p1.vars.pubdate && p2.vars.lastmsgTime == p1.vars.lastmsgTime
    && if p1.cursor == c then
         && p2.vars == p1.vars.(msgtext := p2.vars.msgtext)
         && (p2.vars.msgtext == "" || p2.vars.msgtext == p1.vars.msgtext)
       else p2.vars.msgtext == ""
  }

  /** Examining one entry from locals that differ only in the text: both overwrite it alike, or both keep theirs. */
  lemma ExamineIgnoresText(st: Station, meters: Geodesic, c: Timestamp, w1: Locals, w2: Locals, item: Entry)
    requires w2 == w1.(msgtext := w2.msgtext)
    requires Examine(st, meters, c, w1, item).Ongoing?
    ensures var r1, r2 := Examine(st, meters, c, w1, item), Examine(st, meters, c, w2, item);
      && r2.Ongoing? && r2.vars == r1.vars.(msgtext := r2.vars.msgtext)
      && (r2.vars.msgtext == r1.vars.msgtext || (r1.vars.msgtext == w1.msgtext && r2.vars.msgtext == w2.msgtext))
  {
  }

  lemma StepShadowed(st: Station, meters: Geodesic, c: Timestamp, p1: Progress, p2: Progress, item: Entry)
    requires Shadows(c, p1, p2)
    requires Step(st, meters, p1.cursor, p1.vars, item).Ongoing?
    requires !Before(c, Step(st, meters, p1.cursor, p1.vars, item).cursor)
    ensures Shadows(c, Step(st, meters, p1.cursor, p1.vars, item), Step(st, meters, p2.cursor, p2.vars, item))
  {
    var v1 := p1.vars.(latEvent := 0.0, lonEvent := 0.0, dist := 0.0);
    var v2 := p2.vars.(latEvent := 0.0, lonEvent := 0.0, dist := 0.0);
    var t: Timestamp, w1: Locals, w2: Locals;
    if item.published.Some? {
      t := ConvertTime(item.published.value).value;
      w1 := v1.(pubdate := item.published, lastmsgTime := Some(t));
      w2 := v2.(pubdate := item.published, lastmsgTime := Some(t));
    } else {
      t := v1.lastmsgTime.value;
      w1, w2 := v1, v2;
    }
    var q1 := Step(st, meters, p1.cursor, p1.vars, item);
    var q2 := Step(st, meters, c, p2.vars, item);
    if Before(t, p1.cursor) {
      assert q1 == Ongoing(p1.cursor, w1);
      BeforeTotal(p1.cursor, c);
      if p1.cursor != c {
        BeforeTransitive(t, p1.cursor, c);
      }
      assert q2 == Ongoing(c, w2);
    } else if t != c {
      assert q1 == Examine(st, meters, t, w1, item);
      BeforeTotal(t, c);
      assert q2 == Ongoing(c, w2);
    } else {
      BeforeIrreflexive(c);
      assert q1 == Examine(st, meters, c, w1, item);
      assert q2 == Examine(st, meters, c, w2, item);
      ExamineIgnoresText(st, meters, c, w1, w2, item);
    }
  }

  lemma {:induction false} ScanShadowed(st: Station, meters: Geodesic, c: Timestamp, entries: seq<Entry>, p1: Progress, p2: Progress)
    requires Shadows(c, p1, p2)
    requires ScanFeed(st, meters, entries, p1).Ongoing?
    requires !Before(c, ScanFeed(st, meters, entries, p1).cursor)
    ensures Shadows(c, ScanFeed(st, meters, entries, p1), ScanFeed(st, meters, entries, p2))
    decreases |entries|
  {
    if entries != [] {
      var b1 := ScanFeed(st, meters, entries[1..], p1);
      var r1 := ScanFeed(st, meters, entries, p1);
      assert b1.Ongoing? && r1 == Step(st, meters, b1.cursor, b1.vars, entries[0]);
      NotBeforeTransitive(r1.cursor, b1.cursor, p1.cursor);
      if Before(c, b1.cursor) {
        BeforeTotal(c, r1.cursor);
        if c != r1.cursor {
          BeforeTransitive(c, b1.cursor, r1.cursor);
        }
        BeforeIrreflexive(c);
      }
      ScanShadowed(st, meters, c, entries[1..], p1, p2);
      StepShadowed(st, meters, c, b1, ScanFeed(st, meters, entries[1..], p2), entries[0]);
    }
  }

  /**
   * Re-fetching an unchanged feed after a cycle that raised nothing (and was
   * not the cold start) changes nothing more: the second cycle leaves the
   * cursor and the event as the first left them.
   */
  lemma UnchangedFeedIsIdempotent(st: Station, meters: Geodesic, s: Session, f: Feed)
    requires ValidSession(s) && !s.restart && !f.bozo && |f.entries| > 0
    requires ScanFeed(st, meters, f.entries, Ongoing(s.lastmsgTime.value, Fresh)).Ongoing?
    ensures var first := Cycle(st, meters, s, Some(f));
      Cycle(st, meters, first.session, Some(f)) == first
  {
    var c0 := s.lastmsgTime.value;
    var r1 := ScanFeed(st, meters, f.entries, Ongoing(c0, Fresh));
    var c := r1.cursor;
    EventReplacedIffMessage(st, meters, s, f);
    BeforeIrreflexive(c);
    ScanShadowed(st, meters, c, f.entries, Ongoing(c0, Fresh), Ongoing(c, Fresh));
  }
}
