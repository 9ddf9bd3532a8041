/** The decision logic of the events bot: which stream each calendar event
    is announced in, which events fall in today's or this week's digest, and
    how the weekly digest groups them by date. */
module Events {
  import opened Wrappers
  import Seqs
  import OrderedMap

  /** One occurrence of a calendar event. `day` is its start date as a
      proleptic Gregorian ordinal, the number Python's `date.toordinal()`
      gives (1 January of year 1 is day 1); clock times are left out. */
  datatype Event = Event(
    occurrenceId: int,
    calendarId: int,
    title: string,
    description: Option<string>,
    day: int,
    isAllDay: bool,
    isCancelled: bool)

  /** The calendars whose events each stream announces, in declaration order. */
  const StreamCalendarIds: seq<(string, seq<int>)> := [
    ("general", [3178, 3561, 3559]),
    ("field/appliedmicro", [4355]),
    ("field/development", [4247, 3557]),
    ("field/health", [4559]),
    ("field/history", [4389, 3556]),
    ("field/io", [4483, 3555]),
    ("field/labor", [4559]),
    ("field/macro", [3558, 3554]),
    ("field/metrics", [3553]),
    ("field/public", [4559])
  ]

  const Topic: string := "events"

  // ---------------------------------------------------------------------
  // Events per stream
  // ---------------------------------------------------------------------

  /** The event is on one of the calendars `ids`. */
  function OnCalendars(ids: seq<int>): Event -> bool {
    (e: Event) => e.calendarId in ids
  }

  /** A bucket with at least one event. */
  predicate HasEvents(bucket: (string, seq<Event>)) {
    |bucket.1| > 0
  }

  /** The stream of a table entry with all events on its calendars, in event order. */
  function BucketOf(events: seq<Event>): ((string, seq<int>)) -> (string, seq<Event>) {
    (entry: (string, seq<int>)) => (entry.0, Seqs.Filter(events, OnCalendars(entry.1)))
  }

  /** One bucket per table entry, empty ones included. */
  function AllBuckets(table: seq<(string, seq<int>)>, events: seq<Event>): seq<(string, seq<Event>)> {
    Seqs.Map(table, BucketOf(events))
  }

  /** The entry for `stream` when `bucket` is not empty, nothing otherwise. */
  function NonEmptyEntry(stream: string, bucket: seq<Event>): seq<(string, seq<Event>)> {
    if |bucket| == 0 then [] else [(stream, bucket)]
  }

  /** The inner loop over the events for one stream: every event on one of
      `ids` is appended to `stream`'s list of the `defaultdict`. A stream
      not yet in the dictionary ends up with exactly its events, or stays
      absent when it has none. */
  function CollectStream(m: seq<(string, seq<Event>)>, stream: string, ids: seq<int>, events: seq<Event>): (r: seq<(string, seq<Event>)>)
    ensures stream !in OrderedMap.Keys(m) ==> r == m + NonEmptyEntry(stream, Seqs.Filter(events, OnCalendars(ids)))
    decreases |events|
  {
    if |events| == 0 then m
    else
      var pre := events[..|events| - 1];
      var e := events[|events| - 1];
      var m' := CollectStream(m, stream, ids, pre);
      assert events == pre + [e];
      CollectStreamStep(m, stream, ids, pre, e);
      if e.calendarId in ids then OrderedMap.Append(m', stream, e) else m'
  }

  /** One more event for a stream that was not in the dictionary before the loop. */
  lemma CollectStreamStep(m: seq<(string, seq<Event>)>, stream: string, ids: seq<int>, pre: seq<Event>, e: Event)
    ensures stream !in OrderedMap.Keys(m) ==>
      var m' := m + NonEmptyEntry(stream, Seqs.Filter(pre, OnCalendars(ids)));
      (if e.calendarId in ids then OrderedMap.Append(m', stream, e) else m')
      == m + NonEmptyEntry(stream, Seqs.Filter(pre + [e], OnCalendars(ids)))
  {
    if stream !in OrderedMap.Keys(m) {
      var f := Seqs.Filter(pre, OnCalendars(ids));
      Seqs.FilterSnoc(pre, e, OnCalendars(ids));
      if e.calendarId in ids {
        assert Seqs.Filter(pre + [e], OnCalendars(ids)) == f + [e];
        if |f| == 0 {
          var m' := m + NonEmptyEntry(stream, f);
          assert m' == m;
          assert OrderedMap.Get(m, stream) == None;
          assert OrderedMap.Get(m', stream).GetOr([]) == [];
          assert OrderedMap.Get(m', stream).GetOr([]) + [e] == [e];
          assert OrderedMap.Append(m', stream, e) == OrderedMap.Put(m, stream, [e]);
          OrderedMap.PutNew(m, stream, [e]);
          assert f + [e] == [e];
        } else {
          var m' := m + [(stream, f)];
          assert m + NonEmptyEntry(stream, f) == m';
          OrderedMap.GetLast(m, stream, f);
          assert OrderedMap.Append(m', stream, e) == OrderedMap.Put(m', stream, f + [e]);
          OrderedMap.PutLast(m, stream, f, f + [e]);
        }
      } else {
        assert Seqs.Filter(pre + [e], OnCalendars(ids)) == f;
      }
    }
  }

  /** `_events_per_field`: the loop over the table's streams, in declaration
      order, each running the inner loop over the events. */
  function EventsPerField(table: seq<(string, seq<int>)>, events: seq<Event>): seq<(string, seq<Event>)>
    decreases |table|
  {
    if |table| == 0 then []
    else
      var entry := table[|table| - 1];
      CollectStream(EventsPerField(table[..|table| - 1], events), entry.0, entry.1, events)
  }

  /** For a table with distinct streams (every `dict` literal), the result
      holds, in table order, each stream's bucket of the events on its
      calendars in event order, and leaves out the streams without events. */
  lemma {:induction false} EventsPerFieldSpec(table: seq<(string, seq<int>)>, events: seq<Event>)
    requires OrderedMap.DistinctKeys(table)
    ensures EventsPerField(table, events) == Seqs.Filter(AllBuckets(table, events), HasEvents)
    decreases |table|
  {
    if |table| > 0 {
      var pre := table[..|table| - 1];
      DistinctKeysPrefix(table);
      EventsPerFieldSpec(pre, events);
      FreshStream(table, events);
      NonEmptyBucketsSnoc(table, events);
    }
  }

  /** The table without its last entry still has distinct streams. */
  lemma DistinctKeysPrefix(table: seq<(string, seq<int>)>)
    requires OrderedMap.DistinctKeys(table) && |table| > 0
    ensures OrderedMap.DistinctKeys(table[..|table| - 1])
  {
    OrderedMap.KeysIndex(table);
    OrderedMap.KeysIndex(table[..|table| - 1]);
  }

  /** The last stream of a table with distinct streams has no bucket among
      those of the earlier entries. */
  lemma FreshStream(table: seq<(string, seq<int>)>, events: seq<Event>)
    requires OrderedMap.DistinctKeys(table) && |table| > 0
    ensures table[|table| - 1].0 !in OrderedMap.Keys(Seqs.Filter(AllBuckets(table[..|table| - 1], events), HasEvents))
  {
    var pre := table[..|table| - 1];
    var m := Seqs.Filter(AllBuckets(pre, events), HasEvents);
    OrderedMap.KeysIndex(table);
    OrderedMap.KeysIndex(m);
    forall j | 0 <= j < |m|
      ensures m[j].0 != table[|table| - 1].0
    {
      assert m[j] in AllBuckets(pre, events);
      var i :| 0 <= i < |pre| && AllBuckets(pre, events)[i] == m[j];
      assert m[j].0 == table[i].0;
    }
  }

  /** The non-empty buckets of a table are those of all but its last entry,
      then the last entry's bucket when it is not empty. */
  lemma NonEmptyBucketsSnoc(table: seq<(string, seq<int>)>, events: seq<Event>)
    requires |table| > 0
    ensures Seqs.Filter(AllBuckets(table, events), HasEvents) ==
      Seqs.Filter(AllBuckets(table[..|table| - 1], events), HasEvents)
      + NonEmptyEntry(table[|table| - 1].0, Seqs.Filter(events, OnCalendars(table[|table| - 1].1)))
  {
    var pre := table[..|table| - 1];
    var entry := table[|table| - 1];
    assert table == pre + [entry];
    var b := BucketOf(events)(entry);
    Seqs.MapAppend(pre, [entry], BucketOf(events));
    assert AllBuckets(table, events) == AllBuckets(pre, events) + [b];
    Seqs.FilterSnoc(AllBuckets(pre, events), b, HasEvents);
    assert NonEmptyEntry(entry.0, Seqs.Filter(events, OnCalendars(entry.1))) == if HasEvents(b) then [b] else [];
  }

  /** An event is in a stream's bucket exactly when it is one of the events
      and its calendar is one the table lists for the stream; so an event
      on a calendar shared by several streams is in each of their buckets. */
  lemma BucketMembership(table: seq<(string, seq<int>)>, events: seq<Event>, stream: string, e: Event)
    requires OrderedMap.DistinctKeys(table)
    ensures (exists b :: b in EventsPerField(table, events) && b.0 == stream && e in b.1)
        <==> e in events && exists ids :: (stream, ids) in table && e.calendarId in ids
  {
    EventsPerFieldSpec(table, events);
    var r := EventsPerField(table, events);
    if exists b :: b in r && b.0 == stream && e in b.1 {
      var b :| b in r && b.0 == stream && e in b.1;
      BucketOrigin(table, events, b, e);
    }
    if e in events && exists ids :: (stream, ids) in table && e.calendarId in ids {
      var ids :| (stream, ids) in table && e.calendarId in ids;
      BucketFor(table, events, stream, ids, e);
    }
  }

  /** A bucket's events are on the calendars of its table entry. */
  lemma BucketOrigin(table: seq<(string, seq<int>)>, events: seq<Event>, b: (string, seq<Event>), e: Event)
    requires b in Seqs.Filter(AllBuckets(table, events), HasEvents) && e in b.1
    ensures e in events && (b.0, table[IndexOf(table, events, b)].1) in table
    ensures e.calendarId in table[IndexOf(table, events, b)].1
  {
    var all := AllBuckets(table, events);
    var i := IndexOf(table, events, b);
    assert all[i] == (table[i].0, Seqs.Filter(events, OnCalendars(table[i].1)));
    assert table[i] == (b.0, table[i].1);
  }

  /** The table entry a bucket comes from. */
  ghost function IndexOf(table: seq<(string, seq<int>)>, events: seq<Event>, b: (string, seq<Event>)): (i: nat)
    requires b in Seqs.Filter(AllBuckets(table, events), HasEvents)
    ensures i < |table| && AllBuckets(table, events)[i] == b
  {
    var all := AllBuckets(table, events);
    assert b in all;
    var i :| 0 <= i < |all| && all[i] == b;
    i
  }

  /** An event on one of a stream's calendars is in that stream's bucket. */
  lemma BucketFor(table: seq<(string, seq<int>)>, events: seq<Event>, stream: string, ids: seq<int>, e: Event)
    requires (stream, ids) in table && e in events && e.calendarId in ids
    ensures exists b :: b in Seqs.Filter(AllBuckets(table, events), HasEvents) && b.0 == stream && e in b.1
  {
    var all := AllBuckets(table, events);
    var i :| 0 <= i < |table| && table[i] == (stream, ids);
    var b := all[i];
    assert b == (stream, Seqs.Filter(events, OnCalendars(ids)));
    assert e in b.1;
    assert b in all;
    assert b in Seqs.Filter(all, HasEvents);
  }

  // ---------------------------------------------------------------------
  // Daily and weekly periods
  // ---------------------------------------------------------------------

  /** `date.weekday()` of a day ordinal: Monday is 0 and Sunday is 6. */
  function Weekday(day: int): (w: int)
    ensures 0 <= w < 7
  {
    (day + 6) % 7
  }

  /** The weekday `j` days after `day`, while that does not pass Sunday. */
  lemma WeekdayAfter(day: int, j: int)
    requires 0 <= j <= 6 - Weekday(day)
    ensures Weekday(day + j) == Weekday(day) + j
  {
    var q := (day + 6) / 7;
    assert day + 6 == 7 * q + Weekday(day);
    assert day + j + 6 == 7 * q + (Weekday(day) + j);
  }

  /** `today + timedelta(days=6 - today.weekday())`: the first Sunday on or
      after `today`. */
  function ComingSunday(today: int): (sunday: int)
    ensures 0 <= sunday - today <= 6
    ensures Weekday(sunday) == 6
    ensures forall d :: today <= d < sunday ==> Weekday(d) != 6
  {
    var sunday := today + (6 - Weekday(today));
    WeekdayAfter(today, 6 - Weekday(today));
    assert forall d :: today <= d < sunday ==> Weekday(d) != 6 by {
      forall d | today <= d < sunday
        ensures Weekday(d) != 6
      {
        WeekdayAfter(today, d - today);
      }
    }
    sunday
  }

  /** The digest periods the bot runs for. */
  datatype Period = Daily | Weekly

  /** The command-line period: anything but `daily` or `weekly` is an error. */
  function ParsePeriod(period: string): (r: Result<Period, string>)
    ensures r == Success(Daily) <==> period == "daily"
    ensures r == Success(Weekly) <==> period == "weekly"
    ensures r.Failure? ==> r.error == "invalid period " + period
  {
    if period == "daily" then Success(Daily)
    else if period == "weekly" then Success(Weekly)
    else Failure("invalid period " + period)
  }

  /** The event starts on `day`. */
  function OnDay(day: int): Event -> bool {
    (e: Event) => e.day == day
  }

  /** The event starts between `today` and the coming Sunday, both included. */
  function ThisWeek(today: int): Event -> bool {
    (e: Event) => today <= e.day <= ComingSunday(today)
  }

  /** The event falls in the period that starts `today`: that day for the
      daily digest, up to and including the coming Sunday for the weekly one. */
  predicate InPeriod(period: Period, today: int, e: Event) {
    match period
    case Daily => e.day == today
    case Weekly => today <= e.day && e.day - today <= 6 - Weekday(today)
  }

  /** `filter_events`: the events of the period, in their original order. */
  function FilterEvents(period: Period, today: int, events: seq<Event>): (r: seq<Event>)
    ensures period == Daily ==> forall e :: e in r <==> e in events && e.day == today
    ensures period == Weekly ==> forall e :: e in r <==> e in events && today <= e.day && e.day - today <= 6 - Weekday(today)
    ensures |r| <= |events|
  {
    match period
    case Daily => Seqs.Filter(events, OnDay(today))
    case Weekly => Seqs.Filter(events, ThisWeek(today))
  }

  /** The filter keeps the input order: filtering two runs of events one
      after the other is filtering each in turn. */
  lemma FilterEventsAppend(period: Period, today: int, a: seq<Event>, b: seq<Event>)
    ensures FilterEvents(period, today, a + b) == FilterEvents(period, today, a) + FilterEvents(period, today, b)
  {
    match period
    case Daily => Seqs.FilterAppend(a, b, OnDay(today));
    case Weekly => Seqs.FilterAppend(a, b, ThisWeek(today));
  }

  /** A single event is kept exactly when it falls in the period. With
      `FilterEventsAppend` this determines the filter on every input. */
  lemma FilterEventsSingle(period: Period, today: int, e: Event)
    ensures FilterEvents(period, today, [e]) == if InPeriod(period, today, e) then [e] else []
  {
    assert [e][1..] == [];
  }

  // ---------------------------------------------------------------------
  // Weekly grouping by date
  // ---------------------------------------------------------------------

  /** `m` groups `events` by start date: one entry per date that has
      events, holding exactly that date's events in their original order. */
  ghost predicate GroupsByDay(m: seq<(int, seq<Event>)>, events: seq<Event>) {
    && OrderedMap.DistinctKeys(m)
    && forall d :: OrderedMap.Get(m, d) ==
         if |Seqs.Filter(events, OnDay(d))| == 0 then None else Some(Seqs.Filter(events, OnDay(d)))
  }

  /** Date `d1` turns up in `events` before date `d2` does. */
  ghost predicate SeenBefore(events: seq<Event>, d1: int, d2: int) {
    exists i :: 0 <= i < |events| && events[i].day == d1 && forall j :: 0 <= j <= i ==> events[j].day != d2
  }

  /** The dates are listed in the order they first turn up in `events`. */
  ghost predicate InFirstSeenOrder(days: seq<int>, events: seq<Event>) {
    forall i, j :: 0 <= i < j < |days| ==> SeenBefore(events, days[i], days[j])
  }

  /** `m` groups `events` by date, with the dates in order of first appearance. */
  ghost predicate GroupedInOrder(m: seq<(int, seq<Event>)>, events: seq<Event>) {
    GroupsByDay(m, events) && InFirstSeenOrder(OrderedMap.Keys(m), events)
  }

  /** The weekly renderer's `events_by_date`: each event is appended to the
      list of its start date, a new date getting a new list. */
  function GroupByDay(events: seq<Event>): (r: seq<(int, seq<Event>)>)
    decreases |events|
  {
    if |events| == 0 then []
    else OrderedMap.Append(GroupByDay(events[..|events| - 1]), events[|events| - 1].day, events[|events| - 1])
  }

  /** The grouping has one entry per date that has events, holding exactly
      that date's events in order, and lists the dates in the order they
      first turn up. */
  lemma {:induction false} GroupByDayGroups(events: seq<Event>)
    ensures GroupedInOrder(GroupByDay(events), events)
    decreases |events|
  {
    if |events| > 0 {
      GroupByDayGroups(events[..|events| - 1]);
      GroupByDaySnoc(GroupByDay(events[..|events| - 1]), events);
    }
  }

  /** The last event, in both respects. */
  lemma GroupByDaySnoc(m: seq<(int, seq<Event>)>, events: seq<Event>)
    requires |events| > 0 && GroupedInOrder(m, events[..|events| - 1])
    ensures GroupedInOrder(OrderedMap.Append(m, events[|events| - 1].day, events[|events| - 1]), events)
  {
    var pre := events[..|events| - 1];
    var e := events[|events| - 1];
    assert events == pre + [e];
    GroupByDayStep(m, pre, e);
    DateOrderStep(m, pre, e);
  }

  /** A date that turned up before another still does after one more event. */
  lemma SeenBeforeSnoc(pre: seq<Event>, e: Event, d1: int, d2: int)
    requires SeenBefore(pre, d1, d2)
    ensures SeenBefore(pre + [e], d1, d2)
  {
    var i :| 0 <= i < |pre| && pre[i].day == d1 && forall j :: 0 <= j <= i ==> pre[j].day != d2;
    assert forall j :: 0 <= j <= i ==> (pre + [e])[j] == pre[j];
  }

  /** A date with a group turns up in the events before a date without one. */
  lemma GroupedBeforeUngrouped(m: seq<(int, seq<Event>)>, pre: seq<Event>, e: Event, d: int)
    requires GroupsByDay(m, pre) && d in OrderedMap.Keys(m) && e.day !in OrderedMap.Keys(m)
    ensures SeenBefore(pre + [e], d, e.day)
  {
    var f := Seqs.Filter(pre, OnDay(d));
    assert f[0] in f;
    var p :| 0 <= p < |pre| && pre[p].day == d;
    Seqs.FilterEmpty(pre, OnDay(e.day));
    forall q | 0 <= q <= p
      ensures (pre + [e])[q].day != e.day
    {
      assert (pre + [e])[q] == pre[q];
      assert !OnDay(e.day)(pre[q]);
    }
    assert (pre + [e])[p].day == d;
  }

  /** Appending an event to its date's group keeps the dates in order of
      first appearance: a new date goes last. */
  lemma DateOrderStep(m: seq<(int, seq<Event>)>, pre: seq<Event>, e: Event)
    requires GroupsByDay(m, pre) && InFirstSeenOrder(OrderedMap.Keys(m), pre)
    ensures InFirstSeenOrder(OrderedMap.Keys(OrderedMap.Append(m, e.day, e)), pre + [e])
  {
    if e.day in OrderedMap.Keys(m) {
      DateOrderOld(m, pre, e);
    } else {
      DateOrderNew(m, pre, e);
    }
  }

  /** An event on a date already grouped leaves the order of dates alone. */
  lemma DateOrderOld(m: seq<(int, seq<Event>)>, pre: seq<Event>, e: Event)
    requires InFirstSeenOrder(OrderedMap.Keys(m), pre) && e.day in OrderedMap.Keys(m)
    ensures InFirstSeenOrder(OrderedMap.Keys(OrderedMap.Append(m, e.day, e)), pre + [e])
  {
    var ks := OrderedMap.Keys(m);
    var ks' := OrderedMap.Keys(OrderedMap.Append(m, e.day, e));
    assert ks' == ks;
    forall i, j | 0 <= i < j < |ks'|
      ensures SeenBefore(pre + [e], ks'[i], ks'[j])
    {
      SeenBeforeSnoc(pre, e, ks[i], ks[j]);
    }
  }

  /** An event on a new date puts that date after all the others. */
  lemma DateOrderNew(m: seq<(int, seq<Event>)>, pre: seq<Event>, e: Event)
    requires GroupsByDay(m, pre) && InFirstSeenOrder(OrderedMap.Keys(m), pre) && e.day !in OrderedMap.Keys(m)
    ensures InFirstSeenOrder(OrderedMap.Keys(OrderedMap.Append(m, e.day, e)), pre + [e])
  {
    var ks := OrderedMap.Keys(m);
    var ks' := OrderedMap.Keys(OrderedMap.Append(m, e.day, e));
    assert ks' == ks + [e.day];
    forall i, j | 0 <= i < j < |ks'|
      ensures SeenBefore(pre + [e], ks'[i], ks'[j])
    {
      if j < |ks| {
        SeenBeforeSnoc(pre, e, ks[i], ks[j]);
      } else {
        assert ks'[i] == ks[i] && ks[i] in ks;
        GroupedBeforeUngrouped(m, pre, e, ks[i]);
      }
    }
  }

  /** Appending an event to its date's group extends a grouping by one event. */
  lemma GroupByDayStep(m: seq<(int, seq<Event>)>, pre: seq<Event>, e: Event)
    requires GroupsByDay(m, pre)
    ensures GroupsByDay(OrderedMap.Append(m, e.day, e), pre + [e])
  {
    var r := OrderedMap.Append(m, e.day, e);
    forall d
      ensures OrderedMap.Get(r, d) ==
        if |Seqs.Filter(pre + [e], OnDay(d))| == 0 then None else Some(Seqs.Filter(pre + [e], OnDay(d)))
    {
      Seqs.FilterSnoc(pre, e, OnDay(d));
      if d == e.day {
        var before := Seqs.Filter(pre, OnDay(d));
        assert Seqs.Filter(pre + [e], OnDay(d)) == before + [e];
        if |before| == 0 {
          assert OrderedMap.Get(m, d).GetOr([]) == [];
          assert before + [e] == [e];
        } else {
          assert OrderedMap.Get(m, d).GetOr([]) == before;
        }
      } else {
        assert Seqs.Filter(pre + [e], OnDay(d)) == Seqs.Filter(pre, OnDay(d));
      }
    }
  }

  /** Each group holds exactly the events of its own date, and is not empty. */
  lemma GroupEntry(g: seq<(int, seq<Event>)>, events: seq<Event>, k: nat)
    requires GroupsByDay(g, events) && k < |g|
    ensures g[k].1 == Seqs.Filter(events, OnDay(g[k].0))
    ensures |g[k].1| > 0
  {
    OrderedMap.GetDistinct(g, k);
  }

  /** Every event is in exactly one date bucket: the bucket of its own start
      date, which exists. */
  lemma GroupByDayExactlyOne(events: seq<Event>, e: Event)
    requires e in events
    ensures exists k :: 0 <= k < |GroupByDay(events)| && GroupByDay(events)[k].0 == e.day
    ensures forall k :: 0 <= k < |GroupByDay(events)| ==> (e in GroupByDay(events)[k].1 <==> GroupByDay(events)[k].0 == e.day)
  {
    var g := GroupByDay(events);
    GroupByDayGroups(events);
    ExactlyOneGroup(g, events, e);
    var k :| 0 <= k < |g| && g[k].0 == e.day;
    assert g[k].0 == e.day;
  }

  /** The same, for any grouping by date. */
  lemma ExactlyOneGroup(g: seq<(int, seq<Event>)>, events: seq<Event>, e: Event)
    requires GroupsByDay(g, events) && e in events
    ensures exists k :: 0 <= k < |g| && g[k].0 == e.day
    ensures forall k :: 0 <= k < |g| ==> (e in g[k].1 <==> g[k].0 == e.day)
  {
    assert e in Seqs.Filter(events, OnDay(e.day));
    assert OrderedMap.Get(g, e.day).Some?;
    OrderedMap.KeysIndex(g);
    var k0 :| 0 <= k0 < |g| && OrderedMap.Keys(g)[k0] == e.day;
    assert g[k0].0 == e.day;
    forall k | 0 <= k < |g|
      ensures e in g[k].1 <==> g[k].0 == e.day
    {
      GroupEntry(g, events, k);
    }
  }

  // ---------------------------------------------------------------------
  // Messages
  // ---------------------------------------------------------------------

  /** What a digest template is rendered from. */
  datatype Content = DailyDigest(events: seq<Event>) | WeeklyDigest(eventsByDate: seq<(int, seq<Event>)>)

  /** A message to a stream, under a topic. */
  datatype Message = Message(to: string, topic: string, content: Content)

  /** `render_message`: the daily digest lists the events, the weekly one
      groups them by date. */
  function Render(period: Period, events: seq<Event>): Content {
    match period
    case Daily => DailyDigest(events)
    case Weekly => WeeklyDigest(GroupByDay(events))
  }

  /** The bucket has events in the period. */
  function ActiveIn(period: Period, today: int): ((string, seq<Event>)) -> bool {
    (b: (string, seq<Event>)) => |FilterEvents(period, today, b.1)| > 0
  }

  /** The message announcing a bucket's events of the period. */
  function MessageFor(period: Period, today: int): ((string, seq<Event>)) -> Message {
    (b: (string, seq<Event>)) => Message(b.0, Topic, Render(period, FilterEvents(period, today, b.1)))
  }

  /** The loop of `make_messages` over the buckets: one message per bucket
      with events in the period, in bucket order, none for the others. */
  function StreamMessages(buckets: seq<(string, seq<Event>)>, period: Period, today: int): (r: seq<Message>)
    ensures r == Seqs.Map(Seqs.Filter(buckets, ActiveIn(period, today)), MessageFor(period, today))
    ensures forall k :: 0 <= k < |r| ==> r[k].topic == Topic
    decreases |buckets|
  {
    if |buckets| == 0 then []
    else
      var b := buckets[0];
      var rest := StreamMessages(buckets[1..], period, today);
      var head := if ActiveIn(period, today)(b) then [b] else [];
      Seqs.MapAppend(head, Seqs.Filter(buckets[1..], ActiveIn(period, today)), MessageFor(period, today));
      if |FilterEvents(period, today, b.1)| == 0 then rest
      else [MessageFor(period, today)(b)] + rest
  }

  /** `make_messages`: the messages of the period for every stream with
      events in it, or the error for an unknown period. */
  function MakeMessages(events: seq<Event>, period: string, today: int): (r: Result<seq<Message>, string>)
    ensures r.Failure? <==> period != "daily" && period != "weekly"
    ensures r.Failure? ==> r.error == "invalid period " + period
    ensures r.Success? ==> forall k :: 0 <= k < |r.value| ==> r.value[k].topic == Topic
    ensures r.Success? ==> |r.value| <= |StreamCalendarIds|
  {
    match ParsePeriod(period)
    case Failure(msg) => Failure(msg)
    case Success(p) =>
      var buckets := EventsPerField(StreamCalendarIds, events);
      StreamCalendarKeysDistinct();
      EventsPerFieldSpec(StreamCalendarIds, events);
      Success(StreamMessages(buckets, p, today))
  }

  /** The streams of the calendar table are distinct. */
  lemma StreamCalendarKeysDistinct()
    ensures OrderedMap.DistinctKeys(StreamCalendarIds)
  {
    var t := StreamCalendarIds;
    forall i, j | 0 <= i < j < |t|
      ensures t[i].0 != t[j].0
    {
      assert |t[i].0| != |t[j].0| || t[i].0[6] != t[j].0[6];
    }
    OrderedMap.DistinctKeysIntro(t);
  }

  // ---------------------------------------------------------------------
  // The bot's own table and calendar at work
  // ---------------------------------------------------------------------

  /** Calendar 4559 is shared by the health, labor and public-economics
      streams, so by `BucketMembership` each of its events is announced in
      all three; no other stream lists it. */
  lemma SharedCalendar()
    ensures ("field/health", [4559]) in StreamCalendarIds
    ensures ("field/labor", [4559]) in StreamCalendarIds
    ensures ("field/public", [4559]) in StreamCalendarIds
    ensures forall i :: 0 <= i < |StreamCalendarIds| && 4559 in StreamCalendarIds[i].1 ==>
      StreamCalendarIds[i].0 in ["field/health", "field/labor", "field/public"]
  {
    var t := StreamCalendarIds;
    assert t[3] == ("field/health", [4559]);
    assert t[6] == ("field/labor", [4559]);
    assert t[9] == ("field/public", [4559]);
  }

  /** Everything in the daily digest is in the weekly one of the same day. */
  lemma DailyWithinWeekly(today: int, events: seq<Event>)
    ensures forall e :: e in FilterEvents(Daily, today, events) ==> e in FilterEvents(Weekly, today, events)
  {
  }

  /** The weekly window on a Wednesday (3 January 2024, day 738888) runs to
      the following Sunday; on a Sunday it is that day alone. */
  lemma WeeklyWindowExamples()
    ensures Weekday(738886) == 0
    ensures ComingSunday(738888) == 738892
    ensures ComingSunday(738892) == 738892
  {
  }
}
