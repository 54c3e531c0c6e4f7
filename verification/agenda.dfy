/** The listing shared by the "show events", "my events" and reminder
    handlers: events come ordered by start date, are grouped into buckets keyed
    by their UTC calendar day in first-occurrence order, and each bucket is
    rendered as a bold day heading followed by its events. */
module Agenda {
  import opened Domain

  /** The day key of an event: the UTC calendar day of its start, as a day
      number since the epoch. The ISO date text of the day and this number
      determine each other. */
  function DayOf(e: Event): int {
    e.date / MsPerDay
  }

  predicate SortedByDate(evs: seq<Event>) {
    forall i, j :: 0 <= i < j < |evs| ==> evs[i].date <= evs[j].date
  }

  /** Insertion before the first later-or-equal event keeps equal dates in input order. */
  function Insert(e: Event, s: seq<Event>): seq<Event> {
    if |s| == 0 || e.date <= s[0].date then [e] + s else [s[0]] + Insert(e, s[1..])
  }

  lemma {:induction false} InsertMultiset(e: Event, s: seq<Event>)
    ensures multiset(Insert(e, s)) == multiset(s) + multiset{e}
  {
    if |s| > 0 && e.date > s[0].date {
      InsertMultiset(e, s[1..]);
      assert s == [s[0]] + s[1..];
    }
  }

  lemma {:induction false} InsertSorted(e: Event, s: seq<Event>)
    requires SortedByDate(s)
    ensures SortedByDate(Insert(e, s))
  {
    if |s| > 0 && e.date > s[0].date {
      var rest := Insert(e, s[1..]);
      InsertSorted(e, s[1..]);
      InsertMultiset(e, s[1..]);
      forall k | 0 <= k < |rest| ensures s[0].date <= rest[k].date {
        assert rest[k] in multiset(rest);
        if rest[k] != e {
          var p :| 0 <= p < |s[1..]| && s[1..][p] == rest[k];
          assert s[p + 1] == rest[k];
        }
      }
    }
  }

  /** The same events, in ascending order of start date (the store's ordered
      query). */
  function SortByDate(s: seq<Event>): (r: seq<Event>)
    ensures SortedByDate(r)
    ensures multiset(r) == multiset(s)
  {
    if |s| == 0 then []
    else
      var rest := SortByDate(s[1..]);
      InsertSorted(s[0], rest);
      InsertMultiset(s[0], rest);
      assert s == [s[0]] + s[1..];
      Insert(s[0], rest)
  }

  /** One bucket of the grouping: a day and its events. */
  datatype Group = Group(day: int, events: seq<Event>)

  function DaysOf(evs: seq<Event>): set<int> {
    set e | e in evs :: DayOf(e)
  }

  function Keys(gs: seq<Group>): set<int> {
    set i | 0 <= i < |gs| :: gs[i].day
  }

  predicate DistinctDays(gs: seq<Group>) {
    forall i, j :: 0 <= i < j < |gs| ==> gs[i].day != gs[j].day
  }

  /** The events of `evs` on day `d`, in their order in `evs`. */
  function OnDay(evs: seq<Event>, d: int): (r: seq<Event>)
    ensures forall x :: x in r ==> x in evs && DayOf(x) == d
    ensures r == [] <==> d !in DaysOf(evs)
  {
    if |evs| == 0 then []
    else
      var init := evs[..|evs| - 1];
      var last := evs[|evs| - 1];
      assert evs == init + [last];
      assert DaysOf(evs) == DaysOf(init) + {DayOf(last)};
      OnDay(init, d) + (if DayOf(last) == d then [last] else [])
  }

  /** The index of the first event on day `d`, or `|evs|` when there is none. */
  function FirstOnDay(evs: seq<Event>, d: int): (k: nat)
    ensures k <= |evs|
    ensures k < |evs| <==> d in DaysOf(evs)
    ensures k < |evs| ==> DayOf(evs[k]) == d
    ensures forall j :: 0 <= j < k ==> DayOf(evs[j]) != d
  {
    if |evs| == 0 then 0
    else if DayOf(evs[0]) == d then 0
    else
      assert evs == [evs[0]] + evs[1..];
      assert DaysOf(evs) == {DayOf(evs[0])} + DaysOf(evs[1..]);
      1 + FirstOnDay(evs[1..], d)
  }

  /** One step of the grouping fold: `e` joins the bucket of its day, or opens
      a new bucket at the end when its day has none yet. */
  function AddToGroups(gs: seq<Group>, e: Event): (r: seq<Group>)
    requires DistinctDays(gs)
    ensures |r| == if DayOf(e) in Keys(gs) then |gs| else |gs| + 1
    ensures forall i :: 0 <= i < |gs| ==>
      r[i] == if gs[i].day == DayOf(e) then Group(gs[i].day, gs[i].events + [e]) else gs[i]
    ensures DayOf(e) !in Keys(gs) ==> r[|gs|] == Group(DayOf(e), [e])
  {
    if |gs| == 0 then [Group(DayOf(e), [e])]
    else if gs[0].day == DayOf(e) then
      assert DayOf(e) in Keys(gs);
      [Group(gs[0].day, gs[0].events + [e])] + gs[1..]
    else
      var rest := AddToGroups(gs[1..], e);
      assert DayOf(e) in Keys(gs) <==> DayOf(e) in Keys(gs[1..]) by {
        if DayOf(e) in Keys(gs) {
          var i :| 0 <= i < |gs| && gs[i].day == DayOf(e);
          assert gs[1..][i - 1].day == DayOf(e);
        }
        if DayOf(e) in Keys(gs[1..]) {
          var i :| 0 <= i < |gs[1..]| && gs[1..][i].day == DayOf(e);
          assert gs[i + 1].day == DayOf(e);
        }
      }
      [gs[0]] + rest
  }

  /** Grouping events by day, folding them in one at a time. */
  function GroupByDay(evs: seq<Event>): (gs: seq<Group>)
    ensures DistinctDays(gs)
  {
    if |evs| == 0 then []
    else
      var gs := GroupByDay(evs[..|evs| - 1]);
      DistinctStep(gs, evs[|evs| - 1]);
      AddToGroups(gs, evs[|evs| - 1])
  }

  /** What the grouping computes: each bucket holds exactly the events of its
      day in input order, the buckets' days are distinct and are the days of
      the input, and buckets come in order of their day's first occurrence. */
  predicate GroupsOf(evs: seq<Event>, gs: seq<Group>) {
    && DistinctDays(gs)
    && Keys(gs) == DaysOf(evs)
    && (forall i :: 0 <= i < |gs| ==> gs[i].events == OnDay(evs, gs[i].day))
    && (forall i, j :: 0 <= i < j < |gs| ==> FirstOnDay(evs, gs[i].day) < FirstOnDay(evs, gs[j].day))
  }

  lemma {:induction false} GroupByDayGroups(evs: seq<Event>)
    ensures GroupsOf(evs, GroupByDay(evs))
    decreases |evs|
  {
    if |evs| > 0 {
      var init := evs[..|evs| - 1];
      var e := evs[|evs| - 1];
      assert evs == init + [e];
      GroupByDayGroups(init);
      GroupStep(init, e, GroupByDay(init));
    }
  }

  /** The bucket days are the days of the input. */
  lemma {:induction false} GroupByDayKeys(evs: seq<Event>)
    ensures Keys(GroupByDay(evs)) == DaysOf(evs)
  {
    GroupByDayGroups(evs);
  }

  lemma {:induction false} FirstOnDaySnoc(init: seq<Event>, e: Event, d: int)
    ensures d in DaysOf(init) ==> FirstOnDay(init + [e], d) == FirstOnDay(init, d)
    ensures d !in DaysOf(init) && d == DayOf(e) ==> FirstOnDay(init + [e], d) == |init|
  {
    var evs := init + [e];
    assert DaysOf(evs) == DaysOf(init) + {DayOf(e)} by {
      assert forall x :: x in evs <==> x in init || x == e;
    }
    if d in DaysOf(init) {
      var k1 := FirstOnDay(init, d);
      assert evs[k1] == init[k1];
    }
  }

  lemma {:induction false} OnDaySnoc(init: seq<Event>, e: Event, d: int)
    ensures OnDay(init + [e], d) == OnDay(init, d) + (if DayOf(e) == d then [e] else [])
  {
    assert (init + [e])[..|init|] == init;
  }

  lemma {:induction false} DaysOfSnoc(init: seq<Event>, e: Event)
    ensures DaysOf(init + [e]) == DaysOf(init) + {DayOf(e)}
  {
    assert forall x :: x in init + [e] <==> x in init || x == e;
  }

  /** The bucket keys after one fold step. */
  lemma {:induction false} KeysStep(gs: seq<Group>, e: Event)
    requires DistinctDays(gs)
    ensures Keys(AddToGroups(gs, e)) == Keys(gs) + {DayOf(e)}
  {
    var r := AddToGroups(gs, e);
    forall x | x in Keys(r) ensures x in Keys(gs) + {DayOf(e)} {
      var i :| 0 <= i < |r| && r[i].day == x;
      if i < |gs| {
        assert gs[i].day == x;
      }
    }
    forall x | x in Keys(gs) ensures x in Keys(r) {
      var i :| 0 <= i < |gs| && gs[i].day == x;
      assert r[i].day == x;
    }
    if DayOf(e) in Keys(gs) {
      var i :| 0 <= i < |gs| && gs[i].day == DayOf(e);
      assert r[i].day == DayOf(e);
    } else {
      assert r[|gs|].day == DayOf(e);
    }
  }

  lemma {:induction false} DistinctStep(gs: seq<Group>, e: Event)
    requires DistinctDays(gs)
    ensures DistinctDays(AddToGroups(gs, e))
  {
    var r := AddToGroups(gs, e);
    forall i, j | 0 <= i < j < |r| ensures r[i].day != r[j].day {
      if j == |gs| {
        assert gs[i].day in Keys(gs);
      }
    }
  }

  lemma {:induction false} EventsStep(init: seq<Event>, e: Event, gs: seq<Group>)
    requires DistinctDays(gs)
    requires Keys(gs) == DaysOf(init)
    requires forall i :: 0 <= i < |gs| ==> gs[i].events == OnDay(init, gs[i].day)
    ensures var r := AddToGroups(gs, e);
      forall i :: 0 <= i < |r| ==> r[i].events == OnDay(init + [e], r[i].day)
  {
    var r := AddToGroups(gs, e);
    forall i | 0 <= i < |r| ensures r[i].events == OnDay(init + [e], r[i].day) {
      OnDaySnoc(init, e, r[i].day);
      if i == |gs| {
        assert OnDay(init, DayOf(e)) == [];
      }
    }
  }

  lemma {:induction false} FirstOnDayKept(init: seq<Event>, e: Event, gs: seq<Group>)
    requires Keys(gs) == DaysOf(init)
    ensures forall i :: 0 <= i < |gs| ==>
      FirstOnDay(init + [e], gs[i].day) == FirstOnDay(init, gs[i].day) < |init|
  {
    forall i | 0 <= i < |gs|
      ensures FirstOnDay(init + [e], gs[i].day) == FirstOnDay(init, gs[i].day) < |init|
    {
      assert gs[i].day in Keys(gs);
      FirstOnDaySnoc(init, e, gs[i].day);
    }
  }

  lemma {:induction false} OrderStep(init: seq<Event>, e: Event, gs: seq<Group>)
    requires DistinctDays(gs)
    requires Keys(gs) == DaysOf(init)
    requires forall i, j :: 0 <= i < j < |gs| ==> FirstOnDay(init, gs[i].day) < FirstOnDay(init, gs[j].day)
    ensures var r := AddToGroups(gs, e);
      forall i, j :: 0 <= i < j < |r| ==> FirstOnDay(init + [e], r[i].day) < FirstOnDay(init + [e], r[j].day)
  {
    FirstOnDayKept(init, e, gs);
    var r := AddToGroups(gs, e);
    if DayOf(e) in Keys(gs) {
      assert forall i :: 0 <= i < |r| ==> r[i].day == gs[i].day;
    } else {
      FirstOnDaySnoc(init, e, DayOf(e));
      OrderStepNew(init, e, gs, r);
    }
  }

  lemma {:induction false} OrderStepNew(init: seq<Event>, e: Event, gs: seq<Group>, r: seq<Group>)
    requires |r| == |gs| + 1 && r[|gs|].day == DayOf(e)
    requires forall i :: 0 <= i < |gs| ==> r[i].day == gs[i].day
    requires forall i :: 0 <= i < |gs| ==>
      FirstOnDay(init + [e], gs[i].day) == FirstOnDay(init, gs[i].day) < |init|
    requires FirstOnDay(init + [e], DayOf(e)) == |init|
    requires forall i, j :: 0 <= i < j < |gs| ==> FirstOnDay(init, gs[i].day) < FirstOnDay(init, gs[j].day)
    ensures forall i, j :: 0 <= i < j < |r| ==> FirstOnDay(init + [e], r[i].day) < FirstOnDay(init + [e], r[j].day)
  {
    forall i, j | 0 <= i < j < |r|
      ensures FirstOnDay(init + [e], r[i].day) < FirstOnDay(init + [e], r[j].day)
    {
      if j == |gs| {
        assert FirstOnDay(init + [e], r[i].day) == FirstOnDay(init, gs[i].day);
      } else {
        assert r[j].day == gs[j].day;
      }
    }
  }

  lemma {:induction false} GroupStep(init: seq<Event>, e: Event, gs: seq<Group>)
    requires GroupsOf(init, gs)
    ensures GroupsOf(init + [e], AddToGroups(gs, e))
  {
    DaysOfSnoc(init, e);
    KeysStep(gs, e);
    DistinctStep(gs, e);
    EventsStep(init, e, gs);
    OrderStep(init, e, gs);
  }

  /** The events of the buckets, bucket after bucket. */
  function Flatten(gs: seq<Group>): seq<Event> {
    if |gs| == 0 then [] else Flatten(gs[..|gs| - 1]) + gs[|gs| - 1].events
  }

  predicate DaySorted(evs: seq<Event>) {
    forall i, j :: 0 <= i < j < |evs| ==> DayOf(evs[i]) <= DayOf(evs[j])
  }

  lemma {:induction false} DayMonotone(a: int, b: int)
    requires a <= b
    ensures a / MsPerDay <= b / MsPerDay
  {
  }

  /** Events ordered by instant are ordered by day. */
  lemma {:induction false} SortedByDateIsDaySorted(evs: seq<Event>)
    requires SortedByDate(evs)
    ensures DaySorted(evs)
  {
    forall i, j | 0 <= i < j < |evs| ensures DayOf(evs[i]) <= DayOf(evs[j]) {
      DayMonotone(evs[i].date, evs[j].date);
    }
  }

  /** Bucket days strictly increase along the buckets. */
  predicate IncreasingDays(gs: seq<Group>) {
    forall i, j :: 0 <= i < j < |gs| ==> gs[i].day < gs[j].day
  }

  lemma {:induction false} GroupByDaySnoc(init: seq<Event>, e: Event)
    ensures GroupByDay(init + [e]) == AddToGroups(GroupByDay(init), e)
  {
    assert (init + [e])[..|init|] == init;
  }

  lemma {:induction false} DaySortedInit(init: seq<Event>, e: Event)
    requires DaySorted(init + [e])
    ensures DaySorted(init)
    ensures |init| > 0 ==> DayOf(init[|init| - 1]) <= DayOf(e)
  {
    var evs := init + [e];
    forall i, j | 0 <= i < j < |init| ensures DayOf(init[i]) <= DayOf(init[j]) {
      assert init[i] == evs[i] && init[j] == evs[j];
    }
    if |init| > 0 {
      assert evs[|init| - 1] == init[|init| - 1] && evs[|init|] == e;
    }
  }

  /** On day-sorted input the bucket days strictly increase and the last
      bucket belongs to the last event's day. */
  lemma {:induction false} SortedShape(evs: seq<Event>)
    requires DaySorted(evs)
    ensures var gs := GroupByDay(evs);
      && IncreasingDays(gs)
      && (|evs| > 0 ==> |gs| > 0 && gs[|gs| - 1].day == DayOf(evs[|evs| - 1]))
    decreases |evs|
  {
    if |evs| > 0 {
      var init := evs[..|evs| - 1];
      var e := evs[|evs| - 1];
      assert evs == init + [e];
      DaySortedInit(init, e);
      SortedShape(init);
      ShapeStep(init, e);
    }
  }

  lemma {:induction false} ShapeStep(init: seq<Event>, e: Event)
    requires |init| > 0 ==> DayOf(init[|init| - 1]) <= DayOf(e)
    requires var gs := GroupByDay(init);
      && IncreasingDays(gs)
      && (|init| > 0 ==> |gs| > 0 && gs[|gs| - 1].day == DayOf(init[|init| - 1]))
    ensures var gs := GroupByDay(init + [e]);
      IncreasingDays(gs) && |gs| > 0 && gs[|gs| - 1].day == DayOf(e)
  {
    GroupByDaySnoc(init, e);
    var gs := GroupByDay(init);
    if |init| > 0 {
      if DayOf(e) == gs[|gs| - 1].day {
        SameDayStep(gs, e);
      } else {
        NewDayStep(gs, e);
      }
    }
  }

  /** An event on the last bucket's day joins that bucket and no other. */
  lemma {:induction false} SameDayStep(gs: seq<Group>, e: Event)
    requires IncreasingDays(gs) && |gs| > 0 && gs[|gs| - 1].day == DayOf(e)
    ensures AddToGroups(gs, e) == gs[..|gs| - 1] + [Group(DayOf(e), gs[|gs| - 1].events + [e])]
    ensures IncreasingDays(AddToGroups(gs, e))
  {
    var n := |gs|;
    assert gs[n - 1].day in Keys(gs);
    var r := AddToGroups(gs, e);
    var t := gs[..n - 1] + [Group(DayOf(e), gs[n - 1].events + [e])];
    forall i | 0 <= i < n ensures r[i] == t[i] {
      if i < n - 1 {
        assert gs[i].day < gs[n - 1].day;
      }
    }
  }

  /** An event on a day after the last bucket's opens a new bucket at the end. */
  lemma {:induction false} NewDayStep(gs: seq<Group>, e: Event)
    requires IncreasingDays(gs) && |gs| > 0 && gs[|gs| - 1].day < DayOf(e)
    ensures AddToGroups(gs, e) == gs + [Group(DayOf(e), [e])]
    ensures IncreasingDays(AddToGroups(gs, e))
  {
    var n := |gs|;
    assert DayOf(e) !in Keys(gs) by {
      forall i | 0 <= i < n ensures gs[i].day < DayOf(e) {
        if i < n - 1 {
          assert gs[i].day < gs[n - 1].day;
        }
      }
    }
    var r := AddToGroups(gs, e);
    var t := gs + [Group(DayOf(e), [e])];
    forall i | 0 <= i < n + 1 ensures r[i] == t[i] {
    }
  }

  /** On day-sorted input the bucket days strictly increase. */
  lemma {:induction false} SortedGroupsIncrease(evs: seq<Event>)
    requires DaySorted(evs)
    ensures IncreasingDays(GroupByDay(evs))
  {
    SortedShape(evs);
  }

  /** On day-sorted input, an event on the previous event's day extends the
      last bucket. */
  lemma {:induction false} SortedSnocSameDay(init: seq<Event>, e: Event)
    requires DaySorted(init + [e]) && |init| > 0
    requires DayOf(e) == DayOf(init[|init| - 1])
    ensures var gs := GroupByDay(init);
      && |gs| > 0
      && gs[|gs| - 1].day == DayOf(e)
      && GroupByDay(init + [e]) == gs[..|gs| - 1] + [Group(DayOf(e), gs[|gs| - 1].events + [e])]
  {
    DaySortedInit(init, e);
    SortedShape(init);
    GroupByDaySnoc(init, e);
    SameDayStep(GroupByDay(init), e);
  }

  /** On day-sorted input, an event on a later day than the previous event
      opens a new bucket at the end. */
  lemma {:induction false} SortedSnocNewDay(init: seq<Event>, e: Event)
    requires DaySorted(init + [e]) && |init| > 0
    requires DayOf(e) != DayOf(init[|init| - 1])
    ensures GroupByDay(init + [e]) == GroupByDay(init) + [Group(DayOf(e), [e])]
  {
    DaySortedInit(init, e);
    SortedShape(init);
    GroupByDaySnoc(init, e);
    NewDayStep(GroupByDay(init), e);
  }

  lemma {:induction false} FlattenSnoc(gs: seq<Group>, g: Group)
    ensures Flatten(gs + [g]) == Flatten(gs) + g.events
  {
    assert (gs + [g])[..|gs|] == gs;
  }

  /** Adding an event to the last bucket adds it to the end of the flattening. */
  lemma {:induction false} FlattenJoin(gs: seq<Group>, e: Event)
    requires |gs| > 0
    ensures var n := |gs|;
      Flatten(gs[..n - 1] + [Group(DayOf(e), gs[n - 1].events + [e])]) == Flatten(gs) + [e]
  {
    var n := |gs|;
    var a := Flatten(gs[..n - 1]);
    var b := gs[n - 1].events;
    FlattenSnoc(gs[..n - 1], Group(DayOf(e), b + [e]));
    assert Flatten(gs) == a + b;
    assert a + (b + [e]) == (a + b) + [e];
  }

  /** On day-sorted input (in particular on input ordered by date) the buckets
      read in order give back the input. */
  lemma {:induction false} FlattenSorted(evs: seq<Event>)
    requires DaySorted(evs)
    ensures Flatten(GroupByDay(evs)) == evs
    decreases |evs|
  {
    if |evs| > 0 {
      var init := evs[..|evs| - 1];
      var e := evs[|evs| - 1];
      assert evs == init + [e];
      DaySortedInit(init, e);
      FlattenSorted(init);
      var gs := GroupByDay(init);
      if |init| == 0 {
        GroupByDaySnoc(init, e);
        FlattenSnoc([], Group(DayOf(e), [e]));
      } else {
        if DayOf(e) == DayOf(init[|init| - 1]) {
          SortedSnocSameDay(init, e);
          FlattenJoin(gs, e);
        } else {
          SortedSnocNewDay(init, e);
          FlattenSnoc(gs, Group(DayOf(e), [e]));
        }
      }
    }
  }

  /** The locale-dependent pieces of the rendering: the long date title of a
      day (from its day number) and the clock time of an instant. */
  datatype Format = Format(dayTitle: int -> string, clock: int -> string)

  /** One event: time, name, the description on its own line when there is
      one, and a blank line. */
  function EventText(fmt: Format, e: Event): string {
    fmt.clock(e.date) + " - " + e.name + (if |e.description| > 0 then "\n" + e.description else "") + "\n\n"
  }

  function EventsText(fmt: Format, evs: seq<Event>): string {
    if |evs| == 0 then "" else EventsText(fmt, evs[..|evs| - 1]) + EventText(fmt, evs[|evs| - 1])
  }

  function Heading(fmt: Format, day: int): string {
    "<b>" + fmt.dayTitle(day) + "</b>" + "\n"
  }

  function GroupText(fmt: Format, g: Group): string {
    Heading(fmt, g.day) + EventsText(fmt, g.events)
  }

  function GroupsText(fmt: Format, gs: seq<Group>): string {
    if |gs| == 0 then "" else GroupsText(fmt, gs[..|gs| - 1]) + GroupText(fmt, gs[|gs| - 1])
  }

  /** The message the handlers build from a list of events: empty exactly
      when there are no events. */
  function AgendaText(fmt: Format, evs: seq<Event>): (r: string)
    ensures r == "" <==> evs == []
  {
    var gs := GroupByDay(evs);
    GroupByDayKeys(evs);
    assert evs != [] ==> |GroupsText(fmt, gs)| > 0 by {
      if evs != [] {
        assert evs[0] in evs;
        assert DayOf(evs[0]) in Keys(gs);
        assert |GroupText(fmt, gs[|gs| - 1])| > 0;
      }
    }
    GroupsText(fmt, gs)
  }

  /** The agenda as a single pass over the events: a day heading before each
      event whose day differs from the previous event's, then the event. */
  function Timeline(fmt: Format, evs: seq<Event>): string {
    if |evs| == 0 then ""
    else
      var init := evs[..|evs| - 1];
      var e := evs[|evs| - 1];
      Timeline(fmt, init)
      + (if |init| == 0 || DayOf(init[|init| - 1]) != DayOf(e) then Heading(fmt, DayOf(e)) else "")
      + EventText(fmt, e)
  }

  lemma {:induction false} GroupsTextSnoc(fmt: Format, gs: seq<Group>, g: Group)
    ensures GroupsText(fmt, gs + [g]) == GroupsText(fmt, gs) + GroupText(fmt, g)
  {
    assert (gs + [g])[..|gs|] == gs;
  }

  lemma {:induction false} EventsTextSnoc(fmt: Format, evs: seq<Event>, e: Event)
    ensures EventsText(fmt, evs + [e]) == EventsText(fmt, evs) + EventText(fmt, e)
  {
    assert (evs + [e])[..|evs|] == evs;
  }

  lemma {:induction false} TimelineSnoc(fmt: Format, init: seq<Event>, e: Event)
    ensures Timeline(fmt, init + [e]) == Timeline(fmt, init)
      + (if |init| == 0 || DayOf(init[|init| - 1]) != DayOf(e) then Heading(fmt, DayOf(e)) else "")
      + EventText(fmt, e)
  {
    assert (init + [e])[..|init|] == init;
  }

  /** Extending the last bucket by one event appends that event's text. */
  lemma {:induction false} TextSameDay(fmt: Format, gs: seq<Group>, e: Event)
    requires |gs| > 0
    ensures var n := |gs|;
      GroupsText(fmt, gs[..n - 1] + [Group(gs[n - 1].day, gs[n - 1].events + [e])])
        == GroupsText(fmt, gs) + EventText(fmt, e)
  {
    var n := |gs|;
    var g := gs[n - 1];
    var p := GroupsText(fmt, gs[..n - 1]);
    var h := Heading(fmt, g.day);
    var es := EventsText(fmt, g.events);
    var t := EventText(fmt, e);
    GroupsTextSnoc(fmt, gs[..n - 1], Group(g.day, g.events + [e]));
    GroupsTextSnoc(fmt, gs[..n - 1], g);
    InitLast(gs);
    EventsTextSnoc(fmt, g.events, e);
    Assoc3(p, h, es, t);
  }

  lemma {:induction false} InitLast<T>(s: seq<T>)
    requires |s| > 0
    ensures s[..|s| - 1] + [s[|s| - 1]] == s
  {
  }

  lemma {:induction false} Assoc3(p: string, h: string, es: string, t: string)
    ensures p + (h + (es + t)) == ((p + (h + es)) + t)
  {
  }

  /** Opening a new bucket appends a heading and the event's text. */
  lemma {:induction false} TextNewDay(fmt: Format, gs: seq<Group>, e: Event)
    ensures GroupsText(fmt, gs + [Group(DayOf(e), [e])])
      == GroupsText(fmt, gs) + Heading(fmt, DayOf(e)) + EventText(fmt, e)
  {
    GroupsTextSnoc(fmt, gs, Group(DayOf(e), [e]));
    EventsTextSnoc(fmt, [], e);
  }

  lemma {:induction false} AgendaStepFirst(fmt: Format, e: Event)
    ensures AgendaText(fmt, [e]) == Timeline(fmt, [e])
  {
    GroupByDaySnoc([], e);
    TimelineSnoc(fmt, [], e);
    TextNewDay(fmt, [], e);
    assert [] + [e] == [e];
  }

  lemma {:induction false} AgendaStepSameDay(fmt: Format, init: seq<Event>, e: Event)
    requires DaySorted(init + [e]) && |init| > 0
    requires DayOf(e) == DayOf(init[|init| - 1])
    ensures AgendaText(fmt, init + [e]) == AgendaText(fmt, init) + EventText(fmt, e)
    ensures Timeline(fmt, init + [e]) == Timeline(fmt, init) + EventText(fmt, e)
  {
    var gs := GroupByDay(init);
    SortedSnocSameDay(init, e);
    TextSameDay(fmt, gs, e);
    TimelineSnoc(fmt, init, e);
    assert Timeline(fmt, init) + "" == Timeline(fmt, init);
  }

  lemma {:induction false} AgendaStepNewDay(fmt: Format, init: seq<Event>, e: Event)
    requires DaySorted(init + [e]) && |init| > 0
    requires DayOf(e) != DayOf(init[|init| - 1])
    ensures AgendaText(fmt, init + [e]) == AgendaText(fmt, init) + Heading(fmt, DayOf(e)) + EventText(fmt, e)
    ensures Timeline(fmt, init + [e]) == Timeline(fmt, init) + Heading(fmt, DayOf(e)) + EventText(fmt, e)
  {
    SortedSnocNewDay(init, e);
    TextNewDay(fmt, GroupByDay(init), e);
    TimelineSnoc(fmt, init, e);
  }

  /** For day-sorted input the grouped rendering equals the single pass: one
      heading per day, the day's events in input order beneath it. */
  lemma {:induction false} AgendaOfSorted(fmt: Format, evs: seq<Event>)
    requires DaySorted(evs)
    ensures AgendaText(fmt, evs) == Timeline(fmt, evs)
    decreases |evs|
  {
    if |evs| > 0 {
      var init := evs[..|evs| - 1];
      var e := evs[|evs| - 1];
      assert evs == init + [e];
      DaySortedInit(init, e);
      AgendaOfSorted(fmt, init);
      if |init| == 0 {
        AgendaStepFirst(fmt, e);
      } else if DayOf(e) == DayOf(init[|init| - 1]) {
        AgendaStepSameDay(fmt, init, e);
      } else {
        AgendaStepNewDay(fmt, init, e);
      }
    }
  }

  lemma {:induction false} TimelineOfThree(fmt: Format, a: Event, b: Event, c: Event)
    requires DayOf(a) == DayOf(b) != DayOf(c)
    ensures Timeline(fmt, [a, b, c]) ==
      Heading(fmt, DayOf(a)) + EventText(fmt, a) + EventText(fmt, b)
      + Heading(fmt, DayOf(c)) + EventText(fmt, c)
  {
    var ha, ea, eb, hc, ec := Heading(fmt, DayOf(a)), EventText(fmt, a), EventText(fmt, b), Heading(fmt, DayOf(c)), EventText(fmt, c);
    TimelineSnoc(fmt, [], a);
    assert [] + [a] == [a];
    assert Timeline(fmt, [a]) == ha + ea;
    TimelineSnoc(fmt, [a], b);
    assert [a] + [b] == [a, b];
    assert Timeline(fmt, [a, b]) == ha + ea + eb;
    TimelineSnoc(fmt, [a, b], c);
    assert [a, b] + [c] == [a, b, c];
  }

  /** Events at 18:00 and 20:00 on 21 May 2024 and at 09:00 on 22 May 2024
      (UTC), the second one with a description: two bold day titles, each
      event as clock time, " - " and name, the description on a line of its
      own only where there is one, and a blank line after every event. */
  lemma {:induction false} TwoDayExample(fmt: Format)
    ensures
      var a := Event(1, "A", 1716314400000, "");
      var b := Event(2, "B", 1716321600000, "Hall 2");
      var c := Event(3, "C", 1716368400000, "");
      AgendaText(fmt, [a, b, c]) ==
        ("<b>" + fmt.dayTitle(19864) + "</b>\n")
        + (fmt.clock(1716314400000) + " - A\n\n")
        + (fmt.clock(1716321600000) + " - B\nHall 2\n\n")
        + ("<b>" + fmt.dayTitle(19865) + "</b>\n")
        + (fmt.clock(1716368400000) + " - C\n\n")
  {
    var a := Event(1, "A", 1716314400000, "");
    var b := Event(2, "B", 1716321600000, "Hall 2");
    var c := Event(3, "C", 1716368400000, "");
    TwoDayGroups(fmt, a, b, c);
    assert EventText(fmt, a) == fmt.clock(1716314400000) + " - A\n\n";
    assert EventText(fmt, b) == fmt.clock(1716321600000) + " - B\nHall 2\n\n";
    assert EventText(fmt, c) == fmt.clock(1716368400000) + " - C\n\n";
  }

  lemma {:induction false} TwoDayGroups(fmt: Format, a: Event, b: Event, c: Event)
    requires a.date == 1716314400000 && b.date == 1716321600000 && c.date == 1716368400000
    ensures AgendaText(fmt, [a, b, c]) ==
      Heading(fmt, 19864) + EventText(fmt, a) + EventText(fmt, b) + Heading(fmt, 19865) + EventText(fmt, c)
  {
    assert DayOf(a) == 19864 && DayOf(b) == 19864 && DayOf(c) == 19865;
    var evs := [a, b, c];
    assert DaySorted(evs);
    AgendaOfSorted(fmt, evs);
    TimelineOfThree(fmt, a, b, c);
  }


}
