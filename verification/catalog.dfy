/** The read-only menu entries: the whole programme, a user's own
    registrations, and the statistics an admin sees. */
module Catalog {
  import opened Options
  import opened Text
  import opened Domain
  import opened Agenda

  /** The programme: every event, grouped by day in date order. An empty
      catalogue renders as the empty text, which Telegram refuses to send, so
      nothing reaches the chat. */
  function ShowEvents(fmt: Format, db: Db): (r: Reply)
    ensures r == NoReply <==> db.events == []
    ensures r != NoReply ==> r.Send? && r.msg.Text? && r.keyboard == BaseMenu
  {
    var evs := SortByDate(db.events);
    var text := AgendaText(fmt, evs);
    assert |evs| == |multiset(evs)| == |multiset(db.events)| == |db.events|;
    if text == "" then NoReply else Send(Text(text), BaseMenu)
  }

  /** The programme message walks the events in date order, with a day
      heading before the first event of each day: no event is lost,
      reordered or shown twice. */
  lemma {:induction false} ShowEventsTimeline(fmt: Format, db: Db)
    requires db.events != []
    ensures ShowEvents(fmt, db) == Send(Text(Timeline(fmt, SortByDate(db.events))), BaseMenu)
    ensures Flatten(GroupByDay(SortByDate(db.events))) == SortByDate(db.events)
  {
    var evs := SortByDate(db.events);
    SortedByDateIsDaySorted(evs);
    AgendaOfSorted(fmt, evs);
    FlattenSorted(evs);
  }

  /** The events the user's registrations point at, in registration order. */
  function RegisteredEvents(evs: seq<Event>, rs: seq<Registration>, user: int): (r: seq<Event>)
    ensures forall e :: e in r ==> e in evs
    ensures |r| <= |rs|
  {
    if |rs| == 0 then []
    else
      var init := RegisteredEvents(evs, rs[..|rs| - 1], user);
      var last := rs[|rs| - 1];
      if last.user != user then init
      else match FindEvent(evs, last.event)
        case None => init
        case Some(e) => init + [e]
  }

  /** Under distinct event ids, an event is among the user's events exactly
      when it is in the catalogue and the user is registered for it. */
  lemma {:induction false} RegisteredEventsMembers(evs: seq<Event>, rs: seq<Registration>, user: int)
    requires DistinctEvents(evs)
    ensures forall e :: e in RegisteredEvents(evs, rs, user) <==> e in evs && Registered(rs, user, e.id)
  {
    if |rs| > 0 {
      var init := rs[..|rs| - 1];
      var last := rs[|rs| - 1];
      RegisteredEventsMembers(evs, init, user);
      forall e: Event ensures Registered(rs, user, e.id) <==> Registered(init, user, e.id) || (last.user == user && last.event == e.id) {
        if Registered(rs, user, e.id) {
          var i :| 0 <= i < |rs| && rs[i].user == user && rs[i].event == e.id;
          if i < |rs| - 1 { assert init[i] == rs[i]; }
        }
        if Registered(init, user, e.id) {
          var i :| 0 <= i < |init| && init[i].user == user && init[i].event == e.id;
          assert rs[i] == init[i];
        }
      }
      forall e: Event | e in evs && e.id == last.event ensures FindEvent(evs, last.event) == Some(e) {
        var f := FindEvent(evs, last.event).value;
        var i :| 0 <= i < |evs| && evs[i] == e;
        var j :| 0 <= j < |evs| && evs[j] == f;
      }
    }
  }

  /** Under linked registrations, the user has events exactly when the user
      has registrations. */
  lemma {:induction false} RegisteredEventsEmpty(evs: seq<Event>, rs: seq<Registration>, user: int)
    requires forall x :: x in rs ==> x.event in EventIds(evs)
    ensures RegisteredEvents(evs, rs, user) == [] <==> forall x :: x in rs ==> x.user != user
  {
    if |rs| > 0 {
      var init := rs[..|rs| - 1];
      var last := rs[|rs| - 1];
      assert forall x :: x in init ==> x in rs;
      RegisteredEventsEmpty(evs, init, user);
      assert forall x :: x in rs ==> x in init || x == last;
    }
  }

  /** The user's own registrations in date order. */
  function MyEventList(db: Db, user: int): seq<Event> {
    SortByDate(RegisteredEvents(db.events, db.registrations, user))
  }

  /** The "my events" entry: the fixed notice when the user has no
      registration, otherwise the user's events grouped by day. */
  function MyEvents(fmt: Format, db: Db, user: int): (r: Reply)
    ensures r.Send?
    ensures r.msg == NotRegistered <==> MyEventList(db, user) == []
    ensures r.msg != NotRegistered ==> r.msg.Text? && r.msg.body != "" && r.keyboard == BaseMenu
  {
    var evs := MyEventList(db, user);
    if evs == [] then Send(NotRegistered, NoKeyboard) else Send(Text(AgendaText(fmt, evs)), BaseMenu)
  }

  /** In a linked store the notice appears exactly for a user without
      registrations, and otherwise the message lists precisely the events the
      user is registered for. */
  lemma {:induction false} MyEventsContents(fmt: Format, db: Db, user: int)
    requires Consistent(db)
    ensures MyEvents(fmt, db, user).msg == NotRegistered <==> forall x :: x in db.registrations ==> x.user != user
    ensures forall e :: e in MyEventList(db, user) <==> e in db.events && Registered(db.registrations, user, e.id)
  {
    var evs := RegisteredEvents(db.events, db.registrations, user);
    RegisteredEventsEmpty(db.events, db.registrations, user);
    RegisteredEventsMembers(db.events, db.registrations, user);
    var sorted := SortByDate(evs);
    assert |sorted| == |multiset(sorted)| == |multiset(evs)| == |evs|;
    forall e ensures e in sorted <==> e in evs {
      assert e in sorted <==> e in multiset(sorted);
      assert e in evs <==> e in multiset(evs);
    }
  }

  /** The number of registrations for an event: how many positions of the
      list point at it. */
  function CountFor(rs: seq<Registration>, event: int): (n: nat)
    ensures n == |set i | 0 <= i < |rs| && rs[i].event == event|
    ensures n <= |rs|
  {
    if |rs| == 0 then 0
    else
      CountSnoc(rs, event);
      CountFor(rs[..|rs| - 1], event) + (if rs[|rs| - 1].event == event then 1 else 0)
  }

  /** The positions pointing at an event, one registration more. */
  lemma {:induction false} CountSnoc(rs: seq<Registration>, event: int)
    requires |rs| > 0
    ensures var init := rs[..|rs| - 1];
      |set i | 0 <= i < |rs| && rs[i].event == event|
        == |set i | 0 <= i < |init| && init[i].event == event| + (if rs[|rs| - 1].event == event then 1 else 0)
  {
    var n := |rs| - 1;
    var init := rs[..n];
    var before := set i | 0 <= i < |init| && init[i].event == event;
    var after := set i | 0 <= i < |rs| && rs[i].event == event;
    var last: set<int> := if rs[n].event == event then {n} else {};
    assert after == before + last by {
      forall i ensures i in after <==> i in before || i in last {
        if 0 <= i < n { assert init[i] == rs[i]; }
      }
    }
    assert n !in before;
  }

  /** One statistics line: position, name and registration count. */
  function StatLine(position: nat, e: Event, count: nat): string {
    NatToString(position) + ") " + e.name + ": " + NatToString(count) + "\n\n"
  }

  /** The lines for the events in catalogue order, numbered from 1: there is
      no line exactly when there is no event. */
  function StatLines(evs: seq<Event>, rs: seq<Registration>): (r: string)
    ensures r == "" <==> evs == []
  {
    if |evs| == 0 then ""
    else StatLines(evs[..|evs| - 1], rs) + StatLine(|evs|, evs[|evs| - 1], CountFor(rs, evs[|evs| - 1].id))
  }

  const StatisticsHeader: string := "Статистика:\n"

  /** The statistics entry: the header, then a line per event. */
  function Statistics(db: Db): (r: Reply)
    ensures r.Send? && r.msg.Text? && r.keyboard == AdminsMenu
    ensures StartsWith(r.msg.body, StatisticsHeader)
  {
    Send(Text(StatisticsHeader + StatLines(db.events, db.registrations)), AdminsMenu)
  }

  /** Strings joined in order. */
  function Join(parts: seq<string>): string {
    if |parts| == 0 then "" else Join(parts[..|parts| - 1]) + parts[|parts| - 1]
  }

  /** The statistics message line by line: after the header, the i-th line
      numbers the i-th event of the catalogue from 1 and gives its name and
      the number of registrations pointing at it. */
  lemma {:induction false} StatisticsLines(db: Db)
    ensures var evs, rs := db.events, db.registrations;
      Statistics(db).msg.body == StatisticsHeader + Join(seq(|evs|, i requires 0 <= i < |evs| =>
        StatLine(i + 1, evs[i], |set j | 0 <= j < |rs| && rs[j].event == evs[i].id|)))
  {
    StatLinesByIndex(db.events, db.registrations);
  }

  lemma {:induction false} StatLinesByIndex(evs: seq<Event>, rs: seq<Registration>)
    ensures StatLines(evs, rs) == Join(seq(|evs|, i requires 0 <= i < |evs| =>
      StatLine(i + 1, evs[i], |set j | 0 <= j < |rs| && rs[j].event == evs[i].id|)))
  {
    if |evs| > 0 {
      var n := |evs| - 1;
      var init := evs[..n];
      StatLinesByIndex(init, rs);
      var lines := seq(|evs|, i requires 0 <= i < |evs| =>
        StatLine(i + 1, evs[i], |set j | 0 <= j < |rs| && rs[j].event == evs[i].id|));
      var initLines := seq(n, i requires 0 <= i < n =>
        StatLine(i + 1, init[i], |set j | 0 <= j < |rs| && rs[j].event == init[i].id|));
      assert lines[..n] == initLines;
      assert lines[n] == StatLine(|evs|, evs[n], CountFor(rs, evs[n].id));
    }
  }

  /** The sum of the counts over a list of events. */
  function TotalCount(evs: seq<Event>, rs: seq<Registration>): nat {
    if |evs| == 0 then 0 else TotalCount(evs[..|evs| - 1], rs) + CountFor(rs, evs[|evs| - 1].id)
  }

  /** How many events of the list carry the id. */
  function IdCount(evs: seq<Event>, id: int): nat {
    if |evs| == 0 then 0 else IdCount(evs[..|evs| - 1], id) + (if evs[|evs| - 1].id == id then 1 else 0)
  }

  /** With distinct ids, an id occurs once in the list or not at all. */
  lemma {:induction false} IdCountDistinct(evs: seq<Event>, id: int)
    requires DistinctEvents(evs)
    ensures IdCount(evs, id) == if id in EventIds(evs) then 1 else 0
  {
    if |evs| > 0 {
      var init := evs[..|evs| - 1];
      var last := evs[|evs| - 1];
      IdCountDistinct(init, id);
      assert EventIds(evs) == EventIds(init) + {last.id} by {
        assert forall x :: x in evs <==> x in init || x == last;
      }
      if last.id == id {
        assert id !in EventIds(init) by {
          forall x | x in init ensures x.id != id {
            var i :| 0 <= i < |init| && init[i] == x;
            assert evs[i] == x;
          }
        }
      }
    }
  }

  /** Adding one registration adds it to exactly the counts of the events
      carrying its event id. */
  lemma {:induction false} TotalCountSnoc(evs: seq<Event>, rs: seq<Registration>, x: Registration)
    ensures TotalCount(evs, rs + [x]) == TotalCount(evs, rs) + IdCount(evs, x.event)
  {
    if |evs| > 0 {
      TotalCountSnoc(evs[..|evs| - 1], rs, x);
      assert (rs + [x])[..|rs|] == rs;
    }
  }

  /** In a consistent store every registration is counted exactly once: the
      counts of the statistics add up to the number of registrations. */
  lemma {:induction false} CountsAddUp(evs: seq<Event>, rs: seq<Registration>)
    requires DistinctEvents(evs)
    requires forall x :: x in rs ==> x.event in EventIds(evs)
    ensures TotalCount(evs, rs) == |rs|
  {
    if |rs| == 0 {
      ZeroCounts(evs);
    } else {
      var init := rs[..|rs| - 1];
      var x := rs[|rs| - 1];
      assert forall y :: y in init ==> y in rs;
      CountsAddUp(evs, init);
      assert init + [x] == rs;
      TotalCountSnoc(evs, init, x);
      IdCountDistinct(evs, x.event);
    }
  }

  lemma {:induction false} ZeroCounts(evs: seq<Event>)
    ensures TotalCount(evs, []) == 0
  {
    if |evs| > 0 { ZeroCounts(evs[..|evs| - 1]); }
  }

  /** Two events, A with three registrations and B with none, in that order. */
  lemma {:induction false} StatisticsExample()
    ensures Statistics(Db([], [ExampleA(), ExampleB()], ExampleRegistrations())).msg.body
      == "Статистика:\n1) A: 3\n\n2) B: 0\n\n"
  {
    ExampleLines();
    assert StatisticsHeader + ("1) A: 3\n\n" + "2) B: 0\n\n") == "Статистика:\n1) A: 3\n\n2) B: 0\n\n";
  }

  function ExampleA(): Event { Event(1, "A", 0, "") }

  function ExampleB(): Event { Event(2, "B", 0, "") }

  lemma {:induction false} ExampleLines()
    ensures StatLines([ExampleA(), ExampleB()], ExampleRegistrations()) == "1) A: 3\n\n" + "2) B: 0\n\n"
  {
    var a, b, rs := ExampleA(), ExampleB(), ExampleRegistrations();
    ExampleFirstLine();
    assert [a, b][..1] == [a];
    ExampleCounts();
    SmallNumerals();
    assert StatLine(2, b, 0) == "2) B: 0\n\n";
  }

  lemma {:induction false} ExampleFirstLine()
    ensures StatLines([ExampleA()], ExampleRegistrations()) == "1) A: 3\n\n"
  {
    var a := ExampleA();
    assert [a][..0] == [];
    ExampleCounts();
    SmallNumerals();
    assert StatLine(1, a, 3) == "1) A: 3\n\n";
  }

  function ExampleRegistrations(): seq<Registration> {
    [Registration(10, 1, false), Registration(11, 1, false), Registration(12, 1, true)]
  }

  lemma {:induction false} ExampleCounts()
    ensures CountFor(ExampleRegistrations(), 1) == 3 && CountFor(ExampleRegistrations(), 2) == 0
  {
    var rs := ExampleRegistrations();
    assert rs[..2][..1] == [rs[0]];
    assert rs[..2] == [rs[0], rs[1]];
  }

  lemma {:induction false} SmallNumerals()
    ensures NatToString(0) == "0" && NatToString(1) == "1" && NatToString(2) == "2" && NatToString(3) == "3"
  {
  }
}
