/** Registering for an event: the inline menu of events, each button carrying
    a `SELECTED_EVENT:<id>` token, and the callback that parses the token back
    and records the registration once. */
module Selection {
  import opened Options
  import opened Text
  import opened Domain
  import opened Agenda

  /** The marker every selection token starts with. */
  const SelectedEvent: string := "SELECTED_EVENT"

  /** The callback data of an event's button. */
  function Token(id: int): (t: string)
    ensures StartsWith(t, SelectedEvent)
  {
    SelectedEvent + ":" + IntToString(id)
  }

  /** The text a callback's event id is read from: the trimmed last
      `:`-separated segment of the data. It holds no colon and has no white
      space at either end. */
  function EventIdText(data: string): (r: string)
    ensures ':' !in r
    ensures |r| > 0 ==> !IsSpace(r[0]) && !IsSpace(r[|r| - 1])
    ensures ':' in data ==> |r| < |data|
  {
    var t := LastSegment(data, ':');
    TrimFreeOf(t, ':');
    LastSegmentShorter(data, ':');
    Trim(t)
  }

  /** The "register" menu: one button per event, in date order, labelled with
      the event's name. */
  function RegisterMenu(db: Db): (r: Reply)
    ensures r.Send? && r.msg == SelectEvents && r.keyboard.Inline?
    ensures |r.keyboard.buttons| == |db.events|
  {
    var evs := SortByDate(db.events);
    assert |evs| == |multiset(evs)| == |multiset(db.events)| == |db.events|;
    Send(SelectEvents, Inline(seq(|evs|, i requires 0 <= i < |evs| => Button(evs[i].name, Token(evs[i].id)))))
  }

  /** The callback of a button press by chat `id`. Data without the marker, a
      non-numeric id or a missing event is a thrown error (the error message
      is sent); an unknown user or an empty id is answered in the callback; an
      existing registration is reported; otherwise one registration is added. */
  function OnCallback(db: Db, ss: Sessions, id: int, data: string): (r: Step)
    ensures r.sessions == ss && r.db.users == db.users && r.db.events == db.events
    ensures r.reply != Answer(FindRegisteredEvents) ==> r.db == db
    ensures r.reply == Answer(FindRegisteredEvents) ==>
      && |r.db.registrations| == |db.registrations| + 1
      && r.db.registrations[..|db.registrations|] == db.registrations
      && var added := r.db.registrations[|db.registrations|];
        && added.user == id && !added.notified
        && added.user in UserIds(db.users) && added.event in EventIds(db.events)
        && !Registered(db.registrations, id, added.event)
  {
    if !StartsWith(data, SelectedEvent) then Step(db, ss, Send(Error, NoKeyboard))
    else if id !in UserIds(db.users) then Step(db, ss, Answer(UseStart))
    else
      var t := EventIdText(data);
      if t == "" then Step(db, ss, Answer(Error))
      else match NumberValue(t)
        case None => Step(db, ss, Send(Error, NoKeyboard))
        case Some(ev) =>
          if Registered(db.registrations, id, ev) then Step(db, ss, Answer(AlreadyRegistered))
          // The foreign key on the event fails for an event that does not exist.
          else if ev !in EventIds(db.events) then Step(db, ss, Send(Error, NoKeyboard))
          else Step(db.(registrations := db.registrations + [Registration(id, ev, false)]), ss, Answer(FindRegisteredEvents))
  }

  /** A token parses back to the id it was built from. */
  lemma {:induction false} TokenRoundTrip(id: int)
    ensures EventIdText(Token(id)) == IntToString(id)
    ensures NumberValue(EventIdText(Token(id))) == Some(id)
  {
    var digits := IntToString(id);
    IntToStringFreeOf(id, ':');
    LastSegmentAfter(SelectedEvent, ':', digits);
    assert Token(id) == SelectedEvent + [':'] + digits;
    TrimIntToString(id);
    NumberOfIntToString(id);
  }

  /** The i-th button of the register menu is the i-th event in date order:
      it shows that event's name and its token parses back to its id. */
  lemma {:induction false} MenuButton(db: Db, i: int)
    requires 0 <= i < |db.events|
    ensures var b := RegisterMenu(db).keyboard.buttons[i];
      var e := SortByDate(db.events)[i];
      && e in db.events && b.caption == e.name
      && NumberValue(EventIdText(b.data)) == Some(e.id)
  {
    var evs := SortByDate(db.events);
    assert evs[i] in multiset(evs);
    TokenRoundTrip(evs[i].id);
  }

  /** Every event of the catalogue has a button that selects it. */
  lemma {:induction false} MenuCovers(db: Db, e: Event)
    requires e in db.events
    ensures var bs := RegisterMenu(db).keyboard.buttons;
      exists i :: 0 <= i < |bs| && bs[i].caption == e.name && NumberValue(EventIdText(bs[i].data)) == Some(e.id)
  {
    var evs := SortByDate(db.events);
    assert e in multiset(evs);
    var i :| 0 <= i < |evs| && evs[i] == e;
    MenuButton(db, i);
  }

  /** Data without the marker is rejected with the error message and no write. */
  lemma {:induction false} RejectsForeignData(db: Db, ss: Sessions, id: int, data: string)
    requires !StartsWith(data, SelectedEvent)
    ensures OnCallback(db, ss, id, data) == Step(db, ss, Send(Error, NoKeyboard))
  {
  }

  /** An empty trailing segment is answered with the error message and no write. */
  lemma {:induction false} EmptyIdRejected(db: Db, ss: Sessions, id: int, data: string)
    requires StartsWith(data, SelectedEvent) && id in UserIds(db.users)
    requires EventIdText(data) == ""
    ensures OnCallback(db, ss, id, data) == Step(db, ss, Answer(Error))
  {
  }

  /** Pressing an event's button registers the user for that event, whether
      or not a phone is recorded; only the user row is required. */
  lemma {:induction false} SelectRegisters(db: Db, ss: Sessions, id: int, e: Event)
    requires id in UserIds(db.users) && e in db.events
    requires !Registered(db.registrations, id, e.id)
    ensures OnCallback(db, ss, id, Token(e.id))
      == Step(db.(registrations := db.registrations + [Registration(id, e.id, false)]), ss, Answer(FindRegisteredEvents))
  {
    TokenRoundTrip(e.id);
  }

  /** An existing registration is reported and nothing is written. */
  lemma {:induction false} SelectExisting(db: Db, ss: Sessions, id: int, e: Event)
    requires id in UserIds(db.users) && Registered(db.registrations, id, e.id)
    ensures OnCallback(db, ss, id, Token(e.id)) == Step(db, ss, Answer(AlreadyRegistered))
  {
    TokenRoundTrip(e.id);
  }

  /** Repeating a callback writes nothing more: the second press finds the
      registration the first one made, or fails the same way. */
  lemma {:induction false} CallbackIdempotent(db: Db, ss: Sessions, id: int, data: string)
    ensures var r := OnCallback(db, ss, id, data);
      OnCallback(r.db, ss, id, data).db == r.db
  {
    var r := OnCallback(db, ss, id, data);
    if r.reply == Answer(FindRegisteredEvents) {
      var ev := NumberValue(EventIdText(data)).value;
      var n := |db.registrations|;
      assert r.db.registrations[n] == Registration(id, ev, false);
      assert Registered(r.db.registrations, id, ev);
    }
  }

  /** Appending a registration for a pair not yet registered keeps the pairs
      unique. */
  lemma {:induction false} AppendKeepsUnique(rs: seq<Registration>, x: Registration)
    requires UniquePairs(rs) && !Registered(rs, x.user, x.event)
    ensures UniquePairs(rs + [x])
  {
    var rs' := rs + [x];
    forall i, j | 0 <= i < j < |rs'| ensures rs'[i].user != rs'[j].user || rs'[i].event != rs'[j].event {
      if j == |rs| {
        assert rs'[i] == rs[i];
      }
    }
  }

  /** The registrations after a callback: the old ones, plus the one added on
      success. */
  lemma {:induction false} CallbackShape(db: Db, ss: Sessions, id: int, data: string)
    ensures var r := OnCallback(db, ss, id, data);
      r.reply == Answer(FindRegisteredEvents) ==>
        var added := r.db.registrations[|db.registrations|];
        && r.db.registrations == db.registrations + [added]
        && !Registered(db.registrations, added.user, added.event)
  {
    var r := OnCallback(db, ss, id, data);
    if r.reply == Answer(FindRegisteredEvents) {
      var rs := r.db.registrations;
      InitLast(rs);
    }
  }

  /** A callback keeps the store consistent: every registration has its user
      and its event, and no pair is registered twice. */
  lemma {:induction false} CallbackConsistent(db: Db, ss: Sessions, id: int, data: string)
    requires Consistent(db)
    ensures Consistent(OnCallback(db, ss, id, data).db)
  {
    var r := OnCallback(db, ss, id, data);
    CallbackShape(db, ss, id, data);
    if r.reply == Answer(FindRegisteredEvents) {
      var added := r.db.registrations[|db.registrations|];
      AppendKeepsUnique(db.registrations, added);
      assert forall x :: x in r.db.registrations ==> x in db.registrations || x == added;
    }
  }

  /** Repeated presses never register a pair twice. */
  lemma {:induction false} CallbackTwiceUnique(db: Db, ss: Sessions, id: int, data: string)
    requires UniquePairs(db.registrations)
    ensures var r1 := OnCallback(db, ss, id, data);
      UniquePairs(OnCallback(r1.db, ss, id, data).db.registrations)
  {
    var r1 := OnCallback(db, ss, id, data);
    CallbackIdempotent(db, ss, id, data);
    CallbackShape(db, ss, id, data);
    if r1.reply == Answer(FindRegisteredEvents) {
      AppendKeepsUnique(db.registrations, r1.db.registrations[|db.registrations|]);
    }
  }
}
