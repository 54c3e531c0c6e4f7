/** The invitation broadcast: within its time window, every user none of
    whose registrations is marked notified receives the invitation with their
    own programme, and on a successful send all of their registrations are
    marked notified. */
module Notify {
  import opened Options
  import opened Text
  import opened Domain
  import opened Agenda
  import opened Catalog

  /** The local clock reading the guard looks at; `month` counts from 0, as
      `getMonth` does. */
  datatype Clock = Clock(year: int, month: int, date: int, hours: int)

  /** The early-return condition as the source writes it: a conjunction that
      asks for hours below 17 and above 23 at once. */
  predicate SkipsAsWritten(now: Clock) {
    now.date != 21 && now.month != 4 && now.year != 2024 && now.hours < 17 && now.hours > 23
  }

  /** The window the guard's comment names: 21 May 2024, from 17:00 until 23:00. */
  predicate InWindow(now: Clock) {
    now.year == 2024 && now.month == 4 && now.date == 21 && 17 <= now.hours < 23
  }

  /** One message handed to Telegram. */
  datatype Outgoing = Outgoing(to: int, text: string)

  /** What a pass over the users leaves behind: the registrations with their
      new flags, and the messages delivered in order. */
  datatype Outcome = Outcome(registrations: seq<Registration>, sent: seq<Outgoing>)

  const Invitation: string := "Приглашаем вас <b>22-23 мая</b> на Дни дизайна в Перми. Выставка «Знай Наших!» состоится на площадке конгрессно-выставочного центра \"PermExpo\" в рамках краевого форума \"Дни Пермского бизнеса. Расширяя границы Пермского края\" <b>по адресу: ул. Шоссе Космонавтов, 59</b>. Программа и регистрация: https://archibookperm.ru/ До встречи!"

  const RecordsTitle: string := "Ваши записи:\n"

  /** The invitation for a user, followed by the user's programme under its
      title when the programme is not empty. */
  function NotifyText(fmt: Format, db: Db, user: int): (t: string)
    ensures StartsWith(t, Invitation + "\n\n")
    ensures t == Invitation + "\n\n" <==> MyEventList(db, user) == []
  {
    var programme := AgendaText(fmt, MyEventList(db, user));
    Invitation + "\n\n" + (if programme != "" then RecordsTitle + programme else "")
  }

  /** The gate: none of the user's registrations is marked notified (true for
      a user without registrations). */
  predicate Gate(rs: seq<Registration>, user: int) {
    !exists i :: 0 <= i < |rs| && rs[i].user == user && rs[i].notified
  }

  /** Marks every registration of the user notified. */
  function MarkNotified(rs: seq<Registration>, user: int): (r: seq<Registration>)
    ensures |r| == |rs|
    ensures forall i :: 0 <= i < |rs| ==> r[i] == if rs[i].user == user then rs[i].(notified := true) else rs[i]
  {
    seq(|rs|, i requires 0 <= i < |rs| => if rs[i].user == user then rs[i].(notified := true) else rs[i])
  }

  /** Whether the pass sends to the user and flips the user's flags: the
      user is visited, passes the gate in the snapshot and the send succeeds. */
  predicate Flips(snap: Db, us: seq<User>, delivered: int -> bool, user: int) {
    user in UserIds(us) && Gate(snap.registrations, user) && delivered(user)
  }

  /** The loop over the users read at the start of the run. Gate and message
      come from that snapshot; `delivered` says whether sending to a chat
      succeeds, and a failed send is swallowed before any flag is written. */
  function Pass(fmt: Format, snap: Db, us: seq<User>, delivered: int -> bool, rs: seq<Registration>): (r: Outcome)
    ensures |r.registrations| == |rs|
    ensures |r.sent| <= |us|
    decreases |us|
  {
    if |us| == 0 then Outcome(rs, [])
    else
      var id := us[0].telegramId;
      if Gate(snap.registrations, id) && delivered(id) then
        var rest := Pass(fmt, snap, us[1..], delivered, MarkNotified(rs, id));
        Outcome(rest.registrations, [Outgoing(id, NotifyText(fmt, snap, id))] + rest.sent)
      else Pass(fmt, snap, us[1..], delivered, rs)
  }

  /** A registration ends up marked notified exactly when it already was or
      its user was sent the invitation; nothing else about it changes. */
  lemma {:induction false} PassFlags(fmt: Format, snap: Db, us: seq<User>, delivered: int -> bool, rs: seq<Registration>)
    ensures var r := Pass(fmt, snap, us, delivered, rs).registrations;
      forall i :: 0 <= i < |rs| ==>
        r[i] == if Flips(snap, us, delivered, rs[i].user) then rs[i].(notified := true) else rs[i]
    decreases |us|
  {
    if |us| > 0 {
      var id := us[0].telegramId;
      var tail := us[1..];
      assert UserIds(us) == {id} + UserIds(tail) by {
        assert forall u :: u in us <==> u == us[0] || u in tail;
      }
      if Gate(snap.registrations, id) && delivered(id) {
        PassFlags(fmt, snap, tail, delivered, MarkNotified(rs, id));
      } else {
        PassFlags(fmt, snap, tail, delivered, rs);
      }
    }
  }

  /** A message goes out exactly to each visited user who passes the gate and
      whose send succeeds, and it carries that user's invitation text. */
  lemma {:induction false} PassSent(fmt: Format, snap: Db, us: seq<User>, delivered: int -> bool, rs: seq<Registration>)
    ensures var sent := Pass(fmt, snap, us, delivered, rs).sent;
      forall o :: o in sent <==> Flips(snap, us, delivered, o.to) && o.text == NotifyText(fmt, snap, o.to)
    decreases |us|
  {
    if |us| > 0 {
      var id := us[0].telegramId;
      var tail := us[1..];
      assert UserIds(us) == {id} + UserIds(tail) by {
        assert forall u :: u in us <==> u == us[0] || u in tail;
      }
      if Gate(snap.registrations, id) && delivered(id) {
        PassSent(fmt, snap, tail, delivered, MarkNotified(rs, id));
      } else {
        PassSent(fmt, snap, tail, delivered, rs);
      }
    }
  }

  /** No chat appears twice among the recipients. */
  predicate DistinctRecipients(sent: seq<Outgoing>) {
    forall i, j :: 0 <= i < j < |sent| ==> sent[i].to != sent[j].to
  }

  lemma {:induction false} ConsDistinct(o: Outgoing, rest: seq<Outgoing>)
    requires DistinctRecipients(rest) && forall x :: x in rest ==> x.to != o.to
    ensures DistinctRecipients([o] + rest)
  {
    var s := [o] + rest;
    forall i, j | 0 <= i < j < |s| ensures s[i].to != s[j].to {
      assert s[j] == rest[j - 1];
      if i > 0 { assert s[i] == rest[i - 1]; }
    }
  }

  /** The tail of a list of distinct users is distinct and misses the head's id. */
  lemma {:induction false} DistinctTail(us: seq<User>)
    requires |us| > 0 && DistinctUsers(us)
    ensures DistinctUsers(us[1..]) && us[0].telegramId !in UserIds(us[1..])
  {
    var tail := us[1..];
    forall i, j | 0 <= i < j < |tail| ensures tail[i].telegramId != tail[j].telegramId {
      assert tail[i] == us[i + 1] && tail[j] == us[j + 1];
    }
    forall u | u in tail ensures u.telegramId != us[0].telegramId {
      var k :| 0 <= k < |tail| && tail[k] == u;
      assert us[k + 1] == u;
    }
  }

  /** Over distinct users, no chat receives two messages in one run. */
  lemma {:induction false} PassSendsOnce(fmt: Format, snap: Db, us: seq<User>, delivered: int -> bool, rs: seq<Registration>)
    requires DistinctUsers(us)
    ensures DistinctRecipients(Pass(fmt, snap, us, delivered, rs).sent)
    decreases |us|
  {
    if |us| > 0 {
      var id := us[0].telegramId;
      var tail := us[1..];
      DistinctTail(us);
      if Gate(snap.registrations, id) && delivered(id) {
        var rs' := MarkNotified(rs, id);
        PassSendsOnce(fmt, snap, tail, delivered, rs');
        PassSent(fmt, snap, tail, delivered, rs');
        ConsDistinct(Outgoing(id, NotifyText(fmt, snap, id)), Pass(fmt, snap, tail, delivered, rs').sent);
      } else {
        PassSendsOnce(fmt, snap, tail, delivered, rs);
      }
    }
  }

  /** The result of a run: the store afterwards and the messages delivered. */
  datatype Run = Run(db: Db, sent: seq<Outgoing>)

  /** `notify` with the guard as written: the run happens at any time. */
  function NotifyAsWritten(fmt: Format, now: Clock, db: Db, delivered: int -> bool): (r: Run)
    ensures r.db.users == db.users && r.db.events == db.events
  {
    if SkipsAsWritten(now) then Run(db, [])
    else
      var o := Pass(fmt, db, db.users, delivered, db.registrations);
      Run(db.(registrations := o.registrations), o.sent)
  }

  /** The guard can never fire: the as-written run ignores the clock. */
  lemma {:induction false} GuardNeverFires(fmt: Format, now: Clock, db: Db, delivered: int -> bool)
    ensures !SkipsAsWritten(now)
    ensures var o := Pass(fmt, db, db.users, delivered, db.registrations);
      NotifyAsWritten(fmt, now, db, delivered) == Run(db.(registrations := o.registrations), o.sent)
  {
  }

  /** At 03:00 on 1 January 2025 the as-written run still invites a user,
      although that time lies outside the intended window. */
  lemma {:induction false} GuardCounterexample(fmt: Format)
    ensures var now := Clock(2025, 0, 1, 3);
      var db := Db([User(7, "Ann", Some("+70000000000"))], [], []);
      && !InWindow(now)
      && NotifyAsWritten(fmt, now, db, _ => true).sent == [Outgoing(7, NotifyText(fmt, db, 7))]
  {
  }

  /** Inside the window the corrected run and the run as written agree: the
      correction only changes what happens outside it. */
  lemma {:induction false} CorrectionAgreesInWindow(fmt: Format, now: Clock, db: Db, delivered: int -> bool)
    requires InWindow(now)
    ensures NotifyAsWritten(fmt, now, db, delivered) == Notify(fmt, now, db, delivered)
  {
    GuardNeverFires(fmt, now, db, delivered);
  }

  /** `notify` with the guard corrected to the 21 May 2024 17:00–23:00 window. */
  function Notify(fmt: Format, now: Clock, db: Db, delivered: int -> bool): (r: Run)
    ensures r.db.users == db.users && r.db.events == db.events
    ensures !InWindow(now) ==> r == Run(db, [])
  {
    if !InWindow(now) then Run(db, [])
    else
      var o := Pass(fmt, db, db.users, delivered, db.registrations);
      Run(db.(registrations := o.registrations), o.sent)
  }

  /** Within the window, each registration keeps its user and event, and is
      marked notified afterwards exactly when it already was or its user was
      invited in this run; flags only go from false to true. */
  lemma {:induction false} NotifyFlags(fmt: Format, now: Clock, db: Db, delivered: int -> bool)
    requires InWindow(now)
    ensures var rs := db.registrations;
      var r := Notify(fmt, now, db, delivered).db.registrations;
      && |r| == |rs|
      && forall i :: 0 <= i < |rs| ==>
        && r[i].user == rs[i].user && r[i].event == rs[i].event
        && (r[i].notified <==> rs[i].notified || Flips(db, db.users, delivered, rs[i].user))
  {
    PassFlags(fmt, db, db.users, delivered, db.registrations);
  }

  /** A user with a registration already marked notified receives nothing and
      keeps all of their registrations as they were. */
  lemma {:induction false} GatedOutUntouched(fmt: Format, now: Clock, db: Db, delivered: int -> bool, user: int)
    requires !Gate(db.registrations, user)
    ensures var r := Notify(fmt, now, db, delivered);
      && (forall o :: o in r.sent ==> o.to != user)
      && forall i :: 0 <= i < |db.registrations| && db.registrations[i].user == user ==>
        r.db.registrations[i] == db.registrations[i]
  {
    if InWindow(now) {
      PassFlags(fmt, db, db.users, delivered, db.registrations);
      PassSent(fmt, db, db.users, delivered, db.registrations);
    }
  }

  /** A user who passes the gate and whose send succeeds receives the
      invitation, and afterwards all of their registrations are marked
      notified. */
  lemma {:induction false} DeliveredFullyNotified(fmt: Format, now: Clock, db: Db, delivered: int -> bool, user: int)
    requires InWindow(now) && user in UserIds(db.users)
    requires Gate(db.registrations, user) && delivered(user)
    ensures var r := Notify(fmt, now, db, delivered);
      && Outgoing(user, NotifyText(fmt, db, user)) in r.sent
      && forall i :: 0 <= i < |r.db.registrations| && r.db.registrations[i].user == user ==>
        r.db.registrations[i].notified
  {
    PassFlags(fmt, db, db.users, delivered, db.registrations);
    PassSent(fmt, db, db.users, delivered, db.registrations);
  }

  /** A failed send is swallowed: that user gets nothing and keeps their
      flags, while the other users are handled as if the failure had not
      happened. */
  lemma {:induction false} FailureIsolated(fmt: Format, now: Clock, db: Db, delivered: int -> bool, user: int)
    requires !delivered(user)
    ensures var r := Notify(fmt, now, db, delivered);
      var r' := Notify(fmt, now, db, x => x == user || delivered(x));
      && (forall o :: o in r.sent ==> o.to != user)
      && (forall i :: 0 <= i < |db.registrations| && db.registrations[i].user == user ==>
            r.db.registrations[i] == db.registrations[i])
      && (forall o :: o in r'.sent && o.to != user ==> o in r.sent)
      && (forall o :: o in r.sent ==> o in r'.sent)
      && (forall i :: 0 <= i < |db.registrations| && db.registrations[i].user != user ==>
            r.db.registrations[i] == r'.db.registrations[i])
  {
    if InWindow(now) {
      var d' := (x: int) => x == user || delivered(x);
      PassFlags(fmt, db, db.users, delivered, db.registrations);
      PassSent(fmt, db, db.users, delivered, db.registrations);
      PassFlags(fmt, db, db.users, d', db.registrations);
      PassSent(fmt, db, db.users, d', db.registrations);
    }
  }

  /** After a run in which every send succeeded, a second run with every send
      succeeding messages only users without registrations, and messages
      every such user again. */
  lemma {:induction false} SecondRun(fmt: Format, now: Clock, now': Clock, db: Db)
    requires InWindow(now) && InWindow(now')
    ensures var r1 := Notify(fmt, now, db, _ => true);
      var r2 := Notify(fmt, now', r1.db, _ => true);
      && (forall o :: o in r2.sent ==> forall x :: x in db.registrations ==> x.user != o.to)
      && (forall u :: u in db.users && (forall x :: x in db.registrations ==> x.user != u.telegramId) ==>
            exists o :: o in r2.sent && o.to == u.telegramId)
  {
    var all := (_: int) => true;
    var r1 := Notify(fmt, now, db, all);
    var r2 := Notify(fmt, now', r1.db, all);
    PassFlags(fmt, db, db.users, all, db.registrations);
    PassSent(fmt, r1.db, r1.db.users, all, r1.db.registrations);
    forall o | o in r2.sent ensures forall x :: x in db.registrations ==> x.user != o.to {
      forall x | x in db.registrations ensures x.user != o.to {
        var i :| 0 <= i < |db.registrations| && db.registrations[i] == x;
      }
    }
    forall u | u in db.users && (forall x :: x in db.registrations ==> x.user != u.telegramId)
      ensures exists o :: o in r2.sent && o.to == u.telegramId
    {
      assert Gate(r1.db.registrations, u.telegramId) by {
        forall i | 0 <= i < |r1.db.registrations| ensures r1.db.registrations[i].user != u.telegramId {
          assert db.registrations[i] in db.registrations;
        }
      }
      assert u.telegramId in UserIds(r1.db.users);
      assert Outgoing(u.telegramId, NotifyText(fmt, r1.db, u.telegramId)) in r2.sent;
    }
  }

  /** The programme block of the invitation appears exactly for a user with
      registrations; without any, the text is the bare invitation. */
  lemma {:induction false} RecordsBlock(fmt: Format, db: Db, user: int)
    requires Consistent(db)
    ensures (forall x :: x in db.registrations ==> x.user != user)
      <==> NotifyText(fmt, db, user) == Invitation + "\n\n"
    ensures (exists x :: x in db.registrations && x.user == user) ==>
      NotifyText(fmt, db, user) == Invitation + "\n\n" + RecordsTitle + AgendaText(fmt, MyEventList(db, user))
  {
    var evs := MyEventList(db, user);
    MyEventsContents(fmt, db, user);
    var t := NotifyText(fmt, db, user);
    if evs != [] {
      assert |t| > |Invitation + "\n\n"|;
    }
  }

  /** A run keeps the store consistent. */
  lemma {:induction false} NotifyConsistent(fmt: Format, now: Clock, db: Db, delivered: int -> bool)
    requires Consistent(db)
    ensures Consistent(Notify(fmt, now, db, delivered).db)
  {
    if InWindow(now) {
      NotifyFlags(fmt, now, db, delivered);
      var rs := db.registrations;
      var r := Notify(fmt, now, db, delivered).db.registrations;
      forall x | x in r ensures x.user in UserIds(db.users) && x.event in EventIds(db.events) {
        var i :| 0 <= i < |r| && r[i] == x;
        assert rs[i] in rs;
      }
    }
  }
}
