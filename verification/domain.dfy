/** The records the bot keeps in its database, the per-chat session, and the
    replies it sends back, with the integrity conditions the handlers keep. */
module Domain {
  import opened Options

  /** Milliseconds in a UTC day: the calendar date of an instant in UTC is
      fixed by its day number `date / MsPerDay`. */
  const MsPerDay: int := 86_400_000

  /** An event row; `date` is its start in milliseconds since the Unix epoch. */
  datatype Event = Event(id: int, name: string, date: int, description: string)

  /** A user row, keyed by the Telegram id; `phone` is `None` until collected. */
  datatype User = User(telegramId: int, fio: string, phone: Option<string>)

  /** A row of the user-event join table. */
  datatype Registration = Registration(user: int, event: int, notified: bool)

  /** The database: rows in storage order. */
  datatype Db = Db(users: seq<User>, events: seq<Event>, registrations: seq<Registration>)

  /** What a chat's session waits for; `Idle` is the unset `action`. */
  datatype Action = Idle | WaitingForName | WaitingForPhone

  type Sessions = map<int, Action>

  /** A chat without a session entry starts from the empty session. */
  function ActionOf(ss: Sessions, id: int): Action {
    if id in ss then ss[id] else Idle
  }

  /** The message constants and composed texts the bot answers with. */
  datatype Msg =
    | MenuAccess | NeedName | NeedPhone | InvalidPhone | UseStart | Error
    | AlreadyRegistered | FindRegisteredEvents | SelectEvents | NotRegistered
    | Spreadsheet | Text(body: string)

  datatype Button = Button(caption: string, data: string)

  datatype Keyboard = NoKeyboard | AdminsMenu | BaseMenu | SendContactMenu | Inline(buttons: seq<Button>)

  /** A chat message, a callback-query answer, or silence. */
  datatype Reply = NoReply | Send(msg: Msg, keyboard: Keyboard) | Answer(msg: Msg)

  /** The outcome of handling one update. */
  datatype Step = Step(db: Db, sessions: Sessions, reply: Reply)

  function UserIds(us: seq<User>): set<int> {
    set u | u in us :: u.telegramId
  }

  function EventIds(evs: seq<Event>): set<int> {
    set e | e in evs :: e.id
  }

  /** The user row with the given Telegram id, if any. */
  function FindUser(us: seq<User>, id: int): (r: Option<User>)
    ensures r.Some? <==> id in UserIds(us)
    ensures r.Some? ==> r.value in us && r.value.telegramId == id
  {
    if |us| == 0 then None
    else if us[0].telegramId == id then Some(us[0])
    else
      assert UserIds(us) == {us[0].telegramId} + UserIds(us[1..]) by {
        assert us == [us[0]] + us[1..];
      }
      FindUser(us[1..], id)
  }

  /** The event row with the given id, if any. */
  function FindEvent(evs: seq<Event>, id: int): (r: Option<Event>)
    ensures r.Some? <==> id in EventIds(evs)
    ensures r.Some? ==> r.value in evs && r.value.id == id
  {
    if |evs| == 0 then None
    else if evs[0].id == id then Some(evs[0])
    else
      assert EventIds(evs) == {evs[0].id} + EventIds(evs[1..]) by {
        assert evs == [evs[0]] + evs[1..];
      }
      FindEvent(evs[1..], id)
  }

  /** The phone counts as given only when it is a non-empty string (`!user.phone`). */
  predicate HasPhone(u: User) {
    u.phone.Some? && u.phone.value != ""
  }

  /** Storing a phone number on the row of the user with Telegram id `id`. */
  function SetPhone(us: seq<User>, id: int, phone: string): (r: seq<User>)
    ensures |r| == |us|
    ensures forall i :: 0 <= i < |us| ==> r[i].telegramId == us[i].telegramId && r[i].fio == us[i].fio
    ensures forall i :: 0 <= i < |us| ==> r[i].phone == if us[i].telegramId == id then Some(phone) else us[i].phone
  {
    seq(|us|, i requires 0 <= i < |us| => if us[i].telegramId == id then us[i].(phone := Some(phone)) else us[i])
  }

  predicate DistinctUsers(us: seq<User>) {
    forall i, j :: 0 <= i < j < |us| ==> us[i].telegramId != us[j].telegramId
  }

  predicate DistinctEvents(evs: seq<Event>) {
    forall i, j :: 0 <= i < j < |evs| ==> evs[i].id != evs[j].id
  }

  /** Every registration points at an existing user and an existing event. */
  predicate Linked(db: Db) {
    forall r :: r in db.registrations ==> r.user in UserIds(db.users) && r.event in EventIds(db.events)
  }

  /** At most one registration per (user, event) pair. */
  predicate UniquePairs(rs: seq<Registration>) {
    forall i, j :: 0 <= i < j < |rs| ==> rs[i].user != rs[j].user || rs[i].event != rs[j].event
  }

  /** Whether the user is registered for the event. */
  predicate Registered(rs: seq<Registration>, user: int, event: int) {
    exists i :: 0 <= i < |rs| && rs[i].user == user && rs[i].event == event
  }

  predicate Consistent(db: Db) {
    DistinctUsers(db.users) && DistinctEvents(db.events) && Linked(db) && UniquePairs(db.registrations)
  }

  /** What a user row allows its chat's session to wait for: never the name
      (the row exists), the phone only while none is recorded, and nothing
      once a phone has been recorded. */
  predicate UserAgrees(u: User, a: Action) {
    match a
    case WaitingForName => false
    case WaitingForPhone => !HasPhone(u)
    case Idle => u.phone.Some?
  }

  /** The onboarding invariant: a chat waits for a phone only when its user row
      exists, and every user row agrees with its chat's session. */
  predicate SessionsAgree(db: Db, ss: Sessions) {
    && (forall id :: id in ss && ss[id] == WaitingForPhone ==> id in UserIds(db.users))
    && (forall i :: 0 <= i < |db.users| ==> UserAgrees(db.users[i], ActionOf(ss, db.users[i].telegramId)))
  }

  /** Replacing a user's phone keeps the set of users and their keys. */
  lemma {:induction false} SetPhoneKeepsKeys(us: seq<User>, id: int, phone: string)
    ensures UserIds(SetPhone(us, id, phone)) == UserIds(us)
    ensures DistinctUsers(us) ==> DistinctUsers(SetPhone(us, id, phone))
  {
    var r := SetPhone(us, id, phone);
    forall x | x in UserIds(r) ensures x in UserIds(us) {
      var u :| u in r && u.telegramId == x;
      var i :| 0 <= i < |r| && r[i] == u;
      assert us[i] in us;
    }
    forall x | x in UserIds(us) ensures x in UserIds(r) {
      var u :| u in us && u.telegramId == x;
      var i :| 0 <= i < |us| && us[i] == u;
      assert r[i] in r;
    }
  }
}
