/** The update dispatcher: the order in which the bot's handlers get to see an
    update, the commands first, then the admin menu, then the user menu and
    the onboarding conversation. */
module Bot {
  import opened Options
  import opened Text
  import opened Domain
  import opened Agenda
  import opened Onboarding
  import opened Selection
  import opened Catalog

  /** An incoming update: a text message, a shared contact, or the press of
      an inline button. The sender of a callback is always known. */
  datatype Update =
    | Message(from: Option<int>, text: string)
    | Contact(from: Option<int>, phone: string)
    | Callback(sender: int, data: string)

  /** What the bot is built with: the admin ids, the phone masks, the date
      and time formatting, and the caption of the "my events" button. */
  datatype Config = Config(admins: seq<int>, masks: seq<string -> bool>, fmt: Format, myEventsLabel: string)

  const ShowEventsLabel: string := "Мероприятия"
  const RegisterLabel: string := "Записаться"
  const StatisticsLabel: string := "Статистика"
  const SpreadsheetLabel: string := "Таблицы"

  /** A character that continues a command in Telegram's command entity:
      a Latin letter, a digit, `_`, or the `@` that starts a bot name. */
  predicate NameChar(c: char) {
    'a' <= c <= 'z' || 'A' <= c <= 'Z' || '0' <= c <= '9' || c == '_' || c == '@'
  }

  /** A message carrying the bot command `name`: it starts with `/name`, and
      the command ends there, at the end of the text or at a character that
      cannot continue a command ("/start", "/start hi", "/start,"). */
  function IsCommand(text: string, name: string): (b: bool)
    ensures b ==> StartsWith(text, "/" + name)
    ensures text == "/" + name ==> b
    ensures (exists c :: !NameChar(c) && StartsWith(text, "/" + name + [c])) ==> b
  {
    StartsWith(text, "/" + name) && (|text| == |name| + 1 || !NameChar(text[|name| + 1]))
  }

  /** Command names made of name characters never overlap: a message carries
      at most one of them. */
  lemma {:induction false} CommandNameUnique(text: string, name: string, other: string)
    requires forall i :: 0 <= i < |name| ==> NameChar(name[i]) && name[i] != '@'
    requires forall i :: 0 <= i < |other| ==> NameChar(other[i]) && other[i] != '@'
    requires IsCommand(text, name) && IsCommand(text, other)
    ensures name == other
  {
    var p, q := "/" + name, "/" + other;
    assert text[..|p|] == p && text[..|q|] == q;
    if |name| == |other| {
      assert p == q;
      assert name == p[1..] == q[1..] == other;
    }
  }

  /** The `/id` command: the sender's id as text, or the error message when
      the sender is unknown. */
  function IdCommand(from: Option<int>): (r: Reply)
    ensures r.Send? && r.keyboard == NoKeyboard
    ensures Identified(from) ==> r.msg.Text? && NumberValue(r.msg.body) == Some(from.value)
    ensures !Identified(from) ==> r.msg == Error
  {
    if !Identified(from) then Send(Error, NoKeyboard)
    else
      NumberOfIntToString(from.value);
      Send(Text(IntToString(from.value)), NoKeyboard)
  }

  /** A text message, through the handlers in registration order. */
  function OnMessage(cfg: Config, db: Db, ss: Sessions, from: Option<int>, text: string): (r: Step)
    ensures r.db.events == db.events && r.db.registrations == db.registrations
    ensures IsCommand(text, "id") ==> r == Step(db, ss, IdCommand(from))
    ensures !IsCommand(text, "id") && !IsCommand(text, "start") && !FilterAdmins(cfg.admins, from) ==>
      r.db == db && r.sessions == ss
  {
    if IsCommand(text, "id") then Step(db, ss, IdCommand(from))
    else if IsCommand(text, "start") then Start(cfg.admins, db, ss, from)
    else if IsAdmin(cfg.admins, from) && text == StatisticsLabel then Step(db, ss, Statistics(db))
    else if IsAdmin(cfg.admins, from) && text == SpreadsheetLabel then Step(db, ss, Send(Spreadsheet, NoKeyboard))
    else if !FilterAdmins(cfg.admins, from) then Step(db, ss, NoReply)
    else if text == ShowEventsLabel then Step(db, ss, ShowEvents(cfg.fmt, db))
    else if text == cfg.myEventsLabel then Step(db, ss, MyEvents(cfg.fmt, db, from.value))
    else if text == RegisterLabel then Step(db, ss, RegisterMenu(db))
    else OnText(cfg.masks, db, ss, from.value, text)
  }

  /** One update. Contacts and callbacks only reach their handlers for
      non-admin senders. */
  function Handle(cfg: Config, db: Db, ss: Sessions, u: Update): (r: Step)
    ensures r.db.events == db.events
    ensures |db.registrations| <= |r.db.registrations|
    ensures r.db.registrations[..|db.registrations|] == db.registrations
  {
    match u
    case Message(from, text) => OnMessage(cfg, db, ss, from, text)
    case Contact(from, phone) =>
      if FilterAdmins(cfg.admins, from) then OnContact(db, ss, from.value, phone) else Step(db, ss, NoReply)
    case Callback(sender, data) =>
      if FilterAdmins(cfg.admins, Some(sender)) then OnCallback(db, ss, sender, data) else Step(db, ss, NoReply)
  }

  /** Nothing an admin sends changes the store or any session. */
  lemma {:induction false} AdminsReadOnly(cfg: Config, db: Db, ss: Sessions, u: Update)
    requires match u
      case Message(from, _) => IsAdmin(cfg.admins, from)
      case Contact(from, _) => IsAdmin(cfg.admins, from)
      case Callback(sender, _) => IsAdmin(cfg.admins, Some(sender))
    ensures Handle(cfg, db, ss, u).db == db && Handle(cfg, db, ss, u).sessions == ss
  {
    match u
    case Message(from, text) =>
      if IsCommand(text, "start") {
        assert !FilterAdmins(cfg.admins, from);
      }
    case Contact(_, _) =>
    case Callback(_, _) =>
  }

  /** The user menu buttons only read the store and leave every session as it
      was, whoever presses them and whatever conversation step they are in. */
  lemma {:induction false} MenusReadOnly(cfg: Config, db: Db, ss: Sessions, from: Option<int>, text: string)
    requires !IsCommand(text, "id") && !IsCommand(text, "start")
    requires text in {ShowEventsLabel, RegisterLabel, cfg.myEventsLabel}
    ensures var r := Handle(cfg, db, ss, Message(from, text));
      r.db == db && r.sessions == ss
  {
  }

  /** A user's known ids only grow: no update removes a user row. */
  lemma {:induction false} UsersKept(cfg: Config, db: Db, ss: Sessions, u: Update)
    ensures UserIds(db.users) <= UserIds(Handle(cfg, db, ss, u).db.users)
  {
    var r := Handle(cfg, db, ss, u);
    if r.db.users != db.users {
      match u
      case Message(from, text) =>
        if ActionOf(ss, from.value) == WaitingForName {
          assert forall x :: x in db.users ==> x in r.db.users;
        } else {
          SetPhoneKeepsKeys(db.users, from.value, text);
        }
      case Contact(from, phone) => SetPhoneKeepsKeys(db.users, from.value, phone);
      case Callback(_, _) =>
    }
  }

  /** Every update keeps the store consistent and the sessions in agreement
      with it. */
  lemma {:induction false} HandleKeepsInvariants(cfg: Config, db: Db, ss: Sessions, u: Update)
    requires Consistent(db) && SessionsAgree(db, ss)
    ensures var r := Handle(cfg, db, ss, u);
      Consistent(r.db) && SessionsAgree(r.db, r.sessions)
  {
    match u
    case Message(from, text) =>
      if IsCommand(text, "start") {
        StartKeepsAgreement(cfg.admins, db, ss, from);
      } else if FilterAdmins(cfg.admins, from) {
        OnTextKeepsInvariants(cfg.masks, db, ss, from.value, text);
      }
    case Contact(from, phone) =>
      if FilterAdmins(cfg.admins, from) {
        OnContactKeepsInvariants(db, ss, from.value, phone);
      }
    case Callback(sender, data) =>
      if FilterAdmins(cfg.admins, Some(sender)) {
        CallbackConsistent(db, ss, sender, data);
      }
  }

  /** Invariants hold along any sequence of updates. */
  function HandleAll(cfg: Config, db: Db, ss: Sessions, us: seq<Update>): (r: Step)
    ensures r.db.events == db.events
    decreases |us|
  {
    if |us| == 0 then Step(db, ss, NoReply)
    else
      var s := Handle(cfg, db, ss, us[0]);
      HandleAll(cfg, s.db, s.sessions, us[1..])
  }

  lemma {:induction false} HandleAllKeepsInvariants(cfg: Config, db: Db, ss: Sessions, us: seq<Update>)
    requires Consistent(db) && SessionsAgree(db, ss)
    ensures var r := HandleAll(cfg, db, ss, us);
      Consistent(r.db) && SessionsAgree(r.db, r.sessions)
    decreases |us|
  {
    if |us| > 0 {
      HandleKeepsInvariants(cfg, db, ss, us[0]);
      var s := Handle(cfg, db, ss, us[0]);
      HandleAllKeepsInvariants(cfg, s.db, s.sessions, us[1..]);
    }
  }

  /** A fresh bot, with no users, events or sessions, satisfies the invariants. */
  lemma {:induction false} EmptyStart()
    ensures Consistent(Db([], [], [])) && SessionsAgree(Db([], [], []), map[])
  {
  }
}
