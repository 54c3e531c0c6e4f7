/** The onboarding conversation: `/start` routes a chat by role and by what the
    database knows about it, then free text and a shared contact collect the
    full name and the phone, guided by the chat's session action. */
module Onboarding {
  import opened Options
  import opened Domain

  /** `!id` is false: the sender is known and its id is not 0. */
  predicate Identified(from: Option<int>) {
    from.Some? && from.value != 0
  }

  /** `isAdmin`: a known sender on the admin list. */
  function IsAdmin(admins: seq<int>, from: Option<int>): (b: bool)
    ensures b ==> from.Some? && from.value in admins
    ensures from == Some(0) ==> !b
  {
    Identified(from) && from.value in admins
  }

  /** `filterAdmins`: a known sender not on the admin list. */
  function FilterAdmins(admins: seq<int>, from: Option<int>): (b: bool)
    ensures b ==> from.Some? && from.value !in admins
    ensures b ==> !IsAdmin(admins, from)
    ensures from == Some(0) ==> !b
  {
    Identified(from) && from.value !in admins
  }

  /** The two guards split the known senders between them and both refuse an
      unknown sender (no id, or id 0). */
  lemma {:induction false} AdminGuardsSplit(admins: seq<int>, from: Option<int>)
    ensures Identified(from) ==> (IsAdmin(admins, from) <==> !FilterAdmins(admins, from))
    ensures !Identified(from) ==> !IsAdmin(admins, from) && !FilterAdmins(admins, from)
  {
  }

  /** Whether at least one of the phone masks accepts the text. */
  predicate MatchesSomeMask(masks: seq<string -> bool>, text: string) {
    exists i :: 0 <= i < |masks| && masks[i](text)
  }

  /** Only the chat's own session entry may differ. */
  ghost predicate OthersKept(ss: Sessions, ss': Sessions, id: int) {
    forall x :: x != id ==> ActionOf(ss', x) == ActionOf(ss, x)
  }

  /** The `/start` command. An unknown sender is an error; an admin gets the
      admin menu; otherwise the chat is asked for its name (no user row), its
      phone (no phone yet) or is let in. */
  function Start(admins: seq<int>, db: Db, ss: Sessions, from: Option<int>): (r: Step)
    ensures r.db == db
    ensures !FilterAdmins(admins, from) ==> r.sessions == ss
    ensures FilterAdmins(admins, from) ==> OthersKept(ss, r.sessions, from.value)
  {
    if !Identified(from) then Step(db, ss, Send(Error, NoKeyboard))
    else if IsAdmin(admins, from) then Step(db, ss, Send(MenuAccess, AdminsMenu))
    else
      var id := from.value;
      match FindUser(db.users, id)
      case None => Step(db, ss[id := WaitingForName], Send(NeedName, NoKeyboard))
      case Some(u) =>
        if !HasPhone(u) then Step(db, ss[id := WaitingForPhone], Send(NeedPhone, SendContactMenu))
        else Step(db, ss, Send(MenuAccess, BaseMenu))
  }

  /** An admin reaches the admin menu whatever the database and session hold,
      and nothing changes. */
  lemma {:induction false} StartAdmin(admins: seq<int>, db: Db, ss: Sessions, id: int)
    requires id != 0 && id in admins
    ensures Start(admins, db, ss, Some(id)) == Step(db, ss, Send(MenuAccess, AdminsMenu))
  {
  }

  /** An unknown chat is asked for its name; no user row is created. */
  lemma {:induction false} StartUnknown(admins: seq<int>, db: Db, ss: Sessions, id: int)
    requires id != 0 && id !in admins && id !in UserIds(db.users)
    ensures var r := Start(admins, db, ss, Some(id));
      r.db == db && ActionOf(r.sessions, id) == WaitingForName && r.reply == Send(NeedName, NoKeyboard)
  {
  }

  /** A user without a phone is asked for it. */
  lemma {:induction false} StartWithoutPhone(admins: seq<int>, db: Db, ss: Sessions, u: User)
    requires u.telegramId != 0 && u.telegramId !in admins
    requires FindUser(db.users, u.telegramId) == Some(u) && !HasPhone(u)
    ensures var r := Start(admins, db, ss, Some(u.telegramId));
      r.db == db && ActionOf(r.sessions, u.telegramId) == WaitingForPhone
      && r.reply == Send(NeedPhone, SendContactMenu)
  {
  }

  /** A user with a phone is let in and nothing changes. */
  lemma {:induction false} StartReady(admins: seq<int>, db: Db, ss: Sessions, u: User)
    requires u.telegramId != 0 && u.telegramId !in admins
    requires FindUser(db.users, u.telegramId) == Some(u) && HasPhone(u)
    ensures Start(admins, db, ss, Some(u.telegramId)) == Step(db, ss, Send(MenuAccess, BaseMenu))
  {
  }

  /** Repeating `/start` changes nothing more and gives the same reply. */
  lemma {:induction false} StartIdempotent(admins: seq<int>, db: Db, ss: Sessions, from: Option<int>)
    ensures var r := Start(admins, db, ss, from);
      Start(admins, r.db, r.sessions, from) == r
  {
  }

  /** Free text in a private chat, by session action: while waiting for the
      name, the text becomes the new user's full name; while waiting for the
      phone, text matching a phone mask becomes the phone; otherwise nothing. */
  function OnText(masks: seq<string -> bool>, db: Db, ss: Sessions, id: int, text: string): (r: Step)
    ensures r.db.events == db.events && r.db.registrations == db.registrations
    ensures OthersKept(ss, r.sessions, id)
    ensures r.reply.Send?
      || (r.reply == NoReply && r.db == db && r.sessions == ss && ActionOf(ss, id) == Idle)
  {
    match ActionOf(ss, id)
    case WaitingForName =>
      // `telegramId` is unique, so creating a second row for the chat throws.
      if id in UserIds(db.users) then Step(db, ss, Send(Error, NoKeyboard))
      else Step(db.(users := db.users + [User(id, text, None)]), ss[id := WaitingForPhone], Send(NeedPhone, SendContactMenu))
    case Idle => Step(db, ss, NoReply)
    case WaitingForPhone =>
      if id !in UserIds(db.users) then Step(db, ss, Send(UseStart, NoKeyboard))
      else if !MatchesSomeMask(masks, text) then Step(db, ss, Send(InvalidPhone, NoKeyboard))
      else Step(db.(users := SetPhone(db.users, id, text)), ss[id := Idle], Send(MenuAccess, BaseMenu))
  }

  /** The name step creates exactly one user, whose full name is the text, and
      moves the chat on to the phone. */
  lemma {:induction false} NameStep(masks: seq<string -> bool>, db: Db, ss: Sessions, id: int, text: string)
    requires ActionOf(ss, id) == WaitingForName && id !in UserIds(db.users)
    ensures var r := OnText(masks, db, ss, id, text);
      && r.db.users == db.users + [User(id, text, None)]
      && ActionOf(r.sessions, id) == WaitingForPhone
      && r.reply == Send(NeedPhone, SendContactMenu)
  {
  }

  /** A text that matches no phone mask changes nothing and is answered with
      the invalid-phone notice. */
  lemma {:induction false} PhoneRejected(masks: seq<string -> bool>, db: Db, ss: Sessions, id: int, text: string)
    requires ActionOf(ss, id) == WaitingForPhone && id in UserIds(db.users)
    requires !MatchesSomeMask(masks, text)
    ensures OnText(masks, db, ss, id, text) == Step(db, ss, Send(InvalidPhone, NoKeyboard))
  {
  }

  /** A text that matches a phone mask becomes that user's phone, and only
      that user's, and the session is cleared. */
  lemma {:induction false} PhoneAccepted(masks: seq<string -> bool>, db: Db, ss: Sessions, id: int, text: string)
    requires ActionOf(ss, id) == WaitingForPhone && id in UserIds(db.users)
    requires MatchesSomeMask(masks, text)
    ensures var r := OnText(masks, db, ss, id, text);
      && FindUser(r.db.users, id).Some? && FindUser(r.db.users, id).value.phone == Some(text)
      && (forall x :: x != id ==> FindUser(r.db.users, x) == FindUser(db.users, x))
      && ActionOf(r.sessions, id) == Idle
      && r.reply == Send(MenuAccess, BaseMenu)
  {
    SetPhoneFound(db.users, id, text);
  }

  /** Without a user row the phone step only points back to `/start`. */
  lemma {:induction false} PhoneWithoutUser(masks: seq<string -> bool>, db: Db, ss: Sessions, id: int, text: string)
    requires ActionOf(ss, id) == WaitingForPhone && id !in UserIds(db.users)
    ensures OnText(masks, db, ss, id, text) == Step(db, ss, Send(UseStart, NoKeyboard))
  {
  }

  /** A shared contact: ignored unless the chat waits for its phone; then the
      contact's number becomes the phone without any mask check. */
  function OnContact(db: Db, ss: Sessions, id: int, phone: string): (r: Step)
    ensures r.db.events == db.events && r.db.registrations == db.registrations
    ensures OthersKept(ss, r.sessions, id)
    ensures ActionOf(ss, id) != WaitingForPhone ==> r == Step(db, ss, NoReply)
  {
    if ActionOf(ss, id) != WaitingForPhone then Step(db, ss, NoReply)
    else if id !in UserIds(db.users) then Step(db, ss, Send(UseStart, NoKeyboard))
    else Step(db.(users := SetPhone(db.users, id, phone)), ss[id := Idle], Send(MenuAccess, BaseMenu))
  }

  /** An accepted contact sets the phone, whatever its shape, and clears the session. */
  lemma {:induction false} ContactAccepted(db: Db, ss: Sessions, id: int, phone: string)
    requires ActionOf(ss, id) == WaitingForPhone && id in UserIds(db.users)
    ensures var r := OnContact(db, ss, id, phone);
      && FindUser(r.db.users, id).Some? && FindUser(r.db.users, id).value.phone == Some(phone)
      && (forall x :: x != id ==> FindUser(r.db.users, x) == FindUser(db.users, x))
      && ActionOf(r.sessions, id) == Idle
  {
    SetPhoneFound(db.users, id, phone);
  }

  /** Looking a user up after a phone update. */
  lemma {:induction false} SetPhoneFound(us: seq<User>, id: int, phone: string)
    ensures var f := FindUser(SetPhone(us, id, phone), id);
      FindUser(us, id).Some? ==> f.Some? && f.value == FindUser(us, id).value.(phone := Some(phone))
    ensures forall x :: x != id ==> FindUser(SetPhone(us, id, phone), x) == FindUser(us, x)
    decreases |us|
  {
    if |us| > 0 {
      SetPhoneFound(us[1..], id, phone);
      assert SetPhone(us, id, phone)[1..] == SetPhone(us[1..], id, phone);
    }
  }

  /** Appending a user with a fresh key keeps every invariant of the store. */
  lemma {:induction false} AddUserConsistent(db: Db, u: User)
    requires Consistent(db) && u.telegramId !in UserIds(db.users)
    ensures Consistent(db.(users := db.users + [u]))
  {
    var us := db.users + [u];
    assert UserIds(us) == UserIds(db.users) + {u.telegramId};
  }

  /** A phone update keeps every invariant of the store. */
  lemma {:induction false} SetPhoneConsistent(db: Db, id: int, phone: string)
    requires Consistent(db)
    ensures Consistent(db.(users := SetPhone(db.users, id, phone)))
  {
    SetPhoneKeepsKeys(db.users, id, phone);
  }

  /** `/start` keeps the sessions in agreement with the store. */
  lemma {:induction false} StartKeepsAgreement(admins: seq<int>, db: Db, ss: Sessions, from: Option<int>)
    requires DistinctUsers(db.users) && SessionsAgree(db, ss)
    ensures SessionsAgree(db, Start(admins, db, ss, from).sessions)
  {
    if FilterAdmins(admins, from) && FindUser(db.users, from.value).Some? {
      var u := FindUser(db.users, from.value).value;
      forall i | 0 <= i < |db.users| && db.users[i].telegramId == from.value
        ensures db.users[i] == u
      {
        var j :| 0 <= j < |db.users| && db.users[j] == u;
      }
    }
  }

  /** Free text keeps the store consistent and the sessions in agreement with it. */
  lemma {:induction false} OnTextKeepsInvariants(masks: seq<string -> bool>, db: Db, ss: Sessions, id: int, text: string)
    requires Consistent(db) && SessionsAgree(db, ss)
    ensures var r := OnText(masks, db, ss, id, text);
      Consistent(r.db) && SessionsAgree(r.db, r.sessions)
  {
    var r := OnText(masks, db, ss, id, text);
    match ActionOf(ss, id)
    case WaitingForName =>
      if id !in UserIds(db.users) {
        var u := User(id, text, None);
        AddUserConsistent(db, u);
        assert UserIds(r.db.users) == UserIds(db.users) + {id};
      }
    case Idle =>
    case WaitingForPhone =>
      if id in UserIds(db.users) && MatchesSomeMask(masks, text) {
        SetPhoneConsistent(db, id, text);
        SetPhoneKeepsKeys(db.users, id, text);
      }
  }

  /** A shared contact keeps the store consistent and the sessions in agreement with it. */
  lemma {:induction false} OnContactKeepsInvariants(db: Db, ss: Sessions, id: int, phone: string)
    requires Consistent(db) && SessionsAgree(db, ss)
    ensures var r := OnContact(db, ss, id, phone);
      Consistent(r.db) && SessionsAgree(r.db, r.sessions)
  {
    if ActionOf(ss, id) == WaitingForPhone && id in UserIds(db.users) {
      SetPhoneConsistent(db, id, phone);
      SetPhoneKeepsKeys(db.users, id, phone);
    }
  }

  /** The whole onboarding of a new chat: `/start`, the name, a non-empty
      phone that a mask accepts, and `/start` again lets the chat into the
      user menu with a user row holding the name and the phone. (An empty
      phone is stored but does not count as given, so `/start` would ask for
      it again.) */
  lemma {:induction false} OnboardingScenario(admins: seq<int>, masks: seq<string -> bool>, db: Db, ss: Sessions,
                           id: int, name: string, phone: string)
    requires id != 0 && id !in admins && id !in UserIds(db.users)
    requires MatchesSomeMask(masks, phone) && phone != ""
    ensures var s1 := Start(admins, db, ss, Some(id));
      var s2 := OnText(masks, s1.db, s1.sessions, id, name);
      var s3 := OnText(masks, s2.db, s2.sessions, id, phone);
      var s4 := Start(admins, s3.db, s3.sessions, Some(id));
      && s2.reply == Send(NeedPhone, SendContactMenu)
      && s3.reply == Send(MenuAccess, BaseMenu)
      && FindUser(s3.db.users, id) == Some(User(id, name, Some(phone)))
      && s4.reply == Send(MenuAccess, BaseMenu)
  {
    var s1 := Start(admins, db, ss, Some(id));
    StartUnknown(admins, db, ss, id);
    NameStep(masks, s1.db, s1.sessions, id, name);
    var s2 := OnText(masks, s1.db, s1.sessions, id, name);
    var u := User(id, name, None);
    FindUserAppended(db.users, u);
    assert s2.db.users == db.users + [u];
    PhoneAccepted(masks, s2.db, s2.sessions, id, phone);
    var s3 := OnText(masks, s2.db, s2.sessions, id, phone);
    SetPhoneFound(s2.db.users, id, phone);
    assert FindUser(s3.db.users, id) == Some(User(id, name, Some(phone)));
    StartReady(admins, s3.db, s3.sessions, User(id, name, Some(phone)));
  }

  /** The user appended under a fresh key is found under that key. */
  lemma {:induction false} FindUserAppended(us: seq<User>, u: User)
    requires u.telegramId !in UserIds(us)
    ensures FindUser(us + [u], u.telegramId) == Some(u)
    decreases |us|
  {
    if |us| > 0 {
      assert (us + [u])[1..] == us[1..] + [u];
      assert u.telegramId !in UserIds(us[1..]) by {
        forall x | x in us[1..] ensures x.telegramId != u.telegramId {
          assert x in us;
        }
      }
      FindUserAppended(us[1..], u);
    }
  }
}
