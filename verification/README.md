# events-bot in Dafny

A Dafny model of the core of *events-bot*. This Telegram bot signs people up
for the events of a design festival. The model covers two parts:

- the update handlers of `TelegramBot` (`src/telegram/bot.ts`);
- the seed script that loads the event catalogue (`src/insert-events.ts`).

Each handler is a pure transition. It takes the store, the sessions and the
incoming update, and returns the new store, the new sessions and the reply.

- The **store** (`Domain.Db`) holds users, events and registrations. Users are
  keyed by Telegram id and carry a full name and an optional phone. Events have
  an id, name, start instant (milliseconds since the epoch) and description.
  A registration holds a user, an event and the "notified" flag.
- The **sessions** map each chat to its pending onboarding step.
- A **reply** is an abstract message token plus a keyboard token. It can also
  be the answer to a callback query, or no reply at all.

The modules follow the program's structure:

- `Text`: the string operations the handlers use. This covers rendering
  integers, `Number()` on decimal text, `trim`, `startsWith`, and the last
  `:`-separated piece of a string.
- `Domain`: the entities, the store lookups, and the store invariants
  (`Consistent`: distinct ids, registrations that point at existing rows, and
  no pair registered twice).
- `Agenda`: the date ordering and the group-by-day fold. `SHOW_EVENTS`,
  `MY_EVENTS` and `notify` all share it. The ISO date key of an event is its
  UTC day number, `date / 86400000`, because the ISO date string and the day
  number determine each other. The localised day title and clock time are a
  parameter (`Format`).
- `Onboarding`: `/start`, the free-text handler and the contact handler,
  behind `isAdmin` and `filterAdmins`.
- `Selection`: the "register" menu, the `SELECTED_EVENT:<id>` token, and the
  callback that records a registration.
- `Catalog`: the programme, "my events" and the admin statistics.
- `Notify`: the invitation broadcast and its time guard.
- `Bot`: the dispatcher. Handlers get an update in the order they are
  registered: `/id`, `/start`, the admin buttons, then the user buttons and the
  onboarding conversation. An error thrown inside a handler (not a Telegram
  error) makes the bot reply with the error message, so the model gives that
  reply (`bot.ts:49-61`).
- `Seed`: the optional wipe, then the upsert loop.

The model follows the code in two places where the project's own description
says something else:

- `notify` also invites users with no registrations. Their registration list
  is empty, so no registration blocks them.
- An empty catalogue makes "show events" send an empty text. Telegram refuses
  that, so no message reaches the chat (`ShowEvents` gives `NoReply`).

Outside influences are parameters:

- the admin list, the phone masks (predicates on strings), the date and time
  formatting, and the caption of the "my events" button;
- the clock that `notify` reads (`Clock`, local time, month counted from 0);
- whether a send succeeds (`delivered`).

## Model

| member | source | states |
|---|---|---|
| Text.NatToString | src/telegram/bot.ts:142 | The decimal rendering of a natural number is non-empty and all digits. It has no leading zero unless the number is 0. |
| Text.NumberOfIntToString | src/telegram/bot.ts:350-357 | Reading a rendered integer back with `Number()` gives the same integer. |
| Text.NumberValue | src/telegram/bot.ts:350-357 | `Number()` gives a number exactly for digits with an optional leading sign. The value is never positive after a minus sign and never negative otherwise. Every other text is not a number. |
| Text.Trim | src/telegram/bot.ts:350 | The trimmed text is a slice of the input with only white space before and after it. It begins and ends with a non-space, and it is empty exactly when the input is all white space. |
| Text.LastSegment | src/telegram/bot.ts:350 | The last piece of a split is a suffix of the input and does not contain the separator. |
| Text.LastSegmentAfter | src/telegram/bot.ts:350 | When the separator does not occur after a prefix and the separator, the last piece is exactly the text after them. |
| Text.TrimIntToString | src/telegram/bot.ts:350 | Trimming a rendered integer leaves it unchanged. |
| Domain.FindUser | src/telegram/bot.ts:105-109 | A lookup by Telegram id finds a row exactly when some user has that id, and the row it finds has that id. |
| Domain.FindEvent | src/telegram/bot.ts:365-370 | A lookup by event id finds a row exactly when some event has that id, and the row it finds has that id. |
| Domain.SetPhone | src/telegram/bot.ts:412-415 | Storing a phone changes only the phone, and only on the rows with that Telegram id. |
| Domain.SetPhoneKeepsKeys | src/telegram/bot.ts:412-415 | Storing a phone keeps the set of user ids. |
| Agenda.SortByDate | src/telegram/bot.ts:190-194 | The date-ordered query returns a permutation of the events that is sorted by start date. |
| Agenda.AddToGroups | src/telegram/bot.ts:197-201 | One fold step: an event joins the bucket of its day and changes no other bucket. If its day has no bucket yet, it opens a new one at the end. |
| Agenda.GroupByDay | src/telegram/bot.ts:196-208 | The grouping never gives two buckets for the same day. |
| Agenda.GroupByDayGroups | src/telegram/bot.ts:196-208 | For any input, the grouping gives distinct day keys. The keys are exactly the days of the input. Each bucket holds exactly the events of its day, in input order. Buckets come in order of the first occurrence of their day. |
| Agenda.GroupByDayKeys | src/telegram/bot.ts:196-208 | The bucket keys are exactly the days of the input events. |
| Agenda.SortedByDateIsDaySorted | src/telegram/bot.ts:190-197 | Events ordered by instant are also ordered by UTC day. |
| Agenda.SortedGroupsIncrease | src/telegram/bot.ts:196-208 | On day-sorted input the bucket days strictly increase. |
| Agenda.FlattenSorted | src/telegram/bot.ts:196-208 | On day-sorted input (so on date-ordered input), reading the buckets in key order gives back the input sequence. |
| Agenda.AgendaText | src/telegram/bot.ts:196-237 | The rendered agenda is empty exactly when there are no events. |
| Agenda.AgendaOfSorted | src/telegram/bot.ts:210-237 | On day-sorted input, the grouped rendering equals a single pass over the events. That pass writes a day heading before each event whose day differs from the previous event's day, then the event. |
| Agenda.TimelineOfThree | src/telegram/bot.ts:210-234 | Two events on one day and a third on another day render as one heading, two event texts, a second heading and the third event text. |
| Agenda.TwoDayExample | src/telegram/bot.ts:210-231 | Two events on 21 May 2024 and one on 22 May 2024 render as: the bold title of the first day; each event as clock time, " - ", name and a blank line; the second event's description on a line of its own; then the bold title of the second day and the third event. |
| Onboarding.IsAdmin | src/telegram/bot.ts:460-464 | `isAdmin` holds only for a sender whose id is on the admin list, and never for id 0. |
| Onboarding.FilterAdmins | src/telegram/bot.ts:456-459 | `filterAdmins` holds only for a sender whose id is not on the admin list. It never holds together with `isAdmin`, and never for id 0. |
| Onboarding.AdminGuardsSplit | src/telegram/bot.ts:456-464 | For a present, non-zero id, `isAdmin` and `filterAdmins` are complements. For a missing or zero id, both are false. |
| Onboarding.Start | src/telegram/bot.ts:95-126 | `/start` never writes the store. It leaves every session unchanged for an admin or an unknown sender, and otherwise changes only the sender's own session. |
| Onboarding.StartAdmin | src/telegram/bot.ts:99-103 | An admin gets the admin menu, and neither the store nor any session changes. |
| Onboarding.StartUnknown | src/telegram/bot.ts:111-115 | An unknown chat is asked for its name and its session waits for the name. No user row is created. |
| Onboarding.StartWithoutPhone | src/telegram/bot.ts:117-123 | A user without a phone is asked for it with the contact keyboard, and the session waits for the phone. |
| Onboarding.StartReady | src/telegram/bot.ts:125 | A user with a phone is let into the user menu, and nothing changes. |
| Onboarding.StartIdempotent | src/telegram/bot.ts:95-126 | Sending `/start` a second time gives the same reply and changes nothing more. |
| Onboarding.OnText | src/telegram/bot.ts:375-421 | Free text never touches events, registrations or other chats' sessions. It always gets a reply, except when no step is pending: then nothing changes and there is no reply. |
| Onboarding.NameStep | src/telegram/bot.ts:380-394 | While the session waits for the name, the text creates exactly one user whose full name is the text, and the session moves on to the phone. |
| Onboarding.PhoneRejected | src/telegram/bot.ts:408-410 | A text that matches no mask changes nothing and gets the invalid-phone reply. |
| Onboarding.PhoneAccepted | src/telegram/bot.ts:412-419 | A text that matches a mask becomes that user's phone and no one else's. The session is cleared. |
| Onboarding.PhoneWithoutUser | src/telegram/bot.ts:404-406 | With no user row, the phone step replies with the "use /start" notice and changes nothing. |
| Onboarding.OnContact | src/telegram/bot.ts:423-453 | A contact is ignored unless the session waits for the phone. It never touches events, registrations or other chats' sessions. |
| Onboarding.ContactAccepted | src/telegram/bot.ts:446-452 | An accepted contact sets the phone without any mask check and clears the session. |
| Onboarding.AddUserConsistent | src/telegram/bot.ts:381-386 | Adding a user under a fresh Telegram id keeps the store consistent. |
| Onboarding.SetPhoneConsistent | src/telegram/bot.ts:412-415 | Storing a phone keeps the store consistent. |
| Onboarding.StartKeepsAgreement | src/telegram/bot.ts:95-126 | `/start` keeps the sessions in agreement with the user rows. |
| Onboarding.OnTextKeepsInvariants | src/telegram/bot.ts:375-421 | Free text keeps the store consistent and the sessions in agreement with it. |
| Onboarding.OnContactKeepsInvariants | src/telegram/bot.ts:423-453 | A contact keeps the store consistent and the sessions in agreement with it. |
| Onboarding.OnboardingScenario | src/telegram/bot.ts:95-419 | `/start`, a name, an accepted non-empty phone and `/start` again take a new chat into the user menu. The stored user holds that name and phone. |
| Selection.Token | src/telegram/bot.ts:331 | Every button token starts with the selection marker. |
| Selection.EventIdText | src/telegram/bot.ts:350 | The id text of a callback has no colon and no white space at either end. When the data holds a colon, the id text is shorter than the data. |
| Selection.RegisterMenu | src/telegram/bot.ts:320-335 | The register menu has exactly one button per event. |
| Selection.OnCallback | src/telegram/bot.ts:337-373 | A callback never touches users, events or sessions. A write happens only on the success answer, and it appends exactly one registration. That registration is for the pressing user and an existing event, is not yet notified, and its pair was not registered before. |
| Selection.TokenRoundTrip | src/telegram/bot.ts:331-357 | The token built for an id, parsed back through the trimmed last `:`-piece and `Number()`, gives that id. |
| Selection.MenuButton | src/telegram/bot.ts:328-332 | The i-th button is the i-th event in date order. It shows that event's name, and its token selects that event's id. |
| Selection.MenuCovers | src/telegram/bot.ts:330-332 | Every event of the catalogue has a button that selects it. |
| Selection.RejectsForeignData | src/telegram/bot.ts:340-341 | Data without the marker gets the error message, and nothing is written. |
| Selection.EmptyIdRejected | src/telegram/bot.ts:350-352 | An empty trailing piece is answered with the error message, and nothing is written. |
| Selection.SelectRegisters | src/telegram/bot.ts:365-372 | When the pair is not registered yet, pressing an event's button registers the user for it. Only the user row is required, not the phone. |
| Selection.SelectExisting | src/telegram/bot.ts:354-363 | An existing registration is reported, and nothing is written. |
| Selection.CallbackIdempotent | src/telegram/bot.ts:354-372 | Repeating a callback writes nothing more. |
| Selection.AppendKeepsUnique | src/telegram/bot.ts:365-370 | Appending an unregistered pair keeps all pairs unique. |
| Selection.CallbackConsistent | src/telegram/bot.ts:337-373 | A callback keeps the store consistent. |
| Selection.CallbackTwiceUnique | src/telegram/bot.ts:354-372 | Pressing the same button twice never registers a pair twice. |
| Catalog.ShowEvents | src/telegram/bot.ts:187-243 | The programme gets no reply exactly when the catalogue is empty. Otherwise the bot sends it as a text with the user menu; Telegram's HTML parsing and length limit are not part of the model. |
| Catalog.ShowEventsTimeline | src/telegram/bot.ts:189-243 | The programme message lists the events in date order, with a day heading before the first event of each day. No event is lost, reordered or shown twice. |
| Catalog.RegisteredEvents | src/telegram/bot.ts:250-264 | A user's events all come from the catalogue, at most one per registration. |
| Catalog.RegisteredEventsMembers | src/telegram/bot.ts:250-258 | With distinct event ids, an event is among the user's events exactly when it is in the catalogue and the user is registered for it. |
| Catalog.RegisteredEventsEmpty | src/telegram/bot.ts:266-268 | When registrations point at existing events, a user has events exactly when the user has registrations. |
| Catalog.MyEvents | src/telegram/bot.ts:245-318 | "My events" gives the fixed notice exactly when the user's list is empty. Otherwise it gives a non-empty text with the user menu. |
| Catalog.MyEventsContents | src/telegram/bot.ts:250-268 | In a consistent store the notice appears exactly for a user without registrations. The message lists precisely the events the user is registered for. |
| Catalog.CountFor | src/telegram/bot.ts:136-142 | An event's count is the number of positions in the registration list that point at the event. |
| Catalog.StatLines | src/telegram/bot.ts:141-144 | The statistics lines are empty exactly when there is no event. |
| Catalog.Statistics | src/telegram/bot.ts:141-146 | The statistics message starts with its header and comes with the admin menu. |
| Catalog.StatisticsLines | src/telegram/bot.ts:141-146 | The statistics message is the header followed by one line per event, in the order the store returns them; the model takes that to be storage order. The i-th line reads "i) name: count\n\n", with i counted from 1 and the count being the number of registrations that point at that event. |
| Catalog.CountsAddUp | src/telegram/bot.ts:141-142 | In a consistent store the counts add up to the number of registrations: each registration is counted once. |
| Catalog.StatisticsExample | src/telegram/bot.ts:141-144 | Two events with three and zero registrations give "Статистика:\n1) A: 3\n\n2) B: 0\n\n". |
| Notify.NotifyText | src/telegram/bot.ts:491-537 | The message always starts with the invitation and a blank line. It is exactly that when the user has no registered events. |
| Notify.Pass | src/telegram/bot.ts:489-550 | The loop keeps the number of registrations and sends at most one message per visited user. |
| Notify.PassFlags | src/telegram/bot.ts:489-550 | After the loop, a registration is flagged exactly when it already was, or when its user was visited, passed the gate and had a successful send. Nothing else about the registration changes. |
| Notify.PassSent | src/telegram/bot.ts:489-537 | A message goes out exactly to each visited user who passes the gate and whose send succeeds. It carries that user's invitation text. |
| Notify.PassSendsOnce | src/telegram/bot.ts:489-550 | Over distinct users, no chat receives two messages in one run. |
| Notify.NotifyAsWritten | src/telegram/bot.ts:466-551 | The run as written keeps users and events. |
| Notify.GuardNeverFires | src/telegram/bot.ts:470-472 | The early return as written never fires, so the run ignores the clock. |
| Notify.GuardCounterexample | src/telegram/bot.ts:469-472 | At 03:00 on 1 January 2025 the run as written still invites a user, although that time is outside the window. |
| Notify.CorrectionAgreesInWindow | src/telegram/bot.ts:466-551 | Inside the window, the corrected run and the run as written give the same store and the same messages. |
| Notify.Notify | src/telegram/bot.ts:469-472 | With the corrected guard, a run outside 21 May 2024 17:00-23:00 sends nothing and changes nothing. Users and events are never changed. |
| Notify.NotifyFlags | src/telegram/bot.ts:538-545 | Within the window, each registration keeps its user and event. Its flag is set afterwards exactly when it already was or its user was invited. Flags only go from false to true. |
| Notify.GatedOutUntouched | src/telegram/bot.ts:489-490 | A user with a notified registration receives nothing and keeps every registration as it was. |
| Notify.DeliveredFullyNotified | src/telegram/bot.ts:535-545 | A user who passes the gate and whose send succeeds receives the invitation. Afterwards all of that user's registrations are flagged. |
| Notify.FailureIsolated | src/telegram/bot.ts:546-548 | A failed send gives that user nothing and keeps their flags. Every other user gets the same messages and flags as in a run where that send succeeds. |
| Notify.SecondRun | src/telegram/bot.ts:489-490 | After a fully successful run, a second run messages only users without registrations, and it messages each of them again. |
| Notify.RecordsBlock | src/telegram/bot.ts:536 | The "Ваши записи" block appears exactly for a user with registrations and then carries that user's agenda. Without registrations the text is the bare invitation. |
| Notify.NotifyConsistent | src/telegram/bot.ts:538-545 | A run keeps the store consistent. |
| Seed.Upsert | src/insert-events.ts:13-28 | An upsert adds the entry's id to the stored ids. It keeps the number of events when the id is already stored. |
| Seed.UpsertAll | src/insert-events.ts:12-29 | After the loop the stored ids are the old ids plus the list's ids. No event is removed. |
| Seed.UpsertAllPlaced | src/insert-events.ts:12-29 | Stored events keep their places and ids. A place whose id is in the list holds the last entry with that id. Every other stored event is untouched, and appended events carry ids from the list. |
| Seed.UpsertAllFinds | src/insert-events.ts:12-29 | After the loop, each id of the list finds its last entry. Every other id finds what it found before. |
| Seed.UpsertAllDistinct | src/insert-events.ts:13-16 | Upserting keeps event ids distinct. |
| Seed.Wipe | src/insert-events.ts:7-10 | The wipe removes all registrations and all events and keeps the users. |
| Seed.WipeLinked | src/insert-events.ts:8-9 | Deleting registrations first and then events leaves no registration pointing at a missing event, after either step. |
| Seed.EventsFirstDangles | src/insert-events.ts:8-9 | Deleting events before registrations would leave a dangling registration. |
| Seed.Seed | src/insert-events.ts:6-29 | The script keeps the users. The stored ids become the list's ids, plus the old ids when there is no wipe. |
| Seed.SeedWithoutWipe | src/insert-events.ts:7-28 | Without `DELETE_ALL`, registrations are unchanged and every event whose id is not in the list keeps its place and contents. |
| Seed.SeedWithWipe | src/insert-events.ts:7-29 | With `DELETE_ALL`, no registration remains, the stored ids are exactly the list's, each holding its last entry, and the store is consistent. |
| Seed.SeedStoresLastEntry | src/insert-events.ts:12-29 | Every id of the list is stored with the name, date and description of its last entry. |
| Seed.SeedConsistent | src/insert-events.ts:6-29 | A run keeps the store consistent. |
| Seed.UpsertAllStoredLength | src/insert-events.ts:13-28 | Upserting a list whose ids are all stored adds no event. |
| Seed.UpsertAllIdempotent | src/insert-events.ts:12-29 | Upserting the same list again changes nothing. |
| Seed.SeedIdempotent | src/insert-events.ts:12-29 | Running the script again without the wipe gives the same store as one run. |
| Bot.IsCommand | src/telegram/bot.ts:90-95 | A message carries a command when it starts with "/" and the name, and the name ends there. The name is followed by the end of the text or a character that cannot continue a command, such as a space or a comma. |
| Bot.CommandNameUnique | src/telegram/bot.ts:90-95 | A message carries at most one command name. |
| Bot.IdCommand | src/telegram/bot.ts:90-93 | `/id` replies with text that reads back as the sender's id. An unknown sender gets the error message. |
| Bot.OnMessage | src/telegram/bot.ts:90-464 | A text message never changes events or registrations. `/id` is answered before any other handler. Apart from `/id` and `/start`, a message from an admin or from an unknown sender changes neither the store nor any session. |
| Bot.Handle | src/telegram/bot.ts:129-453 | No update changes the catalogue. Registrations are only ever appended to. |
| Bot.AdminsReadOnly | src/telegram/bot.ts:129-184 | Nothing an admin sends changes the store or any session. |
| Bot.MenusReadOnly | src/telegram/bot.ts:186-335 | The user menu buttons change neither the store nor any session, whoever presses them and whatever step they are in. |
| Bot.UsersKept | src/telegram/bot.ts:375-453 | No update removes a user. |
| Bot.HandleKeepsInvariants | src/telegram/bot.ts:95-453 | Every update keeps the store consistent and the sessions in agreement with it. |
| Bot.HandleAllKeepsInvariants | src/telegram/bot.ts:95-453 | The invariants hold along any sequence of updates. |

## Left out

- The Telegram transport. The reply markup is a token (`AdminsMenu`, `BaseMenu`, `SendContactMenu`, `Inline`). The error handler's console logging is not modelled.
- Excel export (`bot.ts:149-183`). It produces a binary workbook through a foreign library. The model answers with the token `Spreadsheet` and no write.
- The startup broadcast in `start(notifyMessage)` (`bot.ts:68-82`). It is pure I/O fan-out.
- `Intl.DateTimeFormat`. The long day title and the clock time are the parameter `Format`.
- The check-then-create race between `bot.ts:354` and `bot.ts:365`, and any concurrent handling of updates. The model is sequential.
- The phone masks and the message constants are defined in a module that is not part of this model. The masks are predicates on strings and the messages are tokens.
- The caption of the "my events" button is not among the shown constants, so it is a configuration value.
- `src/index.ts` builds the bot without an admin list. The admin list is a parameter.
- Text.NumberValue: models `Number()` only for an optional sign followed by decimal digits. Other forms JavaScript accepts, such as hexadecimal, exponents or `"2.0"`, are read as not-a-number, so the callback replies with the error message.
- Bot.IsCommand: a command addressed with a bot name (`/start@name`) is not recognised, because the model has no bot name.
- Notify.Pass: a failure of the flag update after a successful send is not modelled. `delivered` covers the send only.
- The database column `telegramId` holds the id as text (`toString()`). The model keys by the integer, which that text determines.
- Sessions are per chat. The model keys them by the sender's id, which is the chat id in a private chat.
- The session middleware (`bot.ts:37-43`) has no storage, so sessions live in memory and a restart empties them while users persist. `SessionsAgree` therefore holds for the updates since the last start (`Bot.EmptyStart`), not across restarts.
- HTML parsing and message length (`bot.ts:240`, `315`, `537` send with HTML parse mode). A name or description containing `<` or `&`, or a message over 4096 characters, makes Telegram reject the send. The error handler then only logs it and the user gets no reply. The model always sends; HTML escaping and the length limit are not modelled.
- Ties between events with the same start instant: the store's order for them is unspecified. `SortByDate` keeps catalogue order for them.
- Row order of queries without an `orderBy`: the statistics query (`bot.ts:133-140`) and the user list of `notify` (`bot.ts:474`) return rows in an order the database does not fix. The model takes storage order, so the statistics numbering and the order of the invitations are one admissible order, not a guarantee. Likewise an upsert is modelled as keeping the updated row in its place (`Seed.Upsert`), while the database may return it elsewhere afterwards.

## Findings

| source | as written | input that shows it | evidently intended | confidence | as-written member | corrected member |
|---|---|---|---|---|---|---|
| src/telegram/bot.ts:470 | The early return of `notify` needs hours < 17 and hours > 23 at the same time, so it never fires and the broadcast runs at any time. | A clock at 03:00 on 1 January 2025 with one user: that user is invited. | Run only on 21 May 2024 from 17:00 to 23:00, as the comment on line 469 says. | high; not executed | Notify.GuardCounterexample | Notify.Notify |
