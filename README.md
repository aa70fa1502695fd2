# Attendance accounting and request set-up, modelled in Dafny

This project models two parts of a club-management web application.

**The attendance-aggregation hooks of the Event model.** Each member keeps two
counters:
- `minutes`, the time accrued on events they were confirmed for;
- `minutes_not_needed`, the time on events where they were not needed.

Despite the names, the code adds the difference of two dates, so both counters
hold milliseconds. The model follows the code: a two-hour event adds 7,200,000.

When an event's times change, the `beforeUpdate` hook deducts the event's length
from the counters of everyone with a confirmed or not-needed attendance row on
it, and the `afterUpdate` hook adds the length back. When an event is destroyed,
`beforeDestroy` deducts the length and then destroys the event's attendance rows
one by one. Meetings never count.

The model has three parts:
- a pure specification in module `EventModel`:
  - `Adjusted` gives the counters after one run of the hook;
  - `Accrued` gives the sum a counter should hold over the attendance rows.
- an imperative class `EventHooks.Database` holding:
  - the member table as a map from email to counters;
  - the event table as a map from id;
  - the attendance join table as a sequence of rows.

  Its methods carry the hooks' loops with their invariants.
- the invariant that every counter equals its `Accrued` sum. It is proved to
  survive both an update and a destroy.

**Request set-up and login in the application file.** This part has three
pieces:
- `createVariablesMiddleware` fills in defaults on `req.locals`:
  - `status` becomes 200 unless it is a number;
  - an `alert` object is created if missing;
  - the `errorMessages`, `infoMessages` and `successMessages` arrays are created.

  It then calls `next()`. It is modelled over a small datatype of JavaScript
  values, following sloppy-mode rules:
  - reading a property of `null` or `undefined` throws;
  - writing a property on a primitive is silently dropped.

  Class `RequestLocals.Request` runs these steps in order. The function
  `RequestLocals.Middleware` says what they amount to.
- The login decision of the local strategy (`Authentication.Verify`) takes the
  password comparison as a parameter.
- The session mapping is `SerializeUser` / `DeserializeUser`.

The code is followed where descriptions of the system differ from it:
- The hook has no fast path for an unchanged duration. It always runs both
  halves of the update pair.
- The counters are `minutes` and `minutes_not_needed`.

## Model

| member | source | states |
|---|---|---|
| EventModel.Length | models/event.js:104 | helper: end minus start, in the source's unit (milliseconds); used by the rows that state lengths |
| EventModel.Weight | models/event.js:88-91 | helper: an event's length, or 0 for a meeting; used by `Accrued`, `AdjustedAt` and `UpdatePairNetChange` |
| EventModel.StatusOn | models/event.js:108-115 | helper: a member's status on the event, which pairs `attendances[i]` with `output[i]`; stated by `StatusOnFindsRow` and `StatusOfRow` |
| RequestLocals.Get | app.js:59-81 | helper: the property reads of the middleware; a read on null or undefined is excluded because it throws |
| EventModel.Signed | models/event.js:104-107 | the amount the hook adds: end minus start, negated when deducting; its use is stated by `AdjustedAt` |
| EventModel.Credit | models/event.js:110-119 | one member's counters after the hook by the status of their row: `minutes` for confirmed, `minutes_not_needed` for not needed, nothing otherwise; stated per member by `ConfirmedGainsLength`, `NotNeededGainsLength` and `UnaffectedMemberUnchanged` |
| EventModel.Adjusted | models/event.js:87-124 | the member table after one run of the hook; it keeps the member keys, and its effect on each member is stated by `AdjustedAt` and the lemmas after it |
| EventModel.Accrued | models/event.js:73-124 | what a counter should hold: the sum of the weights of the events on which the member has a row of that status; split and framed by `AccruedSplit` and `AccruedFrame` |
| EventModel.Consistent | models/event.js:73-124 | every member's two counters equal their `Accrued` sums; kept by `UpdateKeepsConsistent` and `DestroyKeepsConsistent` |
| EventModel.RowsOf | models/event.js:93-96 | the rows the attendance query returns, in table order; their contents are stated by `RowsOfContents` |
| EventModel.DropKeys | models/event.js:54-57 | the table after the named members' rows of the event are destroyed; stated by `DropKeysContents` and `DropKeysStep` |
| EventModel.WithoutEvent | models/event.js:49-58 | the table once the event's rows are gone; stated by `WithoutEventContents` and `DropKeysAll` |
| RequestLocals.EnsureArray | app.js:73-81 | one message step: the property is replaced by `[]` unless it already is an array; stated by `FillMessagesFacts` |
| RequestLocals.FillMessages | app.js:73-81 | the three message steps in source order; stated by `FillMessagesFacts` |
| RequestLocals.Defaults | app.js:59-71 | the first three steps of the middleware; stated by `DefaultsFacts` |
| RequestLocals.Middleware | app.js:56-84 | the whole middleware as a function of `req.locals`; its throw condition, result shape, kept properties and idempotence are the lemmas below |
| Authentication.SerializeUser | app.js:155-157 | the session keeps the member's email; paired with `DeserializeUser` by `SessionRoundTrip` |
| Authentication.DeserializeUser | app.js:160-170 | the member it restores has the session's email, and it restores nothing (`null`) exactly when no member has that email |
| EventModel.RowsOfContents | models/event.js:93-97 | the attendance query returns exactly the rows whose event id is the event's |
| EventModel.DropKeysContents | models/event.js:54-57 | destroying the named members' rows of an event keeps exactly every other row |
| EventModel.WithoutEventContents | models/event.js:46-60 | after the cascade, exactly the rows of other events remain |
| EventModel.StatusOnFindsRow | models/event.js:108-120 | a member has a status on the event exactly when one of their rows for it exists, and that status is the row's |
| EventModel.StatusOfRow | models/event.js:108-120 | under the composite attendance key, the status found for a row's own member and event is that row's status |
| EventModel.StatusOnAppend | models/event.js:109-120 | one more row at the end of the table decides the status for its own key and leaves every other key's status alone |
| EventModel.StatusOnRowsOf | models/event.js:93-97 | restricting the table to the event's rows does not change any member's status on that event |
| EventModel.AdjustedByEventRows | models/event.js:104-120 | crediting each member according to their status among the queried rows gives exactly one run of the hook |
| EventModel.RowsOfDistinctMembers | models/event.js:108 | with the composite key, the rows of one event name pairwise distinct members |
| EventModel.DropKeysStep | models/event.js:55-57 | destroying one more member's row of the event is the same as destroying the enlarged set of rows at once |
| EventModel.DropKeysAll | models/event.js:49-58 | once every member with a row on the event has had it destroyed, no row of the event is left and the rows of other events are kept |
| EventModel.DropKeysNothing | models/event.js:54 | before the destroy loop starts, the table is unchanged |
| EventModel.DropKeysUnique | models/event.js:56 | destroying rows keeps the composite attendance key |
| EventModel.MeetingLeavesTalliesUnchanged | models/event.js:88-91 | for a meeting, both counters of every member stay the same whatever `deduct` is |
| EventModel.ConfirmedGainsLength | models/event.js:104-114 | a member confirmed on the event gains end minus start in `minutes`, or loses it when deducting, and keeps `minutes_not_needed` |
| EventModel.NotNeededGainsLength | models/event.js:104-107 | a not-needed member gains end minus start in `minutes_not_needed`, or loses it when deducting, and keeps `minutes` |
| EventModel.UnaffectedMemberUnchanged | models/event.js:108-120 | a member with no row on the event, or only rows of another status, keeps both counters |
| EventModel.DeductUndoesAdd | models/event.js:104-107 | deducting then adding, or adding then deducting, with the same times restores every counter |
| EventModel.UpdatePairNetChange | models/event.js:40-45 | the before/after update pair moves an affected counter by the new weight minus the old weight (a length, or 0 for a meeting), and changes nothing when the weight is kept |
| EventModel.AccruedFrame | models/event.js:87-124 | a member's accrued sum depends only on the events its rows refer to |
| EventModel.AccruedSplit | models/event.js:87-124 | the accrued sum is the event's weight once, if the member has a row of that status on it, plus the sum over the other events' rows |
| EventModel.AdjustedAt | models/event.js:104-120 | a member's counters after one run of the hook, expressed through their status on the event and its signed length |
| EventModel.AccruedAfterReplace | models/event.js:40-45 | replacing an event's times moves a member's accrued sum by the change of that event's weight, if they have a row of that status on it |
| EventModel.UpdateKeepsConsistent | models/event.js:40-45 | if every counter equals its sum over the attendance rows, it still does after the update pair, now computed with the new times |
| EventModel.DestroyKeepsConsistent | models/event.js:46-60 | the same invariant survives deducting the event, removing its rows and removing the event |
| EventModel.HandleAsWritten | models/event.js:99-101 | the hook as written rejects exactly when the event is not a meeting and has at least one attendance row; it changes no counter |
| EventModel.FindByIdBreaksHook | models/event.js:100 | for a confirmed member of a non-meeting event with non-zero length, the hook as written rejects, while the intended hook changes their counter |
| EventModel.UpdatePairAsWritten | models/event.js:40-45 | when both hooks see the new times, the pair leaves every counter as it was |
| EventModel.StaleBeforeImageBreaksConsistency | models/event.js:40-45 | when both hooks see the new times, changing the length of an event that has a confirmed member breaks the counters' invariant |
| EventHooks.Database.FindAll | models/event.js:93-97 | the loop returns the event's rows, in table order |
| EventHooks.Database.LoadMembers | models/event.js:98-102 | the loop loads, for each queried row, the member row of that row's email, in the same order (the intended lookup; see Findings) |
| EventHooks.Database.WriteCredits | models/event.js:109-120 | after the loop, each member's counters are credited by the signed length according to their row's status, and the member keys are unchanged |
| EventHooks.Database.HandleEventUpdateOnAttendance | models/event.js:87-124 | the member table becomes `Adjusted` of the old one; the attendance and event tables are unchanged and the table constraints still hold |
| EventHooks.Database.DestroyAttendance | models/event.js:56 | the one row of that member and event is removed and the table constraints still hold |
| EventHooks.Database.DestroyRows | models/event.js:54-58 | exactly the event's rows of the queried rows' members are destroyed, and the table constraints still hold |
| EventHooks.Database.BeforeDestroy | models/event.js:46-60 | counters are deducted for the event, and then exactly the rows of other events remain |
| EventHooks.Database.Destroy | models/event.js:46-60 | the destroy hook runs and the event is removed; if counters agreed with the rows before, they still do |
| EventHooks.Database.Update | models/event.js:40-45 | the counters are deducted with the stored times and credited with the new ones; the event is replaced and the counters' invariant is kept |
| RequestLocals.Put | app.js:59-81 | writing a property of an object makes it read back as the written value; a write on a primitive leaves the value unchanged |
| RequestLocals.PutKeepsOthers | app.js:59-81 | a property write leaves every other property unchanged |
| RequestLocals.PutSame | app.js:73-81 | writing back the value a property already holds changes nothing |
| RequestLocals.PutTwice | app.js:73-81 | when a property is written twice, the second write wins |
| RequestLocals.FillMessagesFacts | app.js:73-81 | the three message properties become arrays; an existing array is kept and anything else becomes `[]`; other alert properties are kept; an alert already holding three arrays is unchanged |
| RequestLocals.DefaultsFacts | app.js:59-71 | `locals` is created if undefined; a non-number status becomes 200 and a number is kept; a missing alert becomes `{}`; everything else is kept |
| RequestLocals.MiddlewareThrowsExactly | app.js:56-84 | the middleware throws exactly when `req.locals` is null, or a primitive other than undefined, or its alert is null |
| RequestLocals.MiddlewareEstablishesShape | app.js:59-81 | when `req.locals` and its alert are objects or undefined, afterwards `locals` is an object with a numeric status and an alert holding the three arrays |
| RequestLocals.MiddlewareKeepsStatus | app.js:64-66 | a numeric status is kept and anything else becomes 200; every property other than status and alert is kept |
| RequestLocals.MiddlewareKeepsAlert | app.js:69-81 | an existing alert object is kept, apart from the message arrays, which are filled in |
| RequestLocals.PreparedIsFixed | app.js:56-84 | a `req.locals` already in the prepared shape passes through unchanged, with no throw |
| RequestLocals.MiddlewarePrepares | app.js:56-84 | whatever the middleware leaves without throwing is in the prepared shape |
| RequestLocals.MiddlewareIdempotent | app.js:56-84 | applying the middleware twice gives the same result as applying it once |
| RequestLocals.Request.EnsureMessageArray | app.js:73-81 | one conditional step replaces the alert's message property with `[]` unless it already is an array |
| RequestLocals.Request.CreateVariablesMiddleware | app.js:56-84 | `req.locals` ends as the middleware function says; it throws when the function says so; `next()` is called exactly once when it does not throw, and not at all when it does |
| Authentication.FindOne | app.js:133-137 | the lookup returns a member with that email, or nothing exactly when no member has it |
| Authentication.Verify | app.js:128-152 | "Member not found." exactly when no member has the email; success only with that member when the password check passes; "Incorrect password." only when it fails; no other outcome |
| Authentication.FindOneUnique | app.js:133-137 | with unique emails, the lookup returns the very member that owns the email |
| Authentication.VerifyOwnMember | app.js:138-146 | with unique emails, the owner of the email is authenticated if the password check passes and rejected with "Incorrect password." otherwise |
| Authentication.SessionRoundTrip | app.js:155-170 | with unique emails, deserialising a serialised member gives back that member |
| Authentication.LoginSessionRestoresMember | app.js:145-170 | the member a successful login returns is found again from the session on later requests |

## Left out

- ORM plumbing is not part of this model. This covers the field definitions and associations (models/event.js:6-36, 64-71) and the model loader in models/index.js. That loader's environment guard at models/index.js:26 always throws, because a disjunction of `!=` tests is always true. This is configuration, not logic.
- Asynchrony is not modelled. The hooks run their steps in order. The order-insensitivity claimed by the comment at models/event.js:78-82, and `Promise.all` interleaving, are not modelled.
- The read-modify-write of `output[i].minutes + length` is only safe when each member has at most one row per event. The model makes this the table's composite key, in `Database.Valid`, rather than modelling races.
- Every attendance row's member and event exist in the model (a foreign key in `Database.Valid`). A member lookup that returns nothing is therefore not modelled.
- The ORM-level `update()` and `destroy()` calls are modelled by their effect on the tables. Hooks fired by those calls themselves are not modelled.
- The hooks receive the stored event record. The ORM instance, its change tracking and `previous()` are not modelled. The as-written behaviour, where the instance already carries the new times, appears only as Finding 2.
- Event and attendance creation, and any other way counters change, are not part of this model.
- Dates are integers, the millisecond difference the source subtracts. The end time is not required to follow the start time, just as the source does not require it.
- Password hashing and `Member.comparePassword` (bcrypt) are a function parameter of `Verify`. Its promise is taken as a plain boolean.
- Authentication.Verify: the `res === false` test is modelled as "the check returned false", so a non-boolean result, which the source treats as a pass, is not distinguished.
- Authentication.DeserializeUser: a database error passed to `done(err, null)` is not modelled, because the lookup cannot fail in the model.
- Authentication.Verify: the callback has no `.catch` on `findOne` or on `comparePassword`, so a failing lookup or comparison leaves `done` uncalled and the login request never completes; the model's lookup and comparison cannot fail, so this outcome is not modelled.
- EventHooks.Database.HandleEventUpdateOnAttendance: database reads and writes are assumed to succeed; when one `update()` rejects, `Promise.all` rejects while other updates may already have been applied, and that partial application is not modelled. The same holds for the `destroy()` calls of `EventHooks.Database.BeforeDestroy`.
- Express wiring, sessions, cookies, static files, the view engine, the error renderer, and database `sync`/`authenticate`/`process.exit` are not modelled. The same goes for routes/member.js and the HTTP-level tests. None of these holds logic of the modelled core.
- JavaScript values are a small datatype:
  - numbers are integers;
  - arrays carry their elements and their own properties;
  - functions, prototypes, getters and setters are not modelled.

  Objects are values, so aliasing of the `alert` object by other holders is not captured. What Express does with a thrown error is left out. The model only records that the middleware threw and did not call `next()`.

## Findings

| source | as written | input that shows it | evidently intended | confidence | as-written member | corrected member |
|---|---|---|---|---|---|---|
| models/event.js:100 | the member lookup calls `sequelize.models.findById`, but the model registry is not a model and has no such function, so the callback throws and the hook's promise rejects | a non-meeting event with one confirmed attendance row, say 10:00-12:00, whose times are then updated | look up the member by the row's `member_email` (`Member.findById`) and adjust their counters | high, not executed | EventModel.HandleAsWritten, EventModel.FindByIdBreaksHook | EventHooks.Database.HandleEventUpdateOnAttendance |
| models/event.js:40-45 | `beforeUpdate` receives the instance that already carries the new times, so it deducts the new length and `afterUpdate` adds it back: the pair changes nothing. The defect is latent behind the first finding: as written, `beforeUpdate` on a non-meeting event with a row rejects at line 100 before writing, so the net-zero pair shows only once line 100 uses the member lookup | with line 100 corrected, an event at 10:00-12:00 with one confirmed member holding 7,200,000 (two hours in milliseconds) is moved to 10:00-13:00; the counter stays 7,200,000 instead of 10,800,000 | deduct the stored (old) length, then add the new length, so the counter equals the sum over the member's rows | medium, not executed | EventModel.UpdatePairAsWritten, EventModel.StaleBeforeImageBreaksConsistency | EventHooks.Database.Update, EventModel.UpdateKeepsConsistent |
