/**
 * The attendance-aggregation rule of the Event model, as values.
 *
 * A member's two accrued counters (`minutes` for confirmed attendance,
 * `minutes_not_needed` for excused attendance) are adjusted whenever an
 * event's time window changes or the event is destroyed.  This module holds
 * the data model, the function `Adjusted` that says what one run of the hook
 * does to the member table, the global invariant `Consistent`, and the
 * lemmas about them.  The imperative hooks are in module EventHooks.
 */
module EventModel {
  import opened Wrappers

  type Email = string

  /** Attendance status; the Attendance model's other statuses are `Other`. */
  datatype Status = Confirmed | NotNeeded | Other(name: string)

  /** The fields of an Event that the hooks read.  Times are integers (the source subtracts dates, so milliseconds). */
  datatype Event = Event(id: nat, startTime: int, endTime: int, meeting: bool)

  /** A row of the Attendance join table. */
  datatype Attendance = Attendance(memberEmail: Email, eventId: nat, status: Status)

  /** The two accrued counters of a Member row. */
  datatype Tally = Tally(minutes: int, minutesNotNeeded: int)

  function Length(ev: Event): (n: int)
  {
    ev.endTime - ev.startTime
  }

  /** What an event contributes to a counter: meetings contribute nothing. */
  function Weight(ev: Event): (n: int)
  {
    if ev.meeting then 0 else Length(ev)
  }

  /** The amount the hook adds: the event's length, negated when deducting. */
  function Signed(ev: Event, deduct: bool): (n: int)
  {
    if deduct then -Length(ev) else Length(ev)
  }

  predicate HasKey(r: Attendance, email: Email, eventId: nat)
  {
    r.memberEmail == email && r.eventId == eventId
  }

  /** The Attendance table's composite key: one row per (member, event). */
  predicate UniqueKeys(rows: seq<Attendance>)
  {
    forall i, j :: 0 <= i < j < |rows| ==> !HasKey(rows[j], rows[i].memberEmail, rows[i].eventId)
  }

  /** The status of the member's row on the event, if there is one (the last such row). */
  function StatusOn(rows: seq<Attendance>, email: Email, eventId: nat): (s: Option<Status>)
  {
    if rows == [] then None
    else if HasKey(rows[|rows| - 1], email, eventId) then Some(rows[|rows| - 1].status)
    else StatusOn(rows[..|rows| - 1], email, eventId)
  }

  /** The rows `findAll({ where: { event_id } })` returns, in table order. */
  function RowsOf(rows: seq<Attendance>, eventId: nat): (found: seq<Attendance>)
  {
    if rows == [] then []
    else
      var last := rows[|rows| - 1];
      RowsOf(rows[..|rows| - 1], eventId) + (if last.eventId == eventId then [last] else [])
  }

  /** The rows left once every row of `eventId` whose member is in `emails` is destroyed. */
  function DropKeys(rows: seq<Attendance>, eventId: nat, emails: set<Email>): (rest: seq<Attendance>)
  {
    if rows == [] then []
    else
      var last := rows[|rows| - 1];
      DropKeys(rows[..|rows| - 1], eventId, emails)
        + (if last.eventId == eventId && last.memberEmail in emails then [] else [last])
  }

  /** The rows of every other event. */
  function WithoutEvent(rows: seq<Attendance>, eventId: nat): (rest: seq<Attendance>)
  {
    if rows == [] then []
    else
      var last := rows[|rows| - 1];
      WithoutEvent(rows[..|rows| - 1], eventId) + (if last.eventId == eventId then [] else [last])
  }

  /** The query returns exactly the rows of the event. */
  lemma {:induction false} RowsOfContents(rows: seq<Attendance>, eventId: nat)
    ensures forall r :: r in RowsOf(rows, eventId) <==> r in rows && r.eventId == eventId
  {
    if rows != [] {
      var n := |rows| - 1;
      RowsOfContents(rows[..n], eventId);
      assert rows == rows[..n] + [rows[n]];
    }
  }

  /** Destroying the named members' rows of the event keeps exactly the other rows. */
  lemma {:induction false} DropKeysContents(rows: seq<Attendance>, eventId: nat, emails: set<Email>)
    ensures forall r :: r in DropKeys(rows, eventId, emails) <==> r in rows && !(r.eventId == eventId && r.memberEmail in emails)
  {
    if rows != [] {
      var n := |rows| - 1;
      DropKeysContents(rows[..n], eventId, emails);
      assert rows == rows[..n] + [rows[n]];
    }
  }

  /** Exactly the rows of the other events remain. */
  lemma {:induction false} WithoutEventContents(rows: seq<Attendance>, eventId: nat)
    ensures forall r :: r in WithoutEvent(rows, eventId) <==> r in rows && r.eventId != eventId
  {
    if rows != [] {
      var n := |rows| - 1;
      WithoutEventContents(rows[..n], eventId);
      assert rows == rows[..n] + [rows[n]];
    }
  }

  /** One member's counters after the hook, given the status of their row on the event. */
  function Credit(t: Tally, status: Option<Status>, amount: int): (r: Tally)
  {
    match status
    case Some(Confirmed) => t.(minutes := t.minutes + amount)
    case Some(NotNeeded) => t.(minutesNotNeeded := t.minutesNotNeeded + amount)
    case _ => t
  }

  /**
   * The member table after one run of handleEventUpdateOnAttendance(ev, deduct)
   * over the attendance table `rows`.
   */
  function Adjusted(members: map<Email, Tally>, rows: seq<Attendance>, ev: Event, deduct: bool): (r: map<Email, Tally>)
    ensures r.Keys == members.Keys
  {
    if ev.meeting then members
    else map e | e in members :: Credit(members[e], StatusOn(rows, e, ev.id), Signed(ev, deduct))
  }

  /** The credit one row earns `email` on counter `status`, with event times read from `events`. */
  function Share(r: Attendance, events: map<nat, Event>, email: Email, status: Status): (n: int)
  {
    if r.memberEmail == email && r.status == status && r.eventId in events then Weight(events[r.eventId]) else 0
  }

  /** Sum of the lengths of the non-meeting events on which `email` has a row with `status`. */
  function Accrued(rows: seq<Attendance>, events: map<nat, Event>, email: Email, status: Status): (sum: int)
  {
    if rows == [] then 0
    else Accrued(rows[..|rows| - 1], events, email, status) + Share(rows[|rows| - 1], events, email, status)
  }

  /** Every member's counters equal what their attendance rows add up to. */
  predicate Consistent(members: map<Email, Tally>, rows: seq<Attendance>, events: map<nat, Event>)
  {
    forall e :: e in members ==>
      members[e].minutes == Accrued(rows, events, e, Confirmed) &&
      members[e].minutesNotNeeded == Accrued(rows, events, e, NotNeeded)
  }

  // ---------------------------------------------------------------------
  // Facts about the attendance table
  // ---------------------------------------------------------------------

  /** A member has a status on an event exactly when a row of theirs for it exists, and the status is that row's. */
  lemma {:induction false} StatusOnFindsRow(rows: seq<Attendance>, email: Email, eventId: nat)
    ensures StatusOn(rows, email, eventId).None? <==> forall k :: 0 <= k < |rows| ==> !HasKey(rows[k], email, eventId)
    ensures StatusOn(rows, email, eventId).Some? ==>
      exists k :: 0 <= k < |rows| && HasKey(rows[k], email, eventId) && rows[k].status == StatusOn(rows, email, eventId).value
  {
    if rows != [] {
      var n := |rows| - 1;
      var p := rows[..n];
      StatusOnFindsRow(p, email, eventId);
      assert forall k :: 0 <= k < n ==> p[k] == rows[k];
    }
  }

  /** Under the composite key, the status found for a row's own key is that row's status. */
  lemma {:induction false} StatusOfRow(rows: seq<Attendance>, k: nat)
    requires UniqueKeys(rows) && k < |rows|
    ensures StatusOn(rows, rows[k].memberEmail, rows[k].eventId) == Some(rows[k].status)
  {
    var n := |rows| - 1;
    if k < n {
      assert !HasKey(rows[n], rows[k].memberEmail, rows[k].eventId);
      var p := rows[..n];
      assert p[k] == rows[k];
      assert UniqueKeys(p) by {
        forall i, j | 0 <= i < j < |p| ensures !HasKey(p[j], p[i].memberEmail, p[i].eventId) {
          assert p[i] == rows[i] && p[j] == rows[j];
        }
      }
      StatusOfRow(p, k);
    }
  }

  /** Adding a row at the end of the table. */
  lemma StatusOnAppend(rows: seq<Attendance>, r: Attendance, email: Email, eventId: nat)
    ensures StatusOn(rows + [r], email, eventId) ==
      if HasKey(r, email, eventId) then Some(r.status) else StatusOn(rows, email, eventId)
  {
    assert (rows + [r])[..|rows|] == rows;
  }

  /** Querying the event's rows first does not change any member's status on it. */
  lemma {:induction false} StatusOnRowsOf(rows: seq<Attendance>, email: Email, eventId: nat)
    ensures StatusOn(RowsOf(rows, eventId), email, eventId) == StatusOn(rows, email, eventId)
  {
    if rows != [] {
      var n := |rows| - 1;
      var p := rows[..n];
      StatusOnRowsOf(p, email, eventId);
      if rows[n].eventId == eventId {
        assert (RowsOf(p, eventId) + [rows[n]])[..|RowsOf(p, eventId)|] == RowsOf(p, eventId);
      } else {
        assert RowsOf(rows, eventId) == RowsOf(p, eventId);
      }
    }
  }

  /** Crediting every member by their status among the event's rows is one run of the hook. */
  lemma AdjustedByEventRows(members: map<Email, Tally>, after: map<Email, Tally>, rows: seq<Attendance>, ev: Event, deduct: bool)
    requires !ev.meeting && after.Keys == members.Keys
    requires forall e :: e in after ==> after[e] == Credit(members[e], StatusOn(RowsOf(rows, ev.id), e, ev.id), Signed(ev, deduct))
    ensures after == Adjusted(members, rows, ev, deduct)
  {
    forall e | e in after
      ensures after[e] == Adjusted(members, rows, ev, deduct)[e]
    {
      StatusOnRowsOf(rows, e, ev.id);
    }
  }

  /** The rows of one event name each member at most once. */
  lemma {:induction false} RowsOfDistinctMembers(rows: seq<Attendance>, eventId: nat)
    requires UniqueKeys(rows)
    ensures forall i, j :: 0 <= i < j < |RowsOf(rows, eventId)| ==>
      RowsOf(rows, eventId)[i].memberEmail != RowsOf(rows, eventId)[j].memberEmail
  {
    if rows != [] {
      var n := |rows| - 1;
      var p := rows[..n];
      assert UniqueKeys(p) by {
        forall i, j | 0 <= i < j < |p| ensures !HasKey(p[j], p[i].memberEmail, p[i].eventId) {
          assert p[i] == rows[i] && p[j] == rows[j];
        }
      }
      RowsOfDistinctMembers(p, eventId);
      RowsOfContents(p, eventId);
      var f := RowsOf(p, eventId);
      if rows[n].eventId == eventId {
        forall i | 0 <= i < |f| ensures f[i].memberEmail != rows[n].memberEmail {
          assert f[i] in p;
          var k :| 0 <= k < |p| && p[k] == f[i];
          assert p[k] == rows[k];
        }
      }
    }
  }

  /** Destroying one more member's row of the event. */
  lemma {:induction false} DropKeysStep(rows: seq<Attendance>, eventId: nat, emails: set<Email>, email: Email)
    ensures DropKeys(DropKeys(rows, eventId, emails), eventId, {email}) == DropKeys(rows, eventId, emails + {email})
  {
    if rows != [] {
      var n := |rows| - 1;
      var p := rows[..n];
      var last := rows[n];
      DropKeysStep(p, eventId, emails, email);
      var d := DropKeys(p, eventId, emails);
      if last.eventId == eventId && last.memberEmail in emails {
        assert DropKeys(rows, eventId, emails) == d;
        assert DropKeys(rows, eventId, emails + {email}) == DropKeys(p, eventId, emails + {email});
      } else {
        assert DropKeys(rows, eventId, emails) == d + [last];
        assert (d + [last])[..|d|] == d;
        assert DropKeys(d + [last], eventId, {email}) ==
          DropKeys(d, eventId, {email}) + (if last.eventId == eventId && last.memberEmail == email then [] else [last]);
      }
    }
  }

  /** Once every member with a row on the event is named, nothing of the event is left. */
  lemma {:induction false} DropKeysAll(rows: seq<Attendance>, eventId: nat, emails: set<Email>)
    requires forall r :: r in rows && r.eventId == eventId ==> r.memberEmail in emails
    ensures DropKeys(rows, eventId, emails) == WithoutEvent(rows, eventId)
  {
    if rows != [] {
      var n := |rows| - 1;
      DropKeysAll(rows[..n], eventId, emails);
    }
  }

  /** Naming no member destroys nothing. */
  lemma {:induction false} DropKeysNothing(rows: seq<Attendance>, eventId: nat)
    ensures DropKeys(rows, eventId, {}) == rows
  {
    if rows != [] {
      var n := |rows| - 1;
      DropKeysNothing(rows[..n], eventId);
      assert rows[..n] + [rows[n]] == rows;
    }
  }

  /** Destroying rows keeps the composite key. */
  lemma {:induction false} DropKeysUnique(rows: seq<Attendance>, eventId: nat, emails: set<Email>)
    requires UniqueKeys(rows)
    ensures UniqueKeys(DropKeys(rows, eventId, emails))
  {
    if rows != [] {
      var n := |rows| - 1;
      var p := rows[..n];
      assert UniqueKeys(p) by {
        forall i, j | 0 <= i < j < |p| ensures !HasKey(p[j], p[i].memberEmail, p[i].eventId) {
          assert p[i] == rows[i] && p[j] == rows[j];
        }
      }
      DropKeysUnique(p, eventId, emails);
      DropKeysContents(p, eventId, emails);
      var d := DropKeys(p, eventId, emails);
      assert rows == p + [rows[n]];
      if rows[n].eventId == eventId && rows[n].memberEmail in emails {
        assert DropKeys(rows, eventId, emails) == d;
      } else {
        var d' := d + [rows[n]];
        assert DropKeys(rows, eventId, emails) == d';
        forall i, j | 0 <= i < j < |d'| ensures !HasKey(d'[j], d'[i].memberEmail, d'[i].eventId) {
          if j < |d| {
            assert d'[i] == d[i] && d'[j] == d[j];
          } else {
            assert d'[i] == d[i] && d[i] in p;
            var k :| 0 <= k < |p| && p[k] == d[i];
            assert p[k] == rows[k];
          }
        }
      }
    }
  }

  // ---------------------------------------------------------------------
  // What one run of the hook does
  // ---------------------------------------------------------------------

  /** A meeting leaves every counter as it was, whatever `deduct` is. */
  lemma MeetingLeavesTalliesUnchanged(members: map<Email, Tally>, rows: seq<Attendance>, ev: Event, deduct: bool)
    requires ev.meeting
    ensures Adjusted(members, rows, ev, deduct) == members
  {
  }

  /** A confirmed member gains the event's length in `minutes` (loses it when deducting); the other counter stays. */
  lemma ConfirmedGainsLength(members: map<Email, Tally>, rows: seq<Attendance>, ev: Event, deduct: bool, k: nat)
    requires UniqueKeys(rows) && k < |rows|
    requires rows[k].eventId == ev.id && rows[k].status == Confirmed && rows[k].memberEmail in members
    requires !ev.meeting
    ensures var e := rows[k].memberEmail;
      Adjusted(members, rows, ev, deduct)[e].minutes == members[e].minutes + (if deduct then -Length(ev) else Length(ev)) &&
      Adjusted(members, rows, ev, deduct)[e].minutesNotNeeded == members[e].minutesNotNeeded
  {
    StatusOfRow(rows, k);
  }

  /** A not-needed member gains the event's length in `minutesNotNeeded`; `minutes` stays. */
  lemma NotNeededGainsLength(members: map<Email, Tally>, rows: seq<Attendance>, ev: Event, deduct: bool, k: nat)
    requires UniqueKeys(rows) && k < |rows|
    requires rows[k].eventId == ev.id && rows[k].status == NotNeeded && rows[k].memberEmail in members
    requires !ev.meeting
    ensures var e := rows[k].memberEmail;
      Adjusted(members, rows, ev, deduct)[e].minutesNotNeeded == members[e].minutesNotNeeded + (if deduct then -Length(ev) else Length(ev)) &&
      Adjusted(members, rows, ev, deduct)[e].minutes == members[e].minutes
  {
    StatusOfRow(rows, k);
  }

  /** A member with no row on the event, or only rows of another status, keeps both counters. */
  lemma UnaffectedMemberUnchanged(members: map<Email, Tally>, rows: seq<Attendance>, ev: Event, deduct: bool, e: Email)
    requires e in members
    requires forall k :: 0 <= k < |rows| && HasKey(rows[k], e, ev.id) ==> rows[k].status.Other?
    ensures Adjusted(members, rows, ev, deduct)[e] == members[e]
  {
    StatusOnFindsRow(rows, e, ev.id);
  }

  /** Deducting undoes adding and adding undoes deducting, for the same times. */
  lemma DeductUndoesAdd(members: map<Email, Tally>, rows: seq<Attendance>, ev: Event)
    ensures Adjusted(Adjusted(members, rows, ev, true), rows, ev, false) == members
    ensures Adjusted(Adjusted(members, rows, ev, false), rows, ev, true) == members
  {
  }

  /**
   * The update pair (deduct on the old times, add on the new times) moves
   * each counter by the change in length, and by nothing when the length is kept.
   */
  lemma UpdatePairNetChange(members: map<Email, Tally>, rows: seq<Attendance>, before: Event, after: Event, e: Email)
    requires before.id == after.id
    requires e in members
    ensures var r := Adjusted(Adjusted(members, rows, before, true), rows, after, false);
      var delta := Weight(after) - Weight(before);
      && r[e].minutes == members[e].minutes + (if StatusOn(rows, e, after.id) == Some(Confirmed) then delta else 0)
      && r[e].minutesNotNeeded == members[e].minutesNotNeeded + (if StatusOn(rows, e, after.id) == Some(NotNeeded) then delta else 0)
    ensures Weight(after) == Weight(before) ==> Adjusted(Adjusted(members, rows, before, true), rows, after, false) == members
  {
    var m1 := Adjusted(members, rows, before, true);
    AdjustedAt(members, rows, before, true, e);
    AdjustedAt(m1, rows, after, false, e);
    if Weight(after) == Weight(before) {
      var r := Adjusted(m1, rows, after, false);
      forall x | x in members ensures r[x] == members[x] {
        AdjustedAt(members, rows, before, true, x);
        AdjustedAt(m1, rows, after, false, x);
      }
    }
  }

  // ---------------------------------------------------------------------
  // The global invariant
  // ---------------------------------------------------------------------

  /** The sum only depends on the events the rows refer to. */
  lemma {:induction false} AccruedFrame(rows: seq<Attendance>, events: map<nat, Event>, events': map<nat, Event>, email: Email, status: Status)
    requires forall r :: r in rows ==> (r.eventId in events <==> r.eventId in events')
    requires forall r :: r in rows && r.eventId in events ==> events[r.eventId] == events'[r.eventId]
    ensures Accrued(rows, events, email, status) == Accrued(rows, events', email, status)
  {
    if rows != [] {
      var n := |rows| - 1;
      assert rows[n] in rows;
      AccruedFrame(rows[..n], events, events', email, status);
    }
  }

  /** The sum splits into the event's rows, which contribute the event's weight once at most, and the rest. */
  lemma {:induction false} AccruedSplit(rows: seq<Attendance>, events: map<nat, Event>, id: nat, email: Email, status: Status)
    requires UniqueKeys(rows) && id in events
    ensures Accrued(rows, events, email, status) ==
      Accrued(WithoutEvent(rows, id), events, email, status) + (if StatusOn(rows, email, id) == Some(status) then Weight(events[id]) else 0)
  {
    if rows != [] {
      var n := |rows| - 1;
      var p := rows[..n];
      var r := rows[n];
      assert UniqueKeys(p) by {
        forall i, j | 0 <= i < j < |p| ensures !HasKey(p[j], p[i].memberEmail, p[i].eventId) {
          assert p[i] == rows[i] && p[j] == rows[j];
        }
      }
      AccruedSplit(p, events, id, email, status);
      assert Accrued(rows, events, email, status) == Accrued(p, events, email, status) + Share(r, events, email, status);
      if r.eventId == id {
        assert WithoutEvent(rows, id) == WithoutEvent(p, id);
        if r.memberEmail == email {
          forall k | 0 <= k < |p| ensures !HasKey(p[k], email, id) {
            assert p[k] == rows[k];
          }
          StatusOnFindsRow(p, email, id);
          assert StatusOn(p, email, id) == None;
          assert StatusOn(rows, email, id) == Some(r.status);
        } else {
          assert StatusOn(rows, email, id) == StatusOn(p, email, id);
        }
      } else {
        var w := WithoutEvent(p, id);
        assert WithoutEvent(rows, id) == w + [r];
        assert (w + [r])[..|w|] == w;
        assert Accrued(w + [r], events, email, status) == Accrued(w, events, email, status) + Share(r, events, email, status);
        assert StatusOn(rows, email, id) == StatusOn(p, email, id);
      }
    }
  }

  /** Each member's counters after one run of the hook, in terms of the status of their row on the event. */
  lemma AdjustedAt(members: map<Email, Tally>, rows: seq<Attendance>, ev: Event, deduct: bool, e: Email)
    requires e in members
    ensures var amount := if deduct then -Weight(ev) else Weight(ev);
      && Adjusted(members, rows, ev, deduct)[e].minutes ==
           members[e].minutes + (if StatusOn(rows, e, ev.id) == Some(Confirmed) then amount else 0)
      && Adjusted(members, rows, ev, deduct)[e].minutesNotNeeded ==
           members[e].minutesNotNeeded + (if StatusOn(rows, e, ev.id) == Some(NotNeeded) then amount else 0)
  {
  }

  /** Replacing an event's times moves a member's sum by the change of that event's weight, if they have a row of that status on it. */
  lemma AccruedAfterReplace(rows: seq<Attendance>, events: map<nat, Event>, after: Event, e: Email, status: Status)
    requires UniqueKeys(rows) && after.id in events
    ensures var hit := StatusOn(rows, e, after.id) == Some(status);
      Accrued(rows, events[after.id := after], e, status) ==
        Accrued(rows, events, e, status) + (if hit then Weight(after) - Weight(events[after.id]) else 0)
  {
    var id := after.id;
    var events' := events[id := after];
    var rest := WithoutEvent(rows, id);
    WithoutEventContents(rows, id);
    AccruedFrame(rest, events, events', e, status);
    AccruedSplit(rows, events, id, e, status);
    AccruedSplit(rows, events', id, e, status);
  }

  /** The update pair keeps every counter equal to the sum over the attendance rows with the new times. */
  lemma UpdateKeepsConsistent(members: map<Email, Tally>, rows: seq<Attendance>, events: map<nat, Event>, after: Event)
    requires UniqueKeys(rows) && after.id in events && events[after.id].id == after.id
    requires Consistent(members, rows, events)
    ensures Consistent(Adjusted(Adjusted(members, rows, events[after.id], true), rows, after, false),
                       rows, events[after.id := after])
  {
    var id := after.id;
    var before := events[id];
    var events' := events[id := after];
    var m1 := Adjusted(members, rows, before, true);
    var m' := Adjusted(m1, rows, after, false);
    forall e | e in m'
      ensures m'[e].minutes == Accrued(rows, events', e, Confirmed)
      ensures m'[e].minutesNotNeeded == Accrued(rows, events', e, NotNeeded)
    {
      assert e in members && e in m1;
      assert members[e].minutes == Accrued(rows, events, e, Confirmed);
      assert members[e].minutesNotNeeded == Accrued(rows, events, e, NotNeeded);
      AdjustedAt(members, rows, before, true, e);
      AdjustedAt(m1, rows, after, false, e);
      AccruedAfterReplace(rows, events, after, e, Confirmed);
      AccruedAfterReplace(rows, events, after, e, NotNeeded);
    }
  }

  /** Deducting the event and dropping its rows and the event keeps every counter equal to the sum. */
  lemma DestroyKeepsConsistent(members: map<Email, Tally>, rows: seq<Attendance>, events: map<nat, Event>, id: nat)
    requires UniqueKeys(rows) && id in events && events[id].id == id
    requires Consistent(members, rows, events)
    ensures Consistent(Adjusted(members, rows, events[id], true), WithoutEvent(rows, id), events - {id})
  {
    var m' := Adjusted(members, rows, events[id], true);
    var rest := WithoutEvent(rows, id);
    var events' := events - {id};
    WithoutEventContents(rows, id);
    forall e | e in m'
      ensures m'[e].minutes == Accrued(rest, events', e, Confirmed)
      ensures m'[e].minutesNotNeeded == Accrued(rest, events', e, NotNeeded)
    {
      AdjustedAt(members, rows, events[id], true, e);
      AccruedFrame(rest, events, events', e, Confirmed);
      AccruedFrame(rest, events, events', e, NotNeeded);
      AccruedSplit(rows, events, id, e, Confirmed);
      AccruedSplit(rows, events, id, e, NotNeeded);
    }
  }

  // ---------------------------------------------------------------------
  // The hooks as written (see Findings in README.md)
  // ---------------------------------------------------------------------

  /**
   * handleEventUpdateOnAttendance as written: the member lookup calls
   * `sequelize.models.findById`, which is not a function, so the returned
   * promise rejects as soon as a non-meeting event has an attendance row, and
   * no counter is written.
   */
  function HandleAsWritten(members: map<Email, Tally>, rows: seq<Attendance>, ev: Event, deduct: bool): (r: Result<map<Email, Tally>, string>)
    ensures r.Ok? ==> r.value == members
    ensures r.Err? <==> !ev.meeting && exists k :: 0 <= k < |rows| && rows[k].eventId == ev.id
  {
    if ev.meeting then Ok(members)
    else
      var found := RowsOf(rows, ev.id);
      RowsOfContents(rows, ev.id);
      assert found == [] <==> forall k :: 0 <= k < |rows| ==> rows[k].eventId != ev.id by {
        if found != [] { assert found[0] in found; }
        forall k | 0 <= k < |rows| && rows[k].eventId == ev.id ensures found != [] { assert rows[k] in rows; }
      }
      if found == [] then Ok(members)
      else Err("TypeError: findById is not a function")
  }

  /** A confirmed member of a non-empty event loses the credit the intended lookup gives them. */
  lemma FindByIdBreaksHook(members: map<Email, Tally>, rows: seq<Attendance>, ev: Event, k: nat)
    requires UniqueKeys(rows) && k < |rows|
    requires rows[k].eventId == ev.id && rows[k].status == Confirmed && rows[k].memberEmail in members
    requires !ev.meeting && Length(ev) != 0
    ensures HandleAsWritten(members, rows, ev, false).Err?
    ensures Adjusted(members, rows, ev, false)[rows[k].memberEmail] != members[rows[k].memberEmail]
  {
    ConfirmedGainsLength(members, rows, ev, false, k);
  }

  /**
   * The update pair as the ORM runs it: beforeUpdate receives the instance
   * that already carries the new times, so both hooks read the new length.
   * This shows only once the member lookup of the hook works: as written, the
   * hook rejects first on any non-meeting event with a row (`HandleAsWritten`).
   */
  function UpdatePairAsWritten(members: map<Email, Tally>, rows: seq<Attendance>, after: Event): (r: map<Email, Tally>)
    ensures r == members
  {
    DeductUndoesAdd(members, rows, after);
    Adjusted(Adjusted(members, rows, after, true), rows, after, false)
  }

  /** With the stale before-image, changing a confirmed member's event length breaks the invariant. */
  lemma StaleBeforeImageBreaksConsistency(members: map<Email, Tally>, rows: seq<Attendance>, events: map<nat, Event>, after: Event, k: nat)
    requires UniqueKeys(rows) && after.id in events && k < |rows|
    requires rows[k].eventId == after.id && rows[k].status == Confirmed && rows[k].memberEmail in members
    requires !after.meeting && !events[after.id].meeting && Length(after) != Length(events[after.id])
    requires Consistent(members, rows, events)
    ensures !Consistent(UpdatePairAsWritten(members, rows, after), rows, events[after.id := after])
  {
    var e := rows[k].memberEmail;
    StatusOfRow(rows, k);
    AccruedAfterReplace(rows, events, after, e, Confirmed);
  }
}
