/**
 * The Event model's lifecycle hooks over the three tables they touch.
 *
 * A `Database` holds the Member rows (their accrued counters, keyed by
 * email), the Event rows (keyed by id) and the Attendance join table.  The
 * hooks run sequentially: the per-row promises of the source are issued one
 * after the other.
 */
module EventHooks {
  import opened EventModel

  class Database {
    var members: map<Email, Tally>
    var events: map<nat, Event>
    var attendances: seq<Attendance>

    /** The table constraints: composite attendance key, foreign keys, events stored under their id. */
    ghost predicate Valid()
      reads this
    {
      && UniqueKeys(attendances)
      && (forall r :: r in attendances ==> r.memberEmail in members && r.eventId in events)
      && (forall id :: id in events ==> events[id].id == id)
    }

    /** Counters agree with the attendance rows (the aggregation rule's invariant). */
    ghost predicate Consistent()
      reads this
    {
      EventModel.Consistent(members, attendances, events)
    }

    constructor ()
      ensures Valid() && Consistent()
      ensures members == map[] && events == map[] && attendances == []
    {
      members, events, attendances := map[], map[], [];
    }

    /** `Attendance.findAll({ where: { event_id: eventId } })`. */
    method FindAll(eventId: nat) returns (found: seq<Attendance>)
      ensures found == RowsOf(attendances, eventId)
    {
      found := [];
      for i := 0 to |attendances|
        invariant found == RowsOf(attendances[..i], eventId)
      {
        assert attendances[..i + 1][..i] == attendances[..i];
        if attendances[i].eventId == eventId {
          found := found + [attendances[i]];
        }
      }
      assert attendances[..|attendances|] == attendances;
    }

    /** The member row of each attendance row, looked up by the row's member email. */
    method LoadMembers(found: seq<Attendance>) returns (output: seq<Tally>)
      requires forall r :: r in found ==> r.memberEmail in members
      ensures |output| == |found|
      ensures forall j :: 0 <= j < |found| ==> output[j] == members[found[j].memberEmail]
    {
      output := [];
      for i := 0 to |found|
        invariant |output| == i
        invariant forall j :: 0 <= j < i ==> output[j] == members[found[j].memberEmail]
      {
        assert found[i] in found;
        output := output + [members[found[i].memberEmail]];
      }
    }

    /**
     * The write-back loop: for each row, `output[i].update(...)` with the
     * loaded value plus `length` in the counter the row's status selects.
     */
    method WriteCredits(found: seq<Attendance>, eventId: nat, output: seq<Tally>, length: int)
      requires |output| == |found|
      requires forall j :: 0 <= j < |found| ==> found[j].eventId == eventId
      requires forall i, j :: 0 <= i < j < |found| ==> found[i].memberEmail != found[j].memberEmail
      requires forall j :: 0 <= j < |found| ==> found[j].memberEmail in members && output[j] == members[found[j].memberEmail]
      modifies this`members
      ensures members.Keys == old(members).Keys
      ensures forall e :: e in members ==> members[e] == Credit(old(members)[e], StatusOn(found, e, eventId), length)
    {
      for i := 0 to |found|
        invariant members.Keys == old(members).Keys
        invariant forall e :: e in members ==> members[e] == Credit(old(members)[e], StatusOn(found[..i], e, eventId), length)
        invariant forall j :: i <= j < |found| ==> members[found[j].memberEmail] == old(members)[found[j].memberEmail]
      {
        var row := found[i];
        if row.status == Confirmed {
          members := members[row.memberEmail := output[i].(minutes := output[i].minutes + length)];
        }
        if row.status == NotNeeded {
          members := members[row.memberEmail := output[i].(minutesNotNeeded := output[i].minutesNotNeeded + length)];
        }
        assert found[..i + 1] == found[..i] + [row];
        forall e | e in members
          ensures members[e] == Credit(old(members)[e], StatusOn(found[..i + 1], e, eventId), length)
        {
          StatusOnAppend(found[..i], row, e, eventId);
        }
      }
      assert found[..|found|] == found;
    }

    /**
     * handleEventUpdateOnAttendance(ev, deduct): skip meetings; otherwise load
     * the event's rows, load each row's member, and write back
     * `minutes + length` for confirmed rows and `minutes_not_needed + length`
     * for not-needed rows, the length negated when deducting.
     */
    method HandleEventUpdateOnAttendance(ev: Event, deduct: bool)
      requires Valid()
      modifies this`members
      ensures Valid()
      ensures members == Adjusted(old(members), attendances, ev, deduct)
      ensures attendances == old(attendances) && events == old(events)
    {
      if ev.meeting {
        return;
      }
      var found := FindAll(ev.id);
      RowsOfContents(attendances, ev.id);
      RowsOfDistinctMembers(attendances, ev.id);
      assert forall j :: 0 <= j < |found| ==> found[j] in found;
      // each attendance row's member, loaded before any write
      assert forall r :: r in found ==> r.memberEmail in members;
      var output := LoadMembers(found);
      var length := ev.endTime - ev.startTime;
      if deduct {
        length := length * -1;
      }
      ghost var m0 := members;
      WriteCredits(found, ev.id, output, length);
      assert length == Signed(ev, deduct);
      AdjustedByEventRows(m0, members, attendances, ev, deduct);
    }

    /** `attendance.destroy()` for the row of (email, eventId). */
    method DestroyAttendance(email: Email, eventId: nat)
      requires Valid()
      modifies this`attendances
      ensures Valid()
      ensures attendances == DropKeys(old(attendances), eventId, {email})
      ensures members == old(members) && events == old(events)
    {
      DropKeysUnique(attendances, eventId, {email});
      DropKeysContents(attendances, eventId, {email});
      attendances := DropKeys(attendances, eventId, {email});
    }

    /** The loop that calls `destroy()` on each of the event's rows in turn. */
    method DestroyRows(found: seq<Attendance>, eventId: nat) returns (ghost destroyed: set<Email>)
      requires Valid()
      modifies this`attendances
      ensures Valid()
      ensures attendances == DropKeys(old(attendances), eventId, destroyed)
      ensures destroyed == set j | 0 <= j < |found| :: found[j].memberEmail
    {
      destroyed := {};
      DropKeysNothing(attendances, eventId);
      for i := 0 to |found|
        invariant Valid()
        invariant attendances == DropKeys(old(attendances), eventId, destroyed)
        invariant destroyed == set j | 0 <= j < i :: found[j].memberEmail
      {
        var email := found[i].memberEmail;
        DropKeysStep(old(attendances), eventId, destroyed, email);
        DestroyAttendance(email, eventId);
        destroyed := destroyed + {email};
      }
    }

    /**
     * The beforeDestroy hook: deduct the event's length, then destroy every
     * attendance row of the event one by one.
     */
    method BeforeDestroy(ev: Event)
      requires Valid()
      modifies this`members, this`attendances
      ensures Valid()
      ensures members == Adjusted(old(members), old(attendances), ev, true)
      ensures attendances == WithoutEvent(old(attendances), ev.id)
      ensures events == old(events)
    {
      HandleEventUpdateOnAttendance(ev, true);
      var found := FindAll(ev.id);
      ghost var rows0 := attendances;
      RowsOfContents(rows0, ev.id);
      ghost var destroyed := DestroyRows(found, ev.id);
      forall r | r in rows0 && r.eventId == ev.id
        ensures r.memberEmail in destroyed
      {
        var j :| 0 <= j < |found| && found[j] == r;
      }
      DropKeysAll(rows0, ev.id, destroyed);
    }

    /** `event.destroy()`: the beforeDestroy hook, then the event row itself goes. */
    method Destroy(id: nat)
      requires Valid() && id in events
      modifies this
      ensures Valid()
      ensures members == Adjusted(old(members), old(attendances), old(events)[id], true)
      ensures attendances == WithoutEvent(old(attendances), id)
      ensures events == old(events) - {id}
      ensures old(Consistent()) ==> Consistent()
    {
      ghost var m0, rows0, events0 := members, attendances, events;
      BeforeDestroy(events[id]);
      WithoutEventContents(rows0, id);
      events := events - {id};
      if EventModel.Consistent(m0, rows0, events0) {
        DestroyKeepsConsistent(m0, rows0, events0, id);
      }
    }

    /**
     * `event.update(...)` to the times and flags of `after`: the beforeUpdate
     * hook deducts with the stored (old) times, the row is written, and the
     * afterUpdate hook adds with the new times.
     */
    method Update(after: Event)
      requires Valid() && after.id in events
      modifies this
      ensures Valid()
      ensures members == Adjusted(Adjusted(old(members), attendances, old(events)[after.id], true), attendances, after, false)
      ensures attendances == old(attendances)
      ensures events == old(events)[after.id := after]
      ensures old(Consistent()) ==> Consistent()
    {
      ghost var m0, events0 := members, events;
      var before := events[after.id];
      HandleEventUpdateOnAttendance(before, true);
      events := events[after.id := after];
      HandleEventUpdateOnAttendance(after, false);
      if EventModel.Consistent(m0, attendances, events0) {
        UpdateKeepsConsistent(m0, attendances, events0, after);
      }
    }
  }
}
