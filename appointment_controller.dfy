/**
 * The appointment controller: the REST endpoints over the appointment
 * repository, with the admission rule of createAppointment (validate, scan
 * every stored appointment for an overlap, then save and append).
 *
 * The repository is the `stored` sequence of the controller object, in the
 * order findAll returns it; save appends with the fresh id `nextId`. HTTP
 * statuses become the constructors of Response.
 */
module Controller {

  import opened Appointments

  /** The status of a ResponseEntity, with its body when the status is OK. */
  datatype Response<T> = Ok(body: T) | NoContent | NotFound | BadRequest | NotAcceptable

  predicate AllWellFormed(s: seq<Appointment>) {
    forall i | 0 <= i < |s| :: IsWellFormed(s[i])
  }

  predicate UniqueIds(s: seq<Appointment>) {
    forall i, j | 0 <= i < j < |s| :: s[i].id != s[j].id
  }

  /** Some appointment of `s` is overlapped by the candidate (the candidate is the receiver). */
  predicate HasConflict(candidate: Appointment, s: seq<Appointment>)
    requires HasTimes(candidate) && AllWellFormed(s)
  {
    exists i | 0 <= i < |s| :: Overlaps(candidate, s[i])
  }

  /**
   * What the admission rule guarantees of a store it alone has filled: no
   * appointment overlaps, as receiver, any appointment admitted before it.
   */
  predicate Admitted(s: seq<Appointment>)
    requires AllWellFormed(s)
  {
    forall i, j | 0 <= i < j < |s| :: !Overlaps(s[j], s[i])
  }

  /** The repository's findById: the first stored appointment with that id. */
  function FindById(s: seq<Appointment>, id: int): (r: Option<Appointment>)
    ensures r.Some? ==> r.value in s && r.value.id == id
    ensures r.None? <==> forall i | 0 <= i < |s| :: s[i].id != id
  {
    if s == [] then None
    else if s[0].id == id then Some(s[0])
    else FindById(s[1..], id)
  }

  /** The repository's deleteById: the store without the appointments carrying that id. */
  function RemoveId(s: seq<Appointment>, id: int): (r: seq<Appointment>)
    ensures forall a :: a in r <==> a in s && a.id != id
    ensures |r| <= |s|
  {
    if s == [] then []
    else if s[0].id == id then RemoveId(s[1..], id)
    else [s[0]] + RemoveId(s[1..], id)
  }

  /** With unique ids, removing a present id removes exactly one appointment. */
  lemma {:induction false} RemoveIdRemovesOne(s: seq<Appointment>, id: int)
    requires UniqueIds(s)
    requires FindById(s, id).Some?
    ensures |RemoveId(s, id)| == |s| - 1
  {
    if s[0].id == id {
      assert forall i | 0 <= i < |s[1..]| :: s[1..][i].id != id by {
        forall i | 0 <= i < |s[1..]| ensures s[1..][i].id != id {
          assert s[1..][i] == s[i + 1];
        }
      }
      RemoveIdAbsent(s[1..], id);
    } else {
      assert UniqueIds(s[1..]) by {
        forall i, j | 0 <= i < j < |s[1..]| ensures s[1..][i].id != s[1..][j].id {
          assert s[1..][i] == s[i + 1] && s[1..][j] == s[j + 1];
        }
      }
      RemoveIdRemovesOne(s[1..], id);
    }
  }

  /** Removing an absent id changes nothing. */
  lemma {:induction false} RemoveIdAbsent(s: seq<Appointment>, id: int)
    requires forall i | 0 <= i < |s| :: s[i].id != id
    ensures RemoveId(s, id) == s
  {
    if s != [] {
      assert s[0].id != id;
      assert forall i | 0 <= i < |s[1..]| :: s[1..][i].id != id by {
        forall i | 0 <= i < |s[1..]| ensures s[1..][i].id != id {
          assert s[1..][i] == s[i + 1];
        }
      }
      RemoveIdAbsent(s[1..], id);
      assert [s[0]] + s[1..] == s;
    }
  }

  /** A suffix of the store keeps each of the store's properties. */
  lemma TailPreserves(s: seq<Appointment>)
    requires s != [] && AllWellFormed(s)
    ensures AllWellFormed(s[1..])
    ensures UniqueIds(s) ==> UniqueIds(s[1..])
    ensures Admitted(s) ==> Admitted(s[1..])
  {
  }

  /** Deleting by id leaves only well-formed appointments. */
  lemma RemoveIdWellFormed(s: seq<Appointment>, id: int)
    requires AllWellFormed(s)
    ensures AllWellFormed(RemoveId(s, id))
  {
  }

  /** Deleting by id keeps the ids distinct. */
  lemma {:induction false} RemoveIdUniqueIds(s: seq<Appointment>, id: int)
    requires AllWellFormed(s) && UniqueIds(s)
    ensures UniqueIds(RemoveId(s, id))
  {
    if s != [] {
      var t := s[1..];
      TailPreserves(s);
      RemoveIdUniqueIds(t, id);
      var rt := RemoveId(t, id);
      if s[0].id != id {
        var r := [s[0]] + rt;
        forall k | 0 <= k < |rt| ensures rt[k].id != s[0].id {
          assert rt[k] in t;
          var m :| 0 <= m < |t| && t[m] == rt[k];
          assert s[m + 1] == rt[k];
        }
        forall i, j | 0 <= i < j < |r| ensures r[i].id != r[j].id {
          assert r[j] == rt[j - 1];
          if i > 0 { assert r[i] == rt[i - 1]; }
        }
      }
    }
  }

  /**
   * Deleting by id keeps the admission invariant: what remains is a
   * subsequence, each appointment still free of overlaps with those before it.
   */
  lemma {:induction false} RemoveIdAdmitted(s: seq<Appointment>, id: int)
    requires AllWellFormed(s) && Admitted(s)
    ensures AllWellFormed(RemoveId(s, id))
    ensures Admitted(RemoveId(s, id))
  {
    RemoveIdWellFormed(s, id);
    if s != [] {
      var t := s[1..];
      TailPreserves(s);
      RemoveIdAdmitted(t, id);
      var rt := RemoveId(t, id);
      if s[0].id != id {
        var r := [s[0]] + rt;
        forall k | 0 <= k < |rt| ensures !Overlaps(rt[k], s[0]) {
          assert rt[k] in t;
          var m :| 0 <= m < |t| && t[m] == rt[k];
          assert s[m + 1] == rt[k];
        }
        forall i, j | 0 <= i < j < |r| ensures !Overlaps(r[j], r[i]) {
          assert r[j] == rt[j - 1];
          if i > 0 { assert r[i] == rt[i - 1]; }
        }
      }
    }
  }

  /**
   * What an admission-built store can still hold: two same-room appointments
   * whose ranges intersect, the later one lying strictly inside the earlier.
   * No other intersection survives the admission rule.
   */
  lemma AdmittedIntersectionsAreContainments(s: seq<Appointment>, i: nat, j: nat)
    requires AllWellFormed(s) && Admitted(s)
    requires i < j < |s|
    requires SameRoom(s[i], s[j]) && Intersect(s[i], s[j])
    ensures StrictlyInside(s[j], s[i])
  {
  }

  /**
   * ... and such a store exists: 10:00-12:00 then 10:30-11:30 in one room
   * passes admission in that order.
   */
  lemma AdmittedStoreMayDoubleBook()
    ensures var outer := NewAppointment(1, 1, "Room 1", 600, 720);
            var inner := NewAppointment(2, 2, "Room 1", 630, 690);
            AllWellFormed([outer, inner]) && Admitted([outer, inner])
            && SameRoom(outer, inner) && Intersect(outer, inner)
  {
  }

  /**
   * One booking, Room 1 at 19:30-20:30. A candidate at 20:00-21:00 in Room 1
   * conflicts with it; the same slot in Room 2 does not; and 20:30-21:30 in
   * Room 1, which only touches it, does not either.
   */
  lemma OneBookingScenario()
    ensures var existing := [NewAppointment(1, 1, "Room 1", 1170, 1230)];
            AllWellFormed(existing)
            && HasConflict(NewAppointment(2, 2, "Room 1", 1200, 1260), existing)
            && !HasConflict(NewAppointment(2, 2, "Room 2", 1200, 1260), existing)
            && !HasConflict(NewAppointment(2, 2, "Room 1", 1230, 1290), existing)
  {
    var existing := [NewAppointment(1, 1, "Room 1", 1170, 1230)];
    assert Overlaps(NewAppointment(2, 2, "Room 1", 1200, 1260), existing[0]);
  }

  /** Room independence: appointments in other rooms never cause a conflict. */
  lemma OtherRoomsNeverConflict(candidate: Appointment, s: seq<Appointment>)
    requires HasTimes(candidate) && AllWellFormed(s)
    requires forall i | 0 <= i < |s| :: s[i].room != candidate.room
    ensures !HasConflict(candidate, s)
  {
  }

  /** Submitting an admitted appointment again is a conflict with its saved copy. */
  lemma ResubmissionConflicts(candidate: Appointment, s: seq<Appointment>, id: int)
    requires IsWellFormed(candidate) && candidate.room.Some? && AllWellFormed(s)
    ensures AllWellFormed(s + [candidate.(id := id)])
    ensures HasConflict(candidate, s + [candidate.(id := id)])
  {
    var s' := s + [candidate.(id := id)];
    assert AllWellFormed(s') by {
      forall i | 0 <= i < |s'| ensures IsWellFormed(s'[i]) {
        if i < |s| { assert s'[i] == s[i]; }
      }
    }
    assert Overlaps(candidate, s'[|s|]);
  }

  class AppointmentController {
    /** The repository's contents, in findAll order. */
    var stored: seq<Appointment>
    /** The id the repository assigns on the next save. */
    var nextId: nat

    ghost predicate Valid()
      reads this
    {
      AllWellFormed(stored) && UniqueIds(stored)
      && forall i | 0 <= i < |stored| :: stored[i].id < nextId
    }

    constructor ()
      ensures Valid() && stored == [] && nextId == 1
    {
      stored := [];
      nextId := 1;
    }

    /** GET /appointments: copy findAll into a fresh list; NO_CONTENT when it is empty. */
    method GetAllAppointments() returns (r: Response<seq<Appointment>>)
      ensures r == NoContent <==> stored == []
      ensures r != NoContent ==> r == Ok(stored)
    {
      var all := stored;
      var appointments: seq<Appointment> := [];
      for i := 0 to |all|
        invariant appointments == all[..i]
      {
        appointments := appointments + [all[i]];
      }
      assert all[..|all|] == all;
      if appointments == [] {
        return NoContent;
      }
      return Ok(appointments);
    }

    /** GET /appointments/{id}: the stored appointment with that id, or NOT_FOUND. */
    method GetAppointmentById(id: int) returns (r: Response<Appointment>)
      ensures r == NotFound <==> forall i | 0 <= i < |stored| :: stored[i].id != id
      ensures r != NotFound ==> r.Ok? && r.body in stored && r.body.id == id
    {
      var appointment := FindById(stored, id);
      if appointment.Some? {
        return Ok(appointment.value);
      } else {
        return NotFound;
      }
    }

    /**
     * POST /appointment. A malformed candidate is refused before the store is
     * read; otherwise the first stored appointment the candidate overlaps
     * refuses it; otherwise the candidate is saved with a fresh id, and the
     * list read before the scan is returned with the saved appointment at its
     * end. The store changes only on success.
     */
    method CreateAppointment(candidate: Appointment) returns (r: Response<seq<Appointment>>)
      requires Valid()
      modifies this
      ensures Valid()
      ensures IsMalformed(candidate) ==> r == BadRequest
      ensures !IsMalformed(candidate) && HasConflict(candidate, old(stored)) ==> r == NotAcceptable
      ensures r.Ok? <==> !IsMalformed(candidate) && !HasConflict(candidate, old(stored))
      ensures !r.Ok? ==> stored == old(stored) && nextId == old(nextId)
      ensures r.Ok? ==>
                var saved := candidate.(id := old(nextId));
                && stored == old(stored) + [saved]
                && r.body == stored
                && nextId == old(nextId) + 1
      ensures Admitted(old(stored)) ==> Admitted(stored)
    {
      if IsMalformed(candidate) {
        return BadRequest;
      }

      var appointmentsList := stored;

      for i := 0 to |appointmentsList|
        invariant forall k | 0 <= k < i :: !Overlaps(candidate, appointmentsList[k])
      {
        if Overlaps(candidate, appointmentsList[i]) {
          return NotAcceptable;
        }
      }

      var savedAppointment := candidate.(id := nextId);
      stored := stored + [savedAppointment];
      nextId := nextId + 1;
      appointmentsList := appointmentsList + [savedAppointment];

      assert forall k | 0 <= k < |old(stored)| :: stored[k] == old(stored)[k];
      return Ok(appointmentsList);
    }

    /** DELETE /appointments/{id}: NOT_FOUND and no change for an absent id. */
    method DeleteAppointment(id: int) returns (r: Response<()>)
      requires Valid()
      modifies this
      ensures Valid() && nextId == old(nextId)
      ensures r == NotFound <==> forall i | 0 <= i < |old(stored)| :: old(stored)[i].id != id
      ensures r == NotFound ==> stored == old(stored)
      ensures r != NotFound ==>
                && r == Ok(())
                && stored == RemoveId(old(stored), id)
                && (forall a :: a in stored <==> a in old(stored) && a.id != id)
                && |stored| == |old(stored)| - 1
      ensures Admitted(old(stored)) ==> Admitted(stored)
    {
      var appointment := FindById(stored, id);
      if appointment.None? {
        return NotFound;
      }
      RemoveIdWellFormed(stored, id);
      RemoveIdUniqueIds(stored, id);
      if Admitted(stored) {
        RemoveIdAdmitted(stored, id);
      }
      RemoveIdRemovesOne(stored, id);
      stored := RemoveId(stored, id);
      return Ok(());
    }

    /** DELETE /appointments: the store is emptied. */
    method DeleteAllAppointments() returns (r: Response<()>)
      requires Valid()
      modifies this
      ensures Valid() && stored == [] && nextId == old(nextId)
      ensures r == Ok(())
    {
      stored := [];
      return Ok(());
    }
  }

  /**
   * A client of the controller: the same well-formed appointment with a room
   * submitted twice is refused the second time, whatever the store held.
   */
  method SubmitTwice(controller: AppointmentController, candidate: Appointment)
    returns (first: Response<seq<Appointment>>, second: Response<seq<Appointment>>)
    requires controller.Valid()
    requires IsWellFormed(candidate) && candidate.room.Some?
    modifies controller
    ensures first.Ok? || first == NotAcceptable
    ensures second == NotAcceptable
  {
    first := controller.CreateAppointment(candidate);
    if first.Ok? {
      ResubmissionConflicts(candidate, old(controller.stored), old(controller.nextId));
    } else {
      assert forall i | 0 <= i < |controller.stored| :: controller.stored[i] == old(controller.stored)[i];
    }
    second := controller.CreateAppointment(candidate);
  }
}
