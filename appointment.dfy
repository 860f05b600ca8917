/**
 * The Appointment entity of the booking service and the overlap relation that
 * the admission rule of the appointment controller relies on.
 *
 * Instants are whole minutes on one local time line; a room is known by its
 * name; patients and doctors are opaque identifiers. A field the Java entity
 * may leave null is an Option here.
 */
module Appointments {

  datatype Option<T> = None | Some(value: T)

  type Instant = int
  type RoomId = string
  type PatientId = nat
  type DoctorId = nat

  datatype Appointment = Appointment(
    id: int,
    patient: Option<PatientId>,
    doctor: Option<DoctorId>,
    room: Option<RoomId>,
    startsAt: Option<Instant>,
    finishesAt: Option<Instant>)

  /** Both instants are set. */
  predicate HasTimes(a: Appointment) {
    a.startsAt.Some? && a.finishesAt.Some?
  }

  function Start(a: Appointment): Instant
    requires HasTimes(a)
  {
    a.startsAt.value
  }

  function Finish(a: Appointment): Instant
    requires HasTimes(a)
  {
    a.finishesAt.value
  }

  /** The entity invariant: a time range of positive length. */
  predicate IsWellFormed(a: Appointment) {
    HasTimes(a) && Start(a) < Finish(a)
  }

  /**
   * The five-argument constructor: every field is stored as given; the
   * store assigns the id later (a fresh entity carries the default 0).
   */
  function NewAppointment(patient: PatientId, doctor: DoctorId, room: RoomId,
                          startsAt: Instant, finishesAt: Instant): (a: Appointment)
    ensures a.patient == Some(patient) && a.doctor == Some(doctor) && a.room == Some(room)
    ensures a.startsAt == Some(startsAt) && a.finishesAt == Some(finishesAt)
    ensures IsWellFormed(a) <==> startsAt < finishesAt
  {
    Appointment(0, Some(patient), Some(doctor), Some(room), Some(startsAt), Some(finishesAt))
  }

  /** The no-argument constructor used for deserialisation: nothing is set. */
  function EmptyAppointment(): (a: Appointment)
    ensures a.patient.None? && a.doctor.None? && a.room.None?
    ensures a.startsAt.None? && a.finishesAt.None?
    ensures !IsWellFormed(a)
  {
    Appointment(0, None, None, None, None, None)
  }

  /**
   * The validation guard of createAppointment: a missing start, a missing
   * finish, a start after the finish, or a start equal to the finish. The
   * disjunction short-circuits exactly as the Java one does.
   */
  function IsMalformed(a: Appointment): (r: bool)
    ensures r <==> !IsWellFormed(a)
  {
    a.startsAt.None? || a.finishesAt.None?
    || a.startsAt.value > a.finishesAt.value
    || a.startsAt.value == a.finishesAt.value
  }

  /** Room scoping: both appointments name a room, and it is the same one. */
  predicate SameRoom(a: Appointment, b: Appointment) {
    a.room.Some? && b.room.Some? && a.room.value == b.room.value
  }

  /** The two ranges share an instant other than a touching end point. */
  predicate Intersect(a: Appointment, b: Appointment)
    requires HasTimes(a) && HasTimes(b)
  {
    Start(a) < Finish(b) && Start(b) < Finish(a)
  }

  /** `a` lies strictly inside `b`: it starts later and finishes earlier. */
  predicate StrictlyInside(a: Appointment, b: Appointment)
    requires HasTimes(a) && HasTimes(b)
  {
    Start(b) < Start(a) && Finish(a) < Finish(b)
  }

  /**
   * `a.overlaps(b)`, with `a` the receiver, branch by branch: same room, and
   * equal starts, or equal finishes, or b finishing inside a, or b starting
   * inside a. For well-formed ranges this is interval intersection less the
   * one case the branches miss, a receiver lying strictly inside `b`.
   */
  function Overlaps(a: Appointment, b: Appointment): (r: bool)
    requires HasTimes(a) && HasTimes(b)
    ensures IsWellFormed(a) && IsWellFormed(b) ==>
              (r <==> SameRoom(a, b) && Intersect(a, b) && !StrictlyInside(a, b))
  {
    SameRoom(a, b) &&
    (|| Start(a) == Start(b)
     || Finish(a) == Finish(b)
     || (Start(a) < Finish(b) && Finish(b) < Finish(a))
     || (Start(b) > Start(a) && Start(b) < Finish(a)))
  }

  // ----- The overlap contract, case by case -----

  lemma DifferentRoomsNeverOverlap(a: Appointment, b: Appointment)
    requires HasTimes(a) && HasTimes(b)
    requires a.room != b.room
    ensures !Overlaps(a, b)
  {
  }

  lemma EqualStartsOverlap(a: Appointment, b: Appointment)
    requires HasTimes(a) && HasTimes(b) && SameRoom(a, b)
    requires Start(a) == Start(b)
    ensures Overlaps(a, b)
  {
  }

  lemma EqualFinishesOverlap(a: Appointment, b: Appointment)
    requires HasTimes(a) && HasTimes(b) && SameRoom(a, b)
    requires Finish(a) == Finish(b)
    ensures Overlaps(a, b)
  {
  }

  lemma FinishInsideOverlaps(a: Appointment, b: Appointment)
    requires HasTimes(a) && HasTimes(b) && SameRoom(a, b)
    requires Start(a) < Finish(b) && Finish(b) < Finish(a)
    ensures Overlaps(a, b)
  {
  }

  lemma StartInsideOverlaps(a: Appointment, b: Appointment)
    requires HasTimes(a) && HasTimes(b) && SameRoom(a, b)
    requires Start(a) < Start(b) && Start(b) < Finish(a)
    ensures Overlaps(a, b)
  {
  }

  /** Back-to-back ranges do not overlap, whichever of the two is the receiver. */
  lemma BackToBackDoNotOverlap(a: Appointment, b: Appointment)
    requires IsWellFormed(a) && IsWellFormed(b)
    requires Finish(a) == Start(b)
    ensures !Overlaps(a, b) && !Overlaps(b, a)
  {
  }

  /** An appointment with a room overlaps every copy of itself, whatever its id. */
  lemma DuplicateOverlaps(a: Appointment, id: int)
    requires HasTimes(a) && a.room.Some?
    ensures Overlaps(a, a.(id := id))
  {
  }

  /**
   * Where the relation is not symmetric: for well-formed ranges, `a` overlaps
   * `b` while `b` does not overlap `a` exactly when `b` lies strictly inside
   * `a` in the same room.
   */
  lemma OverlapsAsymmetry(a: Appointment, b: Appointment)
    requires IsWellFormed(a) && IsWellFormed(b)
    ensures Overlaps(a, b) && !Overlaps(b, a) <==> SameRoom(a, b) && StrictlyInside(b, a)
  {
  }

  /** Outside strict containment the relation is symmetric. */
  lemma OverlapsSymmetricOutsideContainment(a: Appointment, b: Appointment)
    requires IsWellFormed(a) && IsWellFormed(b)
    requires !StrictlyInside(a, b) && !StrictlyInside(b, a)
    ensures Overlaps(a, b) == Overlaps(b, a)
  {
  }

  /**
   * A concrete witness of the asymmetry: 10:00-12:00 overlaps 10:30-11:30 in
   * the same room, but 10:30-11:30 does not overlap 10:00-12:00.
   */
  lemma ContainedRangeIsAsymmetric()
    ensures var outer := NewAppointment(1, 1, "Room 1", 600, 720);
            var inner := NewAppointment(1, 1, "Room 1", 630, 690);
            Overlaps(outer, inner) && !Overlaps(inner, outer)
  {
  }
}
