# Appointment admission in the hospital booking service

This project models the appointment controller of a small Spring booking service, where a
patient, a doctor and a room are booked for a time range. It also proves properties of the
model. The core is the admission rule of `createAppointment`. A candidate with a missing or
non-positive time range is refused with BAD_REQUEST. Otherwise every stored appointment is
scanned, and the first one the candidate overlaps refuses it with NOT_ACCEPTABLE. Otherwise the
candidate is saved, and the list read before the scan comes back with the saved appointment at
its end. The model also covers the other endpoints of the controller: list all, find by id,
delete by id and delete all.

- `appointment.dfy`, module `Appointments`: the `Appointment` record and its two constructors.
  It also holds the validation guard `IsMalformed`, the overlap relation `Overlaps` and the
  overlap contract written in `src/test/java/com/example/demo/EntityUnitTest.java`.
  An instant is an integer number of minutes. A room is identified by its name. Patients and
  doctors are opaque ids. A field that Java may leave null is an `Option`. The setters the
  tests call are datatype updates such as `a.(startsAt := Some(t))`.
- `appointment_controller.dfy`, module `Controller`: the class `AppointmentController`. Its
  field `stored` is the repository's contents in `findAll` order. Its field `nextId` is the id
  that `save` assigns next. HTTP statuses are the constructors of `Response`. `Valid()` is the
  store invariant: every stored appointment is well-formed, ids are distinct and below
  `nextId`. `Admitted(s)` is the invariant the admission rule actually keeps: no appointment
  overlaps, as receiver, any appointment stored before it. Every method preserves it.

The source of `Appointment.overlaps` is not part of this model. The relation is taken branch by
branch from the test doc comments, with the candidate as receiver, as the controller calls it.
Two appointments overlap when they are in the same room and one of these holds:
- the starts are equal;
- the finishes are equal;
- the argument finishes inside the receiver;
- the argument starts inside the receiver.

For well-formed ranges, this is interval intersection except for one case: a receiver that
lies strictly inside the argument does not overlap it (`Overlaps`'s ensures,
`OverlapsAsymmetry`). So the relation is not symmetric. A candidate strictly inside an
existing booking of the same room is admitted. `AdmittedStoreMayDoubleBook` shows a store that
the rule lets double-book. `AdmittedIntersectionsAreContainments` shows that this is the only
double-booking it lets through.

Touching end points are not an overlap, as EntityUnitTest.java lines 244-254 and 359-369
assert (`BackToBackDoNotOverlap`, `OneBookingScenario`).

## Model

| member | source | states |
|---|---|---|
| `Appointments.NewAppointment` | src/test/java/com/example/demo/EntityUnitTest.java:197-209 | patient, doctor, room, start and finish are stored exactly as given; the result passes the guard iff start < finish |
| `Appointments.EmptyAppointment` | src/test/java/com/example/demo/EntityUnitTest.java:216-224 | patient, doctor, room, start and finish are all unset, so the guard refuses it |
| `Appointments.IsMalformed` | src/main/java/com/example/demo/controllers/AppointmentController.java:65 | the four-way null / isAfter / isEqual test holds exactly when the appointment lacks a positive-length range |
| `Appointments.Overlaps` | src/test/java/com/example/demo/EntityUnitTest.java:226-369 | for well-formed ranges: overlap iff same room, the ranges intersect, and the receiver is not strictly inside the argument |
| `Appointments.DifferentRoomsNeverOverlap` | src/test/java/com/example/demo/EntityUnitTest.java:230-238 | different rooms never overlap, whatever the times |
| `Appointments.EqualStartsOverlap` | src/test/java/com/example/demo/EntityUnitTest.java:293-299 | same room and equal starts overlap |
| `Appointments.EqualFinishesOverlap` | src/test/java/com/example/demo/EntityUnitTest.java:305-311 | same room and equal finishes overlap |
| `Appointments.FinishInsideOverlaps` | src/test/java/com/example/demo/EntityUnitTest.java:313-332 | A.start < B.finish < A.finish in one room overlaps |
| `Appointments.StartInsideOverlaps` | src/test/java/com/example/demo/EntityUnitTest.java:334-353 | A.start < B.start < A.finish in one room overlaps |
| `Appointments.BackToBackDoNotOverlap` | src/test/java/com/example/demo/EntityUnitTest.java:359-369 | when A finishes exactly as B starts, neither overlaps the other |
| `Appointments.DuplicateOverlaps` | src/test/java/com/example/demo/EntityUnitTest.java:293-299 | an appointment with a room overlaps any copy of itself, whatever the copy's id |
| `Appointments.OverlapsAsymmetry` | src/test/java/com/example/demo/EntityUnitTest.java:313-353 | A overlaps B but B does not overlap A iff they share a room and B lies strictly inside A |
| `Appointments.OverlapsSymmetricOutsideContainment` | src/test/java/com/example/demo/EntityUnitTest.java:313-353 | when neither range lies strictly inside the other, the relation is symmetric |
| `Appointments.ContainedRangeIsAsymmetric` | src/test/java/com/example/demo/EntityUnitTest.java:334-353 | 10:00-12:00 overlaps 10:30-11:30 in one room, but not the other way round |
| `Controller.FindById` | src/main/java/com/example/demo/controllers/AppointmentController.java:44 | a found appointment is stored and carries the id; nothing is found iff no stored appointment carries it |
| `Controller.RemoveId` | src/main/java/com/example/demo/controllers/AppointmentController.java:96 | what remains is exactly the stored appointments with another id |
| `Controller.RemoveIdRemovesOne` | src/main/java/com/example/demo/controllers/AppointmentController.java:90-96 | with distinct ids, deleting a present id shortens the store by exactly one |
| `Controller.RemoveIdAbsent` | src/main/java/com/example/demo/controllers/AppointmentController.java:90-94 | deleting an absent id leaves the store as it was |
| `Controller.RemoveIdWellFormed` | src/main/java/com/example/demo/controllers/AppointmentController.java:96 | deleting by id keeps every stored appointment well-formed |
| `Controller.RemoveIdUniqueIds` | src/main/java/com/example/demo/controllers/AppointmentController.java:96 | deleting by id keeps ids distinct |
| `Controller.RemoveIdAdmitted` | src/main/java/com/example/demo/controllers/AppointmentController.java:96 | deleting by id keeps the admission invariant |
| `Controller.AdmittedIntersectionsAreContainments` | src/main/java/com/example/demo/controllers/AppointmentController.java:74-80 | in an admission-built store, a later same-room appointment whose range meets an earlier one lies strictly inside it |
| `Controller.AdmittedStoreMayDoubleBook` | src/main/java/com/example/demo/controllers/AppointmentController.java:74-80 | 10:00-12:00 followed by 10:30-11:30 in one room satisfies the admission invariant although the two intersect |
| `Controller.OneBookingScenario` | src/main/java/com/example/demo/controllers/AppointmentController.java:74-77 | against Room 1 at 19:30-20:30: 20:00-21:00 in Room 1 conflicts; the same slot in Room 2 does not; 20:30-21:30 in Room 1 does not |
| `Controller.OtherRoomsNeverConflict` | src/main/java/com/example/demo/controllers/AppointmentController.java:74-77 | if every stored appointment is in another room, the scan finds no conflict |
| `Controller.ResubmissionConflicts` | src/main/java/com/example/demo/controllers/AppointmentController.java:74-81 | once a well-formed appointment with a room is saved, it conflicts with its own saved copy |
| `Controller.AppointmentController.GetAllAppointments` | src/main/java/com/example/demo/controllers/AppointmentController.java:30-40 | NO_CONTENT iff the store is empty, otherwise OK with all stored appointments in order |
| `Controller.AppointmentController.GetAppointmentById` | src/main/java/com/example/demo/controllers/AppointmentController.java:43-51 | NOT_FOUND iff no stored appointment has the id, otherwise OK with a stored appointment carrying it |
| `Controller.AppointmentController.CreateAppointment` | src/main/java/com/example/demo/controllers/AppointmentController.java:64-84 | BAD_REQUEST for a malformed candidate whatever the store holds; NOT_ACCEPTABLE if the candidate overlaps a stored appointment; OK iff neither, and then the store gains exactly the candidate with a fresh id and the list read before the scan is returned with it appended; no change except on OK; keeps the store and admission invariants |
| `Controller.AppointmentController.DeleteAppointment` | src/main/java/com/example/demo/controllers/AppointmentController.java:88-100 | NOT_FOUND and no change iff the id is absent; otherwise OK, the store is the old one in the same order without that appointment, one shorter; keeps both invariants |
| `Controller.AppointmentController.DeleteAllAppointments` | src/main/java/com/example/demo/controllers/AppointmentController.java:103-106 | OK, and the store is empty |
| `Controller.SubmitTwice` | src/main/java/com/example/demo/controllers/AppointmentController.java:64-84 | the same well-formed appointment with a room, submitted twice, is refused with NOT_ACCEPTABLE the second time |

## Left out

- Spring MVC and HTTP: `@RestController`, the routes and `ResponseEntity` are replaced by the `Response` datatype.
- JPA: `save` is modelled as "append with the fresh id `nextId`". Saving a candidate whose id already exists would update that row in JPA. The model does not capture this and always appends.
- The repository's own generation of ids, and the ordering `findAll` really returns, are not modelled. The model's order is insertion order.
- The race between `findAll` and `save` under concurrent requests, and any per-room locking. This is a concurrency concern, outside a sequential model.
- `Appointments.Overlaps`: the Java implementation of `Appointment.overlaps` is not part of this model. The predicate follows the four branches the tests name. Java's behaviour when a room is null is not visible, so the model treats an appointment without a room as being in no room: it overlaps nothing.
- Store contents: a stored appointment without times, or with a start not before its finish, is excluded by the store invariant. The Java code would call `overlaps` on such a row. In the model, only `createAppointment` fills the store, and it never stores one.
- `LocalDateTime` parsing, formatting and time zones: instants are integer minutes.
- The name, age and e-mail of Person, Doctor and Patient, and their tests at EntityUnitTest.java lines 48-191. They play no part in admission, so patients and doctors are opaque ids.
- The Doctor, Patient and Room controller tests in `src/test/java/com/example/demo/EntityControllerUnitTest.java`. They only check status codes against mocked repositories.
- The efficiency remark in the comment of `createAppointment`.
