/**
 * The scheduler's records. Catalogue entries (courses, classrooms) are read-only
 * values; a gene is one scheduled session; an individual is a fixed-length
 * array of genes that repair updates in place.
 */
module Timetable {

  /** The three session kinds drawn for a gene. */
  datatype SessionKind = Lecture | Tutorial | Practical

  /** A course catalogue entry. The session counts and the enrolment are never read by the scheduler. */
  datatype Course = Course(
    id: string,
    lectures: nat,
    tutorials: nat,
    practicals: nat,
    professor: string,
    assistants: seq<string>,
    students: nat)

  /** A classroom catalogue entry; `roomType` is "lecture" or "lab" in the catalogue. Capacity is never read. */
  datatype Classroom = Classroom(id: string, roomType: string, capacity: nat)

  /** One scheduled session: its identity (course, kind, staff) and its assignment (classroom, timeslot). */
  datatype Gene = Gene(
    course: string,
    sessionType: SessionKind,
    professor: string,
    assistants: seq<string>,
    classroom: string,
    timeslot: string)

  /** The staff a gene names: its professor followed by its assistants (duplicates kept). */
  function Instructors(g: Gene): seq<string> {
    [g.professor] + g.assistants
  }

  /** The room type a session kind needs: practicals go to a lab, everything else to a lecture room. */
  function RoomTypeFor(kind: SessionKind): string {
    if kind == Practical then "lab" else "lecture"
  }

  /** The classroom a gene names is a catalogue room whose type suits the gene's session kind. */
  ghost predicate RoomCompatible(classrooms: seq<Classroom>, g: Gene) {
    exists k :: 0 <= k < |classrooms| && classrooms[k].id == g.classroom
      && classrooms[k].roomType == RoomTypeFor(g.sessionType)
  }

  /** Two genes share a member of staff. */
  ghost predicate SharesInstructor(g: Gene, h: Gene) {
    exists who :: who in Instructors(g) && who in Instructors(h)
  }

  /** No member of staff is booked in two genes at the same timeslot. */
  ghost predicate NoInstructorClash(genes: seq<Gene>) {
    forall i, j :: 0 <= i < j < |genes| && SharesInstructor(genes[i], genes[j])
      ==> genes[i].timeslot != genes[j].timeslot
  }

  /** An (owner, timeslot) occurrence: owner is an instructor or a classroom id. */
  datatype Booking = Booking(who: string, slot: string)
}
