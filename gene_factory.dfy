/**
 * Construction of one gene: a course, a session kind and a timeslot are chosen
 * (the random draws become parameters), and the classroom is the first catalogue
 * room whose type suits the session kind.
 */
module GeneFactory {
  import opened Wrappers
  import opened Timetable

  /** Why a gene cannot be built: an empty course list or timeslot list (a random choice
      from an empty list fails), or no classroom of the needed type (the search for it stops empty). */
  datatype GeneError = NoCourses | NoMatchingRoom | NoTimeslots

  /** The room filter exactly as the scheduler writes it. */
  predicate Suits(kind: SessionKind, room: Classroom) {
    (kind == Practical && room.roomType == "lab") || (kind != Practical && room.roomType == "lecture")
  }

  /** Index of the first catalogue room that suits `kind`, if any. */
  function FirstRoom(classrooms: seq<Classroom>, kind: SessionKind): (r: Option<nat>)
    ensures r.Some? ==>
      && r.value < |classrooms|
      && classrooms[r.value].roomType == RoomTypeFor(kind)
      && forall j :: 0 <= j < r.value ==> classrooms[j].roomType != RoomTypeFor(kind)
    ensures r.None? ==> forall j :: 0 <= j < |classrooms| ==> classrooms[j].roomType != RoomTypeFor(kind)
  {
    if classrooms == [] then None
    else if Suits(kind, classrooms[0]) then Some(0)
    else match FirstRoom(classrooms[1..], kind)
      case None => None
      case Some(k) => Some(k + 1)
  }

  /**
   * Build the gene for the course at `courseDraw`, session kind `kind` and the
   * timeslot at `slotDraw`. The draws stand for the random choices, so each is
   * an index into its (non-empty) list; the failures come in the order the
   * choices are made: course, classroom, timeslot.
   */
  function CreateGene(courses: seq<Course>, classrooms: seq<Classroom>, timeslots: seq<string>,
                      courseDraw: nat, kind: SessionKind, slotDraw: nat): (r: Result<Gene, GeneError>)
    requires courses != [] ==> courseDraw < |courses|
    requires timeslots != [] ==> slotDraw < |timeslots|
    ensures courses == [] ==> r == Failure(NoCourses)
    ensures courses != [] && (forall j :: 0 <= j < |classrooms| ==> classrooms[j].roomType != RoomTypeFor(kind))
      ==> r == Failure(NoMatchingRoom)
    ensures (&& courses != [] && timeslots == []
             && exists j :: 0 <= j < |classrooms| && classrooms[j].roomType == RoomTypeFor(kind))
      ==> r == Failure(NoTimeslots)
    ensures (&& courses != [] && timeslots != []
             && exists j :: 0 <= j < |classrooms| && classrooms[j].roomType == RoomTypeFor(kind))
      ==> r.Success?
    ensures r.Success? ==>
      && courses != [] && timeslots != []
      && r.value.course == courses[courseDraw].id
      && r.value.professor == courses[courseDraw].professor
      && r.value.assistants == courses[courseDraw].assistants
      && r.value.sessionType == kind
      && r.value.timeslot == timeslots[slotDraw]
      && r.value.timeslot in timeslots
      && exists k :: 0 <= k < |classrooms| && r.value.classroom == classrooms[k].id
           && classrooms[k].roomType == RoomTypeFor(kind)
           && forall j :: 0 <= j < k ==> classrooms[j].roomType != RoomTypeFor(kind)
  {
    if courses == [] then Failure(NoCourses)
    else
      var course := courses[courseDraw];
      match FirstRoom(classrooms, kind)
      case None => Failure(NoMatchingRoom)
      case Some(k) =>
        if timeslots == [] then Failure(NoTimeslots)
        else Success(Gene(course.id, kind, course.professor, course.assistants,
                          classrooms[k].id, timeslots[slotDraw]))
  }

  /** A created gene satisfies the room-kind invariant: a lab exactly for a practical, a lecture room otherwise. */
  lemma CreatedGeneCompatible(courses: seq<Course>, classrooms: seq<Classroom>, timeslots: seq<string>,
                              courseDraw: nat, kind: SessionKind, slotDraw: nat)
    requires courses != [] ==> courseDraw < |courses|
    requires timeslots != [] ==> slotDraw < |timeslots|
    requires CreateGene(courses, classrooms, timeslots, courseDraw, kind, slotDraw).Success?
    ensures RoomCompatible(classrooms, CreateGene(courses, classrooms, timeslots, courseDraw, kind, slotDraw).value)
    ensures var g := CreateGene(courses, classrooms, timeslots, courseDraw, kind, slotDraw).value;
      exists k :: 0 <= k < |classrooms| && classrooms[k].id == g.classroom
        && (classrooms[k].roomType == "lab" <==> kind == Practical)
        && (classrooms[k].roomType == "lecture" <==> kind != Practical)
  {
  }
}
