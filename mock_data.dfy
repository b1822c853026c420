/**
 * The scheduler's built-in catalogue (one course, two rooms, four timeslots,
 * two staff) as fixtures, and what the model proves about runs over it.
 */
module MockData {
  import opened Seqs
  import opened Timetable
  import opened GeneFactory
  import opened Repair
  import opened Fitness

  const Courses: seq<Course> := [Course("CS101", 3, 1, 2, "P1", ["A1"], 50)]
  const Classrooms: seq<Classroom> := [Classroom("R1", "lecture", 60), Classroom("R2", "lab", 30)]
  const Timeslots: seq<string> := ["Mon_9AM", "Mon_10AM", "Tue_2PM", "Wed_3PM"]
  /** The faculty list of the catalogue; nothing reads it, here as in the catalogue it mirrors. */
  const Faculty: seq<string> := ["P1", "A1"]

  /** Genes per individual. */
  const IndividualSize: nat := 10

  /** Over the built-in catalogue gene construction never fails: every gene is CS101 taught by P1 with A1,
      practicals in R2 and everything else in R1. */
  lemma MockGene(courseDraw: nat, kind: SessionKind, slotDraw: nat)
    requires courseDraw < |Courses| && slotDraw < |Timeslots|
    ensures CreateGene(Courses, Classrooms, Timeslots, courseDraw, kind, slotDraw).Success?
    ensures var g := CreateGene(Courses, Classrooms, Timeslots, courseDraw, kind, slotDraw).value;
      && g.course == "CS101" && g.professor == "P1" && g.assistants == ["A1"]
      && g.classroom == (if kind == Practical then "R2" else "R1")
      && g.timeslot in Timeslots
  {
    assert Suits(Lecture, Classrooms[0]) && Suits(Tutorial, Classrooms[0]);
    assert !Suits(Practical, Classrooms[0]) && Suits(Practical, Classrooms[1]);
    assert Classrooms[1..][1..] == [];
  }

  /**
   * Every gene over the built-in catalogue names P1, so an individual of ten
   * such genes puts ten variables into P1's all-different group, with four
   * timeslots to choose from: no solution exists, a sound solver never answers
   * OPTIMAL, and repair never changes the individual.
   */
  lemma MockIndividualNeverRepaired(genes: seq<Gene>, solve: CpModel -> SolveResult)
    requires |genes| == IndividualSize
    requires forall i :: 0 <= i < |genes| ==> genes[i].professor == "P1"
    requires SolverSound(ModelOf(genes, |Timeslots|), solve)
    ensures forall values :: !IsSolution(ModelOf(genes, |Timeslots|), values)
    ensures solve(ModelOf(genes, |Timeslots|)).status != Optimal
    ensures WriteBack(genes, Timeslots, solve(ModelOf(genes, |Timeslots|))) == genes
  {
    assert forall i :: 0 <= i < |genes| ==> Instructors(genes[i])[0] == "P1";
    CommonInstructorGroup(genes, "P1");
    forall values ensures !IsSolution(ModelOf(genes, |Timeslots|), values) {
      OversizedGroupInfeasible(genes, |Timeslots|, "P1", values);
    }
    OversizedGroupKeepsGenes(genes, Timeslots, solve, "P1");
  }

  /** The built-in timeslot names are pairwise different, as the no-double-booking result needs. */
  lemma MockTimeslotsDistinct()
    ensures NoDup(Timeslots)
  {
  }

  /** Two CS101 lectures in R1 at the same timeslot: P1 and A1 each repeat (2 x 10) and R1 repeats (15). */
  lemma MockCollisionScore()
    ensures var g := Gene("CS101", Lecture, "P1", ["A1"], "R1", "Mon_9AM");
      Score([g, g]) == 65
  {
    var g := Gene("CS101", Lecture, "P1", ["A1"], "R1", "Mon_9AM");
    var p1, a1, r1 := Booking("P1", "Mon_9AM"), Booking("A1", "Mon_9AM"), Booking("R1", "Mon_9AM");
    OneAssistantBookings(g);
    TwoGeneBookings(g, g);
    assert p1 != a1;
    assert Repeats([p1]) == 0 && Repeats([r1]) == 0 by {
      assert Distinct([p1]) == {p1} && Distinct([r1]) == {r1};
    }
    RepeatsSnoc([p1], a1);
    assert [p1] + [a1] == [p1, a1];
    RepeatsSnoc([p1, a1], p1);
    assert [p1, a1] + [p1] == [p1, a1, p1];
    RepeatsSnoc([p1, a1, p1], a1);
    assert [p1, a1, p1] + [a1] == [p1, a1] + [p1, a1];
    assert Repeats(FacultyBookings([g, g])) == 2;
    RepeatsSnoc([r1], r1);
    assert [r1] + [r1] == [r1, r1];
    assert Repeats(RoomBookings([g, g])) == 1;
  }

  /** The same two lectures an hour apart collide nowhere and score the full 100. */
  lemma MockSeparatedScore()
    ensures var g := Gene("CS101", Lecture, "P1", ["A1"], "R1", "Mon_9AM");
      Score([g, g.(timeslot := "Mon_10AM")]) == 100
  {
    var g := Gene("CS101", Lecture, "P1", ["A1"], "R1", "Mon_9AM");
    var h := g.(timeslot := "Mon_10AM");
    OneAssistantBookings(g);
    OneAssistantBookings(h);
    TwoGeneBookings(g, h);
    assert "Mon_9AM" != "Mon_10AM" && "P1" != "A1";
    var fb := [Booking("P1", "Mon_9AM"), Booking("A1", "Mon_9AM"), Booking("P1", "Mon_10AM"), Booking("A1", "Mon_10AM")];
    assert FacultyBookings([g, h]) == fb;
    assert NoDup(fb) && NoDup(RoomBookings([g, h]));
    ScoreBaselineIff([g, h]);
  }
}
