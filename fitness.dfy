/**
 * The fitness evaluator: one pass over the genes, starting at 100, that takes
 * 10 off for every (instructor, timeslot) occurrence already seen and 15 off
 * for every (classroom, timeslot) occurrence already seen.
 */
module Fitness {
  import opened Seqs
  import opened Timetable

  const Baseline: int := 100
  const InstructorPenalty: int := 10
  const ClassroomPenalty: int := 15

  /** The (instructor, timeslot) occurrences of one gene, one per entry of its staff list. */
  function GeneFacultyBookings(g: Gene): seq<Booking> {
    seq(|Instructors(g)|, k requires 0 <= k < |Instructors(g)| => Booking(Instructors(g)[k], g.timeslot))
  }

  /** The (classroom, timeslot) occurrence of one gene. */
  function GeneRoomBookings(g: Gene): seq<Booking> {
    [Booking(g.classroom, g.timeslot)]
  }

  /** All (instructor, timeslot) occurrences, in scan order. */
  function FacultyBookings(genes: seq<Gene>): seq<Booking> {
    FlatMap(GeneFacultyBookings, genes)
  }

  /** All (classroom, timeslot) occurrences, in scan order. */
  function RoomBookings(genes: seq<Gene>): seq<Booking> {
    FlatMap(GeneRoomBookings, genes)
  }

  /** The closed form of the evaluator's result. */
  ghost function Score(genes: seq<Gene>): int {
    Baseline - InstructorPenalty * Repeats(FacultyBookings(genes)) - ClassroomPenalty * Repeats(RoomBookings(genes))
  }

  /** The timeslots recorded for `who` in a seen-table (an absent key reads as the empty set). */
  function SlotsOf(table: map<string, set<string>>, who: string): set<string> {
    if who in table then table[who] else {}
  }

  /** A seen-table records exactly the bookings in `seen`. */
  ghost predicate Tracks(table: map<string, set<string>>, seen: seq<Booking>) {
    forall who, slot :: slot in SlotsOf(table, who) <==> Booking(who, slot) in seen
  }

  /** Record one booking in a seen-table; the result reports whether it had been seen before. */
  lemma RecordBooking(table: map<string, set<string>>, seen: seq<Booking>, b: Booking)
    requires Tracks(table, seen)
    ensures Tracks(table[b.who := SlotsOf(table, b.who) + {b.slot}], seen + [b])
    ensures (b.slot in SlotsOf(table, b.who)) == (b in seen)
    ensures Repeats(seen + [b]) == Repeats(seen) + (if b in seen then 1 else 0)
  {
    RepeatsSnoc(seen, b);
    var table' := table[b.who := SlotsOf(table, b.who) + {b.slot}];
    forall who, slot ensures slot in SlotsOf(table', who) <==> Booking(who, slot) in seen + [b] {
      assert Booking(who, slot) in seen + [b] <==> Booking(who, slot) in seen || Booking(who, slot) == b;
    }
  }

  /**
   * The evaluator. It reads the individual and changes nothing (it has no
   * modifies clause); its result is the closed form `Score`.
   */
  method Evaluate(individual: array<Gene>) returns (score: int)
    ensures score == Score(individual[..])
  {
    score := 100;
    var facultySlots: map<string, set<string>> := map[];
    var classroomSlots: map<string, set<string>> := map[];
    ghost var faculty: seq<Booking> := [];
    ghost var rooms: seq<Booking> := [];
    var i := 0;
    while i < individual.Length
      invariant 0 <= i <= individual.Length
      invariant faculty == FacultyBookings(individual[..i])
      invariant rooms == RoomBookings(individual[..i])
      invariant Tracks(facultySlots, faculty) && Tracks(classroomSlots, rooms)
      invariant score == Baseline - InstructorPenalty * Repeats(faculty) - ClassroomPenalty * Repeats(rooms)
    {
      var gene := individual[i];
      ScanStep(individual[..], i);
      var instructors := [gene.professor] + gene.assistants;
      ghost var own := GeneFacultyBookings(gene);
      ghost var seen := faculty;
      var j := 0;
      assert own[..0] == [];
      while j < |instructors|
        invariant 0 <= j <= |instructors|
        invariant seen == faculty + own[..j]
        invariant Tracks(facultySlots, seen)
        invariant score == Baseline - InstructorPenalty * Repeats(seen) - ClassroomPenalty * Repeats(rooms)
      {
        var instructor := instructors[j];
        RecordBooking(facultySlots, seen, Booking(instructor, gene.timeslot));
        if gene.timeslot in SlotsOf(facultySlots, instructor) {
          score := score - 10;
        }
        facultySlots := facultySlots[instructor := SlotsOf(facultySlots, instructor) + {gene.timeslot}];
        PrefixStep(faculty, own, j);
        seen := seen + [Booking(instructor, gene.timeslot)];
        j := j + 1;
      }
      assert own[..j] == own;
      faculty := seen;
      RecordBooking(classroomSlots, rooms, Booking(gene.classroom, gene.timeslot));
      if gene.timeslot in SlotsOf(classroomSlots, gene.classroom) {
        score := score - 15;
      }
      classroomSlots := classroomSlots[gene.classroom := SlotsOf(classroomSlots, gene.classroom) + {gene.timeslot}];
      rooms := rooms + [Booking(gene.classroom, gene.timeslot)];
      i := i + 1;
    }
    assert individual[..i] == individual[..];
  }

  /** Scanning one more gene extends both occurrence lists by that gene's occurrences. */
  lemma ScanStep(genes: seq<Gene>, i: nat)
    requires i < |genes|
    ensures FacultyBookings(genes[..i + 1]) == FacultyBookings(genes[..i]) + GeneFacultyBookings(genes[i])
    ensures RoomBookings(genes[..i + 1]) == RoomBookings(genes[..i]) + [Booking(genes[i].classroom, genes[i].timeslot)]
  {
    assert genes[..i + 1][..i] == genes[..i];
  }

  /** Penalties only ever lower the score. */
  lemma ScoreAtMostBaseline(genes: seq<Gene>)
    ensures Score(genes) <= 100
  {
    RepeatsNonNegative(FacultyBookings(genes));
    RepeatsNonNegative(RoomBookings(genes));
  }

  /** The score is exactly 100 precisely when no instructor and no classroom meets a timeslot twice. */
  lemma ScoreBaselineIff(genes: seq<Gene>)
    ensures Score(genes) == 100 <==> NoDup(FacultyBookings(genes)) && NoDup(RoomBookings(genes))
  {
    RepeatsNonNegative(FacultyBookings(genes));
    RepeatsNonNegative(RoomBookings(genes));
    NoDupIffNoRepeats(FacultyBookings(genes));
    NoDupIffNoRepeats(RoomBookings(genes));
  }

  /**
   * Adding a gene costs exactly 10 per instructor occurrence of it that was already
   * booked (earlier genes or earlier in its own staff list) and 15 for a repeated
   * classroom occurrence.
   */
  lemma {:induction false} ScoreSnoc(genes: seq<Gene>, g: Gene)
    ensures Score(genes + [g]) == Score(genes)
      - 10 * Collisions(FacultyBookings(genes), GeneFacultyBookings(g))
      - 15 * (if Booking(g.classroom, g.timeslot) in RoomBookings(genes) then 1 else 0)
  {
    assert (genes + [g])[..|genes|] == genes;
    RepeatsAppend(FacultyBookings(genes), GeneFacultyBookings(g));
    RepeatsSnoc(RoomBookings(genes), Booking(g.classroom, g.timeslot));
  }

  /** The occurrences of a two-gene individual. */
  lemma TwoGeneBookings(g: Gene, h: Gene)
    ensures FacultyBookings([g, h]) == GeneFacultyBookings(g) + GeneFacultyBookings(h)
    ensures RoomBookings([g, h]) == [Booking(g.classroom, g.timeslot), Booking(h.classroom, h.timeslot)]
  {
    assert [g, h][..1] == [g] && [g][..0] == [];
    assert FacultyBookings([g]) == FacultyBookings([]) + GeneFacultyBookings(g);
    assert RoomBookings([g]) == RoomBookings([]) + GeneRoomBookings(g);
  }

  /** The occurrences of a gene with exactly one assistant. */
  lemma OneAssistantBookings(g: Gene)
    requires |g.assistants| == 1
    ensures GeneFacultyBookings(g) == [Booking(g.professor, g.timeslot), Booking(g.assistants[0], g.timeslot)]
  {
    assert Instructors(g) == [g.professor, g.assistants[0]];
  }

  /** A professor who is also listed as an assistant collides with themself: a lone such gene scores 90. */
  lemma SelfListedProfessor(g: Gene)
    requires g.assistants == [g.professor]
    ensures Score([g]) == 90
  {
    assert [g][..0] == [];
    var b := Booking(g.professor, g.timeslot);
    var fb := [b, b];
    assert Instructors(g) == [g.professor, g.professor];
    assert GeneFacultyBookings(g) == fb;
    assert FacultyBookings([g]) == FacultyBookings([]) + GeneFacultyBookings(g);
    assert RoomBookings([g]) == RoomBookings([]) + GeneRoomBookings(g);
    DistinctOfConstant(fb, b);
    DistinctOfConstant(RoomBookings([g]), Booking(g.classroom, g.timeslot));
    assert FacultyBookings([]) == [];
    assert FacultyBookings([g]) == fb;
    assert |fb| == 2 && |{b}| == 1;
    assert Repeats(FacultyBookings([g])) == 1;
    assert Repeats(RoomBookings([g])) == 0;
  }

  /** `n` copies of a gene without assistants score 100 - 25 (n - 1): the score has no lower bound. */
  lemma {:induction false} CopiesScore(g: Gene, n: nat)
    requires g.assistants == [] && n >= 1
    ensures Score(seq(n, _ => g)) == 100 - 25 * (n - 1)
  {
    var genes := seq(n, _ => g);
    CopiesBookings(g, n);
    DistinctOfConstant(FacultyBookings(genes), Booking(g.professor, g.timeslot));
    DistinctOfConstant(RoomBookings(genes), Booking(g.classroom, g.timeslot));
  }

  lemma DistinctOfConstant(s: seq<Booking>, b: Booking)
    requires |s| >= 1 && forall k :: 0 <= k < |s| ==> s[k] == b
    ensures Distinct(s) == {b}
  {
    assert s[0] in s;
  }

  lemma {:induction false} CopiesBookings(g: Gene, n: nat)
    requires g.assistants == []
    ensures FacultyBookings(seq(n, _ => g)) == seq(n, _ => Booking(g.professor, g.timeslot))
    ensures RoomBookings(seq(n, _ => g)) == seq(n, _ => Booking(g.classroom, g.timeslot))
  {
    if n > 0 {
      CopiesBookings(g, n - 1);
      assert seq(n, _ => g)[..n - 1] == seq(n - 1, _ => g);
      assert GeneFacultyBookings(g) == [Booking(g.professor, g.timeslot)];
      assert seq(n, _ => Booking(g.professor, g.timeslot))
        == seq(n - 1, _ => Booking(g.professor, g.timeslot)) + [Booking(g.professor, g.timeslot)];
      assert seq(n, _ => Booking(g.classroom, g.timeslot))
        == seq(n - 1, _ => Booking(g.classroom, g.timeslot)) + [Booking(g.classroom, g.timeslot)];
    }
  }

  lemma NoLowerBound(bound: int)
    ensures exists genes: seq<Gene> :: Score(genes) < bound
  {
    var n: nat := if bound > 100 then 1 else (100 - bound) / 25 + 2;
    var g := Gene("", Lecture, "", [], "", "");
    CopiesScore(g, n);
    if bound <= 100 {
      var q := (100 - bound) / 25;
      assert 25 * q > 100 - bound - 25;
      assert n == q + 2;
    }
    assert Score(seq(n, _ => g)) < bound;
  }

  /** The score does not depend on the order of the genes. */
  lemma ScorePermutation(xs: seq<Gene>, ys: seq<Gene>)
    requires multiset(xs) == multiset(ys)
    ensures Score(xs) == Score(ys)
  {
    FlatMapPermutation(GeneFacultyBookings, xs, ys);
    FlatMapPermutation(GeneRoomBookings, xs, ys);
    RepeatsPermutation(FacultyBookings(xs), FacultyBookings(ys));
    RepeatsPermutation(RoomBookings(xs), RoomBookings(ys));
  }

  lemma SwapIsPermutation(genes: seq<Gene>, i: nat, j: nat)
    requires i < |genes| && j < |genes|
    ensures multiset(genes[i := genes[j]][j := genes[i]]) == multiset(genes)
  {
    var step := genes[i := genes[j]];
    assert multiset(step) == multiset(genes) - multiset{genes[i]} + multiset{genes[j]};
    assert multiset(step[j := genes[i]]) == multiset(step) - multiset{step[j]} + multiset{genes[i]};
  }

  /** Swapping two genes, the only thing index-shuffle mutation does, cannot change the score. */
  lemma SwapKeepsScore(genes: seq<Gene>, i: nat, j: nat)
    requires i < |genes| && j < |genes|
    ensures Score(genes[i := genes[j]][j := genes[i]]) == Score(genes)
  {
    var swapped := genes[i := genes[j]][j := genes[i]];
    SwapIsPermutation(genes, i, j);
    ScorePermutation(swapped, genes);
  }
}
