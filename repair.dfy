/**
 * Constraint repair. For an individual it builds a finite-domain model: one
 * variable per gene ranging over the timeslot indices, and per instructor an
 * all-different constraint over the variables of the genes naming that
 * instructor (a gene naming someone twice contributes its variable twice).
 * The solver is an oracle `solve`; only an OPTIMAL answer is written back,
 * in place, into the genes' timeslots.
 */
module Repair {
  import opened Seqs
  import opened Timetable
  import opened Fitness

  /** One (instructor, gene index) pair appended while grouping. */
  datatype Entry = Entry(who: string, gene: nat)

  /** The solver statuses; only `Optimal` leads to a write-back. */
  datatype Status = Optimal | Feasible | Infeasible | ModelInvalid | Unknown

  /** Variables 0 .. varCount-1, each with domain 0 .. maxValue, and one all-different group per instructor. */
  datatype CpModel = CpModel(varCount: nat, maxValue: int, allDifferent: map<string, seq<nat>>)

  /** What the solver reports: a status and, on success, one value per variable. */
  datatype SolveResult = SolveResult(status: Status, values: seq<int>)

  function GeneEntries(g: Gene, i: nat): seq<Entry> {
    seq(|Instructors(g)|, k requires 0 <= k < |Instructors(g)| => Entry(Instructors(g)[k], i))
  }

  /** All (instructor, gene index) pairs, in the order the grouping loop visits them. */
  function Entries(genes: seq<Gene>): seq<Entry>
    decreases |genes|
  {
    if genes == [] then []
    else Entries(genes[..|genes| - 1]) + GeneEntries(genes[|genes| - 1], |genes| - 1)
  }

  /** The gene indices listed for `who`, in order of appending. */
  function Group(es: seq<Entry>, who: string): seq<nat>
    decreases |es|
  {
    if es == [] then []
    else Group(es[..|es| - 1], who) + (if es[|es| - 1].who == who then [es[|es| - 1].gene] else [])
  }

  ghost function Staff(es: seq<Entry>): set<string> {
    set e | e in es :: e.who
  }

  /** The grouping table: one list per instructor that occurs. */
  ghost function Groups(es: seq<Entry>): map<string, seq<nat>> {
    map who | who in Staff(es) :: Group(es, who)
  }

  /** A lookup in the grouping table, absent keys reading as the empty list. */
  function GroupOf(table: map<string, seq<nat>>, who: string): seq<nat> {
    if who in table then table[who] else []
  }

  /** The model the repair step builds for `genes` and `slotCount` timeslots. */
  ghost function ModelOf(genes: seq<Gene>, slotCount: nat): CpModel {
    CpModel(|genes|, slotCount - 1, Groups(Entries(genes)))
  }

  /** The variables listed in `group` take pairwise different values (listing one variable twice is unsatisfiable). */
  ghost predicate AllDifferent(group: seq<nat>, values: seq<int>) {
    forall p, q :: 0 <= p < q < |group| ==>
      group[p] < |values| && group[q] < |values| && values[group[p]] != values[group[q]]
  }

  /** `values` assigns every variable a value in its domain and meets every all-different group. */
  ghost predicate IsSolution(m: CpModel, values: seq<int>) {
    && |values| == m.varCount
    && (forall i :: 0 <= i < |values| ==> 0 <= values[i] <= m.maxValue)
    && forall who :: who in m.allDifferent ==> AllDifferent(m.allDifferent[who], values)
  }

  /** The oracle assumption about the external solver: an OPTIMAL answer is a solution of the model. */
  ghost predicate SolverSound(m: CpModel, solve: CpModel -> SolveResult) {
    solve(m).status == Optimal ==> IsSolution(m, solve(m).values)
  }

  // ---------------------------------------------------------------------------
  // Facts about the grouping

  lemma {:induction false} GroupAppend(a: seq<Entry>, b: seq<Entry>, who: string)
    ensures Group(a + b, who) == Group(a, who) + Group(b, who)
    decreases |b|
  {
    if b == [] {
      assert a + b == a;
    } else {
      var init := b[..|b| - 1];
      assert (a + b)[..|a + b| - 1] == a + init;
      assert (a + b)[|a + b| - 1] == b[|b| - 1];
      GroupAppend(a, init, who);
    }
  }

  /** A gene index is listed for `who` exactly when the pair (who, index) was appended. */
  lemma {:induction false} GroupMembers(es: seq<Entry>, who: string)
    ensures forall x :: x in Group(es, who) <==> Entry(who, x) in es
    decreases |es|
  {
    if es != [] {
      var init := es[..|es| - 1];
      assert es == init + [es[|es| - 1]];
      GroupMembers(init, who);
    }
  }

  lemma {:induction false} GroupAbsent(es: seq<Entry>, who: string)
    requires who !in Staff(es)
    ensures Group(es, who) == []
    decreases |es|
  {
    if es != [] {
      var init := es[..|es| - 1];
      assert es[|es| - 1] in es;
      assert Staff(init) <= Staff(es) by {
        forall e | e in init ensures e in es {
          var k := IndexOf(init, e);
          assert es[k] == e;
        }
      }
      GroupAbsent(init, who);
    }
  }

  lemma GroupsSnoc(es: seq<Entry>, e: Entry)
    ensures Groups(es + [e]) == Groups(es)[e.who := GroupOf(Groups(es), e.who) + [e.gene]]
  {
    assert (es + [e])[..|es|] == es;
    assert Staff(es + [e]) == Staff(es) + {e.who};
    if e.who !in Staff(es) {
      GroupAbsent(es, e.who);
    }
    assert GroupOf(Groups(es), e.who) == Group(es, e.who);
    var lhs, rhs := Groups(es + [e]), Groups(es)[e.who := GroupOf(Groups(es), e.who) + [e.gene]];
    assert lhs.Keys == rhs.Keys;
    forall w | w in lhs ensures lhs[w] == rhs[w] {
      assert lhs[w] == Group(es + [e], w);
    }
  }

  /** A gene index is in `who`'s entries exactly when that gene names `who`. */
  lemma {:induction false} EntriesMembers(genes: seq<Gene>)
    ensures forall who: string, i: nat :: Entry(who, i) in Entries(genes) <==> i < |genes| && who in Instructors(genes[i])
    decreases |genes|
  {
    if genes != [] {
      var n := |genes| - 1;
      EntriesMembers(genes[..n]);
      forall who: string, i: nat ensures Entry(who, i) in Entries(genes) <==> i < |genes| && who in Instructors(genes[i]) {
        assert Entry(who, i) in GeneEntries(genes[n], n) <==> i == n && who in Instructors(genes[n]) by {
          if i == n && who in Instructors(genes[n]) {
            var k := IndexOf(Instructors(genes[n]), who);
            assert GeneEntries(genes[n], n)[k] == Entry(who, i);
          }
        }
        if i < n {
          assert genes[..n][i] == genes[i];
        }
      }
    }
  }

  /** Entries line up with the evaluator's (instructor, timeslot) occurrences. */
  lemma {:induction false} EntriesAlign(genes: seq<Gene>)
    ensures |Entries(genes)| == |FacultyBookings(genes)|
    ensures forall p :: 0 <= p < |Entries(genes)| ==>
      && Entries(genes)[p].gene < |genes|
      && FacultyBookings(genes)[p] == Booking(Entries(genes)[p].who, genes[Entries(genes)[p].gene].timeslot)
    decreases |genes|
  {
    if genes != [] {
      var n := |genes| - 1;
      EntriesAlign(genes[..n]);
      assert FacultyBookings(genes) == FacultyBookings(genes[..n]) + GeneFacultyBookings(genes[n]);
      forall p | 0 <= p < |Entries(genes)|
        ensures Entries(genes)[p].gene < |genes|
        ensures FacultyBookings(genes)[p] == Booking(Entries(genes)[p].who, genes[Entries(genes)[p].gene].timeslot)
      {
        if p < |Entries(genes[..n])| {
          assert genes[..n][Entries(genes[..n])[p].gene] == genes[Entries(genes[..n])[p].gene];
        }
      }
    }
  }

  /** Entries depend only on each gene's staff list. */
  lemma {:induction false} EntriesSameStaff(a: seq<Gene>, b: seq<Gene>)
    requires |a| == |b|
    requires forall i :: 0 <= i < |a| ==> Instructors(a[i]) == Instructors(b[i])
    ensures Entries(a) == Entries(b)
    decreases |a|
  {
    if a != [] {
      var n := |a| - 1;
      EntriesSameStaff(a[..n], b[..n]);
    }
  }

  lemma {:induction false} GroupPrefix(es: seq<Entry>, k: nat, who: string)
    requires k <= |es|
    ensures |Group(es[..k], who)| <= |Group(es, who)|
    ensures Group(es, who)[..|Group(es[..k], who)|] == Group(es[..k], who)
    decreases |es|
  {
    if k < |es| {
      var init := es[..|es| - 1];
      assert init[..k] == es[..k];
      GroupPrefix(init, k, who);
    } else {
      assert es[..k] == es;
    }
  }

  /** Two appended pairs for the same instructor sit at two ordered positions of its group. */
  lemma GroupPositions(es: seq<Entry>, p: nat, q: nat, who: string)
    requires p < q < |es| && es[p].who == who && es[q].who == who
    ensures exists p', q' ::
      && 0 <= p' < q' < |Group(es, who)|
      && Group(es, who)[p'] == es[p].gene && Group(es, who)[q'] == es[q].gene
  {
    GroupEntryAt(es, p, who);
    GroupEntryAt(es, q, who);
    GroupCountGrows(es, p, q, who);
  }

  /** The pair appended at position `p` is the next element of its instructor's group. */
  lemma GroupEntryAt(es: seq<Entry>, p: nat, who: string)
    requires p < |es| && es[p].who == who
    ensures |Group(es[..p], who)| < |Group(es, who)|
    ensures Group(es, who)[|Group(es[..p], who)|] == es[p].gene
  {
    assert es[..p + 1][..p] == es[..p];
    assert Group(es[..p + 1], who) == Group(es[..p], who) + [es[p].gene];
    GroupPrefix(es, p + 1, who);
  }

  lemma GroupCountGrows(es: seq<Entry>, p: nat, q: nat, who: string)
    requires p < q <= |es| && es[p].who == who
    ensures |Group(es[..p], who)| < |Group(es[..q], who)|
  {
    assert es[..q][..p] == es[..p];
    GroupEntryAt(es[..q], p, who);
  }

  /** Only genes that exist appear in the model's groups. */
  lemma GroupIndicesInRange(genes: seq<Gene>, who: string)
    ensures forall k :: 0 <= k < |Group(Entries(genes), who)| ==> Group(Entries(genes), who)[k] < |genes|
  {
    GroupMembers(Entries(genes), who);
    EntriesMembers(genes);
    forall k | 0 <= k < |Group(Entries(genes), who)| ensures Group(Entries(genes), who)[k] < |genes| {
      assert Group(Entries(genes), who)[k] in Group(Entries(genes), who);
    }
  }

  // ---------------------------------------------------------------------------
  // Building the model

  /** The grouping loop: for every gene, in order, its index is appended to each of its instructors' lists. */
  method BuildModel(individual: array<Gene>, slotCount: nat) returns (model: CpModel)
    ensures model == ModelOf(individual[..], slotCount)
  {
    var groups: map<string, seq<nat>> := map[];
    ghost var done: seq<Entry> := [];
    var i: nat := 0;
    while i < individual.Length
      invariant i <= individual.Length
      invariant done == Entries(individual[..i])
      invariant groups == Groups(done)
    {
      var gene := individual[i];
      EntriesStep(individual[..], i);
      var instructors := [gene.professor] + gene.assistants;
      ghost var own := GeneEntries(gene, i);
      ghost var seen := done;
      var j := 0;
      assert own[..0] == [];
      while j < |instructors|
        invariant 0 <= j <= |instructors|
        invariant seen == done + own[..j]
        invariant groups == Groups(seen)
      {
        var instructor := instructors[j];
        GroupsSnoc(seen, Entry(instructor, i));
        groups := groups[instructor := GroupOf(groups, instructor) + [i]];
        PrefixStep(done, own, j);
        seen := seen + [Entry(instructor, i)];
        j := j + 1;
      }
      assert own[..j] == own;
      done := seen;
      i := i + 1;
    }
    assert individual[..i] == individual[..];
    model := CpModel(individual.Length, slotCount - 1, groups);
  }

  lemma EntriesStep(genes: seq<Gene>, i: nat)
    requires i < |genes|
    ensures Entries(genes[..i + 1]) == Entries(genes[..i]) + GeneEntries(genes[i], i)
  {
    assert genes[..i + 1][..i] == genes[..i];
  }

  /** The model's shape: one variable per gene, domain 0 .. slotCount-1, and a group for exactly
      the instructors that occur, holding exactly the genes that name them. */
  lemma ModelShape(genes: seq<Gene>, slotCount: nat)
    ensures ModelOf(genes, slotCount).varCount == |genes|
    ensures ModelOf(genes, slotCount).maxValue == slotCount - 1
    ensures forall who :: (who in ModelOf(genes, slotCount).allDifferent
      <==> exists i :: 0 <= i < |genes| && who in Instructors(genes[i]))
    ensures forall who, i :: who in ModelOf(genes, slotCount).allDifferent ==>
      (i in ModelOf(genes, slotCount).allDifferent[who] <==> 0 <= i < |genes| && who in Instructors(genes[i]))
  {
    EntriesMembers(genes);
    var es := Entries(genes);
    forall who ensures who in Staff(es) <==> exists i :: 0 <= i < |genes| && who in Instructors(genes[i]) {
      if who in Staff(es) {
        var e :| e in es && e.who == who;
        assert Entry(who, e.gene) in es;
      }
      if exists i :: 0 <= i < |genes| && who in Instructors(genes[i]) {
        var i :| 0 <= i < |genes| && who in Instructors(genes[i]);
        assert Entry(who, i) in es;
      }
    }
    forall who | who in Staff(es) {
      GroupMembers(es, who);
    }
  }

  // ---------------------------------------------------------------------------
  // Writing the solver's answer back

  /** The individual after repair, as a value. */
  function WriteBack(genes: seq<Gene>, timeslots: seq<string>, result: SolveResult): (r: seq<Gene>)
    requires result.status == Optimal ==>
      |result.values| == |genes| && forall i :: 0 <= i < |genes| ==> 0 <= result.values[i] < |timeslots|
    ensures |r| == |genes|
    ensures forall i :: 0 <= i < |genes| ==> r[i] == genes[i].(timeslot := r[i].timeslot)
    ensures result.status == Optimal ==> forall i :: 0 <= i < |genes| ==> r[i].timeslot == timeslots[result.values[i]]
    ensures result.status != Optimal ==> r == genes
  {
    if result.status == Optimal then
      seq(|genes|, i requires 0 <= i < |genes| => genes[i].(timeslot := timeslots[result.values[i]]))
    else genes
  }

  /**
   * The repair step: build the model, ask the solver, and on OPTIMAL overwrite
   * every gene's timeslot with the timeslot its variable chose. The individual
   * is updated in place and returned.
   */
  method Repair(individual: array<Gene>, timeslots: seq<string>, solve: CpModel -> SolveResult)
    returns (r: array<Gene>)
    requires SolverSound(ModelOf(individual[..], |timeslots|), solve)
    modifies individual
    ensures r == individual
    ensures individual[..] == WriteBack(old(individual[..]), timeslots, solve(ModelOf(old(individual[..]), |timeslots|)))
    ensures NoDup(timeslots) && solve(ModelOf(old(individual[..]), |timeslots|)).status == Optimal
      ==> NoInstructorClash(individual[..])
  {
    var model := BuildModel(individual, |timeslots|);
    var result := solve(model);
    if result.status == Optimal {
      var i := 0;
      while i < individual.Length
        invariant 0 <= i <= individual.Length
        invariant forall k :: 0 <= k < i ==> individual[k] == old(individual[k]).(timeslot := timeslots[result.values[k]])
        invariant forall k :: i <= k < individual.Length ==> individual[k] == old(individual[k])
      {
        individual[i] := individual[i].(timeslot := timeslots[result.values[i]]);
        i := i + 1;
      }
      assert individual[..] == WriteBack(old(individual[..]), timeslots, result);
      if NoDup(timeslots) {
        RepairedHasNoInstructorClash(old(individual[..]), timeslots, result);
      }
    }
    r := individual;
  }

  // ---------------------------------------------------------------------------
  // What a successful repair guarantees

  /** Repair preserves the room-kind invariant: it never touches classroom or session kind. */
  lemma WriteBackKeepsRooms(classrooms: seq<Classroom>, genes: seq<Gene>, timeslots: seq<string>, result: SolveResult)
    requires result.status == Optimal ==>
      |result.values| == |genes| && forall i :: 0 <= i < |genes| ==> 0 <= result.values[i] < |timeslots|
    requires forall i :: 0 <= i < |genes| ==> RoomCompatible(classrooms, genes[i])
    ensures forall i :: 0 <= i < |genes| ==> RoomCompatible(classrooms, WriteBack(genes, timeslots, result)[i])
  {
    var r := WriteBack(genes, timeslots, result);
    forall i | 0 <= i < |genes| ensures RoomCompatible(classrooms, r[i]) {
      assert r[i].classroom == genes[i].classroom && r[i].sessionType == genes[i].sessionType;
      var k :| 0 <= k < |classrooms| && classrooms[k].id == genes[i].classroom
        && classrooms[k].roomType == RoomTypeFor(genes[i].sessionType);
      assert classrooms[k].id == r[i].classroom;
    }
  }

  /** Without a repeated (instructor, timeslot) occurrence, no two genes sharing an instructor share a timeslot. */
  lemma NoRepeatMeansNoClash(genes: seq<Gene>)
    requires NoDup(FacultyBookings(genes))
    ensures NoInstructorClash(genes)
  {
    var fb := FacultyBookings(genes);
    forall i, j | 0 <= i < j < |genes| && SharesInstructor(genes[i], genes[j])
      ensures genes[i].timeslot != genes[j].timeslot
    {
      var who :| who in Instructors(genes[i]) && who in Instructors(genes[j]);
      var p := BookingPosition(genes, who, i);
      var q := BookingPosition(genes, who, j);
      assert fb[p] != fb[q] by {
        if p < q { } else { assert q < p; }
      }
    }
  }

  /** Where the occurrence of (who, the gene's timeslot) contributed by gene `i` sits. */
  lemma BookingPosition(genes: seq<Gene>, who: string, i: nat) returns (p: nat)
    requires i < |genes| && who in Instructors(genes[i])
    ensures p < |Entries(genes)| && Entries(genes)[p] == Entry(who, i)
    ensures p < |FacultyBookings(genes)| && FacultyBookings(genes)[p] == Booking(who, genes[i].timeslot)
  {
    EntriesMembers(genes);
    EntriesAlign(genes);
    var es := Entries(genes);
    assert Entry(who, i) in es;
    p := IndexOf(es, Entry(who, i));
  }

  /** A solution gives two pairs for the same instructor different values. */
  lemma SolutionSeparates(genes: seq<Gene>, slotCount: nat, values: seq<int>, p: nat, q: nat)
    requires IsSolution(ModelOf(genes, slotCount), values)
    requires p < q < |Entries(genes)| && Entries(genes)[p].who == Entries(genes)[q].who
    ensures Entries(genes)[p].gene < |values| && Entries(genes)[q].gene < |values|
    ensures values[Entries(genes)[p].gene] != values[Entries(genes)[q].gene]
  {
    var es := Entries(genes);
    var who := es[p].who;
    var m := ModelOf(genes, slotCount);
    assert es[p] in es;
    assert who in Staff(es);
    assert m.allDifferent == Groups(es);
    assert who in m.allDifferent && m.allDifferent[who] == Group(es, who);
    GroupPositions(es, p, q, who);
    var p', q' :| 0 <= p' < q' < |Group(es, who)|
      && Group(es, who)[p'] == es[p].gene && Group(es, who)[q'] == es[q].gene;
    assert AllDifferent(Group(es, who), values);
  }

  /**
   * After writing back a solution over pairwise different timeslot names, no
   * (instructor, timeslot) occurrence repeats, so no instructor is double-booked
   * and the score is 100 less only the classroom penalties.
   */
  lemma RepairedHasNoInstructorClash(genes: seq<Gene>, timeslots: seq<string>, result: SolveResult)
    requires NoDup(timeslots)
    requires result.status == Optimal
    requires IsSolution(ModelOf(genes, |timeslots|), result.values)
    ensures NoDup(FacultyBookings(WriteBack(genes, timeslots, result)))
    ensures NoInstructorClash(WriteBack(genes, timeslots, result))
    ensures Score(WriteBack(genes, timeslots, result))
      == 100 - 15 * Repeats(RoomBookings(WriteBack(genes, timeslots, result)))
  {
    var repaired := WriteBack(genes, timeslots, result);
    var v := result.values;
    assert forall i :: 0 <= i < |genes| ==> Instructors(repaired[i]) == Instructors(genes[i]);
    EntriesSameStaff(genes, repaired);
    EntriesAlign(repaired);
    var es := Entries(genes);
    var fb := FacultyBookings(repaired);
    forall p, q | 0 <= p < q < |fb| ensures fb[p] != fb[q] {
      if es[p].who == es[q].who {
        SolutionSeparates(genes, |timeslots|, v, p, q);
        var a, b := v[es[p].gene], v[es[q].gene];
        assert timeslots[a] != timeslots[b] by {
          if a < b { } else { assert b < a; }
        }
        assert fb[p].slot == timeslots[a] && fb[q].slot == timeslots[b];
      }
    }
    NoRepeatMeansNoClash(repaired);
    NoDupIffNoRepeats(fb);
  }

  /** Pigeonhole: a group larger than the number of timeslots admits no solution. */
  lemma OversizedGroupInfeasible(genes: seq<Gene>, slotCount: nat, who: string, values: seq<int>)
    requires |Group(Entries(genes), who)| > slotCount
    ensures !IsSolution(ModelOf(genes, slotCount), values)
  {
    var es := Entries(genes);
    var g := Group(es, who);
    var m := ModelOf(genes, slotCount);
    if IsSolution(m, values) {
      GroupMembers(es, who);
      assert Entry(who, g[0]) in es;
      assert who in Staff(es);
      assert m.allDifferent == Groups(es);
      assert who in m.allDifferent && m.allDifferent[who] == g;
      GroupIndicesInRange(genes, who);
      var w := seq(|g|, k requires 0 <= k < |g| => values[g[k]]);
      assert NoDup(w) by {
        assert AllDifferent(g, values);
      }
      Pigeonhole(w, slotCount);
      assert false;
    }
  }

  /** A gene that names one instructor twice puts its variable twice into one group: no solution exists. */
  lemma RepeatedStaffInfeasible(genes: seq<Gene>, slotCount: nat, i: nat, values: seq<int>)
    requires i < |genes| && !NoDup(Instructors(genes[i]))
    ensures !IsSolution(ModelOf(genes, slotCount), values)
  {
    var staff := Instructors(genes[i]);
    var m1, m2 :| 0 <= m1 < m2 < |staff| && staff[m1] == staff[m2];
    GeneEntryAt(genes, i, m1);
    GeneEntryAt(genes, i, m2);
    var before := |Entries(genes[..i])|;
    if IsSolution(ModelOf(genes, slotCount), values) {
      SolutionSeparates(genes, slotCount, values, before + m1, before + m2);
      assert false;
    }
  }

  /** Where the `m`-th staff entry of gene `i` sits among all entries. */
  lemma GeneEntryAt(genes: seq<Gene>, i: nat, m: nat)
    requires i < |genes| && m < |Instructors(genes[i])|
    ensures |Entries(genes[..i])| + m < |Entries(genes)|
    ensures Entries(genes)[|Entries(genes[..i])| + m] == Entry(Instructors(genes[i])[m], i)
  {
    assert genes[..i + 1][..i] == genes[..i];
    assert Entries(genes[..i + 1]) == Entries(genes[..i]) + GeneEntries(genes[i], i);
    EntriesPrefix(genes, i + 1);
  }

  lemma {:induction false} EntriesPrefix(genes: seq<Gene>, k: nat)
    requires k <= |genes|
    ensures |Entries(genes[..k])| <= |Entries(genes)|
    ensures Entries(genes)[..|Entries(genes[..k])|] == Entries(genes[..k])
    decreases |genes|
  {
    if k < |genes| {
      var init := genes[..|genes| - 1];
      assert init[..k] == genes[..k];
      EntriesPrefix(init, k);
    } else {
      assert genes[..k] == genes;
    }
  }

  /** Whatever status a sound solver reports for an unsatisfiable model, repair leaves the genes as they were. */
  lemma OversizedGroupKeepsGenes(genes: seq<Gene>, timeslots: seq<string>, solve: CpModel -> SolveResult, who: string)
    requires SolverSound(ModelOf(genes, |timeslots|), solve)
    requires |Group(Entries(genes), who)| > |timeslots|
    ensures solve(ModelOf(genes, |timeslots|)).status != Optimal
    ensures WriteBack(genes, timeslots, solve(ModelOf(genes, |timeslots|))) == genes
  {
    OversizedGroupInfeasible(genes, |timeslots|, who, solve(ModelOf(genes, |timeslots|)).values);
  }

  /** If every gene names `who`, `who`'s group holds every gene. */
  lemma {:induction false} CommonInstructorGroup(genes: seq<Gene>, who: string)
    requires forall i :: 0 <= i < |genes| ==> who in Instructors(genes[i])
    ensures |Group(Entries(genes), who)| >= |genes|
    decreases |genes|
  {
    if genes != [] {
      var n := |genes| - 1;
      assert forall i :: 0 <= i < n ==> genes[..n][i] == genes[i];
      CommonInstructorGroup(genes[..n], who);
      GroupAppend(Entries(genes[..n]), GeneEntries(genes[n], n), who);
      OwnGroupNonEmpty(genes[n], n, who);
    }
  }

  lemma OwnGroupNonEmpty(g: Gene, i: nat, who: string)
    requires who in Instructors(g)
    ensures |Group(GeneEntries(g, i), who)| >= 1
  {
    var own := GeneEntries(g, i);
    var k := IndexOf(Instructors(g), who);
    assert own[k] == Entry(who, i);
    GroupMembers(own, who);
    assert i in Group(own, who);
  }
}
