# Timetable scheduler: gene construction, fitness and constraint repair

This project models the scheduler's own logic in `timetable_algo_test.py`, a
genetic timetable search with a constraint-solver repair step. There are three
parts:

- **Gene construction** (`create_gene`). A gene is one scheduled session. It
  gets a course, a session kind (lecture, tutorial or practical) and a timeslot.
  Its classroom is the first catalogue room whose type suits the kind: `lab` for
  a practical, `lecture` otherwise. The random choices are explicit parameters
  here. Each failure is an error value: an empty course list, no suitable room
  (the room search stops empty), or an empty timeslot list.
- **Fitness** (`evaluate`). One pass over the genes starts at 100. It keeps a
  table of seen timeslots per instructor and another per classroom. Each
  (instructor, timeslot) occurrence already seen costs 10. Each (classroom,
  timeslot) occurrence already seen costs 15. The instructors of a gene are its
  professor followed by its assistants, duplicates included. The method
  `Fitness.Evaluate` runs that loop over the individual, which is an array it
  does not modify. It is proved equal to the closed form `Fitness.Score`:
  100 − 10·Repeats(instructor occurrences) − 15·Repeats(classroom occurrences).
  Here Repeats(s) is |s| minus the number of distinct values in s.
- **Repair** (`repair_schedule`). `Repair.BuildModel` runs the grouping loop.
  The model it builds has one variable per gene with domain 0 .. |timeslots|−1.
  Each instructor gets one all-different group: the indices of the genes that
  name them, once per mention. The solver is an oracle function
  `solve: CpModel -> SolveResult`. We assume it is sound: an OPTIMAL answer is a
  solution of the model (`Repair.SolverSound`). `Repair.Repair` writes the answer
  back into the same array, in place, and returns that array. Each gene's
  timeslot becomes `timeslots[value]`. This happens only on OPTIMAL. On any
  other status, FEASIBLE included, the individual is unchanged.

Module layout: `Wrappers` (Option/Result), `Seqs` (generic facts about
duplicates, repeat counts, flattening and the pigeonhole principle), `Timetable`
(records), `GeneFactory`, `Fitness`, `Repair`, and `MockData`. `MockData` holds
the built-in catalogue from `timetable_algo_test.py:7-15` as fixtures, with
what the model proves about it.

Three behaviours of the code that the model keeps:

- The code takes the first suitable room in catalogue order.
- A missing room makes each gene construction fail (StopIteration).
- Only OPTIMAL leads to a write-back; FEASIBLE leaves the individual unchanged.

Two consequences of the code are proved, not assumed:

- A gene that names one instructor twice puts its variable twice into one
  all-different group. For example, a professor who is also listed as an
  assistant. Such an individual can never be repaired
  (`Repair.RepeatedStaffInfeasible`).
- Every gene over the built-in catalogue names P1. So P1's group holds all ten
  genes, but there are only four timeslots. The repair step can therefore never
  change an individual built from that data (`MockData.MockIndividualNeverRepaired`).

## Model

| member | source | states |
|---|---|---|
| `GeneFactory.FirstRoom` | timetable_algo_test.py:25-28 | the index returned is the first catalogue room whose type is `lab` for a practical and `lecture` otherwise; None exactly when no room has that type |
| `GeneFactory.CreateGene` | timetable_algo_test.py:21-36 | errors in choice order: no courses, then no suitable room, then no timeslots; a course, a suitable room and a timeslot together always give success; on success, course id, professor and assistants are copied from the chosen course, the kind is the chosen one, the timeslot is the chosen member of the timeslot list, and the classroom is the id of the first room whose type suits the kind |
| `GeneFactory.CreatedGeneCompatible` | timetable_algo_test.py:24-28 | a created gene's classroom is a catalogue room whose type is `lab` exactly when the session is a practical and `lecture` exactly when it is not |
| `Fitness.Evaluate` | timetable_algo_test.py:44-59 | the scan with its two seen-tables returns exactly 100 − 10·(repeated instructor/timeslot occurrences) − 15·(repeated classroom/timeslot occurrences); it has no modifies clause, so the individual is unchanged |
| `Fitness.ScoreAtMostBaseline` | timetable_algo_test.py:44-59 | the score never exceeds 100 |
| `Fitness.ScoreBaselineIff` | timetable_algo_test.py:44-59 | the score is exactly 100 if and only if no (instructor, timeslot) occurrence and no (classroom, timeslot) occurrence repeats |
| `Fitness.ScoreSnoc` | timetable_algo_test.py:49-58 | appending one gene lowers the score by 10 per instructor occurrence of it already booked by earlier genes or earlier in its own staff list and by 15 when its (classroom, timeslot) was already seen |
| `Fitness.SelfListedProfessor` | timetable_algo_test.py:51-54 | a professor also listed as an assistant collides with themself: that lone gene scores 90 |
| `Fitness.CopiesScore` | timetable_algo_test.py:49-58 | n copies of a gene with no assistants score 100 − 25·(n − 1) |
| `Fitness.NoLowerBound` | timetable_algo_test.py:45-58 | for every bound some individual scores below it: the score has no floor |
| `Fitness.ScorePermutation` | timetable_algo_test.py:49-58 | any two orderings of the same genes (equal multisets) get the same score |
| `Fitness.SwapKeepsScore` | timetable_algo_test.py:49-63 | swapping two genes, which is all that the index-shuffle mutation does, leaves the score unchanged |
| `Repair.BuildModel` | timetable_algo_test.py:69-77 | the grouping loop yields the model with one variable per gene, domain 0 .. \|timeslots\|−1, and per instructor the gene indices appended in scan order |
| `Repair.ModelShape` | timetable_algo_test.py:69-77 | the model has \|genes\| variables with maximum value \|timeslots\|−1; there is a group exactly for each instructor some gene names, and a gene index is in an instructor's group exactly when that gene names the instructor |
| `Repair.WriteBack` | timetable_algo_test.py:82-85 | only the timeslot field can change; on OPTIMAL gene i's timeslot becomes timeslots[value i]; on every other status the genes are returned unchanged |
| `Repair.Repair` | timetable_algo_test.py:67-85 | builds the model, asks the oracle once, updates the same array in place to the write-back of the oracle's answer, and returns that array; after an OPTIMAL answer over distinct timeslot names, no two genes sharing an instructor share a timeslot |
| `Repair.WriteBackKeepsRooms` | timetable_algo_test.py:82-84 | a gene whose classroom type suits its session kind still suits it after write-back |
| `Repair.SolutionSeparates` | timetable_algo_test.py:72-77 | in a solution, two occurrences of one instructor get different values |
| `Repair.NoRepeatMeansNoClash` | timetable_algo_test.py:51-53 | when no (instructor, timeslot) occurrence repeats, no two genes that share an instructor share a timeslot |
| `Repair.RepairedHasNoInstructorClash` | timetable_algo_test.py:72-84 | after writing back a solution over distinct timeslot names, no instructor occurrence repeats, no two genes sharing an instructor share a timeslot, and the score is 100 − 15·(classroom repeats) |
| `Repair.OversizedGroupInfeasible` | timetable_algo_test.py:69-77 | pigeonhole: if some instructor's group is longer than the number of timeslots, no assignment is a solution |
| `Repair.RepeatedStaffInfeasible` | timetable_algo_test.py:73-77 | if a gene names one instructor twice, no assignment is a solution |
| `Repair.OversizedGroupKeepsGenes` | timetable_algo_test.py:76-85 | with a sound solver and an oversized group, the status is never OPTIMAL and repair returns the genes unchanged |
| `Repair.CommonInstructorGroup` | timetable_algo_test.py:72-75 | if every gene names one instructor, that instructor's group holds at least as many entries as there are genes |
| `MockData.MockGene` | timetable_algo_test.py:21-36 | over the built-in catalogue, gene construction always succeeds with course CS101, professor P1, assistants [A1], classroom R2 for a practical and R1 otherwise, and a catalogue timeslot |
| `MockData.MockIndividualNeverRepaired` | timetable_algo_test.py:67-85 | ten genes naming P1 over the four built-in timeslots have no solution, so a sound solver does not answer OPTIMAL and repair changes nothing |
| `MockData.MockTimeslotsDistinct` | timetable_algo_test.py:14 | the built-in timeslot names are pairwise different |
| `MockData.MockCollisionScore` | timetable_algo_test.py:44-59 | two CS101 lectures in R1 at one timeslot score 100 − 2·10 − 15 = 65 |
| `MockData.MockSeparatedScore` | timetable_algo_test.py:44-59 | the same two lectures at different timeslots score 100 |

## Left out

- The solver's internals (`CpModel`, `CpSolver.Solve`, timetable_algo_test.py:68, 80-81) are foreign code. The model keeps only its (status, values) answer, through the oracle function `solve`. The soundness of an OPTIMAL answer is an explicit assumption (`Repair.SolverSound`), not a proof.
- The genetic-algorithm library is foreign code and is left out. This covers fitness and individual creation (18-19), toolbox registration (38-41, 61-64), two-point crossover, index-shuffle mutation, tournament selection, `varAnd` and `selBest`. The only mutation fact the model keeps is that a swap preserves the score (`Fitness.SwapKeepsScore`).
- The generation loop `generate_timetable` (88-95) is left out. It is orchestration of random library calls.
- Randomness (`random.choice`, 23-24, 35) is replaced by explicit draw parameters.
- Printing the best timetable (98-101) is I/O and is left out.
- Classroom capacity and course enrolment are never read by the code. No capacity check is modelled.
- Python object identity and aliasing are not modelled. Genes are values. The assistants list a gene shares with its course, and genes shared between individuals, are not represented.
- `Fitness.Evaluate` returns the score itself, not the one-element tuple `(score,)`.
- Reading a missing key of a `defaultdict` also inserts it. Both tables are local, so this cannot be observed and is not modelled.
- `Repair.NoRepeatMeansNoClash` proves one direction only. "No instructor clash" does not imply "no repeated occurrence" when a gene names someone twice.
