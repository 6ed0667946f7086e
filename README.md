# Roommate assignment by simulated annealing — a Dafny model

`roommates-simulated-annealing.py` seats a population of students in rooms of a
fixed capacity. Each student carries a row of integer ratings, one per student.
The score of a room sums, over every pair of seats i < j, the rating the student
in seat i gives to the student in seat j. A lower score is a better room.

The program proceeds in three steps:
- It seats the students in consecutive blocks.
- It improves the seating by simulated annealing. Each iteration makes a random
  move between two rooms and compares the average room score before and after.
  An improvement is kept, a tie is taken back, and a worsening move is kept with
  probability exp((old - new) / T).
- The temperature T cools by a factor after every batch of attempts.

The model follows the program's own structure:

| file | module | what it holds |
|---|---|---|
| students.dfy | `Students` | the student record, the room score `Score` as a recursive function, an independent back-to-front definition, and the lemmas relating them |
| assignment.dfy | `Assignment` | the seating as a value (a sequence of rooms): total and average score, the initial partition, the seat exchange, the two moves and their undo, and the properties of these |
| annealing.dfy | `Annealing` | the acceptance rule, the batch counters, cooling and the exit condition, as functions on a `Schedule` value |
| search.dfy | `Search` | the whole annealing run on values, as a function of the starting seating and the random draws |
| rooms.dfy | `Roommates` | the program's objects: class `Room`, whose student list is an `array` changed in place, and class `Rooms`, with the scoring loops, the in-place moves and the annealing loop. Each is proved to compute the functions above. |

Some consequences of the code that the model states:
- Single-slot seats are drawn by `randrange(capacity - 1)`, so from [0, capacity-1) (`Assignment.SlotSwapKeepsLastSeats`).
- The average divides the total by the real number studentCount / capacity. That is the number of rooms only when capacity divides studentCount (`Assignment.AverageIsMean`).
- At capacity 2 the block swap trades the two rooms whole, so it never changes the average and is always rejected (`Assignment.BlockSwapOfCapacityTwoKeepsScore`, `Assignment.CapacityTwoScenario`).
- A lower score is better: every decrease is accepted.

## Model

| member | source | states |
|---|---|---|
| Students.ScoreIsDirectional | roommates-simulated-annealing.py:32-38 | a room of one student scores 0; a room of two scores only the earlier student's rating of the later one, never the reverse |
| Students.ScoreAppend | roommates-simulated-annealing.py:32-38 | seating one more student at the end of a room adds exactly the ratings the students already there give to the newcomer |
| Students.ScoreFromEitherEnd | roommates-simulated-annealing.py:32-38 | the sum over pairs i < j peeled from the front equals an independent sum peeled from the back |
| Roommates.Room.CalculateCompatibilityScore | roommates-simulated-annealing.py:32-38 | the double loop returns exactly the room's pair score `Score` of the room's current list, provided every student number indexes every rating row |
| Roommates.Room.constructor | roommates-simulated-annealing.py:28-30 | the room keeps its number and exactly the given students, in order, in a list of its own |
| Roommates.Rooms.AssignRandomRooms | roommates-simulated-annealing.py:73-81 | there are floor(studentCount / capacity) rooms; room k is numbered k and holds the slice studentList[k*capacity : k*capacity+capacity], clamped as list slicing clamps; no two rooms share a list |
| Roommates.Rooms.constructor | roommates-simulated-annealing.py:47-49 | the rooms built are valid and their seating is `Partition` of the student list into floor(studentCount / capacity) blocks |
| Roommates.RoomCountFits | roommates-simulated-annealing.py:74 | floor(studentCount / capacity) full rooms never need more students than there are |
| Assignment.PartitionRooms | roommates-simulated-annealing.py:73-81 | the partition has exactly `count` rooms, room i being the block starting at i*capacity |
| Assignment.PartitionCovers | roommates-simulated-annealing.py:73-81 | with enough students every room is full, and the rooms read in order are exactly the first count*capacity students |
| Assignment.PartitionDropsTail | roommates-simulated-annealing.py:73-81 | the seated students and the students after the last full block together are all the students, each exactly once |
| Roommates.Rooms.AverageRoomScore | roommates-simulated-annealing.py:51-55 | returns the total of the room scores divided by the real number studentCount / capacity |
| Assignment.TotalScoreUpdate | roommates-simulated-annealing.py:51-55 | replacing one room changes the total by exactly the new room's score minus the old one's |
| Assignment.AverageOrder | roommates-simulated-annealing.py:51-55 | two averages compare (less than, equal) exactly as the two totals do, because the divisor is a positive constant |
| Assignment.AverageIsMean | roommates-simulated-annealing.py:51-55 | when capacity divides studentCount, the average is the total divided by the number of rooms |
| Assignment.TotalScoreBounds | roommates-simulated-annealing.py:51-55 | if every room scores between lo and hi, the total lies between lo and hi times the number of rooms |
| Assignment.AverageWithinExtremes | roommates-simulated-annealing.py:51-71 | when capacity divides studentCount, the average lies between the best and the worst room score |
| Roommates.Rooms.BestRoomScore | roommates-simulated-annealing.py:57-63 | the result is at most every room's score and is the score of some room: the minimum |
| Roommates.Rooms.WorstRoomScore | roommates-simulated-annealing.py:65-71 | the result is at least every room's score and is the score of some room: the maximum |
| Roommates.SwapStudents | roommates-simulated-annealing.py:95-96 | exchanges studentsOne[indexOne] and studentsTwo[indexTwo] in place and changes nothing else, also when both are the same list |
| Assignment.ExchangeSeats | roommates-simulated-annealing.py:95-96 | on the seating, the two seats trade students and every other seat keeps its student |
| Assignment.ExchangeSameSeat | roommates-simulated-annealing.py:95-96 | exchanging a seat with itself, the aliased case, changes nothing |
| Assignment.ExchangeTwice | roommates-simulated-annealing.py:95-96 | exchanging the same two seats twice restores the seating |
| Assignment.ExchangeKeepsStudents | roommates-simulated-annealing.py:95-96 | an exchange keeps the multiset of seated students |
| Assignment.ExchangeKeepsRated | roommates-simulated-annealing.py:95-96 | after an exchange every seated student still has a rating for every seated student |
| Assignment.ExchangesCommute | roommates-simulated-annealing.py:128-131 | two exchanges with no seat in common can be made in either order |
| Roommates.Rooms.Swap | roommates-simulated-annealing.py:124-131 | exchanging two seats through the rooms' own lists changes the seating exactly as `Exchange` says |
| Assignment.ApplyMove | roommates-simulated-annealing.py:119-131 | both moves keep the number of rooms and every room at capacity |
| Roommates.Rooms.Apply | roommates-simulated-annealing.py:119-131 | making a move on the rooms' lists turns the seating into `ApplyMove` of the old seating: a single-slot swap, or a block swap (0 with capacity-2, then 1 with capacity-1) |
| Assignment.SlotSwapKeepsLastSeats | roommates-simulated-annealing.py:121-125 | a single-slot swap draws its seats from [0, capacity-1), so it never moves the student in the last seat of any room |
| Assignment.MoveKeepsStudents | roommates-simulated-annealing.py:119-131 | every move keeps the multiset of seated students |
| Assignment.MoveKeepsRated | roommates-simulated-annealing.py:119-131 | after a move every seated student still rates every seated student |
| Assignment.MoveKeepsRoomsRated | roommates-simulated-annealing.py:119-131 | after a move every room can still be scored |
| Assignment.BlockSwapOfCapacityTwo | roommates-simulated-annealing.py:127-131 | at capacity 2, a block swap between two different rooms trades the rooms whole |
| Assignment.BlockSwapOfCapacityTwoKeepsScore | roommates-simulated-annealing.py:127-135 | at capacity 2 a block swap never changes the total score, so it always ties and is always rejected |
| Assignment.CapacityTwoScenario | roommates-simulated-annealing.py:127-135 | for four students in two rooms of two, with ratings 0 to 1 = 5, 1 to 0 = 1 and 2 to 3 = 3 to 2 = 2: the rooms score 5 and 2, the average is 3.5, and the block swap yields the two rooms swapped, with average still 3.5 |
| Assignment.ReapplyRestores | roommates-simulated-annealing.py:139-148 | taking a move back by re-applying it, as the program does, restores the seating for every single-slot swap, for a block swap between different rooms, and for any capacity other than 3 |
| Assignment.BlockSwapRotatesRoomOfThree | roommates-simulated-annealing.py:127-148 | within one room of capacity 3 the block swap rotates [a, b, c] to [b, c, a], and re-applying it gives [c, a, b] instead of [a, b, c] |
| Assignment.RoomOfThreeScore | roommates-simulated-annealing.py:32-38 | a room of three scores the three forward ratings a to b, a to c and b to c |
| Assignment.ReapplyLeavesStaleScore | roommates-simulated-annealing.py:133-148 | a concrete room of three where the same-room block swap ties (both score 1), so that `IsChangeAccepted` rejects it for every temperature, draw and exp; re-applying it to take it back leaves a seating different from the original, whose score (0) no longer matches the kept score (1) |
| Assignment.UndoMove | roommates-simulated-annealing.py:139-148 | the corrected take-back, which makes the move's exchanges in reverse order, keeps every room at capacity |
| Assignment.UndoMoveRestores | roommates-simulated-annealing.py:139-148 | the corrected take-back restores the seating after every move, in every case |
| Roommates.Rooms.Revert | roommates-simulated-annealing.py:139-148 | taking a move back on the rooms' lists turns the seating into `UndoMove` of the seating |
| Annealing.IsChangeAccepted | roommates-simulated-annealing.py:98-107 | a lower new score is always accepted and an equal one never, at any temperature; a higher one, the only case that divides by T and so needs T ≠ 0, is accepted exactly when the draw lies below exp((old - new) / T) |
| Annealing.AdvanceKeepsBounds | roommates-simulated-annealing.py:149-155 | one iteration keeps accepted <= attempted <= 20000 and accepted < 2000, adds one to the total, and keeps a non-zero temperature non-zero |
| Annealing.CoolsExactlyAtBatchEnd | roommates-simulated-annealing.py:149-155 | both counters are reset exactly when, after counting the attempt, attempted > 20000 or accepted >= 2000; the temperature is then multiplied by the cooling factor, and otherwise unchanged |
| Annealing.StopsAfterFullBatch | roommates-simulated-annealing.py:114 | with the counter bounds, the loop condition fails only with accepted = 0 and attempted = 20000 |
| Annealing.RunKeepsBounds | roommates-simulated-annealing.py:149-155 | any number of iterations keeps the counter bounds and counts every attempt in the total |
| Annealing.RunNeverOvertakes | roommates-simulated-annealing.py:149-155 | the attempt counter grows by at most one per iteration |
| Annealing.RunWithoutCooling | roommates-simulated-annealing.py:149-155 | if the attempt counter ends at least at the number of iterations, no batch ended: the counter grew by one per iteration, the accept counter by the number of acceptances, and T stayed |
| Annealing.StopMeansStall | roommates-simulated-annealing.py:114-155 | if the loop condition fails after at least 20000 iterations, the last 20000 decisions all rejected their move |
| Annealing.StallStops | roommates-simulated-annealing.py:114-155 | from a fresh batch, n <= 20000 rejections leave attempted = n and accepted = 0, and the loop goes on exactly while n < 20000 |
| Search.Decide | roommates-simulated-annealing.py:133-135 | a move that lowers the average is always kept and one that leaves it equal never; T ≠ 0 is needed only when the move raises the average |
| Search.Anneal | roommates-simulated-annealing.py:109-155 | the run ends at the exit condition or when the draws run out; the counters at the end are those the decisions lead to, one decision per attempt, and the loop-head bounds still hold |
| Search.AnnealKeepsStudents | roommates-simulated-annealing.py:109-155 | after the whole run every student is seated exactly as often as at the start |
| Search.RejectionsKeepSeating | roommates-simulated-annealing.py:109-155 | a run that rejects every move ends with the seating it started from |
| Search.StopAfterStall | roommates-simulated-annealing.py:114-155 | a run that stops on its exit condition made at least 20000 attempts, and its last 20000 were rejections |
| Roommates.Rooms.Attempt | roommates-simulated-annealing.py:115-148 | one iteration decides exactly as `IsChangeAccepted` on the old and new averages, needing T ≠ 0 only when the move raises the average. An accepted move leaves the seating as `ApplyMove` says and a rejected one leaves it unchanged. The kept score stays the average of the current rooms, and the multiset of students is unchanged |
| Roommates.Rooms.OptimizeRooms | roommates-simulated-annealing.py:109-156 | the loop leaves the rooms and the counters exactly as `Search.Anneal` computes them from the starting seating and the draws |

## Left out

- Command-line configuration (roommates-simulated-annealing.py:6-24). The student count, capacity, initial temperature and cooling factor are parameters. The cooling factor is a real, as its default value 0.95 suggests, although the option is declared as an integer.
- Reading the ratings file (roommates-simulated-annealing.py:159-166) is I/O. The students and their rating rows are inputs.
- Printing the rooms and the results, and the timing (roommates-simulated-annealing.py:83-92, 169-178), are display only.
- Randomness (roommates-simulated-annealing.py:105, 115-122). The draws of each iteration are one `Draw` in a caller-supplied sequence:
  - the two room indices;
  - the strategy bit;
  - the two seats of a single-slot swap;
  - the uniform number compared with the acceptance probability.

  A room is drawn by index. "The same room twice" is therefore the same index, just as `random.choice` returns the same object.
- `math.exp` is a function parameter. Floating-point arithmetic (the average, T, the cooling) is modelled with exact reals, so rounding is not modelled.
- Roommates.Rooms.OptimizeRooms: the loop also stops when the supplied draws run out, because termination of the program's loop depends on the random stream. The model does not claim that the program's loop terminates. The method's constant `return 0` is not modelled.
- Conditions under which the program raises an exception are preconditions instead of error results:
  - no students, where the average divides by zero;
  - no rooms, where `rooms[0]` fails;
  - a student number that does not index a rating row;
  - capacity below 2, where `randrange(0)` fails and seat index capacity - 2 would wrap to the last seat.
- `int(STUDENT_COUNT / ROOM_CAPACITY)` goes through a float. The model uses exact floor division, which differs only for counts beyond float precision.
- Search.Ready, Search.Anneal, Roommates.Rooms.OptimizeRooms: the whole run requires an initial temperature other than 0 and a cooling factor other than 0. At T = 0 the program raises ZeroDivisionError at the first worsening move (roommates-simulated-annealing.py:104), and a cooling factor of 0 makes T = 0 at the first cooling (roommates-simulated-annealing.py:153). A run at T = 0 that happens never to meet a worsening move is therefore not modelled. One iteration (`Search.Decide`, `Roommates.Rooms.Attempt`) requires T ≠ 0 only for a worsening move.
- The program takes a rejected move back by re-applying it. The model takes it back with the corrected `Assignment.UndoMove` instead (see Findings). `Assignment.ReapplyRestores` and `Assignment.ReapplyLeavesStaleScore` state what re-applying does.

## Findings

| source | as written | input that shows it | evidently intended | confidence | as-written member | corrected member |
|---|---|---|---|---|---|---|
| roommates-simulated-annealing.py:139-148 | a rejected block swap is taken back by making the same two exchanges (0 with capacity-2, then 1 with capacity-1) again in the same order | capacity 3, both drawn rooms the same room [a, b, c], block swap: with student b rating student c at 1 and all other ratings 0, [a, b, c] and the moved room [b, c, a] both score 1, so the tie is rejected; re-applying gives [c, a, b], which scores 0 while the kept score stays 1 | taking a move back restores the rooms exactly, so that the kept score stays the average of the current rooms | not executed | Assignment.ReapplyLeavesStaleScore | Assignment.UndoMoveRestores |
