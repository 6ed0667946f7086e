/** The optimiser's objects: rooms whose student lists are changed in place,
    the scoring queries over them, and the annealing loop. */
module Roommates {
  import opened Students
  import opened Assignment
  import opened Annealing
  import opened Search

  /** Exchanges studentsOne[indexOne] and studentsTwo[indexTwo] in place; the
      two lists may be one and the same list. */
  method SwapStudents(studentsOne: array<Student>, studentsTwo: array<Student>, indexOne: nat, indexTwo: nat)
    requires indexOne < studentsOne.Length && indexTwo < studentsTwo.Length
    modifies studentsOne, studentsTwo
    ensures studentsOne != studentsTwo ==>
      && studentsOne[..] == old(studentsOne[..])[indexOne := old(studentsTwo[indexTwo])]
      && studentsTwo[..] == old(studentsTwo[..])[indexTwo := old(studentsOne[indexOne])]
    ensures studentsOne == studentsTwo ==>
      studentsOne[..] == old(studentsOne[..])[indexOne := old(studentsOne[indexTwo])][indexTwo := old(studentsOne[indexOne])]
  {
    var incoming, outgoing := studentsTwo[indexTwo], studentsOne[indexOne];
    studentsOne[indexOne] := incoming;
    studentsTwo[indexTwo] := outgoing;
  }

  class Room {
    const number: nat
    /** The room's list of students; its seats are reassigned in place. */
    const students: array<Student>

    constructor (number: nat, students: seq<Student>)
      ensures this.number == number && this.students[..] == students
      ensures fresh(this.students)
    {
      this.number := number;
      this.students := new Student[|students|](i requires 0 <= i < |students| => students[i]);
    }

    /** The room's score: over every pair of seats i < j, the rating the
        student in seat i gives the student in seat j. */
    method CalculateCompatibilityScore() returns (result: int)
      requires RatingsDefined(students[..])
      ensures result == Score(students[..])
    {
      ghost var s := students[..];
      ScoreFromEnds(s);
      var n := students.Length;
      result := 0;
      var i := 0;
      while i < n - 1
        invariant 0 <= i <= n && (i == 0 || i <= n - 1)
        invariant result == Score(s) - ScoreFrom(s, i)
      {
        ScoreFromStep(s, i);
        ghost var before := result;
        var j := i + 1;
        while j < n
          invariant i + 1 <= j <= n
          invariant result == before + RatingsFrom(s, i, i + 1) - RatingsFrom(s, i, j)
        {
          RatingsFromStep(s, i, j);
          result := result + students[i].ratings[students[j].number];
          j := j + 1;
        }
        i := i + 1;
      }
    }
  }

  class Rooms {
    const studentCount: nat
    const capacity: nat
    const rooms: seq<Room>

    /** The student lists of all rooms: everything the optimiser changes. */
    ghost function Lists(): (lists: set<array<Student>>) {
      set k | 0 <= k < |rooms| :: rooms[k].students
    }

    /** Room k is numbered k, has `capacity` seats, and no two rooms share a
        list of students. */
    ghost predicate Valid() {
      && capacity > 0
      && |rooms| == studentCount / capacity
      && (forall k :: 0 <= k < |rooms| ==> rooms[k].number == k && rooms[k].students.Length == capacity)
      && (forall k, l :: 0 <= k < l < |rooms| ==> rooms[k].students != rooms[l].students)
    }

    /** The current seating, room by room. */
    ghost function Seating(): (g: Groups)
      reads Lists()
      ensures |g| == |rooms| && forall k :: 0 <= k < |rooms| ==> g[k] == rooms[k].students[..]
      ensures Valid() ==> Shaped(g, capacity)
    {
      seq(|rooms|, k requires 0 <= k < |rooms| reads Lists() => rooms[k].students[..])
    }

    /** The first studentCount / capacity consecutive blocks of `capacity`
        students become the rooms, numbered in order. */
    constructor (studentCount: nat, capacity: nat, studentList: seq<Student>)
      requires capacity > 0 && |studentList| == studentCount
      ensures this.studentCount == studentCount && this.capacity == capacity
      ensures Valid() && fresh(Lists())
      ensures Seating() == Partition(studentList, capacity, studentCount / capacity)
    {
      this.studentCount := studentCount;
      this.capacity := capacity;
      var built := AssignRandomRooms(studentCount, capacity, studentList);
      this.rooms := built;
      new;
      var count := studentCount / capacity;
      RoomCountFits(studentCount, capacity);
      PartitionRooms(studentList, capacity, count);
      PartitionCovers(studentList, capacity, count);
      assert Seating() == Partition(studentList, capacity, count);
    }

    /** Room i holds studentList[i * capacity .. i * capacity + capacity), for
        every i below studentCount / capacity. */
    static method AssignRandomRooms(studentCount: nat, capacity: nat, studentList: seq<Student>)
      returns (rooms: seq<Room>)
      requires capacity > 0
      ensures |rooms| == studentCount / capacity
      ensures forall k :: 0 <= k < |rooms| ==>
        && rooms[k].number == k
        && rooms[k].students[..] == Slice(studentList, k * capacity, k * capacity + capacity)
        && fresh(rooms[k].students)
      ensures forall k, l :: 0 <= k < l < |rooms| ==> rooms[k].students != rooms[l].students
    {
      var roomCount := studentCount / capacity;
      rooms := [];
      for i := 0 to roomCount
        invariant |rooms| == i
        invariant forall k :: 0 <= k < i ==>
          && rooms[k].number == k
          && rooms[k].students[..] == Slice(studentList, k * capacity, k * capacity + capacity)
          && fresh(rooms[k].students)
        invariant forall k, l :: 0 <= k < l < i ==> rooms[k].students != rooms[l].students
      {
        var firstStudent := i * capacity;
        var lastStudent := firstStudent + capacity;
        var room := new Room(i, Slice(studentList, firstStudent, lastStudent));
        rooms := rooms + [room];
      }
    }

    /** The total of the room scores divided by studentCount / capacity. */
    method AverageRoomScore() returns (average: real)
      requires studentCount > 0 && capacity > 0 && RoomsRated(Seating())
      ensures average == Average(Seating(), studentCount, capacity)
    {
      ghost var g := Seating();
      var score := 0;
      for k := 0 to |rooms|
        invariant RoomsRated(g[..k]) && score == TotalScore(g[..k])
      {
        assert g[..k + 1][..k] == g[..k];
        var roomScore := rooms[k].CalculateCompatibilityScore();
        score := score + roomScore;
      }
      assert g[..|rooms|] == g;
      assert Seating() == g;
      average := (score as real) / ((studentCount as real) / (capacity as real));
    }

    /** The lowest room score, that of the best room. */
    method BestRoomScore() returns (lowest: int)
      requires |rooms| > 0 && RoomsRated(Seating())
      ensures forall k :: 0 <= k < |rooms| ==> lowest <= Score(Seating()[k])
      ensures exists k :: 0 <= k < |rooms| && lowest == Score(Seating()[k])
    {
      ghost var g := Seating();
      lowest := rooms[0].CalculateCompatibilityScore();
      ghost var best: nat := 0;
      for k := 1 to |rooms|
        invariant best < |rooms| && lowest == Score(g[best])
        invariant forall l :: 0 <= l < k ==> lowest <= Score(g[l])
      {
        var score := rooms[k].CalculateCompatibilityScore();
        if score < lowest {
          lowest, best := score, k;
        }
      }
      assert Seating() == g;
    }

    /** The highest room score, that of the worst room. */
    method WorstRoomScore() returns (highest: int)
      requires |rooms| > 0 && RoomsRated(Seating())
      ensures forall k :: 0 <= k < |rooms| ==> Score(Seating()[k]) <= highest
      ensures exists k :: 0 <= k < |rooms| && highest == Score(Seating()[k])
    {
      ghost var g := Seating();
      highest := rooms[0].CalculateCompatibilityScore();
      ghost var worst: nat := 0;
      for k := 1 to |rooms|
        invariant worst < |rooms| && highest == Score(g[worst])
        invariant forall l :: 0 <= l < k ==> Score(g[l]) <= highest
      {
        var score := rooms[k].CalculateCompatibilityScore();
        if score > highest {
          highest, worst := score, k;
        }
      }
      assert Seating() == g;
    }

    /** Exchanges seat slotOne of room roomOne with seat slotTwo of room
        roomTwo, through the rooms' own lists. */
    method Swap(roomOne: nat, slotOne: nat, roomTwo: nat, slotTwo: nat)
      requires Valid() && roomOne < |rooms| && roomTwo < |rooms| && slotOne < capacity && slotTwo < capacity
      modifies rooms[roomOne].students, rooms[roomTwo].students
      ensures Seating() == Exchange(old(Seating()), roomOne, slotOne, roomTwo, slotTwo)
    {
      SwapStudents(rooms[roomOne].students, rooms[roomTwo].students, slotOne, slotTwo);
      ghost var h := Exchange(old(Seating()), roomOne, slotOne, roomTwo, slotTwo);
      forall k | 0 <= k < |rooms| ensures Seating()[k] == h[k] {
        if k != roomOne && k != roomTwo {
          assert rooms[k].students != rooms[roomOne].students && rooms[k].students != rooms[roomTwo].students;
        }
      }
    }

    /** Makes the move on the rooms' lists. */
    method Apply(m: Move)
      requires Valid() && ValidMove(m, |rooms|, capacity)
      modifies rooms[m.roomOne].students, rooms[m.roomTwo].students
      ensures Seating() == ApplyMove(old(Seating()), m, capacity)
    {
      match m
      case SlotSwap(roomOne, roomTwo, slotOne, slotTwo) =>
        Swap(roomOne, slotOne, roomTwo, slotTwo);
      case BlockSwap(roomOne, roomTwo) =>
        Swap(roomOne, 0, roomTwo, capacity - 2);
        Swap(roomOne, 1, roomTwo, capacity - 1);
    }

    /** Takes the move back: its exchanges in the reverse order. */
    method Revert(m: Move)
      requires Valid() && ValidMove(m, |rooms|, capacity)
      modifies rooms[m.roomOne].students, rooms[m.roomTwo].students
      ensures Seating() == UndoMove(old(Seating()), m, capacity)
    {
      match m
      case SlotSwap(roomOne, roomTwo, slotOne, slotTwo) =>
        Swap(roomOne, slotOne, roomTwo, slotTwo);
      case BlockSwap(roomOne, roomTwo) =>
        Swap(roomOne, 1, roomTwo, capacity - 1);
        Swap(roomOne, 0, roomTwo, capacity - 2);
    }

    /** One iteration of the optimiser: make the drawn move, score the
        rooms, and keep the move or take it back. The tracked score stays the
        average of the current rooms, and the rooms change only if the move
        was accepted. */
    method Attempt(draw: Draw, currentScore: real, t: real, exp: real -> real)
      returns (accepted: bool, newScore: real)
      requires Valid() && Rated(Seating()) && RoomsRated(Seating()) && capacity >= 2 && studentCount > 0
      requires ValidMove(draw.move, |rooms|, capacity)
      requires Worsens(Seating(), draw.move, studentCount, capacity) ==> t != 0.0
      requires currentScore == Average(Seating(), studentCount, capacity)
      modifies Lists()
      ensures Rated(Seating()) && RoomsRated(Seating())
      ensures multiset(Flatten(Seating())) == multiset(Flatten(old(Seating())))
      ensures newScore == Average(Seating(), studentCount, capacity)
      ensures accepted ==> Seating() == ApplyMove(old(Seating()), draw.move, capacity)
      ensures !accepted ==> Seating() == old(Seating()) && newScore == currentScore
      ensures RoomsRated(ApplyMove(old(Seating()), draw.move, capacity))
      ensures accepted <==> IsChangeAccepted(currentScore, Average(ApplyMove(old(Seating()), draw.move, capacity), studentCount, capacity), t, draw.coin, exp)
    {
      ghost var before := Seating();
      Apply(draw.move);
      MoveKeepsRoomsRated(before, draw.move, capacity);
      ghost var after := Seating();
      assert after == ApplyMove(before, draw.move, capacity);
      var swappedScore := AverageRoomScore();
      assert Seating() == after;
      accepted := IsChangeAccepted(currentScore, swappedScore, t, draw.coin, exp);
      if accepted {
        newScore := swappedScore;
        MoveKeepsStudents(before, draw.move, capacity);
        MoveKeepsRated(before, draw.move, capacity);
      } else {
        Revert(draw.move);
        UndoMoveRestores(before, draw.move, capacity);
        newScore := currentScore;
      }
    }

    /** Simulated annealing over the rooms, drawing the n-th iteration's
        random choices from draws[n]: the rooms and the counters end as the
        search on values says, which stops after a batch of AttemptLimit
        attempts without an acceptance, or when the draws run out. */
    method OptimizeRooms(initialTemperature: real, coolingFactor: real, draws: seq<Draw>, exp: real -> real)
      returns (schedule: Schedule)
      requires Valid() && |rooms| > 0
      requires Ready(Seating(), Start(initialTemperature), draws, studentCount, capacity, coolingFactor)
      modifies Lists()
      ensures var r := Anneal(old(Seating()), Start(initialTemperature), draws, studentCount, capacity, coolingFactor, exp);
              Seating() == r.seating && schedule == r.schedule
    {
      ghost var goal := Anneal(Seating(), Start(initialTemperature), draws, studentCount, capacity, coolingFactor, exp);
      RatedRoomsAreRated(Seating());
      schedule := Start(initialTemperature);
      var currentCompatibilityScore := AverageRoomScore();
      while Running(schedule) && schedule.total < |draws|
        invariant Ready(Seating(), schedule, draws, studentCount, capacity, coolingFactor)
        invariant RoomsRated(Seating())
        invariant currentCompatibilityScore == Average(Seating(), studentCount, capacity)
        invariant var r := Anneal(Seating(), schedule, draws, studentCount, capacity, coolingFactor, exp);
                  r.seating == goal.seating && r.schedule == goal.schedule
        decreases |draws| - schedule.total
      {
        var accepted;
        accepted, currentCompatibilityScore :=
          Attempt(draws[schedule.total], currentCompatibilityScore, schedule.t, exp);
        AdvanceKeepsBounds(schedule, accepted, coolingFactor);
        schedule := Advance(schedule, accepted, coolingFactor);
      }
    }
  }

  /** There are at most as many full rooms as the students fill. */
  lemma RoomCountFits(studentCount: nat, capacity: nat)
    requires capacity > 0
    ensures (studentCount / capacity) * capacity <= studentCount
    ensures studentCount / capacity > 0 ==> studentCount > 0
  {
  }
}
