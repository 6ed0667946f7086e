/** An assignment of students to rooms, taken as a value: the initial
    partition, the aggregate scores and the moves the optimiser makes. */
module Assignment {
  import opened Students
  import opened Annealing

  /** The students of each room, room by room, in seat order. */
  type Groups = seq<seq<Student>>

  /** All seated students, room after room. */
  function Flatten(g: Groups): (seated: seq<Student>) {
    if g == [] then [] else g[0] + Flatten(g[1..])
  }

  /** Every room has exactly `capacity` seats. */
  predicate Shaped(g: Groups, capacity: nat) {
    forall k :: 0 <= k < |g| ==> |g[k]| == capacity
  }

  /** Every seated student has a rating for every seated student, so that no
      exchange of seats can lead to a missing rating. */
  predicate Rated(g: Groups) {
    forall x, y :: x in Flatten(g) && y in Flatten(g) ==> y.number < |x.ratings|
  }

  /** Every room can be scored. */
  predicate RoomsRated(g: Groups) {
    forall k :: 0 <= k < |g| ==> RatingsDefined(g[k])
  }

  // ---------------------------------------------------------------------
  // Flattening

  lemma {:induction false} FlattenAppend(g: Groups, r: seq<Student>)
    ensures Flatten(g + [r]) == Flatten(g) + r
  {
    if g != [] {
      assert (g + [r])[1..] == g[1..] + [r];
      FlattenAppend(g[1..], r);
    }
  }

  /** Every seat's student is among the seated students. */
  lemma {:induction false} SeatInFlatten(g: Groups, k: nat, i: nat)
    requires k < |g| && i < |g[k]|
    ensures g[k][i] in Flatten(g)
  {
    if k > 0 {
      SeatInFlatten(g[1..], k - 1, i);
    }
  }

  lemma RatedRoomsAreRated(g: Groups)
    requires Rated(g)
    ensures RoomsRated(g)
  {
    forall k, i, j | 0 <= k < |g| && 0 <= i < j < |g[k]|
      ensures g[k][j].number < |g[k][i].ratings|
    {
      SeatInFlatten(g, k, i);
      SeatInFlatten(g, k, j);
    }
  }

  /** Replacing one room changes the seated students by exactly that room:
      the old room's students leave and the new room's students arrive. */
  lemma {:induction false} FlattenUpdate(g: Groups, k: nat, r: seq<Student>)
    requires k < |g|
    ensures multiset(Flatten(g[k := r])) + multiset(g[k]) == multiset(Flatten(g)) + multiset(r)
  {
    var h := g[k := r];
    assert Flatten(h) == h[0] + Flatten(h[1..]);
    assert Flatten(g) == g[0] + Flatten(g[1..]);
    if k == 0 {
      assert h[1..] == g[1..];
    } else {
      assert h[1..] == g[1..][k - 1 := r];
      assert h[0] == g[0] && g[1..][k - 1] == g[k];
      FlattenUpdate(g[1..], k - 1, r);
      calc {
        multiset(Flatten(h)) + multiset(g[k]);
        multiset(g[0]) + multiset(Flatten(h[1..])) + multiset(g[1..][k - 1]);
        multiset(g[0]) + (multiset(Flatten(g[1..][k - 1 := r])) + multiset(g[1..][k - 1]));
        multiset(g[0]) + (multiset(Flatten(g[1..])) + multiset(r));
        multiset(Flatten(g)) + multiset(r);
      }
    }
  }

  // ---------------------------------------------------------------------
  // Aggregate scores

  /** The sum of the room scores. */
  function TotalScore(g: Groups): (total: int)
    requires RoomsRated(g)
  {
    if g == [] then 0 else TotalScore(g[..|g| - 1]) + Score(g[|g| - 1])
  }

  /** The average room score as the optimiser computes it: the total divided
      by studentCount / capacity, a real number that is the number of rooms
      only when capacity divides studentCount. */
  function Average(g: Groups, studentCount: nat, capacity: nat): (average: real)
    requires RoomsRated(g) && studentCount > 0 && capacity > 0
  {
    (TotalScore(g) as real) / ((studentCount as real) / (capacity as real))
  }

  /** Replacing one room changes the total by the difference of the two scores. */
  lemma {:induction false} TotalScoreUpdate(g: Groups, k: nat, r: seq<Student>)
    requires RoomsRated(g) && k < |g| && RatingsDefined(r)
    ensures RoomsRated(g[k := r])
    ensures TotalScore(g[k := r]) == TotalScore(g) - Score(g[k]) + Score(r)
  {
    var h := g[k := r];
    var n := |g| - 1;
    if k == n {
      assert h[..n] == g[..n];
    } else {
      assert h[..n] == g[..n][k := r];
      TotalScoreUpdate(g[..n], k, r);
    }
  }

  /** Averages compare exactly as totals do, since the divisor is a positive
      constant: accepting or rejecting a move depends only on the totals. */
  lemma AverageOrder(g: Groups, h: Groups, studentCount: nat, capacity: nat)
    requires RoomsRated(g) && RoomsRated(h) && studentCount > 0 && capacity > 0
    ensures Average(g, studentCount, capacity) < Average(h, studentCount, capacity)
            <==> TotalScore(g) < TotalScore(h)
    ensures Average(g, studentCount, capacity) == Average(h, studentCount, capacity)
            <==> TotalScore(g) == TotalScore(h)
  {
    var d := (studentCount as real) / (capacity as real);
    assert d > 0.0;
    DivisionKeepsOrder(TotalScore(g) as real, TotalScore(h) as real, d);
  }

  lemma DivisionKeepsOrder(a: real, b: real, d: real)
    requires d > 0.0
    ensures a / d < b / d <==> a < b
    ensures a / d == b / d <==> a == b
  {
    if a < b { assert b / d - a / d == (b - a) / d; }
    if a / d < b / d { assert b - a == (b / d - a / d) * d; }
    if a / d == b / d { assert a == (a / d) * d && b == (b / d) * d; }
  }


  /** When capacity divides studentCount the average is the mean room score. */
  lemma AverageIsMean(g: Groups, studentCount: nat, capacity: nat)
    requires RoomsRated(g) && |g| > 0 && capacity > 0 && studentCount == |g| * capacity
    ensures Average(g, studentCount, capacity) == (TotalScore(g) as real) / (|g| as real)
  {
    assert (studentCount as real) / (capacity as real) == |g| as real;
  }

  lemma {:induction false} TotalScoreBounds(g: Groups, lo: int, hi: int)
    requires RoomsRated(g)
    requires forall k :: 0 <= k < |g| ==> lo <= Score(g[k]) <= hi
    ensures lo * |g| <= TotalScore(g) <= hi * |g|
  {
    if g != [] {
      var n := |g| - 1;
      assert forall k :: 0 <= k < n ==> g[..n][k] == g[k];
      TotalScoreBounds(g[..n], lo, hi);
      assert TotalScore(g) == TotalScore(g[..n]) + Score(g[n]);
      MulStep(lo, n);
      MulStep(hi, n);
    }
  }

  lemma MulStep(a: int, n: nat)
    ensures a * (n + 1) == a * n + a
  {
  }

  /** With capacity dividing studentCount, the average lies between the best
      (lowest) and the worst (highest) room score. */
  lemma AverageWithinExtremes(g: Groups, studentCount: nat, capacity: nat, best: int, worst: int)
    requires RoomsRated(g) && |g| > 0 && capacity > 0 && studentCount == |g| * capacity
    requires forall k :: 0 <= k < |g| ==> best <= Score(g[k]) <= worst
    ensures best as real <= Average(g, studentCount, capacity) <= worst as real
  {
    TotalScoreBounds(g, best, worst);
    AverageIsMean(g, studentCount, capacity);
    MeanBounds(TotalScore(g), |g|, best, worst);
  }

  lemma MeanBounds(total: int, n: int, lo: int, hi: int)
    requires n > 0 && lo * n <= total <= hi * n
    ensures lo as real <= (total as real) / (n as real) <= hi as real
  {
    var t, r := total as real, n as real;
    assert (lo as real) * r <= t <= (hi as real) * r;
    assert t / r - lo as real == (t - (lo as real) * r) / r;
    assert hi as real - t / r == ((hi as real) * r - t) / r;
  }

  // ---------------------------------------------------------------------
  // The initial partition

  /** The list slice s[lo:hi] for 0 <= lo <= hi: both bounds are clamped to
      the length of s. */
  function Slice(s: seq<Student>, lo: nat, hi: nat): (slice: seq<Student>)
    requires lo <= hi
  {
    var l := if lo < |s| then lo else |s|;
    var h := if hi < |s| then hi else |s|;
    s[l..h]
  }

  /** The first `count` consecutive blocks of `capacity` students, in order. */
  function Partition(students: seq<Student>, capacity: nat, count: nat): (rooms: Groups) {
    if count == 0 then []
    else Partition(students, capacity, count - 1)
         + [Slice(students, (count - 1) * capacity, (count - 1) * capacity + capacity)]
  }

  /** Room i of the partition is the block starting at i * capacity. */
  lemma {:induction false} PartitionRooms(students: seq<Student>, capacity: nat, count: nat)
    ensures |Partition(students, capacity, count)| == count
    ensures forall i :: 0 <= i < count ==>
      Partition(students, capacity, count)[i] == Slice(students, i * capacity, i * capacity + capacity)
  {
    if count > 0 {
      PartitionRooms(students, capacity, count - 1);
    }
  }

  /** When there are enough students, every room is full and the rooms hold
      exactly the first count * capacity students, each once, in order. */
  lemma {:induction false} PartitionCovers(students: seq<Student>, capacity: nat, count: nat)
    requires count * capacity <= |students|
    ensures Shaped(Partition(students, capacity, count), capacity)
    ensures Flatten(Partition(students, capacity, count)) == students[..count * capacity]
  {
    if count > 0 {
      var before := (count - 1) * capacity;
      var after := count * capacity;
      MulStep(capacity, count - 1);
      assert before + capacity == after;
      var block := Slice(students, before, after);
      assert block == students[before..after];
      PartitionCovers(students, capacity, count - 1);
      FlattenAppend(Partition(students, capacity, count - 1), block);
      assert students[..before] + students[before..after] == students[..after];
    }
  }

  /** The students after the last full room are in no room: the partition
      and that tail together hold every student exactly once. */
  lemma PartitionDropsTail(students: seq<Student>, capacity: nat, count: nat)
    requires count * capacity <= |students|
    ensures multiset(Flatten(Partition(students, capacity, count))) + multiset(students[count * capacity..])
            == multiset(students)
  {
    PartitionCovers(students, capacity, count);
    PrefixAndTail(Flatten(Partition(students, capacity, count)), students, count * capacity);
  }

  lemma PrefixAndTail(prefix: seq<Student>, s: seq<Student>, n: nat)
    requires n <= |s| && prefix == s[..n]
    ensures multiset(prefix) + multiset(s[n..]) == multiset(s)
  {
    assert s[..n] + s[n..] == s;
  }


  // ---------------------------------------------------------------------
  // Exchanging two seats

  /** The seats (roomOne, slotOne) and (roomTwo, slotTwo) exchange students;
      the two rooms may be the same room. */
  function Exchange(g: Groups, roomOne: nat, slotOne: nat, roomTwo: nat, slotTwo: nat): (h: Groups)
    requires roomOne < |g| && slotOne < |g[roomOne]| && roomTwo < |g| && slotTwo < |g[roomTwo]|
    ensures |h| == |g| && forall k :: 0 <= k < |g| ==> |h[k]| == |g[k]|
  {
    var incoming, outgoing := g[roomTwo][slotTwo], g[roomOne][slotOne];
    var g1 := g[roomOne := g[roomOne][slotOne := incoming]];
    g1[roomTwo := g1[roomTwo][slotTwo := outgoing]]
  }

  /** The two seats trade students and every other seat keeps its student. */
  lemma ExchangeSeats(g: Groups, roomOne: nat, slotOne: nat, roomTwo: nat, slotTwo: nat)
    requires roomOne < |g| && slotOne < |g[roomOne]| && roomTwo < |g| && slotTwo < |g[roomTwo]|
    ensures Exchange(g, roomOne, slotOne, roomTwo, slotTwo)[roomOne][slotOne] == g[roomTwo][slotTwo]
    ensures Exchange(g, roomOne, slotOne, roomTwo, slotTwo)[roomTwo][slotTwo] == g[roomOne][slotOne]
    ensures forall k, i :: 0 <= k < |g| && 0 <= i < |g[k]| && (k, i) != (roomOne, slotOne) && (k, i) != (roomTwo, slotTwo)
              ==> Exchange(g, roomOne, slotOne, roomTwo, slotTwo)[k][i] == g[k][i]
  {
  }

  /** Exchanging a seat with itself changes nothing. */
  lemma ExchangeSameSeat(g: Groups, room: nat, slot: nat)
    requires room < |g| && slot < |g[room]|
    ensures Exchange(g, room, slot, room, slot) == g
  {
    assert g[room][slot := g[room][slot]] == g[room];
  }

  /** Exchanging the same two seats twice restores the rooms. */
  lemma ExchangeTwice(g: Groups, roomOne: nat, slotOne: nat, roomTwo: nat, slotTwo: nat)
    requires roomOne < |g| && slotOne < |g[roomOne]| && roomTwo < |g| && slotTwo < |g[roomTwo]|
    ensures Exchange(Exchange(g, roomOne, slotOne, roomTwo, slotTwo), roomOne, slotOne, roomTwo, slotTwo) == g
  {
    var h := Exchange(g, roomOne, slotOne, roomTwo, slotTwo);
    var h2 := Exchange(h, roomOne, slotOne, roomTwo, slotTwo);
    ExchangeSeats(g, roomOne, slotOne, roomTwo, slotTwo);
    ExchangeSeats(h, roomOne, slotOne, roomTwo, slotTwo);
    forall k | 0 <= k < |g| ensures h2[k] == g[k] {
      assert |h2[k]| == |g[k]|;
      forall i | 0 <= i < |g[k]| ensures h2[k][i] == g[k][i] {
      }
    }
  }

  /** Exchanges of two pairs of seats that have no seat in common commute. */
  lemma ExchangesCommute(g: Groups, a: nat, i: nat, b: nat, j: nat, c: nat, p: nat, d: nat, q: nat)
    requires a < |g| && i < |g[a]| && b < |g| && j < |g[b]|
    requires c < |g| && p < |g[c]| && d < |g| && q < |g[d]|
    requires (a, i) != (c, p) && (a, i) != (d, q) && (b, j) != (c, p) && (b, j) != (d, q)
    ensures Exchange(Exchange(g, a, i, b, j), c, p, d, q) == Exchange(Exchange(g, c, p, d, q), a, i, b, j)
  {
    var x := Exchange(g, a, i, b, j);
    var y := Exchange(g, c, p, d, q);
    var xy := Exchange(x, c, p, d, q);
    var yx := Exchange(y, a, i, b, j);
    ExchangeSeats(g, a, i, b, j);
    ExchangeSeats(g, c, p, d, q);
    ExchangeSeats(x, c, p, d, q);
    ExchangeSeats(y, a, i, b, j);
    forall k | 0 <= k < |g| ensures xy[k] == yx[k] {
      assert |xy[k]| == |yx[k]|;
      forall s | 0 <= s < |g[k]| ensures xy[k][s] == yx[k][s] {
      }
    }
  }

  lemma SeatUpdate(s: seq<Student>, i: nat, v: Student)
    requires i < |s|
    ensures multiset(s[i := v]) + multiset{s[i]} == multiset(s) + multiset{v}
  {
    assert s == s[..i] + [s[i]] + s[i + 1..];
    assert s[i := v] == s[..i] + [v] + s[i + 1..];
  }

  /** An exchange keeps every student seated exactly as often as before. */
  lemma ExchangeKeepsStudents(g: Groups, roomOne: nat, slotOne: nat, roomTwo: nat, slotTwo: nat)
    requires roomOne < |g| && slotOne < |g[roomOne]| && roomTwo < |g| && slotTwo < |g[roomTwo]|
    ensures multiset(Flatten(Exchange(g, roomOne, slotOne, roomTwo, slotTwo))) == multiset(Flatten(g))
  {
    var x, y := g[roomTwo][slotTwo], g[roomOne][slotOne];
    var rowOne := g[roomOne][slotOne := x];
    var g1 := g[roomOne := rowOne];
    var rowTwo := g1[roomTwo][slotTwo := y];
    var h := g1[roomTwo := rowTwo];
    assert h == Exchange(g, roomOne, slotOne, roomTwo, slotTwo);
    FlattenUpdate(g, roomOne, rowOne);
    FlattenUpdate(g1, roomTwo, rowTwo);
    SeatUpdate(g[roomOne], slotOne, x);
    assert g1[roomTwo][slotTwo] == x;
    SeatUpdate(g1[roomTwo], slotTwo, y);
    MultisetsCancel(multiset(Flatten(h)), multiset(Flatten(g1)), multiset(Flatten(g)),
                    multiset(g1[roomTwo]), multiset(rowTwo), multiset(g[roomOne]), multiset(rowOne),
                    multiset{x}, multiset{y});
  }

  /** The bookkeeping of the two seat updates of an exchange: what the second
      room loses and gains cancels what the first room gains and loses. */
  lemma MultisetsCancel(afterAll: multiset<Student>, middle: multiset<Student>, beforeAll: multiset<Student>,
                        twoBefore: multiset<Student>, twoAfter: multiset<Student>,
                        oneBefore: multiset<Student>, oneAfter: multiset<Student>,
                        x: multiset<Student>, y: multiset<Student>)
    requires afterAll + twoBefore == middle + twoAfter
    requires middle + oneBefore == beforeAll + oneAfter
    requires oneAfter + y == oneBefore + x
    requires twoAfter + x == twoBefore + y
    ensures afterAll == beforeAll
  {
    forall e ensures afterAll[e] == beforeAll[e] {
      assert (afterAll + twoBefore)[e] == (middle + twoAfter)[e];
      assert (middle + oneBefore)[e] == (beforeAll + oneAfter)[e];
      assert (oneAfter + y)[e] == (oneBefore + x)[e];
      assert (twoAfter + x)[e] == (twoBefore + y)[e];
    }
  }

  lemma ExchangeKeepsRated(g: Groups, roomOne: nat, slotOne: nat, roomTwo: nat, slotTwo: nat)
    requires roomOne < |g| && slotOne < |g[roomOne]| && roomTwo < |g| && slotTwo < |g[roomTwo]|
    requires Rated(g)
    ensures Rated(Exchange(g, roomOne, slotOne, roomTwo, slotTwo))
  {
    var h := Exchange(g, roomOne, slotOne, roomTwo, slotTwo);
    ExchangeKeepsStudents(g, roomOne, slotOne, roomTwo, slotTwo);
    forall x | x in Flatten(h) ensures x in Flatten(g) {
      assert x in multiset(Flatten(h));
    }
  }

  // ---------------------------------------------------------------------
  // Moves

  /** The two moves the optimiser makes between two rooms, which may be the
      same room: a single-slot swap of one seat in each room, and a block swap
      of seats 0 and 1 of the first room with the last two seats of the second. */
  datatype Move =
    | SlotSwap(roomOne: nat, roomTwo: nat, slotOne: nat, slotTwo: nat)
    | BlockSwap(roomOne: nat, roomTwo: nat)

  /** A move the optimiser can draw: two rooms among roomCount, and for a
      single-slot swap two seats drawn from [0, capacity - 1). The block swap
      needs at least two seats per room. */
  predicate ValidMove(m: Move, roomCount: nat, capacity: nat) {
    && capacity >= 2
    && m.roomOne < roomCount && m.roomTwo < roomCount
    && (m.SlotSwap? ==> m.slotOne < capacity - 1 && m.slotTwo < capacity - 1)
  }

  /** The move applied: one exchange for a single-slot swap, and for a block
      swap (0 with capacity - 2) followed by (1 with capacity - 1). */
  function ApplyMove(g: Groups, m: Move, capacity: nat): (h: Groups)
    requires Shaped(g, capacity) && ValidMove(m, |g|, capacity)
    ensures Shaped(h, capacity) && |h| == |g|
  {
    match m
    case SlotSwap(roomOne, roomTwo, slotOne, slotTwo) =>
      Exchange(g, roomOne, slotOne, roomTwo, slotTwo)
    case BlockSwap(roomOne, roomTwo) =>
      var first := Exchange(g, roomOne, 0, roomTwo, capacity - 2);
      Exchange(first, roomOne, 1, roomTwo, capacity - 1)
  }

  /** Undoing a move: the same exchanges in the reverse order. */
  function UndoMove(g: Groups, m: Move, capacity: nat): (h: Groups)
    requires Shaped(g, capacity) && ValidMove(m, |g|, capacity)
    ensures Shaped(h, capacity) && |h| == |g|
  {
    match m
    case SlotSwap(roomOne, roomTwo, slotOne, slotTwo) =>
      Exchange(g, roomOne, slotOne, roomTwo, slotTwo)
    case BlockSwap(roomOne, roomTwo) =>
      var last := Exchange(g, roomOne, 1, roomTwo, capacity - 1);
      Exchange(last, roomOne, 0, roomTwo, capacity - 2)
  }

  /** Undoing a move always restores the rooms exactly. */
  lemma UndoMoveRestores(g: Groups, m: Move, capacity: nat)
    requires Shaped(g, capacity) && ValidMove(m, |g|, capacity)
    ensures UndoMove(ApplyMove(g, m, capacity), m, capacity) == g
  {
    match m
    case SlotSwap(roomOne, roomTwo, slotOne, slotTwo) =>
      ExchangeTwice(g, roomOne, slotOne, roomTwo, slotTwo);
    case BlockSwap(roomOne, roomTwo) =>
      var first := Exchange(g, roomOne, 0, roomTwo, capacity - 2);
      ExchangeTwice(first, roomOne, 1, roomTwo, capacity - 1);
      ExchangeTwice(g, roomOne, 0, roomTwo, capacity - 2);
  }

  /** Re-applying a move, as the optimiser does to reject it, restores the
      rooms whenever the move is a single-slot swap, the two rooms differ, or
      the capacity is not 3. */
  lemma ReapplyRestores(g: Groups, m: Move, capacity: nat)
    requires Shaped(g, capacity) && ValidMove(m, |g|, capacity)
    requires m.SlotSwap? || m.roomOne != m.roomTwo || capacity != 3
    ensures ApplyMove(ApplyMove(g, m, capacity), m, capacity) == g
  {
    match m
    case SlotSwap(roomOne, roomTwo, slotOne, slotTwo) =>
      ExchangeTwice(g, roomOne, slotOne, roomTwo, slotTwo);
    case BlockSwap(roomOne, roomTwo) =>
      var h := ApplyMove(g, m, capacity);
      if roomOne == roomTwo && capacity == 2 {
        ExchangeSameSeat(g, roomOne, 0);
        ExchangeSameSeat(g, roomOne, 1);
        ExchangeSameSeat(h, roomOne, 0);
        ExchangeSameSeat(h, roomOne, 1);
      } else {
        // the two exchanges touch four different seats, so they commute
        var first := Exchange(h, roomOne, 0, roomTwo, capacity - 2);
        ExchangesCommute(h, roomOne, 0, roomTwo, capacity - 2, roomOne, 1, roomTwo, capacity - 1);
        ExchangeTwice(Exchange(h, roomOne, 1, roomTwo, capacity - 1), roomOne, 0, roomTwo, capacity - 2);
        UndoMoveRestores(g, m, capacity);
      }
  }

  /** On one room of capacity 3 the block swap is the rotation
      [a, b, c] -> [b, c, a]; re-applying it rotates once more, to
      [c, a, b], instead of restoring [a, b, c]. */
  lemma BlockSwapRotatesRoomOfThree(g: Groups, room: nat)
    requires Shaped(g, 3) && room < |g|
    ensures ApplyMove(g, BlockSwap(room, room), 3)
            == g[room := [g[room][1], g[room][2], g[room][0]]]
    ensures ApplyMove(ApplyMove(g, BlockSwap(room, room), 3), BlockSwap(room, room), 3)
            == g[room := [g[room][2], g[room][0], g[room][1]]]
  {
    var r := g[room];
    assert r[0 := r[1]][1 := r[0]][1 := r[2]][2 := r[0]] == [r[1], r[2], r[0]];
    var s := [r[1], r[2], r[0]];
    assert s[0 := s[1]][1 := s[0]][1 := s[2]][2 := s[0]] == [r[2], r[0], r[1]];
  }

  /** A concrete room of three where a same-room block swap ties, so that it
      is always rejected, and taking it back by re-applying it leaves the room
      rotated: the score the optimiser keeps (1) no longer matches the rooms (0). */
  lemma ReapplyLeavesStaleScore()
    ensures var g := [[Student(0, [0, 0, 0]), Student(1, [0, 0, 1]), Student(2, [0, 0, 0])]];
            var m := BlockSwap(0, 0);
            && RoomsRated(g) && TotalScore(g) == 1
            && RoomsRated(ApplyMove(g, m, 3)) && TotalScore(ApplyMove(g, m, 3)) == 1
            && (forall t: real, coin: real, exp: real -> real ::
                  !IsChangeAccepted(Average(g, 3, 3), Average(ApplyMove(g, m, 3), 3, 3), t, coin, exp))
            && ApplyMove(ApplyMove(g, m, 3), m, 3) != g
            && RoomsRated(ApplyMove(ApplyMove(g, m, 3), m, 3))
            && TotalScore(ApplyMove(ApplyMove(g, m, 3), m, 3)) == 0
  {
    var a, b, c := Student(0, [0, 0, 0]), Student(1, [0, 0, 1]), Student(2, [0, 0, 0]);
    var g := [[a, b, c]];
    BlockSwapRotatesRoomOfThree(g, 0);
    var once := ApplyMove(g, BlockSwap(0, 0), 3);
    var twice := ApplyMove(once, BlockSwap(0, 0), 3);
    assert once == [[b, c, a]];
    assert twice == [[c, a, b]];
    assert twice[0][0] != g[0][0];
    RoomOfThreeScore(a, b, c);
    RoomOfThreeScore(b, c, a);
    RoomOfThreeScore(c, a, b);
    SingleRoomTotal([a, b, c]);
    SingleRoomTotal([b, c, a]);
    SingleRoomTotal([c, a, b]);
    assert Average(g, 3, 3) == Average(once, 3, 3);
  }

  /** The score of a room of three: the three ratings given forward. */
  lemma RoomOfThreeScore(a: Student, b: Student, c: Student)
    requires b.number < |a.ratings| && c.number < |a.ratings| && c.number < |b.ratings|
    ensures RatingsDefined([a, b, c])
    ensures Score([a, b, c]) == a.ratings[b.number] + a.ratings[c.number] + b.ratings[c.number]
  {
    assert [a, b, c][1..] == [b, c] && [b, c][1..] == [c] && [c][1..] == [];
    assert Outgoing(b, [c]) == b.ratings[c.number] + Outgoing(b, []);
    assert Outgoing(a, [c]) == a.ratings[c.number] + Outgoing(a, []);
    assert Outgoing(a, [b, c]) == a.ratings[b.number] + Outgoing(a, [c]);
    assert Score([c]) == Outgoing(c, []) + Score([]);
    assert Score([b, c]) == Outgoing(b, [c]) + Score([c]);
  }

  /** Seating made of one room scores what that room scores. */
  lemma SingleRoomTotal(r: seq<Student>)
    requires RatingsDefined(r)
    ensures RoomsRated([r]) && TotalScore([r]) == Score(r)
  {
    assert [r][..0] == [];
  }


  /** A single-slot swap never touches the last seat of any room. */
  lemma SlotSwapKeepsLastSeats(g: Groups, m: Move, capacity: nat)
    requires Shaped(g, capacity) && ValidMove(m, |g|, capacity) && m.SlotSwap?
    ensures forall k :: 0 <= k < |g| ==> ApplyMove(g, m, capacity)[k][capacity - 1] == g[k][capacity - 1]
  {
    ExchangeSeats(g, m.roomOne, m.slotOne, m.roomTwo, m.slotTwo);
  }

  /** With capacity 2 the block swap between two different rooms exchanges
      their whole contents. */
  lemma BlockSwapOfCapacityTwo(g: Groups, roomOne: nat, roomTwo: nat)
    requires Shaped(g, 2) && roomOne < |g| && roomTwo < |g| && roomOne != roomTwo
    ensures ApplyMove(g, BlockSwap(roomOne, roomTwo), 2) == g[roomOne := g[roomTwo]][roomTwo := g[roomOne]]
  {
    var h := g[roomOne := g[roomTwo]][roomTwo := g[roomOne]];
    var first := Exchange(g, roomOne, 0, roomTwo, 0);
    ExchangeSeats(g, roomOne, 0, roomTwo, 0);
    ExchangeSeats(first, roomOne, 1, roomTwo, 1);
    var a := ApplyMove(g, BlockSwap(roomOne, roomTwo), 2);
    forall k | 0 <= k < |g| ensures a[k] == h[k] {
      assert |a[k]| == 2 == |h[k]|;
    }
  }

  /** Hence at capacity 2 a block swap never changes the total score, and so
      never changes the average: it always ties and is always rejected. */
  lemma BlockSwapOfCapacityTwoKeepsScore(g: Groups, roomOne: nat, roomTwo: nat)
    requires Shaped(g, 2) && RoomsRated(g) && roomOne < |g| && roomTwo < |g|
    ensures RoomsRated(ApplyMove(g, BlockSwap(roomOne, roomTwo), 2))
    ensures TotalScore(ApplyMove(g, BlockSwap(roomOne, roomTwo), 2)) == TotalScore(g)
  {
    if roomOne == roomTwo {
      ExchangeSameSeat(g, roomOne, 0);
      ExchangeSameSeat(g, roomOne, 1);
    } else {
      BlockSwapOfCapacityTwo(g, roomOne, roomTwo);
      var g1 := g[roomOne := g[roomTwo]];
      TotalScoreUpdate(g, roomOne, g[roomTwo]);
      TotalScoreUpdate(g1, roomTwo, g[roomOne]);
    }
  }

  /** Four students in two rooms of two, where student 0 rates student 1
      with 5, student 1 rates student 0 with 1, and students 2 and 3 rate each
      other with 2: the rooms score 5 and 2, the average is 3.5, and the block
      swap between the two rooms trades the rooms whole, so that the average
      does not move. */
  lemma CapacityTwoScenario()
    ensures var g := [[Student(0, [0, 5, 0, 0]), Student(1, [1, 0, 0, 0])],
                      [Student(2, [0, 0, 0, 2]), Student(3, [0, 0, 2, 0])]];
            && RoomsRated(g) && Score(g[0]) == 5 && Score(g[1]) == 2
            && Average(g, 4, 2) == 3.5
            && ApplyMove(g, BlockSwap(0, 1), 2) == [g[1], g[0]]
            && RoomsRated(ApplyMove(g, BlockSwap(0, 1), 2))
            && Average(ApplyMove(g, BlockSwap(0, 1), 2), 4, 2) == 3.5
  {
    var a, b := Student(0, [0, 5, 0, 0]), Student(1, [1, 0, 0, 0]);
    var c, d := Student(2, [0, 0, 0, 2]), Student(3, [0, 0, 2, 0]);
    var g := [[a, b], [c, d]];
    ScoreIsDirectional(a, b);
    ScoreIsDirectional(c, d);
    assert g[..1] == [[a, b]] && g[..1][..0] == [];
    assert TotalScore(g[..1]) == 5;
    assert TotalScore(g) == 7;
    BlockSwapOfCapacityTwo(g, 0, 1);
    BlockSwapOfCapacityTwoKeepsScore(g, 0, 1);
  }

  /** A move keeps every student seated exactly as often as before. */
  lemma MoveKeepsStudents(g: Groups, m: Move, capacity: nat)
    requires Shaped(g, capacity) && ValidMove(m, |g|, capacity)
    ensures multiset(Flatten(ApplyMove(g, m, capacity))) == multiset(Flatten(g))
  {
    if m.SlotSwap? {
      ExchangeKeepsStudents(g, m.roomOne, m.slotOne, m.roomTwo, m.slotTwo);
    } else {
      BlockSwapKeepsStudents(g, m.roomOne, m.roomTwo, capacity);
    }
  }

  /** The block swap is its two exchanges, each of which keeps the students. */
  lemma BlockSwapKeepsStudents(g: Groups, roomOne: nat, roomTwo: nat, capacity: nat)
    requires Shaped(g, capacity) && ValidMove(BlockSwap(roomOne, roomTwo), |g|, capacity)
    ensures multiset(Flatten(ApplyMove(g, BlockSwap(roomOne, roomTwo), capacity))) == multiset(Flatten(g))
  {
    BlockSwapUnfolds(g, roomOne, roomTwo, capacity);
    BlockExchangesKeepStudents(g, roomOne, roomTwo, capacity);
  }

  lemma BlockSwapUnfolds(g: Groups, roomOne: nat, roomTwo: nat, capacity: nat)
    requires Shaped(g, capacity) && ValidMove(BlockSwap(roomOne, roomTwo), |g|, capacity)
    ensures 1 < |g[roomOne]| && capacity - 1 < |g[roomTwo]|
    ensures ApplyMove(g, BlockSwap(roomOne, roomTwo), capacity)
            == Exchange(Exchange(g, roomOne, 0, roomTwo, capacity - 2), roomOne, 1, roomTwo, capacity - 1)
  {
  }

  lemma BlockExchangesKeepStudents(g: Groups, roomOne: nat, roomTwo: nat, capacity: nat)
    requires roomOne < |g| && roomTwo < |g| && capacity >= 2
    requires |g[roomOne]| == capacity && |g[roomTwo]| == capacity
    ensures multiset(Flatten(Exchange(Exchange(g, roomOne, 0, roomTwo, capacity - 2), roomOne, 1, roomTwo, capacity - 1)))
            == multiset(Flatten(g))
  {
    var first := Exchange(g, roomOne, 0, roomTwo, capacity - 2);
    ExchangeKeepsStudents(g, roomOne, 0, roomTwo, capacity - 2);
    assert |first[roomOne]| == capacity && |first[roomTwo]| == capacity;
    ExchangeKeepsStudents(first, roomOne, 1, roomTwo, capacity - 1);
  }

  /** After a move every seated student still rates every seated student. */
  lemma MoveKeepsRated(g: Groups, m: Move, capacity: nat)
    requires Shaped(g, capacity) && ValidMove(m, |g|, capacity) && Rated(g)
    ensures Rated(ApplyMove(g, m, capacity))
  {
    var h := ApplyMove(g, m, capacity);
    MoveKeepsStudents(g, m, capacity);
    forall x | x in Flatten(h) ensures x in Flatten(g) {
      assert x in multiset(Flatten(h));
    }
  }

  /** After a move every room can still be scored. */
  lemma MoveKeepsRoomsRated(g: Groups, m: Move, capacity: nat)
    requires Shaped(g, capacity) && ValidMove(m, |g|, capacity) && Rated(g)
    ensures RoomsRated(ApplyMove(g, m, capacity))
  {
    MoveKeepsRated(g, m, capacity);
    RatedRoomsAreRated(ApplyMove(g, m, capacity));
  }
}
