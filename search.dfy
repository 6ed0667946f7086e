/** The optimiser's search on values: the decision on each drawn move and the
    whole run of the loop, as functions of the starting seating and the random
    draws. The imperative optimiser is proved to compute exactly this. */
module Search {
  import opened Students
  import opened Assignment
  import opened Annealing

  /** The random draws of one iteration: the move (two rooms, the strategy
      bit and, for a single-slot swap, two seats) and the uniform draw in
      [0, 1) that decides a worsening move. */
  datatype Draw = Draw(move: Move, coin: real)

  /** The seating, the counters and the decisions, one per attempted move,
      when the loop ends. */
  datatype Outcome = Outcome(seating: Groups, schedule: Schedule, decisions: seq<bool>)

  /** What holds at every head of the optimiser's loop. */
  predicate Ready(g: Groups, s: Schedule, draws: seq<Draw>, studentCount: nat, capacity: nat, coolingFactor: real) {
    && Shaped(g, capacity) && Rated(g) && capacity >= 2 && studentCount > 0
    && s.t != 0.0 && coolingFactor != 0.0 && Bounded(s) && s.total <= |draws|
    && forall n :: 0 <= n < |draws| ==> ValidMove(draws[n].move, |g|, capacity)
  }

  /** Whether the move raises the average room score, the one case in which
      the decision divides by the temperature. */
  predicate Worsens(g: Groups, m: Move, studentCount: nat, capacity: nat)
    requires Shaped(g, capacity) && Rated(g) && studentCount > 0 && ValidMove(m, |g|, capacity)
  {
    RatedRoomsAreRated(g);
    MoveKeepsRoomsRated(g, m, capacity);
    Average(ApplyMove(g, m, capacity), studentCount, capacity) > Average(g, studentCount, capacity)
  }

  /** Whether the move drawn in d is kept: the average after the move is
      weighed against the average before it. */
  function Decide(g: Groups, d: Draw, t: real, studentCount: nat, capacity: nat, exp: real -> real): (accepted: bool)
    requires Shaped(g, capacity) && Rated(g) && studentCount > 0 && ValidMove(d.move, |g|, capacity)
    requires Worsens(g, d.move, studentCount, capacity) ==> t != 0.0
    ensures RoomsRated(g) && RoomsRated(ApplyMove(g, d.move, capacity))
    ensures Average(ApplyMove(g, d.move, capacity), studentCount, capacity) < Average(g, studentCount, capacity) ==> accepted
    ensures Average(ApplyMove(g, d.move, capacity), studentCount, capacity) == Average(g, studentCount, capacity) ==> !accepted
  {
    RatedRoomsAreRated(g);
    MoveKeepsRoomsRated(g, d.move, capacity);
    var before := Average(g, studentCount, capacity);
    var after := Average(ApplyMove(g, d.move, capacity), studentCount, capacity);
    assert after > before ==> t != 0.0;
    IsChangeAccepted(before, after, t, d.coin, exp)
  }

  /** The loop from counters s on: each iteration takes the next draw, keeps
      or takes back its move, and advances the counters; it ends when the
      exit condition holds or the draws run out. The counters at the end are
      those the decisions lead to, and each decision is one attempt. */
  function Anneal(g: Groups, s: Schedule, draws: seq<Draw>, studentCount: nat, capacity: nat,
                  coolingFactor: real, exp: real -> real): (r: Outcome)
    requires Ready(g, s, draws, studentCount, capacity, coolingFactor)
    ensures Ready(r.seating, r.schedule, draws, studentCount, capacity, coolingFactor)
    ensures !Running(r.schedule) || r.schedule.total == |draws|
    ensures r.schedule == Run(s, r.decisions, coolingFactor)
    ensures r.schedule.total == s.total + |r.decisions|
    decreases |draws| - s.total
  {
    if !Running(s) || s.total == |draws| then Outcome(g, s, [])
    else
      var d := draws[s.total];
      var accepted := Decide(g, d, s.t, studentCount, capacity, exp);
      MoveKeepsRated(g, d.move, capacity);
      AdvanceKeepsBounds(s, accepted, coolingFactor);
      var rest := Anneal(if accepted then ApplyMove(g, d.move, capacity) else g,
                         Advance(s, accepted, coolingFactor), draws, studentCount, capacity, coolingFactor, exp);
      assert ([accepted] + rest.decisions)[0] == accepted && ([accepted] + rest.decisions)[1..] == rest.decisions;
      Outcome(rest.seating, rest.schedule, [accepted] + rest.decisions)
  }

  /** Every student stays seated exactly as often as before the search. */
  lemma {:induction false} AnnealKeepsStudents(g: Groups, s: Schedule, draws: seq<Draw>, studentCount: nat, capacity: nat,
                                               coolingFactor: real, exp: real -> real)
    requires Ready(g, s, draws, studentCount, capacity, coolingFactor)
    ensures multiset(Flatten(Anneal(g, s, draws, studentCount, capacity, coolingFactor, exp).seating)) == multiset(Flatten(g))
    decreases |draws| - s.total
  {
    if Running(s) && s.total < |draws| {
      var d := draws[s.total];
      var accepted := Decide(g, d, s.t, studentCount, capacity, exp);
      MoveKeepsRated(g, d.move, capacity);
      MoveKeepsStudents(g, d.move, capacity);
      AdvanceKeepsBounds(s, accepted, coolingFactor);
      AnnealKeepsStudents(if accepted then ApplyMove(g, d.move, capacity) else g,
                          Advance(s, accepted, coolingFactor), draws, studentCount, capacity, coolingFactor, exp);
    }
  }

  /** A search that rejects every move leaves the seating as it was. */
  lemma {:induction false} RejectionsKeepSeating(g: Groups, s: Schedule, draws: seq<Draw>, studentCount: nat, capacity: nat,
                                                 coolingFactor: real, exp: real -> real)
    requires Ready(g, s, draws, studentCount, capacity, coolingFactor)
    requires forall i :: 0 <= i < |Anneal(g, s, draws, studentCount, capacity, coolingFactor, exp).decisions| ==>
               !Anneal(g, s, draws, studentCount, capacity, coolingFactor, exp).decisions[i]
    ensures Anneal(g, s, draws, studentCount, capacity, coolingFactor, exp).seating == g
    decreases |draws| - s.total
  {
    if Running(s) && s.total < |draws| {
      var d := draws[s.total];
      var accepted := Decide(g, d, s.t, studentCount, capacity, exp);
      var r := Anneal(g, s, draws, studentCount, capacity, coolingFactor, exp);
      assert r.decisions[0] == accepted;
      AdvanceKeepsBounds(s, accepted, coolingFactor);
      var rest := Anneal(g, Advance(s, accepted, coolingFactor), draws, studentCount, capacity, coolingFactor, exp);
      assert r.decisions == [false] + rest.decisions;
      forall i | 0 <= i < |rest.decisions| ensures !rest.decisions[i] {
        assert rest.decisions[i] == r.decisions[i + 1];
      }
      RejectionsKeepSeating(g, Advance(s, accepted, coolingFactor), draws, studentCount, capacity, coolingFactor, exp);
    }
  }

  /** When the search stops on its exit condition rather than for lack of
      draws, its last AttemptLimit decisions rejected their moves. */
  lemma StopAfterStall(g: Groups, draws: seq<Draw>, studentCount: nat, capacity: nat,
                       initialTemperature: real, coolingFactor: real, exp: real -> real)
    requires Ready(g, Start(initialTemperature), draws, studentCount, capacity, coolingFactor)
    requires !Running(Anneal(g, Start(initialTemperature), draws, studentCount, capacity, coolingFactor, exp).schedule)
    ensures var r := Anneal(g, Start(initialTemperature), draws, studentCount, capacity, coolingFactor, exp);
            |r.decisions| >= AttemptLimit
            && forall i :: |r.decisions| - AttemptLimit <= i < |r.decisions| ==> !r.decisions[i]
  {
    var r := Anneal(g, Start(initialTemperature), draws, studentCount, capacity, coolingFactor, exp);
    StopsAfterFullBatch(r.schedule);
    RunNeverOvertakes(Start(initialTemperature), r.decisions, coolingFactor);
    StopMeansStall(Start(initialTemperature), r.decisions, coolingFactor);
  }
}
