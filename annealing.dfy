/** The annealing schedule: the acceptance rule, the two batch counters, the
    cooling of the temperature and the exit condition of the optimiser. */
module Annealing {

  /** A batch ends once more than this many moves were attempted in it. */
  const AttemptLimit: nat := 20000
  /** A batch ends once this many moves were accepted in it. */
  const AcceptLimit: nat := 2000

  /** The counters of the optimiser: the temperature, the moves attempted
      and accepted since the last cooling, and all moves attempted. */
  datatype Schedule = Schedule(t: real, attempted: nat, accepted: nat, total: nat)

  /** The schedule before the first move. */
  function Start(initialTemperature: real): (s: Schedule) {
    Schedule(initialTemperature, 0, 0, 0)
  }

  /** The optimiser's loop goes on while this holds. */
  predicate Running(s: Schedule) {
    s.accepted != 0 || s.attempted < AttemptLimit
  }

  /** The bounds the counters keep at every loop head. */
  predicate Bounded(s: Schedule) {
    s.accepted <= s.attempted <= AttemptLimit && s.accepted < AcceptLimit
  }

  /** The decision on a move: an improvement (a lower score) is always taken,
      a tie never, and a worsening move only when the uniform draw `coin`
      falls below exp((oldScore - newScore) / t). Only the last case divides
      by the temperature. */
  function IsChangeAccepted(oldScore: real, newScore: real, t: real, coin: real, exp: real -> real): (accepted: bool)
    requires newScore > oldScore ==> t != 0.0
    ensures newScore < oldScore ==> accepted
    ensures newScore == oldScore ==> !accepted
    ensures newScore > oldScore ==> (accepted <==> coin < exp((oldScore - newScore) / t))
  {
    if oldScore > newScore then true
    else if oldScore == newScore then false
    else coin < exp((oldScore - newScore) / t)
  }

  /** The counters after one attempted move: count the attempt, and the
      acceptance if the move was accepted; when the attempts pass the limit
      or the acceptances reach theirs, cool the temperature by coolingFactor
      and start a new batch. */
  function Advance(s: Schedule, accepted: bool, coolingFactor: real): (next: Schedule) {
    var acceptedNow := if accepted then s.accepted + 1 else s.accepted;
    var attemptedNow := s.attempted + 1;
    if attemptedNow > AttemptLimit || acceptedNow >= AcceptLimit then
      Schedule(s.t * coolingFactor, 0, 0, s.total + 1)
    else
      Schedule(s.t, attemptedNow, acceptedNow, s.total + 1)
  }

  /** The counters after a sequence of decisions. */
  function Run(s: Schedule, decisions: seq<bool>, coolingFactor: real): (final: Schedule)
    decreases |decisions|
  {
    if decisions == [] then s
    else Run(Advance(s, decisions[0], coolingFactor), decisions[1..], coolingFactor)
  }

  /** How many of the decisions accept. */
  function Acceptances(decisions: seq<bool>): (count: nat) {
    if decisions == [] then 0 else (if decisions[0] then 1 else 0) + Acceptances(decisions[1..])
  }

  /** One step keeps the counter bounds, keeps a non-zero temperature
      non-zero, and cools exactly when the batch ends. */
  lemma AdvanceKeepsBounds(s: Schedule, accepted: bool, coolingFactor: real)
    requires Bounded(s)
    ensures Bounded(Advance(s, accepted, coolingFactor))
    ensures Advance(s, accepted, coolingFactor).total == s.total + 1
    ensures s.t != 0.0 && coolingFactor != 0.0 ==> Advance(s, accepted, coolingFactor).t != 0.0
  {
  }

  /** The batch ends, with both counters reset and the temperature multiplied
      by the cooling factor, exactly when the attempt count passes its limit
      or the accept count reaches its own. */
  lemma CoolsExactlyAtBatchEnd(s: Schedule, accepted: bool, coolingFactor: real)
    ensures var next := Advance(s, accepted, coolingFactor);
            var acceptedNow := if accepted then s.accepted + 1 else s.accepted;
            (s.attempted + 1 > AttemptLimit || acceptedNow >= AcceptLimit)
            <==> (next.attempted == 0 && next.accepted == 0)
    ensures var next := Advance(s, accepted, coolingFactor);
            next.attempted == 0 ==> next.t == s.t * coolingFactor
    ensures var next := Advance(s, accepted, coolingFactor);
            next.attempted != 0 ==> next.t == s.t
  {
  }

  /** The loop stops only with no acceptance in a batch of exactly
      AttemptLimit attempts. */
  lemma StopsAfterFullBatch(s: Schedule)
    requires Bounded(s) && !Running(s)
    ensures s.accepted == 0 && s.attempted == AttemptLimit
  {
  }

  lemma {:induction false} RunAppend(s: Schedule, first: seq<bool>, second: seq<bool>, coolingFactor: real)
    ensures Run(s, first + second, coolingFactor) == Run(Run(s, first, coolingFactor), second, coolingFactor)
    decreases |first|
  {
    if first != [] {
      assert (first + second)[0] == first[0];
      assert (first + second)[1..] == first[1..] + second;
      RunAppend(Advance(s, first[0], coolingFactor), first[1..], second, coolingFactor);
    } else {
      assert first + second == second;
    }
  }

  /** Running keeps the counter bounds and counts every attempt in total. */
  lemma {:induction false} RunKeepsBounds(s: Schedule, decisions: seq<bool>, coolingFactor: real)
    requires Bounded(s)
    ensures Bounded(Run(s, decisions, coolingFactor))
    ensures Run(s, decisions, coolingFactor).total == s.total + |decisions|
    decreases |decisions|
  {
    if decisions != [] {
      RunKeepsBounds(Advance(s, decisions[0], coolingFactor), decisions[1..], coolingFactor);
    }
  }

  /** If the attempt counter ends at |decisions| or more, no batch ended
      during the run: the attempt counter grew by one per decision, the accept
      counter by exactly the acceptances, and the temperature stayed. */
  lemma {:induction false} RunWithoutCooling(s: Schedule, decisions: seq<bool>, coolingFactor: real)
    requires Bounded(s)
    requires Run(s, decisions, coolingFactor).attempted >= |decisions|
    ensures Run(s, decisions, coolingFactor).attempted == s.attempted + |decisions|
    ensures Run(s, decisions, coolingFactor).accepted == s.accepted + Acceptances(decisions)
    ensures Run(s, decisions, coolingFactor).t == s.t
    decreases |decisions|
  {
    if decisions != [] {
      var next := Advance(s, decisions[0], coolingFactor);
      var rest := decisions[1..];
      RunKeepsBounds(next, rest, coolingFactor);
      if next.attempted == 0 {
        // a batch ended at the first decision: the counter cannot catch up
        RunNeverOvertakes(next, rest, coolingFactor);
        assert false;
      }
      RunWithoutCooling(next, rest, coolingFactor);
    }
  }

  /** From a fresh batch the attempt counter is at most the number of decisions. */
  lemma {:induction false} RunNeverOvertakes(s: Schedule, decisions: seq<bool>, coolingFactor: real)
    requires Bounded(s)
    ensures Run(s, decisions, coolingFactor).attempted <= s.attempted + |decisions|
    decreases |decisions|
  {
    if decisions != [] {
      RunNeverOvertakes(Advance(s, decisions[0], coolingFactor), decisions[1..], coolingFactor);
    }
  }

  /** The optimiser stops only after a stall: if the counters show the exit
      condition after a run of at least AttemptLimit decisions, the last
      AttemptLimit decisions all rejected their move and no cooling happened
      during them. */
  lemma StopMeansStall(s: Schedule, decisions: seq<bool>, coolingFactor: real)
    requires Bounded(s) && |decisions| >= AttemptLimit
    requires !Running(Run(s, decisions, coolingFactor))
    ensures forall i :: |decisions| - AttemptLimit <= i < |decisions| ==> !decisions[i]
  {
    var cut := |decisions| - AttemptLimit;
    var early, late := decisions[..cut], decisions[cut..];
    assert decisions == early + late;
    RunAppend(s, early, late, coolingFactor);
    var middle := Run(s, early, coolingFactor);
    RunKeepsBounds(s, early, coolingFactor);
    RunKeepsBounds(middle, late, coolingFactor);
    StopsAfterFullBatch(Run(middle, late, coolingFactor));
    RunWithoutCooling(middle, late, coolingFactor);
    NoAcceptances(late);
    forall i | cut <= i < |decisions| ensures !decisions[i] {
      assert decisions[i] == late[i - cut];
    }
  }

  lemma {:induction false} NoAcceptances(decisions: seq<bool>)
    requires Acceptances(decisions) == 0
    ensures forall i :: 0 <= i < |decisions| ==> !decisions[i]
  {
    if decisions != [] {
      NoAcceptances(decisions[1..]);
      assert forall i :: 1 <= i < |decisions| ==> decisions[i] == decisions[1..][i - 1];
    }
  }

  /** Conversely, a fresh batch of rejections keeps the loop running until the
      AttemptLimit-th rejection, after which it stops. */
  lemma {:induction false} StallStops(s: Schedule, n: nat, coolingFactor: real)
    requires s.attempted == 0 && s.accepted == 0 && n <= AttemptLimit
    ensures Run(s, seq(n, _ => false), coolingFactor)
            == Schedule(s.t, n, 0, s.total + n)
    ensures Running(Run(s, seq(n, _ => false), coolingFactor)) <==> n < AttemptLimit
  {
    if n > 0 {
      var rejections := seq(n, _ => false);
      assert rejections == seq(n - 1, _ => false) + [false];
      RunAppend(s, seq(n - 1, _ => false), [false], coolingFactor);
      StallStops(s, n - 1, coolingFactor);
    }
  }
}
