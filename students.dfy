/** Students and the directional compatibility score of one room. */
module Students {

  /** A student: a dense 0-based number and a row of directional ratings;
      ratings[n] is this student's rating of student number n. */
  datatype Student = Student(number: nat, ratings: seq<int>)

  /** Every student of a room has a rating for every student placed after it. */
  predicate RatingsDefined(s: seq<Student>) {
    forall i, j :: 0 <= i < j < |s| ==> s[j].number < |s[i].ratings|
  }

  /** The sum of the ratings x gives to the students of ys. */
  function Outgoing(x: Student, ys: seq<Student>): (sum: int)
    requires forall k :: 0 <= k < |ys| ==> ys[k].number < |x.ratings|
  {
    if ys == [] then 0 else x.ratings[ys[0].number] + Outgoing(x, ys[1..])
  }

  /** The sum of the ratings the students of xs give to y. */
  function Incoming(xs: seq<Student>, y: Student): (sum: int)
    requires forall k :: 0 <= k < |xs| ==> y.number < |xs[k].ratings|
  {
    if xs == [] then 0 else xs[0].ratings[y.number] + Incoming(xs[1..], y)
  }

  /** The score of a room, peeling students off the front: the first student's
      ratings of everybody after it, plus the score of the rest. Lower is better. */
  function Score(s: seq<Student>): (score: int)
    requires RatingsDefined(s)
  {
    if s == [] then 0 else Outgoing(s[0], s[1..]) + Score(s[1..])
  }

  /** An independent definition of the same sum, peeling students off the back:
      the ratings everybody before the last student gives it, plus the score of
      the others. */
  function ScoreFromBack(s: seq<Student>): (score: int)
    requires RatingsDefined(s)
  {
    if s == [] then 0
    else ScoreFromBack(s[..|s| - 1]) + Incoming(s[..|s| - 1], s[|s| - 1])
  }

  lemma {:induction false} OutgoingAppend(x: Student, ys: seq<Student>, z: Student)
    requires forall k :: 0 <= k < |ys| ==> ys[k].number < |x.ratings|
    requires z.number < |x.ratings|
    ensures Outgoing(x, ys + [z]) == Outgoing(x, ys) + x.ratings[z.number]
  {
    if ys != [] {
      assert (ys + [z])[1..] == ys[1..] + [z];
      OutgoingAppend(x, ys[1..], z);
    }
  }

  /** Adding a student at the end of a room adds exactly the ratings the
      students already there give to it, and none of the ratings it gives. */
  lemma {:induction false} ScoreAppend(s: seq<Student>, z: Student)
    requires RatingsDefined(s + [z])
    ensures RatingsDefined(s)
    ensures forall k :: 0 <= k < |s| ==> z.number < |s[k].ratings|
    ensures Score(s + [z]) == Score(s) + Incoming(s, z)
  {
    var t := s + [z];
    assert forall i, j :: 0 <= i < j < |s| ==> s[i] == t[i] && s[j] == t[j];
    assert forall k :: 0 <= k < |s| ==> s[k] == t[k] && z == t[|s|];
    if s != [] {
      assert t[1..] == s[1..] + [z];
      assert t[0] == s[0];
      OutgoingAppend(s[0], s[1..], z);
      ScoreAppend(s[1..], z);
    }
  }

  /** A suffix of a room whose ratings are defined has its ratings defined. */
  lemma SuffixRated(s: seq<Student>, i: nat)
    requires RatingsDefined(s) && i <= |s|
    ensures RatingsDefined(s[i..])
  {
    forall a, b | 0 <= a < b < |s| - i ensures s[i..][b].number < |s[i..][a].ratings| {
      assert s[i..][a] == s[i + a] && s[i..][b] == s[i + b];
    }
  }

  /** The score of the students from position i on. */
  function ScoreFrom(s: seq<Student>, i: nat): (score: int)
    requires RatingsDefined(s) && i <= |s|
  {
    SuffixRated(s, i);
    Score(s[i..])
  }

  /** The ratings the student at position i gives to the students from
      position j on. */
  function RatingsFrom(s: seq<Student>, i: nat, j: nat): (sum: int)
    requires RatingsDefined(s) && i < j <= |s|
  {
    assert forall k :: 0 <= k < |s[j..]| ==> s[j..][k] == s[j + k];
    Outgoing(s[i], s[j..])
  }

  /** Peeling the student at position i off the students from i on. */
  lemma ScoreFromStep(s: seq<Student>, i: nat)
    requires RatingsDefined(s) && i < |s|
    ensures ScoreFrom(s, i) == RatingsFrom(s, i, i + 1) + ScoreFrom(s, i + 1)
  {
    SuffixRated(s, i);
    assert s[i..][0] == s[i] && s[i..][1..] == s[i + 1..];
  }

  /** Peeling the student at position j off the students i rates from j on. */
  lemma RatingsFromStep(s: seq<Student>, i: nat, j: nat)
    requires RatingsDefined(s) && i < j < |s|
    ensures s[j].number < |s[i].ratings|
    ensures RatingsFrom(s, i, j) == s[i].ratings[s[j].number] + RatingsFrom(s, i, j + 1)
  {
    assert s[j..][0] == s[j] && s[j..][1..] == s[j + 1..];
  }

  /** The students from 0 on are the whole room, one student alone scores 0,
      and nobody comes after the last student. */
  lemma ScoreFromEnds(s: seq<Student>)
    requires RatingsDefined(s)
    ensures ScoreFrom(s, 0) == Score(s)
    ensures |s| > 0 ==> ScoreFrom(s, |s| - 1) == 0
    ensures forall i :: 0 <= i < |s| ==> RatingsFrom(s, i, |s|) == 0
  {
    assert s[0..] == s;
    forall i | 0 <= i < |s| ensures RatingsFrom(s, i, |s|) == 0 {
      assert s[|s|..] == [];
    }
  }

  /** The two ways of summing over the pairs agree. */
  lemma {:induction false} ScoreFromEitherEnd(s: seq<Student>)
    requires RatingsDefined(s)
    ensures Score(s) == ScoreFromBack(s)
  {
    if s != [] {
      var front := s[..|s| - 1];
      assert s == front + [s[|s| - 1]];
      ScoreAppend(front, s[|s| - 1]);
      ScoreFromEitherEnd(front);
    }
  }

  /** Only the rating of the earlier student counts for a pair, never the
      later student's rating of the earlier one; a room of one student scores 0. */
  lemma ScoreIsDirectional(x: Student, y: Student)
    requires y.number < |x.ratings|
    ensures Score([x]) == 0
    ensures RatingsDefined([x, y]) && Score([x, y]) == x.ratings[y.number]
  {
    assert [x, y][1..] == [y];
  }
}
