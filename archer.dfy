/**
 * An archer of the archery tournament: a registration id from a shared
 * counter, a 10 x 3 table of arrow scores, its total, its misses, and the
 * ranking comparator (highest total, then fewest misses, then lowest id).
 */
module Archers {
  import opened JavaInt

  const MaxArrows: nat := 3
  const MaxRounds: nat := 10
  /** The id the first archer receives. */
  const FirstId: Int32 := 135788

  /** The static id counter every new archer draws from. */
  class IdCounter {
    var next: Int32

    constructor ()
      ensures next == FirstId
    {
      next := FirstId;
    }
  }

  /** The sum of `a[i, 0..n)`. */
  ghost function RowSum(a: array2<Int32>, i: nat, n: nat): int
    reads a
    requires i < a.Length0 && n <= a.Length1
  {
    if n == 0 then 0 else RowSum(a, i, n - 1) + a[i, n - 1]
  }

  /** The sum of the first `m` rows of `a`. */
  ghost function TableSum(a: array2<Int32>, m: nat): int
    reads a
    requires m <= a.Length0
  {
    if m == 0 then 0 else TableSum(a, m - 1) + RowSum(a, m - 1, a.Length1)
  }

  /** The number of zeros in `a[i, 0..n)`. */
  ghost function RowZeros(a: array2<Int32>, i: nat, n: nat): nat
    reads a
    requires i < a.Length0 && n <= a.Length1
  {
    if n == 0 then 0 else RowZeros(a, i, n - 1) + (if a[i, n - 1] == 0 then 1 else 0)
  }

  /** The number of zeros in the first `m` rows of `a`. */
  ghost function TableZeros(a: array2<Int32>, m: nat): nat
    reads a
    requires m <= a.Length0
  {
    if m == 0 then 0 else TableZeros(a, m - 1) + RowZeros(a, m - 1, a.Length1)
  }

  /** A row of zeros sums to 0 and is all misses. */
  lemma {:induction false} ZeroRow(a: array2<Int32>, i: nat, n: nat)
    requires i < a.Length0 && n <= a.Length1
    requires forall c :: 0 <= c < n ==> a[i, c] == 0
    ensures RowSum(a, i, n) == 0 && RowZeros(a, i, n) == n
  {
    if n > 0 {
      ZeroRow(a, i, n - 1);
    }
  }

  /** A table of zeros sums to 0 and every entry counts as a miss. */
  lemma {:induction false} ZeroTable(a: array2<Int32>, m: nat)
    requires m <= a.Length0
    requires forall r, c :: 0 <= r < m && 0 <= c < a.Length1 ==> a[r, c] == 0
    ensures TableSum(a, m) == 0 && TableZeros(a, m) == m * a.Length1
  {
    if m > 0 {
      ZeroTable(a, m - 1);
      ZeroRow(a, m - 1, a.Length1);
    }
  }

  /** What the ranking looks at. */
  datatype Standing = Standing(total: int, misses: int, id: int)

  /** `a` ranks before `b`: higher total, then fewer misses, then lower id. */
  predicate RanksBefore(a: Standing, b: Standing) {
    a.total > b.total
    || (a.total == b.total && a.misses < b.misses)
    || (a.total == b.total && a.misses == b.misses && a.id < b.id)
  }

  /**
   * `compareByHighestTotalScoreWithLeastMissesAndLowestId` on the totals,
   * misses and ids of the two archers.
   */
  function CompareStandings(a: Standing, b: Standing): (c: int)
    ensures c == -1 || c == 0 || c == 1
    ensures c < 0 <==> RanksBefore(a, b)
    ensures c > 0 <==> RanksBefore(b, a)
    ensures c == 0 <==> a == b
  {
    if a.total < b.total then 1
    else if a.total > b.total then -1
    else if a.misses > b.misses then 1
    else if a.misses < b.misses then -1
    else if a.id > b.id then 1
    else if a.id < b.id then -1
    else 0
  }

  /** The comparator is antisymmetric. */
  lemma CompareAntisymmetric(a: Standing, b: Standing)
    ensures CompareStandings(a, b) == -CompareStandings(b, a)
  {
  }

  /** The comparator is transitive. */
  lemma CompareTransitive(a: Standing, b: Standing, c: Standing)
    requires CompareStandings(a, b) < 0 && CompareStandings(b, c) < 0
    ensures CompareStandings(a, c) < 0
  {
  }

  class Archer {
    const id: Int32
    const firstName: string
    const lastName: string
    /** `scores[r, a]`: the points of arrow `a` in round `r + 1`. */
    const scores: array2<Int32>

    /** The score table has one row per round and one column per arrow. */
    predicate Valid() {
      scores.Length0 == MaxRounds && scores.Length1 == MaxArrows
    }

    /** A new archer takes the counter's id, and the counter moves on by one. */
    constructor (firstName: string, lastName: string, ids: IdCounter)
      modifies ids
      ensures Valid() && fresh(scores)
      ensures id == old(ids.next) && ids.next == Wrap32(old(ids.next) + 1)
      ensures this.firstName == firstName && this.lastName == lastName
      ensures forall r, c :: 0 <= r < MaxRounds && 0 <= c < MaxArrows ==> scores[r, c] == 0
    {
      this.firstName := firstName;
      this.lastName := lastName;
      id := ids.next;
      ids.next := Wrap32(ids.next + 1);
      scores := new Int32[MaxRounds, MaxArrows]((r, c) => 0);
    }

    /**
     * Writes the three arrows of `points` into the row of `round` (1-based).
     * `thrown` is the ArrayIndexOutOfBoundsException: a round outside 1..10
     * throws before anything is written; a `points` with fewer than three
     * entries throws after writing the entries it has.
     */
    method RegisterScoreForRound(round: int, points: seq<Int32>) returns (thrown: bool)
      requires Valid()
      modifies scores
      ensures thrown <==> !(1 <= round <= MaxRounds) || |points| < MaxArrows
      ensures forall r, c :: 0 <= r < MaxRounds && 0 <= c < MaxArrows ==>
                scores[r, c] == if r == round - 1 && c < |points| then points[c] else old(scores[r, c])
    {
      for i := 0 to MaxArrows
        invariant i > 0 ==> 1 <= round <= MaxRounds && i <= |points|
        invariant forall r, c :: 0 <= r < MaxRounds && 0 <= c < MaxArrows ==>
                    scores[r, c] == if r == round - 1 && c < i then points[c] else old(scores[r, c])
      {
        if !(1 <= round <= MaxRounds) || i >= |points| {
          return true;
        }
        scores[round - 1, i] := points[i];
      }
      thrown := false;
    }

    /** `getTotalScore`: the sum of the whole table, accumulated in an `int`. */
    method TotalScore() returns (sum: Int32)
      requires Valid()
      ensures sum == Wrap32(TableSum(scores, MaxRounds))
    {
      sum := 0;
      for i := 0 to MaxRounds
        invariant sum == Wrap32(TableSum(scores, i))
      {
        for j := 0 to MaxArrows
          invariant sum == Wrap32(TableSum(scores, i) + RowSum(scores, i, j))
        {
          WrapAdd(TableSum(scores, i) + RowSum(scores, i, j), scores[i, j]);
          sum := Wrap32(sum + scores[i, j]);
        }
      }
    }

    /** `calculateMisses`: the number of arrows of `archer` that scored 0. */
    static method CalculateMisses(archer: Archer) returns (misses: int)
      requires archer.Valid()
      ensures misses == TableZeros(archer.scores, MaxRounds)
    {
      var a := archer.scores;
      misses := 0;
      for i := 0 to MaxRounds
        invariant misses == TableZeros(a, i)
      {
        for j := 0 to MaxArrows
          invariant misses == TableZeros(a, i) + RowZeros(a, i, j)
        {
          if a[i, j] == 0 {
            misses := misses + 1;
          }
        }
      }
    }

    /** The comparator, in the Comparator convention: negative when this archer ranks first. */
    method CompareTo(other: Archer) returns (c: int)
      requires Valid() && other.Valid()
      ensures c == CompareStandings(
                     Standing(Wrap32(TableSum(scores, MaxRounds)), TableZeros(scores, MaxRounds), id),
                     Standing(Wrap32(TableSum(other.scores, MaxRounds)), TableZeros(other.scores, MaxRounds), other.id))
      ensures c < 0 <==> RanksBefore(
                     Standing(Wrap32(TableSum(scores, MaxRounds)), TableZeros(scores, MaxRounds), id),
                     Standing(Wrap32(TableSum(other.scores, MaxRounds)), TableZeros(other.scores, MaxRounds), other.id))
      ensures id != other.id ==> c != 0
    {
      var missesCurrent := CalculateMisses(this);
      var missesOther := CalculateMisses(other);
      var total := TotalScore();
      var otherTotal := other.TotalScore();
      c := CompareStandings(Standing(total, missesCurrent, id), Standing(otherTotal, missesOther, other.id));
    }
  }

  /** A new archer's table totals 0 with all 30 arrows missed. */
  lemma NewArcherScores(a: Archer)
    requires a.Valid()
    requires forall r, c :: 0 <= r < MaxRounds && 0 <= c < MaxArrows ==> a.scores[r, c] == 0
    ensures TableSum(a.scores, MaxRounds) == 0
    ensures TableZeros(a.scores, MaxRounds) == MaxRounds * MaxArrows
  {
    ZeroTable(a.scores, MaxRounds);
  }
}
