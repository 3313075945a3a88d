/**
 * The scores of a position weight matrix (src/objects/PFM.java) and the
 * mismatch-free PWM affinity sums built from them (src/utils/CellUtils.java).
 * A matrix is seen here through its rows and the row index of every base id
 * (`nucleotidePosition`, NONE for a base without a row).
 */
module PfmScores {
  import opened Wrappers


  /**
   * `getMaxScorePFM` as written: a running maximum from 0 over the entries of
   * every base, ANY included. An index that is not a row (NONE) throws: None.
   */
  function MaxScoreAsWritten(rows: seq<seq<real>>, positions: seq<int>, col: int, n: nat): (r: Option<real>)
    requires n <= |positions|
    ensures r.Some? ==> forall b :: 0 <= b < n ==> 0 <= positions[b] < |rows| && 0 <= col < |rows[positions[b]]|
  {
    if n == 0 then Some(0.0)
    else
      match MaxScoreAsWritten(rows, positions, col, n - 1)
      case None => None
      case Some(m) =>
        var p := positions[n - 1];
        if 0 <= p < |rows| && 0 <= col < |rows[p]| then Some(if rows[p][col] > m then rows[p][col] else m) else None
  }

  /** Any base without a row, ANY in a four-letter matrix for one, makes the maximum throw. */
  lemma MaxScoreAsWrittenFailsWithoutRow(rows: seq<seq<real>>, positions: seq<int>, col: int, b: nat)
    requires b < |positions| && positions[b] == NONE
    ensures MaxScoreAsWritten(rows, positions, col, |positions|) == None
  {
  }

  /** The four-letter matrix of the class comment: loading leaves ANY at NONE, so the maximum throws. */
  lemma MaxScoreAsWrittenCounterexample()
    ensures MaxScoreAsWritten([[3.0], [1.0], [4.0], [1.0]], [0, 1, 2, 3, NONE], 0, 5) == None
  {
    MaxScoreAsWrittenFailsWithoutRow([[3.0], [1.0], [4.0], [1.0]], [0, 1, 2, 3, NONE], 0, 4);
  }

  /** The entry of base b in column col, when b has a row that long. */
  predicate HasEntry(rows: seq<seq<real>>, positions: seq<int>, col: int, b: int) {
    0 <= b < |positions| && 0 <= positions[b] < |rows| && 0 <= col < |rows[positions[b]]|
  }

  /**
   * `getMaxScorePFM` as intended: the running maximum from 0 over the bases
   * that have a row, so that the strongest site scores 0.
   */
  function MaxScore(rows: seq<seq<real>>, positions: seq<int>, col: int, n: nat): real
    requires n <= |positions|
  {
    if n == 0 then 0.0
    else
      var m := MaxScore(rows, positions, col, n - 1);
      if HasEntry(rows, positions, col, n - 1) && rows[positions[n - 1]][col] > m then rows[positions[n - 1]][col] else m
  }

  /**
   * The intended maximum is at least 0, at least every entry of a base with a
   * row, and either 0 or one of those entries.
   */
  lemma {:induction false} MaxScoreBounds(rows: seq<seq<real>>, positions: seq<int>, col: int, n: nat)
    requires n <= |positions|
    ensures MaxScore(rows, positions, col, n) >= 0.0
    ensures forall b :: 0 <= b < n && HasEntry(rows, positions, col, b) ==> rows[positions[b]][col] <= MaxScore(rows, positions, col, n)
    ensures MaxScore(rows, positions, col, n) == 0.0 ||
      exists b :: 0 <= b < n && HasEntry(rows, positions, col, b) && rows[positions[b]][col] == MaxScore(rows, positions, col, n)
  {
    if n > 0 {
      MaxScoreBounds(rows, positions, col, n - 1);
      var m := MaxScore(rows, positions, col, n - 1);
      if m != 0.0 {
        var b :| 0 <= b < n - 1 && HasEntry(rows, positions, col, b) && rows[positions[b]][col] == m;
      }
    }
  }

  /** Where the written maximum does not throw, it is the intended one. */
  lemma {:induction false} MaxScoreAgrees(rows: seq<seq<real>>, positions: seq<int>, col: int, n: nat)
    requires n <= |positions| && MaxScoreAsWritten(rows, positions, col, n).Some?
    ensures MaxScoreAsWritten(rows, positions, col, n).value == MaxScore(rows, positions, col, n)
  {
    if n > 0 {
      MaxScoreAgrees(rows, positions, col, n - 1);
    }
  }

  /** Every base of the n-base site at `at` has an entry in its motif column. */
  predicate SiteReadable(rows: seq<seq<real>>, positions: seq<int>, dna: seq<int>, at: int, n: nat) {
    0 <= at && at + n <= |dna| && forall k :: at <= k < at + n ==> HasEntry(rows, positions, k - at, dna[k])
  }

  /** `Σ es · score` over the first n motif columns, as the affinity loop adds them up. */
  function ScoreSum(rows: seq<seq<real>>, positions: seq<int>, dna: seq<int>, at: int, n: nat, es: real): real
    requires SiteReadable(rows, positions, dna, at, n)
  {
    if n == 0 then 0.0
    else ScoreSum(rows, positions, dna, at, n - 1, es) + es * rows[positions[dna[at + n - 1]]][n - 1]
  }

  /** `Σ es · max score` over the first n motif columns. */
  function MaxSum(rows: seq<seq<real>>, positions: seq<int>, n: nat, es: real): real
  {
    if n == 0 then 0.0 else MaxSum(rows, positions, n - 1, es) + es * MaxScore(rows, positions, n - 1, |positions|)
  }

  /** A readable site stays readable when cut to a prefix. */
  lemma SiteReadablePrefix(rows: seq<seq<real>>, positions: seq<int>, dna: seq<int>, at: int, i: nat, n: nat)
    requires i <= n && SiteReadable(rows, positions, dna, at, n)
    ensures SiteReadable(rows, positions, dna, at, i)
  {
  }

  /** One more column adds the weighted score of the base the site reads there. */
  lemma ScoreSumStep(rows: seq<seq<real>>, positions: seq<int>, dna: seq<int>, at: int, i: nat, es: real, n: nat, sum: real, score: real)
    requires i < n && SiteReadable(rows, positions, dna, at, n)
    requires SiteReadable(rows, positions, dna, at, i) && sum == ScoreSum(rows, positions, dna, at, i, es)
    requires HasEntry(rows, positions, i, dna[at + i]) && score == rows[positions[dna[at + i]]][i]
    ensures SiteReadable(rows, positions, dna, at, i + 1)
    ensures sum + es * score == ScoreSum(rows, positions, dna, at, i + 1, es)
  {
    SiteReadablePrefix(rows, positions, dna, at, i + 1, n);
    assert at + (i + 1) - 1 == at + i;
  }

  /** One more column adds its weighted maximum. */
  lemma MaxSumUnfold(rows: seq<seq<real>>, positions: seq<int>, i: nat, es: real)
    ensures MaxSum(rows, positions, i + 1, es) == MaxSum(rows, positions, i, es) + es * MaxScore(rows, positions, i, |positions|)
  {
  }

  /** `MaxSumUnfold` for the running sum and column maximum of the affinity loop. */
  lemma MaxSumStep(rows: seq<seq<real>>, positions: seq<int>, i: nat, es: real, sum: real, max: real)
    requires sum == MaxSum(rows, positions, i, es) && max == MaxScore(rows, positions, i, |positions|)
    ensures sum + es * max == MaxSum(rows, positions, i + 1, es)
  {
    MaxSumUnfold(rows, positions, i, es);
  }

  /** A non-negative weight keeps the order of two scores. */
  lemma WeightedMonotone(es: real, s: real, m: real)
    requires es >= 0.0 && s <= m
    ensures es * s <= es * m
  {
    assert es * (m - s) >= 0.0;
  }

  /** With a non-negative energy no site scores above the column maxima: affinities are at most 0. */
  lemma {:induction false} ScoreBelowMax(rows: seq<seq<real>>, positions: seq<int>, dna: seq<int>, at: int, n: nat, es: real)
    requires SiteReadable(rows, positions, dna, at, n) && es >= 0.0
    ensures ScoreSum(rows, positions, dna, at, n, es) <= MaxSum(rows, positions, n, es)
  {
    if n > 0 {
      ScoreBelowMax(rows, positions, dna, at, n - 1, es);
      var s := rows[positions[dna[at + n - 1]]][n - 1];
      var m := MaxScore(rows, positions, n - 1, |positions|);
      MaxScoreBounds(rows, positions, n - 1, |positions|);
      assert HasEntry(rows, positions, (at + n - 1) - at, dna[at + n - 1]);
      WeightedMonotone(es, s, m);
    }
  }

  /** A site reading the strongest base of every column scores exactly the maximum: its affinity is 0. */
  lemma {:induction false} BestSiteScoresMax(rows: seq<seq<real>>, positions: seq<int>, dna: seq<int>, at: int, n: nat, es: real)
    requires SiteReadable(rows, positions, dna, at, n)
    requires forall k :: at <= k < at + n ==> rows[positions[dna[k]]][k - at] == MaxScore(rows, positions, k - at, |positions|)
    ensures ScoreSum(rows, positions, dna, at, n, es) == MaxSum(rows, positions, n, es)
  {
    if n > 0 {
      BestSiteScoresMax(rows, positions, dna, at, n - 1, es);
    }
  }
}
