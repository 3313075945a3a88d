/**
 * Strand handling of the post-processing scripts: detecting whether the
 * simulator output is double-stranded and converting per-TF vectors between
 * the one-strand and the two-strand layouts (utils.py and dataproc/utils.py).
 */
module PyVectors {
  import opened Wrappers
  import opened Text

  /**
   * `double_each_element`: every element repeated twice in place, so that a
   * per-TF vector lines up with the per-strand columns.
   */
  function DoubleEachElement(a: seq<real>): (r: seq<real>)
    ensures |r| == 2 * |a|
    ensures forall i :: 0 <= i < |a| ==> r[2 * i] == a[i] && r[2 * i + 1] == a[i]
  {
    if |a| == 0 then [] else [a[0], a[0]] + DoubleEachElement(a[1..])
  }

  /** `sum_neighbours`: the sums of consecutive pairs; an odd length raises a ValueError. */
  function SumNeighbours(a: seq<real>): (r: Result<seq<real>, PyError>)
    ensures r.Ok? <==> |a| % 2 == 0
    ensures r.Err? ==> r.error == ValueError
    ensures r.Ok? ==> |r.value| == |a| / 2
  {
    if |a| % 2 != 0 then Err(ValueError)
    else Ok(seq(|a| / 2, k requires 0 <= k < |a| / 2 => a[2 * k] + a[2 * k + 1]))
  }

  /** Each pair sum is the sum of the two strand entries of that TF. */
  lemma SumNeighboursPairs(a: seq<real>, k: nat)
    requires |a| % 2 == 0 && k < |a| / 2
    ensures SumNeighbours(a).value[k] == a[2 * k] + a[2 * k + 1]
  {
  }

  /** Summing the neighbours of a doubled vector gives twice the original vector. */
  lemma SumOfDoubled(a: seq<real>)
    ensures SumNeighbours(DoubleEachElement(a)).Ok?
    ensures |SumNeighbours(DoubleEachElement(a)).value| == |a|
    ensures forall i :: 0 <= i < |a| ==> SumNeighbours(DoubleEachElement(a)).value[i] == 2.0 * a[i]
  {
    var d := DoubleEachElement(a);
    assert |d| % 2 == 0;
    forall i | 0 <= i < |a|
      ensures SumNeighbours(d).value[i] == 2.0 * a[i]
    {
      assert d[2 * i] == a[i] && d[2 * i + 1] == a[i];
    }
  }

  // ---------------------------------------------------------------------------
  // Strand detection (utils.py `is_both_directions`)

  /**
   * The positional arguments of `is_both_directions`: the TF table and the
   * occupancy table (only their row and column counts matter), a single
   * affinity table given by its column labels, or any other number of
   * arguments.
   */
  datatype StrandArgs =
    | TfAndOccupancy(tfRows: nat, occupancyColumns: nat)
    | Affinity(columns: seq<string>)
    | OtherArgs

  /** `len(df.columns[2:])`: the occupancy columns after the two leading ones. */
  function TfColumns(occupancyColumns: nat): nat {
    if occupancyColumns <= 2 then 0 else occupancyColumns - 2
  }

  /**
   * `is_both_directions` as written. The one-argument branch binds the whole
   * argument tuple to `df_site_affinity`, and a tuple has no `columns`, so it
   * always ends with an AttributeError.
   */
  function IsBothDirections(args: StrandArgs): (r: Result<bool, PyError>)
    ensures args.TfAndOccupancy? ==>
      (r == Ok(false) <==> args.tfRows == TfColumns(args.occupancyColumns))
    ensures args.TfAndOccupancy? ==>
      (r == Ok(true) <==>
        (args.tfRows != TfColumns(args.occupancyColumns) && 2 * args.tfRows == TfColumns(args.occupancyColumns)))
    ensures args.TfAndOccupancy? && r.Err? ==> r.error == ValueError
    ensures args.Affinity? ==> r == Err(AttributeError)
    ensures args.OtherArgs? ==> r == Err(ValueError)
  {
    match args
    case TfAndOccupancy(rows, cols) =>
      if rows == TfColumns(cols) then Ok(false)
      else if 2 * rows == TfColumns(cols) then Ok(true)
      else Err(ValueError)
    case Affinity(_) => Err(AttributeError)
    case OtherArgs => Err(ValueError)
  }

  const REVERSE_STRAND: string := "3'5'"

  /** The one-argument branch never succeeds, whatever the affinity table. */
  lemma OneArgumentBranchFails(columns: seq<string>)
    ensures IsBothDirections(Affinity(columns)).Err?
  {
  }

  /** An input on which the one-argument branch fails although the table is two-stranded. */
  lemma OneArgumentCounterexample()
    ensures IsBothDirections(Affinity(["position", "tf5'3'", "tf3'5'"])) == Err(AttributeError)
    ensures IsBothDirectionsFromAffinity(["position", "tf5'3'", "tf3'5'"]) == Ok(true)
  {
    ContainsSuffix("tf", REVERSE_STRAND);
  }

  /**
   * The evident intent of the one-argument branch: two strands exactly when
   * the last column label contains the reverse-strand marker; a table
   * without columns raises an IndexError on `[-1]`.
   */
  function IsBothDirectionsFromAffinity(columns: seq<string>): (r: Result<bool, PyError>)
    ensures r.Err? <==> |columns| == 0
    ensures r.Err? ==> r.error == IndexError
    ensures r.Ok? ==> (r.value <==> Contains(columns[|columns| - 1], REVERSE_STRAND))
  {
    if |columns| == 0 then Err(IndexError)
    else Ok(Contains(columns[|columns| - 1], REVERSE_STRAND))
  }

  lemma {:induction false} ContainsSuffix(a: string, p: string)
    ensures Contains(a + p, p)
  {
    if |a| > 0 {
      ContainsSuffix(a[1..], p);
      assert (a + p)[1..] == a[1..] + p;
    } else {
      assert a + p == p;
    }
  }

  /** A table whose last column is some TF's reverse-strand column is recognised as two-stranded. */
  lemma IntendedDetectsReverseStrand(columns: seq<string>, name: string)
    ensures IsBothDirectionsFromAffinity(columns + [name + REVERSE_STRAND]) == Ok(true)
  {
    ContainsSuffix(name, REVERSE_STRAND);
  }

  /**
   * For a well-formed pair of tables the two-argument branch agrees with the
   * column layout: one column per TF means one strand, two means both.
   */
  lemma StrandCountFromLayout(tfRows: nat, strands: nat)
    requires tfRows > 0 && (strands == 1 || strands == 2)
    ensures IsBothDirections(TfAndOccupancy(tfRows, 2 + strands * tfRows)) == Ok(strands == 2)
  {
  }
}
