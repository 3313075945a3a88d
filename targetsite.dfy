/**
 * A target site (src/objects/TargetSite.java): an interval of positions a
 * TF species should reach, relative to the simulated DNA, clamped into the
 * positions the TF can start from. The DNA region a site is built from
 * (`DNAregion` and its parsing of a description) is not part of this
 * model: it arrives as a `SiteRegion`, or through a region-parsing
 * function.
 */
module TargetSites {
  import opened Wrappers
  import opened Text
  import opened JUtils
  import Cell

  /** What the site keeps of its DNA region: start, end (NONE when the text did not parse) and direction. */
  datatype SiteRegion = SiteRegion(start: int, end: int, direction: int)

  /** Why the description-only construction stops the simulation. */
  datatype SiteError = NoTfSpecies | UnknownTf

  /**
   * `rescaleInterval`: an empty or reversed interval is widened to one
   * position, then both ends are clamped into [0, DNAsize − TFsize], with
   * Java's 32-bit int arithmetic.
   */
  function Rescaled(relStart: int, relEnd: int, tfSize: int, dnaSize: int): (int, int)
  {
    var end := if relEnd <= relStart then ToInt(relStart + 1) else relEnd;
    var limit := ToInt(dnaSize - tfSize);
    (MathMin(MathMax(0, relStart), limit), MathMax(MathMin(limit, end), 0))
  }

  /**
   * When the TF fits on the DNA the rescaled interval lies inside
   * [0, DNAsize − TFsize] with its start not after its end; an interval
   * already inside with start before end is kept, and a reversed one that
   * starts inside becomes the one position after its start.
   */
  lemma RescaledBounds(relStart: int, relEnd: int, tfSize: int, dnaSize: int)
    requires IsInt(relStart) && IsInt(relEnd) && relStart < INT_MAX
    requires 0 <= tfSize <= dnaSize <= INT_MAX
    ensures var r := Rescaled(relStart, relEnd, tfSize, dnaSize);
      0 <= r.0 <= r.1 <= dnaSize - tfSize
    ensures 0 <= relStart < relEnd <= dnaSize - tfSize ==>
      Rescaled(relStart, relEnd, tfSize, dnaSize) == (relStart, relEnd)
    ensures 0 <= relStart < dnaSize - tfSize && relEnd <= relStart ==>
      Rescaled(relStart, relEnd, tfSize, dnaSize) == (relStart, relStart + 1)
  {
  }

  /** Java's `relStart + 1` at the largest int wraps, and the clamped start then passes the end. */
  lemma RescaledWraps(tfSize: int, dnaSize: int)
    requires 0 <= tfSize < dnaSize <= INT_MAX
    ensures Rescaled(INT_MAX, 0, tfSize, dnaSize) == (dnaSize - tfSize, 0)
  {
  }

  /** `rescaleInterval(TFsize, DNAsize)`, assignment by assignment, on the two ends it is given. */
  method RescaleInterval(start: int, end: int, tfSize: int, dnaSize: int) returns (relStart: int, relEnd: int)
    ensures (relStart, relEnd) == Rescaled(start, end, tfSize, dnaSize)
  {
    relStart, relEnd := start, end;
    if relEnd <= relStart {
      relEnd := ToInt(relStart + 1);
    }
    relStart := MathMax(0, relStart);
    relStart := MathMin(relStart, ToInt(dnaSize - tfSize));
    relEnd := MathMin(ToInt(dnaSize - tfSize), relEnd);
    relEnd := MathMax(relEnd, 0);
  }

  /**
   * The fields the source sets only while constructing a site are
   * constants; the group list and the id change afterwards.
   */
  class TargetSite {
    const relStart: int
    const relEnd: int
    const region: SiteRegion
    const tfId: int
    /** None where the source leaves the name unset (the description-based constructor). */
    const tfName: Option<string>
    const size: int
    /** The ids of the groups the site belongs to. */
    var group: seq<int>
    var targetSiteID: int

    /**
     * The constructor given the cell: the end is taken back by the TF's
     * size, the interval rescaled, and the size computed afterwards, so it
     * is at least one.
     */
    constructor InCell(species: seq<Cell.SpeciesInfo>, targetSiteID: int, region: SiteRegion, dnaStart: int,
                       tfId: int, tfSize: int, dnaSize: int)
      requires 0 <= tfId < |species|
      ensures (relStart, relEnd) ==
        Rescaled(ToInt(region.start - dnaStart), ToInt(region.end - dnaStart - tfSize), tfSize, dnaSize)
      ensures size == MathMax(ToInt(relEnd - relStart), 1) && size >= 1
      ensures this.region == region && this.tfId == tfId && tfName == Some(species[tfId].name)
      ensures group == [] && this.targetSiteID == targetSiteID
    {
      var s, e := RescaleInterval(ToInt(region.start - dnaStart), ToInt(region.end - dnaStart - tfSize),
                                  tfSize, dnaSize);
      this.region := region;
      relStart, relEnd := s, e;
      this.tfId := tfId;
      tfName := Some(species[tfId].name);
      size := MathMax(ToInt(e - s), 1);
      group := [];
      this.targetSiteID := targetSiteID;
    }

    /**
     * The description-based constructor: the end is not taken back by the
     * TF's size, and the size is computed before the rescaling, with the
     * TF's size subtracted there instead.
     */
    constructor FromDescription(targetSiteID: int, region: SiteRegion, dnaStart: int,
                                tfId: int, tfSize: int, dnaSize: int)
      ensures (relStart, relEnd) ==
        Rescaled(ToInt(region.start - dnaStart), ToInt(region.end - dnaStart), tfSize, dnaSize)
      ensures size == DescribedSize(region, dnaStart, tfSize) && size >= 1
      ensures this.region == region && this.tfId == tfId && tfName == None
      ensures group == [] && this.targetSiteID == targetSiteID
    {
      var s, e := RescaleInterval(ToInt(region.start - dnaStart), ToInt(region.end - dnaStart), tfSize, dnaSize);
      this.region := region;
      relStart, relEnd := s, e;
      this.tfId := tfId;
      tfName := None;
      size := MathMax(ToInt(ToInt(region.end - dnaStart) - ToInt(region.start - dnaStart) - tfSize), 1);
      group := [];
      this.targetSiteID := targetSiteID;
    }

    /**
     * The constructor from a description `TF<delimiter>region`: the TF is
     * looked up by the trimmed prefix; a description without the delimiter
     * or naming no species stops the simulation. Otherwise the site is the
     * one the cell-based constructor builds, with the TF's total size.
     */
    static method Parse(species: seq<Cell.SpeciesInfo>, targetSiteID: int, description: string, delimiter: char,
                        parseRegion: string -> SiteRegion, dnaStart: int, dnaSize: int)
      returns (r: Result<TargetSite, SiteError>)
      requires Cell.SpeciesIndexed(species)
      ensures delimiter !in description ==> r == Err(NoTfSpecies)
      ensures delimiter in description ==>
        var k := IndexOf(description, delimiter);
        var id := Cell.SpeciesIdFrom(species, Trim(description[..k]), 0);
        (id == NONE <==> r == Err(UnknownTf)) &&
        (id != NONE ==>
           r.Ok? && fresh(r.value) && 0 <= id < |species| &&
           r.value.tfId == id && r.value.tfName == Some(species[id].name) &&
           r.value.region == parseRegion(description[k + 1..]) &&
           (r.value.relStart, r.value.relEnd) ==
             Rescaled(ToInt(r.value.region.start - dnaStart),
                      ToInt(r.value.region.end - dnaStart - species[id].sizeTotal), species[id].sizeTotal, dnaSize) &&
           r.value.size >= 1 && r.value.group == [] && r.value.targetSiteID == targetSiteID)
    {
      if delimiter !in description {
        return Err(NoTfSpecies);
      }
      var k := IndexOf(description, delimiter);
      var id := Cell.GetTFspeciesID(species, description[..k]);
      Cell.SpeciesIdIsIndex(species, Trim(description[..k]));
      if id == NONE {
        return Err(UnknownTf);
      }
      var region := parseRegion(description[k + 1..]);
      var site := new TargetSite.InCell(species, targetSiteID, region, dnaStart, id, species[id].sizeTotal, dnaSize);
      r := Ok(site);
    }

    /** What `equals` compares: the two ends, the direction and the TF. */
    function Key(): (int, int, int, int)
    {
      (relStart, relEnd, region.direction, tfId)
    }

    /** `equals(ts)`. */
    predicate Equals(other: TargetSite)
    {
      relStart == other.relStart && relEnd == other.relEnd && region.direction == other.region.direction &&
      tfId == other.tfId
    }

    /** `isInGroup()`. */
    predicate IsInGroup()
      reads this`group
    {
      |group| > 0
    }
  }

  /** The size the description-based constructor computes, before rescaling. */
  function DescribedSize(region: SiteRegion, dnaStart: int, tfSize: int): (r: int)
    ensures r >= 1
  {
    MathMax(ToInt(ToInt(region.end - dnaStart) - ToInt(region.start - dnaStart) - tfSize), 1)
  }

  /** `equals` holds exactly when the keys agree, so it is an equivalence relation. */
  lemma EqualsIsKey(a: TargetSite, b: TargetSite, c: TargetSite)
    ensures a.Equals(b) <==> a.Key() == b.Key()
    ensures a.Equals(a)
    ensures a.Equals(b) ==> b.Equals(a)
    ensures a.Equals(b) && b.Equals(c) ==> a.Equals(c)
  {
  }

  /**
   * For a region well inside the DNA the two constructors agree on the
   * start and on the size, and the description-based one ends TFsize
   * positions later.
   */
  lemma ConstructorsCompared(region: SiteRegion, dnaStart: int, tfSize: int, dnaSize: int)
    requires 0 <= tfSize <= dnaSize <= INT_MAX
    requires 0 <= region.start - dnaStart && region.start - dnaStart + tfSize < region.end - dnaStart
    requires region.end - dnaStart <= dnaSize - tfSize
    ensures var inCell := Rescaled(region.start - dnaStart, region.end - dnaStart - tfSize, tfSize, dnaSize);
      var described := Rescaled(region.start - dnaStart, region.end - dnaStart, tfSize, dnaSize);
      inCell.0 == described.0 && described.1 == inCell.1 + tfSize &&
      MathMax(ToInt(inCell.1 - inCell.0), 1) == DescribedSize(region, dnaStart, tfSize)
  {
    RescaledBounds(region.start - dnaStart, region.end - dnaStart - tfSize, tfSize, dnaSize);
    RescaledBounds(region.start - dnaStart, region.end - dnaStart, tfSize, dnaSize);
  }
}
