/**
 * The lookups and the molecule table of the simulated cell
 * (src/environment/Cell.java). A species is seen through what these
 * operations read of it; DNA availability and move rates are given as
 * sequences.
 */
module Cell {
  import opened Wrappers
  import opened Text

  /** What the cell reads of a TF species. */
  datatype SpeciesInfo = SpeciesInfo(id: int, name: string, copyNumber: int, sizeTotal: int,
                                     hasDnaCoop: bool, hasDirectCoop: bool)

  // ------------------------------------------------------------ getTFspeciesID

  /**
   * The id of the first species named `name` whose id is not NONE, or
   * NONE: a match whose id is NONE leaves the search going.
   */
  function SpeciesIdFrom(species: seq<SpeciesInfo>, name: string, i: nat): int
    requires i <= |species|
    decreases |species| - i
  {
    if i == |species| then NONE
    else if species[i].name == name && species[i].id != NONE then species[i].id
    else SpeciesIdFrom(species, name, i + 1)
  }

  /** `getTFspeciesID(name)`: the name is trimmed first. */
  method GetTFspeciesID(species: seq<SpeciesInfo>, name: string) returns (result: int)
    ensures result == SpeciesIdFrom(species, Trim(name), 0)
  {
    result := NONE;
    var t := Trim(name);
    var i := 0;
    while i < |species| && result == NONE
      invariant 0 <= i <= |species|
      invariant result == NONE ==> SpeciesIdFrom(species, t, 0) == SpeciesIdFrom(species, t, i)
      invariant result != NONE ==> result == SpeciesIdFrom(species, t, 0)
    {
      if t == species[i].name {
        result := species[i].id;
      }
      i := i + 1;
    }
  }

  /**
   * The lookup finds a species with that name and the id it returns, all
   * earlier species of that name having id NONE; NONE means no species of
   * that name has another id.
   */
  lemma {:induction false} SpeciesIdFromFound(species: seq<SpeciesInfo>, name: string, i: nat)
    requires i <= |species|
    ensures SpeciesIdFrom(species, name, i) == NONE <==>
      forall j :: i <= j < |species| && species[j].name == name ==> species[j].id == NONE
    ensures SpeciesIdFrom(species, name, i) != NONE ==>
      exists j :: i <= j < |species| && species[j].name == name && species[j].id == SpeciesIdFrom(species, name, i) &&
        forall k :: i <= k < j && species[k].name == name ==> species[k].id == NONE
    decreases |species| - i
  {
    if i < |species| {
      SpeciesIdFromFound(species, name, i + 1);
    }
  }

  /** The species table as the cell keeps it: species i has id i. */
  predicate SpeciesIndexed(species: seq<SpeciesInfo>) {
    forall i :: 0 <= i < |species| ==> species[i].id == i
  }

  /** In such a table a found id is the index of the first species with that name. */
  lemma SpeciesIdIsIndex(species: seq<SpeciesInfo>, name: string)
    requires SpeciesIndexed(species)
    ensures var r := SpeciesIdFrom(species, name, 0);
      (r == NONE <==> forall j :: 0 <= j < |species| ==> species[j].name != name) &&
      (r != NONE ==> 0 <= r < |species| && species[r].name == name &&
                     forall j :: 0 <= j < r ==> species[j].name != name)
  {
    SpeciesIdFromFound(species, name, 0);
  }

  // ------------------------------------------------------------ free molecules

  /** `getFreeTFmolecule(s)`: the last free molecule of the species, or NONE; the list is left as it is. */
  function GetFreeTFmolecule(free: seq<seq<int>>, s: nat): (r: int)
    requires s < |free|
    ensures |free[s]| == 0 ==> r == NONE
    ensures |free[s]| > 0 ==> r in free[s] && free[s][..|free[s]| - 1] + [r] == free[s]
  {
    if |free[s]| == 0 then NONE else free[s][|free[s]| - 1]
  }

  /** Some species has a free molecule and somewhere to bind. */
  predicate CanBind(free: seq<seq<int>>, availabilitySum: seq<int>)
    requires |availabilitySum| >= |free|
  {
    exists i :: 0 <= i < |free| && |free[i]| > 0 && availabilitySum[i] > 0
  }

  /** `canTFMoleculeBind()`: a scan that stops at the first species that can bind. */
  method CanTFMoleculeBind(free: seq<seq<int>>, availabilitySum: seq<int>) returns (result: bool)
    requires |availabilitySum| >= |free|
    ensures result == CanBind(free, availabilitySum)
  {
    result := false;
    var i := 0;
    while i < |free| && !result
      invariant 0 <= i <= |free|
      invariant result <==> exists j :: 0 <= j < i && |free[j]| > 0 && availabilitySum[j] > 0
    {
      if |free[i]| > 0 && availabilitySum[i] > 0 {
        result := true;
      }
      i := i + 1;
    }
  }

  // ------------------------------------------------------------ createMolecules

  /** A molecule as `createMolecules` builds it: unbound, of a species, with that species' footprint. */
  datatype NewMolecule = NewMolecule(id: int, speciesID: int, size: int, hasDnaCoop: bool, hasDirectCoop: bool)

  /** The number of molecules of the first n species. */
  function Offset(species: seq<SpeciesInfo>, n: nat): int
    requires n <= |species|
  {
    if n == 0 then 0 else Offset(species, n - 1) + species[n - 1].copyNumber
  }

  predicate CopyNumbersValid(species: seq<SpeciesInfo>) {
    forall i :: 0 <= i < |species| ==> species[i].copyNumber >= 0
  }

  lemma {:induction false} OffsetMonotone(species: seq<SpeciesInfo>, a: nat, b: nat)
    requires CopyNumbersValid(species) && a <= b <= |species|
    ensures 0 <= Offset(species, a) <= Offset(species, b)
    decreases b
  {
    if a < b {
      OffsetMonotone(species, a, b - 1);
    } else if a > 0 {
      OffsetMonotone(species, 0, a - 1);
    }
  }

  /** The ids lo, lo + 1, …, hi − 1. */
  function Range(lo: int, hi: int): (r: seq<int>)
    requires lo <= hi
    ensures |r| == hi - lo && forall k :: 0 <= k < |r| ==> r[k] == lo + k
  {
    seq(hi - lo, k requires 0 <= k < hi - lo => lo + k)
  }

  /** The molecule with id k, of species i. */
  function MoleculeOf(species: seq<SpeciesInfo>, i: nat, k: int): NewMolecule
    requires i < |species|
  {
    NewMolecule(k, i, species[i].sizeTotal, species[i].hasDnaCoop, species[i].hasDirectCoop)
  }

  /** The molecules of species i, with the ids from Offset(i) on. */
  function Block(species: seq<SpeciesInfo>, i: nat): (r: seq<NewMolecule>)
    requires CopyNumbersValid(species) && i < |species|
    ensures |r| == species[i].copyNumber
  {
    seq(species[i].copyNumber, j requires 0 <= j < species[i].copyNumber => MoleculeOf(species, i, Offset(species, i) + j))
  }

  /** The molecules of the first n species, block after block. */
  function Table(species: seq<SpeciesInfo>, n: nat): (r: seq<NewMolecule>)
    requires CopyNumbersValid(species) && n <= |species|
    ensures |r| == Offset(species, n)
  {
    if n == 0 then [] else Table(species, n - 1) + Block(species, n - 1)
  }

  /**
   * In the whole table molecule k has id k, and its species is one of
   * the first n, whose footprint and cooperativity flags it carries.
   */
  lemma {:induction false} MoleculesNumbered(species: seq<SpeciesInfo>, n: nat)
    requires CopyNumbersValid(species) && n <= |species|
    ensures forall k :: 0 <= k < Offset(species, n) ==>
      Table(species, n)[k].id == k && 0 <= Table(species, n)[k].speciesID < n &&
      Table(species, n)[k] == MoleculeOf(species, Table(species, n)[k].speciesID, k)
  {
    if n > 0 {
      MoleculesNumbered(species, n - 1);
      var before := Table(species, n - 1);
      var dbp := Table(species, n);
      forall k | 0 <= k < |dbp|
        ensures dbp[k].id == k && 0 <= dbp[k].speciesID < n && dbp[k] == MoleculeOf(species, dbp[k].speciesID, k)
      {
        assert dbp == before + Block(species, n - 1);
        if k < |before| {
          assert dbp[k] == before[k];
        } else {
          var b := Block(species, n - 1);
          assert dbp[k] == b[k - |before|];
          assert b[k - |before|] == MoleculeOf(species, n - 1, Offset(species, n - 1) + k - |before|);
        }
      }
    }
  }

  /**
   * `createMolecules()`: every molecule gets the next id in species
   * order, and goes both into its species' id list and into its free
   * list; the free total counts them all.
   */
  method CreateMolecules(species: seq<SpeciesInfo>)
    returns (dbp: seq<NewMolecule>, moleculeIds: seq<seq<int>>, free: seq<seq<int>>, freeTotal: int)
    requires CopyNumbersValid(species)
    ensures dbp == Table(species, |species|)
    ensures |moleculeIds| == |free| == |species| && freeTotal == |dbp| == Offset(species, |species|)
    ensures forall i :: 0 <= i < |species| ==>
      moleculeIds[i] == free[i] == Range(Offset(species, i), Offset(species, i + 1))
  {
    dbp := [];
    moleculeIds := [];
    free := [];
    freeTotal := 0;
    var id := 0;
    var i := 0;
    while i < |species|
      invariant 0 <= i <= |species|
      invariant dbp == Table(species, i) && id == freeTotal == |dbp| == Offset(species, i)
      invariant |moleculeIds| == |free| == i
      invariant forall j :: 0 <= j < i ==> moleculeIds[j] == free[j] == Range(Offset(species, j), Offset(species, j + 1))
    {
      var ids: seq<int> := [];
      var added: seq<NewMolecule> := [];
      var j := 0;
      while j < species[i].copyNumber
        invariant 0 <= j <= species[i].copyNumber
        invariant id == Offset(species, i) + j && freeTotal == id
        invariant ids == Range(Offset(species, i), id) && |added| == j
        invariant added == Block(species, i)[..j]
      {
        var m := NewMolecule(id, i, species[i].sizeTotal, species[i].hasDnaCoop, species[i].hasDirectCoop);
        assert m == MoleculeOf(species, i, Offset(species, i) + j);
        assert Block(species, i)[j] == MoleculeOf(species, i, Offset(species, i) + j);
        assert Block(species, i)[..j + 1] == added + [m];
        added := added + [m];
        ids := ids + [id];
        freeTotal := freeTotal + 1;
        id := id + 1;
        j := j + 1;
      }
      assert added == Block(species, i);
      dbp := dbp + added;
      moleculeIds := moleculeIds + [ids];
      free := free + [ids];
      i := i + 1;
    }
  }

  /** Every id below the total belongs to exactly one species' list, the one whose block holds it. */
  lemma IdsPartitioned(species: seq<SpeciesInfo>, i: nat, k: int)
    requires CopyNumbersValid(species) && i < |species|
    ensures k in Range(Offset(species, i), Offset(species, i + 1)) <==> Offset(species, i) <= k < Offset(species, i + 1)
  {
    OffsetMonotone(species, i, i + 1);
    var r := Range(Offset(species, i), Offset(species, i + 1));
    if Offset(species, i) <= k < Offset(species, i + 1) {
      assert r[k - Offset(species, i)] == k;
    }
  }

  // ------------------------------------------------------------ getStrongestAvailableSite

  /** The direction chosen at a position: 0 with one direction or when its rate is at least the other's. */
  function BestDirection(rates: seq<real>): nat
    requires |rates| >= 1
  {
    if |rates| == 1 || rates[0] >= rates[1] then 0 else 1
  }

  predicate RatesShaped(available: seq<bool>, rates: seq<seq<real>>) {
    |rates| == |available| && forall i :: 0 <= i < |rates| ==> |rates[i]| >= 1
  }

  /** The rate at a position in its chosen direction. */
  function Chosen(rates: seq<seq<real>>, i: nat): real
    requires i < |rates| && |rates[i]| >= 1
  {
    rates[i][BestDirection(rates[i])]
  }

  /**
   * `getStrongestAvailableSite(speciesID)`: the available position whose
   * chosen rate is smallest, the earliest one on ties, with its chosen
   * direction; (NONE, NONE) when no position is available.
   */
  method GetStrongestAvailableSite(available: seq<bool>, rates: seq<seq<real>>) returns (position: int, direction: int)
    requires RatesShaped(available, rates)
    ensures position == NONE <==> forall i :: 0 <= i < |available| ==> !available[i]
    ensures position == NONE ==> direction == NONE
    ensures position != NONE ==>
      0 <= position < |available| && available[position] && direction == BestDirection(rates[position]) &&
      (forall i :: 0 <= i < |available| && available[i] ==> Chosen(rates, position) <= Chosen(rates, i)) &&
      (forall i :: 0 <= i < position && available[i] ==> Chosen(rates, position) < Chosen(rates, i))
  {
    direction := NONE;
    position := NONE;
    var i := 0;
    while i < |available|
      invariant 0 <= i <= |available|
      invariant position == NONE <==> forall j :: 0 <= j < i ==> !available[j]
      invariant position == NONE ==> direction == NONE
      invariant position != NONE ==>
        0 <= position < i && available[position] && direction == BestDirection(rates[position]) &&
        (forall j :: 0 <= j < i && available[j] ==> Chosen(rates, position) <= Chosen(rates, j)) &&
        (forall j :: 0 <= j < position && available[j] ==> Chosen(rates, position) < Chosen(rates, j))
    {
      if available[i] {
        var maxDirection := 1;
        if |rates[i]| == 1 || rates[i][0] >= rates[i][1] {
          maxDirection := 0;
        }
        if position == NONE || rates[position][direction] > rates[i][maxDirection] {
          direction := maxDirection;
          position := i;
        }
      }
      i := i + 1;
    }
  }

  // ------------------------------------------------------------ end of simulation

  /** `isEndOfSimulation(time)`: the time left is below the tolerance, a fraction of the total time. */
  predicate IsEndOfSimulation(totalStopTime: real, doubleZero: real, time: real) {
    totalStopTime - time < doubleZero * totalStopTime
  }

  /** With a tolerance in [0, 1): the end is reached exactly past (1 − tolerance) of the total time. */
  lemma EndOfSimulationIff(totalStopTime: real, doubleZero: real, time: real)
    requires totalStopTime > 0.0 && 0.0 <= doubleZero < 1.0
    ensures IsEndOfSimulation(totalStopTime, doubleZero, time) <==> time > (1.0 - doubleZero) * totalStopTime
    ensures time >= totalStopTime ==> IsEndOfSimulation(totalStopTime, doubleZero, time) || doubleZero == 0.0
  {
  }

  // ------------------------------------------------------------ output file names

  /** The extensions each output file gets, and the one of the parameter file. */
  datatype Extensions = Extensions(params: string, status: string, occupancy: string, targetSite: string,
                                   tf: string, sequence: string, affinity: string, backup: string, info: string)

  datatype OutputNames = OutputNames(status: string, occupancy: string, targetSite: string, targetSiteFollow: string,
                                     dnaSequence: string, affinityLandscape: string, tfSpecies: string,
                                     occupancyFinal: string, backup: string, info: string)

  /**
   * "params" replaced by the file's marker, then the parameter extension
   * swapped; both are Java `replaceAll`, so a `.` in the extension matches
   * any character.
   */
  function Renamed(name: string, marker: string, ext: Extensions, newExt: string): string
    requires |ext.params| > 0
  {
    PatternReplaceAll(PatternReplaceAll(name, "params", marker), ext.params, newExt)
  }

  /** The backup names: "_params" dropped, the extension swapped, "backup_" in front. */
  function BackupName(name: string, ext: Extensions, newExt: string): (r: string)
    requires |ext.params| > 0
    ensures StartsWith(r, "backup_")
  {
    "backup_" + PatternReplaceAll(PatternReplaceAll(name, "_params", ""), ext.params, newExt)
  }

  /** `generateOutputFilenames(paramsFilename)`. */
  function GenerateOutputFilenames(name: string, ext: Extensions): (r: OutputNames)
    requires |ext.params| > 0
    ensures StartsWith(r.backup, "backup_") && StartsWith(r.info, "backup_")
  {
    OutputNames(Renamed(name, "status", ext, ext.status), Renamed(name, "occupancy", ext, ext.occupancy),
                Renamed(name, "target_site", ext, ext.targetSite), Renamed(name, "target_site_follow", ext, ext.tf),
                Renamed(name, "DNA_seq", ext, ext.sequence), Renamed(name, "affinity_landscape", ext, ext.affinity),
                Renamed(name, "TF_species", ext, ext.tf), Renamed(name, "DNA_occupancy_final", ext, ext.occupancy),
                BackupName(name, ext, ext.backup), BackupName(name, ext, ext.info))
  }

  /** A name in which neither "params" nor the parameter extension matches is kept as it is. */
  lemma {:induction false} RenamedPlain(name: string, marker: string, ext: Extensions, newExt: string)
    requires |ext.params| > 0 && !Contains(name, "params") && !PatternOccurs(name, ext.params)
    ensures Renamed(name, marker, ext, newExt) == name
  {
    PatternLiteral(name, "params", marker);
    ReplaceAllAbsent(name, "params", marker);
    PatternAbsent(name, ext.params, newExt);
  }

  /**
   * A name ending in the parameter extension, with no other match of it
   * and no "params": only the extension changes.
   */
  lemma {:induction false} RenamedExtension(stem: string, marker: string, ext: Extensions, newExt: string)
    requires |ext.params| > 0 && !Contains(stem + ext.params, "params")
    requires !PatternOccurs((stem + ext.params)[..|stem| + |ext.params| - 1], ext.params)
    ensures Renamed(stem + ext.params, marker, ext, newExt) == stem + newExt
  {
    RenamedPlainMarker(stem + ext.params, marker, ext);
    PatternSuffix(stem, ext.params, newExt);
  }

  /**
   * The leading `.` of an extension is a wildcard: a name that is the
   * extension with its dot replaced by any other character (not a line
   * terminator) is renamed to the new extension as a whole.
   */
  lemma {:induction false} RenamedWildcard(c: char, marker: string, ext: Extensions, newExt: string)
    requires |ext.params| > 0 && ext.params[0] == '.' && !IsLineTerminator(c)
    requires !Contains([c] + ext.params[1..], "params")
    ensures Renamed([c] + ext.params[1..], marker, ext, newExt) == newExt
  {
    var name := [c] + ext.params[1..];
    PatternLiteral(name, "params", marker);
    ReplaceAllAbsent(name, "params", marker);
    assert MatchesAt(name, ext.params) by {
      forall i | 0 <= i < |ext.params|
        ensures PatternChar(ext.params[i], name[i])
      {
        if i > 0 {
          assert name[i] == ext.params[i];
        }
      }
    }
    assert PatternReplaceAll(name, "params", marker) == name;
    assert name[|ext.params|..] == [];
    assert PatternReplaceAll(name, ext.params, newExt) == newExt + PatternReplaceAll([], ext.params, newExt);
  }

  /**
   * Without "params" in the name the marker never gets in: the occupancy and
   * final-occupancy files share one name, and so do the target-site-follow
   * and TF-species files, which also share their extension.
   */
  lemma {:induction false} OutputNamesCollide(name: string, ext: Extensions)
    requires |ext.params| > 0 && !Contains(name, "params")
    ensures var r := GenerateOutputFilenames(name, ext);
      r.occupancy == r.occupancyFinal && r.targetSiteFollow == r.tfSpecies
  {
    RenamedPlainMarker(name, "occupancy", ext);
    RenamedPlainMarker(name, "DNA_occupancy_final", ext);
    RenamedPlainMarker(name, "target_site_follow", ext);
    RenamedPlainMarker(name, "TF_species", ext);
  }

  /** Without "params" in the name, renaming only replaces the extension pattern. */
  lemma {:induction false} RenamedPlainMarker(name: string, marker: string, ext: Extensions)
    requires |ext.params| > 0 && !Contains(name, "params")
    ensures PatternReplaceAll(name, "params", marker) == name
  {
    PatternLiteral(name, "params", marker);
    ReplaceAllAbsent(name, "params", marker);
  }

  /**
   * A parameter file named stem + extension, with "params" nowhere and the
   * extension matching only at the end: every output file is the stem with
   * its own extension, the backup and info files behind "backup_".
   */
  lemma {:induction false} OutputNamesOfStem(stem: string, ext: Extensions)
    requires |ext.params| > 0 && !Contains(stem + ext.params, "params")
    requires !PatternOccurs((stem + ext.params)[..|stem| + |ext.params| - 1], ext.params)
    ensures var r := GenerateOutputFilenames(stem + ext.params, ext);
      r.status == stem + ext.status && r.occupancy == stem + ext.occupancy &&
      r.targetSite == stem + ext.targetSite && r.targetSiteFollow == stem + ext.tf &&
      r.dnaSequence == stem + ext.sequence && r.affinityLandscape == stem + ext.affinity &&
      r.tfSpecies == stem + ext.tf && r.occupancyFinal == stem + ext.occupancy &&
      r.backup == "backup_" + stem + ext.backup && r.info == "backup_" + stem + ext.info
  {
    RenamedExtension(stem, "status", ext, ext.status);
    RenamedExtension(stem, "occupancy", ext, ext.occupancy);
    RenamedExtension(stem, "target_site", ext, ext.targetSite);
    RenamedExtension(stem, "target_site_follow", ext, ext.tf);
    RenamedExtension(stem, "DNA_seq", ext, ext.sequence);
    RenamedExtension(stem, "affinity_landscape", ext, ext.affinity);
    RenamedExtension(stem, "TF_species", ext, ext.tf);
    RenamedExtension(stem, "DNA_occupancy_final", ext, ext.occupancy);
    BackupOfStem(stem, ext, ext.backup);
    BackupOfStem(stem, ext, ext.info);
  }

  /** The backup name of stem + extension, under the same conditions: "backup_" + stem + newExt. */
  lemma {:induction false} BackupOfStem(stem: string, ext: Extensions, newExt: string)
    requires |ext.params| > 0 && !Contains(stem + ext.params, "params")
    requires !PatternOccurs((stem + ext.params)[..|stem| + |ext.params| - 1], ext.params)
    ensures BackupName(stem + ext.params, ext, newExt) == "backup_" + stem + newExt
  {
    var name := stem + ext.params;
    NoUnderscoreParams(name);
    PatternSuffix(stem, ext.params, newExt);
  }

  /** A name without "params" has no "_params" either, so dropping "_params" keeps it. */
  lemma {:induction false} NoUnderscoreParams(name: string)
    requires !Contains(name, "params")
    ensures PatternReplaceAll(name, "_params", "") == name
  {
    if Contains(name, "_params") {
      assert "_params" == ['_'] + "params";
      ContainsTail(name, '_', "params");
    }
    PatternLiteral(name, "_params", "");
    ReplaceAllAbsent(name, "_params", "");
  }
}
