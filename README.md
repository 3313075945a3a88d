# GRiPE core, modelled in Dafny

GRiPE simulates transcription factors (TFs) searching a DNA strand. Each TF molecule binds, slides, hops, represses and de-represses chromatin. A Java simulator keeps the DNA, molecule and event bookkeeping. A set of Python utilities post-processes the simulator's output. This project models the discrete part of both layers and proves properties of it.

**Python post-processing** (`utils.py`, `dataproc/utils.py`), modules `Py*`:
- `PyAffinity`: the affinity landscape. A window is masked to minus infinity when the chromatin track is not open over the whole footprint. Scores are floored at the per-TF threshold. The trailing positions are masked. Minus infinity is the `NegInf` case of `ExtReal`.
- `PyMotif`: motif and TF sizes from `PWM:` strings, base indices, complements, PWM scores.
- `PyVectors`: strand detection and per-TF vectors (`sum_neighbours`, `double_each_element`, `is_both_directions`).
- `PyParams`: `KEY = VALUE;` parameter files, read and written.
- `PyNames`: result-file name selection over a directory listing, including the legacy `0.0s` variant.
- `PyTargetSites`: parsing of target-site lines into rows.

**Java simulator** (`src/`):
- `DnaSpec` and `Dna`: class `DNA` keeps the arrays `occupied`, `closed` and the per-species availability rows in place. Alongside them it keeps the running sums, the sector sums and the repressed length. Every method is proved against a function of the old arrays, and every sum equals the count of available positions it totals.
- `CellUtils` and `DnaSequences`: reverse complement, wildcard equality, sub-sequence copy, extract, concatenate and replace, mismatch penalty, affinity lookups, and the `DNAsequence` key type.
- `PfmScores` and `Pfm`: the PFM text parser, class `PFM` and its scores.
- `JUtils`: `Utils.java`, meaning the command-line parameter extraction, the `parse*` defaults, the draws, sums, means and CSV lines.
- `ParamTable`, `ParamFile` and `InputParams`: the parameter store, the parameter-file reader, the loaders and the exported key set.
- `DnaFiles`: the btrack and FASTA parsers, over a list of lines.
- `TfSpecies` and `TfFileParser`: species-derived quantities, `parseDBD`, cooperativity, and the TF table loader over an abstract CSV.
- `TargetSites`, `TargetSitesGroups`, `SitesAndGroups` and `TsFileParser`: target-site clamping, groups and their statistics, RPN tokenisation, and the target-site file parser.
- `Molecules`: the `DBP` and `TF` molecule state. This covers sliding extremes, neighbour links, position history, the free-molecule lists, binding, unbinding and hops.
- `Events`, `EventQueues` and `EventLists`: event ordering, the single-slot binding queue, the random-walk and repression queues, and the choice of the earliest event.
- `Cell`: the read-only lookups, `createMolecules` and the output file names.

**Conventions**:
- Real-valued scores are Dafny `real`. `Double.MAX_VALUE` is a real constant.
- `Constants.NONE` is `-1`. The base-pair states are a datatype. Base ids and the ANY wildcard are parameters.
- `exp`, `log` and every random draw are parameters.
- Java `int` truncation and `Math.round` are written out wherever the code relies on them.
- File and console I/O becomes a list of lines in, or a value out.

## Model

| member | source | states |
|---|---|---|
| Cell.GetTFspeciesID | src/environment/Cell.java:712-721 | The id is that of the first species whose name equals the trimmed name and whose id is set, NONE when there is none. |
| Cell.SpeciesIdFromFound | src/environment/Cell.java:712-721 | NONE exactly when every species of that name has id NONE; otherwise the id of the first species of that name whose id is not NONE. |
| Cell.SpeciesIdIsIndex | src/environment/Cell.java:712-721 | With species numbered by position: NONE exactly when no species has the name; otherwise the index of the first species with that name. |
| Cell.GetFreeTFmolecule | src/environment/Cell.java:1474-1480 | NONE for a species without free molecules; otherwise its last free molecule: the list is the rest followed by it, so removing the list's last entry (as binding does) removes exactly the molecule returned. |
| Cell.CanTFMoleculeBind | src/environment/Cell.java:1486-1494 | True exactly when some species has a free molecule and a positive availability sum. |
| Cell.MoleculesNumbered | src/environment/Cell.java:498-517 | In the molecule table built species after species, molecule k has id k and carries the size and cooperativity flags of its species. |
| Cell.CreateMolecules | src/environment/Cell.java:498-517 | The molecules are numbered consecutively in species order; each species' id list and free list both hold exactly the ids of its block, and the free total is the number of molecules. |
| Cell.IdsPartitioned | src/environment/Cell.java:498-517 | An id is in species i's list exactly when it lies between the offsets of species i and i + 1, so the lists partition the ids. |
| Cell.GetStrongestAvailableSite | src/environment/Cell.java:680-703 | NONE (and direction NONE) exactly when no position is available; otherwise an available position whose chosen rate is the smallest, the earliest on ties, with the direction of that rate. |
| Cell.EndOfSimulationIff | src/environment/Cell.java:1017-1020 | The simulation ends exactly when time exceeds (1 - DOUBLE_ZERO) of the total stop time; reaching the stop time ends it whenever the tolerance is positive. |
| Cell.BackupName | src/environment/Cell.java:137-139 | Every backup and info file name starts with "backup_". |
| Cell.GenerateOutputFilenames | src/environment/Cell.java:119-140 | The ten output names; the backup and the info file names both start with "backup_". |
| Cell.RenamedPlain | src/environment/Cell.java:121-139 | A file name containing neither "params" nor any match of the parameter-extension pattern is kept unchanged by the renaming. |
| Cell.RenamedExtension | src/environment/Cell.java:121-139 | A name ending in the parameter extension, with no earlier match of the extension pattern and no "params", gets only its extension replaced. |
| Cell.RenamedWildcard | src/environment/Cell.java:121-139 | The leading `.` of the extension is a regular-expression wildcard: the extension with its dot replaced by any character other than a line terminator is renamed to the new extension as a whole. |
| Cell.OutputNamesCollide | src/environment/Cell.java:123-136 | Without "params" in the parameter file name, the occupancy and final-occupancy files get the same name, and so do the target-site-follow and TF-species files. |
| Cell.OutputNamesOfStem | src/environment/Cell.java:119-140 | For a parameter file stem + extension (no "params", the extension matching only at the end), every output name is the stem with that file's extension, and the backup and info names are "backup_" + stem + their extension. |
| Cell.BackupOfStem | src/environment/Cell.java:137-139 | Under the same conditions the backup name is "backup_" + stem + the new extension: a name without "params" has no "_params" to drop. |
| CellUtils.RevCompTwice | src/utils/CellUtils.java:465-473 | Reverse-complementing twice gives the sequence back when the complement is an involution on its letters. |
| CellUtils.GetReversedComplementSequences | src/utils/CellUtils.java:465-473 | The result is the sequence reversed with every base complemented. |
| CellUtils.RevCompWindow | src/utils/CellUtils.java:483-495 | The whole sequence's reverse complement (same length) when the window does not fit, otherwise a result of the window's length. |
| CellUtils.GetReversedComplementWindow | src/utils/CellUtils.java:483-495 | The loop builds exactly `RevCompWindow`: the reverse complement of the window, or of the whole sequence when the window falls off its end. |
| CellUtils.RevCompSlice | src/utils/CellUtils.java:483-495 | The loop over a window that fits yields the reverse complement of that window. |
| CellUtils.RevCompWindowPrefix | src/utils/CellUtils.java:483-495 | A window that fits gives at least `length` values, the first `length` being the window's reverse complement. |
| CellUtils.RevCompWindowAtEnd | src/utils/CellUtils.java:483-495 | A window ending exactly at the end of a sequence with positive start falls back to the reverse complement of the whole sequence, which is longer than the window. |
| CellUtils.AreSequencesEqual | src/utils/CellUtils.java:501-512 | The loop answers exactly `SequencesEqual`: equal positive lengths and every position equal or ANY on either side. |
| CellUtils.SequencesEqualSymmetric | src/utils/CellUtils.java:501-512 | The comparison is symmetric and reflexive on non-empty sequences. |
| CellUtils.EmptyNeverEqual | src/utils/CellUtils.java:501-512 | Two empty sequences are never equal. |
| CellUtils.SequencesEqualNotTransitive | src/utils/CellUtils.java:501-512 | The wildcard makes the comparison non-transitive: [x] ~ [ANY] ~ [y] while [x] and [y] differ. |
| CellUtils.ConcatenateDNAseq | src/utils/CellUtils.java:550-556 | The first sequence followed by the second. |
| CellUtils.CopySequence | src/utils/CellUtils.java:562-569 | null (None) for a missing or empty sequence; otherwise an equal copy. |
| CellUtils.ExtractSubSequence | src/utils/CellUtils.java:624-633 | null exactly when the clamped range [max(start, 0), min(end, length)) is empty; otherwise exactly the elements of that range. |
| CellUtils.ExtractConcatenated | src/utils/CellUtils.java:550-556 | Extracting the two halves of a concatenation of non-empty sequences gives them back. |
| CellUtils.ReplaceDNAseq | src/utils/CellUtils.java:574-584 | null for an empty strand; otherwise the strand of the same length with the replacement applied. |
| CellUtils.ReplaceThenExtract | src/utils/CellUtils.java:574-584 | Replacing a wildcard-free subsequence at a positive position and extracting the same range gives the subsequence back, and every other position is unchanged. |
| CellUtils.ReplaceAtZero | src/utils/CellUtils.java:574-584 | Position 0 is never replaced (the loop guard is `pos > 0`): the strand is returned unchanged. |
| CellUtils.MismatchesBounds | src/utils/CellUtils.java:149-157 | The number of mismatches is at most the motif length, and zero exactly when every position matches or is ANY. |
| CellUtils.PenaltyIsScaledCount | src/utils/CellUtils.java:149-157 | The summed penalty equals es times the number of mismatching positions. |
| CellUtils.ComputeTFAffinityLR | src/utils/CellUtils.java:149-157 | The loop sums es for every mismatch of the motif against the DNA at the position. |
| CellUtils.ComputeTFAffinityRL | src/utils/CellUtils.java:171-180 | The same penalty sum, against the reverse complement of the motif. |
| CellUtils.ComputeTFAffinity2Way | src/utils/CellUtils.java:119-135 | The smaller of the two strand penalties. |
| CellUtils.TwoWayZeroOnMatch | src/utils/CellUtils.java:119-135 | An exact match (up to ANY) of the motif gives the best possible affinity, 0, when es is non-negative. |
| CellUtils.ComputeTFAffinities | src/utils/CellUtils.java:296-326 | One value per DNA position: the score for every position where the footprint fits, NONE on the last sizeTotal - 1 positions. |
| CellUtils.KnownKeyAsWritten | src/utils/CellUtils.java:194-211 | The buffer of sizeMotif - sizeLeft bytes is filled with sizeMotif bytes, so the lookup key exists exactly when sizeLeft is 0. |
| CellUtils.KnownKeyCounterexample | src/utils/CellUtils.java:194-211 | With sizeLeft 1 and sizeMotif 1 the buffer write overflows, while the intended key is the one DNA base. |
| CellUtils.KnownKey | src/utils/CellUtils.java:194-211 | The key is the sizeMotif DNA values after the left flank. |
| CellUtils.KnownKeyAgrees | src/utils/CellUtils.java:194-211 | Whenever the buffer as written does not overflow it holds the intended key. |
| CellUtils.KnownAffinity | src/utils/CellUtils.java:194-211 | The table's value for the key when present, the default affinity otherwise. |
| Dna.DNA.constructor | src/objects/DNA.java:248-253 | A strand of the given length with every base pair free and open (`setOccupancyAndClosenessVectorsFree`), no repressed length, and for every species an availability row with no available position whose totals are zero (the allocation in `computeTFaffinityLandscape`, with the sector size already settled by `SectorSize`). |
| Dna.DNA.InitSpeciesAvailability | src/objects/DNA.java:497-530 | The per-species part of `computeTFaffinityLandscape`: a position is available when the species has an affinity there (`known`), the totals are counted from that row, footprints over base pairs that are not open are closed, and the returned maximal total (`effectiveTFavailabilityMaxSum`) counts what is left. |
| Dna.DNA.LoadRow | src/objects/DNA.java:503-510 | The first loop over a species' positions in `computeTFaffinityLandscape`: the row becomes `known`. |
| Dna.DNA.CountRow | src/objects/DNA.java:497-525 | The totals of species s are reset and counted from its row, position by position, as the second loop of `computeTFaffinityLandscape` does. |
| Dna.DNA.OccupyDNA | src/objects/DNA.java:1455-1459 | `occupyDNA`: the window [position, position + size) holds proteinID; nothing else changes. |
| Dna.DNA.FreeDNA | src/objects/DNA.java:1467-1474 | `freeDNA`: the part of [position, position + size) on the strand becomes free. |
| Dna.DNA.OpenDNA | src/objects/DNA.java:1482-1489 | `openDNA`: the part of [position, position + size) on the strand becomes open. |
| Dna.DNA.GetBoundProtein | src/objects/DNA.java:1517-1524 | The loop returns `FirstOccupant` of the window: NONE exactly when it is free. |
| Dna.DNA.CheckAvailability | src/objects/DNA.java:1533-1539 | The loop returns `FirstNotOpen` of the window: Open exactly when all of it is open. |
| Dna.DNA.CanBind | src/objects/DNA.java:921-938 | The answer is `CanBindResult`, which `CanBindIff` characterises: the molecule's id exactly when it may bind, else NONE or the blocking occupant. |
| Dna.DNA.GetBoundMolecule | src/objects/DNA.java:1683-1685 | `getBoundMolecule`: the molecule whose leftmost base pair is at position, else NONE. |
| Dna.DNA.GetLeftNeighbour | src/objects/DNA.java:1496-1498 | `getLeftNeighbour`: the occupant just left of position, NONE at the strand's start. |
| Dna.DNA.GetRightNeighbour | src/objects/DNA.java:1506-1508 | `getRightNeighbour`: the occupant just right of position, NONE at the strand's end. |
| Dna.DNA.FindLastBoundMolecule | src/objects/DNA.java:1291-1305 | The scan returns `LastBound`: the last molecule of the clamped window and the index below it, or NONE for a free window. |
| Dna.DNA.FindFirstBoundMolecule | src/objects/DNA.java:1352-1365 | The scan returns `FirstBound`: the first molecule of the clamped window and the index above it, or NONE for a free window. |
| Dna.DNA.FindLastClosedBP | src/objects/DNA.java:1314-1324 | The scan returns `LastClosed`: the last base pair of the clamped window that is not open, or NONE. |
| Dna.DNA.FindFirstClosedBP | src/objects/DNA.java:1333-1343 | The scan returns `FirstClosed`: the first base pair of the clamped window that is not open, or NONE. |
| Dna.DNA.SetAvailability | src/objects/DNA.java:1013-1017 | One step of the availability loops: position j of species s becomes available (v) or unavailable (!v), and when that changes anything the species' total and the total of j's sector move by one. |
| Dna.DNA.ClearRange | src/objects/DNA.java:974-981 | The loop of `closeRegionInAffinityLandscape`: positions [lo, hi) of species s become unavailable. |
| Dna.DNA.CloseRegionInAffinityLandscape | src/objects/DNA.java:972-982 | `closeRegionInAffinityLandscape(left, right, s)`: every footprint of species s that overlaps [left, right) becomes unavailable. |
| Dna.DNA.ReopenRange | src/objects/DNA.java:1086-1093 | The re-opening loops: every position of [lo, hi) of species s whose base pair is open becomes available. |
| Dna.DNA.CloseRuns | src/objects/DNA.java:296-337 | `recomputeTFAffinityLandscapeForClosedRegions` (repressedOnly false) and `...ForRepressedRegions` (repressedOnly true): every maximal run of blocking base pairs in [startPos, endPos) is closed for species s. |
| Dna.DNA.RecomputeOnRepression | src/objects/DNA.java:987-999 | `recomputeTFAffinityLandscapeOnRepression(l, r)` (and, with r = position + size - 1, `...OnBinding`): for every species the footprints overlapping [l, r] become unavailable. |
| Dna.DNA.LeftReopenStart | src/objects/DNA.java:1063-1072 | The left end of the stretch re-opened for species s left of position, as `recomputeTFAffinityLandscapeOnUnbinding` and `...OnTFSlideRight` compute it. |
| Dna.DNA.ScanLeftStart | src/objects/DNA.java:1064-1072 | The left-hand scan of `recomputeTFAffinityLandscapeOnUnbinding` and `...OnTFSlideRight`: start moves right past the last bound molecule and the last closed base pair up to `last`. |
| Dna.DNA.UnbindReopenEnd | src/objects/DNA.java:1074-1085 | The right end of the stretch `recomputeTFAffinityLandscapeOnUnbinding` re-opens for species s. |
| Dna.DNA.ScanRightEnd | src/objects/DNA.java:1075-1084 | The right-hand scan of `recomputeTFAffinityLandscapeOnUnbinding` (reach t - 1) and `...OnTFSlideLeft` (reach t, where the bound `min(end + t, length)` clamps to the same last index inside the search): end moves left before the first bound molecule within reach and before the first closed base pair from `from` on. |
| Dna.DNA.RecomputeSpeciesOnUnbinding | src/objects/DNA.java:1062-1095 | One species' part of `recomputeTFAffinityLandscapeOnUnbinding`. |
| Dna.DNA.RecomputeOnUnbinding | src/objects/DNA.java:1056-1097 | `recomputeTFAffinityLandscapeOnUnbinding`: every species' row is updated for the freed window [position, position + size). |
| Dna.DNA.RecomputeSpeciesOnSlideLeft | src/objects/DNA.java:1202-1234 | One species' part of `recomputeTFAffinityLandscapeOnTFSlideLeft` for a molecule that left position. |
| Dna.DNA.SlideLeftReopenEnd | src/objects/DNA.java:1216-1225 | The right end of the stretch `recomputeTFAffinityLandscapeOnTFSlideLeft` re-opens for species s. |
| Dna.DNA.RecomputeSpeciesOnSlideRight | src/objects/DNA.java:1247-1279 | One species' part of `recomputeTFAffinityLandscapeOnTFSlideRight` for a molecule that left position. |
| Dna.DNA.RecomputeOnTFSlideLeft | src/objects/DNA.java:1197-1236 | `recomputeTFAffinityLandscapeOnTFSlideLeft`: every species' row is updated for the slide. |
| Dna.DNA.RecomputeOnTFSlideRight | src/objects/DNA.java:1242-1281 | `recomputeTFAffinityLandscapeOnTFSlideRight`: every species' row is updated for the slide. |
| Dna.DNA.RecomputeSpeciesOnDerepression | src/objects/DNA.java:1010-1020 | One species' part of the re-opening in `recomputeTFAffinityLandscapeOnDerepression`. |
| Dna.DNA.RecomputeOnDerepression | src/objects/DNA.java:1004-1021 | The re-opening part of `recomputeTFAffinityLandscapeOnDerepression`: every species' row is updated for the derepressed window [l, r]. |
| Dna.DNA.RepressBp | src/objects/DNA.java:1107-1114 | One step of `repressDNA`: base pair pos is repressed if it is open, and counted. |
| Dna.DNA.DerepressBp | src/objects/DNA.java:1169-1177 | One step of `derepressDNA`: base pair pos is opened if it is repressed, and uncounted. |
| Dna.DNA.RepressDNA | src/objects/DNA.java:1106-1116 | `repressDNA(l, r)`: the open base pairs of [l, r] become repressed and, while counting is on, `currentRepressedLength` grows by their number. |
| Dna.DNA.DerepressDNA | src/objects/DNA.java:1168-1181 | `derepressDNA(l, r)`: the repressed base pairs of [l, r] become open and, while counting is on, `currentRepressedLength` shrinks by their number, so it never drops below zero. |
| Dna.DNA.Repress | src/objects/DNA.java:1138-1141 | `repress(l, r)`: [l, r] is repressed and every footprint overlapping it becomes unavailable. |
| Dna.DNA.Derepress | src/objects/DNA.java:1189-1192 | The modelled part of `derepress(l, r)`: [l, r] is derepressed and the footprints near it are re-opened where the chromatin is open. |
| Dna.DNA.BindMolecule | src/objects/DNA.java:908-916 | `bindMolecule`: when `canBind` answers proteinID the window is occupied and every footprint overlapping it becomes unavailable; otherwise nothing changes. |
| Dna.DNA.UnbindMolecule | src/objects/DNA.java:950-963 | `unbindMolecule` with the guard it evidently intends (the position on the strand): the window is freed and, unless the molecule represses the DNA, the footprints around it are re-opened. |
| Dna.DNA.SlideRight | src/objects/DNA.java:1378-1405 | `slideRight`: the molecule at [position, position + proteinSize) moves stepSize base pairs right exactly when the bounds test and, if asked, the occupancy of the window it moves into allow it; occupancy and every species' row then follow the move, otherwise nothing changes. On a strand that is not reflexive a step past the end is not refused: `thrown` holds exactly when Java then indexes past the end (`SlideRightThrows`: no occupancy test, or the scans reach the end, or the occupant met is the molecule itself). |
| Dna.DNA.CanSlideRight | src/objects/DNA.java:1378-1391 | The tests of `slideRight`: the answer is `SlideResult` of the window, clipped to the strand, and `thrown` is exactly `SlideRightThrows`; a molecule allowed to move without a throw stays on the strand. Nothing changes. |
| Dna.DNA.MoveRight | src/objects/DNA.java:1392-1404 | The move of `slideRight` once it is allowed: occupancy and availability follow the molecule. |
| Dna.DNA.SlideLeft | src/objects/DNA.java:1419-1446 | `slideLeft`: the molecule moves stepSize base pairs left exactly when the bounds test (with Java's precedence) and, if asked, the occupancy of the window allow it; occupancy and every species' row then follow the move, otherwise nothing changes. On a strand that is not reflexive a step past the start is not refused, and `thrown` holds exactly then (`SlideLeftThrows`): the first read or write of the window is at a negative index. |
| Dna.DNA.CanSlideLeft | src/objects/DNA.java:1419-1432 | The tests of `slideLeft`: `thrown` is exactly `SlideLeftThrows`, and otherwise the answer is `SlideResult` of the window. Nothing changes. |
| Dna.DNA.MoveLeft | src/objects/DNA.java:1433-1445 | The move of `slideLeft` once it is allowed: occupancy and availability follow the molecule. |
| DnaSpec.FillIdempotent | src/objects/DNA.java:1455-1474 | Occupying or freeing the same window twice is the same as doing it once. |
| DnaSpec.OccupyThenFree | src/objects/DNA.java:1455-1474 | `occupyDNA` then `freeDNA` on a free window restores the occupancy vector. |
| DnaSpec.SlideRightShiftsBlock | src/objects/DNA.java:1392-1400 | A right slide by step <= size moves the molecule's block right by step, frees the cells it left, and changes nothing else. |
| DnaSpec.SlideLeftShiftsBlock | src/objects/DNA.java:1433-1441 | A left slide by step <= size moves the block left by step, frees the cells it left, and changes nothing else. |
| DnaSpec.FirstOccupantIsFirst | src/objects/DNA.java:1517-1524 | NONE exactly when the window is free; otherwise the occupant of the first occupied cell. |
| DnaSpec.FirstNotOpenIsFirst | src/objects/DNA.java:1533-1539 | Open exactly when every base pair of the window is open. |
| DnaSpec.ClampLow | src/objects/DNA.java:1149-1151 | max(0, left): never below the argument, equal to it when it is on the strand, 0 otherwise. |
| DnaSpec.ClampHigh | src/objects/DNA.java:1158-1160 | min(right, length - 1): never above either bound and equal to one of them. |
| DnaSpec.LastClosed | src/objects/DNA.java:1314-1324 | NONE or an index of the clamped window whose base pair is not open. |
| DnaSpec.LastClosedIsLast | src/objects/DNA.java:1314-1324 | Every base pair after the index found is open; NONE exactly when the clamped window is open. |
| DnaSpec.FirstClosed | src/objects/DNA.java:1333-1343 | NONE or an index of the clamped window whose base pair is not open. |
| DnaSpec.FirstClosedIsFirst | src/objects/DNA.java:1333-1343 | Every base pair before the index found is open; NONE exactly when the clamped window is open. |
| DnaSpec.LastBound | src/objects/DNA.java:1291-1305 | A molecule found occupies the cell one above the index returned, inside the clamped window. |
| DnaSpec.LastBoundIsLast | src/objects/DNA.java:1291-1305 | Every cell after the molecule found is free; NONE exactly when the clamped window is free. |
| DnaSpec.FirstBound | src/objects/DNA.java:1352-1365 | A molecule found occupies the cell one below the index returned, inside the clamped window. |
| DnaSpec.FirstBoundIsFirst | src/objects/DNA.java:1352-1365 | Every cell before the molecule found is free; NONE exactly when the clamped window is free. |
| DnaSpec.RepressTouchesOnlyOpen | src/objects/DNA.java:1106-1116 | `repressDNA` keeps the length and only turns open base pairs of [l, r] into repressed ones. |
| DnaSpec.DerepressUndoesRepress | src/objects/DNA.java:1168-1181 | Derepressing a window that held no repressed base pair before its repression restores it. |
| DnaSpec.RepressCount | src/objects/DNA.java:1106-1116 | Repression raises the repressed count by the number of open base pairs in the window, as `currentRepressedLength++` does. |
| DnaSpec.DerepressCount | src/objects/DNA.java:1168-1181 | Derepression lowers the repressed count by the repressed base pairs of the window, so the count never goes negative. |
| DnaSpec.SectorsAddUp | src/objects/DNA.java:520-523 | The per-sector availability counts of a species add up to its total availability count. |
| DnaSpec.Reopened | src/objects/DNA.java:1010-1018 | Re-opening changes only unavailable positions of [lo, hi) over open base pairs, and only to available. |
| DnaSpec.ClearedRun | src/objects/DNA.java:972-982 | Closing a run of blocking base pairs clears exactly the footprints that overlap the run. |
| DnaSpec.ReopenThenClearRepressed | src/objects/DNA.java:1086-1096 | After the unbinding update a newly available position lies in the re-opened stretch over an open base pair, with no repressed base pair under its footprint. |
| DnaSpec.ClearedOnlyClears | src/objects/DNA.java:972-982 | Closing never makes a position available. |
| DnaSpec.CanBindIff | src/objects/DNA.java:921-938 | A molecule not yet on the strand can bind exactly when its window lies on the strand and, when occupancy is checked, every base pair is free and open; otherwise, on the strand, the answer is the first occupant. |
| DnaSpec.SlideLeftPrecedenceHarmless | src/objects/DNA.java:1425 | For a molecule on the strand stepping left, the unbracketed test of `slideLeft` agrees with `slideRight`'s bracketed one, and never refuses on a non-reflexive strand. |
| DnaSpec.SlideRefusesLastPosition | src/objects/DNA.java:1384-1385 | On a reflexive strand both slides refuse position length - size (the bound is `>=`), although a molecule can bind there. |
| DnaSpec.UnbindGuardAlwaysHolds | src/objects/DNA.java:954 | The guard `position >= 0 \|\| position <= length - size` holds for every position when the molecule fits the strand. |
| DnaSpec.UnbindGuardCounterexample | src/objects/DNA.java:954 | Position -1 with size 1 on a 1-bp strand passes the guard although it is off the strand. |
| DnaSpec.UnbindGuardOnStrand | src/objects/DNA.java:953-954 | The corrected guard (`&&`) admits exactly the windows on the strand and implies the guard as written. |
| DnaSpec.BoundMoleculeAtStart | src/objects/DNA.java:1683-1685 | A molecule occupying [p, p + size) is reported at p and at no other base pair of its window. |
| DnaSpec.ReopenStart | src/objects/DNA.java:1063-1072 | The re-opened stretch never starts before max(0, position - t + 1). |
| DnaSpec.ScanLeft | src/objects/DNA.java:1064-1072 | Skipping past the last bound molecule and closed base pair only moves the start right. |
| DnaSpec.UnbindEnd | src/objects/DNA.java:1074-1085 | The stretch ends at most at the freed window's end and at the last footprint start on the strand. |
| DnaSpec.ScanRight | src/objects/DNA.java:1074-1085 | Moving the end left of the first bound molecule keeps every footprint of size t inside the reach. |
| DnaSpec.UnbindRowLocal | src/objects/DNA.java:1056-1097 | Unbinding makes available only positions whose footprint starts at most t - 1 base pairs left of the freed window or inside it, over open base pairs. |
| DnaSpec.SlideLeftEnd | src/objects/DNA.java:1216-1225 | The re-opened stretch after a left slide ends at most one past the molecule's old right end. |
| DnaSpec.SlideLeftRowLocal | src/objects/DNA.java:1197-1236 | A left slide changes a species' row only near the molecule: a position becomes unavailable only if it lies in [position - step - t + 1, position - t + 1), the footprints ending on the newly covered base pairs; it becomes available only if it lies in [max(0, position + size - step), position + size], below length - t + 1, over an open base pair. |
| DnaSpec.SlideRightRowLocal | src/objects/DNA.java:1242-1281 | A right slide: a position becomes unavailable only if it lies in [position + size, position + size + step), the footprints starting on the newly covered base pairs; it becomes available only if it lies in [max(0, position - t + 1), position + step - t + 1), over an open base pair. |
| DnaSpec.DerepressRowOpen | src/objects/DNA.java:1010-1020 | After derepression every available position of the scanned stretch has open chromatin under its whole footprint. |
| DnaSpec.SectorSize | src/objects/DNA.java:381-386 | For a non-empty strand the sector size is between 1 and the length: floor(sqrt(length)) for 0, the length for out-of-range requests. |
| DnaSpec.SectorIds | src/objects/DNA.java:389-392 | One sector id per base pair. |
| DnaSpec.SectorInRange | src/objects/DNA.java:387-392 | Every base pair's sector id (i / size) is below the sector count ceil(length / size). |
| DnaFiles.RecognisedIds | src/utils/CellUtils.java:392-409 | Every id `getSequenceIDs` produces is a value of the letter table. |
| DnaFiles.RecognisedAppend | src/utils/CellUtils.java:392-409 | Recognising a concatenation recognises each part, concatenated. |
| DnaFiles.RecognisedAll | src/utils/CellUtils.java:392-409 | A text made only of letters of the table loses none of them. |
| DnaFiles.ReadFastaLine | src/utils/DNAFilesParser.java:31-37 | A header line gives its name and no bases; any other line gives its recognised bases. |
| DnaFiles.FastaFileParser | src/utils/DNAFilesParser.java:18-59 | A missing file gives an empty DNA without description; otherwise the description is the last header's name ("" without header) and the strand is the bases of all other lines, in order. |
| DnaFiles.FastaStep | src/utils/DNAFilesParser.java:30-39 | Reading line i: a header replaces the description, and the line's bases are appended. |
| DnaFiles.FastaNameClean | src/utils/DNAFilesParser.java:34 | The description never holds the '>' marker. |
| DnaFiles.FastaNameAppend | src/utils/DNAFilesParser.java:30-41 | Of two parts of a file, the later part's header wins when it has one. |
| DnaFiles.FastaStrandAppend | src/utils/DNAFilesParser.java:30-42 | The strand of two parts of a file is their strands concatenated. |
| DnaFiles.FastaStrandIds | src/utils/DNAFilesParser.java:36 | Every base of the strand is a base id of the letter table. |
| DnaFiles.FastaNoHeader | src/utils/DNAFilesParser.java:29-41 | A file without a header line has the empty description. |
| DnaFiles.ParseAll | src/utils/DNAFilesParser.java:70-72 | A successful read has one byte per line. |
| DnaFiles.Btrack | src/utils/DNAFilesParser.java:62-89 | The error message is empty exactly when the file exists, every line parses as a byte and the line count equals the strand length; on any error `closed` is left unchanged. |
| DnaFiles.ParseAllIff | src/utils/DNAFilesParser.java:70-72 | The file reads exactly when every line parses, and then holds the lines' bytes in order. |
| DnaFiles.BtrackOpenIff | src/utils/DNAFilesParser.java:76-78 | On success base pair i is open exactly when line i holds 1, and no base pair is repressed. |
| DnaFiles.ReadBytes | src/utils/DNAFilesParser.java:70-72 | The reading loop computes `ParseAll`. |
| DnaFiles.BtrackFileParser | src/utils/DNAFilesParser.java:62-89 | The message returned and the new `closed` array are exactly `Btrack` of the file and the old array. |
| DnaSequences.FromBytes | src/objects/DNAsequence.java:15-18 | The sequence holds a copy of every byte of the array, in order. |
| DnaSequences.SeqIds | src/utils/CellUtils.java:414-432 | `getSeqIDs` returns a buffer exactly as long as the untrimmed text. |
| DnaSequences.GetSeqIds | src/utils/CellUtils.java:414-432 | A fresh buffer equal to `SeqIds`: the id of each letter of the trimmed, upper-cased text (NONE for a letter outside the table), then Java's default 0 once per whitespace character trimmed off. |
| DnaSequences.FillLetterIds | src/utils/CellUtils.java:423-429 | The loop: position i gets the id of letter i of the trimmed text, or NONE when the table lacks it; the positions past the text are left as they were. |
| DnaSequences.FromString | src/objects/DNAsequence.java:23-27 | The string constructor's bases are exactly `SeqIds` of the strand: the ids `getSeqIDs` gives, copied as the byte-array constructor copies them. |
| DnaSequences.SeqIdsPadded | src/utils/CellUtils.java:416-429 | A strand with whitespace w1 before and w2 after its letters gives the ids of the letters followed by one 0 per whitespace character. |
| DnaSequences.SeqIdsPaddingCollides | src/utils/CellUtils.java:416-418 | With a letter whose id is 0, the padded strand " A" and the strand "AA" give the same bases, so they are one key. |
| DnaSequences.SeqIdsTrimmedIgnoresPadding | src/utils/CellUtils.java:416-429 | Corrected (buffer as long as the trimmed text): surrounding whitespace changes nothing and there is one id per letter. |
| DnaSequences.LetterIdsRecognised | src/utils/CellUtils.java:392-432 | On a text of table letters, the ids `getSeqIDs` writes are those `getSequenceIDs` keeps. |
| DnaSequences.SeqIdsAgreeWithSequenceIds | src/utils/CellUtils.java:392-432 | When every trimmed letter is in the table, the part of `getSeqIDs`' buffer before the padding equals `getSequenceIDs` of the strand. |
| DnaSequences.EqualsSymmetric | src/objects/DNAsequence.java:35-42 | `equals` is symmetric and false for a missing (non-DNAsequence) argument. |
| DnaSequences.EqualsNotReflexive | src/objects/DNAsequence.java:35-42 | An empty sequence is not equal to itself, so `equals` is not reflexive. |
| DnaSequences.EqualsNotTransitive | src/objects/DNAsequence.java:35-42 | The ANY wildcard makes `equals` non-transitive: [x] equals [ANY] and [ANY] equals [y] while [x] and [y] differ. |
| DnaSequences.SequenceToString | src/utils/CellUtils.java:437-447 | Never longer than the input; exactly one letter per byte, the byte's letter, when every byte is a valid base id. |
| DnaSequences.ToInt32 | src/objects/DNAsequence.java:47-50 | The 32-bit two's-complement value congruent to the unsigned hash state. |
| DnaSequences.HashState | src/objects/DNAsequence.java:47-50 | `String.hashCode`'s running state stays an unsigned 32-bit value. |
| DnaSequences.HashOfOneChar | src/objects/DNAsequence.java:47-50 | The hash of a one-character string is that character's code. |
| DnaSequences.HashCodeAsWrittenBreaksEquals | src/objects/DNAsequence.java:35-50 | [A] equals [N] (N is the wildcard) but their hash codes as written are 65 and 78, breaking the `equals`/`hashCode` contract a HashMap key needs. |
| DnaSequences.EqualsImpliesSameHash | src/objects/DNAsequence.java:35-50 | With the corrected hash (the length), equal sequences always have equal hash codes. |
| EventLists.EarliestIsFirst | src/event/EventList.java:69-89 | The strict `>` scan from Double.MAX_VALUE picks: none exactly when no head is before MAX_VALUE; binding exactly when its head is finite and no other head is earlier; random walk exactly when its head is finite, strictly before the binding head and not after the repression head; repression exactly when its head is strictly before both others. |
| EventLists.OnDnaChoiceSchedulesOne | src/event/EventList.java:181-190 | With a uniform draw in [0, 1) and non-negative propensities, nothing is scheduled exactly when both propensities are zero, and the event chosen always has a positive propensity and is not empty. |
| EventLists.DrawBelowOne | src/event/EventList.java:184 | A draw u in [0, 1) scaled by a positive sum stays below the sum, so the repression branch is taken only when the repression propensity is positive. |
| EventLists.EventList.constructor | src/event/EventList.java:23-42 | Three fresh queues: binding propensities computed from the inputs with their sum, and nothing pending. |
| EventLists.EventList.NextEventType | src/event/EventList.java:69-89 | NONE exactly when every pending event is at or after MAX_VALUE; a binding choice has the earliest time of all (ties going to binding); a random-walk choice is strictly before the binding event and not after any repression event; a repression choice is strictly before every other event. |
| EventLists.EventList.GetNextEvent | src/event/EventList.java:94-115 | According to `getNextEventType`: nothing changes and null is returned, or the chosen queue's head is returned and removed from that queue alone. |
| EventLists.EventList.PopFrom | src/event/EventList.java:98-112 | The switch of `getNextEvent`: pops the head of the named queue alone, or returns null for none. |
| EventLists.EventList.IsEmpty | src/event/EventList.java:120-124 | True exactly when no binding, random-walk or repression event is pending. |
| EventLists.EventList.Size | src/event/EventList.java:129-138 | The number of random-walk events plus one for a pending binding event; repression events are not counted, so the size is 0 exactly when no binding or random-walk event is pending. |
| EventLists.EventList.SizeOfEmpty | src/event/EventList.java:120-138 | An empty list has size 0, and a list of size 0 is empty exactly when no repression event is pending. |
| EventLists.EventList.ScheduleNextTFBindingEvent | src/event/EventList.java:143-161 | Nothing changes unless there are free molecules, a positive propensity and a valid species; then the pending binding event is a TF binding event off the DNA at time + draw, carrying the propensity sum and a free molecule of the chosen species. |
| EventLists.EventList.ScheduleNextTFOnDNAEvent | src/event/EventList.java:166-193 | An immobile species schedules nothing; otherwise the walk and repression events are created, and the draw picks one (walk when u * sum < walk propensity), which is scheduled at time + draw in its own queue as the molecule's pending event; a zero total or an empty chosen event changes nothing. |
| EventLists.EventList.ScheduleNextTFRepressionEvent | src/event/EventList.java:199-203 | Below the rate threshold nothing changes; otherwise the created repression event, with the caller's scheduling flag, is queued and becomes the molecule's pending event. |
| EventLists.EventList.ScheduleNextTFRandomWalkEvent | src/event/EventList.java:208-211 | A molecule off the DNA schedules nothing; otherwise the created walk event, for this molecule at time + draw, is queued and becomes its pending event. |
| EventQueues.SumRealNonNegative | src/event/TFBindingEventQueue.java:67-73 | A sum of non-negative propensities is non-negative, and zero exactly when every term is zero. |
| EventQueues.ComputePropensity | src/event/TFBindingEventQueue.java:119-122 | Zero exactly when the association rate, the free molecule count or the availability sum is zero; otherwise at most the rate times the free count when the availability sum is within its maximum. |
| EventQueues.Propensities | src/event/TFBindingEventQueue.java:99-110 | One propensity per species, each `computePropensity` of its inputs. |
| EventQueues.PropensitySumZero | src/event/TFBindingEventQueue.java:67-73 | The total binding propensity is non-negative, and zero exactly when every species has rate 0, no free molecule or no available position. |
| EventQueues.BindingQueue.constructor | src/event/TFBindingEventQueue.java:20-29 | The constructor: the propensities of all species and their sum, and no pending binding. (The Java constructor computes them once in its own loop and then again by calling `updateProteinBindingPropensities`; both give the same values.) |
| EventQueues.BindingQueue.Add | src/event/TFBindingEventQueue.java:52-54 | The added event is the one `peek` returns, and the queue is not empty. |
| EventQueues.BindingQueue.Pop | src/event/TFBindingEventQueue.java:41-45 | Returns what `peek` returned and leaves the queue empty. |
| EventQueues.BindingQueue.Clear | src/event/TFBindingEventQueue.java:92-94 | The queue is empty. |
| EventQueues.BindingQueue.UpdateProteinBindingPropensities | src/event/TFBindingEventQueue.java:99-110 | The propensity array is recomputed from the inputs, the sum is its total, and the pending binding event is cleared. |
| EventQueues.BindingQueue.GetPropensitySum | src/event/TFBindingEventQueue.java:67-80 | The sum of all species' propensities. |
| EventQueues.MinIndex | src/event/TFRandomWalkEventQueueFR.java:45-47 | The index of an event with the smallest time, the first such index on ties. |
| EventQueues.CreateWalkEvent | src/event/TFRandomWalkEventQueueFR.java:73-107 | The empty event when the molecule is off the DNA; otherwise an event at time + draw with the molecule's move rate, whose action follows where the scaled draw falls among the cumulative thresholds: jump, hop to the drawn target, slide left by the left step, slide right by the right step, or NONE in place. |
| EventQueues.WalkEventScheduled | src/event/TFRandomWalkEventQueueFR.java:73-119 | For a real molecule the event created is empty exactly when the molecule is off the DNA, and its action is always one of NONE, jump, hop, slide left or slide right. |
| EventQueues.RandomWalkQueue.constructor | src/event/TFRandomWalkEventQueueFR.java:26-28 | The constructor: no events. |
| EventQueues.RandomWalkQueue.Size | src/event/TFRandomWalkEventQueueFR.java:69-71 | The number of pending events. |
| EventQueues.RandomWalkQueue.IsEmpty | src/event/TFRandomWalkEventQueueFR.java:62-64 | True exactly when no event is pending. |
| EventQueues.RandomWalkQueue.Peek | src/event/TFRandomWalkEventQueueFR.java:45-47 | None exactly for an empty queue; otherwise a pending event with the smallest time. |
| EventQueues.RandomWalkQueue.Add | src/event/TFRandomWalkEventQueueFR.java:35-37 | The pending events gain the added event. |
| EventQueues.RandomWalkQueue.Pop | src/event/TFRandomWalkEventQueueFR.java:55-57 | Returns what `peek` returned and removes exactly that event. |
| EventQueues.RandomWalkQueue.Remove | src/event/TFRandomWalkEventQueueFR.java:127 | Succeeds exactly when the event is pending, and then removes one occurrence of it; otherwise nothing changes. |
| EventQueues.RandomWalkQueue.ScheduleNextEvent | src/event/TFRandomWalkEventQueueFR.java:112-119 | An empty event changes nothing; otherwise it is queued and becomes the molecule's pending event, replacing any pending repression event. |
| EventQueues.RandomWalkQueue.UpdateNextEvent | src/event/TFRandomWalkEventQueueFR.java:126-132 | Nothing changes unless the molecule's pending event is queued; then that event is removed and a fresh event from `createNextEvent` is scheduled in its place. |
| EventQueues.CreateRepressionEvent | src/event/TFRepressionEventQueueFR.java:45-64 | The empty event below the rate threshold; otherwise an event at time + draw with the molecule's repression rate whose window is the molecule's footprint widened by the repression sizes and clamped to the strand, unrepressing a repressing molecule and repressing any other. |
| EventQueues.RepressionEventLabelled | src/event/TFRepressionEventQueueFR.java:45-64 | A created event for a real molecule above the threshold is never empty and is labelled "Unrepression" exactly when the molecule represses. |
| EventQueues.RepressionQueue.constructor | src/event/TFRepressionEventQueueFR.java:14-16 | The constructor: no events. |
| EventQueues.RepressionQueue.Size | src/event/TFRepressionEventQueueFR.java:41-43 | The number of pending events. |
| EventQueues.RepressionQueue.IsEmpty | src/event/TFRepressionEventQueueFR.java:34-36 | True exactly when no event is pending. |
| EventQueues.RepressionQueue.Peek | src/event/TFRepressionEventQueueFR.java:22-24 | None exactly for an empty queue; otherwise a pending event with the smallest time. |
| EventQueues.RepressionQueue.Add | src/event/TFRepressionEventQueueFR.java:18-20 | The pending events gain the added event. |
| EventQueues.RepressionQueue.Pop | src/event/TFRepressionEventQueueFR.java:26-28 | Returns what `peek` returned and removes exactly that event. |
| EventQueues.RepressionQueue.Remove | src/event/TFRepressionEventQueueFR.java:77 | Succeeds exactly when the event is pending, and then removes one occurrence of it; otherwise nothing changes. |
| EventQueues.RepressionQueue.ScheduleNextEvent | src/event/TFRepressionEventQueueFR.java:66-73 | An empty event changes nothing; otherwise it is queued and becomes the molecule's pending repression event, replacing any pending walk event. |
| EventQueues.RepressionQueue.UpdateNextEvent | src/event/TFRepressionEventQueueFR.java:76-82 | Nothing changes unless the molecule's pending repression event is queued; then it is removed and a fresh event from `createNextEvent` is scheduled in its place. |
| Events.Event.CompareTo | src/event/Event.java:27-34 | -1, 0 or 1 exactly when this event's time is before, equal to or after the other's. |
| Events.CompareToPreorder | src/event/Event.java:27-34 | `compareTo` is antisymmetric, reflexive, total and transitive, so it orders events by time. |
| Events.EmptyProteinEvent | src/event/ProteinEvent.java:19-26 | The default event is empty, both as a protein event and as an `Event`, is not a binding event, and has position NONE. |
| Events.NewProteinEvent | src/event/ProteinEvent.java:36-44 | Every field holds its constructor argument. |
| Events.ProteinEventEmptiness | src/event/ProteinEvent.java:71-74 | A protein event is empty exactly when it equals the default event up to position and flags; an empty one is an empty `Event`, and one with an action, a molecule or a finite time is not empty. |
| Events.IsEqualToEquivalence | src/event/ProteinEvent.java:67-69 | `isEqualTo` is reflexive, symmetric and transitive. |
| Events.RepressionEvent.Label | src/event/RepressionEvent.java:45-58 | "Repression" exactly for the repression action, "Unrepression" for any other action. |
| Events.RepressionEvent.ToString | src/event/RepressionEvent.java:45-58 | The text starts with the time, ": " and the action word, followed by more text. |
| Events.EmptyRepressionEvent | src/event/RepressionEvent.java:12-19 | The default repression event is empty as both kinds of event, with NONE boundaries and no follow-up scheduling. |
| Events.NewRepressionEvent | src/event/RepressionEvent.java:35-43 | Every field holds its constructor argument. |
| Events.RepressionEventLabels | src/event/RepressionEvent.java:45-62 | With distinct action ids, a repression or unrepression event is never empty, an unrepression event is labelled "Unrepression", and so is an empty event. |
| InputParams.InitialParamsBlank | src/objects/InputParameters.java:155-243 | Every field starts blank, holding the zero value of its declared type. |
| InputParams.SetSpecComplete | src/objects/InputParameters.java:607-1049 | `setParameter` never adds or removes a field. |
| InputParams.ApplyCallsComplete | src/objects/InputParameters.java:248-303 | Any series of `setParameter` calls keeps a parameter for every declared field and for nothing else. |
| InputParams.StoreHere | src/objects/InputParameters.java:611-615 | Assigning a field a value of its declared type puts that value, with the call's annotations, into that field. |
| InputParams.StoreElsewhere | src/objects/InputParameters.java:611-615 | Assigning one field leaves every other field as it was. |
| InputParams.SetParameterEffect | src/objects/InputParameters.java:607-1049 | An unrecognised name changes nothing; a recognised one replaces its field's value by the converted text, keeps its name, replaces label, description and category only by non-empty texts, and changes no other field. |
| InputParams.ConvertedFallback | src/objects/InputParameters.java:607-1049 | Unparsable numbers: every double parameter falls back to `NONE` except TF_SPECIFIC_ENERGY_THRESHOLD, which falls back to 0.0; every integer parameter falls back to `NONE`. |
| InputParams.InputParameters.constructor | src/objects/InputParameters.java:155-243 | `initialiseInputParameters`: every field blank, with its type's zero value. |
| InputParams.InputParameters.Annotate | src/objects/InputParameters.java:611-615 | The parameter holds the new value, keeps its name, and takes label, description and category from the call only when they are not empty. |
| InputParams.InputParameters.SetParameter | src/objects/InputParameters.java:607-1049 | Returns found exactly when the name is recognised, and the store becomes the one `SetSpec` gives for the call, whose effect SetParameterEffect states. |
| InputParams.InputParameters.AssignField | src/objects/InputParameters.java:607-1049 | The branch of `setParameter` for a recognised name: the field is parsed and assigned per its type. |
| InputParams.InputParameters.AssignDouble | src/objects/InputParameters.java:611-615 | The assignment to a `Parameter<Double>` field; the store keeps its fields. |
| InputParams.InputParameters.AssignInt | src/objects/InputParameters.java:617-621 | The assignment to a `Parameter<Integer>` field; the store keeps its fields. |
| InputParams.InputParameters.AssignBool | src/objects/InputParameters.java:672-676 | The assignment to a `Parameter<Boolean>` field; the store keeps its fields. |
| InputParams.InputParameters.AssignString | src/objects/InputParameters.java:654-658 | The assignment to a `Parameter<String>` field; the store keeps its fields. |
| InputParams.InputParameters.Apply | src/objects/InputParameters.java:259 | One `setParameter` call made by a loader, on top of the calls it made before. |
| InputParams.InputParameters.LoadParameters | src/objects/InputParameters.java:289-303 | The store becomes the old store with `setParameter` applied to every named pair the file reader returns, in file order. |
| InputParams.InputParameters.LoadInitialInputParameters | src/objects/InputParameters.java:248-283 | `loadInitialInputParameters(reader)`: the blocks of the default-parameters file, each flushed through `setParameter` when the next `name` arrives and once more at the end. |
| InputParams.InputParameters.ReadDefaultPair | src/objects/InputParameters.java:256-276 | One pair of the default-parameters file in `loadInitialInputParameters`: a `name` flushes the block gathered so far through `setParameter`, the other keys fill in the block. |
| InputParams.SetSpecAt | src/objects/InputParameters.java:298-300 | How one call of `loadParameters` affects the field a recognised name selects. |
| InputParams.LoadApplySnoc | src/objects/InputParameters.java:295-301 | The store after the calls of all pairs, from the store after the calls of all but the last. |
| InputParams.NamedLast | src/objects/InputParameters.java:295-301 | A last pair naming a recognised parameter sets its value. |
| InputParams.OtherLast | src/objects/InputParameters.java:295-301 | A last pair not naming a recognised parameter leaves it as it was. |
| InputParams.UnnamedKept | src/objects/InputParameters.java:289-303 | A recognised parameter that no pair of the file names keeps the value it had. |
| InputParams.LastWins | src/objects/InputParameters.java:289-303 | The value of a recognised parameter after loading is the conversion of the value of the last pair naming it, whatever came before. |
| InputParams.StepOther | src/objects/InputParameters.java:256-276 | A key that is none of the five the loader knows changes nothing. |
| InputParams.InheritedLabel | src/objects/InputParameters.java:252-276 | The variables of `loadInitialInputParameters` are never reset: a block without a label inherits the label of the block before it. |
| InputParams.RepeatedNameLastBlockSkipped | src/objects/InputParameters.java:254-282 | Two consecutive blocks with the same name: the final flush is skipped because that name was the one flushed last, so the second block's value is never applied. |
| InputParams.ExportedRepressionRateNotRead | src/objects/InputParameters.java:470-471 | The export writes the repression rate under TF_REPRESSION_RATE, a name `setParameter` does not recognise (it reads TF_REPR_RATE), so loading an exported file leaves the repression rate as it was. |
| InputParams.CorrectedExportRead | src/objects/InputParameters.java:309-549 | Every key of the corrected export is recognised and selects the field whose value was written after it, so reloading an exported file sets each exported field from its own line. |
| JUtils.ToInt | src/utils/Utils.java:44 | The 32-bit wrap-around of an integer: always an int, and the identity on ints. |
| JUtils.CountOnce | src/utils/Utils.java:175-177 | `indexOf == lastIndexOf` holds exactly when the character occurs once. |
| JUtils.ExtractParameterCases | src/utils/Utils.java:168-195 | On the trimmed line: two empty strings unless the assignment character occurs exactly once; a StringIndexOutOfBounds error when that one occurrence is the last character; otherwise the trimmed text before it and the trimmed, unquoted text between it and the last character. |
| JUtils.ExtractNotOnce | src/utils/Utils.java:174-190 | A line with no or several assignment characters gives two empty strings. |
| JUtils.ExtractOnce | src/utils/Utils.java:177-185 | With exactly one assignment character: an index error when it ends the line, otherwise the two parts around it with the last character dropped. |
| JUtils.ExtractParameterRoundTrip | src/utils/Utils.java:168-195 | A line written as `name = value;` gives back exactly the name and the value. |
| JUtils.GenerateNextInteger | src/utils/Utils.java:41-47 | min when min >= max; a value in [min, max) when the difference fits an int; an IllegalArgument error when `max - min` overflows to a non-positive bound. |
| JUtils.GenerateNextDouble | src/utils/Utils.java:26-32 | min when min >= max; otherwise a value in [min, max). |
| JUtils.Scaled | src/utils/Utils.java:29 | A draw in [0, 1) times a positive width lies in [0, width), so `min + nextDouble() * (max - min)` stays below max. |
| JUtils.NormalDouble | src/utils/Utils.java:61-64 | The larger of the scaled draw and the minimum. |
| JUtils.Round | src/utils/Utils.java:54 | `Math.round` of a double always gives a long. |
| JUtils.NormalInteger | src/utils/Utils.java:53-55 | The rounded scaled draw, narrowed to an int. |
| JUtils.NormalIntegerNearest | src/utils/Utils.java:53-55 | When the scaled draw fits an int, the result is the nearest integer, halves rounded up. |
| JUtils.ParseDouble | src/utils/Utils.java:69-77 | The parsed number when the text parses, the default otherwise. |
| JUtils.JavaParseIntegral | src/utils/Utils.java:83-107 | A parsed value always lies within the type's range. |
| JUtils.ParseInteger | src/utils/Utils.java:83-92 | Either the default or a value in int range. |
| JUtils.ParseLong | src/utils/Utils.java:98-107 | Either the default or a value in long range. |
| JUtils.ParseIntegralOfString | src/utils/Utils.java:83-107 | Parsing the decimal text of an in-range integer gives it back. |
| JUtils.ParseIntegerRoundTrip | src/utils/Utils.java:83-92 | `parseInteger` of an int's decimal text is that int. |
| JUtils.ParseLongRoundTrip | src/utils/Utils.java:98-107 | `parseLong` of a long's decimal text is that long. |
| JUtils.ParseIntegerDefault | src/utils/Utils.java:83-107 | Text without any digit always gives the default. |
| JUtils.ParseBooleanTrue | src/utils/Utils.java:113-122 | true exactly for "true" in any letter case, whatever the default. |
| JUtils.ParseBooleanRoundTrip | src/utils/Utils.java:113-122 | Parsing the printed form of a boolean gives it back. |
| JUtils.ComputeSum | src/utils/Utils.java:140-146 | The loop returns the sum of the vector. |
| JUtils.SumBounds | src/utils/Utils.java:140-146 | The sum of n ints lies between n * INT_MIN and n * INT_MAX. |
| JUtils.SumFitsLong | src/utils/Utils.java:140-146 | The long accumulator cannot overflow for any Java array of ints. |
| JUtils.ComputeMean | src/utils/Utils.java:152-161 | The loop returns the mean: the sum divided by the size, 0 for the empty vector. |
| JUtils.MeanBetween | src/utils/Utils.java:152-161 | The mean of a non-empty vector lies between any lower and upper bound of its elements. |
| JUtils.CellValues | src/utils/Utils.java:229-232 | One value per cell: the parsed cell or the default. |
| JUtils.ParseCSVLine | src/utils/Utils.java:224-236 | null exactly when splitting yields no cells; otherwise a fresh array holding each cell's parsed value or the default. |
| JUtils.CSVLineNull | src/utils/Utils.java:226-228 | Splitting yields no cells exactly for a non-empty line made only of delimiters. |
| Molecules.TotalLengthUpdate | src/environment/Cell.java:43-44 | Changing one species' list changes the number of free ids by the change of that list's length, which is what keeps `freeTFmoleculesTotal` in step with the lists. |
| Molecules.FreeMolecules.constructor | src/environment/Cell.java:503-514 | The lists given, with the total equal to the number of ids in them. |
| Molecules.FreeMolecules.RemoveLast | src/agents/TF.java:854-855 | The species' last free id leaves its list, no other list changes, and the total drops by one and stays the number of free ids. |
| Molecules.FreeMolecules.Append | src/agents/TF.java:486-487 | The id is appended to its species' list, no other list changes, and the total grows by one and stays the number of free ids. |
| Molecules.ConsistentLinksKnown | src/agents/DBP.java:354-416 | When every link is mutual, every link names NONE or a molecule of the array. |
| Molecules.Dispatch | src/agents/TF.java:66-170 | The decision of `act` (src/agents/TF.java:66-170) for event pe of a molecule at position with footprint size that is repressed or not; `redraw` says whether the direction is drawn again afterwards. |
| Molecules.DispatchHop | src/agents/TF.java:87-103 | Hops of a bound molecule that is not repressed are classified by their target: off the strand, farther than the uncorrelated displacement, the same position, or a genuine hop to a position on the strand. |
| Molecules.DispatchRepressed | src/agents/TF.java:76-86 | A repressed molecule never moves along the strand: every action other than binding unbinds it, unless its species stalls when blocked, in which case a non-jump move does nothing. |
| Molecules.RouteOfHop | src/agents/TF.java:745-750 | A hop strictly inside the footprint to the right is a slide right; strictly inside it to the left a slide left; everything else (the same position or a distance of at least the footprint) is an unbind and rebind. |
| Molecules.FillKnown | src/agents/TF.java:820 | After the strand records a known molecule over a window, every occupant it records is still NONE or a molecule of the array. |
| Molecules.TF.constructor | src/agents/TF.java:47-55 | Every given field is taken as given; no neighbours, no pending events, no sliding extremes, rates NONE, not repressing and never bound. |
| Molecules.TF.Empty | src/agents/TF.java:25-32 | The empty constructor: a free molecule of no species. |
| Molecules.TF.SetPosition | src/agents/TF.java:244-248 | `setPosition`: the old position becomes the last one. |
| Molecules.TF.ClearPosition | src/agents/TF.java:253-257 | `clearPosition`: the molecule is free; its old position becomes the last one. |
| Molecules.TF.ResetPosition | src/agents/TF.java:262-265 | `resetPosition`: the molecule stays, and its last position is where it is. |
| Molecules.TF.DirectionToString | src/agents/TF.java:207-217 | Direction 0 reads 5'->3', direction 1 reads 3'->5', and every other direction reads none, each exactly in its case. |
| Molecules.TF.IsRepressed | src/agents/DBP.java:130-142 | `isRepressed`: a free molecule is never repressed; a bound one is when some base pair under its footprint is. |
| Molecules.TF.InitSlidingExtremes | src/agents/DBP.java:151-155 | Both sliding extremes are at the position and no sliding event is counted, so the extremes are ordered and the sliding length is 0. |
| Molecules.TF.SetLeftSlidingExtreme | src/agents/DBP.java:160-165 | `setLeftSlidingExtreme`: the left extreme moves out to the position, and one more event. |
| Molecules.TF.SetRightSlidingExtreme | src/agents/DBP.java:170-175 | `setRightSlidingExtreme`: the right extreme moves out to the position, and one more event. |
| Molecules.TF.IncrementSlidingEvents | src/agents/DBP.java:180-182 | One more sliding event is counted. |
| Molecules.TF.InitObservedSlidingExtremes | src/agents/DBP.java:201-204 | Both observed extremes are at the position, so they are ordered and the observed sliding length is 0. |
| Molecules.TF.InitObservedSlidingExtremesTo | src/agents/DBP.java:209-212 | The observed extremes are the given ends and the observed sliding length is their distance. |
| Molecules.TF.SetObservedLeftSlidingExtreme | src/agents/DBP.java:217-221 | `setObservedLeftSlidingExtreme`: widen to the left, no event counted. |
| Molecules.TF.SetObservedRightSlidingExtreme | src/agents/DBP.java:226-230 | `setObservedRightSlidingExtreme`: widen to the right, no event counted. |
| Molecules.TF.UpdateRepressionRate | src/agents/DBP.java:297-305 | `updateRepressionRate`: no repression for a free molecule; a molecule that represses the DNA releases it at the remodeller's rate weakened by the species' attenuation factor; otherwise it represses at its species' rate. |
| Molecules.TF.ChangeDirection | src/agents/DBP.java:433-441 | `changeDirection` with draw the value of `nextInt(TFreadingDirection)` and newMoveRate the species' move rate in the drawn direction: only with more than one reading direction, and the move rate changes only when the direction does. |
| Molecules.TF.SetNeighboursOnBinding | src/agents/DBP.java:354-366 | `setNeighboursOnBinding`: the molecule links to the occupants just outside its footprint, and they link back to it. |
| Molecules.TF.LinkLeft | src/agents/DBP.java:356-359 | The first half of `setNeighboursOnBinding`: the link to the left occupant and back. |
| Molecules.TF.LinkRight | src/agents/DBP.java:361-364 | The second half of `setNeighboursOnBinding`: the link to the right occupant and back. |
| Molecules.TF.SetNeighboursOnUnbinding | src/agents/DBP.java:371-383 | `setNeighboursOnUnbinding`: both links of the molecule and the links back to it are cleared, so mutual links stay mutual and nobody is left pointing at the molecule. |
| Molecules.TF.SetNeighboursOnSlideLeft | src/agents/DBP.java:388-400 | `setNeighboursOnSlideLeft`: the molecule links to the occupant now just left of it, which links back, and its old right neighbour and it forget each other. |
| Molecules.TF.SetNeighboursOnSlideRight | src/agents/DBP.java:405-416 | `setNeighboursOnSlideRight`: the mirror image; the old left neighbour and the molecule forget each other, and it links to the occupant now just right of its footprint, which links back. |
| Molecules.TF.Settle | src/agents/TF.java:888-907 | The molecule's own part of a binding: it takes the position, the direction and the move rate there, and, when sliding lengths are recorded, starts both sliding windows at the new footprint. |
| Molecules.TF.BookBinding | src/agents/TF.java:888-923 | The bookkeeping of `bindMolecule` once the strand has accepted the molecule: it settles at newPosition, the species counts a binding, the last entry of the species' free list is removed (this molecule's id when it was the one `GetFreeTFmolecule` picked) and its repression rate is refreshed: the species' rate, or, for a molecule that represses the DNA, the remodeller's derepression rate divided by the attenuation factor. |
| Molecules.TF.TakeBoundState | src/agents/TF.java:888-923 | What `bindMolecule` does once the strand has accepted the molecule at newPosition: the bookkeeping, then the links to its neighbours. |
| Molecules.TF.BindMolecule | src/agents/TF.java:881-941 | `bindMolecule(n, time, newPosition, direction)`: when the strand accepts the molecule at newPosition, the molecule takes the position and direction, links to its neighbours, counts a binding, and the last entry of the species' free list is removed (this molecule's id when it was the one `GetFreeTFmolecule` picked); otherwise nothing changes and the answer is NONE. newMoveRate is the species' move rate there. |
| Molecules.TF.Occupy | src/agents/TF.java:884-886 | The strand's side of `bindMolecule`: the window is taken for the molecule when the strand accepts it, and the answer is the molecule's id or NONE. |
| Molecules.TF.StopRepressing | src/agents/TF.java:437-441 | Afterwards the molecule does not repress the strand; its repression rate becomes the derepression rate exactly when it was repressing, and is unchanged otherwise. |
| Molecules.TF.TakeUnboundState | src/agents/TF.java:459-491 | What `unbindMolecule` does once the strand has released the molecule: the species counts an unbinding, the molecule leaves its position and its neighbours, its id goes back on the species' free list, and its repression rate drops to zero. |
| Molecules.TF.ReleaseFromStrand | src/agents/TF.java:443-493 | The part of `unbindMolecule` after the repression has stopped: the strand releases the footprint when the molecule sits on it, and then the molecule takes its unbound state. |
| Molecules.TF.Vacate | src/agents/TF.java:443 | The strand's side of `unbindMolecule`: the footprint is freed when the molecule sits on the strand. |
| Molecules.TF.UnbindMolecule | src/agents/TF.java:432-494 | `unbindMolecule`: a molecule that represses the strand stops doing so and takes the derepression rate; then, when the strand releases its footprint (which it does whenever the molecule sits on it), the footprint is freed and the molecule returns to the species' free list. derepressionRate is the remodeller's. |
| Molecules.TF.HopSamePosition | src/agents/TF.java:721-736 | `hopMoleculeSamePos`: the molecule stays where it is, may turn (see ChangeDirection), the species counts a hop, and the sliding window starts again at the position. |
| Molecules.TF.RestoreAfterHop | src/agents/TF.java:772-780 | After a hop has rebound the molecule: it keeps the observed sliding window it had before the hop (when one was recorded) and its last position from before the unbinding. |
| Molecules.TF.RebindAfterHop | src/agents/TF.java:769-788 | The rebinding half of a hop, after the molecule has been unbound: it binds at newPosition, keeps the observed sliding window it had before the hop, keeps its last position from before the unbinding, and the species counts a hop instead of an unbinding and a binding. |
| Molecules.TF.RebindHop | src/agents/TF.java:752-811 | `hopMolecule` once a hop shorter than the footprint has been sent to the slides (see RouteOfHop): when the species' availability table lets the molecule bind at newPosition, or the species does not stall when blocked, the molecule unbinds; in the first case it then binds at newPosition and the hop leaves the free list as it was. A species that stalls at a blocked target does not move at all. |
| ParamFile.Outcome | src/objects/InputParameters.java:574-587 | A line yields a pair only with a non-empty name. |
| ParamFile.Outcomes | src/objects/InputParameters.java:572-588 | One outcome per line. |
| ParamFile.ReadLine | src/objects/InputParameters.java:574-587 | The outcome of line i of the file. |
| ParamFile.GetParamArray | src/objects/InputParameters.java:566-601 | The pairs of the kept lines, in order, up to the first line whose splitter throws (see ParamArrayFilters and ParamArrayAborts). |
| ParamFile.ParamArrayNamed | src/objects/InputParameters.java:578 | `getParamArray` only returns pairs with a non-empty name. |
| ParamFile.CollectWithoutAbort | src/objects/InputParameters.java:570-588 | Without an abort, every pair is collected, in order. |
| ParamFile.CollectStopsAtAbort | src/objects/InputParameters.java:570-591 | An abort keeps the pairs of the lines before it and drops all the rest. |
| ParamFile.KeptNoError | src/objects/InputParameters.java:576-577 | A kept line ends with the line ending, so the splitter throws only for the assignment character there. |
| ParamFile.OutcomeNotAbort | src/objects/InputParameters.java:574-587 | With a non-empty line ending that does not end in the assignment character, no line makes the splitter throw. |
| ParamFile.ParamArrayFilters | src/objects/InputParameters.java:566-601 | With a non-empty line ending whose last character is not the assignment character, no line aborts the reading: the pairs returned are those of every kept line with a non-empty name, in file order. |
| ParamFile.ParamArrayAborts | src/objects/InputParameters.java:570-591 | A line whose splitter throws ends the reading: the pairs returned are those of the lines before it. |
| ParamTable.FieldInTypeSet | src/objects/InputParameters.java:22-105 | A field belongs to the set of its declared type. |
| ParamTable.KindOf | src/objects/InputParameters.java:607-1049 | The conversion chosen for a field produces a value of the field's declared type. |
| ParamTable.Recognised | src/objects/InputParameters.java:607-1049 | A recognised name selects a declared field with a conversion of that field's type, and never TF_DEREPRESSION_ATTENUATION_FACTOR, which `setParameter` has no branch for. |
| ParamTable.ReprRateNotAField | src/objects/InputParameters.java:851 | No field is called TF_REPR_RATE. |
| ParamTable.RecognisedNonEmpty | src/objects/InputParameters.java:607-1049 | Only non-empty names are recognised. |
| ParamTable.SetterNameRecognised | src/objects/InputParameters.java:607-1049 | `SetterName` inverts `Recognised`: a recognised name is the setter name of the field it selects, and the setter name of every field is recognised and selects that field with that field's conversion. |
| ParamTable.RecognisedInjective | src/objects/InputParameters.java:607-1049 | Two recognised names never select the same field. |
| Pfm.ParseSegment | src/objects/PFM.java:54-84 | A row segment's letter id is a valid index of the alphabet. |
| Pfm.ParseSegments | src/objects/PFM.java:53-87 | A successful parse keeps one position per letter; the only error is a row of fewer than two characters. |
| Pfm.ParseSegmentsStep | src/objects/PFM.java:53-87 | Parsing one more segment applies that segment's outcome to the state so far. |
| Pfm.PfmOf | src/objects/PFM.java:32-112 | A missing marker and a missing separator are each reported exactly when they occur; a loaded matrix has one position per letter. |
| Pfm.ParseSegmentsInvariant | src/objects/PFM.java:70-81 | Every parsed state indexes real rows and has every row's length recorded against the motif size. |
| Pfm.AddRowKeeps | src/objects/PFM.java:79-81 | Appending a row and pointing the letter at it keeps the indexing and size invariants. |
| Pfm.ParseSegmentsErrPersists | src/objects/PFM.java:53-87 | Once a segment fails, the parse of the whole list is that failure. |
| Pfm.FillUpToProperties | src/objects/PFM.java:94-109 | Filling appends zero rows only, keeps existing rows and positions, and leaves every non-ANY letter pointing at a row. |
| Pfm.FillCompletes | src/objects/PFM.java:94-109 | After the fill every non-ANY letter has a row and every row has the motif size. |
| Pfm.LoadedWellIndexed | src/objects/PFM.java:32-112 | Every loaded matrix points its letters only at real rows. |
| Pfm.AnyRowOnlyIfGiven | src/objects/PFM.java:53-87 | Unless the text gives an ANY row, the ANY letter has no row after parsing. |
| Pfm.FillKeepsAnyNone | src/objects/PFM.java:99 | The fill never gives the ANY letter a row. |
| Pfm.OneColumnSkipped | src/objects/PFM.java:65 | A one-column row such as `A=[5]` has no ',' and is silently skipped. |
| Pfm.RowText | src/objects/PFM.java:150-162 | Each row's text starts with the letter at the row's index. |
| Pfm.RowTexts | src/objects/PFM.java:146-165 | One text per row. |
| Pfm.ToStringLabelsByIndex | src/objects/PFM.java:146-165 | `toString` labels a letter's row with that letter exactly when the row's index equals the letter's id; rows added out of letter order are mislabelled. |
| Pfm.PFM.Create | src/objects/PFM.java:32-112 | The object holds the parsed rows, positions, motif size and correctness flag. |
| Pfm.PFM.GetScorePFM | src/objects/PFM.java:121-123 | The weight of a base in a motif column is never above that column's intended maximum, so a normalised site scores at most 0. |
| Pfm.PFM.GetMaxScorePFMAsWritten | src/objects/PFM.java:131-139 | The loop as written computes `MaxScoreAsWritten`, failing on a letter without a row. |
| Pfm.PFM.GetMaxScorePFM | src/objects/PFM.java:131-139 | The corrected loop (letters without a row skipped) computes the intended column maximum. |
| Pfm.MaxScoreAsWrittenStops | src/objects/PFM.java:131-139 | Once the loop has failed it stays failed. |
| Pfm.ParseLoop | src/objects/PFM.java:53-87 | The segment loop computes `ParseSegments` and leaves the position array equal to the parsed positions. |
| Pfm.FillLoop | src/objects/PFM.java:94-109 | The zero-row loop computes the specification `Fill`. |
| Pfm.NoRows | src/objects/PFM.java:43-44 | A fresh position array with every letter at NONE. |
| Pfm.Load | src/objects/PFM.java:32-112 | The constructor fails exactly when `PfmOf` does, with the same error; otherwise the new matrix's state is `PfmOf` of the text. |
| Pfm.ComputeTFAffinityLR | src/utils/CellUtils.java:339-347 | The es-weighted score sum of the bases at the site, minus the summed column maxima unless the raw score is asked for. The maxima are the corrected ones (`MaxSum`, over the bases that have rows): Java's `getMaxScorePFM` (PFM.java:131-139) throws on the ANY letter, so with the raw score not asked for the Java method never returns. |
| Pfm.ComputeTFAffinityRL | src/utils/CellUtils.java:361-370 | The same sums over the reverse complement of the motif-long window at the site, with the same corrected maxima (`MaxSum`) where Java's `getMaxScorePFM` throws. |
| PfmScores.MaxScoreAsWritten | src/objects/PFM.java:131-139 | When the loop completes, every row id it visited was a real row having the column. |
| PfmScores.MaxScoreAsWrittenFailsWithoutRow | src/objects/PFM.java:131-139 | Any letter without a row (position NONE, as the ANY letter always has) makes `getMaxScorePFM` fail. |
| PfmScores.MaxScoreAsWrittenCounterexample | src/objects/PFM.java:131-139 | A full four-base matrix with the fifth letter ANY unmapped: `getMaxScorePFM` fails. |
| PfmScores.MaxScoreBounds | src/objects/PFM.java:131-139 | The intended maximum is non-negative, at least every entry of the column, and equal to one of them unless it is the starting 0. |
| PfmScores.MaxScoreAgrees | src/objects/PFM.java:131-139 | Whenever the loop as written completes, it returns the intended maximum. |
| PfmScores.ScoreBelowMax | src/utils/CellUtils.java:339-347 | With es >= 0 a site's summed score never exceeds the summed column maxima, so the normalised affinity is at most 0. |
| PfmScores.BestSiteScoresMax | src/utils/CellUtils.java:339-347 | A site that picks every column's maximum scores exactly the summed maxima (normalised affinity 0). |
| PyAffinity.PySliceStart | utils.py:108 | The start index of `row[-s+1:]`: `n - s + 1` for 2 <= s <= n, 0 for s = 1 (the slice `[0:]`), clamped at 0 when s exceeds n + 1. |
| PyAffinity.GetAffinityFromDf | utils.py:95-109 | Fails (index error) exactly when there are more TFs than rows, more TFs than thresholds, or some footprint is below 1. Otherwise every TF row equals `CellValue` of its old entries: the windowed, masked and floored values, then minus infinity on the trailing slice; rows past the TFs are unchanged. |
| PyAffinity.FillRow | utils.py:97-108 | Each entry of one TF row ends equal to `CellValue` of its old value: window values on the first n - s + 1 columns, minus infinity from the slice start on; every other row is unchanged. |
| PyAffinity.WindowRow | utils.py:101-106 | The first n - s + 1 columns get `max(masked value, threshold)` and the rest of the row is untouched. |
| PyAffinity.IsOpenedOnBinaryTrack | utils.py:131-134 | On a 0/1 chromatin track a window is open exactly when it lies inside the track and every position of it is 1. |
| PyAffinity.EmptyFootprintAlwaysOpened | utils.py:131-134 | With an empty footprint the test passes anywhere, even past the end of the track. |
| PyAffinity.NoThresholdMasksClosed | utils.py:98-106 | Without a threshold vector, a window inside the reachable range keeps its value when the track is open over it and becomes minus infinity otherwise. |
| PyAffinity.FiniteThresholdUnmasksClosed | utils.py:99-106 | A finite threshold un-masks a closed window: it ends at the threshold, not at minus infinity. |
| PyAffinity.FlooredAtThreshold | utils.py:106 | Every final value is at least the threshold, except in the masked trailing columns. |
| PyAffinity.SizeOneMasksWholeRow | utils.py:108 | As written: a footprint of size 1 masks every column of its row (the slice `[0:]`). |
| PyAffinity.SizeOneCounterexample | utils.py:108 | As written, a size-1 TF whose window is open and finite still ends at minus infinity. |
| PyAffinity.IntendedMaskExact | utils.py:101-108 | With the intended mask, a column is minus infinity exactly when no footprint fits or the window is masked. |
| PyAffinity.AsWrittenMatchesIntendedFromSizeTwo | utils.py:108 | The code and the intended mask agree for every footprint of size 2 or more. |
| PyMotif.MotifSize | utils.py:122-128 | 0 for the empty string; ValueError for a non-empty string without the `PWM:` marker; at least 1 for a PWM string. |
| PyMotif.MotifSizeCountsFirstSegment | utils.py:128 | For a PWM string, the size is one more than the number of commas before the first ';'. |
| PyMotif.MotifSizeDataproc | dataproc/utils.py:216-221 | A size exactly for strings with the `PWM:` marker (otherwise the script exits). |
| PyMotif.MotifSizeVersionsAgree | dataproc/utils.py:216-221 | The two `get_motif_size` versions give the same size on PWM strings; only utils.py accepts the empty string (0). |
| PyMotif.TfSizes | utils.py:115-120 | Succeeds exactly when every row's DBD has a motif size; then one size per row, each motif size + SIZELEFT + SIZERIGHT; otherwise ValueError. |
| PyMotif.PwmFootprintExceedsFlanks | utils.py:117-119 | A TF whose DBD is a PWM has a footprint of at least its flanks plus one. |
| PyMotif.BpToIdx | utils.py:136-138 | Succeeds exactly for the characters of "acgtn" and then gives their index (below 5); ValueError otherwise. |
| PyMotif.Complementary | utils.py:140-142 | Succeeds exactly for the characters of "acgtn". |
| PyMotif.ComplementaryInvolution | utils.py:140-142 | The complement stays in "acgtn", complementing twice gives the base back, and 'n' is the only fixed point. |
| PyMotif.BpToIdxDataproc | dataproc/utils.py:123-125 | Succeeds exactly for a, c, g, t and gives their index (below 4). |
| PyMotif.ComplementaryDataproc | dataproc/utils.py:127-131 | Succeeds exactly for a, c, g, t. |
| PyMotif.ComplementaryDataprocInvolution | dataproc/utils.py:127-131 | The dataproc complement is an involution on a, c, g, t and raises on 'n', which utils.py maps to index 4. |
| PyMotif.ColMaxUpToBounds | utils.py:180 | `pwm[:, i].max()` is at least every entry of column i and equals one of them. |
| PyMotif.PwmScore | utils.py:175-182 | Succeeds exactly when every base is scorable; then the score is the sum of picked entries, minus the column-maximum sum when `norm` holds, and 0 for the empty sequence; on failure the error is that of the first unscorable base. |
| PyMotif.PickedAtMostColMax | utils.py:179-180 | The sum of picked entries is at most the sum of column maxima, with equality exactly when every base picks a maximum. |
| PyMotif.NormalisedScoreBound | utils.py:175-182 | A normalised score is at most 0, and exactly 0 when every base picks a column maximum. |
| PyMotif.NBaseFailsOnFourRows | utils.py:179 | An 'n' base indexes row 4, so scoring against a four-row matrix raises an IndexError. |
| PyMotif.ParseFloats | utils.py:159 | Succeeds exactly when every field parses, giving one value per field in order; ValueError otherwise. |
| PyMotif.Segments | utils.py:152-154 | One segment per ';' of the cleaned DBD string, plus one. |
| PyMotif.ParsePwm | utils.py:152-160 | One row per ';'-segment when every segment's fields parse, and only then. |
| PyMotif.AllRowFields | utils.py:157-158 | Row j holds the value fields of segment j. |
| PyMotif.ParseRows | utils.py:157-160 | Succeeds exactly when every field list parses; row j is then the parse of field list j. |
| PyMotif.Names | utils.py:150 | The TF names in row order. |
| PyMotif.ParsedDbds | utils.py:150-160 | The parse of each row's DBD string, in row order. |
| PyMotif.PwmsErrorSticks | utils.py:148-163 | Once a row fails to parse, its error is the outcome of every longer prefix. |
| PyMotif.PwmsFirstError | utils.py:148-163 | The outcome is an error exactly when some row fails to parse, and then it is the first failure. |
| PyMotif.GetPwms | utils.py:148-163 | The result equals the specification of the whole row loop: the dictionary keyed by lower-cased names, or the first parse error. |
| PyMotif.PwmsLastRowWins | utils.py:162 | A lower-cased name is a key of the result, holding the matrix of the LAST row with that lower-cased name. |
| PyMotif.PwmsKeys | utils.py:162 | The dictionary has a key exactly for the lower-cased names of the rows. |
| PyNames.NormaliseExt | utils.py:531-532 | Empty stays empty; otherwise the result starts with '.' and is the extension with at most one '.' added. |
| PyNames.NormaliseExtIdempotent | utils.py:531-532 | Normalising an extension twice changes nothing more. |
| PyNames.PathJoin | utils.py:534 | An absolute second part is the result; otherwise exactly one '/' separates the parts (none after an empty first part). |
| PyNames.PathJoinPlain | utils.py:534 | Joining a plain directory and a relative file name puts exactly one '/' between them. |
| PyNames.GetNameDataproc | dataproc/utils.py:174-177 | The exact path: the directory joined to prefix + name + id + normalised extension. |
| PyNames.Candidates | utils.py:537-539 | The listed files that start with prefix + name and end with id + extension, in listing order. |
| PyNames.LastClean | utils.py:545-547 | The last listed file whose name does not contain "0.0s", if any. |
| PyNames.LastCleanIsLast | utils.py:545-547 | The chosen file is the last clean one: every later file contains "0.0s". |
| PyNames.GetName | utils.py:530-548 | Returns the exact path when it exists, otherwise the last clean candidate joined to the directory, otherwise the exact path. |
| PyNames.CollectCandidates | utils.py:536-539 | Collects exactly `Candidates` of the listing. |
| PyNames.PickLastClean | utils.py:545-547 | Chooses exactly `LastClean` of the candidates, keeping the default when none is clean. |
| PyNames.NameOfChoice | utils.py:530-548 | What `get_name` returns: the exact path, or the listed candidate that is clean and comes after every other clean candidate, joined to dir. |
| PyNames.NameOfLastClean | utils.py:545-547 | When the exact file is missing and the candidates list has a clean entry at k followed only by "0.0s" entries, that entry is chosen. |
| PyNames.NameVersionsAgree | dataproc/utils.py:174-177 | The two versions agree whenever the exact file exists or no candidate is clean. |
| PyParams.WriteDictToParams | utils.py:591-596 | The text written is the `key = value;` lines of the entries, in order. |
| PyParams.ParseParamRow | utils.py:580-589 | Blank and '#' lines give nothing; otherwise the stripped first two '='-fields of the line without ';', or an IndexError for a line without '='. |
| PyParams.ReadParamsToDict | utils.py:580-589 | The dictionary equals the specification of the whole line loop (each line's entry overwriting earlier ones), or the first IndexError; the same loop serves dataproc/utils.py:205-214. |
| PyParams.ReadRowsLastWins | utils.py:587 | When a key appears in the file, the dictionary holds the value of its last line. |
| PyParams.ReadWrittenParams | utils.py:580-596 | Reading back what `write_dict_to_params` wrote gives the dictionary back, for entries whose keys and values round-trip. |
| PyParams.SecondEqualsTruncates | utils.py:586-587 | A second '=' truncates the value: everything from it on is lost, and every ';' of the line is deleted. |
| PyParams.ParseParamRowDataproc | dataproc/utils.py:205-214 | Blank and '#' lines give nothing; otherwise the whitespace tokens 0 and 2 of the line without ';', the value without '"'; an IndexError for fewer than three tokens. |
| PyParams.DataprocNeedsSpaces | dataproc/utils.py:211-212 | The dataproc reader needs whitespace around '=': a line without any whitespace, such as `K=V;`, raises an IndexError. |
| PyParams.Unquoted | dataproc/utils.py:212 | Every value of the dictionary without its '"' characters, keys unchanged. |
| PyParams.ParseWrittenLineDataproc | dataproc/utils.py:211-212 | A written line reads back, for keys and values that are single words without ';'. |
| PyParams.ReadWrittenParamsDataproc | dataproc/utils.py:205-214 | Reading back a written file with the dataproc reader gives the dictionary back, with '"' removed from the values. |
| PyTargetSites.SpanOf | utils.py:513-515 | Start, end and strand are read in that order; the first field that is missing or not an integer decides the error. |
| PyTargetSites.ParseSiteLine | utils.py:510-524 | A row exactly when span, repression rate and affinity can all be read; otherwise the first exception in the order utils.py raises them. |
| PyTargetSites.RowOfSpan | utils.py:516-523 | The row carries the name, start, size end + 1 - start, strand, repressor flag and the affinity under the strand-qualified or bare column name. |
| PyTargetSites.ParseSiteLineDataproc | dataproc/utils.py:158-168 | A row exactly when repression rate, span and energy can be read, raising in the dataproc order. |
| PyTargetSites.RowOfSpanDataproc | dataproc/utils.py:162-167 | The dataproc row: the column name always carries the strand. |
| PyTargetSites.RowsOf | utils.py:510-524 | The rows of all lines in file order when every line parses, otherwise the first line's exception. |
| PyTargetSites.RowsOfFirstError | utils.py:510-524 | On failure the exception is the one raised by the first line that fails. |
| PyTargetSites.CreateTargetSiteDf | utils.py:506-527 | The table equals `RowsOf` of the file's lines; the same loop serves dataproc/utils.py:154-171. |
| PyTargetSites.RowsOfPrefixError | utils.py:510-524 | An exception in a prefix of the file is the exception of the whole file. |
| PyTargetSites.SiteLineSpan | utils.py:511-515 | The span of a site line: its start, end and strand are read back. |
| PyTargetSites.ReadSiteLine | utils.py:510-523 | utils.py reads a site line back: the row has the line's name, start, size `end + 1 - start` and strand, and the affinity found under its column name. |
| PyTargetSites.ReadSiteLineDataproc | dataproc/utils.py:158-167 | dataproc/utils.py reads a site line back in the same way, always strand-qualified. |
| PyTargetSites.ErrorOrderDiffers | utils.py:511-522 | The two versions raise different exceptions on a line with fewer than three fields whose TF is unknown: utils.py parses the span first and raises an IndexError, dataproc/utils.py looks up the TF first and raises a KeyError. |
| PyTargetSites.SingleStrandUsesBareName | utils.py:516-522 | With the landscape single-stranded, utils.py looks sites up under the bare TF name. |
| PyVectors.DoubleEachElement | utils.py:217-219 | Twice as long, with elements 2i and 2i+1 both equal to element i. |
| PyVectors.SumNeighbours | utils.py:211-215 | ValueError exactly for odd lengths; otherwise half as long, element i the sum of elements 2i and 2i+1. |
| PyVectors.SumNeighboursPairs | utils.py:215 | Each pair sum is the sum of the two strand entries of that TF. |
| PyVectors.SumOfDoubled | utils.py:211-219 | Summing the neighbours of a doubled vector gives twice the original vector. |
| PyVectors.IsBothDirections | utils.py:325-346 | Two arguments: False for one column per TF, True for two, ValueError otherwise; one argument: always an error; any other count: ValueError. |
| PyVectors.OneArgumentBranchFails | utils.py:338-344 | The one-argument branch never succeeds, whatever the affinity table. |
| PyVectors.OneArgumentCounterexample | utils.py:338-344 | An input on which the one-argument branch fails although the table is two-stranded. |
| PyVectors.IsBothDirectionsFromAffinity | utils.py:340-344 | Two strands exactly when the last column label contains "3'5'"; an error for a table without columns. |
| PyVectors.IntendedDetectsReverseStrand | utils.py:340-344 | A table whose last column is some TF's reverse-strand column is recognised as two-stranded. |
| PyVectors.StrandCountFromLayout | utils.py:329-337 | For a well-formed pair of tables the two-argument branch agrees with the column layout: one column per TF means one strand, two means both. |
| TargetSites.RescaledBounds | src/objects/TargetSite.java:128-136 | When the TF fits on the DNA the rescaled interval lies inside [0, DNAsize − TFsize] with its start not after its end; an interval already inside with start before end is kept, and a reversed one that starts inside becomes the one position after its start. |
| TargetSites.RescaledWraps | src/objects/TargetSite.java:128-136 | At the largest int the 32-bit `relStart + 1` wraps to the smallest int, so the rescaled start is DNAsize - TFsize and the end 0: start after end. |
| TargetSites.RescaleInterval | src/objects/TargetSite.java:128-136 | The ends computed assignment by assignment are the rescaled interval, whose bounds RescaledBounds states. |
| TargetSites.TargetSite.InCell | src/objects/TargetSite.java:39-51 | The constructor given the cell: the end is taken back by the TF's size, the interval rescaled, and the size computed afterwards, so it is at least one. |
| TargetSites.TargetSite.FromDescription | src/objects/TargetSite.java:65-76 | The description-based constructor: the end is not taken back by the TF's size, and the size is computed before the rescaling, with the TF's size subtracted there instead. |
| TargetSites.TargetSite.Parse | src/objects/TargetSite.java:89-116 | The constructor from a description `TF<delimiter>region`: the TF is looked up by the trimmed prefix; a description without the delimiter or naming no species stops the simulation. Otherwise the site is the one the cell-based constructor builds, with the TF's total size. |
| TargetSites.DescribedSize | src/objects/TargetSite.java:71 | The size computed before rescaling is at least one. |
| TargetSites.EqualsIsKey | src/objects/TargetSite.java:141-143 | `equals` holds exactly when the keys agree, so it is an equivalence relation. |
| TargetSites.ConstructorsCompared | src/objects/TargetSite.java:39-76 | For a region well inside the DNA the two constructors agree on the start and on the size, and the description-based one ends TFsize positions later. |
| SitesAndGroups.ToBeReachedDiffers | src/objects/TargetSitesAndGroups.java:131-144 | Two sites, one per group, group 0 reached and group 1 not: the loop as written only ever looks at group 0 and answers that nothing is left. |
| SitesAndGroups.GroupsTextQuotes | src/objects/TargetSitesAndGroups.java:149-158 | With no quote inside the texts, the string holds exactly two quotes per group. |
| SitesAndGroups.OccupancyTextLength | src/objects/TargetSitesAndGroups.java:163-176 | The occupancy string is four characters per group less the last separator. |
| SitesAndGroups.OccupancyTextAt | src/objects/TargetSitesAndGroups.java:163-176 | Group k's occupancy flag, " 1" or " 0", sits at offset 4k of the string, preceded by ", " for every group but the first. |
| SitesAndGroups.UpdateGroup | src/objects/TargetSitesAndGroups.java:108-120 | The group's statistics become `Updated` of the old ones for the evaluated expression and the time, whose effect UpdatedFacts states. |
| SitesAndGroups.TargetSitesAndGroups.constructor | src/objects/TargetSitesAndGroups.java:25-28 | No sites, no groups, no occupancy array, and the store is valid. |
| SitesAndGroups.TargetSitesAndGroups.AddTargetSite | src/objects/TargetSitesAndGroups.java:45-64 | `addTargetSite(site)`: the index of the equal site already there, with nothing changed; otherwise the site is appended with its index as id and the occupancy flags are reallocated, all false. |
| SitesAndGroups.TargetSitesAndGroups.UpdateTargetSiteStatistics | src/objects/TargetSitesAndGroups.java:103-123 | `updateTargetSiteStatistics(tsID, time, bound)`: the site's flag is set, then every group the site belongs to is updated once with its expression's value on the new flags (a group listed twice is updated twice, which changes nothing more); other groups are left alone. |
| SitesAndGroups.TargetSitesAndGroups.AreTargetSitesToBeReached | src/objects/TargetSitesAndGroups.java:131-144 | `areTargetSitesToBeReached()`, reading each site's group list by the group ids it holds: true iff some site belongs to a group never reached. |
| SitesAndGroups.TargetSitesAndGroups.GetTargetSiteGroupsString | src/objects/TargetSitesAndGroups.java:149-158 | The quoted group texts joined as GroupsText lays them out, whose quote count GroupsTextQuotes states. |
| SitesAndGroups.TargetSitesAndGroups.GetTargetSiteGroupsOccupancyString | src/objects/TargetSitesAndGroups.java:163-176 | The groups' occupancy flags laid out as OccupancyText, whose length and layout OccupancyTextLength and OccupancyTextAt state. |
| TargetSitesGroups.PopProductsKeeps | src/objects/TargetSitesGroup.java:68-71 | The pops write nothing but spaces and operators, and keep the stack made of operators. |
| TargetSitesGroups.PopToParenKeeps | src/objects/TargetSitesGroup.java:79-82 | Popping to the bracket writes only spaces and operators, so the output keeps its operands and gains no `)`, and the stack stays made of operators. |
| TargetSitesGroups.PopAllKeeps | src/objects/TargetSitesGroup.java:91-94 | Emptying the stack writes only spaces and operators, so the output keeps its operands and gains no `)`. |
| TargetSitesGroups.StepKeepsOperands | src/objects/TargetSitesGroup.java:65-89 | One character: the output gains that character's operands only, and the stack stays made of operators. |
| TargetSitesGroups.ShuntKeepsOperands | src/objects/TargetSitesGroup.java:64-89 | After any prefix, the characters the loop copies are exactly the input's operands, in order, no `)` was written, and the stack holds operators only. |
| TargetSitesGroups.RpnOutputOperands | src/objects/TargetSitesGroup.java:64-94 | The whole output keeps the operands of the expression in order and never holds `)`. |
| TargetSitesGroups.PlainCopied | src/objects/TargetSitesGroup.java:86-88 | An expression with no operator, bracket or space is copied character by character and leaves the stack empty. |
| TargetSitesGroups.UpdatedFacts | src/objects/TargetSitesAndGroups.java:108-120 | The counter grows by one exactly on a transition into occupancy, the first reaching time is set only once, occupied time grows by the time since the last update only while occupied, and a second pass with the same value at the same time changes nothing. |
| TargetSitesGroups.TargetSitesGroup.constructor | src/objects/TargetSitesGroup.java:32-42 | A new group: never reached, never occupied, no sites. |
| TargetSitesGroups.TargetSitesGroup.AddTargetSite | src/objects/TargetSitesGroup.java:47-49 | The site id is appended to the group's list. |
| TargetSitesGroups.TargetSitesGroup.UpdateTimesReachedStatistics | src/objects/TargetSitesGroup.java:113-118 | `updateTimesReachedStatistics(time)`: the first time is kept once set; the count always grows. |
| TargetSitesGroups.TargetSitesGroup.UpdateOccupancyStatistics | src/objects/TargetSitesGroup.java:126-128 | The occupied time grows by the time since the last update. |
| TargetSitesGroups.TargetSitesGroup.UpdateLastTimeUpdate | src/objects/TargetSitesGroup.java:133-135 | The last update time becomes the given time. |
| TargetSitesGroups.TargetSitesGroup.GenerateRPN | src/objects/TargetSitesGroup.java:54-102 | `generateRPN(str)`: false and nothing built for an empty expression; otherwise the shunting loop over the characters, the stack emptied into the output, and the trimmed output kept. |
| TargetSitesGroups.ShuntChar | src/objects/TargetSitesGroup.java:65-89 | One character of the switch, fall-throughs included, as ShuntStep, whose effect on operands StepKeepsOperands states. |
| TargetSitesGroups.PopWhileProducts | src/objects/TargetSitesGroup.java:68-71 | Pops `*` and `/` off the stack's top, writing " c" for each, as PopProducts, which PopProductsKeeps shows keeps the operands. |
| TargetSitesGroups.PopWhileNotParen | src/objects/TargetSitesGroup.java:79-82 | Pops until `(`, writing " c" for each, as PopToParen, which PopToParenKeeps shows keeps the operands. |
| TfFileParser.RowValues | src/utils/TFfileParser.java:96-369 | One value per field of the table. |
| TfFileParser.SpeciesNumbered | src/utils/TFfileParser.java:96-380 | The species are numbered 0, 1, 2, … in row order, each has a positive copy number, none is cognate, and there is one per row with a positive copy number. |
| TfFileParser.SpeciesFromRows | src/utils/TFfileParser.java:96-380 | Every kept species comes from a data row: its fields are that row's fields. |
| TfFileParser.RowValueSource | src/utils/TFfileParser.java:96-369 | Each value has its field's kind; a missing column gives the default; a present integer column gives the default or a 32-bit int; a double that does not parse gives the default; a text column gives the cell's text. |
| TfFileParser.CheckHeaders | src/utils/TFfileParser.java:48-53 | True exactly when every header name is a column of the table. |
| TfFileParser.ReadRows | src/utils/TFfileParser.java:96-382 | The species of all the rows, numbered as they are kept, which SpeciesNumbered and SpeciesFromRows describe. |
| TfFileParser.TFfileParser.constructor | src/utils/TFfileParser.java:23-388 | The constructor: a table that loaded with uniform rows has every row read; `hasAllHeaders` says whether every header name is a column and `parsed` whether there was a data row. |
| TfSpecies.ThresholdsOrdered | src/objects/TFSpecies.java:150-153 | With non-negative probabilities and a jumping probability at most 1 the thresholds are ordered, and each band between two of them is as wide as the probability of its move. |
| TfSpecies.MaxAffinityScaled | src/objects/TFSpecies.java:115-121 | The summed energy is es times the number of bases other than ANY. |
| TfSpecies.CopiedDbd | src/objects/TFSpecies.java:114-119 | dbdLength entries: the strand's bases from pos while the strand lasts, then 0. |
| TfSpecies.CopyDbd | src/objects/TFSpecies.java:114-121 | The domain the loop builds is CopiedDbd, and the affinity it sums is es per copied base other than ANY (CopiedAffinity). |
| TfSpecies.CopiedAffinity | src/objects/TFSpecies.java:116-121 | Only the copied bases count towards the maximal affinity; the padding does not. |
| TfSpecies.ParseDbdSeq | src/objects/TFSpecies.java:283-299 | A SEQ domain: its size is its number of recognised letters, it is cognate iff that is non-zero, every id is a base id, and the maximal affinity is the sum `MaxAffinity`: es per base other than ANY. |
| TfSpecies.ParseDbdIsSeq | src/objects/TFSpecies.java:283 | A text that starts with the SEQ marker is parsed as a SEQ domain. |
| TfSpecies.ParseDbdPfm | src/objects/TFSpecies.java:300-305 | A weight-matrix domain: the size is the matrix's motif size and it is cognate iff the matrix is correct. |
| TfSpecies.ParseDbdPfmMarkerStops | src/objects/TFSpecies.java:300-301 | A domain marked as a PFM but not as a PWM always stops the simulation: the matrix reader accepts only the PWM marker. |
| TfSpecies.LandscapeSevenFields | src/objects/TFSpecies.java:322-334 | A seven-field landscape: the 1-based position and affinity columns become 0-based, and the simulation stops when the position column becomes negative. |
| TfSpecies.LandscapeSixFields | src/objects/TFSpecies.java:335-341 | A six-field (or longer, not seven) landscape has no position column and reads the columns one field earlier. |
| TfSpecies.FileFormsNeedSize | src/objects/TFSpecies.java:318-321 | Both file forms stop when the motif size is negative, or zero without flanks. |
| TfSpecies.SeqsFileLoaded | src/objects/TFSpecies.java:376-414 | A loaded sequence file has a non-negative default value and a readable, named file. |
| TfSpecies.ParseDbdUnknown | src/objects/TFSpecies.java:281-420 | A text with none of the markers leaves the domain unloaded, with size 0. |
| TfSpecies.NamedSeqAffinityAsWritten | src/objects/TFSpecies.java:207-210 | As written, every SEQ domain gets maximal affinity 0, whatever its bases and energy. |
| TfSpecies.NamedSeqAffinity | src/objects/TFSpecies.java:289-295 | Corrected, a SEQ domain's maximal affinity is the random constructor's sum over its bases: es per base other than ANY (`MaxAffinityScaled`). |
| TfSpecies.MaxAffinityNonZero | src/objects/TFSpecies.java:289-295 | A non-zero energy and a base other than ANY give a non-zero sum. |
| TfSpecies.NamedSeqAffinityDiffers | src/objects/TFSpecies.java:207-210 | As soon as a SEQ domain has a base other than ANY and the energy is not zero, the affinity as written differs from the intended one. |
| TfSpecies.InitialDropInside | src/objects/TFSpecies.java:218-223 | The relative drop ends within the region, and starts inside it or at 0. |
| TfSpecies.InitialDropAtStart | src/objects/TFSpecies.java:218-223 | A drop that starts at the region's very start is replaced by the whole region. |
| TfSpecies.TFSpecies.PlaceDrop | src/objects/TFSpecies.java:218-223 | The drop kept, with its position relative to the region, exactly when it starts after the region start and ends inside it; otherwise both become the whole region. |
| TfSpecies.SiteRowsAsWrittenOne | src/objects/TFSpecies.java:548-550 | As written, exactly one row is ever marked, whatever the region. |
| TfSpecies.SiteRowsCover | src/objects/TFSpecies.java:547-563 | The corrected rows cover the whole region inside the DNA. |
| TfSpecies.SiteRowsDiffer | src/objects/TFSpecies.java:548-550 | The region [0, 3) of a DNA of length 3: only position 0 is marked as written, all three corrected. |
| TfSpecies.SumAffinity | src/objects/TFSpecies.java:289-295 | The sum the loop builds is es once per base other than ANY, the value MaxAffinityScaled gives in closed form. |
| TfSpecies.ParseDbdFields | src/objects/TFSpecies.java:281-420 | The fields after the step-by-step parse are those the ParseDbd function gives, whose per-form properties the ParseDbd lemmas state. |
| TfSpecies.TFSpecies.constructor | src/objects/TFSpecies.java:98-178 | The fields both constructors set: the total footprint is the flanks plus the motif, and the thresholds are cumulative; no cooperativity yet (the named constructor marks the species cooperative anyway). |
| TfSpecies.TFSpecies.CountHop | src/agents/TF.java:782-787 | A hop that unbound and rebound a molecule counts as one hop, not as an unbinding and a binding. |
| TfSpecies.TFSpecies.Random | src/objects/TFSpecies.java:98-178 | The constructor of the random species: named "TF" + id, its DBD copied from the strand at pos, its total size counting all dbdLength entries, and not cooperative. |
| TfSpecies.TFSpecies.Named | src/objects/TFSpecies.java:184-269 | The named constructor: the DBD text parsed (with `es` already assigned, see `NamedDbdAsWritten`), the simulation stopped when parsing stops it, the initial drop placed in the region, and the species marked cooperative. |
| TfSpecies.TFSpecies.DirectRight | src/objects/TFSpecies.java:640-651 | The stored cooperativity for species1 exactly when there is one and each of its two directions is NONE or equal to the given one; otherwise none. |
| TfSpecies.TFSpecies.DirectLeft | src/objects/TFSpecies.java:662-673 | `getDirectCooperativityLeft(speciesID1, direction0, direction1)`: the stored directions compared crosswise. |
| TfSpecies.TFSpecies.LeftIsSwappedRight | src/objects/TFSpecies.java:640-673 | The left lookup is the right lookup with the two given directions swapped. |
| TfSpecies.TFSpecies.IsCooperativeSite | src/objects/TFSpecies.java:568-570 | In a valid species, a position and direction is a cooperative site exactly when the site table holds the index of one of its cooperativities there. |
| TfSpecies.TFSpecies.GetCooperativity | src/objects/TFSpecies.java:575-577 | The cooperativity whose id the site table holds at the position and direction. |
| TfSpecies.TFSpecies.InitCooperativeSites | src/objects/TFSpecies.java:534-541 | A DNAlength by TFdirections table, every cell NONE. |
| TfSpecies.TFSpecies.SetSiteAsCooperative | src/objects/TFSpecies.java:547-563 | `setSiteAsCooperative(region, coopID)`, with the rows clipped to the DNA (see `SiteRowsAsWritten` for the rows as written): every cell of the rows, in the cooperativity's direction or in all of them, gets the id; nothing else changes. |
| TfSpecies.TFSpecies.MarkRow | src/objects/TFSpecies.java:557-559 | The inner loop: one row, the directions [startDir, endDir). |
| TfSpecies.TFSpecies.AddCooperativity | src/objects/TFSpecies.java:504-528 | `addCooperativity(coop, DNAlength, TFdirections)`: the cooperativity is appended and the species becomes cooperative; a DNA-based one marks its site (creating the table on first use) with its index, a direct one is stored under its partner species. |
| TfSpecies.TFSpecies.MarkDnaCooperativity | src/objects/TFSpecies.java:516-521 | The DNA-based half of `addCooperativity`: create the table on first use, then mark the site. |
| TsFileParser.FirstSplit | src/utils/TSfileParser.java:72 | The index of the first space, tab or bracket: none of the characters before it is one, and it is one unless it is the length. |
| TsFileParser.TokensClean | src/utils/TSfileParser.java:72 | The pieces are non-empty and hold no separator. |
| TsFileParser.TokensJoin | src/utils/TSfileParser.java:72 | Put together in order, the pieces are the line without its separators. |
| TsFileParser.LinkedNewGroup | src/utils/TSfileParser.java:66 | A new group with no site keeps the links. |
| TsFileParser.LinkedNewSite | src/utils/TSfileParser.java:77-79 | A new site in no group keeps the links. |
| TsFileParser.Link | src/utils/TSfileParser.java:80-81 | The group's site list gains newID last and site newID's group list gains the group id last; no other site's groups change, and every membership stays recorded on both sides. |
| TsFileParser.GroupLines | src/utils/TSfileParser.java:26-31 | At most one group per line, each with a non-empty text. |
| TsFileParser.SiteDescriptions | src/utils/TSfileParser.java:74-86 | The descriptions that give sites, trimmed, in order: never more than the pieces, each non-empty, naming a species and with a parsed region. |
| TsFileParser.LineErrorPrefix | src/objects/TargetSite.java:99-115 | Once a description stops the simulation, the pieces after it do not change the outcome: the first failing description decides. |
| TsFileParser.FileErrorPrefix | src/utils/TSfileParser.java:26-31 | Once a line stops the simulation, the lines after it do not change the outcome. |
| TsFileParser.TokenStep | src/utils/TSfileParser.java:74-88 | One more piece keeps the loop's invariants: the descriptions read so far stay keyed by the group's ids, and the expression stays their substitution. |
| TsFileParser.TSfileParser.ReadNextLine | src/utils/TSfileParser.java:26-30 | After lines that did not stop the simulation, one more line either stops it with the file's first error or extends the groups by its own. |
| TsFileParser.TSfileParser.ReadTokens | src/utils/TSfileParser.java:74-88 | The loop over a line's pieces: the error is the first failing description; otherwise every description that gives a site is keyed by its id in the group, in order, and the expression is their substitution. |
| TsFileParser.TSfileParser.ReadTokensFrom | src/utils/TSfileParser.java:74-88 | The same loop from piece j on: given that the pieces before j did not fail, the result is the whole line's error, or all its descriptions keyed and substituted, with the sites before kept in place and the new ones freshly made. |
| TsFileParser.TSfileParser.ReadNextToken | src/utils/TSfileParser.java:75-87 | After pieces that did not fail, one more piece either fails with the line's first error or keeps the descriptions keyed and the expression substituted. |
| TsFileParser.TSfileParser.Empty | src/utils/TSfileParser.java:19-22 | The state before the first line. |
| TsFileParser.TSfileParser.ReadLines | src/utils/TSfileParser.java:18-43 | The error is the first line, in file order, holding a description without a species (FileError), and none otherwise; without one, each non-blank line adds one group with its trimmed text, in order, and the state stays valid. |
| TsFileParser.TSfileParser.ReadLine | src/utils/TSfileParser.java:26-30 | The error is the line's first description without a species, and a blank line never fails; otherwise a non-blank line adds its trimmed text as the last group. |
| TsFileParser.TSfileParser.ExtractTargetSitesAndGroups | src/utils/TSfileParser.java:64-93 | The error is the first piece without a species (LineError). Otherwise one new group with the next id and the line's text is appended. Its k-th site id points at a site with the key of the k-th description that gives a site. Its RPN is that of the text with each such description replaced by its id and the operators replaced. |
| TsFileParser.TSfileParser.ReadToken | src/utils/TSfileParser.java:75-87 | Blank pieces and operators change nothing. A description fails exactly when it names no species, and gets an id exactly when its region parsed. With an id, the expression has the description replaced (`replaceAll`) by the id, the site has the description's key, and the site and group record each other. |
| TsFileParser.TSfileParser.ReadTargetSite | src/utils/TSfileParser.java:49-58 | The error is exactly the description's: no delimiter, or a TF naming no species. Then, and when the region did not parse, the id is NONE and nothing changes. Otherwise the id points at a site with the description's key, appended to the group, and that site alone gains the group id. |
| TsFileParser.TSfileParser.ParseSite | src/objects/TargetSite.java:89-116 | Fails with NoTfSpecies without the delimiter and with UnknownTf when the TF names no species, exactly as DescriptionError says; otherwise a fresh site in no group, with the current site id, the parsed region and the description's key. |
| TsFileParser.TSfileParser.NewGroup | src/utils/TSfileParser.java:66 | `new TargetSitesGroup(TSGid, text)`: the group a line builds, with no site yet. |
| TsFileParser.TSfileParser.AddSite | src/utils/TSfileParser.java:79-84 | The id points at a site equal to the new one: the new one appended, or the equal one already there. The group's site list gains that id, and that site alone gains the group id, so both sides stay linked. |
| TsFileParser.TSfileParser.Register | src/utils/TSfileParser.java:79-84 | `tsg.addTargetSite(ts)` and the id counter: the site is appended, or the equal one found. |
| TsFileParser.TSfileParser.CommitGroup | src/utils/TSfileParser.java:89-92 | The end of a line: the group's expression is generated and the group becomes the last one. |
| TsFileParser.TSfileParser.AppendGroup | src/utils/TSfileParser.java:91-92 | The group is appended as the last one and the group counter moves on, keeping every site and group linked both ways. |

## Left out

**I/O and runtime**
- File reading (`readLinesFromFile`, `open`): every reader takes the file's lines, or its bytes, as a parameter.
- File output and printing (`printAffinities`, `printFinalPosition`, `printDNAoccupancy`, `Cell.print*`, `printDebugInfo`, `ProteinEvent.toString`, debug warnings): output only. Of `exportParameterFile` only the list of keys it writes is modelled; creating the temporary file is not.
- `Cell`'s run loop (`run`, `runInterval`, `runUntilTSReached`, `executeNextEvent`): simulation orchestration tied to wall-clock time and output files.
- The Swing user interface and `SimulatorGUI`'s `synchronized` pausing: user interface and concurrency.
- `java.util.Random`, `Gillespie`, and the Python `np.random` calls: random draws and `exp`/`log` are passed in as parameters, so the distributions are not modelled.
- `CSVparser`, `DNAregion`, `RPNtree`, `TargetSitesGroupLogic`, `TFcooperativity`, `BasePairs` and `Constants` are not part of this model. They appear as small datatypes, functions or parameters standing in for what the core uses of them.
- `Remodeller`: it calls DNA and Cell methods that this snapshot does not define.
- `Parameter`, `Pair`, `RepressionData` and `TFEventQueue`: plain holders and an interface, used only as types.

**Numerics**
- Floating point: scores are exact reals. NaN, infinities other than the landscape's minus infinity, and rounding are not modelled. `roundTwoDecimals` is not modelled.
- `exp`/`log` formulas (`computeAvgMoveRate`, `computeBindingEnergy`, `computeDNABoundTime`, the sliding-probability ratios of `computeTFaffinityLandscape`): floating-point only.
- `long` arithmetic and `int` overflow are modelled only where a Java cast or `Math.round` is applied. `Math.abs` at the minimum `int` is not modelled.
- CellUtils.ComputeTFAffinities: requires `1 <= sizeTotal <= length + 1`. Otherwise Java throws `ArrayIndexOutOfBoundsException` at CellUtils.java:299-320. That throw is not modelled.
- Pfm.ComputeTFAffinityLR: requires every base at the site to have a row (`SiteReadable`). On a base without one, such as ANY ('N'), `getScorePFM` calls `get(-1)` and throws (PFM.java:121-123). That throw is not modelled.
- Pfm.ComputeTFAffinityRL: requires the same of the reverse-complemented window, for the same reason.
- EventQueues.ComputePropensity: requires a non-zero maximum availability sum. Java divides by it and would produce NaN or infinity, which the real-valued model does not have.

**Python post-processing**
- `process_results` (utils.py): file-loading orchestration, and its `np.exp` normalisation is floating point. `tf_num` is bound only in the double-strand branch, so the single-strand path raises a `NameError` where it is first used. The weights are `exp(affinity)`, not `exp(-affinity)`.
- Directory walking and pandas wrappers (`get_results_by_ids`, `get_results_match_params`, `remove_results_not_having_these_ids`, `read_wig_to_dataframe`, `read_csv_to_dataframe`, `get_occupancy_from_df`): operating-system and library calls.
- The scripts `dataproc/site_occupancy.py`, `dataproc/run_experiments.py` and `biodata/*/tf_file_parser.py`: plotting, subprocesses and one-off data preparation.
- Python `int()` is modelled for an optional sign and ASCII digits around stripped whitespace. Underscores and non-ASCII digits are not.
- Text.IsPyWs: only the ASCII whitespace characters are whitespace for `str.strip`/`str.split`. Python's Unicode whitespace (U+0085, U+00A0, U+2028 and the like) is not.
- DnaSequences.GetSeqIds: `toUpperCase` is modelled for 'a' to 'z' only. A Unicode letter whose upper case is longer would shift the ids in Java.
- DnaFiles.Recognised: the same `toUpperCase` (CellUtils.java:392-409) is modelled by DnaFiles.UpperChar for 'a' to 'z' only. Other letters with an upper case that is a base letter are not recognised by the model.
- Text.Lower: `str.lower` (utils.py:162, dataproc/utils.py:146) lower-cases only 'A' to 'Z'. Unicode case mapping is not modelled.

**Simulator behaviour**
- `slideLeftMolecule`/`slideRightMolecule`, setting and resetting cooperativity between molecules, the sliding-length lists, and executing an action in `act` (only the choice of the action is modelled).
- The propensity refresh inside `bindMolecule`/`unbindMolecule`, and the derepression scheduling call in `unbindMolecule`.
- Dna.DNA.Derepress: the re-closing half of `recomputeTFAffinityLandscapeOnDerepression` (DNA.java:1023-1049) is not modelled: the footprints around bound molecules and around base pairs that stay repressed are not closed again. The re-opening half is modelled.
- `modifyRepressionScore`.
- `hopSTDdisplacement`, the repression counters, `updateBoundTime`, and the target-site statistics updated from `act`.
- Molecules.TF.RebindHop: when the random-direction rebind fails, Java calls `System.exit`. The model returns NONE. After a hop only LinksKnown is kept, not Consistent, because the new neighbour links come from the DNA occupancy.
- Dna.DNA.SlideRight: when Java throws past the end with the occupancy test off, or with the molecule itself met as the occupant, `occupyDNA` has already written the on-strand part of the window. The model reports the throw (`thrown`) and leaves the strand as it was. Nothing catches the exception on the way out of `Cell.executeNextEvent`, so the run ends there. The reflected slides of `slideRightMolecule` and `slideLeftMolecule` (TF.java:546, TF.java:658) reach these throws on an absorbing or periodic strand, because they make no bounds check of their own.
- `TargetSitesAndGroups.toString` and `TargetSitesGroup.addGroup`: `addGroup` only resets the group's text to the same string.
- `TFSpecies.addCooperativity` keeps each cooperativity as a `Coop` value, not a `TFcooperativity` object. Direct cooperativities are kept as a map from partner species to index.

**Event queues**
- The Java `PriorityQueue` compares events by identity and breaks ties in an unspecified order. The model compares by value and takes the first of the earliest events. Null queues are not modelled.
- The duplicate check in `EventList` (debug mode only) and the `printDebugInfo` warnings in its constructor.
- EventLists.EventList.ScheduleNextTFRepressionEvent: the action ids are assumed distinct (`acts.Distinct()`), as the simulator's constants are.
- Events.RepressionEventLabels: the action ids are assumed distinct (`acts.Distinct()`), as the simulator's constants are.
- EventQueues.RepressionEventLabelled: the action ids are assumed distinct (`acts.Distinct()`), as the simulator's constants are.
- Molecules.DispatchHop: the action ids are assumed distinct (`acts.Distinct()`), as the simulator's constants are.
- `TFRepressionEventQueueFR` calls `getRepressionRate` and a six-argument `RepressionEvent` constructor that this snapshot does not define. The model takes the rate as a parameter and builds the event with the constructor's own fields.
- `EventList` calls a no-argument `TFRepressionEventQueueFR` constructor that this snapshot does not define. The model's queue starts empty.

**Parsing**
- TsFileParser.TSfileParser.ReadToken: the description is a regular expression for `replaceAll`. The model (Text.PatternReplaceAll) reads its `.` as any character but a line terminator and every other character literally. A description holding another metacharacter (`+ * ? [ ] { } | ^ $ \`) matches differently in Java, or throws, and the constructor's `catch` then ends the reading. That is not modelled.
- TsFileParser.TSfileParser.ReadTokensFrom: the `for` loop over a line's pieces (TSfileParser.java:74-88) is written as recursion on the pieces left. The order of the pieces, the stop at the first error and the state after each piece are the loop's.
- TfSpecies.ParseDbd: `parseDBD` and `PFM` remove the DBD markers with `replaceAll` (TFSpecies.java:285, 307, 377; PFM.java:34), which reads a marker as a regular expression. The model (TfSpecies.ParseDbd, Pfm.Body) removes each marker literally. The two agree for a marker without metacharacters. A marker that holds one is not modelled.
- Cell.Renamed: the same pattern reading applies to the parameter extension. A replacement holding `$` or `\` is not modelled either.
- JUtils.JavaParseIntegral: `Character.digit` is modelled for the ASCII digits only. Java's `parseInt` also accepts the other Unicode decimal digits.
- JUtils.LowerChar: `equalsIgnoreCase` is modelled by folding 'A' to 'Z' only. Unicode case folding is not modelled.
- TargetSites.RescaledBounds: requires a start below the maximum `int`, because `relStart + 1` overflows there.
- TfSpecies.TFSpecies.SetSiteAsCooperative: requires the site's region start to be below the DNA length and its direction below `TFdirections`. Otherwise the table write at TFSpecies.java:547-563 throws `ArrayIndexOutOfBoundsException`, and `Cell` (Cell.java:416-431) does not check first. That throw is not modelled.
- TfSpecies.TFSpecies.AddCooperativity: requires a DNA-based cooperativity's site (its first region and direction) to fit the table (`Fits`), for the same reason, since it calls `setSiteAsCooperative`. The throw is not modelled.
- `TFfileParser` and the `Cell` constructor pass argument lists to `TFSpecies` that match neither constructor. Each constructor is modelled against its own parameter list.
- `DBP` refers to `maxMoveRate`/`calcMoveRate`, which `TFSpecies` does not define. The model takes the new move rate as a parameter.

## Findings

| source | as written | input that shows it | evidently intended | confidence | as-written member | corrected member |
|---|---|---|---|---|---|---|
| utils.py:108 | `affinity[tf_i, -tf_size+1:] = -inf` with size 1 gives the slice `[0:]` | a TF of size 1 on an open track | mask exactly the last size - 1 positions | high, not executed | PyAffinity.SizeOneCounterexample | PyAffinity.IntendedMaskExact |
| utils.py:339-340 | `df_site_affinity = args` binds the whole argument tuple, and `.columns` raises AttributeError | a two-strand table passed alone | read the columns of the single argument | high, not executed | PyVectors.OneArgumentCounterexample | PyVectors.IsBothDirectionsFromAffinity |
| src/objects/DNA.java:954 | the guard `position >= 0 \|\| position <= length - size` accepts every position | position -1, size 1, length 1 | `&&`, as the comment "outside the strand interval" describes | high, not executed | DnaSpec.UnbindGuardCounterexample | DnaSpec.UnbindGuardOnStrand |
| src/utils/CellUtils.java:198 | the key buffer has `sizeMotif - sizeLeft` entries but is filled with `sizeMotif`; the right-to-left twin at CellUtils.java:225-242 has the same buffer (`new byte[sizeMotif - sizeLeft]` filled with sizeMotif entries at :229-233), and its fix is the same | one base left of a one-base motif | a buffer of `sizeMotif` entries | high, not executed | CellUtils.KnownKeyCounterexample | CellUtils.KnownKey |
| src/objects/DNAsequence.java:48-50 | `hashCode` hashes the letters while `equals` treats the wildcard as equal to every base | `A` and `N` | equal sequences hash alike | high, not executed | DnaSequences.HashCodeAsWrittenBreaksEquals | DnaSequences.EqualsImpliesSameHash |
| src/utils/CellUtils.java:416-418 | the buffer is allocated as `new byte[strand.length()]` before `trim()`, so each trimmed whitespace character leaves a trailing 0 | " A" and "AA" when the letter table maps 'A' to 0 | a buffer as long as the trimmed text | medium, not executed | DnaSequences.SeqIdsPaddingCollides | DnaSequences.SeqIdsTrimmedIgnoresPadding |
| src/objects/PFM.java:131-139 | the maximum visits the ANY entry of `nucleotidePosition`, which loading leaves at NONE, so `normPFM.get(-1)` throws | a four-row matrix | the maximum over the bases that have rows | medium, not executed | PfmScores.MaxScoreAsWrittenCounterexample | PfmScores.MaxScoreBounds |
| src/objects/InputParameters.java:471 | the export writes `TF_REPRESSION_RATE`, but `setParameter` reads `TF_REPR_RATE` | any exported file, read back | export under the name the reader recognises | high, not executed | InputParams.ExportedRepressionRateNotRead | InputParams.CorrectedExportRead |
| src/objects/TargetSitesAndGroups.java:136 | `tsg.get(i)` uses the position in the site's group list instead of the group id it holds | two sites in groups 0 and 1, only group 0 reached | look up `tsg.get(ts.get(tsID).group.get(i))` | high, not executed | SitesAndGroups.ToBeReachedDiffers | SitesAndGroups.TargetSitesAndGroups.AreTargetSitesToBeReached |
| src/objects/TFSpecies.java:549 | `Math.min(1, region.end)` marks only one row | the region 0 to 3 on a DNA of length 3 | the region clipped to the DNA | medium, not executed | TfSpecies.SiteRowsDiffer | TfSpecies.SiteRowsCover |
| src/objects/TFSpecies.java:207-210 | `parseDBD` runs before `this.es` is set, so a SEQ domain's maximum affinity uses an energy of 0 | any SEQ domain with a non-wildcard base and a non-zero energy | compute with the given energy | medium, not executed | TfSpecies.NamedSeqAffinityDiffers | TfSpecies.NamedSeqAffinity |
