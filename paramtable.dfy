/**
 * The name table of the simulator's parameter store
 * (`objects.InputParameters`): the declared fields and their Java types,
 * the names `setParameter` recognises with the conversion each one
 * applies, and the keys the parameter export writes.
 *
 * A field is identified by its Java field name.
 */
module ParamTable {
  import opened Wrappers

  /** The Java type a parameter holds. */
  datatype Ty = TDouble | TInt | TBool | TString

  /** How `setParameter` converts the text of a value, with the fallback on a parse error. */
  datatype Kind = DoubleKind(fallback: real) | IntKind | BoolKind(ifBroken: bool) | StringKind

  function KindType(k: Kind): Ty
  {
    match k
    case DoubleKind(_) => TDouble
    case IntKind => TInt
    case BoolKind(_) => TBool
    case StringKind => TString
  }

  /** What a recognised name sets: a field, and how the value text is converted. */
  datatype Key = Key(field: string, kind: Kind)

  /** The fields declared `Parameter<Double>`. */
  const DOUBLE_FIELDS: set<string> := {
    "STOP_TIME",
    "PRINT_INTERMEDIARY_RESULTS_AFTER",
    "WIG_THRESHOLD",
    "TF_ES",
    "TF_ASSOC_RATE",
    "TF_PREBOUND_PROPORTION",
    "TF_REPRESSION_RATE",
    "TF_DEREPRESSION_ATTENUATION_FACTOR",
    "DNA_DEREPRESSION_RATE",
    "DNA_PROPORTION_OF_A",
    "DNA_PROPORTION_OF_T",
    "DNA_PROPORTION_OF_C",
    "DNA_PROPORTION_OF_G",
    "TF_UNBINDING_PROBABILITY",
    "TF_SLIDE_LEFT_PROBABILITY",
    "TF_SLIDE_RIGHT_PROBABILITY",
    "TF_JUMPING_PROBABILITY",
    "TF_HOP_STD_DISPLACEMENT",
    "TF_SPECIFIC_WAITING_TIME",
    "TF_COLLISION_UNBIND_PROBABILITY",
    "TF_AFFINITY_LANDSCAPE_ROUGHNESS",
    "TF_SPECIFIC_ENERGY_THRESHOLD"
  }

  /** The fields declared `Parameter<Integer>`. */
  const INT_FIELDS: set<string> := {
    "ENSEMBLE_SIZE",
    "RANDOM_SEED",
    "COMPUTED_AFFINITY_PRECISION",
    "DNA_SECTOR_SIZE",
    "EVENT_LIST_SUBGROUP_SIZE",
    "OUTPUT_TF_POINTS",
    "WIG_STEP",
    "TF_DBD_LENGTH_MIN",
    "TF_DBD_LENGTH_MAX",
    "TF_SPECIES_COUNT",
    "TF_COPY_NUMBER_MIN",
    "TF_COPY_NUMBER_MAX",
    "TF_SIZE_LEFT",
    "TF_SIZE_RIGHT",
    "TF_REPR_LEN_LEFT",
    "TF_REPR_LEN_RIGHT",
    "DNA_LENGTH",
    "TF_STEP_LEFT_SIZE",
    "TF_STEP_RIGHT_SIZE",
    "TF_UNCORRELATED_DISPLACEMENT_SIZE"
  }

  /** The fields declared `Parameter<Boolean>`. */
  const BOOL_FIELDS: set<string> := {
    "EVENT_LIST_USES_FR",
    "PRINT_FINAL_OCCUPANCY",
    "DEBUG_MODE",
    "FOLLOW_TS",
    "OUTPUT_AFFINITY_LANDSCAPE",
    "OUTPUT_BINDING_ENERGY",
    "OUTPUT_DNA_OCCUPANCY",
    "DNA_OCCUPANCY_FULL_MOLECULE_SIZE",
    "OUTPUT_SLIDING_LENGTHS",
    "OUTPUT_REPRESSED_LENGTHS",
    "TF_READ_IN_BOTH_DIRECTIONS",
    "TF_PREBOUND_TO_HIGHEST_AFFINITY",
    "SLIDING_AND_HOPPING_AFFECTS_TF_ASSOC_RATE",
    "TF_IS_IMMOBILE",
    "TF_STALLS_IF_BLOCKED",
    "CHECK_OCCUPANCY_ON_BINDING",
    "CHECK_OCCUPANCY_ON_SLIDING",
    "CHECK_OCCUPANCY_ON_REBINDING",
    "IS_BIASED_RANDOM_WALK",
    "IS_TWO_STATE_RANDOM_WALK"
  }

  /** The fields declared `Parameter<String>`. */
  const STRING_FIELDS: set<string> := {
    "OUTPUT_FOLDER",
    "OUTPUT_FILENAME",
    "OUTPUT_TF",
    "TF_FILE",
    "TS_FILE",
    "TF_COOPERATIVITY_FILE",
    "DNA_SEQUENCE_FILE",
    "DNA_AVAILABILITY_FILE",
    "DNA_BOUNDARY_CONDITION"
  }

  /** The boolean fields whose `parseBoolean` fallback is true. */
  const BOOL_TRUE_FALLBACK: set<string> := {
    "SLIDING_AND_HOPPING_AFFECTS_TF_ASSOC_RATE",
    "TF_READ_IN_BOTH_DIRECTIONS",
    "TF_PREBOUND_TO_HIGHEST_AFFINITY",
    "TF_IS_IMMOBILE"
  }

  /** Every field of `InputParameters`. */
  const FIELDS: set<string> := DOUBLE_FIELDS + INT_FIELDS + BOOL_FIELDS + STRING_FIELDS

  /** The declared type of a field. */
  function TypeOf(f: string): Ty
  {
    if f in DOUBLE_FIELDS then TDouble
    else if f in INT_FIELDS then TInt
    else if f in BOOL_FIELDS then TBool
    else TString
  }

  /** A field belongs to the set of its declared type. */
  lemma FieldInTypeSet(f: string)
    requires f in FIELDS
    ensures TypeOf(f) == TDouble <==> f in DOUBLE_FIELDS
    ensures TypeOf(f) != TDouble ==> f !in DOUBLE_FIELDS
    ensures TypeOf(f) == TInt ==> f in INT_FIELDS
    ensures TypeOf(f) !in {TDouble, TInt} ==> f !in INT_FIELDS
    ensures TypeOf(f) == TString ==> f !in BOOL_FIELDS
    ensures TypeOf(f) == TBool ==> f in BOOL_FIELDS
    ensures TypeOf(f) == TString ==> f in STRING_FIELDS
  {
  }

  /**
   * The conversion `setParameter` applies to a field: doubles fall back to
   * `NONE`, except TF_SPECIFIC_ENERGY_THRESHOLD which falls back to 0.0;
   * integers to `NONE` (inside the integer parser); four booleans fall back
   * to true and the others to false; strings are stored as given.
   */
  function KindOf(f: string): (k: Kind)
    ensures KindType(k) == TypeOf(f)
  {
    match TypeOf(f)
    case TDouble => DoubleKind(if f == "TF_SPECIFIC_ENERGY_THRESHOLD" then 0.0 else NONE as real)
    case TInt => IntKind
    case TBool => BoolKind(f in BOOL_TRUE_FALLBACK)
    case TString => StringKind
  }

  /** The field a name would select: its own, except TF_REPR_RATE, which sets TF_REPRESSION_RATE. */
  function FieldOf(name: string): string
  {
    if name == "TF_REPR_RATE" then "TF_REPRESSION_RATE" else name
  }

  /**
   * `setParameter`'s chain of `name.equals(..)` tests: every field is set
   * under its own name, except that the repression rate is set under
   * TF_REPR_RATE (and not under its own name) and
   * TF_DEREPRESSION_ATTENUATION_FACTOR is not set at all.
   */
  function Recognised(name: string): (r: Option<Key>)
    ensures r.Some? ==> r.value.field in FIELDS && KindType(r.value.kind) == TypeOf(r.value.field)
    ensures r.Some? ==> r.value.field != "TF_DEREPRESSION_ATTENUATION_FACTOR"
  {
    var f := FieldOf(name);
    if name == "TF_REPRESSION_RATE" || name == "TF_DEREPRESSION_ATTENUATION_FACTOR" || f !in FIELDS then None
    else Some(Key(f, KindOf(f)))
  }

  /** The name `setParameter` sets a field under, if any. */
  function SetterName(f: string): Option<string>
  {
    if f == "TF_REPRESSION_RATE" then Some("TF_REPR_RATE")
    else if f == "TF_DEREPRESSION_ATTENUATION_FACTOR" then None
    else Some(f)
  }

  /**
   * The key `exportParameterFile` writes before a field's value: its own
   * name, for every field except TF_DEREPRESSION_ATTENUATION_FACTOR, which
   * is not written.
   */
  function ExportKey(f: string): Option<string>
  {
    if f == "TF_DEREPRESSION_ATTENUATION_FACTOR" then None else Some(f)
  }

  lemma ReprRateNotDouble() ensures "TF_REPR_RATE" !in DOUBLE_FIELDS {}
  lemma ReprRateNotInt() ensures "TF_REPR_RATE" !in INT_FIELDS {}
  lemma ReprRateNotBool() ensures "TF_REPR_RATE" !in BOOL_FIELDS {}
  lemma ReprRateNotString() ensures "TF_REPR_RATE" !in STRING_FIELDS {}

  /** No field is called TF_REPR_RATE. */
  lemma ReprRateNotAField()
    ensures "TF_REPR_RATE" !in FIELDS
  {
    ReprRateNotDouble();
    ReprRateNotInt();
    ReprRateNotBool();
    ReprRateNotString();
  }

  lemma EmptyNotDouble() ensures "" !in DOUBLE_FIELDS {}
  lemma EmptyNotInt() ensures "" !in INT_FIELDS {}
  lemma EmptyNotBool() ensures "" !in BOOL_FIELDS {}
  lemma EmptyNotString() ensures "" !in STRING_FIELDS {}

  /** Only non-empty names are recognised. */
  lemma RecognisedNonEmpty(name: string)
    requires Recognised(name).Some?
    ensures name != ""
  {
    EmptyNotDouble();
    EmptyNotInt();
    EmptyNotBool();
    EmptyNotString();
  }

  /**
   * `SetterName` inverts `Recognised`: a recognised name is the setter name
   * of the field it selects, and the setter name of every field is
   * recognised and selects that field with that field's conversion.
   */
  lemma SetterNameRecognised(name: string, f: string)
    ensures Recognised(name).Some? ==> SetterName(Recognised(name).value.field) == Some(name)
    ensures f in FIELDS && SetterName(f).Some? ==> Recognised(SetterName(f).value) == Some(Key(f, KindOf(f)))
  {
    ReprRateNotAField();
  }

  /** Two recognised names never select the same field. */
  lemma RecognisedInjective(a: string, b: string)
    requires Recognised(a).Some? && Recognised(b).Some?
    requires Recognised(a).value.field == Recognised(b).value.field
    ensures a == b
  {
  }
}
