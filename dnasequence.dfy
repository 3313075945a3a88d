/**
 * `DNAsequence` (src/objects/DNAsequence.java): a base sequence used as a
 * hash-map key for the known-sequence affinities. Its array is copied once in
 * the constructor and never changed afterwards, so the object is a value.
 */
module DnaSequences {
  import opened Wrappers
  import opened Text
  import CellUtils
  import JUtils
  import DnaFiles

  datatype DnaSequence = DnaSequence(bases: seq<int>)

  /**
   * The byte-array constructor: the new object holds the array's current
   * contents. Being a value, it does not follow later writes to the array.
   */
  method FromBytes(a: array<int>) returns (d: DnaSequence)
    ensures |d.bases| == a.Length && forall i :: 0 <= i < a.Length ==> d.bases[i] == a[i]
  {
    var copy := new int[a.Length];
    forall i | 0 <= i < a.Length {
      copy[i] := a[i];
    }
    d := DnaSequence(copy[..]);
  }

  /** One letter of `CellUtils.getSeqIDs`: its id in the letter table once upper-cased, or NONE. */
  function LetterId(c: char, bps: map<char, int>): int {
    if DnaFiles.UpperChar(c) in bps then bps[DnaFiles.UpperChar(c)] else NONE
  }

  /** The id of every letter of t, in order. */
  function LetterIds(t: string, bps: map<char, int>): seq<int> {
    seq(|t|, i requires 0 <= i < |t| => LetterId(t[i], bps))
  }

  /** The ids of the trimmed text, one per letter. */
  function SeqIdsTrimmed(strand: string, bps: map<char, int>): seq<int> {
    LetterIds(Trim(strand), bps)
  }

  /** n zeros, Java's default content of a new byte array. */
  function Zeros(n: nat): (z: seq<int>)
    ensures |z| == n && forall i :: 0 <= i < n ==> z[i] == 0
  {
    if n == 0 then [] else Zeros(n - 1) + [0]
  }

  /**
   * `CellUtils.getSeqIDs(strand)`: the buffer is allocated as long as the
   * untrimmed text, so after the ids of the trimmed letters it keeps Java's
   * default 0 once per whitespace character trimmed off.
   */
  function SeqIds(strand: string, bps: map<char, int>): (ids: seq<int>)
    ensures |ids| == |strand|
  {
    SeqIdsTrimmed(strand, bps) + Zeros(|strand| - |Trim(strand)|)
  }

  /** The loop of `getSeqIDs` over the trimmed, upper-cased text, filling a fresh zeroed buffer. */
  method GetSeqIds(strand: string, bps: map<char, int>) returns (buffer: array<int>)
    ensures fresh(buffer) && buffer[..] == SeqIds(strand, bps)
  {
    buffer := new int[|strand|](_ => 0);
    var t := Trim(strand);
    FillLetterIds(buffer, t, bps);
    assert forall k :: 0 <= k < buffer.Length ==> buffer[k] == SeqIds(strand, bps)[k];
  }

  /** The loop of `getSeqIDs`: position i of the buffer gets the id of letter i of t. */
  method FillLetterIds(buffer: array<int>, t: string, bps: map<char, int>)
    requires |t| <= buffer.Length
    modifies buffer
    ensures forall k :: 0 <= k < |t| ==> buffer[k] == LetterId(t[k], bps)
    ensures forall k :: |t| <= k < buffer.Length ==> buffer[k] == old(buffer[k])
  {
    var i := 0;
    while i < |t|
      invariant 0 <= i <= |t|
      invariant forall k :: 0 <= k < i ==> buffer[k] == LetterId(t[k], bps)
      invariant forall k :: i <= k < buffer.Length ==> buffer[k] == old(buffer[k])
    {
      var letter := DnaFiles.UpperChar(t[i]);
      var id := NONE;
      if letter in bps {
        id := bps[letter];
      }
      buffer[i] := id;
      i := i + 1;
    }
  }

  /**
   * The string constructor: the bytes `getSeqIDs` gives, copied as the
   * byte-array constructor copies them.
   */
  method FromString(strand: string, bps: map<char, int>) returns (d: DnaSequence)
    ensures d.bases == SeqIds(strand, bps)
  {
    var ids := GetSeqIds(strand, bps);
    d := FromBytes(ids);
    assert d.bases == ids[..];
  }

  /** Trimming whitespace w1 and w2 off a text that does not itself start or end with whitespace. */
  lemma {:induction false} TrimPadded(w1: string, s: string, w2: string)
    requires forall i :: 0 <= i < |w1| ==> IsJavaTrimmable(w1[i])
    requires forall i :: 0 <= i < |w2| ==> IsJavaTrimmable(w2[i])
    requires |s| > 0 && JUtils.JavaTrimmed(s)
    ensures Trim(w1 + s + w2) == s
  {
    assert w1 + s + w2 == w1 + (s + w2);
    JUtils.TrimLeftSpaces(w1, s + w2);
    JUtils.TrimRightSpaces(s, w2);
  }

  /** As written: a padded strand gives the ids of its letters followed by one 0 per padding character. */
  lemma {:induction false} SeqIdsPadded(w1: string, s: string, w2: string, bps: map<char, int>)
    requires forall i :: 0 <= i < |w1| ==> IsJavaTrimmable(w1[i])
    requires forall i :: 0 <= i < |w2| ==> IsJavaTrimmable(w2[i])
    requires |s| > 0 && JUtils.JavaTrimmed(s)
    ensures SeqIds(w1 + s + w2, bps) == LetterIds(s, bps) + Zeros(|w1| + |w2|)
  {
    TrimPadded(w1, s, w2);
  }

  /**
   * The padding 0 is a base id when the table maps a letter to 0: with 'A'
   * mapped to 0, " A" and "AA" give the same key.
   */
  lemma {:induction false} SeqIdsPaddingCollides(w: char, c: char, bps: map<char, int>)
    requires IsJavaTrimmable(w) && !IsJavaTrimmable(c) && LetterId(c, bps) == 0
    ensures SeqIds([w, c], bps) == [0, 0] == SeqIds([c, c], bps)
  {
    SeqIdsOfPaddedLetter(w, c, bps);
    SeqIdsOfDoubledLetter(c, bps);
  }

  lemma {:induction false} SeqIdsOfPaddedLetter(w: char, c: char, bps: map<char, int>)
    requires IsJavaTrimmable(w) && !IsJavaTrimmable(c)
    ensures SeqIds([w, c], bps) == [LetterId(c, bps), 0]
  {
    assert [w] + [c] + [] == [w, c];
    SeqIdsPadded([w], [c], [], bps);
    assert LetterIds([c], bps) == [LetterId(c, bps)];
    assert Zeros(1) == Zeros(0) + [0];
  }

  lemma {:induction false} SeqIdsOfDoubledLetter(c: char, bps: map<char, int>)
    requires !IsJavaTrimmable(c)
    ensures SeqIds([c, c], bps) == [LetterId(c, bps), LetterId(c, bps)]
  {
    var cc := [c, c];
    JUtils.TrimOfTrimmed(cc);
    assert SeqIdsTrimmed(cc, bps) == LetterIds(cc, bps) == [LetterId(c, bps), LetterId(c, bps)];
    assert Zeros(|cc| - |Trim(cc)|) == [];
  }

  /** Corrected (a buffer as long as the trimmed text): surrounding whitespace does not change the ids. */
  lemma {:induction false} SeqIdsTrimmedIgnoresPadding(w1: string, s: string, w2: string, bps: map<char, int>)
    requires forall i :: 0 <= i < |w1| ==> IsJavaTrimmable(w1[i])
    requires forall i :: 0 <= i < |w2| ==> IsJavaTrimmable(w2[i])
    requires |s| > 0 && JUtils.JavaTrimmed(s)
    ensures SeqIdsTrimmed(w1 + s + w2, bps) == SeqIdsTrimmed(s, bps)
    ensures |SeqIdsTrimmed(w1 + s + w2, bps)| == |s|
  {
    TrimPadded(w1, s, w2);
    JUtils.TrimOfTrimmed(s);
  }

  /**
   * When every letter is in the table, the ids `getSeqIDs` gives for the
   * trimmed text are those `getSequenceIDs` keeps.
   */
  lemma {:induction false} LetterIdsRecognised(t: string, bps: map<char, int>)
    requires forall k :: 0 <= k < |t| ==> DnaFiles.UpperChar(t[k]) in bps
    ensures LetterIds(t, bps) == DnaFiles.Recognised(t, bps)
  {
    if t != [] {
      LetterIdsRecognised(t[1..], bps);
      assert LetterIds(t, bps) == [LetterId(t[0], bps)] + LetterIds(t[1..], bps);
    }
  }

  /** `getSeqIDs` and `getSequenceIDs` agree on a strand of table letters, up to the padding. */
  lemma {:induction false} SeqIdsAgreeWithSequenceIds(strand: string, bps: map<char, int>)
    requires forall k :: 0 <= k < |Trim(strand)| ==> DnaFiles.UpperChar(Trim(strand)[k]) in bps
    ensures SeqIds(strand, bps)[..|Trim(strand)|] == DnaFiles.SequenceIds(strand, bps)
  {
    LetterIdsRecognised(Trim(strand), bps);
  }

  /**
   * `equals`: false for an argument that is not a DNAsequence (None), else
   * wildcard equality of the two base sequences.
   */
  predicate Equals(any: int, d: DnaSequence, other: Option<DnaSequence>) {
    other.Some? && CellUtils.SequencesEqual(any, d.bases, other.value.bases)
  }

  /** `equals` is symmetric and false for any other kind of object. */
  lemma EqualsSymmetric(any: int, d: DnaSequence, e: DnaSequence)
    ensures Equals(any, d, Some(e)) == Equals(any, e, Some(d))
    ensures !Equals(any, d, None)
  {
    CellUtils.SequencesEqualSymmetric(any, d.bases, e.bases);
  }

  /** An empty sequence is not equal to itself, so `equals` is not reflexive. */
  lemma EqualsNotReflexive(any: int)
    ensures !Equals(any, DnaSequence([]), Some(DnaSequence([])))
  {
    CellUtils.EmptyNeverEqual(any);
  }

  /** `equals` is not transitive: a one-base wildcard equals two sequences that differ. */
  lemma EqualsNotTransitive(any: int, x: int, y: int)
    requires x != y && x != any && y != any
    ensures Equals(any, DnaSequence([x]), Some(DnaSequence([any])))
    ensures Equals(any, DnaSequence([any]), Some(DnaSequence([y])))
    ensures !Equals(any, DnaSequence([x]), Some(DnaSequence([y])))
  {
    CellUtils.SequencesEqualNotTransitive(any, x, y);
  }

  /**
   * `CellUtils.sequenceToString`: the letter of each byte that is a valid
   * index into the letter table, in order; other bytes are skipped.
   */
  function SequenceToString(letters: seq<char>, s: seq<int>): (r: seq<char>)
    ensures |r| <= |s|
    ensures (forall i :: 0 <= i < |s| ==> 0 <= s[i] < |letters|) ==>
      |r| == |s| && forall i :: 0 <= i < |s| ==> r[i] == letters[s[i]]
  {
    if s == [] then []
    else (if 0 <= s[0] < |letters| then [letters[s[0]]] else []) + SequenceToString(letters, s[1..])
  }

  /** Two's complement reading of a 32-bit pattern, Java's `int`. */
  function ToInt32(x: int): (r: int)
    requires 0 <= x < 0x1_0000_0000
    ensures -0x8000_0000 <= r < 0x8000_0000 && (r - x) % 0x1_0000_0000 == 0
  {
    if x < 0x8000_0000 then x else x - 0x1_0000_0000
  }

  /** The unsigned 32-bit state of `String.hashCode`: h = 31 * h + c for every char, wrapping. */
  function HashState(s: seq<char>): (r: int)
    ensures 0 <= r < 0x1_0000_0000
    decreases |s|
  {
    if s == [] then 0
    else (31 * HashState(s[..|s| - 1]) + s[|s| - 1] as int) % 0x1_0000_0000
  }

  /** Java's `String.hashCode`. */
  function JavaStringHash(s: seq<char>): int {
    ToInt32(HashState(s))
  }

  /** The hash of a one-character string is the character's code. */
  lemma HashOfOneChar(c: char)
    requires (c as int) < 0x8000_0000
    ensures JavaStringHash([c]) == c as int
  {
    assert [c][..0] == [];
    assert HashState([]) == 0;
    assert HashState([c]) == (c as int) % 0x1_0000_0000;
  }

  /** `hashCode` as written: the Java hash of the letter rendering. */
  function HashCodeAsWritten(letters: seq<char>, d: DnaSequence): int {
    JavaStringHash(SequenceToString(letters, d.bases))
  }

  /**
   * The as-written hash breaks the contract that equal objects hash alike: a
   * base and the wildcard are equal, but their letters hash differently.
   */
  lemma HashCodeAsWrittenBreaksEquals()
    ensures Equals(4, DnaSequence([0]), Some(DnaSequence([4])))
    ensures HashCodeAsWritten("ACGTN", DnaSequence([0])) == 65
    ensures HashCodeAsWritten("ACGTN", DnaSequence([4])) == 78
  {
    assert SequenceToString("ACGTN", [0]) == ['A'];
    assert SequenceToString("ACGTN", [4]) == ['N'];
    HashOfOneChar('A');
    HashOfOneChar('N');
  }

  /**
   * A hash that keeps the contract: wildcard-equal sequences have the same
   * length, so hashing the length alone is consistent with `equals`.
   */
  function HashCode(d: DnaSequence): int {
    |d.bases|
  }

  /** Objects that `equals` relates have the same corrected hash. */
  lemma EqualsImpliesSameHash(any: int, d: DnaSequence, e: DnaSequence)
    requires Equals(any, d, Some(e))
    ensures HashCode(d) == HashCode(e)
  {
  }
}
