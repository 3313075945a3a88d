/**
 * The readers of the strand and chromatin files (src/utils/DNAFilesParser.java):
 * a FASTA file becomes a description and a sequence of base ids, and a
 * btrack file (one byte per line) becomes the open/closed state of each
 * base pair. Files are given as their lines and whether they exist;
 * `Byte.parseByte` is a function parameter, and the letter table
 * (`CellUtils.bps.bpsID`) maps upper-case letters to base ids.
 */
module DnaFiles {
  import opened Wrappers
  import opened Text
  import opened JUtils
  import opened DnaSpec

  /** ASCII upper-casing of one character, as `toUpperCase` does for ASCII letters. */
  function UpperChar(c: char): (u: char)
    ensures 'a' <= c <= 'z' ==> 'A' <= u <= 'Z'
    ensures !('a' <= c <= 'z') ==> u == c
  {
    if 'a' <= c <= 'z' then (c as int - 'a' as int + 'A' as int) as char else c
  }

  /** The ids of the recognised letters of an upper-cased text, in order. */
  function Recognised(s: string, bps: map<char, int>): (ids: seq<int>)
    ensures |ids| <= |s|
  {
    if |s| == 0 then []
    else (if UpperChar(s[0]) in bps then [bps[UpperChar(s[0])]] else []) + Recognised(s[1..], bps)
  }

  /** `CellUtils.getSequenceIDs(text)`: trim, upper-case, keep the letters of the table. */
  function SequenceIds(text: string, bps: map<char, int>): seq<int>
  {
    Recognised(Trim(text), bps)
  }

  /** Every id produced is a value of the letter table. */
  lemma {:induction false} RecognisedIds(s: string, bps: map<char, int>)
    ensures forall k :: 0 <= k < |Recognised(s, bps)| ==> Recognised(s, bps)[k] in bps.Values
  {
    if |s| > 0 {
      RecognisedIds(s[1..], bps);
      if UpperChar(s[0]) in bps {
        assert bps[UpperChar(s[0])] in bps.Values;
      }
    }
  }

  /** Recognition distributes over concatenation of texts. */
  lemma {:induction false} RecognisedAppend(a: string, b: string, bps: map<char, int>)
    ensures Recognised(a + b, bps) == Recognised(a, bps) + Recognised(b, bps)
  {
    if |a| == 0 {
      assert a + b == b;
    } else {
      assert (a + b)[1..] == a[1..] + b;
      RecognisedAppend(a[1..], b, bps);
    }
  }

  /** A text made only of letters of the table keeps all of them. */
  lemma {:induction false} RecognisedAll(s: string, bps: map<char, int>)
    requires forall k :: 0 <= k < |s| ==> UpperChar(s[k]) in bps
    ensures |Recognised(s, bps)| == |s|
  {
    if |s| > 0 {
      RecognisedAll(s[1..], bps);
    }
  }

  // ---------------------------------------------------------------- FASTA

  /** A trimmed line that names the sequence. */
  predicate IsHeader(t: string) {
    t != "" && StartsWith(t, ">")
  }

  /** A trimmed line that holds bases. */
  predicate IsBases(t: string) {
    t != "" && !StartsWith(t, ">")
  }

  /** The name a header line gives: every `>` removed, then trimmed. */
  function HeaderName(t: string): string {
    Trim(RemoveChar(t, '>'))
  }

  /** The description after reading the lines: the name of the last header, or "" without one. */
  function FastaName(lines: seq<string>): string
  {
    if |lines| == 0 then ""
    else match LineName(lines[|lines| - 1])
      case Some(n) => n
      case None => FastaName(lines[..|lines| - 1])
  }

  /** The name a line gives, if it is a header. */
  function LineName(line: string): Option<string>
  {
    var t := Trim(line);
    if IsHeader(t) then Some(HeaderName(t)) else None
  }

  /**
   * The bases a line adds, if it is not a header (the trim inside
   * `getSequenceIDs` changes nothing on a line that is already trimmed).
   */
  function LineIds(line: string, bps: map<char, int>): seq<int>
  {
    var t := Trim(line);
    if IsBases(t) then Recognised(t, bps) else []
  }

  /** The base ids of every non-header line, in file order. */
  function FastaStrand(lines: seq<string>, bps: map<char, int>): seq<int>
  {
    Joined(lines, line => LineIds(line, bps))
  }

  /** What each line adds, concatenated in order. */
  function Joined(lines: seq<string>, f: string -> seq<int>): seq<int>
  {
    if |lines| == 0 then []
    else Joined(lines[..|lines| - 1], f) + f(lines[|lines| - 1])
  }

  /** What `fastaFileParser` returns: the description (null for a missing file) and the strand. */
  datatype FastaDna = FastaDna(description: Option<string>, strand: seq<int>)

  /** The body of the reading loop for one line: a header's name, or the line's bases. */
  method ReadFastaLine(line: string, bps: map<char, int>) returns (name: Option<string>, ids: seq<int>)
    ensures name == LineName(line) && ids == LineIds(line, bps)
    ensures name.Some? ==> ids == []
  {
    var text := Trim(line);
    name, ids := None, [];
    if text != "" {
      if StartsWith(text, ">") {
        name := Some(Trim(RemoveChar(text, '>')));
      } else {
        ids := SequenceIds(text, bps);
        TrimOfTrimmed(text);
      }
    }
  }

  /** `fastaFileParser(filename)` over the lines of the file. */
  method FastaFileParser(exists_: bool, lines: seq<string>, bps: map<char, int>) returns (dna: FastaDna)
    ensures !exists_ ==> dna == FastaDna(None, [])
    ensures exists_ ==> dna == FastaDna(Some(FastaName(lines)), FastaStrand(lines, bps))
  {
    if !exists_ {
      return FastaDna(None, []);
    }
    var strand: seq<int> := [];
    var currentName := "";
    var i := 0;
    while i < |lines|
      invariant 0 <= i <= |lines|
      invariant currentName == FastaName(lines[..i])
      invariant strand == FastaStrand(lines[..i], bps)
    {
      var name, ids := ReadFastaLine(lines[i], bps);
      if name.Some? {
        currentName := name.value;
      }
      FastaStep(lines, i, bps);
      strand := strand + ids;
      i := i + 1;
    }
    assert lines[..i] == lines;
    dna := FastaDna(Some(currentName), strand);
  }

  /** Reading line i: the name it gives replaces the description, and its bases are appended. */
  lemma FastaStep(lines: seq<string>, i: nat, bps: map<char, int>)
    requires i < |lines|
    ensures FastaName(lines[..i + 1]) == (if LineName(lines[i]).Some? then LineName(lines[i]).value else FastaName(lines[..i]))
    ensures FastaStrand(lines[..i + 1], bps) == FastaStrand(lines[..i], bps) + LineIds(lines[i], bps)
  {
    assert lines[..i + 1][..i] == lines[..i];
  }

  /** Trimming keeps only characters of the text. */
  lemma TrimKeepsChars(s: string, c: char)
    requires c !in s
    ensures c !in Trim(s)
  {
    var l := TrimLeft(s);
    assert l == s[|s| - |l|..];
    assert c !in l;
    assert TrimRight(l) == l[..|TrimRight(l)|];
  }

  /** The description never holds the header marker. */
  lemma {:induction false} FastaNameClean(lines: seq<string>)
    ensures '>' !in FastaName(lines)
  {
    if |lines| > 0 {
      var t := Trim(lines[|lines| - 1]);
      if IsHeader(t) {
        assert FastaName(lines) == HeaderName(t);
        RemoveCharRemoves(t, '>');
        TrimKeepsChars(RemoveChar(t, '>'), '>');
      } else {
        FastaNameClean(lines[..|lines| - 1]);
      }
    }
  }

  /** Reading more lines: the later part's header wins, if it has one. */
  lemma {:induction false} FastaNameAppend(a: seq<string>, b: seq<string>)
    ensures FastaName(a + b) == (if HasHeader(b) then FastaName(b) else FastaName(a))
  {
    if |b| == 0 {
      assert a + b == a;
    } else {
      assert (a + b)[..|a + b| - 1] == a + b[..|b| - 1];
      FastaNameAppend(a, b[..|b| - 1]);
    }
  }

  /** Some line of the file is a header. */
  predicate HasHeader(lines: seq<string>)
  {
    |lines| > 0 && (LineName(lines[|lines| - 1]).Some? || HasHeader(lines[..|lines| - 1]))
  }

  /** The strand of two parts is the strand of each, concatenated. */
  lemma {:induction false} JoinedAppend(a: seq<string>, b: seq<string>, f: string -> seq<int>)
    ensures Joined(a + b, f) == Joined(a, f) + Joined(b, f)
  {
    if |b| == 0 {
      assert a + b == a;
    } else {
      assert (a + b)[..|a + b| - 1] == a + b[..|b| - 1];
      JoinedAppend(a, b[..|b| - 1], f);
    }
  }

  /** The strand of two parts is the strand of each, concatenated. */
  lemma FastaStrandAppend(a: seq<string>, b: seq<string>, bps: map<char, int>)
    ensures FastaStrand(a + b, bps) == FastaStrand(a, bps) + FastaStrand(b, bps)
  {
    JoinedAppend(a, b, line => LineIds(line, bps));
  }

  /** Every base of the strand is a base id of the letter table. */
  lemma {:induction false} FastaStrandIds(lines: seq<string>, bps: map<char, int>)
    ensures forall k :: 0 <= k < |FastaStrand(lines, bps)| ==> FastaStrand(lines, bps)[k] in bps.Values
  {
    if |lines| > 0 {
      FastaStrandIds(lines[..|lines| - 1], bps);
      assert FastaStrand(lines, bps) == FastaStrand(lines[..|lines| - 1], bps) + LineIds(lines[|lines| - 1], bps);
      RecognisedIds(Trim(lines[|lines| - 1]), bps);
    }
  }

  /** A file without a header has the empty description. */
  lemma {:induction false} FastaNoHeader(lines: seq<string>)
    requires !HasHeader(lines)
    ensures FastaName(lines) == ""
  {
    if |lines| > 0 {
      FastaNoHeader(lines[..|lines| - 1]);
    }
  }

  // ---------------------------------------------------------------- btrack

  const NO_FILE := "the btrack file does not exist"
  const READ_FAILED := "failed to read the btrack file"
  const SIZE_MISMATCH := "different size of dna strand and dna availability (btrack) files"

  /** Every line parsed as a byte, or None at the first line that does not parse. */
  function ParseAll(lines: seq<string>, parseByte: string -> Option<int>): (r: Option<seq<int>>)
    ensures r.Some? ==> |r.value| == |lines|
  {
    if |lines| == 0 then Some([])
    else match parseByte(lines[0])
      case None => None
      case Some(b) =>
        match ParseAll(lines[1..], parseByte)
        case None => None
        case Some(rest) => Some([b] + rest)
  }

  /** The state of each base pair: open for the value 1, closed for anything else. */
  function States(values: seq<int>): (s: seq<BpState>)
    ensures |s| == |values|
  {
    seq(|values|, i requires 0 <= i < |values| => if values[i] == 1 then Open else Closed)
  }

  /**
   * What `btrackFileParser` returns and the `closed` array it leaves: the
   * states of the file when every line parses and the count matches,
   * otherwise an error message and the array as it was.
   */
  function Btrack(exists_: bool, lines: seq<string>, parseByte: string -> Option<int>, closed: seq<BpState>)
    : (r: (string, seq<BpState>))
    ensures |r.1| == |closed|
    ensures r.0 == "" <==> exists_ && ParseAll(lines, parseByte).Some? && |lines| == |closed|
    ensures r.0 != "" ==> r.1 == closed
  {
    if !exists_ then (NO_FILE, closed)
    else match ParseAll(lines, parseByte)
      case None => (READ_FAILED, closed)
      case Some(values) =>
        if |values| == |closed| then ("", States(values)) else (SIZE_MISMATCH, closed)
  }

  /** A file parses iff every line parses, and then holds the bytes of the lines in order. */
  lemma {:induction false} ParseAllIff(lines: seq<string>, parseByte: string -> Option<int>)
    ensures ParseAll(lines, parseByte).Some? <==> forall j :: 0 <= j < |lines| ==> parseByte(lines[j]).Some?
    ensures ParseAll(lines, parseByte).Some? ==>
      forall j :: 0 <= j < |lines| ==> ParseAll(lines, parseByte).value[j] == parseByte(lines[j]).value
  {
    if |lines| > 0 {
      ParseAllIff(lines[1..], parseByte);
      assert forall j :: 1 <= j < |lines| ==> lines[1..][j - 1] == lines[j];
    }
  }

  /** On success the base pair i is open iff line i holds 1, and no base pair is repressed. */
  lemma BtrackOpenIff(lines: seq<string>, parseByte: string -> Option<int>, closed: seq<BpState>, i: nat)
    requires Btrack(true, lines, parseByte, closed).0 == "" && i < |closed|
    ensures Btrack(true, lines, parseByte, closed).1[i] == Open <==> parseByte(lines[i]) == Some(1)
    ensures Btrack(true, lines, parseByte, closed).1[i] != Repressed
  {
    ParseAllIff(lines, parseByte);
  }

  /** The reading loop: the bytes of the lines, or None at the first line that does not parse. */
  method ReadBytes(lines: seq<string>, parseByte: string -> Option<int>) returns (r: Option<seq<int>>)
    ensures r == ParseAll(lines, parseByte)
  {
    ParseAllIff(lines, parseByte);
    var buffer: seq<int> := [];
    var i := 0;
    while i < |lines|
      invariant 0 <= i <= |lines| && |buffer| == i
      invariant forall j :: 0 <= j < i ==> parseByte(lines[j]).Some? && buffer[j] == parseByte(lines[j]).value
    {
      var b := parseByte(lines[i]);
      if b.None? {
        return None;
      }
      buffer := buffer + [b.value];
      i := i + 1;
    }
    assert buffer == ParseAll(lines, parseByte).value;
    return Some(buffer);
  }

  /** `btrackFileParser(filename, closed)` over the lines of the file. */
  method BtrackFileParser(exists_: bool, lines: seq<string>, parseByte: string -> Option<int>, closed: array<BpState>)
    returns (err: string)
    modifies closed
    ensures (err, closed[..]) == Btrack(exists_, lines, parseByte, old(closed[..]))
  {
    if !exists_ {
      return NO_FILE;
    }
    var values := ReadBytes(lines, parseByte);
    if values.None? {
      return READ_FAILED;
    }
    var buffer := values.value;
    if |buffer| == closed.Length {
      var i := 0;
      while i < |buffer|
        invariant 0 <= i <= |buffer|
        invariant closed[..i] == States(buffer)[..i]
      {
        closed[i] := if buffer[i] == 1 then Open else Closed;
        assert closed[..i + 1] == closed[..i] + [closed[i]];
        i := i + 1;
      }
      assert closed[..] == closed[..i];
      assert States(buffer)[..i] == States(buffer);
      return "";
    }
    return SIZE_MISMATCH;
  }
}
