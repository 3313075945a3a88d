/**
 * File names of simulation results (utils.py and dataproc/utils.py
 * `get_name`): a result file is named `prefix + name + id + ext` inside the
 * experiment directory; utils.py falls back to a directory listing when
 * that exact file does not exist.
 */
module PyNames {
  import opened Wrappers
  import opened Text

  /** A non-empty extension without its leading '.' gets one. */
  function NormaliseExt(ext: string): (r: string)
    ensures r == "" || r[0] == '.'
    ensures (ext == "" || ext[0] == '.') ==> r == ext
    ensures ext != "" && ext[0] != '.' ==> |r| == |ext| + 1 && r[1..] == ext
  {
    if ext != "" && !StartsWith(ext, ".") then "." + ext else ext
  }

  /** Normalising an extension twice changes nothing more. */
  lemma NormaliseExtIdempotent(ext: string)
    ensures NormaliseExt(NormaliseExt(ext)) == NormaliseExt(ext)
  {
  }

  /**
   * `os.path.join` of two POSIX path components: an absolute second part
   * replaces the first; otherwise a '/' is inserted unless the first part is
   * empty or already ends with one.
   */
  function PathJoin(dir: string, file: string): (r: string)
    ensures EndsWith(r, file)
    ensures file != "" && file[0] == '/' ==> r == file
  {
    if StartsWith(file, "/") then file
    else if dir == "" || EndsWith(dir, "/") then dir + file
    else dir + "/" + file
  }

  /** Joining a plain directory and a relative file name puts exactly one '/' between them. */
  lemma PathJoinPlain(dir: string, file: string)
    requires dir != "" && dir[|dir| - 1] != '/'
    requires file == "" || file[0] != '/'
    ensures PathJoin(dir, file) == dir + "/" + file
    ensures StartsWith(PathJoin(dir, file), dir + "/")
  {
    assert !StartsWith(file, "/") by {
      if |file| > 0 {
        assert file[..1][0] == file[0];
      }
    }
    assert !EndsWith(dir, "/") by {
      assert dir[|dir| - 1..][0] == dir[|dir| - 1];
    }
    assert (dir + "/" + file)[..|dir| + 1] == dir + "/";
  }

  /** The path both versions try first: `prefix + name + id + ext` inside dir. */
  function ExactName(dir: string, prefix: string, name: string, id: string, ext: string): string {
    PathJoin(dir, prefix + name + id + NormaliseExt(ext))
  }

  /** dataproc/utils.py `get_name`: the exact path, without looking at the directory. */
  function GetNameDataproc(dir: string, prefix: string, name: string, id: string, ext: string): (r: string)
    ensures EndsWith(r, prefix + name + id + NormaliseExt(ext))
  {
    ExactName(dir, prefix, name, id, ext)
  }

  /** A listed file that `get_name` considers: it starts with prefix + name and ends with id + ext. */
  predicate IsCandidate(file: string, stem: string, tail: string) {
    StartsWith(file, stem) && EndsWith(file, tail)
  }

  /** The candidates among the listed files, in listing order. */
  function Candidates(listing: seq<string>, stem: string, tail: string): (r: seq<string>)
    ensures |r| <= |listing|
    ensures forall f :: f in r <==> f in listing && IsCandidate(f, stem, tail)
  {
    if |listing| == 0 then []
    else
      var last := listing[|listing| - 1];
      assert listing == listing[..|listing| - 1] + [last];
      Candidates(listing[..|listing| - 1], stem, tail) + (if IsCandidate(last, stem, tail) then [last] else [])
  }

  /** Names containing "0.0s" belong to the snapshot taken at time zero and are passed over. */
  const TIME_ZERO: string := "0.0s"

  /** The last file in the list whose name does not contain "0.0s". */
  function LastClean(files: seq<string>): (r: Option<string>)
    ensures r.None? <==> forall i :: 0 <= i < |files| ==> Contains(files[i], TIME_ZERO)
    ensures r.Some? ==> r.value in files && !Contains(r.value, TIME_ZERO)
  {
    if |files| == 0 then None
    else if !Contains(files[|files| - 1], TIME_ZERO) then Some(files[|files| - 1])
    else
      var r := LastClean(files[..|files| - 1]);
      assert forall i :: 0 <= i < |files| - 1 ==> files[..|files| - 1][i] == files[i];
      r
  }

  lemma LastCleanStep(files: seq<string>, j: nat)
    requires j < |files|
    ensures LastClean(files[..j + 1]) ==
      if Contains(files[j], TIME_ZERO) then LastClean(files[..j]) else Some(files[j])
  {
    assert files[..j + 1][..j] == files[..j];
  }

  /** The chosen file is the last clean one: every later file contains "0.0s". */
  lemma {:induction false} LastCleanIsLast(files: seq<string>, k: nat)
    requires k < |files| && !Contains(files[k], TIME_ZERO)
    requires forall j :: k < j < |files| ==> Contains(files[j], TIME_ZERO)
    ensures LastClean(files) == Some(files[k])
  {
    if k < |files| - 1 {
      var init := files[..|files| - 1];
      assert init[k] == files[k];
      LastCleanIsLast(init, k);
    }
  }

  /**
   * utils.py `get_name`, as a value: the exact path when `isFile` says it is
   * there; otherwise the last clean candidate of the listing joined to dir;
   * otherwise the exact path anyway.
   */
  function NameOf(dir: string, prefix: string, name: string, id: string, ext: string,
                  isFile: string -> bool, listing: seq<string>): string
  {
    var exact := ExactName(dir, prefix, name, id, ext);
    if isFile(exact) then exact
    else
      match LastClean(Candidates(listing, prefix + name, id + NormaliseExt(ext)))
      case Some(f) => PathJoin(dir, f)
      case None => exact
  }

  /**
   * utils.py `get_name`: `isFile` answers `os.path.exists` and `listing` is
   * `os.listdir(dir)` in the order it is returned. The first loop collects
   * the candidates, the second keeps the last one without "0.0s".
   */
  method GetName(dir: string, prefix: string, name: string, id: string, ext: string,
                 isFile: string -> bool, listing: seq<string>) returns (fullName: string)
    ensures fullName == NameOf(dir, prefix, name, id, ext, isFile, listing)
  {
    var e := NormaliseExt(ext);
    fullName := PathJoin(dir, prefix + name + id + e);
    if !isFile(fullName) {
      var files := CollectCandidates(listing, prefix + name, id + e);
      if |files| != 0 {
        fullName := PickLastClean(dir, files, fullName);
      }
    }
  }

  /** The first loop of `get_name`: the listed files that start with stem and end with tail. */
  method CollectCandidates(listing: seq<string>, stem: string, tail: string) returns (files: seq<string>)
    ensures files == Candidates(listing, stem, tail)
  {
    files := [];
    var i := 0;
    while i < |listing|
      invariant 0 <= i <= |listing|
      invariant files == Candidates(listing[..i], stem, tail)
    {
      assert listing[..i + 1][..i] == listing[..i];
      if StartsWith(listing[i], stem) && EndsWith(listing[i], tail) {
        files := files + [listing[i]];
      }
      i := i + 1;
    }
    assert listing[..i] == listing;
  }

  /** The second loop of `get_name`: each clean file overwrites the name chosen so far. */
  method PickLastClean(dir: string, files: seq<string>, exact: string) returns (fullName: string)
    ensures fullName == PickedName(dir, LastClean(files), exact)
  {
    fullName := exact;
    var j := 0;
    while j < |files|
      invariant 0 <= j <= |files|
      invariant fullName == PickedName(dir, LastClean(files[..j]), exact)
    {
      LastCleanStep(files, j);
      if !Contains(files[j], TIME_ZERO) {
        fullName := PathJoin(dir, files[j]);
      }
      j := j + 1;
    }
    assert files[..j] == files;
  }

  /** The path of a chosen listed file, or the exact path when none was chosen. */
  function PickedName(dir: string, choice: Option<string>, exact: string): string {
    match choice
    case Some(f) => PathJoin(dir, f)
    case None => exact
  }

  /**
   * What `get_name` returns: the exact path, or the listed candidate that
   * is clean and comes after every other clean candidate, joined to dir.
   */
  lemma NameOfChoice(dir: string, prefix: string, name: string, id: string, ext: string,
                     isFile: string -> bool, listing: seq<string>)
    ensures isFile(ExactName(dir, prefix, name, id, ext)) ==>
      NameOf(dir, prefix, name, id, ext, isFile, listing) == ExactName(dir, prefix, name, id, ext)
    ensures NameOf(dir, prefix, name, id, ext, isFile, listing) == ExactName(dir, prefix, name, id, ext) ||
      exists f :: f in listing && IsCandidate(f, prefix + name, id + NormaliseExt(ext)) &&
        !Contains(f, TIME_ZERO) && NameOf(dir, prefix, name, id, ext, isFile, listing) == PathJoin(dir, f)
  {
  }

  /**
   * When the exact file is missing and the candidates list has a clean entry
   * at k followed only by "0.0s" entries, that entry is chosen.
   */
  lemma NameOfLastClean(dir: string, prefix: string, name: string, id: string, ext: string,
                        isFile: string -> bool, listing: seq<string>, k: nat)
    requires !isFile(ExactName(dir, prefix, name, id, ext))
    requires var files := Candidates(listing, prefix + name, id + NormaliseExt(ext));
      k < |files| && !Contains(files[k], TIME_ZERO) &&
      forall j :: k < j < |files| ==> Contains(files[j], TIME_ZERO)
    ensures NameOf(dir, prefix, name, id, ext, isFile, listing) ==
      PathJoin(dir, Candidates(listing, prefix + name, id + NormaliseExt(ext))[k])
  {
    LastCleanIsLast(Candidates(listing, prefix + name, id + NormaliseExt(ext)), k);
  }

  /** The two versions agree whenever the exact file exists or no candidate is clean. */
  lemma NameVersionsAgree(dir: string, prefix: string, name: string, id: string, ext: string,
                          isFile: string -> bool, listing: seq<string>)
    requires isFile(ExactName(dir, prefix, name, id, ext)) ||
      forall f :: f in listing && IsCandidate(f, prefix + name, id + NormaliseExt(ext)) ==> Contains(f, TIME_ZERO)
    ensures NameOf(dir, prefix, name, id, ext, isFile, listing) == GetNameDataproc(dir, prefix, name, id, ext)
  {
    var files := Candidates(listing, prefix + name, id + NormaliseExt(ext));
    assert forall i :: 0 <= i < |files| ==> files[i] in files;
  }
}
