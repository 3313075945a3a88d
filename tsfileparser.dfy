/**
 * The reader of the target-site file (src/utils/TSfileParser.java). Each
 * non-empty line is a group: a logical expression over target-site
 * descriptions `TF<delimiter>region`. Every description becomes a site,
 * shared with an equal site read before; the group records the ids of its
 * sites, each site the ids of its groups, and the expression, with every
 * description replaced by its site id, is turned into reverse Polish
 * notation. The file arrives as its lines; the parsing of a region, the
 * operator words and their replacement (`TargetSitesGroupLogic`) are
 * parameters.
 */
module TsFileParser {
  import opened Wrappers
  import opened Text
  import Cell
  import opened TargetSites
  import opened TargetSitesGroups
  import opened SitesAndGroups
  import JUtils

  // ------------------------------------------------------------ splitting a line

  /** The separators of `split("[ \t()]+")`. */
  predicate IsSplitChar(c: char) { c == ' ' || c == '\t' || c == '(' || c == ')' }

  /** The index of the first separator, or the length when there is none. */
  function FirstSplit(s: string): (k: nat)
    ensures k <= |s| && (k < |s| ==> IsSplitChar(s[k]))
    ensures forall i :: 0 <= i < k ==> !IsSplitChar(s[i])
  {
    if |s| == 0 then 0 else if IsSplitChar(s[0]) then 0 else 1 + FirstSplit(s[1..])
  }

  /**
   * The pieces of a line between runs of separators. Java's split also
   * yields an empty first piece when the line starts with a separator;
   * the reader skips empty pieces, so they are left out here.
   */
  function Tokens(s: string): seq<string>
    decreases |s|
  {
    if |s| == 0 then []
    else
      var k := FirstSplit(s);
      (if k > 0 then [s[..k]] else []) + (if k < |s| then Tokens(s[k + 1..]) else [])
  }

  /** The line without its separators. */
  function Unseparated(s: string): string
  {
    if |s| == 0 then "" else (if IsSplitChar(s[0]) then "" else [s[0]]) + Unseparated(s[1..])
  }

  function Concat(parts: seq<string>): string
  {
    if |parts| == 0 then "" else parts[0] + Concat(parts[1..])
  }

  lemma {:induction false} ConcatAppend(a: seq<string>, b: seq<string>)
    ensures Concat(a + b) == Concat(a) + Concat(b)
    decreases |a|
  {
    if |a| == 0 {
      assert a + b == b;
    } else {
      assert (a + b)[1..] == a[1..] + b;
      ConcatAppend(a[1..], b);
    }
  }

  lemma {:induction false} UnseparatedAppend(a: string, b: string)
    ensures Unseparated(a + b) == Unseparated(a) + Unseparated(b)
    decreases |a|
  {
    if |a| == 0 {
      assert a + b == b;
    } else {
      assert (a + b)[1..] == a[1..] + b;
      UnseparatedAppend(a[1..], b);
    }
  }

  lemma {:induction false} UnseparatedClean(s: string)
    requires forall i :: 0 <= i < |s| ==> !IsSplitChar(s[i])
    ensures Unseparated(s) == s
    decreases |s|
  {
    if |s| > 0 {
      UnseparatedClean(s[1..]);
    }
  }

  /** The pieces are non-empty and hold no separator. */
  lemma {:induction false} TokensClean(s: string)
    ensures forall t :: t in Tokens(s) ==> |t| > 0 && forall i :: 0 <= i < |t| ==> !IsSplitChar(t[i])
    decreases |s|
  {
    if |s| > 0 {
      var k := FirstSplit(s);
      if k < |s| {
        TokensClean(s[k + 1..]);
      }
    }
  }

  /** Up to its first separator the line is kept, and the separator is dropped. */
  lemma UnseparatedAtSplit(s: string)
    requires FirstSplit(s) < |s|
    ensures Unseparated(s) == s[..FirstSplit(s)] + Unseparated(s[FirstSplit(s) + 1..])
  {
    UnseparatedAt(s, FirstSplit(s));
  }

  lemma UnseparatedAt(s: string, k: nat)
    requires k < |s| && IsSplitChar(s[k])
    requires forall i :: 0 <= i < k ==> !IsSplitChar(s[i])
    ensures Unseparated(s) == s[..k] + Unseparated(s[k + 1..])
  {
    var head, rest := s[..k], s[k..];
    assert s == head + rest;
    UnseparatedAppend(head, rest);
    assert forall i :: 0 <= i < |head| ==> head[i] == s[i];
    UnseparatedClean(head);
    assert rest[0] == s[k] && rest[1..] == s[k + 1..];
    assert Unseparated(rest) == Unseparated(s[k + 1..]);
  }

  /** Put together in order, the pieces are the line without its separators. */
  lemma {:induction false} TokensJoin(s: string)
    ensures Concat(Tokens(s)) == Unseparated(s)
    decreases |s|, 1
  {
    if |s| > 0 {
      if FirstSplit(s) < |s| {
        TokensJoinAtSplit(s);
      } else {
        assert s[..FirstSplit(s)] == s;
        assert Tokens(s) == [s];
        UnseparatedClean(s);
      }
    }
  }

  /** The step of TokensJoin at the line's first separator. */
  lemma {:induction false} TokensJoinAtSplit(s: string)
    requires FirstSplit(s) < |s|
    ensures Concat(Tokens(s)) == Unseparated(s)
    decreases |s|, 0
  {
    var k := FirstSplit(s);
    var rest := s[k + 1..];
    TokensJoin(rest);
    UnseparatedAtSplit(s);
    if k == 0 {
      assert Tokens(s) == Tokens(rest);
    } else {
      assert Tokens(s) == [s[..k]] + Tokens(rest);
      ConcatCons(s[..k], Tokens(rest));
    }
  }

  lemma ConcatCons(head: string, tail: seq<string>)
    ensures Concat([head] + tail) == head + Concat(tail)
  {
    assert ([head] + tail)[1..] == tail;
  }

  // ------------------------------------------------------------ what a line gives

  /** A piece the token loop reads as a site description: not blank once trimmed, and not an operator. */
  predicate IsDescription(syntax: SiteSyntax, token: string) {
    |Trim(token)| > 0 && !syntax.isOperator(Trim(token))
  }

  /**
   * Why a description stops the simulation, if it does: it has no
   * delimiter, or the trimmed text before its first delimiter names no
   * species.
   */
  function DescriptionError(species: seq<Cell.SpeciesInfo>, delimiter: char, str: string): Option<SiteError>
  {
    if delimiter !in str then Some(NoTfSpecies)
    else if Cell.SpeciesIdFrom(species, Trim(str[..IndexOf(str, delimiter)]), 0) == NONE then Some(UnknownTf)
    else None
  }

  /** The region of a description: the text after its first delimiter, parsed. */
  function DescribedRegion(syntax: SiteSyntax, str: string): SiteRegion
    requires syntax.delimiter in str
  {
    syntax.parseRegion(str[IndexOf(str, syntax.delimiter) + 1..])
  }

  /** A description `extractTargetSite` keeps: it names a species and both ends of its region parsed. */
  predicate GivesSite(species: seq<Cell.SpeciesInfo>, syntax: SiteSyntax, str: string) {
    syntax.delimiter in str && DescriptionError(species, syntax.delimiter, str).None? &&
    DescribedRegion(syntax, str).start != NONE && DescribedRegion(syntax, str).end != NONE
  }

  /**
   * What `equals` compares of the site a description naming a species
   * gives: the ends the constructor computes with the TF's total size,
   * the region's direction and the TF.
   */
  function DescribedKey(species: seq<Cell.SpeciesInfo>, syntax: SiteSyntax, str: string): (int, int, int, int)
    requires Cell.SpeciesIndexed(species)
    requires syntax.delimiter in str && DescriptionError(species, syntax.delimiter, str).None?
  {
    var name := Trim(str[..IndexOf(str, syntax.delimiter)]);
    Cell.SpeciesIdIsIndex(species, name);
    var id := Cell.SpeciesIdFrom(species, name, 0);
    var region := DescribedRegion(syntax, str);
    var size := species[id].sizeTotal;
    var ends := Rescaled(JUtils.ToInt(region.start - syntax.dnaStart),
                         JUtils.ToInt(region.end - syntax.dnaStart - size), size, syntax.dnaSize);
    (ends.0, ends.1, region.direction, id)
  }

  /** The first description among the pieces that stops the simulation, if one does. */
  function LineError(species: seq<Cell.SpeciesInfo>, syntax: SiteSyntax, tokens: seq<string>): Option<SiteError>
  {
    if |tokens| == 0 then None
    else
      var e := LineError(species, syntax, tokens[..|tokens| - 1]);
      var last := tokens[|tokens| - 1];
      if e.Some? || !IsDescription(syntax, last) then e else DescriptionError(species, syntax.delimiter, Trim(last))
  }

  /** The descriptions among the pieces that give sites, trimmed, in order. */
  function SiteDescriptions(species: seq<Cell.SpeciesInfo>, syntax: SiteSyntax, tokens: seq<string>): (r: seq<string>)
    ensures |r| <= |tokens|
    ensures forall k :: 0 <= k < |r| ==> |r[k]| > 0 && GivesSite(species, syntax, r[k])
  {
    if |tokens| == 0 then []
    else
      var last := tokens[|tokens| - 1];
      SiteDescriptions(species, syntax, tokens[..|tokens| - 1]) +
      (if IsDescription(syntax, last) && GivesSite(species, syntax, Trim(last)) then [Trim(last)] else [])
  }

  /** The expression with each description, in order, replaced (`replaceAll`) by the id of its site. */
  function Substituted(expression: string, strs: seq<string>, ids: seq<int>): string
    requires |strs| == |ids| && forall k :: 0 <= k < |strs| ==> |strs[k]| > 0
  {
    if |strs| == 0 then expression
    else
      var n := |strs| - 1;
      PatternReplaceAll(Substituted(expression, strs[..n], ids[..n]), strs[n], IntToString(ids[n]))
  }

  /** The expression a group keeps once `generateRPN` ran: none for an empty one. */
  function RpnOf(expression: string): Option<string>
  {
    if |expression| > 0 then Some(Trim(RpnOutput(expression))) else None
  }

  /** The site has the key the description gives. */
  predicate KeyedBy(species: seq<Cell.SpeciesInfo>, syntax: SiteSyntax, site: TargetSite, str: string) {
    Cell.SpeciesIndexed(species) && GivesSite(species, syntax, str) && site.Key() == DescribedKey(species, syntax, str)
  }

  /** Description k's site is where id k points, with the key the description gives. */
  predicate SitesKeyed(species: seq<Cell.SpeciesInfo>, syntax: SiteSyntax, sites: seq<TargetSite>, strs: seq<string>,
                       ids: seq<int>)
  {
    |ids| == |strs| &&
    forall k :: 0 <= k < |strs| ==> 0 <= ids[k] < |sites| && KeyedBy(species, syntax, sites[ids[k]], strs[k])
  }

  /** What one line of the file stops the simulation with, if anything: only a non-blank line is read. */
  function LineOutcome(species: seq<Cell.SpeciesInfo>, syntax: SiteSyntax, line: string): Option<SiteError>
  {
    var text := Trim(line);
    if |text| > 0 then LineError(species, syntax, Tokens(Trim(text))) else None
  }

  /** The first line of the file that stops the simulation, and why. */
  function FileError(species: seq<Cell.SpeciesInfo>, syntax: SiteSyntax, lines: seq<string>): Option<SiteError>
  {
    if |lines| == 0 then None
    else
      var e := FileError(species, syntax, lines[..|lines| - 1]);
      if e.Some? then e else LineOutcome(species, syntax, lines[|lines| - 1])
  }

  /** Once a piece stops the simulation, the pieces after it do not matter. */
  lemma {:induction false} LineErrorPrefix(species: seq<Cell.SpeciesInfo>, syntax: SiteSyntax, tokens: seq<string>,
                                           m: nat)
    requires m <= |tokens| && LineError(species, syntax, tokens[..m]).Some?
    ensures LineError(species, syntax, tokens) == LineError(species, syntax, tokens[..m])
    decreases |tokens|
  {
    if m < |tokens| {
      var init := tokens[..|tokens| - 1];
      assert init[..m] == tokens[..m];
      LineErrorPrefix(species, syntax, init, m);
    } else {
      assert tokens[..m] == tokens;
    }
  }

  /** A line read after lines that did not stop the simulation decides it. */
  lemma FileErrorStep(species: seq<Cell.SpeciesInfo>, syntax: SiteSyntax, lines: seq<string>, i: nat,
                      e: Option<SiteError>)
    requires i < |lines| && FileError(species, syntax, lines[..i]) == None && e == LineOutcome(species, syntax, lines[i])
    ensures FileError(species, syntax, lines[..i + 1]) == e
  {
    var p := lines[..i + 1];
    FileErrorLast(species, syntax, p);
    assert p[..i] == lines[..i] && p[i] == lines[i] && |p| == i + 1;
  }

  /** The last line decides, unless the lines before it stopped the simulation. */
  lemma FileErrorLast(species: seq<Cell.SpeciesInfo>, syntax: SiteSyntax, lines: seq<string>)
    requires |lines| > 0
    ensures FileError(species, syntax, lines) ==
      var e := FileError(species, syntax, lines[..|lines| - 1]);
      if e.Some? then e else LineOutcome(species, syntax, lines[|lines| - 1])
  {
  }

  /** A piece read after pieces that did not stop the simulation decides it. */
  lemma LineErrorStep(species: seq<Cell.SpeciesInfo>, syntax: SiteSyntax, tokens: seq<string>, j: nat)
    requires j < |tokens| && LineError(species, syntax, tokens[..j]) == None
    ensures LineError(species, syntax, tokens[..j + 1]) ==
      if IsDescription(syntax, tokens[j]) then DescriptionError(species, syntax.delimiter, Trim(tokens[j])) else None
  {
    var p := tokens[..j + 1];
    assert p[..j] == tokens[..j] && p[j] == tokens[j] && |p| == j + 1;
    var prev := LineError(species, syntax, p[..j]);
    assert prev == None;
    assert LineError(species, syntax, p) ==
      if prev.Some? || !IsDescription(syntax, p[j]) then prev else DescriptionError(species, syntax.delimiter, Trim(p[j]));
  }

  /** One more piece adds its description when it gives a site. */
  lemma SiteDescriptionsStep(species: seq<Cell.SpeciesInfo>, syntax: SiteSyntax, tokens: seq<string>, j: nat)
    requires j < |tokens|
    ensures SiteDescriptions(species, syntax, tokens[..j + 1]) ==
      SiteDescriptions(species, syntax, tokens[..j]) +
      (if IsDescription(syntax, tokens[j]) && GivesSite(species, syntax, Trim(tokens[j])) then [Trim(tokens[j])] else [])
  {
    var p := tokens[..j + 1];
    assert p[..j] == tokens[..j] && p[j] == tokens[j] && |p| == j + 1;
  }

  /** Once a line stops the simulation, the lines after it do not matter. */
  lemma {:induction false} FileErrorPrefix(species: seq<Cell.SpeciesInfo>, syntax: SiteSyntax, lines: seq<string>,
                                           m: nat)
    requires m <= |lines| && FileError(species, syntax, lines[..m]).Some?
    ensures FileError(species, syntax, lines) == FileError(species, syntax, lines[..m])
    decreases |lines|
  {
    if m < |lines| {
      var init := lines[..|lines| - 1];
      assert init[..m] == lines[..m];
      FileErrorPrefix(species, syntax, init, m);
    } else {
      assert lines[..m] == lines;
    }
  }

  /** One more description replaces its text in the expression substituted so far. */
  lemma SubstitutedStep(expression: string, strs: seq<string>, ids: seq<int>, str: string, id: int)
    requires |strs| == |ids| && (forall k :: 0 <= k < |strs| ==> |strs[k]| > 0) && |str| > 0
    ensures Substituted(expression, strs + [str], ids + [id]) ==
      PatternReplaceAll(Substituted(expression, strs, ids), str, IntToString(id))
  {
    assert (strs + [str])[..|strs|] == strs;
    assert (ids + [id])[..|ids|] == ids;
  }

  /** Sites appended after the keyed ones keep them keyed. */
  lemma KeyedGrown(species: seq<Cell.SpeciesInfo>, syntax: SiteSyntax, sites: seq<TargetSite>, more: seq<TargetSite>,
                   strs: seq<string>, ids: seq<int>)
    requires SitesKeyed(species, syntax, sites, strs, ids) && sites <= more
    ensures SitesKeyed(species, syntax, more, strs, ids)
  {
    forall k | 0 <= k < |strs|
      ensures 0 <= ids[k] < |more| && KeyedBy(species, syntax, more[ids[k]], strs[k])
    {
      assert more[ids[k]] == sites[ids[k]];
    }
  }

  /** A site with the key of one more description extends the keyed list. */
  lemma KeyedAppend(species: seq<Cell.SpeciesInfo>, syntax: SiteSyntax, sites: seq<TargetSite>, strs: seq<string>,
                    ids: seq<int>, str: string, id: int)
    requires SitesKeyed(species, syntax, sites, strs, ids)
    requires 0 <= id < |sites| && KeyedBy(species, syntax, sites[id], str)
    ensures SitesKeyed(species, syntax, sites, strs + [str], ids + [id])
  {
    var strs', ids' := strs + [str], ids + [id];
    forall k | 0 <= k < |strs'|
      ensures 0 <= ids'[k] < |sites| && KeyedBy(species, syntax, sites[ids'[k]], strs'[k])
    {
      if k < |strs| {
        assert strs'[k] == strs[k] && ids'[k] == ids[k];
      }
    }
  }

  /**
   * The loop's invariants carried over piece j: the pieces' descriptions
   * stay keyed by the ids, and the expression substituted.
   */
  lemma TokenStep(species: seq<Cell.SpeciesInfo>, syntax: SiteSyntax, tokens: seq<string>, j: nat, text: string,
                  sites: seq<TargetSite>, more: seq<TargetSite>, ids: seq<int>, ids': seq<int>, newID: int,
                  expression: string, result: string)
    requires j < |tokens| && sites <= more
    requires SitesKeyed(species, syntax, sites, SiteDescriptions(species, syntax, tokens[..j]), ids)
    requires expression == Substituted(text, SiteDescriptions(species, syntax, tokens[..j]), ids)
    requires newID != NONE <==> IsDescription(syntax, tokens[j]) && GivesSite(species, syntax, Trim(tokens[j]))
    requires newID == NONE ==> result == expression && ids' == ids
    requires newID != NONE ==>
      result == PatternReplaceAll(expression, Trim(tokens[j]), IntToString(newID)) &&
      0 <= newID < |more| && KeyedBy(species, syntax, more[newID], Trim(tokens[j])) && ids' == ids + [newID]
    ensures SitesKeyed(species, syntax, more, SiteDescriptions(species, syntax, tokens[..j + 1]), ids')
    ensures result == Substituted(text, SiteDescriptions(species, syntax, tokens[..j + 1]), ids')
  {
    var strs := SiteDescriptions(species, syntax, tokens[..j]);
    SiteDescriptionsStep(species, syntax, tokens, j);
    KeyedGrown(species, syntax, sites, more, strs, ids);
    if newID != NONE {
      var str := Trim(tokens[j]);
      assert SiteDescriptions(species, syntax, tokens[..j + 1]) == strs + [str];
      KeyedAppend(species, syntax, more, strs, ids, str, newID);
      SubstitutedStep(text, strs, ids, str, newID);
    } else {
      assert SiteDescriptions(species, syntax, tokens[..j + 1]) == strs + [] == strs;
    }
  }

  /**
   * Site newID, one of the sites before or the one appended after them,
   * now lists group x last; no other site's groups changed.
   */
  twostate predicate SiteJoined(before: seq<TargetSite>, new sites: seq<TargetSite>, newID: int, x: int)
    reads sites`group
  {
    before <= sites && |sites| <= |before| + 1 && 0 <= newID < |sites| &&
    (newID < |before| ==> sites[newID].group == old(before[newID].group) + [x]) &&
    (newID >= |before| ==> sites[newID].group == [x]) &&
    forall i :: 0 <= i < |before| && i != newID ==> sites[i].group == old(before[i].group)
  }

  // ------------------------------------------------------------ the parser

  /** How descriptions are read: the parts of the cell and of `TargetSitesGroupLogic` the reader uses. */
  datatype SiteSyntax = SiteSyntax(delimiter: char, parseRegion: string -> SiteRegion, dnaStart: int, dnaSize: int,
                                   isOperator: string -> bool, replaceOperators: string -> string)

  /** Site i of the list names group x. */
  ghost predicate InGroup(sites: seq<TargetSite>, i: int, x: int)
    reads sites`group
  {
    0 <= i < |sites| && x in sites[i].group
  }

  /** Group k of the list names site t. */
  ghost predicate HasSite(groups: seq<TargetSitesGroup>, k: int, t: int)
    reads groups`targetSitesID
  {
    0 <= k < |groups| && t in groups[k].targetSitesID
  }

  /** Each site lists the groups holding it, and each group the sites it holds. */
  ghost predicate Linked(sites: seq<TargetSite>, groups: seq<TargetSitesGroup>)
    reads sites`group, groups`targetSitesID
  {
    (forall i, x :: InGroup(sites, i, x) ==> HasSite(groups, x, i)) &&
    (forall k, t :: HasSite(groups, k, t) ==> InGroup(sites, t, k))
  }

  /** A new group with no site keeps the links. */
  lemma LinkedNewGroup(sites: seq<TargetSite>, groups: seq<TargetSitesGroup>, g: TargetSitesGroup)
    requires Linked(sites, groups) && g.targetSitesID == []
    ensures Linked(sites, groups + [g])
  {
    var gs := groups + [g];
    forall i, x | InGroup(sites, i, x)
      ensures HasSite(gs, x, i)
    {
      assert HasSite(groups, x, i);
      assert gs[x] == groups[x];
    }
    forall k, t | HasSite(gs, k, t)
      ensures InGroup(sites, t, k)
    {
      assert gs[k] == groups[k];
      assert HasSite(groups, k, t);
    }
  }

  /** A new site in no group keeps the links. */
  lemma LinkedNewSite(sites: seq<TargetSite>, groups: seq<TargetSitesGroup>, s: TargetSite)
    requires Linked(sites, groups) && s.group == []
    ensures Linked(sites + [s], groups)
  {
    var ss := sites + [s];
    forall i, x | InGroup(ss, i, x)
      ensures HasSite(groups, x, i)
    {
      assert ss[i] == sites[i];
      assert InGroup(sites, i, x);
    }
    forall k, t | HasSite(groups, k, t)
      ensures InGroup(ss, t, k)
    {
      assert InGroup(sites, t, k);
      assert ss[t] == sites[t];
    }
  }

  /** Site newID joins group g, recorded on both sides. */
  method Link(sites: seq<TargetSite>, groups: seq<TargetSitesGroup>, newID: int, g: TargetSitesGroup)
    requires 0 <= newID < |sites| && g.groupID == |groups| && g !in groups
    requires forall i :: 0 <= i < |sites| && i != newID ==> sites[i] != sites[newID]
    requires Linked(sites, groups + [g])
    modifies sites`group, g`targetSitesID
    ensures Linked(sites, groups + [g])
    ensures g.targetSitesID == old(g.targetSitesID) + [newID]
    ensures sites[newID].group == old(sites[newID].group) + [g.groupID]
    ensures forall i :: 0 <= i < |sites| && i != newID ==> sites[i].group == old(sites[i].group)
  {
    var gs := groups + [g];
    var x := g.groupID;
    g.AddTargetSite(newID);
    var s := sites[newID];
    s.group := s.group + [x];
    forall i, y | InGroup(sites, i, y)
      ensures HasSite(gs, y, i)
    {
      if !(i == newID && y == x) {
        assert old(InGroup(sites, i, y));
        assert old(HasSite(gs, y, i));
      }
    }
    forall k, t | HasSite(gs, k, t)
      ensures InGroup(sites, t, k)
    {
      if !(k == x && t == newID) {
        assert old(HasSite(gs, k, t));
        assert old(InGroup(sites, t, k));
      }
    }
  }

  /** The group a line makes: its trimmed text, unless that is empty. */
  function LineGroup(line: string): seq<string>
  {
    var text := Trim(line);
    if |text| > 0 then [text] else []
  }

  /** The groups the lines make, in order. */
  function GroupLines(lines: seq<string>): (r: seq<string>)
    ensures |r| <= |lines| && forall t :: t in r ==> |t| > 0
  {
    if |lines| == 0 then [] else GroupLines(lines[..|lines| - 1]) + LineGroup(lines[|lines| - 1])
  }

  /** One more line adds its group. */
  lemma GroupLinesStep(lines: seq<string>, i: nat)
    requires i < |lines|
    ensures GroupLines(lines[..i + 1]) == GroupLines(lines[..i]) + LineGroup(lines[i])
  {
    assert lines[..i + 1][..i] == lines[..i];
  }

  /** The texts of groups end with the last group's text. */
  lemma TextsOfLast(gs: seq<TargetSitesGroup>)
    requires |gs| > 0
    ensures TextsOf(gs) == TextsOf(gs[..|gs| - 1]) + [gs[|gs| - 1].text]
  {
  }

  /** Appending in two steps is appending once. */
  lemma AppendStep<T>(a: seq<T>, done: seq<T>, step: seq<T>, b: seq<T>, x: seq<T>)
    requires b == a + done && x == b + step
    ensures x == a + (done + step)
  {
  }

  class TSfileParser {
    var tsg: TargetSitesAndGroups
    /** The id the next new site gets. */
    var tsId: int
    /** The id the next group gets. */
    var tsgId: int

    /** The counters are the numbers of sites and of groups. */
    ghost predicate Counted()
      reads this`tsg, this`tsId, this`tsgId, tsg`ts, tsg`tsg
    {
      tsId == |tsg.ts| && tsgId == |tsg.tsg|
    }

    /** Groups know their index (so no group is there twice). */
    ghost predicate GroupsIndexed()
      reads this`tsg, tsg`tsg
    {
      forall k :: 0 <= k < |tsg.tsg| ==> tsg.tsg[k].groupID == k
    }

    /** The sites and groups are valid, counted, indexed and linked both ways. */
    ghost predicate Valid()
      reads this`tsg, this`tsId, this`tsgId, tsg`ts, tsg`tsg, tsg`occupancy
      reads tsg.ts`targetSiteID, tsg.ts`group
      reads tsg.tsg`targetSitesID
    {
      tsg.Valid() && Counted() && GroupsIndexed() && Linked(tsg.ts, tsg.tsg)
    }

    /** The state before the first line. */
    constructor Empty()
      ensures Valid() && fresh(tsg) && tsg.ts == [] && tsg.tsg == []
    {
      tsg := new TargetSitesAndGroups();
      tsId := 0;
      tsgId := 0;
    }

    /**
     * The constructor's loop over the file: each line is trimmed, and each
     * non-empty one becomes the next group, in order. A line naming an
     * unknown TF species stops the reading.
     */
    method ReadLines(species: seq<Cell.SpeciesInfo>, syntax: SiteSyntax, lines: seq<string>)
      returns (err: Option<SiteError>)
      requires Valid() && Cell.SpeciesIndexed(species)
      modifies this, tsg, tsg.ts
      ensures tsg == old(tsg)
      ensures err == FileError(species, syntax, lines)
      ensures err.None? ==> Valid() && TextsOf(tsg.tsg) == old(TextsOf(tsg.tsg)) + GroupLines(lines)
    {
      err := None;
      ghost var initial := TextsOf(tsg.tsg);
      var i := 0;
      while i < |lines|
        invariant 0 <= i <= |lines| && Valid() && tsg == old(tsg) && Grown(old(tsg.ts))
        invariant TextsOf(tsg.tsg) == initial + GroupLines(lines[..i])
        invariant err == None && FileError(species, syntax, lines[..i]) == None
      {
        GroupLinesStep(lines, i);
        ghost var before := TextsOf(tsg.tsg);
        ghost var sites := tsg.ts;
        err := ReadNextLine(species, syntax, lines, i);
        if err.Some? {
          return;
        }
        forall k | |old(tsg.ts)| <= k < |tsg.ts|
          ensures fresh(tsg.ts[k])
        {
          if k < |sites| {
            assert tsg.ts[k] == sites[k];
          }
        }
        AppendStep(initial, GroupLines(lines[..i]), LineGroup(lines[i]), before, TextsOf(tsg.tsg));
        i := i + 1;
      }
      assert lines[..i] == lines;
    }

    /** Line i, after lines that did not stop the simulation: it stops it, or the file so far did not. */
    method ReadNextLine(species: seq<Cell.SpeciesInfo>, syntax: SiteSyntax, lines: seq<string>, i: nat)
      returns (err: Option<SiteError>)
      requires Valid() && Cell.SpeciesIndexed(species)
      requires i < |lines| && FileError(species, syntax, lines[..i]) == None
      modifies this, tsg, tsg.ts
      ensures tsg == old(tsg)
      ensures err.Some? ==> err == FileError(species, syntax, lines)
      ensures err.None? ==>
        FileError(species, syntax, lines[..i + 1]) == None && Valid() && Grown(old(tsg.ts)) &&
        TextsOf(tsg.tsg) == old(TextsOf(tsg.tsg)) + LineGroup(lines[i])
    {
      err := ReadLine(species, syntax, lines[i]);
      FileErrorStep(species, syntax, lines, i, err);
      if err.Some? {
        FileErrorPrefix(species, syntax, lines, i + 1);
      }
    }

    /** One line of the file: trimmed, and read as a group when it is not empty. */
    method ReadLine(species: seq<Cell.SpeciesInfo>, syntax: SiteSyntax, line: string)
      returns (err: Option<SiteError>)
      requires Valid() && Cell.SpeciesIndexed(species)
      modifies this, tsg, tsg.ts
      ensures tsg == old(tsg)
      ensures err == LineOutcome(species, syntax, line)
      ensures err.None? ==> Valid() && Grown(old(tsg.ts)) && TextsOf(tsg.tsg) == old(TextsOf(tsg.tsg)) + LineGroup(line)
    {
      ghost var before := TextsOf(tsg.tsg);
      err := None;
      var text := Trim(line);
      if |text| > 0 {
        err := ExtractTargetSitesAndGroups(species, syntax, text);
        if err.None? {
          TextsOfLast(tsg.tsg);
          assert TextsOf(tsg.tsg[..|tsg.tsg| - 1]) == before;
        }
      }
    }

    /**
     * While a line is read: the state is valid but for the group being
     * built, g, which has the next group id and is linked with its sites
     * as if it were already the last group.
     */
    ghost predicate Pending(g: TargetSitesGroup)
      reads this`tsg, this`tsId, this`tsgId, tsg`ts, tsg`tsg, tsg`occupancy
      reads tsg.ts`targetSiteID, tsg.ts`group
      reads tsg.tsg`targetSitesID, g`targetSitesID
    {
      tsg.Valid() && Counted() && GroupsIndexed() &&
      g.groupID == tsgId && g !in tsg.tsg && Linked(tsg.ts, tsg.tsg + [g])
    }

    /**
     * `extractTargetSitesAndGroups(n, text)`: one line becomes a new group
     * with the next group id. A description naming no TF species stops
     * the simulation (the error); a description whose region does not
     * parse is skipped. The sites already there stay where they are, and
     * new ones are appended.
     */
    method ExtractTargetSitesAndGroups(species: seq<Cell.SpeciesInfo>, syntax: SiteSyntax, text: string)
      returns (err: Option<SiteError>)
      requires Valid() && Cell.SpeciesIndexed(species)
      modifies this, tsg, tsg.ts
      ensures tsg == old(tsg)
      ensures err == LineError(species, syntax, Tokens(Trim(text)))
      ensures err.None? ==>
        Valid() && tsgId == old(tsgId) + 1 && |tsg.tsg| == |old(tsg.tsg)| + 1 &&
        tsg.tsg[..|old(tsg.tsg)|] == old(tsg.tsg) && fresh(tsg.tsg[|old(tsg.tsg)|]) &&
        tsg.tsg[|old(tsg.tsg)|].text == text && Grown(old(tsg.ts)) &&
        var g := tsg.tsg[|old(tsg.tsg)|];
        var strs := SiteDescriptions(species, syntax, Tokens(Trim(text)));
        SitesKeyed(species, syntax, tsg.ts, strs, g.targetSitesID) &&
        g.rpn == RpnOf(syntax.replaceOperators(Substituted(text, strs, g.targetSitesID)))
    {
      var g := NewGroup(text);
      var tokens := Tokens(Trim(text));
      var expression;
      err, expression := ReadTokens(species, syntax, tokens, g, text);
      if err.None? {
        assert tokens[..|tokens|] == tokens;
        var e := syntax.replaceOperators(expression);
        CommitGroup(g, e);
        assert g.rpn == RpnOf(e);
        assert tsg.tsg[|old(tsg.tsg)|] == g;
      }
    }

    /**
     * The loop over the pieces of a line, for the pending group g: the
     * first description without a species stops it; otherwise each
     * description that gives a site is keyed by its id in g and replaced
     * by it in the expression.
     */
    method ReadTokens(species: seq<Cell.SpeciesInfo>, syntax: SiteSyntax, tokens: seq<string>, g: TargetSitesGroup,
                      text: string)
      returns (err: Option<SiteError>, expression: string)
      requires Pending(g) && Cell.SpeciesIndexed(species) && g.targetSitesID == []
      modifies this`tsId, tsg, g`targetSitesID, tsg.ts
      ensures tsg == old(tsg) && tsg.tsg == old(tsg.tsg) && tsgId == old(tsgId)
      ensures err == LineError(species, syntax, tokens)
      ensures err.None? ==> Grown(old(tsg.ts)) && ReadSoFar(species, syntax, tokens, |tokens|, g, text, expression)
    {
      err, expression := ReadTokensFrom(species, syntax, tokens, 0, g, text, text);
    }

    /**
     * The loop from token j on, written as recursion on the tokens left:
     * token j is read, and the rest follow unless it stopped the
     * simulation.
     */
    method ReadTokensFrom(species: seq<Cell.SpeciesInfo>, syntax: SiteSyntax, tokens: seq<string>, j: nat,
                          g: TargetSitesGroup, text: string, expression: string)
      returns (err: Option<SiteError>, result: string)
      requires Cell.SpeciesIndexed(species) && ReadSoFar(species, syntax, tokens, j, g, text, expression)
      modifies this`tsId, tsg, g`targetSitesID, tsg.ts
      ensures tsg == old(tsg) && tsg.tsg == old(tsg.tsg) && tsgId == old(tsgId)
      ensures err == LineError(species, syntax, tokens)
      ensures err.None? ==> Grown(old(tsg.ts)) && ReadSoFar(species, syntax, tokens, |tokens|, g, text, result)
      decreases |tokens| - j
    {
      if j == |tokens| {
        assert tokens[..j] == tokens;
        return None, expression;
      }
      err, result := ReadNextToken(species, syntax, tokens, j, g, text, expression);
      if err.Some? {
        return;
      }
      ghost var sites2 := tsg.ts;
      err, result := ReadTokensFrom(species, syntax, tokens, j + 1, g, text, result);
      if err.None? {
        forall k | |old(tsg.ts)| <= k < |tsg.ts|
          ensures fresh(tsg.ts[k])
        {
          if k < |sites2| {
            assert tsg.ts[k] == sites2[k];
          }
        }
      }
    }

    /**
     * The first j tokens of a line did not stop the simulation: their
     * descriptions are keyed by the pending group's ids and substituted
     * in the expression.
     */
    ghost predicate ReadSoFar(species: seq<Cell.SpeciesInfo>, syntax: SiteSyntax, tokens: seq<string>, j: nat,
                              g: TargetSitesGroup, text: string, expression: string)
      reads this`tsg, this`tsId, this`tsgId, tsg`ts, tsg`tsg, tsg`occupancy
      reads tsg.ts`targetSiteID, tsg.ts`group
      reads tsg.tsg`targetSitesID, g`targetSitesID
    {
      j <= |tokens| && Pending(g) && LineError(species, syntax, tokens[..j]) == None &&
      SitesKeyed(species, syntax, tsg.ts, SiteDescriptions(species, syntax, tokens[..j]), g.targetSitesID) &&
      expression == Substituted(text, SiteDescriptions(species, syntax, tokens[..j]), g.targetSitesID)
    }

    /** The sites before are still the first ones, and those after them were allocated since. */
    twostate predicate Grown(before: seq<TargetSite>)
      reads this, tsg
    {
      before <= tsg.ts && forall k :: |before| <= k < |tsg.ts| ==> fresh(tsg.ts[k])
    }

    /**
     * Token j, after tokens that did not stop the simulation: it stops it,
     * or the descriptions so far stay keyed and substituted.
     */
    method ReadNextToken(species: seq<Cell.SpeciesInfo>, syntax: SiteSyntax, tokens: seq<string>, j: nat,
                         g: TargetSitesGroup, text: string, expression: string)
      returns (err: Option<SiteError>, result: string)
      requires Cell.SpeciesIndexed(species) && j < |tokens| && ReadSoFar(species, syntax, tokens, j, g, text, expression)
      modifies this`tsId, tsg, g`targetSitesID, tsg.ts
      ensures tsg == old(tsg) && tsg.tsg == old(tsg.tsg)
      ensures err.Some? ==> err == LineError(species, syntax, tokens)
      ensures err.None? ==> Grown(old(tsg.ts)) && ReadSoFar(species, syntax, tokens, j + 1, g, text, result)
    {
      ghost var sites := tsg.ts;
      ghost var strs := SiteDescriptions(species, syntax, tokens[..j]);
      ghost var ids := g.targetSitesID;
      var newID;
      err, newID, result := ReadToken(species, syntax, tokens[j], g, expression);
      LineErrorStep(species, syntax, tokens, j);
      if err.Some? {
        LineErrorPrefix(species, syntax, tokens, j + 1);
        return;
      }
      TokenStep(species, syntax, tokens, j, text, sites, tsg.ts, ids, g.targetSitesID, newID, expression, result);
    }

    /**
     * One token of the line: blank tokens and operators are skipped; a
     * description that gives a site has its text replaced (`replaceAll`)
     * in the expression by the site's id.
     */
    method ReadToken(species: seq<Cell.SpeciesInfo>, syntax: SiteSyntax, token: string, g: TargetSitesGroup,
                     expression: string)
      returns (err: Option<SiteError>, newID: int, result: string)
      requires Pending(g) && Cell.SpeciesIndexed(species)
      modifies this`tsId, tsg, g`targetSitesID, tsg.ts
      ensures tsg == old(tsg) && tsg.tsg == old(tsg.tsg)
      ensures err == (if IsDescription(syntax, token) then DescriptionError(species, syntax.delimiter, Trim(token)) else None)
      ensures err.None? ==>
        Pending(g) && Grown(old(tsg.ts)) &&
        (newID != NONE <==> IsDescription(syntax, token) && GivesSite(species, syntax, Trim(token)))
      ensures err.None? && newID == NONE ==>
        result == expression && tsg.ts == old(tsg.ts) && g.targetSitesID == old(g.targetSitesID)
      ensures err.None? && newID != NONE ==>
        result == PatternReplaceAll(expression, Trim(token), IntToString(newID)) &&
        0 <= newID < |tsg.ts| && KeyedBy(species, syntax, tsg.ts[newID], Trim(token)) &&
        g.targetSitesID == old(g.targetSitesID) + [newID] && SiteJoined(old(tsg.ts), tsg.ts, newID, g.groupID)
    {
      err, newID, result := None, NONE, expression;
      var str := Trim(token);
      if |str| > 0 && !syntax.isOperator(str) {
        err, newID := ReadTargetSite(species, syntax, str, g);
        if err.None? && newID != NONE {
          result := PatternReplaceAll(expression, str, IntToString(newID));
        }
      }
    }

    /**
     * One description of the line (`extractTargetSite` and what follows
     * it): a description without a species stops the simulation; one
     * whose region does not parse is skipped (NONE); otherwise the site is
     * added, or the equal one found, and linked with the pending group.
     */
    method ReadTargetSite(species: seq<Cell.SpeciesInfo>, syntax: SiteSyntax, str: string, g: TargetSitesGroup)
      returns (err: Option<SiteError>, newID: int)
      requires Pending(g) && Cell.SpeciesIndexed(species)
      modifies this`tsId, tsg, g`targetSitesID, tsg.ts
      ensures tsg == old(tsg) && tsg.tsg == old(tsg.tsg)
      ensures err == DescriptionError(species, syntax.delimiter, str)
      ensures err.None? ==> Pending(g) && Grown(old(tsg.ts)) && (newID != NONE <==> GivesSite(species, syntax, str))
      ensures err.Some? || newID == NONE ==>
        newID == NONE && tsg.ts == old(tsg.ts) && g.targetSitesID == old(g.targetSitesID) && tsId == old(tsId)
      ensures newID != NONE ==>
        0 <= newID < |tsg.ts| && KeyedBy(species, syntax, tsg.ts[newID], str) &&
        g.targetSitesID == old(g.targetSitesID) + [newID] && SiteJoined(old(tsg.ts), tsg.ts, newID, g.groupID)
    {
      var parsed := ParseSite(species, syntax, str);
      if parsed.Err? {
        return Some(parsed.error), NONE;
      }
      err := None;
      var site := parsed.value;
      if site.region.start != NONE && site.region.end != NONE {
        newID := AddSite(site, g);
        EqualsIsKey(tsg.ts[newID], site, site);
      } else {
        newID := NONE;
      }
    }

    /** `new TargetSite(TSid, str, ...)`: a new site, in no group yet, or why none was made. */
    method ParseSite(species: seq<Cell.SpeciesInfo>, syntax: SiteSyntax, str: string)
      returns (r: Result<TargetSite, SiteError>)
      requires Cell.SpeciesIndexed(species)
      ensures DescriptionError(species, syntax.delimiter, str) == (if r.Err? then Some(r.error) else None)
      ensures r.Ok? ==>
        fresh(r.value) && r.value.group == [] && r.value.targetSiteID == tsId &&
        r.value.region == DescribedRegion(syntax, str) && r.value.Key() == DescribedKey(species, syntax, str)
    {
      r := TargetSite.Parse(species, tsId, str, syntax.delimiter, syntax.parseRegion, syntax.dnaStart, syntax.dnaSize);
    }

    /** `new TargetSitesGroup(TSGid, text)`: the group a line builds, with no site yet. */
    method NewGroup(text: string) returns (g: TargetSitesGroup)
      requires Valid()
      ensures fresh(g) && g.text == text && g.targetSitesID == [] && g.rpn == None && Pending(g)
    {
      g := new TargetSitesGroup(tsgId, text);
      LinkedNewGroup(tsg.ts, tsg.tsg, g);
    }

    /**
     * The body of the token loop once a site parsed: the site is added,
     * or the equal one already there is found; it and the pending group
     * are linked, and the next site id moves on when the site is new.
     */
    method AddSite(site: TargetSite, g: TargetSitesGroup) returns (newID: int)
      requires Pending(g) && site.group == [] && site !in tsg.ts
      modifies this`tsId, tsg, site, g`targetSitesID, tsg.ts
      ensures Pending(g) && tsg == old(tsg) && tsg.tsg == old(tsg.tsg)
      ensures 0 <= newID < |tsg.ts| && tsg.ts[newID].Equals(site)
      ensures newID == old(tsId) ==> tsg.ts == old(tsg.ts) + [site]
      ensures newID != old(tsId) ==> tsg.ts == old(tsg.ts)
      ensures g.targetSitesID == old(g.targetSitesID) + [newID] && SiteJoined(old(tsg.ts), tsg.ts, newID, g.groupID)
    {
      newID := Register(site, g);
      forall i | 0 <= i < |tsg.ts| && i != newID
        ensures tsg.ts[i] != tsg.ts[newID]
      {
        if i < newID {
          assert !tsg.ts[i].Equals(tsg.ts[newID]);
        } else {
          assert !tsg.ts[newID].Equals(tsg.ts[i]);
        }
      }
      Link(tsg.ts, tsg.tsg, newID, g);
    }

    /** `tsg.addTargetSite(ts)` and the id counter: the site is appended, or the equal one found. */
    method Register(site: TargetSite, g: TargetSitesGroup) returns (newID: int)
      requires Pending(g) && site.group == [] && site !in tsg.ts
      modifies this`tsId, tsg, site`targetSiteID
      ensures Pending(g) && tsg == old(tsg) && tsg.tsg == old(tsg.tsg)
      ensures 0 <= newID < |tsg.ts| && tsg.ts[newID].Equals(site)
      ensures newID == old(tsId) ==> tsg.ts == old(tsg.ts) + [site]
      ensures newID != old(tsId) ==> tsg.ts == old(tsg.ts)
    {
      ghost var before := tsg.ts;
      newID := tsg.AddTargetSite(site);
      if newID == tsId {
        LinkedNewSite(before, tsg.tsg + [g], site);
        tsId := tsId + 1;
      }
    }

    /** The end of a line: the group's expression is generated and the group becomes the last one. */
    method CommitGroup(g: TargetSitesGroup, expression: string)
      requires Pending(g)
      modifies this`tsgId, tsg`tsg, g`rpn
      ensures Valid() && tsg.tsg == old(tsg.tsg) + [g] && tsgId == old(tsgId) + 1
      ensures |expression| > 0 ==> g.rpn == Some(Trim(RpnOutput(expression)))
      ensures |expression| == 0 ==> g.rpn == old(g.rpn)
    {
      AppendGroup(g);
      var _ := g.GenerateRPN(expression);
    }

    /** The pending group becomes the last one. */
    method AppendGroup(g: TargetSitesGroup)
      requires Pending(g)
      modifies this`tsgId, tsg`tsg
      ensures Valid() && tsg.tsg == old(tsg.tsg) + [g] && tsgId == old(tsgId) + 1
    {
      tsg.tsg := tsg.tsg + [g];
      tsgId := tsgId + 1;
    }
  }
}
