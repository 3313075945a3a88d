/**
 * The target sites of a simulation and their groups
 * (src/objects/TargetSitesAndGroups.java): sites are kept without
 * duplicates, a site's occupancy is recorded in a flag array, and the
 * groups a site belongs to update their statistics when it changes. The
 * evaluation of a group's expression on the occupancy flags (`RPNtree`)
 * is a function parameter.
 */
module SitesAndGroups {
  import opened Wrappers
  import opened Text
  import opened TargetSites
  import opened TargetSitesGroups

  // ------------------------------------------------------------ areTargetSitesToBeReached

  /** Some site belongs to a group, named by its id, that was never reached. */
  predicate ToBeReached(groups: seq<seq<int>>, reached: seq<int>)
    requires forall t, i :: 0 <= t < |groups| && 0 <= i < |groups[t]| ==> 0 <= groups[t][i] < |reached|
  {
    exists t, i :: 0 <= t < |groups| && 0 <= i < |groups[t]| && reached[groups[t][i]] == 0
  }

  /**
   * The loop as written: the i-th entry of a site's group list is looked
   * up as group i, not as the group whose id it holds.
   */
  predicate ToBeReachedAsWritten(groups: seq<seq<int>>, reached: seq<int>)
    requires forall t :: 0 <= t < |groups| ==> |groups[t]| <= |reached|
  {
    exists t, i :: 0 <= t < |groups| && 0 <= i < |groups[t]| && reached[i] == 0
  }

  /**
   * Two sites, one per group, group 0 reached and group 1 not: the loop as
   * written only ever looks at group 0 and answers that nothing is left.
   */
  lemma ToBeReachedDiffers()
    ensures !ToBeReachedAsWritten([[0], [1]], [1, 0])
    ensures ToBeReached([[0], [1]], [1, 0])
  {
    var groups := [[0], [1]];
    var reached := [1, 0];
    assert groups[1][0] == 1 && reached[groups[1][0]] == 0;
  }

  // ------------------------------------------------------------ the strings

  /** `getTargetSiteGroupsString()`: each group's text in quotes, separated by ", ". */
  function GroupsText(texts: seq<string>): string
  {
    if |texts| == 0 then ""
    else GroupsText(texts[..|texts| - 1]) + (if |texts| > 1 then ", " else "") + "\"" + texts[|texts| - 1] + "\""
  }

  lemma {:induction false} CountCharAppend(a: string, b: string, c: char)
    ensures CountChar(a + b, c) == CountChar(a, c) + CountChar(b, c)
    decreases |a|
  {
    if |a| > 0 {
      assert (a + b)[1..] == a[1..] + b;
      CountCharAppend(a[1..], b, c);
    } else {
      assert a + b == b;
    }
  }

  lemma {:induction false} CountCharAbsent(s: string, c: char)
    requires c !in s
    ensures CountChar(s, c) == 0
    decreases |s|
  {
    if |s| > 0 {
      CountCharAbsent(s[1..], c);
    }
  }

  /** With no quote inside the texts, the string holds exactly two quotes per group. */
  lemma {:induction false} GroupsTextQuotes(texts: seq<string>)
    requires forall k :: 0 <= k < |texts| ==> '"' !in texts[k]
    ensures CountChar(GroupsText(texts), '"') == 2 * |texts|
  {
    if |texts| > 0 {
      var front := texts[..|texts| - 1];
      var t := texts[|texts| - 1];
      GroupsTextQuotes(front);
      var sep := if |texts| > 1 then ", " else "";
      CountCharAppend(GroupsText(front) + sep + "\"" + t, "\"", '"');
      CountCharAppend(GroupsText(front) + sep + "\"", t, '"');
      CountCharAppend(GroupsText(front) + sep, "\"", '"');
      CountCharAppend(GroupsText(front), sep, '"');
      CountCharAbsent(t, '"');
      CountCharAbsent(sep, '"');
    }
  }

  function FlagText(b: bool): string { if b then " 1" else " 0" }

  /** `getTargetSiteGroupsOccupancyString()`: " 1" or " 0" per group, separated by ", ". */
  function OccupancyText(flags: seq<bool>): string
  {
    if |flags| == 0 then ""
    else OccupancyText(flags[..|flags| - 1]) + (if |flags| > 1 then ", " else "") + FlagText(flags[|flags| - 1])
  }

  /** The occupancy string is four characters per group less the last separator. */
  lemma {:induction false} OccupancyTextLength(flags: seq<bool>)
    ensures |OccupancyText(flags)| == if |flags| == 0 then 0 else 4 * |flags| - 2
  {
    if |flags| > 0 {
      OccupancyTextLength(flags[..|flags| - 1]);
    }
  }

  lemma PrefixSlice(p: string, q: string, i: nat, j: nat)
    requires i <= j <= |p|
    ensures (p + q)[i..j] == p[i..j]
  {
  }

  /** Group k's flag sits at offset 4k, after a ", " for every group but the first. */
  lemma {:induction false} OccupancyTextAt(flags: seq<bool>, k: nat)
    requires k < |flags|
    ensures 4 * k + 2 <= |OccupancyText(flags)|
    ensures OccupancyText(flags)[4 * k..4 * k + 2] == FlagText(flags[k])
    ensures k > 0 ==> OccupancyText(flags)[4 * k - 2..4 * k] == ", "
  {
    var front := flags[..|flags| - 1];
    var p := OccupancyText(front);
    var sep := if |flags| > 1 then ", " else "";
    var last := FlagText(flags[|flags| - 1]);
    OccupancyTextLength(front);
    if k < |front| {
      OccupancyTextAt(front, k);
      assert front[k] == flags[k];
      FlagKeptByAppend(OccupancyText(flags), p, sep + last, k, FlagText(flags[k]));
    } else {
      FlagAtEnd(OccupancyText(flags), p, sep, last, k);
    }
  }

  /** A flag at offset 4k of the front of a string stays there. */
  lemma FlagKeptByAppend(t: string, p: string, q: string, k: nat, f: string)
    requires t == p + q
    requires 4 * k + 2 <= |p| && p[4 * k..4 * k + 2] == f
    requires k > 0 ==> p[4 * k - 2..4 * k] == ", "
    ensures 4 * k + 2 <= |t| && t[4 * k..4 * k + 2] == f
    ensures k > 0 ==> t[4 * k - 2..4 * k] == ", "
  {
    PrefixSlice(p, q, 4 * k, 4 * k + 2);
    if k > 0 {
      PrefixSlice(p, q, 4 * k - 2, 4 * k);
    }
  }

  /** The last flag follows its separator at offset 4k. */
  lemma FlagAtEnd(t: string, p: string, sep: string, last: string, k: nat)
    requires t == p + (sep + last)
    requires |last| == 2 && sep == (if k > 0 then ", " else "")
    requires |p| == if k == 0 then 0 else 4 * k - 2
    ensures 4 * k + 2 <= |t| && t[4 * k..4 * k + 2] == last
    ensures k > 0 ==> t[4 * k - 2..4 * k] == ", "
  {
    var q := sep + last;
    assert |p| + |sep| == 4 * k;
    SuffixSlice(p, q, |sep|, |sep| + 2);
    assert q[|sep|..|sep| + 2] == last;
    if k > 0 {
      SuffixSlice(p, q, 0, 2);
    }
  }

  lemma SuffixSlice(p: string, q: string, i: nat, j: nat)
    requires i <= j <= |q|
    ensures (p + q)[|p| + i..|p| + j] == q[i..j]
  {
  }

  // ------------------------------------------------------------ the class

  /** The groups' texts, in order. */
  function TextsOf(gs: seq<TargetSitesGroup>): (r: seq<string>)
    ensures |r| == |gs| && forall k :: 0 <= k < |gs| ==> r[k] == gs[k].text
  {
    if |gs| == 0 then [] else TextsOf(gs[..|gs| - 1]) + [gs[|gs| - 1].text]
  }

  /** The groups' occupancy flags, in order. */
  function FlagsOf(gs: seq<TargetSitesGroup>): (r: seq<bool>)
    reads gs`isOccupied
    ensures |r| == |gs| && forall k :: 0 <= k < |gs| ==> r[k] == gs[k].isOccupied
  {
    if |gs| == 0 then [] else FlagsOf(gs[..|gs| - 1]) + [gs[|gs| - 1].isOccupied]
  }

  /** One pass of `updateTargetSiteStatistics`' loop body over one group. */
  method UpdateGroup(g: TargetSitesGroup, evaluated: bool, time: real)
    modifies g`lastTimeUpdate, g`timeOccupied, g`firstTimeReached, g`timesReached, g`isOccupied
    ensures g.Stats() == Updated(old(g.Stats()), evaluated, time)
  {
    if evaluated && !g.isOccupied {
      g.UpdateTimesReachedStatistics(time);
    }
    if g.isOccupied {
      g.UpdateOccupancyStatistics(time);
    }
    g.isOccupied := evaluated;
    g.lastTimeUpdate := time;
  }

  class TargetSitesAndGroups {
    var ts: seq<TargetSite>
    var tsg: seq<TargetSitesGroup>
    var occupancy: array?<bool>

    /**
     * Sites added through `addTargetSite`: no two are equal, each knows
     * its index, and the occupancy flags (allocated with the first site)
     * have one entry per site.
     */
    ghost predicate Valid()
      reads this`ts, this`occupancy, ts`targetSiteID
    {
      (forall i :: 0 <= i < |ts| ==> ts[i].targetSiteID == i) &&
      (forall i, j :: 0 <= i < j < |ts| ==> !ts[i].Equals(ts[j])) &&
      (occupancy != null ==> occupancy.Length == |ts|) &&
      (|ts| > 0 ==> occupancy != null)
    }

    constructor ()
      ensures ts == [] && tsg == [] && occupancy == null && Valid()
    {
      ts := [];
      tsg := [];
      occupancy := null;
    }

    /** `isEmpty()`: no site was added. */
    predicate IsEmpty()
      reads this
    {
      |ts| == 0
    }

    /**
     * `addTargetSite(site)`: the index of the equal site already there,
     * with nothing changed; otherwise the site is appended with its index
     * as id and the occupancy flags are reallocated, all false.
     */
    method AddTargetSite(site: TargetSite) returns (result: int)
      requires Valid()
      modifies this, site`targetSiteID
      ensures Valid() && tsg == old(tsg)
      ensures 0 <= result < |ts| && ts[result].Equals(site)
      ensures (exists i :: 0 <= i < |old(ts)| && old(ts)[i].Equals(site)) ==>
        ts == old(ts) && occupancy == old(occupancy) && site.targetSiteID == old(site.targetSiteID) &&
        forall i :: 0 <= i < result ==> !ts[i].Equals(site)
      ensures (forall i :: 0 <= i < |old(ts)| ==> !old(ts)[i].Equals(site)) ==>
        ts == old(ts) + [site] && result == |old(ts)| && site.targetSiteID == result &&
        occupancy != null && fresh(occupancy) && forall k :: 0 <= k < occupancy.Length ==> !occupancy[k]
    {
      result := NONE;
      var i := 0;
      while i < |ts| && result == NONE
        invariant 0 <= i <= |ts|
        invariant result == NONE ==> forall j :: 0 <= j < i ==> !ts[j].Equals(site)
        invariant result != NONE ==>
          0 <= result < i && ts[result].Equals(site) && forall j :: 0 <= j < result ==> !ts[j].Equals(site)
      {
        if ts[i].Equals(site) {
          result := i;
        }
        i := i + 1;
      }
      if result == NONE {
        assert forall j :: 0 <= j < |ts| ==> ts[j] != site;
        site.targetSiteID := |ts|;
        ts := ts + [site];
        occupancy := new bool[|ts|](_ => false);
        result := |ts| - 1;
      }
    }

    /** The group ids of site tsID name groups with a generated expression. */
    predicate GroupsOfSite(tsID: int)
      requires 0 <= tsID < |ts|
      reads this, ts`group, tsg`rpn
    {
      forall i :: 0 <= i < |ts[tsID].group| ==>
        0 <= ts[tsID].group[i] < |tsg| && tsg[ts[tsID].group[i]].rpn.Some?
    }

    /**
     * `updateTargetSiteStatistics(tsID, time, bound)`: the site's flag is
     * set, then every group the site belongs to is updated once with its
     * expression's value on the new flags (a group listed twice is
     * updated twice, which changes nothing more); other groups are left
     * alone.
     */
    method UpdateTargetSiteStatistics(tsID: int, time: real, bound: bool, evaluate: (string, seq<bool>) -> bool)
      requires Valid() && 0 <= tsID < |ts| && GroupsOfSite(tsID)
      requires forall i, j :: 0 <= i < j < |tsg| ==> tsg[i] != tsg[j]
      modifies occupancy, tsg`lastTimeUpdate, tsg`timeOccupied, tsg`firstTimeReached, tsg`timesReached, tsg`isOccupied
      ensures occupancy != null && occupancy[..] == old(occupancy[..])[tsID := bound]
      ensures forall k :: 0 <= k < |tsg| ==>
        tsg[k].Stats() == if k in ts[tsID].group then Updated(old(tsg[k].Stats()), evaluate(tsg[k].rpn.value, occupancy[..]), time)
                          else old(tsg[k].Stats())
    {
      occupancy[tsID] := bound;
      var flags := occupancy[..];
      var groups := ts[tsID].group;
      var j := 0;
      while j < |groups|
        invariant 0 <= j <= |groups| && occupancy[..] == flags
        invariant forall k :: 0 <= k < |tsg| ==>
          tsg[k].Stats() == if k in groups[..j] then Updated(old(tsg[k].Stats()), evaluate(tsg[k].rpn.value, flags), time)
                            else old(tsg[k].Stats())
      {
        var g := groups[j];
        var e := evaluate(tsg[g].rpn.value, flags);
        UpdatedFacts(old(tsg[g].Stats()), e, time);
        UpdateGroup(tsg[g], e, time);
        assert groups[..j + 1] == groups[..j] + [g];
        j := j + 1;
      }
    }

    /**
     * `areTargetSitesToBeReached()`, reading each site's group list by
     * the group ids it holds: true iff some site belongs to a group never
     * reached.
     */
    method AreTargetSitesToBeReached() returns (result: bool)
      requires forall t, i :: 0 <= t < |ts| && 0 <= i < |ts[t].group| ==> 0 <= ts[t].group[i] < |tsg|
      ensures result <==>
        exists t, i :: 0 <= t < |ts| && 0 <= i < |ts[t].group| && tsg[ts[t].group[i]].timesReached == 0
    {
      result := false;
      var t := 0;
      while t < |ts| && !result
        invariant 0 <= t <= |ts|
        invariant result <==>
          exists t', i :: 0 <= t' < t && 0 <= i < |ts[t'].group| && tsg[ts[t'].group[i]].timesReached == 0
      {
        var i := 0;
        while i < |ts[t].group| && !result
          invariant 0 <= i <= |ts[t].group|
          invariant result <==>
            (exists t', i' :: 0 <= t' < t && 0 <= i' < |ts[t'].group| && tsg[ts[t'].group[i']].timesReached == 0) ||
            (exists i' :: 0 <= i' < i && tsg[ts[t].group[i']].timesReached == 0)
        {
          if tsg[ts[t].group[i]].timesReached == 0 {
            result := true;
          }
          i := i + 1;
        }
        t := t + 1;
      }
    }

    /** `getTargetSiteGroupsString()`. */
    method GetTargetSiteGroupsString() returns (text: string)
      ensures text == GroupsText(TextsOf(tsg))
    {
      text := "";
      var i := 0;
      while i < |tsg|
        invariant 0 <= i <= |tsg|
        invariant text == GroupsText(TextsOf(tsg[..i]))
      {
        assert tsg[..i + 1][..i] == tsg[..i];
        if i > 0 {
          text := text + ", ";
        }
        text := text + "\"" + tsg[i].text + "\"";
        i := i + 1;
      }
      assert tsg[..i] == tsg;
    }

    /** `getTargetSiteGroupsOccupancyString()`. */
    method GetTargetSiteGroupsOccupancyString() returns (text: string)
      ensures text == OccupancyText(FlagsOf(tsg))
    {
      text := "";
      var i := 0;
      while i < |tsg|
        invariant 0 <= i <= |tsg|
        invariant text == OccupancyText(FlagsOf(tsg[..i]))
      {
        assert tsg[..i + 1][..i] == tsg[..i];
        if i > 0 {
          text := text + ", ";
        }
        if tsg[i].isOccupied {
          text := text + " 1";
        } else {
          text := text + " 0";
        }
        i := i + 1;
      }
      assert tsg[..i] == tsg;
    }
  }
}
