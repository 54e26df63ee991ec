// Override resolution shared by modules (inc/core/modules_state.php) and
// blocks (inc/core/blocks-state.php).
//
// Every catalog entry contributes its sanitised key to a group: the module
// slug, or the block identity.  Within a group the key with the highest
// source priority wins, ties going to the key that comes first in natural
// order; every other key of the group is "overridden" by the winner.  The
// two PHP functions differ only in how the group and the priority of a key
// are found, so here those arrive as (key, group) pairs and a priority
// function.

module Override {
  import opened Strings
  import opened Order

  // ---------------------------------------------------------------------
  // Grouping: $state['groups'][$group][] = $key, skipping empty keys

  /** The keys collected so far for group g, or none. */
  function GroupOr(groups: Assoc<seq<string>>, g: string): seq<string>
  {
    match Get(groups, g)
    case Some(c) => c
    case None => []
  }

  /** One step of the grouping loop. */
  function AddMember(groups: Assoc<seq<string>>, p: (string, string)): Assoc<seq<string>>
  {
    if p.0 == [] then groups else Put(groups, p.1, GroupOr(groups, p.1) + [p.0])
  }

  /** The groups array after the first loop: groups in order of first appearance. */
  function GroupsOf(pairs: seq<(string, string)>): Assoc<seq<string>>
  {
    if pairs == [] then [] else AddMember(GroupsOf(pairs[..|pairs| - 1]), pairs[|pairs| - 1])
  }

  /** The non-empty keys whose group is g, in order. */
  function Members(pairs: seq<(string, string)>, g: string): seq<string>
  {
    if pairs == [] then []
    else
      var p := pairs[|pairs| - 1];
      Members(pairs[..|pairs| - 1], g) + if p.0 != [] && p.1 == g then [p.0] else []
  }

  /** The group stored for g holds exactly the members of g; a group is never empty. */
  lemma {:induction false} GroupsOfGet(pairs: seq<(string, string)>, g: string)
    ensures Get(GroupsOf(pairs), g) == if Members(pairs, g) == [] then None else Some(Members(pairs, g))
  {
    if pairs != [] {
      var init := pairs[..|pairs| - 1];
      var p := pairs[|pairs| - 1];
      var gs := GroupsOf(init);
      GroupsOfGet(init, g);
      assert GroupsOf(pairs) == AddMember(gs, p);
      if p.0 != [] {
        GroupsOfGet(init, p.1);
        if p.1 == g {
          assert Members(pairs, g) == Members(init, g) + [p.0];
        } else {
          assert Members(pairs, g) == Members(init, g);
        }
      } else {
        assert Members(pairs, g) == Members(init, g);
      }
    }
  }

  lemma {:induction false} GroupsOfDistinct(pairs: seq<(string, string)>)
    ensures Distinct(Keys(GroupsOf(pairs)))
  {
    if pairs != [] {
      var p := pairs[|pairs| - 1];
      GroupsOfDistinct(pairs[..|pairs| - 1]);
      if p.0 != [] {
        var gs := GroupsOf(pairs[..|pairs| - 1]);
        PutDistinct(gs, p.1, GroupOr(gs, p.1) + [p.0]);
      }
    }
  }

  /** Each stored group is the list of members of its own name. */
  lemma GroupsOfEntry(pairs: seq<(string, string)>, j: nat)
    requires j < |GroupsOf(pairs)|
    ensures GroupsOf(pairs)[j].1 == Members(pairs, GroupsOf(pairs)[j].0) != []
  {
    var gs := GroupsOf(pairs);
    GroupsOfDistinct(pairs);
    GetOfDistinct(gs, gs[j].0);
    GroupsOfGet(pairs, gs[j].0);
  }

  /** Every member of g comes from a pair (key, g) with a non-empty key. */
  lemma {:induction false} MembersSound(pairs: seq<(string, string)>, g: string, x: string)
    requires x in Members(pairs, g)
    ensures exists i :: 0 <= i < |pairs| && pairs[i] == (x, g) && x != []
  {
    var p := pairs[|pairs| - 1];
    var init := pairs[..|pairs| - 1];
    if x in Members(init, g) {
      MembersSound(init, g, x);
      var i :| 0 <= i < |init| && init[i] == (x, g) && x != [];
      assert pairs[i] == init[i];
    } else {
      assert pairs[|pairs| - 1] == (x, g);
    }
  }

  /** Every pair with a non-empty key puts that key in its group. */
  lemma {:induction false} MembersCover(pairs: seq<(string, string)>, i: nat)
    requires i < |pairs| && pairs[i].0 != []
    ensures pairs[i].0 in Members(pairs, pairs[i].1)
  {
    var init := pairs[..|pairs| - 1];
    if i < |pairs| - 1 {
      assert init[i] == pairs[i];
      MembersCover(init, i);
    }
  }

  /** The keys are sanitised, and no non-empty key occurs twice, as in a catalog. */
  predicate PairsOk(pairs: seq<(string, string)>)
  {
    (forall i :: 0 <= i < |pairs| ==> IsKey(pairs[i].0)) &&
    (forall i, j :: 0 <= i < j < |pairs| && pairs[i].0 != [] ==> pairs[i].0 != pairs[j].0)
  }

  lemma PairsOkPrefix(pairs: seq<(string, string)>, n: nat)
    requires PairsOk(pairs) && n <= |pairs|
    ensures PairsOk(pairs[..n])
  {
    assert forall i :: 0 <= i < n ==> pairs[..n][i] == pairs[i];
  }

  /** A key belongs to its own group and to no other. */
  lemma OneGroup(pairs: seq<(string, string)>, i: nat, g: string)
    requires PairsOk(pairs) && i < |pairs| && pairs[i].0 != []
    ensures pairs[i].0 in Members(pairs, g) <==> g == pairs[i].1
  {
    MembersCover(pairs, i);
    if pairs[i].0 in Members(pairs, g) {
      MembersSound(pairs, g, pairs[i].0);
    }
  }

  lemma {:induction false} MembersDistinct(pairs: seq<(string, string)>, g: string)
    requires PairsOk(pairs)
    ensures Distinct(Members(pairs, g))
    ensures forall x :: x in Members(pairs, g) ==> IsKey(x)
  {
    if pairs != [] {
      var init := pairs[..|pairs| - 1];
      var p := pairs[|pairs| - 1];
      PairsOkPrefix(pairs, |pairs| - 1);
      MembersDistinct(init, g);
      assert p.0 !in Members(init, g) by {
        if p.0 in Members(init, g) {
          MembersSound(init, g, p.0);
        }
      }
      forall x | x in Members(pairs, g) ensures IsKey(x) {
        MembersSound(pairs, g, x);
      }
    }
  }

  // ---------------------------------------------------------------------
  // The winner of a group

  /** The candidate list the source sorts: array_values(array_unique(array_map('sanitize_key', ...))). */
  function Cands(c: seq<string>): (r: seq<string>)
    ensures c != [] ==> r != []
  {
    var d := Dedup(SanitizeKeys(c));
    assert c != [] ==> SanitizeKeys(c)[0] in Elems(d);
    d
  }

  lemma CandsOfKeys(c: seq<string>)
    requires Distinct(c) && forall x :: x in c ==> IsKey(x)
    ensures Cands(c) == c
  {
    SanitizeKeysOfKeys(c);
    DedupOfDistinct(c);
  }

  /**
   * The usort comparator: a sorts before b when its priority is higher, or
   * equal with a first in natural order.
   */
  predicate Beats(prio: string -> int, a: string, b: string)
  {
    prio(a) > prio(b) || (prio(a) == prio(b) && Less(a, b))
  }

  lemma BeatsIrreflexive(prio: string -> int, a: string)
    ensures !Beats(prio, a, a)
  {
    LessIrreflexive(a);
  }

  lemma BeatsTotal(prio: string -> int, a: string, b: string)
    requires a != b
    ensures Beats(prio, a, b) || Beats(prio, b, a)
  {
    LessTotal(a, b);
  }

  lemma BeatsTransitive(prio: string -> int, a: string, b: string, c: string)
    requires Beats(prio, a, b) && Beats(prio, b, c)
    ensures Beats(prio, a, c)
  {
    if prio(a) == prio(b) == prio(c) { LessTransitive(a, b, c); }
  }

  /** The first element after usort: the candidate that beats every other one. */
  function Best(prio: string -> int, cands: seq<string>): (w: string)
    requires cands != []
    ensures w in cands
  {
    if |cands| == 1 then cands[0]
    else
      var b := Best(prio, cands[..|cands| - 1]);
      var c := cands[|cands| - 1];
      if Beats(prio, c, b) then c else b
  }

  /** The winner beats every other candidate: highest priority, then first in natural order. */
  lemma {:induction false} BestBeats(prio: string -> int, cands: seq<string>, c: string)
    requires c in cands && c != Best(prio, cands)
    ensures Beats(prio, Best(prio, cands), c)
  {
    if |cands| > 1 {
      var init := cands[..|cands| - 1];
      var b := Best(prio, init);
      var l := cands[|cands| - 1];
      if c == l {
        BeatsTotal(prio, b, l);
      } else {
        assert c in init;
        if c != b {
          BestBeats(prio, init, c);
          if Beats(prio, l, b) { BeatsTransitive(prio, l, b, c); }
        }
      }
    }
  }

  /** Only one candidate can beat all the others. */
  lemma BestUnique(prio: string -> int, cands: seq<string>, w: string)
    requires cands != [] && w in cands
    requires forall c :: c in cands && c != w ==> Beats(prio, w, c)
    ensures w == Best(prio, cands)
  {
    var b := Best(prio, cands);
    if w != b {
      BestBeats(prio, cands, w);
      BeatsTransitive(prio, w, b, w);
      BeatsIrreflexive(prio, w);
    }
  }

  // ---------------------------------------------------------------------
  // Winners and overridden keys

  /** $state['winner_by_*']: one winner per non-empty group. */
  function WinnersOf(prio: string -> int, groups: Assoc<seq<string>>): Assoc<string>
  {
    if groups == [] then []
    else
      var w := WinnersOf(prio, groups[..|groups| - 1]);
      var (g, c) := groups[|groups| - 1];
      if c == [] then w else Put(w, g, Best(prio, Cands(c)))
  }

  /** Every candidate other than w maps to w; the source's inner loop. */
  function MarkOverridden(m: map<string, string>, c: seq<string>, w: string): map<string, string>
  {
    if c == [] then m
    else
      var r := MarkOverridden(m, c[..|c| - 1], w);
      var x := c[|c| - 1];
      if x == w then r else r[x := w]
  }

  /** $state['overridden_by_key']: built group by group; a group of one marks nothing. */
  function OverriddenOf(prio: string -> int, groups: Assoc<seq<string>>): map<string, string>
  {
    if groups == [] then map[]
    else
      var r := OverriddenOf(prio, groups[..|groups| - 1]);
      var c := groups[|groups| - 1].1;
      if c == [] || |Cands(c)| == 1 then r else MarkOverridden(r, Cands(c), Best(prio, Cands(c)))
  }

  lemma {:induction false} MarkOverriddenGet(m: map<string, string>, c: seq<string>, w: string, k: string)
    ensures k in MarkOverridden(m, c, w) <==> k in m || (k in c && k != w)
    ensures k in MarkOverridden(m, c, w) ==> MarkOverridden(m, c, w)[k] == if k in c && k != w then w else m[k]
  {
    if c != [] {
      MarkOverriddenGet(m, c[..|c| - 1], w, k);
      assert c == c[..|c| - 1] + [c[|c| - 1]];
    }
  }

  /** A key in no group is never overridden. */
  lemma {:induction false} OverriddenOfOutside(prio: string -> int, groups: Assoc<seq<string>>, k: string)
    requires forall j :: 0 <= j < |groups| ==> k !in Cands(groups[j].1)
    ensures k !in OverriddenOf(prio, groups)
  {
    if groups != [] {
      var init := groups[..|groups| - 1];
      assert forall j :: 0 <= j < |init| ==> init[j] == groups[j];
      OverriddenOfOutside(prio, init, k);
      var c := groups[|groups| - 1].1;
      if c != [] && |Cands(c)| != 1 {
        MarkOverriddenGet(OverriddenOf(prio, init), Cands(c), Best(prio, Cands(c)), k);
      }
    }
  }

  /** A key in exactly one group is overridden exactly when it is not that group's winner, and then maps to the winner. */
  lemma {:induction false} OverriddenOfGet(prio: string -> int, groups: Assoc<seq<string>>, j0: nat, k: string)
    requires j0 < |groups| && k in Cands(groups[j0].1)
    requires forall j :: 0 <= j < |groups| && j != j0 ==> k !in Cands(groups[j].1)
    ensures groups[j0].1 != []
    ensures k in OverriddenOf(prio, groups) <==> k != Best(prio, Cands(groups[j0].1))
    ensures k in OverriddenOf(prio, groups) ==> OverriddenOf(prio, groups)[k] == Best(prio, Cands(groups[j0].1))
  {
    var init := groups[..|groups| - 1];
    var c := groups[|groups| - 1].1;
    assert forall j :: 0 <= j < |init| ==> init[j] == groups[j];
    var r := OverriddenOf(prio, init);
    if j0 == |groups| - 1 {
      OverriddenOfOutside(prio, init, k);
      if |Cands(c)| != 1 {
        MarkOverriddenGet(r, Cands(c), Best(prio, Cands(c)), k);
      }
    } else {
      OverriddenOfGet(prio, init, j0, k);
      if c != [] && |Cands(c)| != 1 {
        MarkOverriddenGet(r, Cands(c), Best(prio, Cands(c)), k);
      }
    }
  }

  /** With distinct group names, the winner stored for g is the best candidate of g's list. */
  lemma {:induction false} WinnersOfGet(prio: string -> int, groups: Assoc<seq<string>>, g: string)
    requires Distinct(Keys(groups))
    ensures Get(WinnersOf(prio, groups), g) ==
      match Get(groups, g)
      case Some(c) => if c == [] then None else Some(Best(prio, Cands(c)))
      case None => None
  {
    if groups != [] {
      var init := groups[..|groups| - 1];
      var last := groups[|groups| - 1];
      assert groups == init + [last];
      KeysSnocDistinct(init, last);
      WinnersOfGet(prio, init, g);
      GetSnoc(init, last, g);
    }
  }

  // ---------------------------------------------------------------------
  // The whole pass

  lemma GroupsOfStep(pairs: seq<(string, string)>, i: nat)
    requires i < |pairs|
    ensures GroupsOf(pairs[..i + 1]) == AddMember(GroupsOf(pairs[..i]), pairs[i])
  {
    assert pairs[..i + 1][..i] == pairs[..i];
  }

  lemma ResultsStep(prio: string -> int, groups: Assoc<seq<string>>, j: nat)
    requires j < |groups|
    ensures groups[j].1 == [] ==>
      WinnersOf(prio, groups[..j + 1]) == WinnersOf(prio, groups[..j]) &&
      OverriddenOf(prio, groups[..j + 1]) == OverriddenOf(prio, groups[..j])
    ensures groups[j].1 != [] ==>
      WinnersOf(prio, groups[..j + 1]) == Put(WinnersOf(prio, groups[..j]), groups[j].0, Best(prio, Cands(groups[j].1)))
    ensures groups[j].1 != [] && |Cands(groups[j].1)| == 1 ==>
      OverriddenOf(prio, groups[..j + 1]) == OverriddenOf(prio, groups[..j])
    ensures groups[j].1 != [] && |Cands(groups[j].1)| != 1 ==>
      OverriddenOf(prio, groups[..j + 1]) ==
      MarkOverridden(OverriddenOf(prio, groups[..j]), Cands(groups[j].1), Best(prio, Cands(groups[j].1)))
  {
    assert groups[..j + 1][..j] == groups[..j];
  }

  lemma MarkStep(m: map<string, string>, c: seq<string>, w: string, i: nat)
    requires i < |c|
    ensures MarkOverridden(m, c[..i + 1], w) == if c[i] == w then MarkOverridden(m, c[..i], w) else MarkOverridden(m, c[..i], w)[c[i] := w]
  {
    assert c[..i + 1][..i] == c[..i];
  }

  /**
   * Fills the groups in catalog order, then picks each group's winner and
   * marks the other candidates overridden.
   */
  method ComputeOverride(pairs: seq<(string, string)>, prio: string -> int)
    returns (groups: Assoc<seq<string>>, winners: Assoc<string>, overridden: map<string, string>)
    ensures groups == GroupsOf(pairs)
    ensures winners == WinnersOf(prio, groups)
    ensures overridden == OverriddenOf(prio, groups)
  {
    groups := GroupPairs(pairs);
    winners, overridden := PickWinners(prio, groups);
  }

  /** The first loop of ComputeOverride: every keyed pair joins its group, groups in first-seen order. */
  method GroupPairs(pairs: seq<(string, string)>) returns (groups: Assoc<seq<string>>)
    ensures groups == GroupsOf(pairs)
  {
    groups := [];
    for i := 0 to |pairs|
      invariant groups == GroupsOf(pairs[..i])
    {
      GroupsOfStep(pairs, i);
      var (key, g) := pairs[i];
      if key == [] {
        continue;
      }
      groups := Put(groups, g, GroupOr(groups, g) + [key]);
    }
    TakeAll(pairs);
  }

  /** The second loop of ComputeOverride: each group's winner, and its other candidates marked overridden. */
  method PickWinners(prio: string -> int, groups: Assoc<seq<string>>) returns (winners: Assoc<string>, overridden: map<string, string>)
    ensures winners == WinnersOf(prio, groups)
    ensures overridden == OverriddenOf(prio, groups)
  {
    winners := [];
    overridden := map[];
    for j := 0 to |groups|
      invariant winners == WinnersOf(prio, groups[..j])
      invariant overridden == OverriddenOf(prio, groups[..j])
    {
      ResultsStep(prio, groups, j);
      var (g, candidates) := groups[j];
      if candidates == [] {
        continue;
      }
      var c := Cands(candidates);
      if |c| == 1 {
        winners := Put(winners, g, c[0]);
        continue;
      }
      var w := Best(prio, c);
      winners := Put(winners, g, w);
      overridden := MarkLosers(overridden, c, w);
    }
    TakeAll(groups);
  }

  /** The innermost loop of ComputeOverride: every candidate but the winner maps to the winner. */
  method MarkLosers(before: map<string, string>, c: seq<string>, w: string) returns (overridden: map<string, string>)
    ensures overridden == MarkOverridden(before, c, w)
  {
    overridden := before;
    for m := 0 to |c|
      invariant overridden == MarkOverridden(before, c[..m], w)
    {
      MarkStep(before, c, w, m);
      if c[m] == w {
        continue;
      }
      overridden := overridden[c[m] := w];
    }
    TakeAll(c);
  }

  /**
   * For a catalog's pairs: each key sits in the group of its own pair; that
   * group's stored winner beats every other member; the key is overridden
   * exactly when it is not the winner, and then it maps to the winner.
   */
  lemma OverrideResolution(pairs: seq<(string, string)>, prio: string -> int, i: nat)
    requires PairsOk(pairs) && i < |pairs| && pairs[i].0 != []
    ensures Get(GroupsOf(pairs), pairs[i].1) == Some(Members(pairs, pairs[i].1))
    ensures pairs[i].0 in Members(pairs, pairs[i].1)
    ensures Get(WinnersOf(prio, GroupsOf(pairs)), pairs[i].1) == Some(Best(prio, Members(pairs, pairs[i].1)))
    ensures pairs[i].0 in OverriddenOf(prio, GroupsOf(pairs)) <==> pairs[i].0 != Best(prio, Members(pairs, pairs[i].1))
    ensures pairs[i].0 in OverriddenOf(prio, GroupsOf(pairs)) ==>
      OverriddenOf(prio, GroupsOf(pairs))[pairs[i].0] == Best(prio, Members(pairs, pairs[i].1)) &&
      Beats(prio, Best(prio, Members(pairs, pairs[i].1)), pairs[i].0)
  {
    var (k, g) := pairs[i];
    var gs := GroupsOf(pairs);
    var c := Members(pairs, g);
    MembersCover(pairs, i);
    GroupsOfGet(pairs, g);
    GroupsOfDistinct(pairs);
    MembersDistinct(pairs, g);
    CandsOfKeys(c);
    WinnersOfGet(prio, gs, g);
    var j0 := GetEntry(gs, g);
    forall j | 0 <= j < |gs| && j != j0 ensures k !in Cands(gs[j].1) {
      GroupsOfEntry(pairs, j);
      MembersDistinct(pairs, gs[j].0);
      CandsOfKeys(gs[j].1);
      assert Keys(gs)[j] == gs[j].0 && Keys(gs)[j0] == g;
      OneGroup(pairs, i, gs[j].0);
    }
    OverriddenOfGet(prio, gs, j0, k);
    if k != Best(prio, c) { BestBeats(prio, c, k); }
  }

  /** OverrideResolution, stated for a key k of group g at position i. */
  lemma OverrideResolutionOf(pairs: seq<(string, string)>, prio: string -> int, i: nat, k: string, g: string)
    requires PairsOk(pairs) && i < |pairs| && pairs[i] == (k, g) && k != []
    ensures k in Members(pairs, g)
    ensures GroupOr(GroupsOf(pairs), g) == Members(pairs, g)
    ensures k in OverriddenOf(prio, GroupsOf(pairs)) <==> k != Best(prio, Members(pairs, g))
    ensures k in OverriddenOf(prio, GroupsOf(pairs)) ==>
      OverriddenOf(prio, GroupsOf(pairs))[k] == Best(prio, Members(pairs, g)) &&
      Beats(prio, OverriddenOf(prio, GroupsOf(pairs))[k], k)
  {
    OverrideResolution(pairs, prio, i);
  }

  /** A group's winner is never overridden. */
  lemma WinnerNotOverridden(pairs: seq<(string, string)>, prio: string -> int, g: string)
    requires PairsOk(pairs) && Members(pairs, g) != []
    ensures Best(prio, Members(pairs, g)) !in OverriddenOf(prio, GroupsOf(pairs))
  {
    var w := Best(prio, Members(pairs, g));
    MembersSound(pairs, g, w);
    var i :| 0 <= i < |pairs| && pairs[i] == (w, g) && w != [];
    OverrideResolution(pairs, prio, i);
  }

  /** Two different keys of one group are never both left standing. */
  lemma AtMostOneStanding(pairs: seq<(string, string)>, prio: string -> int, i: nat, j: nat)
    requires PairsOk(pairs) && i < |pairs| && j < |pairs| && i != j && pairs[i].1 == pairs[j].1
    requires pairs[i].0 != [] && pairs[j].0 != []
    ensures pairs[i].0 in OverriddenOf(prio, GroupsOf(pairs)) || pairs[j].0 in OverriddenOf(prio, GroupsOf(pairs))
  {
    OverrideResolution(pairs, prio, i);
    OverrideResolution(pairs, prio, j);
  }

  /** Of two keys in one group, the one of lower priority is overridden. */
  lemma LowerPriorityOverridden(pairs: seq<(string, string)>, prio: string -> int, i: nat, j: nat)
    requires PairsOk(pairs) && i < |pairs| && j < |pairs| && pairs[i].1 == pairs[j].1
    requires pairs[i].0 != [] && pairs[j].0 != [] && prio(pairs[i].0) > prio(pairs[j].0)
    ensures pairs[j].0 in OverriddenOf(prio, GroupsOf(pairs))
  {
    OverrideResolution(pairs, prio, i);
    OverrideResolution(pairs, prio, j);
  }

  // ---------------------------------------------------------------------
  // Conflict resolution: keep enabled keys that are in the catalog and not overridden

  /** The keys the resolve loop keeps, in order: sanitised, non-empty, in the catalog, not overridden. */
  function Kept(enabled: seq<string>, catalogKeys: seq<string>, overridden: map<string, string>): seq<string>
  {
    if enabled == [] then []
    else
      var k := SanitizeKey(enabled[|enabled| - 1]);
      Kept(enabled[..|enabled| - 1], catalogKeys, overridden) +
      if k != [] && k in catalogKeys && k !in overridden then [k] else []
  }

  lemma {:induction false} KeptMembers(enabled: seq<string>, catalogKeys: seq<string>, overridden: map<string, string>, x: string)
    ensures x in Kept(enabled, catalogKeys, overridden) <==>
      x in SanitizeKeys(enabled) && x != [] && x in catalogKeys && x !in overridden
  {
    if enabled != [] {
      var init := enabled[..|enabled| - 1];
      KeptMembers(init, catalogKeys, overridden, x);
      assert SanitizeKeys(enabled) == SanitizeKeys(init) + [SanitizeKey(enabled[|enabled| - 1])];
    }
  }

  lemma KeptAreKeys(enabled: seq<string>, catalogKeys: seq<string>, overridden: map<string, string>)
    ensures forall i :: 0 <= i < |Kept(enabled, catalogKeys, overridden)| ==> IsKey(Kept(enabled, catalogKeys, overridden)[i])
  {
    var r := Kept(enabled, catalogKeys, overridden);
    forall i | 0 <= i < |r| ensures IsKey(r[i]) {
      KeptMembers(enabled, catalogKeys, overridden, r[i]);
    }
  }

  lemma KeptStep(enabled: seq<string>, catalogKeys: seq<string>, overridden: map<string, string>, i: nat)
    requires i < |enabled|
    ensures Kept(enabled[..i + 1], catalogKeys, overridden) ==
      Kept(enabled[..i], catalogKeys, overridden) +
      if SanitizeKey(enabled[i]) != [] && SanitizeKey(enabled[i]) in catalogKeys && SanitizeKey(enabled[i]) !in overridden
      then [SanitizeKey(enabled[i])] else []
  {
    assert enabled[..i + 1][..i] == enabled[..i];
  }

  /**
   * The loop of the resolve functions, then array_unique(array_map('sanitize_key'))
   * and sort: the kept keys, sorted and without repeats.
   */
  method ResolveKept(enabled: seq<string>, catalogKeys: seq<string>, overridden: map<string, string>) returns (r: seq<string>)
    ensures r == SortUnique(Kept(enabled, catalogKeys, overridden))
  {
    var resolved := [];
    for i := 0 to |enabled|
      invariant resolved == Kept(enabled[..i], catalogKeys, overridden)
    {
      KeptStep(enabled, catalogKeys, overridden, i);
      var key := SanitizeKey(enabled[i]);
      if key == [] || key !in catalogKeys {
        continue;
      }
      if key in overridden {
        continue;
      }
      resolved := resolved + [key];
    }
    assert enabled[..|enabled|] == enabled;
    KeptAreKeys(enabled, catalogKeys, overridden);
    SanitizeKeysOfKeys(resolved);
    r := SortUnique(Dedup(SanitizeKeys(resolved)));
    SortedUnique(r, SortUnique(resolved));
  }
}
