/**
  Group selection in the chooser panel: `SetSelectedGroup`, which falls back
  to the remembered starting group (or the first group) for an unknown
  request, and the working-group choice of both `GetSubgroupList` overrides,
  which moves away from a selected group whose filtered entry count is zero.
 */
module ChooserGroups {
  import opened Wrappers
  import opened Sequences

  /**
    The panel's group selection: `SelectedGroup`, and `StartingGroup`, which
    is shared by every panel and carries the last choice to the next one.
   */
  datatype GroupState<G> = GroupState(selected: Option<G>, starting: Option<G>)

  /** The new selection, and whether the buttons are rebuilt (`UpdateIRButtons`). */
  datatype Selection<G> = Selection(state: GroupState<G>, refresh: bool)

  /**
    `SetSelectedGroup(sGroup, causeUpdate)`. A null or unlisted request
    selects the starting group when it is listed and the first group
    otherwise, remembers it as the starting group and always rebuilds. A
    listed request selects it; if that changes the selection it also becomes
    the starting group and the buttons are rebuilt when `causeUpdate` says so.
    The source reads `SortedGroups[0]` on the fallback path, so the group list
    must not be empty.
   */
  function SetSelectedGroup<G(==)>(sorted: seq<G>, st: GroupState<G>, sGroup: Option<G>, causeUpdate: bool): (r: Selection<G>)
    requires |sorted| > 0
    ensures r.state.selected.Some? && r.state.selected.value in sorted
    ensures sGroup.Some? && sGroup.value in sorted ==> r.state.selected == sGroup
    ensures sGroup.None? || sGroup.value !in sorted ==>
              && r.state.selected == (if st.starting.Some? && st.starting.value in sorted then st.starting else Some(sorted[0]))
              && r.state.starting == r.state.selected
    ensures r.refresh <==> sGroup.None? || sGroup.value !in sorted || (st.selected != sGroup && causeUpdate)
    ensures r.state.selected != st.selected ==> r.state.starting == r.state.selected
    ensures sGroup.Some? && sGroup.value in sorted && st.selected == sGroup ==> r == Selection(st, false)
  {
    if sGroup.None? || sGroup.value !in sorted then
      var g := if st.starting.Some? && st.starting.value in sorted then st.starting.value else sorted[0];
      Selection(GroupState(Some(g), Some(g)), true)
    else if st.selected != sGroup then
      Selection(GroupState(sGroup, sGroup), causeUpdate)
    else
      Selection(st, false)
  }

  /** Selecting the group that is already selected changes nothing and rebuilds nothing. */
  lemma SetSelectedGroupIdempotent<G>(sorted: seq<G>, st: GroupState<G>, sGroup: Option<G>, causeUpdate: bool, again: bool)
    requires |sorted| > 0
    ensures var first := SetSelectedGroup(sorted, st, sGroup, causeUpdate).state;
            SetSelectedGroup(sorted, first, first.selected, again) == Selection(first, false)
  {
  }

  /**
    Continuity between panels: after a group is chosen, a later panel that
    lists it and opens with no request (`Show` passes null) selects it again.
   */
  lemma StartingGroupCarriesOver<G>(sorted: seq<G>, later: seq<G>, st: GroupState<G>, g: G, other: Option<G>)
    requires |sorted| > 0 && g in sorted && g in later
    requires Some(g) != st.selected
    ensures var chosen := SetSelectedGroup(sorted, st, Some(g), true).state;
            SetSelectedGroup(later, GroupState(other, chosen.starting), None, false).state.selected == Some(g)
  {
  }

  /** The lowest index in `[from, hi]` whose count is positive, if any. */
  function FirstNonEmpty(counts: seq<nat>, from: nat, hi: int): (r: Option<nat>)
    requires hi < |counts|
    ensures r.Some? ==> from <= r.value <= hi && counts[r.value] > 0
    ensures r.Some? ==> (forall i :: from <= i < r.value ==> counts[i] == 0)
    ensures r.None? ==> (forall i :: from <= i <= hi ==> counts[i] == 0)
    decreases hi + 1 - from
  {
    if from > hi then None
    else if counts[from] > 0 then Some(from)
    else FirstNonEmpty(counts, from + 1, hi)
  }

  /** The highest index in `[lo, to)` whose count is positive, if any. */
  function LastNonEmpty(counts: seq<nat>, lo: nat, to: int): (r: Option<nat>)
    requires to <= |counts|
    ensures r.Some? ==> lo <= r.value < to && counts[r.value] > 0
    ensures r.Some? ==> (forall i :: r.value < i < to ==> counts[i] == 0)
    ensures r.None? ==> (forall i :: lo <= i < to ==> counts[i] == 0)
    decreases if to > lo then to - lo else 0
  {
    if to <= lo then None
    else if counts[to - 1] > 0 then Some(to - 1)
    else LastNonEmpty(counts, lo, to - 1)
  }

  /**
    The working group's index as the scans compute it: the selected index
    `k` when its count is positive; otherwise the lowest non-empty index at
    or before `k`; failing that the highest non-empty index at or after `k`;
    failing that `k` itself. Whenever some group is non-empty, the result is.
   */
  function FallbackIndex(counts: seq<nat>, k: nat): (r: nat)
    requires k < |counts|
    ensures r < |counts|
    ensures counts[k] > 0 ==> r == k
    ensures counts[k] == 0 && (exists i :: 0 <= i <= k && counts[i] > 0) ==>
              r <= k && counts[r] > 0 && forall i :: 0 <= i < r ==> counts[i] == 0
    ensures (forall i :: 0 <= i <= k ==> counts[i] == 0) && (exists j :: k <= j < |counts| && counts[j] > 0) ==>
              k <= r && counts[r] > 0 && forall j :: r < j < |counts| ==> counts[j] == 0
    ensures (forall i :: 0 <= i < |counts| ==> counts[i] == 0) ==> r == k
    ensures (exists i :: 0 <= i < |counts| && counts[i] > 0) ==> counts[r] > 0
  {
    if counts[k] > 0 then k
    else match FirstNonEmpty(counts, 0, k)
      case Some(i) => i
      case None =>
        match LastNonEmpty(counts, k, |counts|)
        case Some(j) => j
        case None => k
  }

  /**
    Step 2 of `GetSubgroupList`, as written: find the selected group's index,
    scan leftwards from it keeping every non-empty group met (so the last
    kept is the lowest), then, if none, scan rightwards the same way (so the
    last kept is the highest), then fall back to the selected group.
    `counts[i]` is the filtered entry count of `groups[i]`; the counts live
    in a dictionary keyed by group, so the groups are distinct, and the
    selected group is one of them.
   */
  method FallbackGroup<G(==)>(groups: seq<G>, counts: seq<nat>, selected: G) returns (chosen: G)
    requires |counts| == |groups| && NoDuplicates(groups) && selected in groups
    ensures forall k :: 0 <= k < |groups| && groups[k] == selected ==> chosen == groups[FallbackIndex(counts, k)]
    ensures chosen in groups
  {
    var selectedIndex := 0;
    var i := 0;
    while i < |groups|
      invariant 0 <= i <= |groups| && 0 <= selectedIndex < |groups|
      invariant selected in groups[..i] ==> groups[selectedIndex] == selected
    {
      if groups[i] == selected {
        selectedIndex := i;
      }
      assert groups[..i + 1] == groups[..i] + [groups[i]];
      i := i + 1;
    }
    assert groups[..i] == groups;
    var k := selectedIndex;
    var alternate: Option<nat> := None;
    if counts[k] == 0 {
      var left := selectedIndex;
      while left >= 0
        invariant -1 <= left <= k
        invariant alternate == FirstNonEmpty(counts, left + 1, k)
      {
        if counts[left] > 0 {
          alternate := Some(left);
        }
        left := left - 1;
      }
      if alternate.None? {
        var right := selectedIndex;
        while right < |groups|
          invariant k <= right <= |groups|
          invariant alternate == LastNonEmpty(counts, k, right)
        {
          if counts[right] > 0 {
            alternate := Some(right);
          }
          right := right + 1;
        }
      }
      if alternate.None? {
        alternate := Some(selectedIndex);
      }
    }
    chosen := if alternate.None? then selected else groups[alternate.value];
    forall k' | 0 <= k' < |groups| && groups[k'] == selected
      ensures k' == k
    {
    }
  }

  /**
    The working group then becomes the selection: `SetSelectedGroup` with a
    listed group selects exactly it, without rebuilding the buttons. So after
    step 2 the selected group shows entries whenever any group does, and it
    is the selected group itself whenever that one shows entries.
   */
  lemma WorkingGroupIsSelected<G>(groups: seq<G>, counts: seq<nat>, st: GroupState<G>, k: nat)
    requires |counts| == |groups| && k < |groups|
    ensures var w := NearestFallbackIndex(counts, k);
            var r := SetSelectedGroup(groups, st, Some(groups[w]), false);
            && r.state.selected == Some(groups[w]) && !r.refresh
            && ((exists i :: 0 <= i < |counts| && counts[i] > 0) ==> counts[w] > 0)
            && (counts[k] > 0 ==> r.state.selected == Some(groups[k]))
  {
  }

  /**
    The evidently intended choice, per the comment on the scans ("the first
    group with >0 items to the left, then the first group with >0 items to
    the right"): the nearest non-empty group at or before `k`, else the
    nearest at or after it, else `k`. No non-empty group lies strictly
    between the result and `k`.
   */
  function NearestFallbackIndex(counts: seq<nat>, k: nat): (r: nat)
    requires k < |counts|
    ensures r < |counts|
    ensures counts[k] > 0 ==> r == k
    ensures (exists i :: 0 <= i < |counts| && counts[i] > 0) ==> counts[r] > 0
    ensures r <= k ==> forall i :: r < i <= k ==> counts[i] == 0
    ensures k <= r ==> forall i :: k <= i < r ==> counts[i] == 0
    ensures (exists i :: 0 <= i <= k && counts[i] > 0) ==> r <= k
    ensures (forall i :: 0 <= i < |counts| ==> counts[i] == 0) ==> r == k
  {
    match LastNonEmpty(counts, 0, k + 1)
    case Some(i) => i
    case None =>
      match FirstNonEmpty(counts, k, |counts| - 1)
      case Some(j) => j
      case None => k
  }

  /**
    Step 2 of `GetSubgroupList` with the scans stopping at the first
    non-empty group they meet: leftwards from the selected index, then
    rightwards, then the selected group itself.
   */
  method NearestFallbackGroup<G(==)>(groups: seq<G>, counts: seq<nat>, selected: G) returns (chosen: G)
    requires |counts| == |groups| && NoDuplicates(groups) && selected in groups
    ensures forall k :: 0 <= k < |groups| && groups[k] == selected ==> chosen == groups[NearestFallbackIndex(counts, k)]
    ensures chosen in groups
  {
    var k := 0;
    while groups[k] != selected
      invariant 0 <= k < |groups| && selected in groups[k..]
      decreases |groups| - k
    {
      assert groups[k..] == [groups[k]] + groups[k + 1..];
      k := k + 1;
    }
    var alternate: Option<nat> := None;
    if counts[k] == 0 {
      var left := k;
      while left >= 0 && alternate.None?
        invariant -1 <= left <= k
        invariant alternate.None? ==> forall i :: left < i <= k ==> counts[i] == 0
        invariant alternate.Some? ==> alternate == LastNonEmpty(counts, 0, k + 1)
      {
        if counts[left] > 0 {
          alternate := Some(left);
        }
        left := left - 1;
      }
      if alternate.None? {
        var right := k;
        while right < |groups| && alternate.None?
          invariant k <= right <= |groups|
          invariant alternate.None? ==> forall j :: k <= j < right ==> counts[j] == 0
          invariant alternate.Some? ==> alternate == FirstNonEmpty(counts, k, |counts| - 1)
        {
          if counts[right] > 0 {
            alternate := Some(right);
          }
          right := right + 1;
        }
      }
      if alternate.None? {
        alternate := Some(k);
      }
    }
    chosen := if alternate.None? then selected else groups[alternate.value];
    forall k' | 0 <= k' < |groups| && groups[k'] == selected
      ensures k' == k
    {
    }
  }

  /**
    The scans as written skip the nearest non-empty group: with counts
    `[1, 1, 0]` and the third group selected, they choose the first group
    although the second is non-empty and adjacent; with counts `[0, 1, 1]`
    and the first group selected, the right scan chooses the third group
    although the second, the first one to the right, is non-empty.
   */
  lemma FallbackSkipsNearest()
    ensures FallbackIndex([1, 1, 0], 2) == 0
    ensures NearestFallbackIndex([1, 1, 0], 2) == 1
    ensures FallbackIndex([0, 1, 1], 0) == 2
    ensures NearestFallbackIndex([0, 1, 1], 0) == 1
  {
    assert FirstNonEmpty([1, 1, 0], 0, 2) == Some(0);
    assert LastNonEmpty([1, 1, 0], 0, 3) == Some(1) by {
      assert LastNonEmpty([1, 1, 0], 0, 2) == Some(1);
    }
    assert FirstNonEmpty([0, 1, 1], 0, 0) == None;
    assert LastNonEmpty([0, 1, 1], 0, 3) == Some(2);
    assert LastNonEmpty([0, 1, 1], 0, 1) == None;
    assert FirstNonEmpty([0, 1, 1], 0, 2) == Some(1) by {
      assert FirstNonEmpty([0, 1, 1], 1, 2) == Some(1);
    }
  }
}
