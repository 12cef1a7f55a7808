/**
 * The popup's bisection state (the storageData record) and the operations
 * behind its Start, Good, Bad and Reset buttons. The browser's enabled flags
 * are the map browserEnabled, written where the popup calls
 * chrome.management.setEnabled.
 */
module Session {
  import opened Bisection
  import opened Extensions

  /**
   * Extension id `id` is the id of one of the first n candidates.
   */
  ghost predicate HasId(exts: seq<Extension>, n: int, id: ExtId)
    requires 0 <= n <= |exts|
  {
    exists j :: 0 <= j < n && exts[j].id == id
  }

  /** m and m0 agree on every extension that is not among the candidates. */
  ghost predicate SameOutside(m: map<ExtId, bool>, m0: map<ExtId, bool>, exts: seq<Extension>)
  {
    forall id :: !HasId(exts, |exts|, id) ==>
      (id in m <==> id in m0) && (id in m ==> m[id] == m0[id])
  }

  class StorageData {
    var bisectIsInProgress: bool
    /** -1, or the index of the culprit in initialExtensions. */
    var brokenExtIndex: int
    var leftIndex: int
    var rightIndex: int
    var mid: int
    var initialExtensions: seq<Extension>
    /** The browser's enabled flag of each installed extension. */
    var browserEnabled: map<ExtId, bool>

    function Suspects(): Range
      reads this
    {
      Range(leftIndex, rightIndex, mid)
    }

    /** Whether candidate i is meant to be switched on in the current round. */
    predicate IsEnabled(i: int)
      reads this
    {
      InEnabledHalf(mid, rightIndex, i)
    }

    /** The browser has exactly the enabled half of the candidates switched on. */
    ghost predicate PartitionApplied()
      reads this
    {
      forall i :: 0 <= i < |initialExtensions| ==>
        initialExtensions[i].id in browserEnabled &&
        browserEnabled[initialExtensions[i].id] == IsEnabled(i)
    }

    /** The browser has every candidate switched on. */
    ghost predicate AllEnabled()
      reads this
    {
      forall i :: 0 <= i < |initialExtensions| ==>
        initialExtensions[i].id in browserEnabled && browserEnabled[initialExtensions[i].id]
    }

    /** The state before Start and after Reset. */
    ghost predicate Idle()
      reads this
    {
      !bisectIsInProgress && brokenExtIndex == -1 && initialExtensions == [] &&
      leftIndex == 0 && rightIndex == 0 && mid == 0
    }

    /**
     * What holds between the popup's operations, and also in the record
     * saved after the culprit is recorded and before finish has re-enabled
     * everything. A record saved after a new range is set but before the
     * toggles have run need not satisfy it.
     */
    ghost predicate Consistent()
      reads this
    {
      var n := |initialExtensions|;
      0 <= leftIndex <= rightIndex <= n && mid == Mid(leftIndex, rightIndex) &&
      -1 <= brokenExtIndex < n &&
      DistinctIds(initialExtensions) &&
      (brokenExtIndex != -1 ==> brokenExtIndex == leftIndex && rightIndex == leftIndex + 1) &&
      (bisectIsInProgress && brokenExtIndex == -1 ==>
        (rightIndex - leftIndex >= 2 || n == 0) && PartitionApplied()) &&
      (!bisectIsInProgress && brokenExtIndex == -1 ==> Idle())
    }

    /** What holds whenever the popup waits for the user. */
    ghost predicate Valid()
      reads this
    {
      Consistent() &&
      (brokenExtIndex != -1 ==> !bisectIsInProgress && AllEnabled())
    }

    /** The initial record, with the browser's flags as they are. */
    constructor (browser: map<ExtId, bool>)
      ensures Valid() && Idle()
      ensures browserEnabled == browser
    {
      bisectIsInProgress := false;
      brokenExtIndex := -1;
      leftIndex := 0;
      rightIndex := 0;
      mid := 0;
      initialExtensions := [];
      browserEnabled := browser;
    }

    /** update_enabled_extension_range: switch each candidate on or off by the enable rule. */
    method ApplyPartition()
      requires DistinctIds(initialExtensions)
      modifies this`browserEnabled
      ensures PartitionApplied()
      ensures SameOutside(browserEnabled, old(browserEnabled), initialExtensions)
    {
      for i := 0 to |initialExtensions|
        invariant forall j :: 0 <= j < i ==>
          initialExtensions[j].id in browserEnabled &&
          browserEnabled[initialExtensions[j].id] == IsEnabled(j)
        invariant forall id :: !HasId(initialExtensions, i, id) ==>
          (id in browserEnabled <==> id in old(browserEnabled)) &&
          (id in browserEnabled ==> browserEnabled[id] == old(browserEnabled)[id])
      {
        browserEnabled := browserEnabled[initialExtensions[i].id := IsEnabled(i)];
      }
    }

    /** resetExts: switch every candidate back on. */
    method EnableAll()
      modifies this`browserEnabled
      ensures AllEnabled()
      ensures SameOutside(browserEnabled, old(browserEnabled), initialExtensions)
    {
      for i := 0 to |initialExtensions|
        invariant forall j :: 0 <= j < i ==>
          initialExtensions[j].id in browserEnabled && browserEnabled[initialExtensions[j].id]
        invariant forall id :: !HasId(initialExtensions, i, id) ==>
          (id in browserEnabled <==> id in old(browserEnabled)) &&
          (id in browserEnabled ==> browserEnabled[id] == old(browserEnabled)[id])
      {
        browserEnabled := browserEnabled[initialExtensions[i].id := true];
      }
    }

    /**
     * start_bisect: fix the candidates, suspect all of them and apply the
     * first partition; a single candidate is the culprit at once.
     */
    method Start(all: seq<Extension>, selfId: ExtId)
      requires Valid() && !bisectIsInProgress && brokenExtIndex == -1
      requires DistinctIds(all)
      modifies this
      ensures Valid()
      ensures initialExtensions == Candidates(all, selfId)
      ensures Suspects() == Range(0, |initialExtensions|, Mid(0, |initialExtensions|))
      ensures |initialExtensions| == 1 ==> brokenExtIndex == 0 && !bisectIsInProgress
      ensures |initialExtensions| != 1 ==> brokenExtIndex == -1 && bisectIsInProgress
      ensures SameOutside(browserEnabled, old(browserEnabled), initialExtensions)
    {
      bisectIsInProgress := true;
      initialExtensions := Candidates(all, selfId);
      CandidatesDistinct(all, selfId);
      leftIndex := 0;
      rightIndex := |initialExtensions|;
      mid := Mid(leftIndex, |initialExtensions|);
      if rightIndex - leftIndex == 1 {
        Conclude();
        return;
      }
      ApplyPartition();
    }

    /** good_bisect: the problem is gone, so the culprit is in the disabled half. */
    method Good()
      requires Valid() && bisectIsInProgress && brokenExtIndex == -1
      modifies this
      ensures Valid()
      ensures initialExtensions == old(initialExtensions)
      ensures Suspects() == GoodStep(old(Suspects()))
      ensures brokenExtIndex == if rightIndex - leftIndex == 1 then leftIndex else -1
      ensures bisectIsInProgress == (rightIndex - leftIndex != 1)
      ensures SameOutside(browserEnabled, old(browserEnabled), initialExtensions)
    {
      var newMid := Mid(leftIndex, mid);
      rightIndex := mid;
      mid := newMid;
      ApplyPartition();
      if rightIndex - leftIndex == 1 {
        Conclude();
      }
    }

    /** bad_bisect: the problem persists, so the culprit is in the enabled half. */
    method Bad()
      requires Valid() && bisectIsInProgress && brokenExtIndex == -1
      modifies this
      ensures Valid()
      ensures initialExtensions == old(initialExtensions)
      ensures Suspects() == BadStep(old(Suspects()))
      ensures brokenExtIndex == if rightIndex - leftIndex == 1 then leftIndex else -1
      ensures bisectIsInProgress == (rightIndex - leftIndex != 1)
      ensures SameOutside(browserEnabled, old(browserEnabled), initialExtensions)
    {
      leftIndex := mid;
      mid := Mid(leftIndex, rightIndex);
      ApplyPartition();
      if rightIndex - leftIndex == 1 {
        Conclude();
      }
    }

    /** The single suspect left is the culprit: record it and finish. */
    method Conclude()
      requires 0 <= leftIndex && rightIndex == leftIndex + 1 && rightIndex <= |initialExtensions|
      requires mid == Mid(leftIndex, rightIndex) && DistinctIds(initialExtensions)
      modifies this
      ensures Valid()
      ensures !bisectIsInProgress && brokenExtIndex == old(leftIndex)
      ensures Suspects() == old(Suspects()) && initialExtensions == old(initialExtensions)
      ensures SameOutside(browserEnabled, old(browserEnabled), initialExtensions)
    {
      brokenExtIndex := leftIndex;
      Finish();
    }

    /**
     * finish: end the search with the culprit kept and every candidate back
     * on; without a culprit it is a reset. Also what the popup re-applies on
     * opening when a culprit was stored.
     */
    method Finish()
      requires Consistent()
      modifies this
      ensures Valid()
      ensures old(brokenExtIndex) == -1 ==> Idle()
      ensures old(brokenExtIndex) != -1 ==>
        !bisectIsInProgress && brokenExtIndex == old(brokenExtIndex) &&
        Suspects() == old(Suspects()) && initialExtensions == old(initialExtensions)
      ensures forall i :: 0 <= i < |old(initialExtensions)| ==>
        old(initialExtensions)[i].id in browserEnabled && browserEnabled[old(initialExtensions)[i].id]
      ensures SameOutside(browserEnabled, old(browserEnabled), old(initialExtensions))
    {
      if brokenExtIndex == -1 {
        Reset();
        return;
      }
      bisectIsInProgress := false;
      EnableAll();
    }

    /**
     * reset: switch every candidate back on and clear the record, from any
     * record at all; on an idle record it changes nothing.
     */
    method Reset()
      modifies this
      ensures Valid() && Idle()
      ensures forall i :: 0 <= i < |old(initialExtensions)| ==>
        old(initialExtensions)[i].id in browserEnabled && browserEnabled[old(initialExtensions)[i].id]
      ensures SameOutside(browserEnabled, old(browserEnabled), old(initialExtensions))
      ensures old(Idle()) ==> browserEnabled == old(browserEnabled)
    {
      EnableAll();
      bisectIsInProgress := false;
      initialExtensions := [];
      brokenExtIndex := -1;
      leftIndex := 0;
      rightIndex := 0;
      mid := 0;
    }

    /**
     * force_recreate_extensions_list: one row per candidate, checked by the
     * enable rule and coloured by ColourOf. During a round the checkboxes
     * show the browser's flags as they are.
     */
    method ListItems() returns (items: seq<ListItem>)
      requires Valid()
      ensures |items| == |initialExtensions|
      ensures forall i :: 0 <= i < |items| ==>
        items[i] == ListItem(initialExtensions[i].name, IsEnabled(i),
                             ColourOf(i, leftIndex, mid, rightIndex, brokenExtIndex))
      ensures bisectIsInProgress ==> forall i :: 0 <= i < |items| ==>
        items[i].checked == browserEnabled[initialExtensions[i].id]
      ensures brokenExtIndex != -1 ==> forall i :: 0 <= i < |items| ==>
        (items[i].checked <==> i == brokenExtIndex)
    {
      items := [];
      for i := 0 to |initialExtensions|
        invariant |items| == i
        invariant forall j :: 0 <= j < i ==>
          items[j] == ListItem(initialExtensions[j].name, IsEnabled(j),
                               ColourOf(j, leftIndex, mid, rightIndex, brokenExtIndex))
      {
        var isEnabled := false;
        if i >= mid && i < rightIndex {
          isEnabled := true;
        }
        var colour := Transparent;
        if i == brokenExtIndex || (i >= leftIndex && i < mid) {
          colour := LightCoral;
        } else if i >= mid && i < rightIndex {
          colour := LightGreen;
        }
        items := items + [ListItem(initialExtensions[i].name, isEnabled, colour)];
      }
    }
  }

  /**
   * One round answered truthfully for the culprit c: Bad exactly when the
   * culprit is switched on in the browser.
   */
  method Round(s: StorageData, c: int)
    requires s.Valid() && s.bisectIsInProgress && s.brokenExtIndex == -1
    requires s.leftIndex <= c < s.rightIndex
    modifies s
    ensures s.Valid() && s.initialExtensions == old(s.initialExtensions)
    ensures s.Suspects() == Step(old(s.Suspects()), Answer(old(s.Suspects()), c))
    ensures s.leftIndex <= c < s.rightIndex
    ensures s.rightIndex - s.leftIndex < old(s.rightIndex) - old(s.leftIndex)
    ensures s.bisectIsInProgress ==> s.brokenExtIndex == -1
    ensures !s.bisectIsInProgress ==> s.brokenExtIndex == c
    ensures SameOutside(s.browserEnabled, old(s.browserEnabled), s.initialExtensions)
  {
    ghost var before := s.Suspects();
    var reproduces := s.browserEnabled[s.initialExtensions[c].id];
    assert reproduces == Answer(before, c);
    StepKeepsCulprit(before, c, reproduces);
    StepShrinks(before, reproduces);
    if reproduces {
      s.Bad();
    } else {
      s.Good();
    }
  }

  /**
   * The user's side of a search with a single culprit c, round after round
   * until the search ends.
   */
  method RunToCompletion(s: StorageData, c: int) returns (rounds: nat)
    requires s.Valid() && s.bisectIsInProgress && s.brokenExtIndex == -1
    requires s.leftIndex <= c < s.rightIndex
    modifies s
    ensures s.Valid() && !s.bisectIsInProgress
    ensures s.brokenExtIndex == c
    ensures s.initialExtensions == old(s.initialExtensions)
    ensures rounds == Search(old(s.Suspects()), c).rounds
    ensures SameOutside(s.browserEnabled, old(s.browserEnabled), s.initialExtensions)
    decreases s.rightIndex - s.leftIndex
  {
    ghost var before := s.Suspects();
    SearchUnfold(before, c);
    Round(s, c);
    if s.bisectIsInProgress {
      rounds := RunToCompletion(s, c);
      rounds := rounds + 1;
    } else {
      rounds := 1;
    }
  }

  /**
   * A whole session from an idle record: Start, then truthful answers for a
   * single culprit c among the candidates, ends with c reported and every
   * candidate switched back on. No other extension's flag changes, and when
   * the snapshot passed to Start is the browser's state the browser ends
   * exactly as it began.
   */
  method Bisect(s: StorageData, all: seq<Extension>, selfId: ExtId, c: int) returns (rounds: nat)
    requires s.Valid() && s.Idle()
    requires DistinctIds(all)
    requires 0 <= c < |Candidates(all, selfId)|
    modifies s
    ensures s.Valid() && !s.bisectIsInProgress
    ensures s.initialExtensions == Candidates(all, selfId)
    ensures s.brokenExtIndex == c
    ensures s.AllEnabled()
    ensures rounds <= CeilLog2(|Candidates(all, selfId)|)
    ensures SameOutside(s.browserEnabled, old(s.browserEnabled), s.initialExtensions)
    ensures Snapshot(all, old(s.browserEnabled)) ==> s.browserEnabled == old(s.browserEnabled)
  {
    s.Start(all, selfId);
    rounds := 0;
    if s.bisectIsInProgress {
      ghost var start := s.Suspects();
      SearchRounds(start, c);
      rounds := RunToCompletion(s, c);
    }
    if Snapshot(all, old(s.browserEnabled)) {
      RestoredWhenAllEnabled(s.browserEnabled, old(s.browserEnabled), all, selfId);
    }
  }

  /** The extension list `all` reports the browser's enabled flags as they are. */
  ghost predicate Snapshot(all: seq<Extension>, browser: map<ExtId, bool>)
  {
    forall e :: e in all ==> e.id in browser && browser[e.id] == e.enabled
  }

  /**
   * Candidates were enabled when the snapshot was taken, so switching them
   * all back on and touching nothing else restores the browser's flags.
   */
  lemma RestoredWhenAllEnabled(m: map<ExtId, bool>, m0: map<ExtId, bool>, all: seq<Extension>, selfId: ExtId)
    requires Snapshot(all, m0)
    requires SameOutside(m, m0, Candidates(all, selfId))
    requires forall i :: 0 <= i < |Candidates(all, selfId)| ==>
      Candidates(all, selfId)[i].id in m && m[Candidates(all, selfId)[i].id]
    ensures m == m0
  {
    var cands := Candidates(all, selfId);
    forall id | HasId(cands, |cands|, id)
      ensures id in m && id in m0 && m[id] == m0[id]
    {
      var j :| 0 <= j < |cands| && cands[j].id == id;
      assert cands[j] in cands;
    }
    assert m.Keys == m0.Keys;
  }
}
