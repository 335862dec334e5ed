/**
 Two places where the controller in src/components/headless/Menu.tsx is at odds
 with the source's own cues. Each is shown twice: a lemma on the definition as
 written (in module Menu) that exhibits the input, and a corrected definition
 with the intended property proved about it.

 1. A group header is a button that reports the group's open state and calls
    `toggleGroup` on click, so a click should open or close the group.
    `toggleGroup` negates the user's entry alone. A group that is open only
    because the active path lies inside it has no entry, so the first click
    writes `true` and the group stays open.
 2. The reconciliation's comments say it keeps the user's groups under the
    active path and returns the old map, when nothing was dropped, only to save
    a re-render. It writes `true` for every kept key when some other key is
    dropped, but returns the old map when none is; a group the user closed is
    reopened or kept closed depending on unrelated entries.
 */
module MenuCorrections {
  import opened PathStrings
  import opened Menu
  import AppMenu

  // ---- 1. The toggle ----

  /** As written: the first toggle of a group that is auto-open and has no user entry leaves it open. */
  lemma FirstToggleKeepsAutoOpenGroupOpen(auto: map<string, bool>, user: map<string, bool>, id: string)
    requires Lookup(auto, id) && id !in user
    ensures AppMenu.GroupIsOpen(MergedOpenGroups(auto, user), id)
    ensures AppMenu.GroupIsOpen(MergedOpenGroups(auto, ToggledUserGroups(user, id)), id)
  {
  }

  /** As written, on the application's own shape: on "/a/b" group "/a" is open, and clicking its
      header once leaves it open. */
  lemma FirstToggleExample()
    ensures var auto := AutoOpenGroups("/a/b");
      && AppMenu.GroupIsOpen(MergedOpenGroups(auto, map[]), "/a")
      && AppMenu.GroupIsOpen(MergedOpenGroups(auto, ToggledUserGroups(map[], "/a")), "/a")
  {
    var segs := ["a", "b"];
    assert segs[..1] == ["a"] && ["a"][..0] == [];
    assert Accumulate(segs) == "/a/b";
    assert forall i :: 0 <= i < |segs| ==> IsSegment(segs[i]);
    SegmentsOfAccumulate(segs);
    assert Accumulate(segs[..1]) == "/a";
    assert PrefixKeys(segs, 1) == {"/a"};
  }

  /** The as-written toggle applied n times. */
  function ToggledTimes(user: map<string, bool>, id: string, n: nat): map<string, bool>
  {
    if n == 0 then user else ToggledUserGroups(ToggledTimes(user, id, n - 1), id)
  }

  /** As written: after n >= 1 toggles of a group without a user entry, it is open exactly when n is
      odd, whatever the auto-open state, so for an auto-open group the effective state after n
      toggles is not its initial state XOR the parity of n. */
  lemma {:induction false} AsWrittenToggleParity(auto: map<string, bool>, user: map<string, bool>, id: string, n: nat)
    requires id !in user && n >= 1
    ensures AppMenu.GroupIsOpen(MergedOpenGroups(auto, ToggledTimes(user, id, n)), id) == (n % 2 == 1)
  {
    if n > 1 {
      AsWrittenToggleParity(auto, user, id, n - 1);
    }
  }

  /** Corrected toggle: the new entry is the negation of the group's effective state (the user's
      entry if any, else the auto-open one), i.e. `[id]: !(prev[id] ?? autoOpenGroups[id])`. */
  function ToggledEffective(auto: map<string, bool>, user: map<string, bool>, id: string): (next: map<string, bool>)
    ensures next.Keys == user.Keys + {id}
    ensures forall key :: key in user && key != id ==> next[key] == user[key]
    ensures next[id] == !AppMenu.GroupIsOpen(MergedOpenGroups(auto, user), id)
  {
    user[id := !Lookup(MergedOpenGroups(auto, user), id)]
  }

  /** The corrected toggle applied n times. */
  function ToggledEffectiveTimes(auto: map<string, bool>, user: map<string, bool>, id: string, n: nat): map<string, bool>
  {
    if n == 0 then user else ToggledEffective(auto, ToggledEffectiveTimes(auto, user, id, n - 1), id)
  }

  /** The effective open state of a group under the merge, as the group view reads it. */
  predicate EffectivelyOpen(auto: map<string, bool>, user: map<string, bool>, key: string)
  {
    AppMenu.GroupIsOpen(MergedOpenGroups(auto, user), key)
  }

  lemma OddStep(n: nat)
    requires n > 0
    ensures (n % 2 == 1) == !((n - 1) % 2 == 1)
  {
  }

  /** Corrected: one toggle flips the group's effective state. */
  lemma ToggleOnceFlips(auto: map<string, bool>, user: map<string, bool>, id: string)
    ensures EffectivelyOpen(auto, ToggledEffective(auto, user, id), id) == !EffectivelyOpen(auto, user, id)
  {
  }

  /** Corrected: one toggle leaves every other group's effective state. */
  lemma ToggleOnceLeavesOthers(auto: map<string, bool>, user: map<string, bool>, id: string, key: string)
    requires key != id
    ensures EffectivelyOpen(auto, ToggledEffective(auto, user, id), key) == EffectivelyOpen(auto, user, key)
  {
  }

  /** Corrected: after n toggles a group's effective state is its initial state XOR the parity of n. */
  lemma {:induction false} EffectiveToggleParity(auto: map<string, bool>, user: map<string, bool>, id: string, n: nat)
    ensures EffectivelyOpen(auto, ToggledEffectiveTimes(auto, user, id, n), id)
         == (EffectivelyOpen(auto, user, id) != (n % 2 == 1))
  {
    if n > 0 {
      EffectiveToggleParity(auto, user, id, n - 1);
      ToggleStepFlips(auto, user, id, n);
      OddStep(n);
    }
  }

  /** The n-th corrected toggle flips the state left by the first n - 1. */
  lemma ToggleStepFlips(auto: map<string, bool>, user: map<string, bool>, id: string, n: nat)
    requires n > 0
    ensures EffectivelyOpen(auto, ToggledEffectiveTimes(auto, user, id, n), id)
         == !EffectivelyOpen(auto, ToggledEffectiveTimes(auto, user, id, n - 1), id)
  {
    ToggleOnceFlips(auto, ToggledEffectiveTimes(auto, user, id, n - 1), id);
  }

  /** Corrected: toggling one group any number of times leaves every other group's effective state. */
  lemma {:induction false} EffectiveToggleLeavesOthers(auto: map<string, bool>, user: map<string, bool>, id: string, n: nat, key: string)
    requires key != id
    ensures EffectivelyOpen(auto, ToggledEffectiveTimes(auto, user, id, n), key) == EffectivelyOpen(auto, user, key)
  {
    if n > 0 {
      EffectiveToggleLeavesOthers(auto, user, id, n - 1, key);
      ToggleOnceLeavesOthers(auto, ToggledEffectiveTimes(auto, user, id, n - 1), id, key);
    }
  }

  // ---- 2. The reconciliation ----

  /** As written: with group "/a" closed by the user on "/a/b", it is reopened when an unrelated
      entry "/x" is dropped, and stays closed when there is no such entry. */
  lemma ReconcileReopensClosedGroup()
    ensures ReconciledUserGroups(map["/a" := false, "/x" := true], "/a/b") == map["/a" := true]
    ensures ReconciledUserGroups(map["/a" := false], "/a/b") == map["/a" := false]
  {
    assert "/a/b"[..2] == "/a";
    assert !StartsWith("/a/b", "/x") by {
      assert "/a/b"[1] != "/x"[1];
    }
    var before := map["/a" := false, "/x" := true];
    var after := ReconciledUserGroups(before, "/a/b");
    assert after.Keys == {"/a"};
  }

  /** Corrected reconciliation: drop the entries the active path no longer starts with and keep the
      others with their values, i.e. `filtered[key] = prev[key]`. */
  function ReconciledKeepingChoices(prev: map<string, bool>, activePath: string): (next: map<string, bool>)
    ensures forall key :: key in next <==> key in prev && StartsWith(activePath, key)
    ensures forall key :: key in next ==> next[key] == prev[key]
  {
    map key | key in prev && StartsWith(activePath, key) :: prev[key]
  }

  /** Corrected: the early `return prev` is exactly the filtered map when nothing is dropped; the
      kept keys are the same as those of the code as written; and the corrected step is idempotent. */
  lemma KeepingChoicesAgrees(prev: map<string, bool>, activePath: string)
    ensures (forall key :: key in prev ==> StartsWith(activePath, key)) ==> ReconciledKeepingChoices(prev, activePath) == prev
    ensures ReconciledKeepingChoices(prev, activePath).Keys == ReconciledUserGroups(prev, activePath).Keys
    ensures ReconciledKeepingChoices(ReconciledKeepingChoices(prev, activePath), activePath) == ReconciledKeepingChoices(prev, activePath)
  {
  }

  /** Corrected: every group the new active path still lies inside keeps its effective open state. */
  lemma KeepingChoicesPreservesEnclosingGroups(auto: map<string, bool>, prev: map<string, bool>, activePath: string, path: string)
    requires StartsWith(activePath, path)
    ensures AppMenu.GroupIsOpen(MergedOpenGroups(auto, ReconciledKeepingChoices(prev, activePath)), path)
         == AppMenu.GroupIsOpen(MergedOpenGroups(auto, prev), path)
  {
  }
}
