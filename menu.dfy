/**
 The headless menu state controller (src/components/headless/Menu.tsx): the
 ancestor groups that an active path opens automatically, the pruning of the
 user's own open/closed choices when the active path changes, the merge of the
 two, the per-group toggle and the sidebar's expanded flag.

 A JavaScript `Record<string, boolean>` is a `map<string, bool>`; a missing key
 reads as `undefined`, which every use in the source treats as `false`.
 */
module Menu {
  import opened PathStrings

  /** The keys accumulated from the first 1, 2, ..., m segments. */
  function PrefixKeys(segs: seq<string>, m: nat): set<string>
    requires m <= |segs|
  {
    if m == 0 then {} else PrefixKeys(segs, m - 1) + {Accumulate(segs[..m])}
  }

  /** Number of segments whose prefixes are auto-opened: all but the last one. */
  function AncestorCount(segs: seq<string>): nat
  {
    if |segs| == 0 then 0 else |segs| - 1
  }

  /** Specification of `computeAutoOpenGroups`: every ancestor group key of the active path maps
      to true. */
  function AutoOpenGroups(activePath: string): (open: map<string, bool>)
    ensures forall key :: key in open ==> open[key]
    ensures |open| == AncestorCount(Segments(activePath))
  {
    var segs := Segments(activePath);
    var keys := PrefixKeys(segs, AncestorCount(segs));
    PrefixKeysCount(segs, AncestorCount(segs));
    var open := map key | key in keys :: true;
    assert open.Keys == keys;
    open
  }

  /** `computeAutoOpenGroups`: walks the segments, extending the accumulated key and marking it open,
      for every segment except the last. */
  method ComputeAutoOpenGroups(activePath: string) returns (openGroups: map<string, bool>)
    ensures openGroups == AutoOpenGroups(activePath)
  {
    var segments := Segments(activePath);
    openGroups := map[];
    var accumulated := "";
    var i := 0;
    while i < |segments| - 1
      invariant 0 <= i <= AncestorCount(segments)
      invariant accumulated == Accumulate(segments[..i])
      invariant openGroups == map key | key in PrefixKeys(segments, i) :: true
    {
      assert segments[..i + 1][..i] == segments[..i];
      accumulated := accumulated + "/" + segments[i];
      openGroups := openGroups[accumulated := true];
      i := i + 1;
    }
  }

  /** The keys of `PrefixKeys` are exactly the accumulations of the first j segments, 1 <= j <= m. */
  lemma {:induction false} PrefixKeysMembers(segs: seq<string>, m: nat, key: string)
    requires m <= |segs|
    ensures key in PrefixKeys(segs, m) <==> exists j :: 1 <= j <= m && key == Accumulate(segs[..j])
  {
    if m > 0 {
      PrefixKeysMembers(segs, m - 1, key);
    }
  }

  /** Every key in `PrefixKeys(segs, m)` is a prefix of the key of the first m segments, and one of
      length strictly less unless it is that key. */
  lemma {:induction false} PrefixKeysBelow(segs: seq<string>, m: nat, key: string)
    requires m <= |segs| && key in PrefixKeys(segs, m)
    ensures StartsWith(Accumulate(segs[..m]), key)
    ensures key == Accumulate(segs[..m]) || |key| < |Accumulate(segs[..m])|
  {
    PrefixKeysMembers(segs, m, key);
    var j :| 1 <= j <= m && key == Accumulate(segs[..j]);
    AccumulatePrefix(segs[..m], j);
    assert segs[..m][..j] == segs[..j];
  }

  /** The first m segments give m distinct keys. */
  lemma {:induction false} PrefixKeysCount(segs: seq<string>, m: nat)
    requires m <= |segs|
    ensures |PrefixKeys(segs, m)| == m
  {
    if m > 0 {
      PrefixKeysCount(segs, m - 1);
      var newKey := Accumulate(segs[..m]);
      AccumulatePrefix(segs[..m], m - 1);
      assert segs[..m][..m - 1] == segs[..m - 1];
      if newKey in PrefixKeys(segs, m - 1) {
        PrefixKeysBelow(segs, m - 1, newKey);
        assert false;
      }
    }
  }

  /** The shape of the auto-open map: one key per segment but the last, every value true, the key
      of the whole segment list absent, and the keys exactly the accumulations of 1 .. n-1 segments. */
  lemma AutoOpenGroupsShape(activePath: string)
    ensures var segs := Segments(activePath);
      && |AutoOpenGroups(activePath)| == AncestorCount(segs)
      && (forall key :: key in AutoOpenGroups(activePath) ==> AutoOpenGroups(activePath)[key])
      && Accumulate(segs) !in AutoOpenGroups(activePath)
      && (forall key :: key in AutoOpenGroups(activePath) <==>
            exists j :: 1 <= j < |segs| && key == Accumulate(segs[..j]))
  {
    var segs := Segments(activePath);
    var n := AncestorCount(segs);
    var r := AutoOpenGroups(activePath);
    assert r.Keys == PrefixKeys(segs, n);
    PrefixKeysCount(segs, n);
    forall key
      ensures key in r <==> exists j :: 1 <= j < |segs| && key == Accumulate(segs[..j])
    {
      PrefixKeysMembers(segs, n, key);
    }
    if segs != [] {
      AccumulatePrefix(segs, n);
      if Accumulate(segs) in r {
        PrefixKeysBelow(segs, n, Accumulate(segs));
        assert false;
      }
    }
  }

  /** For a canonical path (leading slash, no empty segment) every auto-open key is a proper prefix
      of the path. */
  lemma AutoOpenKeysAreProperPrefixes(activePath: string, key: string)
    requires IsCanonicalPath(activePath)
    requires key in AutoOpenGroups(activePath)
    ensures StartsWith(activePath, key) && key != activePath
  {
    var segs := Segments(activePath);
    var n := AncestorCount(segs);
    PrefixKeysBelow(segs, n, key);
    AccumulatePrefix(segs, n);
    assert segs[..|segs|] == segs;
    AutoOpenGroupsShape(activePath);
  }

  lemma SegmentsExample()
    ensures Accumulate(["a"]) == "/a" && Accumulate(["a", "b"]) == "/a/b"
    ensures Segments("/a/b/c") == ["a", "b", "c"]
  {
    var segs := ["a", "b", "c"];
    assert segs[..2] == ["a", "b"];
    assert ["a", "b"][..1] == ["a"];
    assert ["a"][..0] == [];
    assert Accumulate(segs) == "/a/b/c";
    assert forall i :: 0 <= i < |segs| ==> IsSegment(segs[i]);
    SegmentsOfAccumulate(segs);
  }

  /** The documented example: "/a/b/c" opens exactly "/a" and "/a/b". */
  lemma AutoOpenGroupsExample()
    ensures AutoOpenGroups("/a/b/c") == map["/a" := true, "/a/b" := true]
  {
    var segs := ["a", "b", "c"];
    SegmentsExample();
    assert segs[..1] == ["a"];
    assert segs[..2] == ["a", "b"];
    assert PrefixKeys(segs, 1) == {"/a"};
    assert PrefixKeys(segs, 2) == {"/a", "/a/b"};
    var r := AutoOpenGroups("/a/b/c");
    assert r.Keys == {"/a", "/a/b"};
  }

  /** The root and the empty path open no group. */
  lemma AutoOpenGroupsRoot()
    ensures AutoOpenGroups("/") == map[]
    ensures AutoOpenGroups("") == map[]
  {
    assert SplitOnSlash("/") == ["", ""];
  }

  /** Specification of the reconciliation step: keep only the user keys the active path starts with.
      If a key had to go, every kept key is set to true; if none had to go, `prev` is returned as
      it is. */
  function ReconciledUserGroups(prev: map<string, bool>, activePath: string): (next: map<string, bool>)
    ensures forall key :: key in next <==> key in prev && StartsWith(activePath, key)
  {
    if exists key :: key in prev && !StartsWith(activePath, key) then
      map key | key in prev && StartsWith(activePath, key) :: true
    else
      prev
  }

  /** The reconciliation loop: visits every key of `prev`, copies the kept ones into `filtered` as
      true and records in `changed` whether any key was dropped. */
  method ReconcileUserGroups(prev: map<string, bool>, activePath: string) returns (next: map<string, bool>)
    ensures next == ReconciledUserGroups(prev, activePath)
  {
    var filtered: map<string, bool> := map[];
    var changed := false;
    var unvisited := prev.Keys;
    while unvisited != {}
      invariant unvisited <= prev.Keys
      invariant filtered == map key | key in prev && key !in unvisited && StartsWith(activePath, key) :: true
      invariant changed <==> exists key :: key in prev && key !in unvisited && !StartsWith(activePath, key)
      decreases unvisited
    {
      var key :| key in unvisited;
      unvisited := unvisited - {key};
      if StartsWith(activePath, key) {
        filtered := filtered[key := true];
      } else {
        changed := true;
      }
    }
    if changed {
      next := filtered;
    } else {
      next := prev;
    }
  }

  /** When no user key had to be dropped, reconciliation returns the map unchanged, false values
      included. */
  lemma ReconcileKeepsUnchanged(prev: map<string, bool>, activePath: string)
    requires forall key :: key in prev ==> StartsWith(activePath, key)
    ensures ReconciledUserGroups(prev, activePath) == prev
  {
  }

  /** When some user key had to be dropped, every remaining key maps to true. */
  lemma ReconcileResetsKeptToOpen(prev: map<string, bool>, activePath: string, dropped: string)
    requires dropped in prev && !StartsWith(activePath, dropped)
    ensures dropped !in ReconciledUserGroups(prev, activePath)
    ensures forall key :: key in ReconciledUserGroups(prev, activePath) ==> ReconciledUserGroups(prev, activePath)[key]
  {
  }

  /** Reconciling twice with the same active path is the same as reconciling once. */
  lemma ReconcileIdempotent(prev: map<string, bool>, activePath: string)
    ensures ReconciledUserGroups(ReconciledUserGroups(prev, activePath), activePath)
         == ReconciledUserGroups(prev, activePath)
  {
    var once := ReconciledUserGroups(prev, activePath);
    ReconcileKeepsUnchanged(once, activePath);
  }

  /** The `openGroups` merge: the user's entries win over the derived ones. */
  function MergedOpenGroups(auto: map<string, bool>, user: map<string, bool>): (open: map<string, bool>)
    ensures open.Keys == auto.Keys + user.Keys
    ensures forall key :: key in user ==> open[key] == user[key]
    ensures forall key :: key in auto && key !in user ==> open[key] == auto[key]
  {
    auto + user
  }

  /** A JavaScript lookup `m[key]` read as a boolean: a missing key is false. */
  function Lookup(m: map<string, bool>, key: string): (value: bool)
    ensures key !in m ==> !value
    ensures key in m ==> value == m[key]
  {
    key in m && m[key]
  }

  /** The `toggleGroup` update: the entry for `id` becomes the negation of its old value, a missing
      entry counting as false (so it becomes true); every other entry stays. */
  function ToggledUserGroups(prev: map<string, bool>, id: string): (next: map<string, bool>)
    ensures next.Keys == prev.Keys + {id}
    ensures next[id] == !Lookup(prev, id)
    ensures id !in prev ==> next[id]
    ensures forall key :: key in prev && key != id ==> next[key] == prev[key]
  {
    prev[id := !Lookup(prev, id)]
  }

  /** Toggling the same group twice restores an entry that was present, and leaves `false` behind
      for one that was missing. */
  lemma ToggleTwice(prev: map<string, bool>, id: string)
    ensures id in prev ==> ToggledUserGroups(ToggledUserGroups(prev, id), id) == prev
    ensures id !in prev ==> ToggledUserGroups(ToggledUserGroups(prev, id), id) == prev[id := false]
  {
  }

  /** The state behind `<Menu>`: the active path it is given, the user's open/closed overrides and
      the sidebar's expanded flag. */
  class MenuController {
    var activePath: string
    var userOpenGroups: map<string, bool>
    var expanded: bool

    /** Mounting: no overrides yet, and the sidebar starts expanded. */
    constructor (activePath: string)
      ensures this.activePath == activePath
      ensures userOpenGroups == map[]
      ensures expanded
    {
      this.activePath := activePath;
      userOpenGroups := map[];
      expanded := true;
    }

    /** `openGroups` as handed to the descendants: derived entries with the user's overrides on top. */
    function OpenGroups(): (open: map<string, bool>)
      reads this
      ensures open.Keys == AutoOpenGroups(activePath).Keys + userOpenGroups.Keys
      ensures forall key :: key in open ==> open[key] == if key in userOpenGroups then userOpenGroups[key] else AutoOpenGroups(activePath)[key]
    {
      MergedOpenGroups(AutoOpenGroups(activePath), userOpenGroups)
    }

    /** `toggleGroup(id)`. */
    method ToggleGroup(id: string)
      modifies this
      ensures userOpenGroups == ToggledUserGroups(old(userOpenGroups), id)
      ensures activePath == old(activePath) && expanded == old(expanded)
    {
      userOpenGroups := ToggledUserGroups(userOpenGroups, id);
    }

    /** `setExpanded(value)`. */
    method SetExpanded(value: bool)
      modifies this
      ensures expanded == value
      ensures activePath == old(activePath) && userOpenGroups == old(userOpenGroups)
    {
      expanded := value;
    }

    /** The toggle button's click: `setExpanded(!expanded)`. */
    method PressToggleButton()
      modifies this
      ensures expanded == !old(expanded)
      ensures activePath == old(activePath) && userOpenGroups == old(userOpenGroups)
    {
      SetExpanded(!expanded);
    }

    /** The deferred effect, run as one synchronous step: prune the overrides against the current
        active path. */
    method Reconcile()
      modifies this
      ensures userOpenGroups == ReconciledUserGroups(old(userOpenGroups), activePath)
      ensures forall key :: key in userOpenGroups ==> StartsWith(activePath, key)
      ensures activePath == old(activePath) && expanded == old(expanded)
    {
      userOpenGroups := ReconcileUserGroups(userOpenGroups, activePath);
    }

    /** A new `activePath` prop: the effect depends on `activePath`, so it runs only when the path
        differs from the previous one. */
    method ChangeActivePath(newPath: string)
      modifies this
      ensures activePath == newPath && expanded == old(expanded)
      ensures newPath == old(activePath) ==> userOpenGroups == old(userOpenGroups)
      ensures newPath != old(activePath) ==> userOpenGroups == ReconciledUserGroups(old(userOpenGroups), newPath)
      ensures newPath != old(activePath) ==>
        forall key :: key in old(userOpenGroups) ==> (key in userOpenGroups <==> StartsWith(newPath, key))
    {
      if newPath != activePath {
        activePath := newPath;
        Reconcile();
      }
    }
  }
}
