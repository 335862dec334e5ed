# Headless sidebar menu: a Dafny model of its view-state logic

This project models the state logic of a collapsible, hierarchical sidebar:

- **The headless menu controller** (`src/components/headless/Menu.tsx`):
  - which ancestor groups the active path opens automatically (`computeAutoOpenGroups`);
  - pruning the user's open/closed overrides when the active path changes (the reconciliation effect);
  - merging the two into `openGroups`;
  - `toggleGroup`;
  - the sidebar's `expanded` flag and its toggle button.
- **The router-backed wrapper** (`src/components/AppMenu.tsx`):
  - how `basename` is stripped from the observed location and added back when navigating;
  - the group and item predicates (`isOpen`, `isActive`, hover, inline children, pop-over, tooltip);
  - the guarded hover handlers;
  - item activation by click, Enter or Space.

Files and modules:

- `path_strings.dfy`, module `PathStrings`: the JavaScript string operations the code relies on, defined the way the runtime does.
  - `split("/")`, `filter(Boolean)` and `startsWith`.
  - The `"/" + segment` accumulation that builds group keys.
  - The round trips between splitting and joining.
- `menu.dfy`, module `Menu`:
  - `ComputeAutoOpenGroups` and `ReconcileUserGroups` are methods with the source's loops. Each is proved equal to a specification function (`AutoOpenGroups`, `ReconciledUserGroups`), and lemmas state the promised properties of those functions.
  - The class `MenuController` holds the fields `activePath`, `userOpenGroups` and `expanded`. Its methods update them as the React state setters do.
- `app_menu.dfy`, module `AppMenu`:
  - the adapter functions `ActivePathOf` and `NavigationTarget`, and the view predicates;
  - the class `SidebarHover`, which holds `hoveredGroup` and `hoveredItem`;
  - item activation.
- `menu_corrections.dfy`, module `MenuCorrections`: the two findings below. Each has a lemma on the code as written and a corrected definition with its intended property proved.

How the source is represented:

- A `Record<string, boolean>` is a `map<string, bool>`.
- A lookup of a missing key (`undefined`) counts as `false`.
- `null` is `None`.
- Strings are `seq<char>`.
- `location.pathname` is an input, and `navigate(target)` is modelled by returning `target`.
- The deferred reconciliation is one synchronous method, `MenuController.Reconcile`. `MenuController.ChangeActivePath` runs it when the `activePath` prop changes, which matches the effect's dependency on `activePath`.

Two places where the controller's behaviour is at odds with the source's own cues. The model follows the code as written and puts corrected definitions beside it (see "## Findings"):

- **Toggling an auto-open group:** a group header is a button whose `aria-expanded` reflects the group's open state and whose click calls `toggleGroup` (src/components/AppMenu.tsx:136-140), so a click is expected to open or close the group. `toggleGroup` negates only the user's own entry (src/components/headless/Menu.tsx:167-172). A group that is open only because the active path lies inside it has no entry, so its first click writes `true` and nothing visible changes (`MenuCorrections.FirstToggleExample`, `MenuCorrections.AsWrittenToggleParity`).
- **Reconciliation:** the comments at src/components/headless/Menu.tsx:146-147 say the pass keeps the user's groups that belong to the active path, and those at :155-156 say the old state is returned when nothing changed only to avoid a re-render. The code instead writes `true` for every kept key, so when any other entry is dropped a group the user closed is reopened, while with nothing dropped it stays closed (`Menu.ReconcileResetsKeptToOpen`, `MenuCorrections.ReconcileReopensClosedGroup`).

Item activation: a click on an item, or Enter or Space while it has focus, calls `onChangeActive(to)` and nothing else (src/components/AppMenu.tsx:199-207); it does not change any group's open state (`AppMenu.ItemActivation`).

## Model

| member | source | states |
|---|---|---|
| PathStrings.StartsWith | src/components/headless/Menu.tsx:148 | `s.startsWith(p)` holds iff `p` is no longer than `s` and the first `p.length` characters of `s` are `p` |
| PathStrings.SplitOnSlash | src/components/headless/Menu.tsx:117 | `split("/")` always yields at least one piece, and no piece contains a slash |
| PathStrings.NonEmptyOnly | src/components/headless/Menu.tsx:117 | `filter(Boolean)` keeps only non-empty pieces, each taken from the input, keeps every non-empty piece of the input, and never grows the list |
| PathStrings.NonEmptyOnlySingle | src/components/headless/Menu.tsx:117 | filtering a single piece drops it when it is empty and keeps it otherwise |
| PathStrings.NonEmptyOnlyAppend | src/components/headless/Menu.tsx:117 | filtering a concatenation is the concatenation of the filtered parts, so the kept pieces stay in their order |
| PathStrings.Segments | src/components/headless/Menu.tsx:117 | every segment of a path is non-empty and slash-free |
| PathStrings.SegmentsExamples | src/components/headless/Menu.tsx:117 | "/a//b/" and "a/b" both have the segments a, b, and "/a/" has the single segment a: doubled, leading and trailing slashes leave no segment |
| PathStrings.Accumulate | src/components/headless/Menu.tsx:119-121 | the key accumulated from no segments is "", and from one or more segments it starts with "/" and is at least one character per segment long |
| PathStrings.JoinSplit | src/components/headless/Menu.tsx:117 | joining the pieces of `split("/")` with slashes gives back the original string |
| PathStrings.SplitJoin | src/components/headless/Menu.tsx:117 | splitting a slash-join of slash-free pieces gives back the pieces |
| PathStrings.SegmentsOfAccumulate | src/components/headless/Menu.tsx:117-122 | the segments of a key built from well-formed segments are exactly those segments, and that key is a canonical path |
| PathStrings.AccumulatePrefix | src/components/headless/Menu.tsx:119-122 | the key accumulated from the first j segments is a prefix of the full key, and strictly shorter when j < n |
| Menu.AutoOpenGroups | src/components/headless/Menu.tsx:116-125 | every auto-open entry is `true`, and there is one entry per segment except the last |
| Menu.ComputeAutoOpenGroups | src/components/headless/Menu.tsx:116-125 | the loop over all segments but the last produces exactly `AutoOpenGroups(activePath)` |
| Menu.PrefixKeysCount | src/components/headless/Menu.tsx:119-123 | the first m segments produce m distinct keys, so no two iterations write the same key |
| Menu.AutoOpenGroupsShape | src/components/headless/Menu.tsx:117-123 | with n segments there are exactly max(0, n-1) auto-open keys; every value is true; the key of all n segments is absent; the keys are exactly the accumulations of 1..n-1 segments |
| Menu.AutoOpenKeysAreProperPrefixes | src/components/headless/Menu.tsx:120-122 | for a canonical active path, every auto-open key is a proper string prefix of it |
| Menu.SegmentsExample | src/components/headless/Menu.tsx:111-117 | "/a/b/c" has the segments a, b, c, and "/a" and "/a/b" are the keys of its first one and two segments |
| Menu.AutoOpenGroupsExample | src/components/headless/Menu.tsx:111-125 | "/a/b/c" auto-opens exactly "/a" and "/a/b" |
| Menu.AutoOpenGroupsRoot | src/components/headless/Menu.tsx:116-125 | "/" and "" auto-open nothing |
| Menu.ReconciledUserGroups | src/components/headless/Menu.tsx:141-161 | after reconciliation a key remains iff it was present and the active path starts with it |
| Menu.ReconcileUserGroups | src/components/headless/Menu.tsx:142-160 | the `for...in` loop with `filtered` and `changed` computes exactly `ReconciledUserGroups(prev, activePath)` whatever the visiting order |
| Menu.ReconcileKeepsUnchanged | src/components/headless/Menu.tsx:155-160 | if every key is a prefix of the active path, `prev` is returned unchanged, false values included |
| Menu.ReconcileResetsKeptToOpen | src/components/headless/Menu.tsx:148-158 | if some key is dropped, that key is gone and every kept key maps to true |
| Menu.ReconcileIdempotent | src/components/headless/Menu.tsx:141-161 | reconciling twice with the same active path equals reconciling once |
| Menu.MergedOpenGroups | src/components/headless/Menu.tsx:165 | the merged key set is the union of both maps' keys; a user entry wins; otherwise the auto entry is used |
| Menu.Lookup | src/components/headless/Menu.tsx:170 | a missing key reads as false, and a present key reads as its stored value |
| Menu.ToggledUserGroups | src/components/headless/Menu.tsx:167-172 | the toggle sets `id` to the negation of its old value, with a missing key counted false (so absent becomes true); the key set grows by `id` only and other entries are unchanged |
| Menu.ToggleTwice | src/components/headless/Menu.tsx:167-172 | toggling twice restores a present entry and leaves `false` for one that was absent |
| Menu.MenuController.constructor | src/components/headless/Menu.tsx:128-174 | on mount there are no user overrides and `expanded` is true |
| Menu.MenuController.OpenGroups | src/components/headless/Menu.tsx:165 | the context's `openGroups` holds the union of auto and user keys, with the user's value where present and the derived value otherwise |
| Menu.MenuController.ToggleGroup | src/components/headless/Menu.tsx:167-172 | the new overrides are the toggle of the old ones at `id`; `activePath` and `expanded` are unchanged |
| Menu.MenuController.SetExpanded | src/components/headless/Menu.tsx:174 | `setExpanded(v)` sets the flag to `v` and changes nothing else |
| Menu.MenuController.PressToggleButton | src/components/headless/Menu.tsx:195 | the toggle button's click sets `expanded` to its negation and changes nothing else |
| Menu.MenuController.Reconcile | src/components/headless/Menu.tsx:140-162 | the overrides become `ReconciledUserGroups(old overrides, activePath)`; afterwards every key is a prefix of the active path; nothing else changes |
| Menu.MenuController.ChangeActivePath | src/components/headless/Menu.tsx:137-163 | a new active path reconciles the overrides: each old key is retained iff the new path starts with it. The same path reruns nothing, and `expanded` is unchanged |
| AppMenu.ActivePathOf | src/components/AppMenu.tsx:33-35 | a pathname under `basename` yields the remainder after it, or "/" when nothing remains; any other pathname passes through unchanged |
| AppMenu.NavigationTarget | src/components/AppMenu.tsx:37-41 | the target always starts with `basename`; "/" targets `basename`, or "/" when `basename` is ""; any other `p` targets `basename` followed by `p` |
| AppMenu.NavigationRoundTrip | src/components/AppMenu.tsx:33-39 | for every non-empty `p`, deriving the active path from the target of `onChangeActive(p)` gives back `p`, provided the router reports that target verbatim as `location.pathname` |
| AppMenu.LocationRoundTrip | src/components/AppMenu.tsx:33-39 | a location under `basename` with a remainder other than "/" is reproduced by navigating to its active path; `basename + "/"` maps back to the root target |
| AppMenu.MenuBasenameExamples | src/components/AppMenu.tsx:27-39 | with basename "/menu": "/menu/a/b" gives "/a/b" and back; "/" targets "/menu"; "/menu" reads as "/"; with the default basename "" the root targets "/" |
| AppMenu.GroupIsOpen | src/components/AppMenu.tsx:121 | `Boolean(openGroups[path])`: a group without an entry is closed, and one with an entry is open iff the entry is true |
| AppMenu.GroupIsActive | src/components/AppMenu.tsx:122 | a group is active iff its path is no longer than the active path and is its first characters |
| AppMenu.IsHovered | src/components/AppMenu.tsx:123 | an element is hovered iff a hover id is set and equals its path or target |
| AppMenu.NestedChildrenShown | src/components/AppMenu.tsx:148 | the inline children are shown iff the sidebar is expanded and the group has a true entry in `openGroups` |
| AppMenu.OverlayShown | src/components/AppMenu.tsx:151 | a group's pop-over is shown iff the sidebar is collapsed and the hovered group is this one; the item tooltip at line 218 uses the same condition on the hovered item |
| AppMenu.GroupOpenFromController | src/components/AppMenu.tsx:121 | a group is open iff the user map holds true for it, or the user map lacks it and the auto map holds true |
| AppMenu.GroupActiveIsStringPrefix | src/components/AppMenu.tsx:122 | group activity is a plain string prefix: "/a/bc" activates "/a/b" and does not activate "/a/b/" |
| AppMenu.AutoOpenGroupsAreActive | src/components/AppMenu.tsx:121-122 | for a canonical active path every auto-open group is active and open in the derived map, so open on screen when the user has no entry for it; the path's own group is active but not auto-open |
| AppMenu.ChildrenAndPopupExclusive | src/components/AppMenu.tsx:148-151 | a group never shows its inline children and its pop-over at once, and shows no pop-over while expanded |
| AppMenu.ItemIsActive | src/components/AppMenu.tsx:186 | an item is active iff its target has the active path's length and is a prefix of it, i.e. the two are equal |
| AppMenu.ItemActivation | src/components/AppMenu.tsx:199-208 | a click, Enter or Space requests navigation to exactly `to`; any other key requests nothing |
| AppMenu.ActiveItemActivatesAncestors | src/components/AppMenu.tsx:186 | when an item is active (exact equality), every group its target starts with is active |
| AppMenu.ActivationMakesItemActive | src/components/AppMenu.tsx:199-207 | after an activation, the active path derived from the new location equals the item's non-empty target, when the router reports the target verbatim |
| AppMenu.EmptyTargetNotActive | src/components/AppMenu.tsx:33-39 | an item with target "" is not active after navigating to it when the router reports the target verbatim, because the location reads back as "/" |
| AppMenu.GuardedHover | src/components/AppMenu.tsx:125-131 | a hover handler changes the state only when the sidebar is collapsed and the setter was given; then it sets the requested id |
| AppMenu.SidebarHover.constructor | src/components/AppMenu.tsx:62-63 | both hover ids start as null |
| AppMenu.SidebarHover.GroupMouseEnter | src/components/AppMenu.tsx:125-127 | when collapsed and wired, `hoveredGroup` becomes the group's path; otherwise it is unchanged; `hoveredItem` is untouched |
| AppMenu.SidebarHover.GroupMouseLeave | src/components/AppMenu.tsx:129-131 | when collapsed and wired, `hoveredGroup` becomes null; otherwise it is unchanged; `hoveredItem` is untouched |
| AppMenu.SidebarHover.PopupMouseEnter | src/components/AppMenu.tsx:154 | the pop-over's enter handler sets `hoveredGroup` to the path whenever the setter exists, without checking `expanded` |
| AppMenu.SidebarHover.PopupMouseLeave | src/components/AppMenu.tsx:155 | the pop-over's leave handler clears `hoveredGroup` whenever the setter exists |
| AppMenu.SidebarHover.ItemMouseEnter | src/components/AppMenu.tsx:189-191 | when collapsed and wired, `hoveredItem` becomes the item's target; otherwise it is unchanged; `hoveredGroup` is untouched |
| AppMenu.SidebarHover.ItemMouseLeave | src/components/AppMenu.tsx:192-194 | when collapsed and wired, `hoveredItem` becomes null; otherwise it is unchanged; `hoveredGroup` is untouched |
| AppMenu.GroupHoverCycle | src/components/AppMenu.tsx:125-151 | when collapsed and wired, enter shows the group's pop-over and leave clears the hover; when expanded, neither changes the hover state |
| AppMenu.UnwiredItemNoTooltip | src/components/AppMenu.tsx:189-218 | an item without the injected setter never brings up its own tooltip |
| MenuCorrections.FirstToggleKeepsAutoOpenGroupOpen | src/components/headless/Menu.tsx:167-172 | a group that is auto-open and has no user entry stays open after its first toggle |
| MenuCorrections.FirstToggleExample | src/components/headless/Menu.tsx:165-172 | on "/a/b", group "/a" is open before and after one header click |
| MenuCorrections.AsWrittenToggleParity | src/components/headless/Menu.tsx:165-172 | after n >= 1 toggles of a group without a user entry, it is open iff n is odd, whatever its auto-open state |
| MenuCorrections.ToggledEffective | src/components/headless/Menu.tsx:165-172 | the corrected toggle writes at `id` the negation of the group's effective (merged) state; it adds only `id` and keeps every other entry |
| MenuCorrections.ToggleOnceFlips | src/components/headless/Menu.tsx:165-172 | with the corrected toggle, one click always flips the group's effective open state |
| MenuCorrections.ToggleOnceLeavesOthers | src/components/headless/Menu.tsx:165-172 | with the corrected toggle, one click leaves every other group's effective state unchanged |
| MenuCorrections.ToggleStepFlips | src/components/headless/Menu.tsx:165-172 | with the corrected toggle, the n-th click flips the effective state left by the first n - 1 |
| MenuCorrections.EffectiveToggleParity | src/components/headless/Menu.tsx:165-172 | with the corrected toggle, after n toggles the effective state is the initial state XOR the parity of n |
| MenuCorrections.EffectiveToggleLeavesOthers | src/components/headless/Menu.tsx:165-172 | with the corrected toggle, toggling one group any number of times leaves every other group's effective state unchanged |
| MenuCorrections.ReconcileReopensClosedGroup | src/components/headless/Menu.tsx:145-160 | on "/a/b", the as-written code reopens a closed "/a" when an unrelated "/x" is dropped, and keeps it closed when there is none |
| MenuCorrections.ReconciledKeepingChoices | src/components/headless/Menu.tsx:145-160 | the corrected reconciliation keeps exactly the keys the active path starts with, each with its old value |
| MenuCorrections.KeepingChoicesAgrees | src/components/headless/Menu.tsx:155-160 | the corrected step equals `prev` when nothing is dropped, so the early return is a pure optimisation; it keeps the same keys as the code; it is idempotent |
| MenuCorrections.KeepingChoicesPreservesEnclosingGroups | src/components/headless/Menu.tsx:145-165 | with the corrected reconciliation, every group the new active path lies inside keeps its effective open state |

## Left out

- JSX rendering, Tailwind class strings and aria attributes: presentation only.
- `BrowserRouter`, `useLocation` and `useNavigate`: these are router calls. `location.pathname` is a parameter, and `navigate` is `NavigationTarget` returning its target.
- React scheduling (`useMemo`, `useEffect` and the `Promise.resolve().then` deferral):
  - reconciliation is one synchronous step, run right after the path changes;
  - the render in between, where stale overrides are still visible, is not modelled;
  - functional state updates are applied immediately, not batched.
- `React.Children.map`/`cloneElement` prop injection (src/components/AppMenu.tsx:66-78): runtime element introspection.
  - Its effect on a group or item is passed in explicitly: the `expanded` value it sees and whether it was given a hover setter (`hasSetter`).
  - Which elements are direct children of the wrapper is not modelled.
- The context lookup in src/components/headless/useMenu.ts ("Menu components must be inside <Menu>"): a usage error in React wiring, not view-state logic. src/components/headless/MenuContext.ts is only a type.
- src/App.tsx: static configuration, used only for the basename "/menu" in `AppMenu.MenuBasenameExamples`.
- The commented-out first version of the controller, src/components/headless/Menu.tsx:1-97.
- Inherited JavaScript object properties: in the source, a key such as `"constructor"` is read from `Object.prototype` by `prev[id]` and `openGroups[path]`. The model's maps have no inherited keys. Group paths that begin with "/" never collide with these.
- AppMenu.NavigationRoundTrip, AppMenu.ActivationMakesItemActive and AppMenu.EmptyTargetNotActive assume the router reports the navigated target verbatim as `location.pathname`. The router's own normalisation is not modelled. This covers percent-encoding, a "?" or "#" in the target being split off into the search and hash, and a target without a leading "/" being resolved relative to the current location when the basename is "".
- `e.preventDefault()` on Enter and Space (src/components/AppMenu.tsx:206): a DOM side effect that suppresses the browser's default scrolling or clicking; it does not affect the menu's state.
- `for...in` visiting order: the loop's result does not depend on it, and the model visits keys in an arbitrary order.
- The group header's `onClick={() => toggleGroup(path)}` (src/components/AppMenu.tsx:136) adds no logic of its own: it calls `Menu.MenuController.ToggleGroup`.

## Findings

| source | as written | input that shows it | evidently intended | confidence | as-written member | corrected member |
|---|---|---|---|---|---|---|
| src/components/headless/Menu.tsx:167-172 | `[id]: !prev[id]` negates the user's entry only, so a missing entry becomes `true` even when the group is already open because the active path is inside it | active path "/a/b", no overrides; clicking the header of group "/a" once leaves it open | flip the group's effective state, `!(prev[id] ?? autoOpenGroups[id])`, so that every click opens or closes it | medium; not executed | MenuCorrections.FirstToggleExample | MenuCorrections.EffectiveToggleParity |
| src/components/headless/Menu.tsx:148-160 | kept keys are written as `true` when any key is dropped, but `prev` is returned, `false` values included, when none is | active path "/a/b", overrides {"/a": false, "/x": true}: "/a" is reopened; with {"/a": false} alone it stays closed | `filtered[key] = prev[key]`, which makes the early `return prev` the pure re-render optimisation its comment describes | low; not executed | MenuCorrections.ReconcileReopensClosedGroup | MenuCorrections.KeepingChoicesPreservesEnclosingGroups |
