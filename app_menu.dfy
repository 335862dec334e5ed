/**
 The router-backed sidebar (src/components/AppMenu.tsx): the navigation adapter
 that strips and re-adds the configured `basename`, the per-group and per-item
 view predicates, the hover state kept by the sidebar wrapper and the item's
 activation by click or key press.

 The router is abstracted away: the observed `location.pathname` is an input and
 `navigate(target)` is modelled by returning `target`.
 */
module AppMenu {
  import opened PathStrings
  import Menu

  datatype Option<T> = None | Some(value: T)

  /** `basename` when the caller gives none. */
  const DefaultBasename: string := ""

  /** `activePath`: the observed pathname with `basename` stripped, "/" if nothing is left, and the
      pathname unchanged when it does not start with `basename`. */
  function ActivePathOf(pathname: string, basename: string): (activePath: string)
    ensures StartsWith(pathname, basename) && pathname != basename ==> basename + activePath == pathname
    ensures pathname == basename ==> activePath == "/"
    ensures !StartsWith(pathname, basename) ==> activePath == pathname
  {
    if StartsWith(pathname, basename) then
      var rest := pathname[|basename|..];
      if rest == "" then "/" else rest
    else
      pathname
  }

  /** The target `onChangeActive(p)` hands to `navigate`: the root goes to `basename` itself (or "/"
      when there is no basename), any other path is appended to `basename`. */
  function NavigationTarget(p: string, basename: string): (target: string)
    ensures StartsWith(target, basename)
    ensures p != "/" ==> target[|basename|..] == p
    ensures p == "/" ==> target == (if basename == "" then "/" else basename)
  {
    if p == "/" then (if basename == "" then "/" else basename) else basename + p
  }

  /** Round trip: navigating to any non-empty path and reading the location back gives that path. */
  lemma NavigationRoundTrip(p: string, basename: string)
    requires p != ""
    ensures ActivePathOf(NavigationTarget(p, basename), basename) == p
  {
    var target := NavigationTarget(p, basename);
    if p != "/" {
      assert target[|basename|..] == p;
    }
  }

  /** The other direction: a location under `basename` that has something after it other than a
      lone "/" is reproduced by navigating to its active path; `basename + "/"` maps back to the
      root target. */
  lemma LocationRoundTrip(pathname: string, basename: string)
    requires StartsWith(pathname, basename) && pathname != basename
    ensures pathname[|basename|..] != "/" ==> NavigationTarget(ActivePathOf(pathname, basename), basename) == pathname
    ensures pathname[|basename|..] == "/" ==> NavigationTarget(ActivePathOf(pathname, basename), basename) == NavigationTarget("/", basename)
  {
    assert basename + pathname[|basename|..] == pathname;
  }

  /** The application's configuration, basename "/menu". */
  lemma MenuBasenameExamples()
    ensures ActivePathOf("/menu/a/b", "/menu") == "/a/b"
    ensures NavigationTarget("/a/b", "/menu") == "/menu/a/b"
    ensures NavigationTarget("/", "/menu") == "/menu"
    ensures ActivePathOf("/menu", "/menu") == "/"
    ensures NavigationTarget("/", DefaultBasename) == "/"
  {
    assert "/menu/a/b"[5..] == "/a/b";
  }

  // ---- Group view ----

  /** `isOpen = Boolean(openGroups[path])`. */
  predicate GroupIsOpen(openGroups: map<string, bool>, path: string)
    ensures path !in openGroups ==> !GroupIsOpen(openGroups, path)
    ensures path in openGroups ==> (GroupIsOpen(openGroups, path) <==> openGroups[path])
  {
    path in openGroups && openGroups[path]
  }

  /** `isActive = activePath.startsWith(path)`: a plain string prefix, not a segment boundary. */
  predicate GroupIsActive(activePath: string, path: string)
    ensures GroupIsActive(activePath, path) <==> |path| <= |activePath| && activePath[..|path|] == path
  {
    StartsWith(activePath, path)
  }

  /** The hovered id equals this group's or item's id. */
  predicate IsHovered(hovered: Option<string>, id: string)
    ensures IsHovered(hovered, id) <==> hovered.Some? && hovered.value == id
  {
    hovered == Some(id)
  }

  /** The inline child list is rendered when the sidebar is expanded and the group is open. */
  predicate NestedChildrenShown(expanded: bool, openGroups: map<string, bool>, path: string)
    ensures NestedChildrenShown(expanded, openGroups, path) <==> expanded && path in openGroups && openGroups[path]
  {
    expanded && GroupIsOpen(openGroups, path)
  }

  /** A hover overlay, the group's floating pop-over (AppMenu.tsx:151) or the item's tooltip
      (AppMenu.tsx:218): both are rendered when the sidebar is collapsed and the element is the
      hovered one. */
  predicate OverlayShown(expanded: bool, hovered: Option<string>, id: string)
    ensures OverlayShown(expanded, hovered, id) <==> !expanded && hovered.Some? && hovered.value == id
  {
    !expanded && IsHovered(hovered, id)
  }

  /** A group's open state as the controller hands it out: the user's override if there is one,
      otherwise whether the active path auto-opens it. */
  lemma GroupOpenFromController(auto: map<string, bool>, user: map<string, bool>, path: string)
    ensures GroupIsOpen(Menu.MergedOpenGroups(auto, user), path)
        == (if path in user then user[path] else path in auto && auto[path])
  {
  }

  /** Prefix matching is not segment-aware: active path "/a/bc" makes group "/a/b" active, while
      group "/a/b/" is not. */
  lemma GroupActiveIsStringPrefix()
    ensures GroupIsActive("/a/bc", "/a/b")
    ensures !GroupIsActive("/a/bc", "/a/b/")
    ensures GroupIsActive("/a/b", "")
  {
    assert "/a/bc"[..4] == "/a/b";
    assert "/a/bc"[4] != "/a/b/"[4];
  }

  /** Every auto-opened group of a canonical active path is highlighted as active, and the group
      whose path is the active path itself is active though not auto-opened. */
  lemma AutoOpenGroupsAreActive(activePath: string, path: string)
    requires IsCanonicalPath(activePath)
    requires path in Menu.AutoOpenGroups(activePath)
    ensures GroupIsActive(activePath, path) && GroupIsOpen(Menu.AutoOpenGroups(activePath), path)
    ensures GroupIsActive(activePath, activePath) && !GroupIsOpen(Menu.AutoOpenGroups(activePath), activePath)
  {
    Menu.AutoOpenKeysAreProperPrefixes(activePath, path);
    Menu.AutoOpenGroupsShape(activePath);
  }

  /** In one render a group never shows both its inline children and its pop-over. */
  lemma ChildrenAndPopupExclusive(expanded: bool, openGroups: map<string, bool>, hoveredGroup: Option<string>, path: string)
    ensures !(NestedChildrenShown(expanded, openGroups, path) && OverlayShown(expanded, hoveredGroup, path))
    ensures expanded ==> !OverlayShown(expanded, hoveredGroup, path)
  {
  }

  // ---- Item view ----

  /** `isActive = activePath === to`: exact equality. */
  predicate ItemIsActive(activePath: string, to: string)
    ensures ItemIsActive(activePath, to) <==> |to| == |activePath| && StartsWith(activePath, to)
  {
    activePath == to
  }

  /** What reaches an item's activatable element. */
  datatype ItemEvent = Click | KeyDown(key: string)

  /** The navigation an item requests: a click, or Enter or Space while focused, asks for `to`; any
      other key asks for nothing. */
  function ItemActivation(event: ItemEvent, to: string): (request: Option<string>)
    ensures request.Some? ==> request.value == to
    ensures request.Some? <==> event.Click? || event.key == "Enter" || event.key == " "
  {
    match event
    case Click => Some(to)
    case KeyDown(key) => if key == "Enter" || key == " " then Some(to) else None
  }

  /** An active item makes every group whose path its target starts with active too. */
  lemma ActiveItemActivatesAncestors(activePath: string, to: string, path: string)
    requires ItemIsActive(activePath, to) && StartsWith(to, path)
    ensures GroupIsActive(activePath, path)
  {
  }

  /** Closing the loop: once the router has moved to the requested target, the active path the
      adapter derives from the new location is the activated item's (non-empty) target. */
  lemma ActivationMakesItemActive(event: ItemEvent, to: string, basename: string)
    requires ItemActivation(event, to).Some? && to != ""
    ensures var target := NavigationTarget(ItemActivation(event, to).value, basename);
      ItemIsActive(ActivePathOf(target, basename), to)
  {
    NavigationRoundTrip(to, basename);
  }

  /** An item with the empty target does not come back active: the adapter reads its target back
      as "/". */
  lemma EmptyTargetNotActive(basename: string)
    ensures !ItemIsActive(ActivePathOf(NavigationTarget("", basename), basename), "")
  {
  }

  // ---- Hover state of the sidebar wrapper ----

  /** A guarded hover handler: it calls the setter only while the sidebar is collapsed, and only
      when the element was given the setter (the wrapper hands it to its direct children only). */
  function GuardedHover(expanded: bool, hasSetter: bool, current: Option<string>, requested: Option<string>): (next: Option<string>)
    ensures expanded || !hasSetter ==> next == current
    ensures !expanded && hasSetter ==> next == requested
  {
    if !expanded && hasSetter then requested else current
  }

  /** `hoveredGroup` and `hoveredItem` of the sidebar wrapper. */
  class SidebarHover {
    var hoveredGroup: Option<string>
    var hoveredItem: Option<string>

    constructor ()
      ensures hoveredGroup == None && hoveredItem == None
    {
      hoveredGroup := None;
      hoveredItem := None;
    }

    /** A group's `onMouseEnter`. */
    method GroupMouseEnter(expanded: bool, hasSetter: bool, path: string)
      modifies this
      ensures hoveredGroup == GuardedHover(expanded, hasSetter, old(hoveredGroup), Some(path))
      ensures hoveredItem == old(hoveredItem)
    {
      hoveredGroup := GuardedHover(expanded, hasSetter, hoveredGroup, Some(path));
    }

    /** A group's `onMouseLeave`. */
    method GroupMouseLeave(expanded: bool, hasSetter: bool)
      modifies this
      ensures hoveredGroup == GuardedHover(expanded, hasSetter, old(hoveredGroup), None)
      ensures hoveredItem == old(hoveredItem)
    {
      hoveredGroup := GuardedHover(expanded, hasSetter, hoveredGroup, None);
    }

    /** The pop-over's own enter handler: only the presence of the setter guards it. */
    method PopupMouseEnter(hasSetter: bool, path: string)
      modifies this
      ensures hoveredGroup == (if hasSetter then Some(path) else old(hoveredGroup))
      ensures hoveredItem == old(hoveredItem)
    {
      if hasSetter {
        hoveredGroup := Some(path);
      }
    }

    /** The pop-over's own leave handler. */
    method PopupMouseLeave(hasSetter: bool)
      modifies this
      ensures hoveredGroup == (if hasSetter then None else old(hoveredGroup))
      ensures hoveredItem == old(hoveredItem)
    {
      if hasSetter {
        hoveredGroup := None;
      }
    }

    /** An item's `onMouseEnter` (also on its tooltip). */
    method ItemMouseEnter(expanded: bool, hasSetter: bool, to: string)
      modifies this
      ensures hoveredItem == GuardedHover(expanded, hasSetter, old(hoveredItem), Some(to))
      ensures hoveredGroup == old(hoveredGroup)
    {
      hoveredItem := GuardedHover(expanded, hasSetter, hoveredItem, Some(to));
    }

    /** An item's `onMouseLeave` (also on its tooltip). */
    method ItemMouseLeave(expanded: bool, hasSetter: bool)
      modifies this
      ensures hoveredItem == GuardedHover(expanded, hasSetter, old(hoveredItem), None)
      ensures hoveredGroup == old(hoveredGroup)
    {
      hoveredItem := GuardedHover(expanded, hasSetter, hoveredItem, None);
    }
  }

  /** While the sidebar is collapsed, entering a group that has the setter shows its pop-over and
      leaving it again hides it; while expanded neither changes the hover state. */
  lemma GroupHoverCycle(expanded: bool, hasSetter: bool, start: Option<string>, path: string)
    ensures var entered := GuardedHover(expanded, hasSetter, start, Some(path));
      && (!expanded && hasSetter ==> OverlayShown(expanded, entered, path))
      && (!expanded && hasSetter ==> GuardedHover(expanded, hasSetter, entered, None) == None)
      && (expanded ==> entered == start && GuardedHover(expanded, hasSetter, entered, None) == start)
  {
  }

  /** An item without the setter (nested inside a group, so not a direct child of the wrapper)
      never changes the hovered item, so it never brings up its own tooltip. */
  lemma UnwiredItemNoTooltip(expanded: bool, current: Option<string>, to: string)
    requires !IsHovered(current, to)
    ensures !OverlayShown(expanded, GuardedHover(expanded, false, current, Some(to)), to)
  {
  }
}
