/**
 * The window stash bar widget (index.tsx) without its rendering: from the
 * current list of minimized windows and the auto-hide setting it derives
 * whether the widget is visible and one entry per window, each with its
 * icon label, its tooltip and the actions its clicks dispatch.
 */
module StashWidget {
  import opened Wrappers
  import opened Stash

  /** One rendered button: the window it stands for, its label and its tooltip. */
  datatype Entry = Entry(window: MinimizedWindow, icon: string, tooltip: string)

  /** The mouse button of a click event; `Other` is every button but the primary and the middle one. */
  datatype Button = Primary | Middle | Other

  /** What a click asks the outside world to do. */
  datatype Action =
    | Restore(address: string)
    | Notify(summary: string, body: string)

  /** The derived state: the visibility flag and the entries to render. */
  datatype View = View(visible: bool, entries: seq<Entry>)

  /**
   * The label of `WindowIcon`: a non-empty recorded icon wins, an empty one
   * is falsy and falls back to the resolver.
   */
  function DisplayIcon(w: MinimizedWindow, iconMap: Option<IconMap>): (icon: string)
    ensures w.icon != "" ==> icon == w.icon
    ensures w.icon == "" ==> icon == GetWindowIcon(iconMap, w.className)
  {
    if w.icon != "" then w.icon else GetWindowIcon(iconMap, w.className)
  }

  /** The tooltip of `WindowIcon`: the original title, a newline, the class. */
  function Tooltip(w: MinimizedWindow): (t: string)
    ensures |t| == |w.originalTitle| + 1 + |w.className|
    ensures t[..|w.originalTitle|] == w.originalTitle
    ensures t[|w.originalTitle|] == '\n'
    ensures t[|w.originalTitle| + 1..] == w.className
  {
    w.originalTitle + "\n" + w.className
  }

  /** The body of the middle-click notification. */
  function InfoBody(w: MinimizedWindow): (body: string)
    ensures |body| == 7 + |w.className| + 8 + |w.originalTitle|
    ensures body[..7] == "Class: "
    ensures body[7..7 + |w.className|] == w.className
    ensures body[7 + |w.className|..15 + |w.className|] == "\nTitle: "
    ensures body[15 + |w.className|..] == w.originalTitle
  {
    "Class: " + w.className + "\nTitle: " + w.originalTitle
  }

  /** `<WindowEntry window={w} />` */
  function MakeEntry(w: MinimizedWindow, iconMap: Option<IconMap>): (e: Entry)
    ensures e.window == w
    ensures w.icon != "" ==> e.icon == w.icon
    ensures w.icon == "" ==> e.icon == GetWindowIcon(iconMap, w.className)
    ensures e.tooltip == Tooltip(w)
  {
    Entry(w, DisplayIcon(w, iconMap), Tooltip(w))
  }

  /** `windows.map(window => <WindowEntry window={window} />)` */
  function Entries(windows: seq<MinimizedWindow>, iconMap: Option<IconMap>): (es: seq<Entry>)
    ensures |es| == |windows|
    ensures forall i :: 0 <= i < |windows| ==> es[i] == MakeEntry(windows[i], iconMap)
  {
    if windows == [] then [] else [MakeEntry(windows[0], iconMap)] + Entries(windows[1..], iconMap)
  }

  /**
   * The `Variable.derive` callback of `WindowStash`: the visibility flag
   * and the entries, one per window in order.
   */
  function Derive(windows: seq<MinimizedWindow>, autoHide: bool, iconMap: Option<IconMap>): (v: View)
    ensures v.visible <==> |windows| > 0 || !autoHide
    ensures |v.entries| == |windows|
    ensures forall i :: 0 <= i < |windows| ==>
      && v.entries[i].window == windows[i]
      && v.entries[i].tooltip == windows[i].originalTitle + "\n" + windows[i].className
      && (windows[i].icon != "" ==> v.entries[i].icon == windows[i].icon)
      && (windows[i].icon == "" ==> v.entries[i].icon == GetWindowIcon(iconMap, windows[i].className))
  {
    var visible := |windows| > 0 || !autoHide;
    if |windows| == 0 && autoHide then View(visible, [])
    else View(visible, Entries(windows, iconMap))
  }

  /**
   * The `onClick` handler of `WindowEntry`: a primary click restores the
   * window by its address, a middle click shows its class and title, any
   * other button does nothing. An event carries one button, so the two
   * independent tests of the handler dispatch at most one action.
   */
  function OnClick(e: Entry, button: Button): (actions: seq<Action>)
    ensures |actions| <= 1
    ensures button == Primary <==> actions == [Restore(e.window.address)]
    ensures button == Middle <==>
      actions == [Notify("Window Info", "Class: " + e.window.className + "\nTitle: " + e.window.originalTitle)]
    ensures button == Other ==> actions == []
  {
    match button
    case Primary => [Restore(e.window.address)]
    case Middle => [Notify("Window Info", InfoBody(e.window))]
    case Other => []
  }

  // ---------------------------------------------------------------------
  // Properties of the derivation
  // ---------------------------------------------------------------------

  /** An empty list under auto-hide hides the widget and renders nothing. */
  lemma EmptyAutoHidden(iconMap: Option<IconMap>)
    ensures Derive([], true, iconMap) == View(false, [])
  {
  }

  /** The label of every entry comes from the window record, the user map, the patterns or the default. */
  lemma EntryIconSource(windows: seq<MinimizedWindow>, autoHide: bool,
                        iconMap: Option<IconMap>, i: nat)
    requires i < |windows|
    ensures var icon := Derive(windows, autoHide, iconMap).entries[i].icon;
      || (windows[i].icon != "" && icon == windows[i].icon)
      || IsUserGlyph(iconMap, icon)
      || IsPatternGlyph(icon)
      || icon == DefaultIcon
  {
    var icon := Derive(windows, autoHide, iconMap).entries[i].icon;
    if windows[i].icon == "" {
      assert icon == GetWindowIcon(iconMap, windows[i].className);
    }
  }

  /**
   * Clicking the i-th derived entry acts on the i-th window: a primary click
   * restores exactly its address and a middle click reports its class and title.
   */
  lemma ClickActsOnItsWindow(windows: seq<MinimizedWindow>, autoHide: bool,
                             iconMap: Option<IconMap>, i: nat)
    requires i < |windows|
    ensures var e := Derive(windows, autoHide, iconMap).entries[i];
      && OnClick(e, Primary) == [Restore(windows[i].address)]
      && OnClick(e, Middle) == [Notify("Window Info", InfoBody(windows[i]))]
      && OnClick(e, Other) == []
  {
    var e := Derive(windows, autoHide, iconMap).entries[i];
    assert e.window == windows[i];
  }

  /**
   * The widget's mutable state: `isVis` and the children of the derived
   * variable, both rewritten whenever the window list or the auto-hide
   * setting changes.
   */
  class StashView {
    var isVis: bool
    var children: seq<Entry>

    /**
     * `WindowStash()`: `isVis` starts as `Variable(false)`, and creating the
     * derived variable runs its callback once on the current inputs.
     */
    constructor (windows: seq<MinimizedWindow>, autoHide: bool, iconMap: Option<IconMap>)
      ensures isVis <==> |windows| > 0 || !autoHide
      ensures children == Derive(windows, autoHide, iconMap).entries
      ensures |children| == |windows|
    {
      isVis := false;
      var view := Derive(windows, autoHide, iconMap);
      isVis := view.visible;
      children := view.entries;
    }

    /** One run of the derive callback: `isVis.set(...)` and the new children. */
    method Refresh(windows: seq<MinimizedWindow>, autoHide: bool, iconMap: Option<IconMap>)
      modifies this
      ensures isVis <==> |windows| > 0 || !autoHide
      ensures children == Derive(windows, autoHide, iconMap).entries
      ensures |children| == |windows|
    {
      var view := Derive(windows, autoHide, iconMap);
      isVis := view.visible;
      children := view.entries;
    }
  }
}
