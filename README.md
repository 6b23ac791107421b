# Window stash: icon resolver and widget derivation

This project is a verified Dafny model of the decision logic in the "window stash"
bar module of HyprPanel. The module lists minimized windows and turns each one into
a clickable glyph.

- `wrappers.dfy` (module `Wrappers`): the `Option` datatype.
- `stash.dfy` (module `Stash`) models `helpers/stash.ts`. It holds the
  `MinimizedWindow` record and `getWindowIcon`, which maps a window class to a glyph
  in three stages tried in order:
  1. an exact key of the user's icon map;
  2. a key of that map equal up to case, where the first entry in iteration order wins;
  3. a first-match substring scan over a fixed table of thirteen patterns.

  If all three miss, the resolver returns the default glyph (U+F2D0). The user map is
  an explicit `Option<IconMap>` parameter. An `IconMap` is the record's entries in
  `Object.entries` order, with pairwise distinct keys, as a JavaScript record has.
  Glyphs are the source's Nerd Font code points, treated as opaque strings.
- `widget.dfy` (module `StashWidget`) models `index.tsx` without its rendering:
  - the `Variable.derive` callback, as the pure function `Derive`, which returns the
    visibility flag and one `Entry` per window;
  - the icon and tooltip choice of `WindowIcon`;
  - the click dispatch of `WindowEntry`, returned as `Action` values rather than
    performed;
  - a small class `StashView`, which holds the two reactive values the callback
    rewrites (`isVis` and the derived children).

Two details of the resolver and the widget:

- A miss in the user map falls through to the pattern table (stash.ts:119-125).
- The tooltip is the original title, a newline, then the class (index.tsx:29).

## Model

| member | source | states |
|---|---|---|
| Stash.LowerChar | src/components/bar/modules/stash/helpers/stash.ts:112 | a lower-cased character is never an upper-case ASCII letter; each upper-case letter maps to the lower-case letter at the same position of the alphabet, and every other character is unchanged |
| Stash.Lower | src/components/bar/modules/stash/helpers/stash.ts:112 | lower-casing keeps the length and lower-cases each character in place |
| Stash.LowerIdempotent | src/components/bar/modules/stash/helpers/stash.ts:120 | lower-casing twice is the same as lower-casing once |
| Stash.Includes | src/components/bar/modules/stash/helpers/stash.ts:122 | the left-to-right `includes` scan is true exactly when the pattern occurs at some position of the string |
| Stash.MissingCharExcludes | src/components/bar/modules/stash/helpers/stash.ts:122 | a pattern containing a character the string lacks is not included in it |
| Stash.FirstMatch | src/components/bar/modules/stash/helpers/stash.ts:113 | the search returns the index of an element satisfying the test with no earlier element satisfying it, or nothing when no element does |
| Stash.ExactHit | src/components/bar/modules/stash/helpers/stash.ts:107-108 | the exact stage hits exactly when some key equals the class name, and the hit's key is the class name |
| Stash.CaseInsensitiveHit | src/components/bar/modules/stash/helpers/stash.ts:111-116 | the case-insensitive stage returns the first entry whose lower-cased key equals the lower-cased name, or misses when none does |
| Stash.PatternHit | src/components/bar/modules/stash/helpers/stash.ts:120-125 | the pattern stage returns the earliest table pattern that occurs in the lower-cased name, or misses when none occurs |
| Stash.GetWindowIcon | src/components/bar/modules/stash/helpers/stash.ts:81-129 | the resolver is total, and its result is always a user-map value, one of the thirteen pattern glyphs, or the default glyph |
| Stash.ExactKeyWins | src/components/bar/modules/stash/helpers/stash.ts:103-109 | when the class name is a key of the user map, the result is that key's value, whatever other stage would match |
| Stash.FirstCaseInsensitiveKeyWins | src/components/bar/modules/stash/helpers/stash.ts:111-116 | without an exact key, the result is the value of the first entry in iteration order whose key equals the name up to case |
| Stash.UserMapBeatsPatterns | src/components/bar/modules/stash/helpers/stash.ts:103-125 | when any key matches up to case, the result is the value of a matching user-map entry, so the pattern table is not consulted |
| Stash.UserMapMissFallsThrough | src/components/bar/modules/stash/helpers/stash.ts:103-128 | when no key matches even up to case, the result is the same as with no user map at all |
| Stash.FirstPatternWins | src/components/bar/modules/stash/helpers/stash.ts:119-125 | with no user-map match, the result is the glyph of the earliest pattern in table order that occurs in the lower-cased class name |
| Stash.CodeBeforeChrome | src/components/bar/modules/stash/helpers/stash.ts:86-100 | a class containing "code" gets the terminal or the code glyph, never the chrome glyph, because of the table order |
| Stash.NoMatchGivesDefault | src/components/bar/modules/stash/helpers/stash.ts:82-128 | with no user-map match and no pattern occurring, the result is the default glyph |
| Stash.CaseInsensitiveWithoutMap | src/components/bar/modules/stash/helpers/stash.ts:119-128 | without a user map, a class name and its lower-cased form resolve to the same glyph |
| Stash.LowerGoogleChrome | src/components/bar/modules/stash/helpers/stash.ts:120 | "Google-chrome" lower-cases to "google-chrome" |
| Stash.ChromePatternHit | src/components/bar/modules/stash/helpers/stash.ts:120-125 | in "google-chrome" the pattern scan stops at "chrome", the third pattern, because "terminal" and "code" do not occur |
| Stash.GoogleChromeGetsChromeGlyph | src/components/bar/modules/stash/helpers/stash.ts:86-125 | with no user map, the class "Google-chrome" resolves to the chrome glyph U+F02AF |
| StashWidget.DisplayIcon | src/components/bar/modules/stash/index.tsx:26 | a non-empty recorded icon is shown as is; an empty one falls back to the resolver on the window's class |
| StashWidget.Tooltip | src/components/bar/modules/stash/index.tsx:29 | the tooltip splits into the original title, one newline, and the class, in that order |
| StashWidget.InfoBody | src/components/bar/modules/stash/index.tsx:58 | the notification body splits into "Class: ", the class, "\nTitle: ", and the original title, in that order |
| StashWidget.MakeEntry | src/components/bar/modules/stash/index.tsx:24-68 | an entry keeps its window unchanged, shows its non-empty icon or else the resolver's glyph for its class, and carries its tooltip |
| StashWidget.Entries | src/components/bar/modules/stash/index.tsx:88-90 | the mapping gives one entry per window, in order, and entry i is built from window i |
| StashWidget.Derive | src/components/bar/modules/stash/index.tsx:77-91 | visible exactly when there are windows or auto-hide is off; one entry per window in order, each carrying its unchanged window, the tooltip `original_title + "\n" + class`, and the icon rule |
| StashWidget.OnClick | src/components/bar/modules/stash/index.tsx:48-60 | a click dispatches at most one action; a primary click exactly restores the window's address; a middle click exactly notifies "Window Info" with body `"Class: " + class + "\nTitle: " + original_title`; any other button dispatches nothing |
| StashWidget.EmptyAutoHidden | src/components/bar/modules/stash/index.tsx:79-85 | an empty list under auto-hide gives an invisible widget and no entries |
| StashWidget.EntryIconSource | src/components/bar/modules/stash/index.tsx:26 | every entry's label is the window's own non-empty icon, a user-map value, a pattern glyph, or the default glyph |
| StashWidget.ClickActsOnItsWindow | src/components/bar/modules/stash/index.tsx:43-61 | clicking the i-th derived entry restores the i-th window's address, or reports that window's class and title; any other button does nothing |
| StashWidget.StashView.constructor | src/components/bar/modules/stash/index.tsx:72-92 | creating the widget runs the derive callback once, so `isVis` and the children start as the derivation of the current inputs |
| StashWidget.StashView.Refresh | src/components/bar/modules/stash/index.tsx:75-92 | one run of the derive callback sets `isVis` to the visibility rule and replaces the children with the derived entries |

## Left out

- The cache reader `getMinimizedWindows` (stash.ts:38-60) is not modelled, nor is
  `clearWindowsCache` (stash.ts:12-21). Both are shell I/O. An empty read yields `[]`,
  and any error is caught and also yields `[]`. `JSON.parse` is a library call.
  The window list is therefore an input of `Derive`.
- The `hasClearedCache` flag (stash.ts:7, 43-46) is left out. It only orders the I/O
  side effects of the cache reader.
- `restoreWindow` (stash.ts:67-74) runs an external Python script. The model stops
  at the `Restore(address)` action that a primary click dispatches.
- The poller (index.tsx:13-21) and the global `minimizedWindows` variable are left
  out. They are timer and reactive plumbing, and the poller's source is not part of
  this model.
- Rendering is left out: GTK/JSX, CSS class names, the cursor, `tooltipMarkup`
  interpretation, and the `onDestroy`/`drop` lifecycle. `Notify` is an external sink,
  so it becomes the `Notify` action.
- The options system is left out. The icon map is an explicit `Option<IconMap>`
  parameter, and auto-hide is an explicit `bool`.
- Stash.Lower: lower-cases ASCII letters only. JavaScript's `toLowerCase` lower-cases
  all of Unicode.
- Stash.ExactHit: models plain key membership. JavaScript's `in` would also accept
  prototype keys such as "toString".
- Stash.IconMap: the model takes the entries in the given sequence order.
  `Object.entries` lists integer-like keys first, in numeric order.
- StashWidget.DisplayIcon: only the empty string counts as a missing icon. A missing
  or `null` `icon` field in the JSON is falsy too and behaves the same way.
- StashWidget.OnClick: assumes each click event carries exactly one button
  (primary, middle, or any other). The click predicates of the utility library are
  not part of this model.
- StashWidget.StashView.constructor: relies on the reactive library running a
  derived variable's callback once when it is created. That library is not part of
  this model.
