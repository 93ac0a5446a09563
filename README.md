# react-source-lens, modelled in Dafny

react-source-lens lets a developer hover over a rendered React element, press
Cmd+Shift+O and see the source file and line that produced it, with a button
that opens the location in VS Code. It has two halves, both modelled here:

- **The Babel plugin** (`babel-source-plugin.cjs`). Its `JSXOpeningElement`
  visitor turns the compiled unit's absolute file name into a short
  project-relative path. Four rules are tried in order: the text after
  `/src/`, the text after `/app/`, the segments from the rightmost
  `components`/`pages`/`app`/`src` segment on, and the bare last segment. It
  then appends `data-source-file` and `data-source-line` to the element.
  Module `SourcePlugin` (`source_plugin.dfy`), on top of `JsStrings`
  (`js_strings.dfy`). `JsStrings` models JavaScript's `split` (leftmost,
  non-overlapping cuts), `join`, `startsWith` and `Number.prototype.toString`.
- **The runtime hook** (`lib/ReactSourceLens.js`), in two modules:
  - Module `Fibers` (`fibers.dfy`) covers `getFiberFromNode` and the bounded
    walk along React's `return`/`_owner` links.
  - Module `SourceLens` (`source_lens.dfy`) covers:
    - resolving the hovered element to an outcome (a modal with file and
      line, or one of two error notices);
    - the ancestor scan;
    - the `vscode://file` link;
    - the hover/keyboard state machine. The pure transition functions carry
      the proofs. The class `InspectionSession` holds the hook's closure
      state, and its handlers are proved equal to those functions.

React's fiber records are foreign objects. They are a finite map from ids to
records. Links are ids, so a chain may loop. An id that is not in the map
reads as an object with none of the fields the walk looks at. A DOM node's
own property values are `Falsy`, `Scalar` (truthy, not an object) or
`Object(id)`.

Behaviour of the code worth knowing, with the lemma that states it, where there is one:

- **`/src/` and `/app/` rules.** The code takes the last piece of a
  leftmost, non-overlapping `split`, so `/a/src/src/b` becomes `src/src/b`
  (`SourcePlugin.NestedSrcExample`).
- **Empty file names.** The normalised file name can be empty: `lib/`
  normalises to `""` (`SourcePlugin.TrailingSlashEmpty`). At run time such an
  element falls back to the fiber walk, because an empty attribute is falsy
  (`SourceLens.EmptyFileFallsBack`).
- **One editor, no error trapping.** The runtime builds only a `vscode://file`
  link and has no `try`/`catch` around inspection.
- **The link.** For `projectRoot` `/p`, file `a/B.jsx` and line `4`, the code
  builds `vscode://file/p/a/B.jsx:4` (`SourceLens.RootedLinkExample`).

## Model

| member | source | states |
|---|---|---|
| JsStrings.Split | babel-source-plugin.cjs:19 | `split` with a non-empty separator always yields at least one piece |
| JsStrings.SplitCount | babel-source-plugin.cjs:20 | a split has more than one piece exactly when the separator occurs in the string |
| JsStrings.SplitJoin | babel-source-plugin.cjs:29-42 | joining the pieces of a split with the same separator gives back the string |
| JsStrings.Join | babel-source-plugin.cjs:42 | `Array.prototype.join`: the pieces with the separator between consecutive ones; `SplitJoin` and `SplitTailIsSuffix` characterise it against `Split` |
| JsStrings.SplitPiecesFree | babel-source-plugin.cjs:19-26 | no piece of a split contains the separator |
| JsStrings.SplitTailIsSuffix | babel-source-plugin.cjs:42 | the pieces from any index on, joined back, are a suffix of the string |
| JsStrings.LastPieceFollowsSeparator | babel-source-plugin.cjs:21 | when the separator occurs, the last piece is exactly the text after one of its occurrences |
| JsStrings.NatToString | babel-source-plugin.cjs:50 | `line.toString()` is a non-empty string of decimal digits, with a leading `0` only for zero |
| JsStrings.ParseNatToString | babel-source-plugin.cjs:50 | reading the printed line number as decimal gives the number back |
| JsStrings.NatToStringInjective | babel-source-plugin.cjs:50 | distinct line numbers print differently |
| SourcePlugin.RightmostRootIndex | babel-source-plugin.cjs:31-39 | the result is -1 or the index of a root-indicator segment with no indicator after it |
| SourcePlugin.SourceFileOf | babel-source-plugin.cjs:19-45 | the value written into `data-source-file`: the four rules in order, each characterised by `SrcRule`, `AppRule`, `RootIndicatorRule` and `BareNameRule`, with `SourceFileShape` for every input |
| SourcePlugin.NormalizeSourceFile | babel-source-plugin.cjs:16-48 | the visitor's normalisation, including its backward search loop, computes `SourceFileOf` |
| SourcePlugin.SrcRule | babel-source-plugin.cjs:19-21 | with `/src/` in the path the result is `src/` + the text after an occurrence of `/src/`, and that text holds no `/src/` |
| SourcePlugin.AppRule | babel-source-plugin.cjs:24-26 | with no `/src/` but an `/app/` the result is `app/` + the text after an occurrence of `/app/`, and that text holds no `/app/` |
| SourcePlugin.RootIndicatorRule | babel-source-plugin.cjs:29-42 | with neither marker, the segments from the rightmost root indicator on, joined with `/`, a suffix of the path |
| SourcePlugin.BareNameRule | babel-source-plugin.cjs:44-45 | otherwise the last `/`-segment, a suffix of the path without `/` |
| SourcePlugin.SrcFirstOccurrence | babel-source-plugin.cjs:19-21 | the cut is made at the first `/src/`: for `a/src/b` with no earlier marker and none in `b` the result is `src/` + `b` |
| SourcePlugin.NestedSrcExample | babel-source-plugin.cjs:19-21 | `/a/src/src/b` gives `src/src/b` though a later `/src/` occurrence is followed by just `b` |
| SourcePlugin.TrailingSlashEmpty | babel-source-plugin.cjs:44-45 | `lib/` normalises to the empty string |
| SourcePlugin.SourceFileShape | babel-source-plugin.cjs:16-48 | every result is a suffix of the file name, possibly behind `src/` or `app/` |
| SourcePlugin.VisitJsxOpeningElement | babel-source-plugin.cjs:11-67 | without a start location the attributes are unchanged; otherwise exactly the file and then the line attribute are appended |
| Fibers.FindIndex | lib/ReactSourceLens.js:6-9 | `find` over own properties: the first entry satisfying the test, or none satisfies it |
| Fibers.LooksLikeFiber | lib/ReactSourceLens.js:21-25 | the fallback's structural test: a truthy object with own `memoizedProps`, `return`, and `type` or `elementType` |
| Fibers.FiberFromNode | lib/ReactSourceLens.js:4-29 | `getFiberFromNode`, characterised by `FiberKeyFirst`, `ShapeFallback` and `NoFiberFound` |
| Fibers.FiberKeyFirst | lib/ReactSourceLens.js:4-15 | the value under the first key starting with `__reactFiber` or `__reactInternalInstance` is returned, falsy or not |
| Fibers.ShapeFallback | lib/ReactSourceLens.js:17-28 | without such a key, the first object with own `memoizedProps`, `return` and `type` or `elementType` is returned |
| Fibers.NoFiberFound | lib/ReactSourceLens.js:17-28 | with neither, the result is undefined |
| Fibers.WalkChain | lib/ReactSourceLens.js:306-335 | the walk's loop computes `ChainSource` with its bound of 20 |
| Fibers.SourceAt | lib/ReactSourceLens.js:310-330 | the three checks on one record in order: its `_debugSource`, its owner's `_debugSource`, `(memoizedProps \|\| pendingProps).__source`; see `OwnerSourceReported` and `PropsSourceReported` |
| Fibers.Next | lib/ReactSourceLens.js:333 | `pointer.return \|\| pointer._owner`; see `WalkPrefersReturn` and `WalkFollowsOwner` |
| Fibers.ChainSource | lib/ReactSourceLens.js:306-336 | the walk's result with a step budget, characterised by `ChainSourceGivesUpExactly`, `ChainSourceIsFirstHit`, `NoSourceAnywhere` and `LinearChainWalk` |
| Fibers.Visited | lib/ReactSourceLens.js:306-334 | the records the walk examines: at most 20, none falsy, starting at the fiber, each the `return \|\| _owner` of the one before, and ending only at a record with a source, at a falsy link or when the budget is spent |
| Fibers.ChainSourceGivesUpExactly | lib/ReactSourceLens.js:308-336 | the walk gives up exactly when none of the records it examines has a source |
| Fibers.ChainSourceIsFirstHit | lib/ReactSourceLens.js:308-330 | a reported source is that of the last examined record, and no record examined before it had one |
| Fibers.NoSourceAnywhere | lib/ReactSourceLens.js:308-336 | when no record carries a source the walk gives up, however the links loop |
| Fibers.SelfLoopGivesUp | lib/ReactSourceLens.js:308-334 | a record whose `return` is itself is examined 20 times and the walk gives up |
| Fibers.LinearChainWalk | lib/ReactSourceLens.js:308-334 | on a straight `return` chain with the source at its end, the walk finds it exactly when the chain fits in the remaining budget |
| Fibers.ChainBeyondBound | lib/ReactSourceLens.js:308 | a source 25 records up is not found; one 20 records up is |
| Fibers.WalkPrefersReturn | lib/ReactSourceLens.js:333 | a record without any source and with a `return` link hands the walk on along `return`, whatever its `_owner` |
| Fibers.WalkFollowsOwner | lib/ReactSourceLens.js:333 | a record without any source and without `return` hands the walk on along `_owner` |
| Fibers.OwnerSourceReported | lib/ReactSourceLens.js:318-322 | the owner's `_debugSource` is reported at the record itself, without stepping to the owner |
| Fibers.PropsSourceReported | lib/ReactSourceLens.js:325-330 | `__source` is reported from `memoizedProps` when that is truthy, else from `pendingProps`; a truthy `memoizedProps` without `__source` hides `pendingProps.__source` and the walk moves on |
| SourceLens.ScanAncestors | lib/ReactSourceLens.js:287-295 | at most 10 steps up; every element passed lacks `data-reactroot`; it stops at the bound, at a missing parent or at a root |
| SourceLens.AncestorStep | lib/ReactSourceLens.js:293 | one more step up is the current element's `parentElement` |
| SourceLens.FiberOutcome | lib/ReactSourceLens.js:299-336 | the fallback through React's internals: the "no fiber" notice, a modal with the walk's source and decimal line, or the "no source" notice |
| SourceLens.ResolveOutcome | lib/ReactSourceLens.js:262-336 | what Cmd+Shift+O shows for an element, characterised by `ResolveAlwaysReports`, `NoFiberErrorExactly`, `NoSourceErrorExactly` and `ModalProvenance` |
| SourceLens.Resolve | lib/ReactSourceLens.js:266-336 | the inspection branch computes `ResolveOutcome`; the ancestor scan does not affect it |
| SourceLens.ResolveAlwaysReports | lib/ReactSourceLens.js:266-336 | inspection of a hovered element always shows a modal or one of the two error notices |
| SourceLens.NoFiberErrorExactly | lib/ReactSourceLens.js:266-304 | the "Could not find React fiber node" notice appears exactly when the attributes are not both truthy and no fiber is found |
| SourceLens.NoSourceErrorExactly | lib/ReactSourceLens.js:299-336 | the "No source info" notice appears exactly when a fiber is found but no examined record has a source |
| SourceLens.ModalProvenance | lib/ReactSourceLens.js:266-330 | a modal shows the element's own attributes, or the file and decimal line of the last examined record, the first with a source |
| SourceLens.RenderAttributes | lib/ReactSourceLens.js:266-267 | the attributes `getAttribute` reads back from a rendered JSX list: every listed name is present and the last attribute's value is its name's value |
| SourceLens.RenderAttributesLaterWins | lib/ReactSourceLens.js:266-267 | an attribute not overridden by a later one of the same name keeps its value |
| SourceLens.RenderedNamesListed | lib/ReactSourceLens.js:266-267 | every rendered name comes from the list |
| SourceLens.AnnotatedElementResolvesDirectly | lib/ReactSourceLens.js:266-273 | an element rendered from a tag annotated by the plugin resolves to the plugin's file and line whenever that file is non-empty |
| SourceLens.EmptyFileFallsBack | lib/ReactSourceLens.js:266-273 | an element annotated with an empty file name resolves through the fiber fallback, as an unannotated one would |
| SourceLens.DebugSourceFallback | lib/ReactSourceLens.js:299-315 | an unannotated element whose first own key is a React fiber key pointing at a record with `_debugSource` shows that source |
| SourceLens.EditorPath | lib/ReactSourceLens.js:129-145 | an absolute file is used as is; otherwise the configured non-empty root + `/` + file, or `/` + file; the file is always a suffix |
| SourceLens.VsCodeUrl | lib/ReactSourceLens.js:129-145 | `vscode://file` + the editor path + `:` + the line; `VsCodeUrlRoundTrip` states that it reads back |
| SourceLens.ParseLinkRoundTrip | lib/ReactSourceLens.js:132 | reading a `scheme + path + ":" + line` link back at its last colon yields the path and the line, for a line without a colon |
| SourceLens.VsCodeUrlRoundTrip | lib/ReactSourceLens.js:129-145 | splitting the link at its last colon recovers the editor path and the line, for any line without a colon |
| SourceLens.NumericLineHasNoColon | lib/ReactSourceLens.js:313 | a line printed from a number contains no colon |
| SourceLens.RootedLinkExample | lib/ReactSourceLens.js:129-132 | root `/p`, file `a/B.jsx`, line `4` give `vscode://file/p/a/B.jsx:4` |
| SourceLens.InspectionSession.EditorLink | lib/ReactSourceLens.js:125-145 | the editor button builds `VsCodeUrl` from the shown file, line and the session's root, and for a line without a colon the link reads back to the editor path and that line |
| SourceLens.Run | lib/ReactSourceLens.js:236-337 | a sequence of events yields one outcome per event |
| SourceLens.OnMouseMove | lib/ReactSourceLens.js:236-249 | the mouse handler's transition: ignored while disabled or over nothing, otherwise the hover moves to the element under the pointer |
| SourceLens.OnKeyDown | lib/ReactSourceLens.js:251-337 | the key handler's transition, characterised by `ToggleTwiceRestores`, `KeyDownKeepsHover` and `KeyDownOutcome` |
| SourceLens.ToggleTwiceRestores | lib/ReactSourceLens.js:253-257 | Cmd+Shift+L twice restores the state |
| SourceLens.KeyDownKeepsHover | lib/ReactSourceLens.js:251-337 | a key press never changes the hovered element and flips the enabled flag exactly on the toggle |
| SourceLens.KeyDownOutcome | lib/ReactSourceLens.js:251-337 | a key press shows something exactly on Cmd+Shift+O while enabled with an element hovered, and then shows that element's resolution |
| SourceLens.DisabledRunSilent | lib/ReactSourceLens.js:236-260 | while disabled and without a toggle, any events leave the state as it is and show nothing |
| SourceLens.HoverThenInspect | lib/ReactSourceLens.js:236-271 | hovering while enabled and pressing Cmd+Shift+O shows that element's resolution |
| SourceLens.StaleHoverAfterReenable | lib/ReactSourceLens.js:237-263 | moves while disabled are ignored, and after re-enabling Cmd+Shift+O resolves the element hovered before disabling |
| SourceLens.DisplayFor | lib/ReactSourceLens.js:230-232 | the overlay is `block` exactly when enabled, `none` otherwise |
| SourceLens.InspectionSession.constructor | lib/ReactSourceLens.js:224-234 | mounting starts enabled with nothing hovered and the overlay shown |
| SourceLens.InspectionSession.UpdateOverlayVisibility | lib/ReactSourceLens.js:230-232 | the overlay display follows the enabled flag; nothing else changes |
| SourceLens.InspectionSession.MoveHandler | lib/ReactSourceLens.js:236-249 | the mouse handler performs `OnMouseMove` and keeps the overlay consistent |
| SourceLens.InspectionSession.KeyHandler | lib/ReactSourceLens.js:251-337 | the key handler performs `OnKeyDown`, returns its outcome and keeps the overlay consistent |

## Left out

- Building and styling the DOM: the overlay, the modal, the error notice and their buttons. An outcome value stands for what they display.
- Overlay geometry. The move handler's `getBoundingClientRect` pixel arithmetic is not modelled, only which element is tracked.
- Timers (auto-dismissal after 3 and 10 seconds), the clipboard button, `window.open`, `alert`, `console.warn` and the Escape-key listener. These are I/O with no effect on what is resolved.
- `document.elementFromPoint`. It is a parameter of the mouse handler: the element under the pointer, or none.
- Listener registration and removal (the `useEffect` lifecycle). A session object stands for one mounted hook.
- The loop over `lastHovered.attributes` (lines 279-284). Its body does nothing.
- SourcePlugin.VisitJsxOpeningElement: the compiled unit's file name is assumed to be a string. When Babel is given no `filename` option, `this.filename` is `undefined` and the visitor throws a TypeError at line 19 for every JSX element with a start location, failing the whole transform; the model does not express this path.
- Babel's AST construction calls (`t.jsxAttribute`, `t.stringLiteral`). An attribute is a name/value pair appended to the element's list.
- SourceLens.RenderAttributes: React's rendering of JSX attributes into DOM attributes is outside both core files; the model assumes each attribute becomes a DOM attribute of the same name and value, a later one of the same name winning.
- Fibers.LooksLikeFiber: a truthy own value without `Object.prototype` (for example one made by `Object.create(null)`), met before any fiber-shaped value, makes `v.hasOwnProperty` throw a TypeError; with no `try`/`catch` the key handler then ends with an uncaught exception and shows nothing. `Value` has no such value, so this path is not modelled.
- JsStrings.NatToString: models `Number.prototype.toString` for line numbers below 10^21 only; from there JavaScript prints exponent form, which the model does not.
- Fiber records: only the fields the walk reads are modelled. A `_debugSource` is a file name and a natural line number. Values that are not strings or numbers are not modelled.
- Files and configuration outside `babel-source-plugin.cjs` and `lib/ReactSourceLens.js`: the demo applications, the bundler configurations and the test files.
