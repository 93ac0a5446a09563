/** The runtime half: the `useReactSourceLens` hook's hover tracking and
    keyboard handling, the resolution of the hovered element to a source
    location, and the editor link built from that location.

    The page is a value: a finite map from element ids to elements, plus the
    fiber records reachable from them. The hook's own mutable state (enabled
    flag, last hovered element, overlay visibility) is a class whose handlers
    are tied to pure transition functions. */
module SourceLens {
  import opened Options
  import opened JsStrings
  import opened SourcePlugin
  import opened Fibers

  type ElemId = nat

  /** A DOM element as the handlers read it: its attributes, its
      `parentElement`, and its own enumerable properties in key order
      (where React hangs its fiber). */
  datatype Element = Element(
    attributes: map<string, string>,
    parent: Option<ElemId>,
    ownProperties: seq<(string, Value)>)

  datatype Page = Page(elements: map<ElemId, Element>, heap: Heap)

  /** What one handler invocation shows the user. */
  datatype Outcome = ShowModal(file: string, line: string) | ShowError(message: string) | NoOp

  const NoFiberMessage := "Could not find React fiber node for this element"
  const NoSourceMessage := "No source info found for this element"
  const RootMarker := "data-reactroot"
  const MaxAncestorDepth := 10

  function ElementAt(page: Page, id: ElemId): Element {
    if id in page.elements then page.elements[id] else Element(map[], None, [])
  }

  /** `getAttribute`: the value, or `None` for `null`. */
  function GetAttribute(el: Element, name: string): Option<string> {
    if name in el.attributes then Some(el.attributes[name]) else None
  }

  /** JavaScript truthiness of an attribute read: present and non-empty. */
  predicate Truthy(v: Option<string>) {
    v.Some? && v.value != ""
  }

  // ---------------------------------------------------------------------------
  // Resolving the hovered element

  /** The fallback through React's internals: find the fiber, then walk. */
  function FiberOutcome(heap: Heap, node: seq<(string, Value)>): Outcome {
    var fiber := FiberFromNode(heap, node);
    if fiber == Falsy then ShowError(NoFiberMessage)
    else
      var src := ChainSource(heap, fiber, MaxChainSteps);
      if src.Some? then ShowModal(src.value.fileName, NatToString(src.value.lineNumber))
      else ShowError(NoSourceMessage)
  }

  /** What Cmd+Shift+O shows for element `target`: its `data-source-*`
      attributes when both are truthy, else the fiber fallback. */
  function ResolveOutcome(page: Page, target: ElemId): Outcome {
    var el := ElementAt(page, target);
    var file := GetAttribute(el, SourceFileKey);
    var line := GetAttribute(el, SourceLineKey);
    if Truthy(file) && Truthy(line) then ShowModal(file.value, line.value)
    else FiberOutcome(page.heap, el.ownProperties)
  }

  /** The element `k` `parentElement` steps above `start`. */
  function AncestorAt(page: Page, start: Option<ElemId>, k: nat): Option<ElemId>
    decreases k
  {
    if start.None? || k == 0 then start
    else AncestorAt(page, ElementAt(page, start.value).parent, k - 1)
  }

  predicate IsReactRoot(page: Page, id: ElemId) {
    RootMarker in ElementAt(page, id).attributes
  }

  /** The walk up the DOM towards a `data-reactroot` element, at most ten
      steps. Its result is not used by the handler. */
  method ScanAncestors(page: Page, start: ElemId) returns (current: Option<ElemId>, depth: nat)
    ensures depth <= MaxAncestorDepth
    ensures current == AncestorAt(page, Some(start), depth)
    ensures forall k :: 0 <= k < depth ==>
      AncestorAt(page, Some(start), k).Some? && !IsReactRoot(page, AncestorAt(page, Some(start), k).value)
    ensures depth == MaxAncestorDepth || current.None? || IsReactRoot(page, current.value)
  {
    current := Some(start);
    depth := 0;
    while current.Some? && depth < MaxAncestorDepth
      invariant depth <= MaxAncestorDepth
      invariant current == AncestorAt(page, Some(start), depth)
      invariant forall k :: 0 <= k < depth ==>
        AncestorAt(page, Some(start), k).Some? && !IsReactRoot(page, AncestorAt(page, Some(start), k).value)
    {
      if IsReactRoot(page, current.value) {
        break;
      }
      AncestorStep(page, Some(start), depth);
      current := ElementAt(page, current.value).parent;
      depth := depth + 1;
    }
  }

  lemma {:induction false} AncestorStep(page: Page, start: Option<ElemId>, k: nat)
    requires AncestorAt(page, start, k).Some?
    ensures AncestorAt(page, start, k + 1) == ElementAt(page, AncestorAt(page, start, k).value).parent
    decreases k
  {
    if k > 0 {
      AncestorStep(page, ElementAt(page, start.value).parent, k - 1);
    }
  }

  /** The inspection branch of the key handler for a hovered element. */
  method Resolve(page: Page, target: ElemId) returns (outcome: Outcome)
    ensures outcome == ResolveOutcome(page, target)
  {
    var el := ElementAt(page, target);
    var file := GetAttribute(el, SourceFileKey);
    var line := GetAttribute(el, SourceLineKey);
    if Truthy(file) && Truthy(line) {
      return ShowModal(file.value, line.value);
    }
    var _, _ := ScanAncestors(page, target);
    var fiber := FiberFromNode(page.heap, el.ownProperties);
    if fiber == Falsy {
      return ShowError(NoFiberMessage);
    }
    var src := WalkChain(page.heap, fiber);
    if src.Some? {
      var line := NatToString(src.value.lineNumber);
      return ShowModal(src.value.fileName, line);
    }
    return ShowError(NoSourceMessage);
  }

  /** Inspection always shows something: a modal or one of two errors. */
  lemma ResolveAlwaysReports(page: Page, target: ElemId)
    ensures ResolveOutcome(page, target).ShowModal? ||
      ResolveOutcome(page, target) == ShowError(NoFiberMessage) ||
      ResolveOutcome(page, target) == ShowError(NoSourceMessage)
  {
  }

  /** The "no fiber" error appears exactly when the attributes are not both
      truthy and no fiber is found on the element. */
  lemma NoFiberErrorExactly(page: Page, target: ElemId)
    ensures ResolveOutcome(page, target) == ShowError(NoFiberMessage) <==>
      var el := ElementAt(page, target);
      && !(Truthy(GetAttribute(el, SourceFileKey)) && Truthy(GetAttribute(el, SourceLineKey)))
      && FiberFromNode(page.heap, el.ownProperties) == Falsy
  {
  }

  /** The "no source" error appears exactly when a fiber is found but none of
      the records the walk examines carries a source. */
  lemma NoSourceErrorExactly(page: Page, target: ElemId)
    ensures ResolveOutcome(page, target) == ShowError(NoSourceMessage) <==>
      var el := ElementAt(page, target);
      var fiber := FiberFromNode(page.heap, el.ownProperties);
      && !(Truthy(GetAttribute(el, SourceFileKey)) && Truthy(GetAttribute(el, SourceLineKey)))
      && fiber != Falsy
      && NoHit(page.heap, Visited(page.heap, fiber, MaxChainSteps))
  {
    var el := ElementAt(page, target);
    ChainSourceGivesUpExactly(page.heap, FiberFromNode(page.heap, el.ownProperties), MaxChainSteps);
  }

  /** A modal shows either the element's own attributes or the source of an
      examined fiber record, with its line number printed in decimal. */
  lemma ModalProvenance(page: Page, target: ElemId)
    requires ResolveOutcome(page, target).ShowModal?
    ensures
      var el := ElementAt(page, target);
      var out := ResolveOutcome(page, target);
      var vs := Visited(page.heap, FiberFromNode(page.heap, el.ownProperties), MaxChainSteps);
      || (GetAttribute(el, SourceFileKey) == Some(out.file) && GetAttribute(el, SourceLineKey) == Some(out.line))
      || (&& |vs| > 0
          && SourceAt(page.heap, RecordAt(page.heap, vs[|vs| - 1])).Some?
          && NoHit(page.heap, vs[..|vs| - 1])
          && out.file == SourceAt(page.heap, RecordAt(page.heap, vs[|vs| - 1])).value.fileName
          && ParseDecimal(out.line) == SourceAt(page.heap, RecordAt(page.heap, vs[|vs| - 1])).value.lineNumber)
  {
    var el := ElementAt(page, target);
    var file := GetAttribute(el, SourceFileKey);
    var line := GetAttribute(el, SourceLineKey);
    if !(Truthy(file) && Truthy(line)) {
      var fiber := FiberFromNode(page.heap, el.ownProperties);
      ChainSourceIsFirstHit(page.heap, fiber, MaxChainSteps);
      ParseNatToString(ChainSource(page.heap, fiber, MaxChainSteps).value.lineNumber);
    }
  }

  /** How the DOM renders a JSX attribute list: a later attribute of the same
      name overrides an earlier one. */
  function RenderAttributes(attrs: seq<JsxAttribute>): (m: map<string, string>)
    ensures forall a :: a in attrs ==> a.name in m
    ensures |attrs| > 0 ==> m[attrs[|attrs| - 1].name] == attrs[|attrs| - 1].value
    decreases |attrs|
  {
    if attrs == [] then map[]
    else RenderAttributes(attrs[..|attrs| - 1])[attrs[|attrs| - 1].name := attrs[|attrs| - 1].value]
  }

  /** Later wins: an attribute not overridden by a later one of the same name
      keeps its value, and every rendered name comes from the list. */
  lemma {:induction false} RenderAttributesLaterWins(attrs: seq<JsxAttribute>, i: nat)
    requires i < |attrs|
    requires forall j :: i < j < |attrs| ==> attrs[j].name != attrs[i].name
    ensures RenderAttributes(attrs)[attrs[i].name] == attrs[i].value
    decreases |attrs|
  {
    if i < |attrs| - 1 {
      var init := attrs[..|attrs| - 1];
      assert init[i] == attrs[i];
      assert forall j :: i < j < |init| ==> init[j] == attrs[j];
      RenderAttributesLaterWins(init, i);
    }
  }

  lemma {:induction false} RenderedNamesListed(attrs: seq<JsxAttribute>, n: string)
    requires n in RenderAttributes(attrs)
    ensures exists a :: a in attrs && a.name == n
    decreases |attrs|
  {
    var init := attrs[..|attrs| - 1];
    if n != attrs[|attrs| - 1].name {
      RenderedNamesListed(init, n);
      var a :| a in init && a.name == n;
      assert a in attrs;
    }
  }

  /** End to end: an element rendered from a JSX tag that the Babel plugin
      annotated resolves straight to the plugin's file and line, whatever
      other attributes and fibers it has, provided the normalised file name
      is not empty. */
  lemma AnnotatedElementResolvesDirectly(page: Page, target: ElemId, before: seq<JsxAttribute>,
                                         filename: string, line: nat)
    requires SourceFileOf(filename) != ""
    requires target in page.elements
    requires page.elements[target].attributes ==
      RenderAttributes(before + [JsxAttribute(SourceFileKey, SourceFileOf(filename)),
                                 JsxAttribute(SourceLineKey, NatToString(line))])
    ensures ResolveOutcome(page, target) == ShowModal(SourceFileOf(filename), NatToString(line))
  {
    var attrs := before + [JsxAttribute(SourceFileKey, SourceFileOf(filename)),
                           JsxAttribute(SourceLineKey, NatToString(line))];
    assert attrs[..|attrs| - 1] == before + [JsxAttribute(SourceFileKey, SourceFileOf(filename))];
    assert attrs[..|attrs| - 1][..|attrs| - 2] == before;
  }

  /** An annotated element whose normalised file name is empty carries a
      falsy `data-source-file`, so it resolves through the fiber fallback
      exactly as an unannotated one would. */
  lemma EmptyFileFallsBack(page: Page, target: ElemId, before: seq<JsxAttribute>,
                           filename: string, line: nat)
    requires SourceFileOf(filename) == ""
    requires target in page.elements
    requires page.elements[target].attributes ==
      RenderAttributes(before + [JsxAttribute(SourceFileKey, SourceFileOf(filename)),
                                 JsxAttribute(SourceLineKey, NatToString(line))])
    ensures ResolveOutcome(page, target) == FiberOutcome(page.heap, page.elements[target].ownProperties)
  {
    var attrs := before + [JsxAttribute(SourceFileKey, SourceFileOf(filename)),
                           JsxAttribute(SourceLineKey, NatToString(line))];
    assert attrs[..|attrs| - 1] == before + [JsxAttribute(SourceFileKey, SourceFileOf(filename))];
  }

  /** End to end through the fallback: an element without the attributes
      whose first own property is React's fiber key, pointing at a fiber that
      carries a `_debugSource`, shows that source. */
  lemma DebugSourceFallback(page: Page, target: ElemId, key: string, id: FiberId, src: DebugSource)
    requires target in page.elements
    requires SourceFileKey !in page.elements[target].attributes
    requires |page.elements[target].ownProperties| > 0
    requires page.elements[target].ownProperties[0] == (key, Object(id))
    requires StartsWith(key, FiberKeyPrefix)
    requires id in page.heap && page.heap[id].debugSource == Some(src)
    ensures ResolveOutcome(page, target) == ShowModal(src.fileName, NatToString(src.lineNumber))
  {
    FiberKeyFirst(page.heap, page.elements[target].ownProperties, 0);
  }

  // ---------------------------------------------------------------------------
  // The editor link

  const EditorScheme := "vscode://file"

  /** The path handed to the editor: an absolute file name as is, otherwise
      prefixed by the project root when that is configured and non-empty,
      otherwise just by `/`. */
  function EditorPath(fileName: string, projectRoot: Option<string>): (path: string)
    ensures IsSuffix(fileName, path)
    ensures StartsWith(fileName, "/") ==> path == fileName
    ensures !StartsWith(fileName, "/") ==>
      path == (if Truthy(projectRoot) then projectRoot.value else "") + "/" + fileName
  {
    var path := if StartsWith(fileName, "/") then fileName
                else if Truthy(projectRoot) then projectRoot.value + "/" + fileName
                else "/" + fileName;
    assert path[|path| - |fileName|..] == fileName;
    path
  }

  /** The `vscode://file<path>:<line>` link the modal's button opens. */
  function VsCodeUrl(fileName: string, lineNumber: string, projectRoot: Option<string>): string {
    EditorScheme + EditorPath(fileName, projectRoot) + ":" + lineNumber
  }

  /** Position of the last `c` in `s`, or -1. */
  function LastIndexOf(s: string, c: char): (r: int)
    ensures -1 <= r < |s|
    ensures r >= 0 ==> s[r] == c
    ensures forall j :: r < j < |s| ==> s[j] != c
  {
    if s == [] then -1
    else if s[|s| - 1] == c then |s| - 1
    else LastIndexOf(s[..|s| - 1], c)
  }

  /** How an editor reads a link of `scheme` back: the path up to the last
      colon and the line after it. */
  function ParseLink(scheme: string, url: string): Option<(string, string)> {
    if !StartsWith(url, scheme) then None
    else
      var rest := url[|scheme|..];
      var colon := LastIndexOf(rest, ':');
      if colon < 0 then None else Some((rest[..colon], rest[colon + 1..]))
  }

  /** Reading back `scheme + path + ":" + line` gives `path` and `line` when
      `line` has no colon. */
  lemma ParseLinkRoundTrip(scheme: string, path: string, line: string)
    requires ':' !in line
    ensures ParseLink(scheme, scheme + path + ":" + line) == Some((path, line))
  {
    var rest := path + ":" + line;
    var url := scheme + path + ":" + line;
    assert url == scheme + rest;
    assert url[..|scheme|] == scheme;
    assert url[|scheme|..] == rest;
    var colon := LastIndexOf(rest, ':');
    assert rest[|path|] == ':';
    assert colon == |path|;
    assert rest[..|path|] == path;
    assert rest[|path| + 1..] == line;
  }

  /** The link carries the file and line intact when the line has no colon,
      which holds for every line the handler produces from a number. */
  lemma VsCodeUrlRoundTrip(fileName: string, lineNumber: string, projectRoot: Option<string>)
    requires ':' !in lineNumber
    ensures ParseLink(EditorScheme, VsCodeUrl(fileName, lineNumber, projectRoot)) ==
      Some((EditorPath(fileName, projectRoot), lineNumber))
  {
    ParseLinkRoundTrip(EditorScheme, EditorPath(fileName, projectRoot), lineNumber);
  }

  /** A relative file under a configured root `/p`. */
  lemma RootedLinkExample(fileName: string, projectRoot: Option<string>)
    requires fileName == "a/B.jsx" && projectRoot == Some("/p")
    ensures VsCodeUrl(fileName, "4", projectRoot) == "vscode://file/p/a/B.jsx:4"
  {
    // The strings are parameters fixed by `requires` rather than literals in
    // the `ensures`: on a literal the verifier unfolds every function eagerly,
    // which costs far more than the proof below.
    assert fileName[..1] == "a";
    assert EditorPath(fileName, projectRoot) == "/p/a/B.jsx";
  }

  lemma NumericLineHasNoColon(n: nat)
    ensures ':' !in NatToString(n)
  {
    var s := NatToString(n);
    forall i | 0 <= i < |s|
      ensures s[i] != ':'
    {
      assert IsDigit(s[i]);
    }
  }

  // ---------------------------------------------------------------------------
  // Hover and keyboard handling

  datatype KeyEvent = KeyEvent(metaKey: bool, shiftKey: bool, code: string)

  predicate IsToggle(e: KeyEvent) {
    e.metaKey && e.shiftKey && e.code == "KeyL"
  }

  predicate IsInspect(e: KeyEvent) {
    e.metaKey && e.shiftKey && e.code == "KeyO"
  }

  /** The hook's closure state. */
  datatype SessionState = SessionState(isEnabled: bool, lastHovered: Option<ElemId>)

  const InitialState := SessionState(true, None)

  /** The mouse-move handler; `hit` is `document.elementFromPoint` at the
      pointer, `None` when nothing is there. */
  function OnMouseMove(st: SessionState, hit: Option<ElemId>): SessionState {
    if !st.isEnabled || hit.None? then st else st.(lastHovered := hit)
  }

  /** The key-down handler: Cmd+Shift+L always toggles; while enabled,
      Cmd+Shift+O inspects the last hovered element if there is one. */
  function OnKeyDown(page: Page, st: SessionState, e: KeyEvent): (SessionState, Outcome) {
    if IsToggle(e) then (st.(isEnabled := !st.isEnabled), NoOp)
    else if !st.isEnabled || !IsInspect(e) || st.lastHovered.None? then (st, NoOp)
    else (st, ResolveOutcome(page, st.lastHovered.value))
  }

  datatype Event = MouseMove(hit: Option<ElemId>) | KeyDown(key: KeyEvent)

  function Step(page: Page, st: SessionState, ev: Event): (SessionState, Outcome) {
    match ev
    case MouseMove(hit) => (OnMouseMove(st, hit), NoOp)
    case KeyDown(e) => OnKeyDown(page, st, e)
  }

  /** A sequence of events from `st`: the final state and what each event
      showed. */
  function Run(page: Page, st: SessionState, events: seq<Event>): (r: (SessionState, seq<Outcome>))
    ensures |r.1| == |events|
    decreases |events|
  {
    if events == [] then (st, [])
    else
      var (st1, out) := Step(page, st, events[0]);
      var (st2, outs) := Run(page, st1, events[1..]);
      (st2, [out] + outs)
  }

  /** Toggling twice restores the state. */
  lemma ToggleTwiceRestores(page: Page, st: SessionState, e: KeyEvent)
    requires IsToggle(e)
    ensures OnKeyDown(page, OnKeyDown(page, st, e).0, e).0 == st
  {
  }

  /** The key handler never moves the hover, and only the toggle changes the
      enabled flag. */
  lemma KeyDownKeepsHover(page: Page, st: SessionState, e: KeyEvent)
    ensures OnKeyDown(page, st, e).0.lastHovered == st.lastHovered
    ensures OnKeyDown(page, st, e).0.isEnabled == (st.isEnabled != IsToggle(e))
  {
  }

  /** The key handler shows something exactly on Cmd+Shift+O while enabled
      with a hovered element, and then shows that element's resolution. */
  lemma KeyDownOutcome(page: Page, st: SessionState, e: KeyEvent)
    ensures OnKeyDown(page, st, e).1 != NoOp <==>
      !IsToggle(e) && st.isEnabled && IsInspect(e) && st.lastHovered.Some?
    ensures OnKeyDown(page, st, e).1 != NoOp ==>
      OnKeyDown(page, st, e).1 == ResolveOutcome(page, st.lastHovered.value)
  {
    if !IsToggle(e) && st.isEnabled && IsInspect(e) && st.lastHovered.Some? {
      ResolveAlwaysReports(page, st.lastHovered.value);
    }
  }

  /** While disabled, and as long as no toggle arrives, nothing changes and
      nothing is shown. */
  lemma {:induction false} DisabledRunSilent(page: Page, st: SessionState, events: seq<Event>)
    requires !st.isEnabled
    requires forall i :: 0 <= i < |events| ==> !(events[i].KeyDown? && IsToggle(events[i].key))
    ensures Run(page, st, events).0 == st
    ensures forall i :: 0 <= i < |events| ==> Run(page, st, events).1[i] == NoOp
    decreases |events|
  {
    if events != [] {
      DisabledRunSilent(page, st, events[1..]);
      var outs := Run(page, st, events).1;
      assert outs == [NoOp] + Run(page, st, events[1..]).1;
    }
  }

  /** Hovering while enabled and then pressing Cmd+Shift+O shows the hovered
      element's resolution. */
  lemma HoverThenInspect(page: Page, st: SessionState, x: ElemId, e: KeyEvent)
    requires st.isEnabled && IsInspect(e)
    ensures Run(page, st, [MouseMove(Some(x)), KeyDown(e)]).1 == [NoOp, ResolveOutcome(page, x)]
  {
    assert [MouseMove(Some(x)), KeyDown(e)][1..] == [KeyDown(e)];
    assert [KeyDown(e)][1..] == [];
  }

  /** Disabling does not forget the hover: moves made while disabled are
      ignored, and after re-enabling Cmd+Shift+O resolves the element
      hovered before. */
  lemma StaleHoverAfterReenable(page: Page, st: SessionState, x: ElemId, y: ElemId,
                                toggle: KeyEvent, inspect: KeyEvent)
    requires st.isEnabled && st.lastHovered == Some(x)
    requires IsToggle(toggle) && IsInspect(inspect)
    ensures Run(page, st, [KeyDown(toggle), MouseMove(Some(y)), KeyDown(toggle), KeyDown(inspect)]).1[3] ==
      ResolveOutcome(page, x)
  {
    var off := st.(isEnabled := false);
    var evs := [KeyDown(toggle), MouseMove(Some(y)), KeyDown(toggle), KeyDown(inspect)];
    assert evs[1..][1..][1..] == [KeyDown(inspect)];
    assert Run(page, st, evs[1..][1..][1..]).1 == [ResolveOutcome(page, x)] by {
      assert [KeyDown(inspect)][1..] == [];
    }
    assert evs[1..][1..] == [KeyDown(toggle), KeyDown(inspect)];
    assert Run(page, off, evs[1..][1..]).1[1] == ResolveOutcome(page, x);
    assert evs[1..] == [MouseMove(Some(y)), KeyDown(toggle), KeyDown(inspect)];
    assert Run(page, off, evs[1..]).1[2] == ResolveOutcome(page, x);
  }

  /** `overlay.style.display` for the enabled flag. */
  function DisplayFor(enabled: bool): (d: string)
    ensures d == "block" || d == "none"
    ensures (d == "block") == enabled
  {
    if enabled then "block" else "none"
  }

  /** The hook's live state while mounted. */
  class InspectionSession {
    var isEnabled: bool
    var lastHovered: Option<ElemId>
    var overlayDisplay: string
    const projectRoot: Option<string>

    function State(): SessionState
      reads this
    {
      SessionState(isEnabled, lastHovered)
    }

    /** The overlay is shown exactly while inspection is enabled. */
    predicate Valid()
      reads this
    {
      overlayDisplay == DisplayFor(isEnabled)
    }

    /** Mounting: enabled, nothing hovered, overlay shown. */
    constructor(projectRoot: Option<string>)
      ensures Valid() && State() == InitialState
      ensures this.projectRoot == projectRoot
    {
      isEnabled := true;
      lastHovered := None;
      overlayDisplay := "";
      this.projectRoot := projectRoot;
      new;
      UpdateOverlayVisibility();
    }

    method UpdateOverlayVisibility()
      modifies this
      ensures Valid()
      ensures isEnabled == old(isEnabled) && lastHovered == old(lastHovered)
    {
      overlayDisplay := if isEnabled then "block" else "none";
    }

    method MoveHandler(hit: Option<ElemId>)
      requires Valid()
      modifies this
      ensures Valid()
      ensures State() == OnMouseMove(old(State()), hit)
    {
      if !isEnabled {
        return;
      }
      if hit.None? {
        return;
      }
      if hit != lastHovered {
        lastHovered := hit;
      }
    }

    method KeyHandler(page: Page, e: KeyEvent) returns (outcome: Outcome)
      requires Valid()
      modifies this
      ensures Valid()
      ensures (State(), outcome) == OnKeyDown(page, old(State()), e)
    {
      if e.metaKey && e.shiftKey && e.code == "KeyL" {
        isEnabled := !isEnabled;
        UpdateOverlayVisibility();
        return NoOp;
      }
      if !isEnabled {
        return NoOp;
      }
      if e.metaKey && e.shiftKey && e.code == "KeyO" {
        if lastHovered.None? {
          return NoOp;
        }
        outcome := Resolve(page, lastHovered.value);
        return;
      }
      return NoOp;
    }

    /** The link the modal's editor button opens for a shown location. */
    method EditorLink(file: string, line: string) returns (url: string)
      ensures url == VsCodeUrl(file, line, projectRoot)
      ensures ':' !in line ==> ParseLink(EditorScheme, url) == Some((EditorPath(file, projectRoot), line))
    {
      url := VsCodeUrl(file, line, projectRoot);
      if ':' !in line {
        VsCodeUrlRoundTrip(file, line, projectRoot);
      }
    }
  }
}
