/** The build-time half: the `JSXOpeningElement` visitor of the Babel plugin.
    For every JSX opening element with a start location it turns the compiled
    unit's absolute file name into a short project-relative path and appends
    `data-source-file` and `data-source-line` to the element's attributes. */
module SourcePlugin {
  import opened Options
  import opened JsStrings

  const SrcMarker := "/src/"
  const AppMarker := "/app/"
  /** Directory names taken as a project root by the fallback rule. */
  const RootIndicators: seq<string> := ["components", "pages", "app", "src"]
  const SourceFileKey := "data-source-file"
  const SourceLineKey := "data-source-line"

  predicate IsRootIndicator(segment: string) {
    segment in RootIndicators
  }

  /** The index of the rightmost path segment that is a root indicator, or -1. */
  function RightmostRootIndex(parts: seq<string>): (r: int)
    ensures -1 <= r < |parts|
    ensures r >= 0 ==> IsRootIndicator(parts[r])
    ensures forall j :: r < j < |parts| ==> !IsRootIndicator(parts[j])
  {
    if parts == [] then -1
    else if IsRootIndicator(parts[|parts| - 1]) then |parts| - 1
    else RightmostRootIndex(parts[..|parts| - 1])
  }

  /** The value the plugin writes into `data-source-file` for a unit compiled
      from `filename`; the four rules are tried in order and the first that
      applies wins. */
  function SourceFileOf(filename: string): string {
    var srcParts := Split(filename, SrcMarker);
    if |srcParts| > 1 then "src/" + Last(srcParts)
    else
      var appParts := Split(filename, AppMarker);
      if |appParts| > 1 then "app/" + Last(appParts)
      else
        var pathParts := Split(filename, "/");
        var foundRootIndex := RightmostRootIndex(pathParts);
        if foundRootIndex != -1 then Join(pathParts[foundRootIndex..], "/")
        else Last(pathParts)
  }

  /** The normalisation as the visitor runs it, with its backward search for a
      root indicator. */
  method NormalizeSourceFile(filename: string) returns (sourceFile: string)
    ensures sourceFile == SourceFileOf(filename)
  {
    var srcParts := Split(filename, SrcMarker);
    if |srcParts| > 1 {
      sourceFile := "src/" + srcParts[|srcParts| - 1];
    } else {
      var appParts := Split(filename, AppMarker);
      if |appParts| > 1 {
        sourceFile := "app/" + appParts[|appParts| - 1];
      } else {
        var pathParts := Split(filename, "/");
        var foundRootIndex := -1;
        var i := |pathParts| - 1;
        while i >= 0
          invariant -1 <= i < |pathParts|
          invariant foundRootIndex == -1
          invariant forall j :: i < j < |pathParts| ==> !IsRootIndicator(pathParts[j])
        {
          if IsRootIndicator(pathParts[i]) {
            foundRootIndex := i;
            break;
          }
          i := i - 1;
        }
        RightmostRootUnique(pathParts, foundRootIndex);
        if foundRootIndex != -1 {
          sourceFile := Join(pathParts[foundRootIndex..], "/");
        } else {
          sourceFile := pathParts[|pathParts| - 1];
        }
      }
    }
  }

  /** The rightmost root indicator is the only index with its defining property. */
  lemma RightmostRootUnique(parts: seq<string>, k: int)
    requires -1 <= k < |parts|
    requires k >= 0 ==> IsRootIndicator(parts[k])
    requires forall j :: k < j < |parts| ==> !IsRootIndicator(parts[j])
    ensures k == RightmostRootIndex(parts)
  {
  }

  // ---------------------------------------------------------------------------
  // The four rules, each stated for the inputs it applies to.

  /** Rule 1: with `/src/` in the path, the result is `src/` followed by the
      last piece of the split, i.e. the text after an occurrence of `/src/`
      that holds no further `/src/`. */
  lemma SrcRule(filename: string)
    requires Contains(filename, SrcMarker)
    ensures SourceFileOf(filename) == "src/" + Last(Split(filename, SrcMarker))
    ensures exists i :: OccursAt(filename, SrcMarker, i)
                        && SourceFileOf(filename) == "src/" + filename[i + |SrcMarker|..]
    ensures !Contains(SourceFileOf(filename)[4..], SrcMarker)
  {
    SplitCount(filename, SrcMarker);
    LastPieceFollowsSeparator(filename, SrcMarker);
    SplitPiecesFree(filename, SrcMarker, |Split(filename, SrcMarker)| - 1);
  }

  /** Rule 2: only without `/src/` does `/app/` decide, the same way. */
  lemma AppRule(filename: string)
    requires !Contains(filename, SrcMarker) && Contains(filename, AppMarker)
    ensures SourceFileOf(filename) == "app/" + Last(Split(filename, AppMarker))
    ensures exists i :: OccursAt(filename, AppMarker, i)
                        && SourceFileOf(filename) == "app/" + filename[i + |AppMarker|..]
    ensures !Contains(SourceFileOf(filename)[4..], AppMarker)
  {
    SplitCount(filename, SrcMarker);
    SplitCount(filename, AppMarker);
    LastPieceFollowsSeparator(filename, AppMarker);
    SplitPiecesFree(filename, AppMarker, |Split(filename, AppMarker)| - 1);
  }

  /** Rule 3: with neither marker, the `/`-segments from the rightmost root
      indicator on, joined with `/`. */
  lemma RootIndicatorRule(filename: string, k: nat)
    requires !Contains(filename, SrcMarker) && !Contains(filename, AppMarker)
    requires k < |Split(filename, "/")| && IsRootIndicator(Split(filename, "/")[k])
    requires forall j :: k < j < |Split(filename, "/")| ==> !IsRootIndicator(Split(filename, "/")[j])
    ensures SourceFileOf(filename) == Join(Split(filename, "/")[k..], "/")
    ensures IsSuffix(SourceFileOf(filename), filename)
  {
    SplitCount(filename, SrcMarker);
    SplitCount(filename, AppMarker);
    RightmostRootUnique(Split(filename, "/"), k);
    SplitTailIsSuffix(filename, "/", k);
  }

  /** Rule 4: with no marker and no root-indicator segment, the final
      `/`-segment, which holds no `/`. */
  lemma BareNameRule(filename: string)
    requires !Contains(filename, SrcMarker) && !Contains(filename, AppMarker)
    requires forall j :: 0 <= j < |Split(filename, "/")| ==> !IsRootIndicator(Split(filename, "/")[j])
    ensures SourceFileOf(filename) == Last(Split(filename, "/"))
    ensures IsSuffix(SourceFileOf(filename), filename)
    ensures '/' !in SourceFileOf(filename)
  {
    var parts := Split(filename, "/");
    SplitCount(filename, SrcMarker);
    SplitCount(filename, AppMarker);
    RightmostRootUnique(parts, -1);
    assert SourceFileOf(filename) == Last(parts);
    SplitTailIsSuffix(filename, "/", |parts| - 1);
    assert parts[|parts| - 1..] == [Last(parts)];
    SplitPiecesFree(filename, "/", |parts| - 1);
    NoSlashWithoutOccurrence(Last(parts));
  }

  lemma NoSlashWithoutOccurrence(segment: string)
    requires !Contains(segment, "/")
    ensures '/' !in segment
  {
    if '/' in segment {
      var j :| 0 <= j < |segment| && segment[j] == '/';
      assert OccursAt(segment, "/", j);
    }
  }

  /** The split decides by the FIRST occurrence: for `a + "/src/" + b`, where
      `/src/` does not occur before the one after `a` and not in `b`, the
      result is `src/` + `b`, even when `b` starts a further `/src/` together
      with the marker before it. */
  lemma SrcFirstOccurrence(a: string, b: string)
    requires !Contains(a + SrcMarker[..|SrcMarker| - 1], SrcMarker)
    requires !Contains(b, SrcMarker)
    ensures SourceFileOf(a + SrcMarker + b) == "src/" + b
  {
    var f := a + SrcMarker + b;
    assert f[..|a| + |SrcMarker| - 1] == a + SrcMarker[..|SrcMarker| - 1];
    assert f[|a|..|a| + |SrcMarker|] == SrcMarker;
    SplitAtFirst(f, SrcMarker, |a|);
    assert f[|a| + |SrcMarker|..] == b;
    SplitWithout(b, SrcMarker);
  }

  /** `/a/src/src/b` becomes `src/src/b`: the split is non-overlapping, so the
      second `/src/`, which shares its `/` with the first, is never cut at,
      although the text after it is just `b`. */
  lemma NestedSrcExample(a: string, b: string)
    requires a == "/a" && b == "src/b"
    ensures SourceFileOf(a + SrcMarker + b) == "src/src/b"
    ensures OccursAt(a + SrcMarker + b, SrcMarker, 6) && (a + SrcMarker + b)[6 + |SrcMarker|..] == "b"
  {
    // The strings are parameters fixed by `requires` rather than literals in
    // the `ensures`: on a literal the verifier unfolds every function eagerly,
    // which costs far more than the proof below.
    NestedSrcPieces(a, b);
    SrcFirstOccurrence(a, b);
    var f := a + SrcMarker + b;
    assert f == "/a/src/src/b";
    assert f[6..11] == SrcMarker;
  }

  lemma NestedSrcPieces(a: string, b: string)
    requires a == "/a" && b == "src/b"
    ensures !Contains(a + SrcMarker[..|SrcMarker| - 1], SrcMarker)
    ensures !Contains(b, SrcMarker)
  {
    var s := a + SrcMarker[..|SrcMarker| - 1];
    assert s == "/a/src";
    assert s[0..5] == "/a/sr";
    IndexSkip(s, SrcMarker, 0);
    assert s[1..6] == "a/src";
    IndexSkip(s, SrcMarker, 1);
    assert !OccursAt(b, SrcMarker, 0);
  }

  /** A name ending in `/` with no marker and no root indicator normalises to
      the empty string: the last segment is empty. */
  lemma TrailingSlashEmpty(filename: string)
    requires filename == "lib/"
    ensures SourceFileOf(filename) == ""
  {
    // The strings are parameters fixed by `requires` rather than literals in
    // the `ensures`: on a literal the verifier unfolds every function eagerly,
    // which costs far more than the proof below.
    AbsentCharExcludes(filename, SrcMarker, 's');
    SplitWithout(filename, SrcMarker);
    AbsentCharExcludes(filename, AppMarker, 'a');
    SplitWithout(filename, AppMarker);
    assert filename[..3] == "lib" && filename[4..] == "";
    AbsentCharExcludes(filename[..3], "/", '/');
    SplitAtFirst(filename, "/", 3);
    SplitWithout(filename[4..], "/");
    assert Split(filename, "/") == ["lib", ""];
    BareNameRule(filename);
  }

  /** Every result is a suffix of the file name, possibly behind `src/` or `app/`. */
  lemma SourceFileShape(filename: string)
    ensures || IsSuffix(SourceFileOf(filename), filename)
            || (StartsWith(SourceFileOf(filename), "src/") && IsSuffix(SourceFileOf(filename)[4..], filename))
            || (StartsWith(SourceFileOf(filename), "app/") && IsSuffix(SourceFileOf(filename)[4..], filename))
  {
    var r := SourceFileOf(filename);
    var srcParts := Split(filename, SrcMarker);
    var appParts := Split(filename, AppMarker);
    var pathParts := Split(filename, "/");
    if |srcParts| > 1 {
      SplitTailIsSuffix(filename, SrcMarker, |srcParts| - 1);
      assert srcParts[|srcParts| - 1..] == [Last(srcParts)];
      assert r[4..] == Last(srcParts);
    } else if |appParts| > 1 {
      SplitTailIsSuffix(filename, AppMarker, |appParts| - 1);
      assert appParts[|appParts| - 1..] == [Last(appParts)];
      assert r[4..] == Last(appParts);
    } else {
      var k := RightmostRootIndex(pathParts);
      if k != -1 {
        SplitTailIsSuffix(filename, "/", k);
      } else {
        SplitTailIsSuffix(filename, "/", |pathParts| - 1);
        assert pathParts[|pathParts| - 1..] == [Last(pathParts)];
      }
    }
  }

  // ---------------------------------------------------------------------------
  // The visitor.

  datatype JsxAttribute = JsxAttribute(name: string, value: string)
  datatype Position = Position(line: nat)
  datatype SourceLocation = SourceLocation(start: Option<Position>)

  /** `loc && loc.start`. */
  predicate HasStart(loc: Option<SourceLocation>) {
    loc.Some? && loc.value.start.Some?
  }

  /** A JSX opening element node; the visitor appends to its attribute list in place. */
  class JsxOpeningElement {
    var attributes: seq<JsxAttribute>
    const loc: Option<SourceLocation>

    constructor (attributes: seq<JsxAttribute>, loc: Option<SourceLocation>)
      ensures this.attributes == attributes && this.loc == loc
    {
      this.attributes := attributes;
      this.loc := loc;
    }
  }

  /** The `JSXOpeningElement` visitor: an element without a start location is
      left alone; otherwise the file and line attributes are appended, in that
      order, after the existing ones. */
  method VisitJsxOpeningElement(node: JsxOpeningElement, filename: string)
    modifies node
    ensures !HasStart(node.loc) ==> node.attributes == old(node.attributes)
    ensures HasStart(node.loc) ==>
      node.attributes == old(node.attributes)
                         + [JsxAttribute(SourceFileKey, SourceFileOf(filename)),
                            JsxAttribute(SourceLineKey, NatToString(node.loc.value.start.value.line))]
  {
    var loc := node.loc;
    if loc.Some? && loc.value.start.Some? {
      var sourceFile := NormalizeSourceFile(filename);
      var sourceLine := NatToString(loc.value.start.value.line);
      node.attributes := node.attributes + [JsxAttribute(SourceFileKey, sourceFile)];
      node.attributes := node.attributes + [JsxAttribute(SourceLineKey, sourceLine)];
    }
  }
}
