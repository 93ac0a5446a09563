/** React's internal fiber records as the runtime half reads them: finding the
    fiber attached to a DOM node (`getFiberFromNode`) and the bounded walk up
    the `return`/`_owner` links looking for a debug source.

    The records are foreign state. They are modelled as a finite map from ids
    to records whose links are ids, so a chain may loop back on itself; an id
    missing from the map reads as an object with none of the fields the walk
    looks at. */
module Fibers {
  import opened Options
  import opened JsStrings

  type FiberId = nat

  /** A `{ fileName, lineNumber }` debug source. */
  datatype DebugSource = DebugSource(fileName: string, lineNumber: nat)

  /** A props object, as far as the walk reads it: its `__source` field. */
  datatype Props = Props(source: Option<DebugSource>)

  /** One fiber record. `ownKeys` lists the record's own property names, which
      the structural test of `getFiberFromNode` inspects; the other fields are
      the values the walk reads, `None` where the field is missing or falsy. */
  datatype Fiber = Fiber(
    ownKeys: set<string>,
    debugSource: Option<DebugSource>,   // `_debugSource`
    owner: Option<FiberId>,             // `_owner`
    memoizedProps: Option<Props>,
    pendingProps: Option<Props>,
    parent: Option<FiberId>)            // `return`

  type Heap = map<FiberId, Fiber>

  /** A property value found on a DOM node: falsy (`undefined`, `null`, ...),
      a truthy value that is not an object, or an object. */
  datatype Value = Falsy | Scalar | Object(id: FiberId)

  const EmptyRecord := Fiber({}, None, None, None, None, None)

  /** What the walk sees when it reads fields of `v`. */
  function RecordAt(heap: Heap, v: Value): Fiber {
    if v.Object? && v.id in heap then heap[v.id] else EmptyRecord
  }

  // ---------------------------------------------------------------------------
  // getFiberFromNode

  const FiberKeyPrefix := "__reactFiber"
  const InstanceKeyPrefix := "__reactInternalInstance"

  predicate IsFiberKey(key: string) {
    StartsWith(key, FiberKeyPrefix) || StartsWith(key, InstanceKeyPrefix)
  }

  /** The structural test of the fallback: a truthy object with own
      `memoizedProps` and `return` and one of `type` or `elementType`. */
  predicate LooksLikeFiber(heap: Heap, v: Value) {
    && v.Object?
    && "memoizedProps" in RecordAt(heap, v).ownKeys
    && "return" in RecordAt(heap, v).ownKeys
    && ("type" in RecordAt(heap, v).ownKeys || "elementType" in RecordAt(heap, v).ownKeys)
  }

  /** `Array.prototype.findIndex` over a node's own properties. */
  function FindIndex(props: seq<(string, Value)>, p: ((string, Value)) -> bool): (r: int)
    ensures -1 <= r < |props|
    ensures r >= 0 ==> p(props[r])
    ensures forall j :: 0 <= j < |props| && (r == -1 || j < r) ==> !p(props[j])
  {
    if props == [] then -1
    else if p(props[0]) then 0
    else
      var r := FindIndex(props[1..], p);
      assert forall j :: 1 <= j < |props| ==> props[j] == props[1..][j - 1];
      if r == -1 then -1 else r + 1
  }

  /** `getFiberFromNode`: the value under the first own key with a React
      prefix (even if that value is falsy); failing that, the first own value
      that passes the structural test; failing that, `undefined`. Properties
      are in `Object.keys` order. */
  function FiberFromNode(heap: Heap, node: seq<(string, Value)>): Value {
    var k := FindIndex(node, (e: (string, Value)) => IsFiberKey(e.0));
    if k >= 0 then node[k].1
    else
      var j := FindIndex(node, (e: (string, Value)) => LooksLikeFiber(heap, e.1));
      if j >= 0 then node[j].1 else Falsy
  }

  /** `FindIndex` finds the first match. */
  lemma FindIndexAt(props: seq<(string, Value)>, p: ((string, Value)) -> bool, i: nat)
    requires i < |props| && p(props[i])
    requires forall j :: 0 <= j < i ==> !p(props[j])
    ensures FindIndex(props, p) == i
  {
  }

  /** The first React-prefixed key decides, whatever its value and whatever
      follows it. */
  lemma FiberKeyFirst(heap: Heap, node: seq<(string, Value)>, i: nat)
    requires i < |node| && IsFiberKey(node[i].0)
    requires forall j :: 0 <= j < i ==> !IsFiberKey(node[j].0)
    ensures FiberFromNode(heap, node) == node[i].1
  {
    FindIndexAt(node, (e: (string, Value)) => IsFiberKey(e.0), i);
  }

  /** Without a React-prefixed key, the first value passing the structural
      test is taken. */
  lemma ShapeFallback(heap: Heap, node: seq<(string, Value)>, i: nat)
    requires forall j :: 0 <= j < |node| ==> !IsFiberKey(node[j].0)
    requires i < |node| && LooksLikeFiber(heap, node[i].1)
    requires forall j :: 0 <= j < i ==> !LooksLikeFiber(heap, node[j].1)
    ensures FiberFromNode(heap, node) == node[i].1
    ensures FiberFromNode(heap, node) != Falsy
  {
    FindIndexAt(node, (e: (string, Value)) => LooksLikeFiber(heap, e.1), i);
  }

  /** With neither, there is no fiber. */
  lemma NoFiberFound(heap: Heap, node: seq<(string, Value)>)
    requires forall j :: 0 <= j < |node| ==> !IsFiberKey(node[j].0)
    requires forall j :: 0 <= j < |node| ==> !LooksLikeFiber(heap, node[j].1)
    ensures FiberFromNode(heap, node) == Falsy
  {
  }

  // ---------------------------------------------------------------------------
  // The walk along `return` / `_owner`

  const MaxChainSteps := 20

  /** The three checks made on one record, in order: its `_debugSource`, its
      owner's `_debugSource`, then `__source` in `memoizedProps`, or in
      `pendingProps` when `memoizedProps` is falsy. */
  function SourceAt(heap: Heap, rec: Fiber): Option<DebugSource> {
    if rec.debugSource.Some? then rec.debugSource
    else if rec.owner.Some? && RecordAt(heap, Object(rec.owner.value)).debugSource.Some? then
      RecordAt(heap, Object(rec.owner.value)).debugSource
    else
      var props := if rec.memoizedProps.Some? then rec.memoizedProps else rec.pendingProps;
      if props.Some? && props.value.source.Some? then props.value.source else None
  }

  /** `pointer.return || pointer._owner`. */
  function Next(rec: Fiber): Value {
    if rec.parent.Some? then Object(rec.parent.value)
    else if rec.owner.Some? then Object(rec.owner.value)
    else Falsy
  }

  /** The source the walk reports when started at `pointer` with `budget`
      records left to examine, or `None` when it gives up. */
  function ChainSource(heap: Heap, pointer: Value, budget: nat): Option<DebugSource>
    decreases budget
  {
    if pointer == Falsy || budget == 0 then None
    else
      var hit := SourceAt(heap, RecordAt(heap, pointer));
      if hit.Some? then hit else ChainSource(heap, Next(RecordAt(heap, pointer)), budget - 1)
  }

  /** The walk as the key handler runs it. */
  method WalkChain(heap: Heap, fiber: Value) returns (found: Option<DebugSource>)
    ensures found == ChainSource(heap, fiber, MaxChainSteps)
  {
    var pointer := fiber;
    var steps := 0;
    while pointer != Falsy && steps < MaxChainSteps
      invariant 0 <= steps <= MaxChainSteps
      invariant ChainSource(heap, pointer, MaxChainSteps - steps) == ChainSource(heap, fiber, MaxChainSteps)
    {
      var rec := RecordAt(heap, pointer);
      if rec.debugSource.Some? {
        return rec.debugSource;
      }
      if rec.owner.Some? && RecordAt(heap, Object(rec.owner.value)).debugSource.Some? {
        return RecordAt(heap, Object(rec.owner.value)).debugSource;
      }
      var props := if rec.memoizedProps.Some? then rec.memoizedProps else rec.pendingProps;
      if props.Some? && props.value.source.Some? {
        return props.value.source;
      }
      pointer := if rec.parent.Some? then Object(rec.parent.value)
                 else if rec.owner.Some? then Object(rec.owner.value)
                 else Falsy;
      steps := steps + 1;
    }
    return None;
  }

  /** The pointers the walk examines, in order: starting at `pointer`, each
      the `return || _owner` of the one before, and ending at a record with a
      source, at a falsy link, or when the budget is spent. */
  function Visited(heap: Heap, pointer: Value, budget: nat): (vs: seq<Value>)
    ensures |vs| <= budget
    ensures forall k :: 0 <= k < |vs| ==> vs[k] != Falsy
    ensures pointer != Falsy && budget > 0 ==> |vs| > 0 && vs[0] == pointer
    ensures forall k :: 0 <= k < |vs| - 1 ==> vs[k + 1] == Next(RecordAt(heap, vs[k]))
    ensures |vs| > 0 ==>
      || |vs| == budget
      || SourceAt(heap, RecordAt(heap, vs[|vs| - 1])).Some?
      || Next(RecordAt(heap, vs[|vs| - 1])) == Falsy
    decreases budget
  {
    if pointer == Falsy || budget == 0 then []
    else if SourceAt(heap, RecordAt(heap, pointer)).Some? then [pointer]
    else
      var rest := Visited(heap, Next(RecordAt(heap, pointer)), budget - 1);
      assert forall k :: 1 <= k < |rest| + 1 ==> ([pointer] + rest)[k] == rest[k - 1];
      [pointer] + rest
  }

  /** None of the records at `vs` carries a source. */
  predicate NoHit(heap: Heap, vs: seq<Value>) {
    forall k :: 0 <= k < |vs| ==> SourceAt(heap, RecordAt(heap, vs[k])).None?
  }

  lemma NoHitCons(heap: Heap, v: Value, rest: seq<Value>)
    ensures NoHit(heap, [v] + rest) <==> SourceAt(heap, RecordAt(heap, v)).None? && NoHit(heap, rest)
  {
    var vs := [v] + rest;
    assert vs[0] == v;
    assert forall k :: 0 <= k < |rest| ==> rest[k] == vs[k + 1];
    if SourceAt(heap, RecordAt(heap, v)).None? && NoHit(heap, rest) {
      forall k | 0 <= k < |vs|
        ensures SourceAt(heap, RecordAt(heap, vs[k])).None?
      {
        if k > 0 {
          assert vs[k] == rest[k - 1];
        }
      }
    }
  }

  /** The walk gives up exactly when none of the (at most `budget`) records
      it examines has a source. */
  lemma {:induction false} ChainSourceGivesUpExactly(heap: Heap, pointer: Value, budget: nat)
    ensures ChainSource(heap, pointer, budget).None? <==> NoHit(heap, Visited(heap, pointer, budget))
    decreases budget
  {
    if pointer != Falsy && budget > 0 {
      var next := Next(RecordAt(heap, pointer));
      if SourceAt(heap, RecordAt(heap, pointer)).None? {
        ChainSourceGivesUpExactly(heap, next, budget - 1);
        NoHitCons(heap, pointer, Visited(heap, next, budget - 1));
      } else {
        NoHitCons(heap, pointer, []);
      }
    }
  }

  /** When the walk reports a source, it is the source of the last record it
      examined, and none of the records before that one had a source. */
  lemma {:induction false} ChainSourceIsFirstHit(heap: Heap, pointer: Value, budget: nat)
    requires ChainSource(heap, pointer, budget).Some?
    ensures
      var vs := Visited(heap, pointer, budget);
      && |vs| > 0
      && ChainSource(heap, pointer, budget) == SourceAt(heap, RecordAt(heap, vs[|vs| - 1]))
      && NoHit(heap, vs[..|vs| - 1])
    decreases budget
  {
    var vs := Visited(heap, pointer, budget);
    if SourceAt(heap, RecordAt(heap, pointer)).None? {
      var next := Next(RecordAt(heap, pointer));
      ChainSourceIsFirstHit(heap, next, budget - 1);
      var rest := Visited(heap, next, budget - 1);
      assert vs == [pointer] + rest;
      assert vs[|vs| - 1] == rest[|rest| - 1];
      assert vs[..|vs| - 1] == [pointer] + rest[..|rest| - 1];
      NoHitCons(heap, pointer, rest[..|rest| - 1]);
    } else {
      assert vs == [pointer];
      assert vs[..0] == [];
    }
  }

  /** A record without a source of its own, its owner's, or in its props
      hands the walk on along `return` when it has one, whatever its
      `_owner`. */
  lemma WalkPrefersReturn(heap: Heap, id: FiberId, p: FiberId, budget: nat)
    requires id in heap && heap[id].parent == Some(p)
    requires SourceAt(heap, heap[id]).None? && budget > 0
    ensures ChainSource(heap, Object(id), budget) == ChainSource(heap, Object(p), budget - 1)
    ensures Visited(heap, Object(id), budget) == [Object(id)] + Visited(heap, Object(p), budget - 1)
  {
  }

  /** Without `return`, the walk goes on along `_owner`. */
  lemma WalkFollowsOwner(heap: Heap, id: FiberId, o: FiberId, budget: nat)
    requires id in heap && heap[id].parent.None? && heap[id].owner == Some(o)
    requires SourceAt(heap, heap[id]).None? && budget > 0
    ensures ChainSource(heap, Object(id), budget) == ChainSource(heap, Object(o), budget - 1)
    ensures Visited(heap, Object(id), budget) == [Object(id)] + Visited(heap, Object(o), budget - 1)
  {
  }

  /** The owner's `_debugSource` is reported at the record itself, before
      its props are looked at and without stepping to the owner. */
  lemma OwnerSourceReported(heap: Heap, id: FiberId, o: FiberId, src: DebugSource, budget: nat)
    requires id in heap && heap[id].debugSource.None? && heap[id].owner == Some(o)
    requires o in heap && heap[o].debugSource == Some(src) && budget > 0
    ensures ChainSource(heap, Object(id), budget) == Some(src)
    ensures Visited(heap, Object(id), budget) == [Object(id)]
  {
  }

  /** `__source` is read from `memoizedProps` when that is truthy, and from
      `pendingProps` only when it is not; a truthy `memoizedProps` without
      `__source` hides a `pendingProps.__source`. */
  lemma PropsSourceReported(heap: Heap, id: FiberId, budget: nat)
    requires id in heap && heap[id].debugSource.None? && budget > 0
    requires heap[id].owner.None? || RecordAt(heap, Object(heap[id].owner.value)).debugSource.None?
    ensures heap[id].memoizedProps.Some? && heap[id].memoizedProps.value.source.Some? ==>
      ChainSource(heap, Object(id), budget) == heap[id].memoizedProps.value.source
    ensures heap[id].memoizedProps.None? && heap[id].pendingProps.Some? && heap[id].pendingProps.value.source.Some? ==>
      ChainSource(heap, Object(id), budget) == heap[id].pendingProps.value.source
    ensures heap[id].memoizedProps.Some? && heap[id].memoizedProps.value.source.None? ==>
      SourceAt(heap, heap[id]).None? &&
      ChainSource(heap, Object(id), budget) == ChainSource(heap, Next(heap[id]), budget - 1)
  {
  }

  /** When no record reachable or not has a source, the walk gives up,
      however the links loop. */
  lemma {:induction false} NoSourceAnywhere(heap: Heap, pointer: Value, budget: nat)
    requires forall id :: id in heap ==> SourceAt(heap, heap[id]).None?
    ensures ChainSource(heap, pointer, budget).None?
    decreases budget
  {
    if pointer != Falsy && budget > 0 {
      NoSourceAnywhere(heap, Next(RecordAt(heap, pointer)), budget - 1);
    }
  }

  /** A record whose `return` points to itself and which has no source:
      the walk stops after its 20 steps and finds nothing. */
  lemma SelfLoopGivesUp(heap: Heap, id: FiberId)
    requires heap == map[id := Fiber({"memoizedProps", "return", "type"}, None, None, None, None, Some(id))]
    ensures ChainSource(heap, Object(id), MaxChainSteps).None?
    ensures |Visited(heap, Object(id), MaxChainSteps)| == MaxChainSteps
  {
    NoSourceAnywhere(heap, Object(id), MaxChainSteps);
    SelfLoopVisits(heap, id, MaxChainSteps);
  }

  lemma {:induction false} SelfLoopVisits(heap: Heap, id: FiberId, budget: nat)
    requires id in heap && heap[id].parent == Some(id)
    requires SourceAt(heap, heap[id]).None?
    ensures |Visited(heap, Object(id), budget)| == budget
    decreases budget
  {
    if budget > 0 {
      SelfLoopVisits(heap, id, budget - 1);
    }
  }

  /** A straight `return` chain `0 -> 1 -> ... -> n - 1` whose only source
      sits on the last record: started at 0, the walk finds it when the chain
      fits in the budget and gives up when it does not. */
  ghost predicate LinearChain(heap: Heap, n: nat, src: DebugSource) {
    && (forall id :: id in heap <==> id < n)
    && (forall id :: 0 <= id < n - 1 ==> heap[id] == Fiber({}, None, None, None, None, Some(id + 1)))
    && (n > 0 ==> heap[n - 1] == Fiber({}, Some(src), None, None, None, None))
  }

  lemma {:induction false} LinearChainWalk(heap: Heap, n: nat, src: DebugSource, from: nat, budget: nat)
    requires LinearChain(heap, n, src) && from < n
    ensures ChainSource(heap, Object(from), budget) == if n - from <= budget then Some(src) else None
    decreases budget
  {
    if budget > 0 && from < n - 1 {
      LinearChainWalk(heap, n, src, from + 1, budget - 1);
    }
  }

  /** A chain of 25 records with the source only on the last: the walk stops
      at its bound and reports nothing. */
  lemma ChainBeyondBound(heap: Heap, src: DebugSource)
    requires LinearChain(heap, 25, src)
    ensures ChainSource(heap, Object(0), MaxChainSteps).None?
    ensures ChainSource(heap, Object(5), MaxChainSteps) == Some(src)
  {
    LinearChainWalk(heap, 25, src, 0, MaxChainSteps);
    LinearChainWalk(heap, 25, src, 5, MaxChainSteps);
  }
}
