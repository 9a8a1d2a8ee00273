/** Translating the events of one request message: a prefix, if there is one, bindings, if there are any, and the
    proto writer, of which only the outcome is known. */
module RequestPipeline {
  import opened Sequences
  import opened Events
  import opened Weaving
  import opened WeaverMachine
  import opened WeaverPosition
  import opened PrefixWriting
  import opened Framing

  datatype RequestInfo = RequestInfo(bodyFieldPath: string, bindings: seq<BindingInfo>, rejectCollisions: bool,
                                     enumsIgnoreCase: bool)

  /** What the proto writer makes of all it has been given. */
  datatype Encoding = Encoding(ok: bool, done: bool, bytes: seq<byte>)
  /** The proto writer: nothing comes of no events. */
  type Encoder = f: (bool, seq<Event>) -> Encoding | forall ignoreCase :: f(ignoreCase, []) == Encoding(true, false, [])
    witness (ignoreCase: bool, es: seq<Event>) => Encoding(true, false, [])

  /** The unseen parts: the proto writer, and the comparison of a body value with a bound one. */
  datatype Library = Library(encode: Encoder, conflicts: (string, Scalar, string) -> bool)

  datatype Outcome = Failed | NotDone | Translated(message: seq<byte>)

  predicate HasPrefix(info: RequestInfo) { info.bodyFieldPath != "" && info.bodyFieldPath != "*" }

  function CheckOf(info: RequestInfo, lib: Library): Check { Check(info.rejectCollisions, lib.conflicts) }

  // ----- Levels -----

  predicate IsEnd(e: Event) { e.EndObject? || e.EndList? }

  /** No end, of whatever kind, comes when nothing is open. */
  predicate EndsFit(level: int, es: seq<Event>)
    decreases |es|
  {
    es == [] || ((IsEnd(es[0]) ==> level > 0) && EndsFit(DepthAfter(level, es[0]), es[1..]))
  }

  lemma {:induction false} FitAppend(level: int, a: seq<Event>, b: seq<Event>)
    ensures EndsFit(level, a + b) <==> EndsFit(level, a) && EndsFit(DepthAfterAll(level, a), b)
    ensures DepthAfterAll(level, a + b) == DepthAfterAll(DepthAfterAll(level, a), b)
    decreases |a|
  {
    if a == [] {
      assert a + b == b;
    } else {
      assert (a + b)[1..] == a[1..] + b;
      FitAppend(DepthAfter(level, a[0]), a[1..], b);
    }
  }

  lemma FitOne(level: int, e: Event)
    ensures EndsFit(level, [e]) <==> (IsEnd(e) ==> level > 0)
    ensures DepthAfterAll(level, [e]) == DepthAfter(level, e)
  {
    assert [e][1..] == [];
    assert DepthAfterAll(DepthAfter(level, e), []) == DepthAfter(level, e);
  }

  function WeaverLevel(m: Machine): int { (if m.active then |m.frames| + 1 else 0) + m.depth }

  /** Ends that fit never find the weaver's stack empty, even if they are of the wrong kind. */
  lemma {:induction false} WeaverCanRun(m: Machine, es: seq<Event>, check: Check)
    requires m.active || m.frames == []
    requires EndsFit(WeaverLevel(m), es)
    ensures CanRun(m, es, check)
    ensures var r := Run(m, es, check);
            (r.active || r.frames == []) && WeaverLevel(r) == DepthAfterAll(WeaverLevel(m), es)
    decreases |es|
  {
    if es != [] {
      WeaverCanRun(Step(m, es[0], check), es[1..], check);
    }
  }

  lemma {:induction false} OpeningFits(prefix: seq<string>, level: int, name: string)
    ensures EndsFit(level, Opening(prefix, name)) && DepthAfterAll(level, Opening(prefix, name)) == level + |prefix|
    decreases |prefix|
  {
    if prefix != [] {
      OpeningFits(prefix[1..], level + 1, prefix[0]);
    }
  }

  lemma {:induction false} ClosingFits(n: nat, level: int)
    requires level >= n
    ensures EndsFit(level, Closing(n)) && DepthAfterAll(level, Closing(n)) == level - n
  {
    if n > 0 {
      ClosingFits(n - 1, level - 1);
      assert Closing(n)[1..] == Closing(n - 1);
    }
  }

  lemma WrittenFits(prefix: seq<string>, depth: nat, e: Event)
    requires IsEnd(e) ==> depth > 0
    ensures EndsFit(Outer(depth, prefix), Written(prefix, depth, e))
    ensures DepthAfterAll(Outer(depth, prefix), Written(prefix, depth, e)) == Outer(DepthAfter(depth, e), prefix)
  {
    var level, n := Outer(depth, prefix), |prefix|;
    FitOne(level, e);
    if depth == 0 {
      var value := RenamedEvent(e, Inner(prefix, e.name));
      OpeningFits(prefix, 0, e.name);
      FitOne(n, value);
      FitAppend(0, Opening(prefix, e.name), [value]);
      if e.Render? {
        ClosingFits(n, n);
        FitAppend(0, Opening(prefix, e.name) + [value], Closing(n));
      }
    } else if depth == 1 && IsEnd(e) {
      ClosingFits(n, n);
      FitAppend(n + 1, [e], Closing(n));
    }
  }

  lemma {:induction false} WrittenAllFits(prefix: seq<string>, depth: nat, es: seq<Event>)
    requires EndsFit(depth, es)
    ensures EndsFit(Outer(depth, prefix), WrittenAll(prefix, depth, es))
    decreases |es|
  {
    if es != [] {
      var d := DepthAfter(depth, es[0]);
      WrittenFits(prefix, depth, es[0]);
      WrittenAllFits(prefix, d, es[1..]);
      FitAppend(Outer(depth, prefix), Written(prefix, depth, es[0]), WrittenAll(prefix, d, es[1..]));
    }
  }

  // ----- The pipeline -----

  /** What reaches the weaver. */
  function Prefixed(info: RequestInfo, es: seq<Event>): seq<Event> {
    if HasPrefix(info) then WrittenAll(PartsOf(info.bodyFieldPath), 0, es) else es
  }

  /** The weaver can take those events, so that it is never asked to pop an empty stack. */
  ghost predicate WeaverTakes(info: RequestInfo, lib: Library, es: seq<Event>) {
    HavePaths(info.bindings) && CanRun(Start(BindAll(info.bindings)), Prefixed(info, es), CheckOf(info, lib))
  }

  /** What may be written to a message: anything, if there is no weaver. */
  ghost predicate IsInput(info: RequestInfo, lib: Library, es: seq<Event>) {
    HavePaths(info.bindings) && (info.bindings != [] ==> WeaverTakes(info, lib, es))
  }

  lemma WeaverTakesAll(info: RequestInfo, lib: Library, es: seq<Event>)
    requires HavePaths(info.bindings) && EndsFit(0, es)
    ensures WeaverTakes(info, lib, es)
  {
    if HasPrefix(info) {
      WrittenAllFits(PartsOf(info.bodyFieldPath), 0, es);
    }
    WeaverCanRun(Start(BindAll(info.bindings)), Prefixed(info, es), CheckOf(info, lib));
  }

  lemma FittingIsInput(info: RequestInfo, lib: Library, es: seq<Event>, e: Event)
    requires HavePaths(info.bindings) && EndsFit(0, es) && (IsEnd(e) ==> DepthAfterAll(0, es) > 0)
    ensures EndsFit(0, es + [e]) && IsInput(info, lib, es + [e])
  {
    FitOne(DepthAfterAll(0, es), e);
    FitAppend(0, es, [e]);
    WeaverTakesAll(info, lib, es + [e]);
  }

  /** The weaver after those events. */
  ghost function Weaver(info: RequestInfo, lib: Library, es: seq<Event>): Machine
    requires WeaverTakes(info, lib, es)
  {
    Run(Start(BindAll(info.bindings)), Prefixed(info, es), CheckOf(info, lib))
  }

  /** What reaches the proto writer. */
  ghost function Received(info: RequestInfo, lib: Library, es: seq<Event>): seq<Event>
    requires IsInput(info, lib, es)
  {
    if info.bindings == [] then Prefixed(info, es) else Weaver(info, lib, es).out
  }

  ghost predicate IsOk(info: RequestInfo, lib: Library, es: seq<Event>)
    requires IsInput(info, lib, es)
  {
    && lib.encode(info.enumsIgnoreCase, Received(info, lib, es)).ok
    && (info.bindings != [] ==> !Weaver(info, lib, es).failed)
  }

  /** What a user who looks at the status, and then for a message, gets after those events. */
  ghost function Translate(info: RequestInfo, lib: Library, withDelimiter: bool, es: seq<Event>): Outcome
    requires IsInput(info, lib, es)
  {
    if !IsOk(info, lib, es) then Failed
    else OutcomeOf(lib.encode(info.enumsIgnoreCase, Received(info, lib, es)), withDelimiter)
  }

  function OutcomeOf(encoding: Encoding, withDelimiter: bool): Outcome {
    if !encoding.ok then Failed
    else if !encoding.done then NotDone
    else Translated(if withDelimiter then Framing.Frame(encoding.bytes) else encoding.bytes)
  }

  lemma NothingWritten(info: RequestInfo, lib: Library)
    requires HavePaths(info.bindings)
    ensures WeaverTakes(info, lib, []) && Weaver(info, lib, []) == Start(BindAll(info.bindings))
    ensures Received(info, lib, []) == [] && lib.encode(info.enumsIgnoreCase, []) == Encoding(true, false, [])
  {
    assert Prefixed(info, []) == [];
  }

  // ----- One more event -----

  /** What one more event makes reach the weaver. */
  function PrefixedStep(info: RequestInfo, es: seq<Event>, e: Event): seq<Event> {
    if HasPrefix(info) then Written(PartsOf(info.bodyFieldPath), DepthAfterAll(0, es), e) else [e]
  }

  lemma PrefixedAppend(info: RequestInfo, es: seq<Event>, e: Event)
    ensures Prefixed(info, es + [e]) == Prefixed(info, es) + PrefixedStep(info, es, e)
    ensures DepthAfterAll(0, es + [e]) == DepthAfter(DepthAfterAll(0, es), e)
  {
    FitOne(DepthAfterAll(0, es), e);
    FitAppend(0, es, [e]);
    if HasPrefix(info) {
      var prefix, depth := PartsOf(info.bodyFieldPath), DepthAfterAll(0, es);
      WritesOne(prefix, depth, e);
      WritesAppend(prefix, 0, es, WrittenAll(prefix, 0, es), depth, [e], Written(prefix, depth, e),
                   DepthAfter(depth, e));
    }
  }

  lemma {:induction false} CanRunSplit(m: Machine, a: seq<Event>, b: seq<Event>, check: Check)
    requires CanRun(m, a + b, check)
    ensures CanRun(m, a, check) && CanRun(Run(m, a, check), b, check)
    ensures Run(m, a + b, check) == Run(Run(m, a, check), b, check)
    decreases |a|
  {
    if a == [] {
      assert a + b == b;
    } else {
      assert (a + b)[1..] == a[1..] + b;
      CanRunSplit(Step(m, a[0], check), a[1..], b, check);
    }
  }

  lemma WeaverAppend(info: RequestInfo, lib: Library, es: seq<Event>, e: Event)
    requires WeaverTakes(info, lib, es + [e])
    ensures WeaverTakes(info, lib, es)
    ensures CanRun(Weaver(info, lib, es), PrefixedStep(info, es, e), CheckOf(info, lib))
    ensures Weaver(info, lib, es + [e]) == Run(Weaver(info, lib, es), PrefixedStep(info, es, e), CheckOf(info, lib))
  {
    PrefixedAppend(info, es, e);
    CanRunSplit(Start(BindAll(info.bindings)), Prefixed(info, es), PrefixedStep(info, es, e), CheckOf(info, lib));
  }

  // ----- Without bindings the weaver makes no difference -----

  lemma {:induction false} NothingIsCopied(m: Machine, es: seq<Event>, check: Check)
    requires m.frames == [] && m.focus == NOTHING && CanRun(m, es, check)
    ensures Run(m, es, check).out == m.out + es && Run(m, es, check).failed == m.failed
    decreases |es|
  {
    if es != [] {
      var next := Step(m, es[0], check);
      assert next.out == m.out + [es[0]];
      NothingIsCopied(next, es[1..], check);
      Assoc(m.out, [es[0]], es[1..]);
    } else {
      assert m.out + [] == m.out;
    }
  }

  lemma WeaverIsOptional(info: RequestInfo, lib: Library, es: seq<Event>)
    requires WeaverTakes(info, lib, es)
    ensures Received(info, lib, es) == Weaver(info, lib, es).out
    ensures IsOk(info, lib, es) <==>
            lib.encode(info.enumsIgnoreCase, Received(info, lib, es)).ok && !Weaver(info, lib, es).failed
  {
    if info.bindings == [] {
      NothingIsCopied(Start(NOTHING), Prefixed(info, es), CheckOf(info, lib));
    }
  }

  // ----- What is checked makes no difference to what is written -----

  lemma {:induction false} OnlyStatusDepends(m: Machine, m': Machine, es: seq<Event>, check: Check, check': Check)
    requires m' == m.(failed := m'.failed) && CanRun(m, es, check)
    ensures CanRun(m', es, check')
    ensures Run(m', es, check') == Run(m, es, check).(failed := Run(m', es, check').failed)
    decreases |es|
  {
    if es != [] {
      OnlyStatusDepends(Step(m, es[0], check), Step(m', es[0], check'), es[1..], check, check');
    }
  }

  // ----- What the proto writer gets -----

  lemma {:induction false} NodeFits(level: nat, n: Node)
    ensures EndsFit(level, Serialize(n)) && DepthAfterAll(level, Serialize(n)) == level
    decreases n
  {
    match n
    case Leaf(name, value) =>
      FitOne(level, Render(name, value));
    case Object(name, kids) =>
      ContainerFits(level, StartObject(name), kids, EndObject);
    case List(name, kids) =>
      ContainerFits(level, StartList(name), kids, EndList);
  }

  lemma {:induction false} ContainerFits(level: nat, start: Event, kids: seq<Node>, end: Event)
    requires (start.StartObject? || start.StartList?) && IsEnd(end)
    ensures EndsFit(level, [start] + SerializeAll(kids) + [end])
    ensures DepthAfterAll(level, [start] + SerializeAll(kids) + [end]) == level
    decreases kids, 1
  {
    FitOne(level, start);
    NodesFit(level + 1, kids);
    FitOne(level + 1, end);
    FitAppend(level, [start], SerializeAll(kids));
    FitAppend(level, [start] + SerializeAll(kids), [end]);
  }

  lemma {:induction false} NodesFit(level: nat, ns: seq<Node>)
    ensures EndsFit(level, SerializeAll(ns)) && DepthAfterAll(level, SerializeAll(ns)) == level
    decreases ns, 0
  {
    if ns != [] {
      NodeFits(level, ns[0]);
      NodesFit(level, ns[1..]);
      FitAppend(level, Serialize(ns[0]), SerializeAll(ns[1..]));
    }
  }

  /** The body where the prefix puts it. */
  function Root(info: RequestInfo, body: Node): Node {
    if HasPrefix(info) then Wrap(PartsOf(info.bodyFieldPath), body) else body
  }

  lemma PrefixedIsRoot(info: RequestInfo, body: Node)
    ensures Prefixed(info, Serialize(body)) == Serialize(Root(info, body))
  {
    if HasPrefix(info) {
      RootIsWrapped(PartsOf(info.bodyFieldPath), body);
    }
  }

  /** The body goes into a field: its path has a part and is not "*". */
  predicate GoesInside(path: string) { path != "" && path != "*" && PartsOf(path) != [] }

  /** The whole of a message: the body under its prefix with the bindings woven in, and nothing of them left over. */
  lemma ReceivedIsWoven(info: RequestInfo, lib: Library, body: Node)
    requires HavePaths(info.bindings) && Root(info, body).Object?
    ensures EndsFit(0, Serialize(body)) && WeaverTakes(info, lib, Serialize(body))
    ensures var w := WeaveBody(BindAll(info.bindings), Root(info, body).name, Root(info, body).kids);
            && Received(info, lib, Serialize(body)) == SerializeAll(RenderAll(w.woven))
            && Weaver(info, lib, Serialize(body)).focus == NOTHING
            && (Weaver(info, lib, Serialize(body)).failed <==> info.rejectCollisions && Collide(w.drops, lib))
  {
    var root := Root(info, body);
    NodeFits(0, body);
    WeaverTakesAll(info, lib, Serialize(body));
    PrefixedIsRoot(info, body);
    WeaverIsOptional(info, lib, Serialize(body));
    BodyRuns(BindAll(info.bindings), root.name, root.kids, CheckOf(info, lib));
    ConflictsOf(WeaveAll(BindAll(info.bindings), root.kids, []).drops, info, lib);
  }

  /** A bound value is given up for a body scalar that conflicts with it. */
  ghost predicate Collide(ds: seq<Drop>, lib: Library) {
    exists k :: 0 <= k < |ds| && !ds[k].bound.field.repeated
                && lib.conflicts(ds[k].bound.field.name, ds[k].body, ds[k].bound.value)
  }

  lemma ConflictsOf(ds: seq<Drop>, info: RequestInfo, lib: Library)
    ensures Conflicting(ds, CheckOf(info, lib)) <==> info.rejectCollisions && Collide(ds, lib)
  {
    assert forall k :: 0 <= k < |ds| ==>
        (IsConflict(ds[k].bound, ds[k].body, CheckOf(info, lib)) <==>
         info.rejectCollisions && !ds[k].bound.field.repeated
         && lib.conflicts(ds[k].bound.field.name, ds[k].body, ds[k].bound.value));
  }

  ghost predicate HaveNames(bs: seq<BindingInfo>) {
    HavePaths(bs) && forall i :: 0 <= i < |bs| ==> bs[i].fieldPath[0].name != ""
  }

  lemma {:induction false} BoundHaveNames(bs: seq<BindingInfo>)
    requires HaveNames(bs)
    ensures HasNames(BindAll(bs)) && (BindAll(bs) == NOTHING <==> bs == [])
  {
    if bs != [] {
      BoundHaveNames(bs[..|bs| - 1]);
    }
  }

  /** Every binding of a message is woven or given up for a body scalar iff the body is an object, or its field path
      has a part and is not "*", or there is no binding. Otherwise all of them are lost. */
  lemma NothingIsLostIff(info: RequestInfo, lib: Library, body: Node)
    requires HaveNames(info.bindings) && body.name == "" && (body.List? ==> AreElements(body.kids))
    ensures EndsFit(0, Serialize(body)) && WeaverTakes(info, lib, Serialize(body))
    ensures Weaver(info, lib, Serialize(body)).focus == NOTHING <==>
            body.Object? || GoesInside(info.bodyFieldPath) || info.bindings == []
    ensures !body.Object? && !GoesInside(info.bodyFieldPath) ==> Received(info, lib, Serialize(body)) == Serialize(body)
  {
    BoundHaveNames(info.bindings);
    NodeFits(0, body);
    WeaverTakesAll(info, lib, Serialize(body));
    if body.Object? || GoesInside(info.bodyFieldPath) {
      ReceivedIsWoven(info, lib, body);
    } else {
      assert Root(info, body) == body;
      PrefixedIsRoot(info, body);
      var _ := WeavesIffObject(BindAll(info.bindings), body, CheckOf(info, lib));
    }
  }
}
