/** Where the weaver stands at every point of a run, and what it does with bodies that are no objects. */
module WeaverPosition {
  import opened Sequences
  import opened Events
  import opened Weaving
  import opened WeaverMachine

  // ----- At every point of a run -----

  /** Root values are objects, and every end matches its start. */
  predicate CanFollowObject(open: seq<bool>, e: Event) {
    CanFollow(open, e) && (open == [] ==> e.StartObject?)
  }

  /** The containers open after events that may all follow one another. */
  function OpenAfterAll(open: seq<bool>, es: seq<Event>): (r: seq<bool>)
    requires AllCanFollow(open, es)
    decreases |es|
  {
    if es == [] then open else OpenAfterAll(OpenAfter(open, es[0]), es[1..])
  }

  predicate AllCanFollow(open: seq<bool>, es: seq<Event>)
    decreases |es|
  {
    es == [] || (CanFollow(open, es[0]) && AllCanFollow(OpenAfter(open, es[0]), es[1..]))
  }

  /** The stack and the depth counter account for the open containers, the stack for the outermost ones, all objects;
      and what has come out has the same containers open. */
  ghost predicate IsPositioned(m: Machine, open: seq<bool>) {
    && m.depth >= 0
    && (if m.active then |m.frames| + 1 + m.depth == |open| else open == [] && m.frames == [] && m.depth == 0)
    && (forall k :: 0 <= k <= |m.frames| && k < |open| ==> open[k])
    && AllCanFollow([], m.out) && OpenAfterAll([], m.out) == open
  }

  lemma {:induction false} OpenAppend(open: seq<bool>, a: seq<Event>, b: seq<Event>)
    requires AllCanFollow(open, a) && AllCanFollow(OpenAfterAll(open, a), b)
    ensures AllCanFollow(open, a + b) && OpenAfterAll(open, a + b) == OpenAfterAll(OpenAfterAll(open, a), b)
    decreases |a|
  {
    if a == [] {
      assert a + b == b;
    } else {
      assert (a + b)[1..] == a[1..] + b;
      OpenAppend(OpenAfter(open, a[0]), a[1..], b);
    }
  }

  lemma OpenOne(open: seq<bool>, e: Event)
    requires CanFollow(open, e)
    ensures AllCanFollow(open, [e]) && OpenAfterAll(open, [e]) == OpenAfter(open, e)
  {
    assert [e][1..] == [];
    assert OpenAfterAll(OpenAfter(open, e), []) == OpenAfter(open, e);
  }

  lemma {:induction false} NodeIsBalanced(open: seq<bool>, n: Node)
    ensures AllCanFollow(open, Serialize(n)) && OpenAfterAll(open, Serialize(n)) == open
    decreases n
  {
    match n
    case Leaf(name, value) =>
      OpenOne(open, Serialize(n)[0]);
    case Object(name, kids) =>
      ContainerIsBalanced(open, StartObject(name), kids, EndObject);
    case List(name, kids) =>
      ContainerIsBalanced(open, StartList(name), kids, EndList);
  }

  lemma {:induction false} ContainerIsBalanced(open: seq<bool>, start: Event, kids: seq<Node>, end: Event)
    requires (start.StartObject? && end == EndObject) || (start.StartList? && end == EndList)
    ensures AllCanFollow(open, [start] + SerializeAll(kids) + [end])
    ensures OpenAfterAll(open, [start] + SerializeAll(kids) + [end]) == open
    decreases kids, 1
  {
    var inside := OpenAfter(open, start);
    OpenOne(open, start);
    NodesAreBalanced(inside, kids);
    OpenOne(inside, end);
    OpenAppend(open, [start], SerializeAll(kids));
    OpenAppend(open, [start] + SerializeAll(kids), [end]);
    assert inside[..|open|] == open;
  }

  lemma {:induction false} NodesAreBalanced(open: seq<bool>, ns: seq<Node>)
    ensures AllCanFollow(open, SerializeAll(ns)) && OpenAfterAll(open, SerializeAll(ns)) == open
    decreases ns, 0
  {
    if ns != [] {
      NodeIsBalanced(open, ns[0]);
      NodesAreBalanced(open, ns[1..]);
      OpenAppend(open, Serialize(ns[0]), SerializeAll(ns[1..]));
    }
  }

  /** Every event that may come next can be taken and keeps the position. */
  lemma StepKeepsPosition(m: Machine, open: seq<bool>, e: Event, check: Check)
    requires IsPositioned(m, open) && CanFollowObject(open, e)
    ensures CanStep(m, e) && IsPositioned(Step(m, e, check), OpenAfter(open, e))
  {
    OpenOne(open, e);
    if e.EndObject? && m.depth == 0 {
      var rest := SerializeAll(Remainder(m.focus));
      NodesAreBalanced(open, Remainder(m.focus));
      OpenAppend([], m.out, rest);
      OpenAppend([], m.out + rest, [e]);
    } else if e.Render? && m.depth == 0 && m.active && e.value != Null {
      var added := LeavesOf(Repeated(WithName(m.focus.bindings, e.name)));
      NodesAreBalanced(open, added);
      OpenAppend([], m.out, SerializeAll(added));
      OpenAppend([], m.out + SerializeAll(added), [e]);
    } else {
      OpenAppend([], m.out, [e]);
    }
  }

  predicate AllCanFollowObject(open: seq<bool>, es: seq<Event>)
    decreases |es|
  {
    es == [] || (CanFollowObject(open, es[0]) && AllCanFollowObject(OpenAfter(open, es[0]), es[1..]))
  }

  /** So every run over nested events with objects outermost goes through, and at every point of it the machine is in
      position. */
  lemma {:induction false} RunKeepsPosition(m: Machine, open: seq<bool>, es: seq<Event>, check: Check)
    requires IsPositioned(m, open) && AllCanFollowObject(open, es)
    ensures AllCanFollow(open, es) && CanRun(m, es, check)
    ensures IsPositioned(Run(m, es, check), OpenAfterAll(open, es))
    decreases |es|
  {
    if es != [] {
      StepKeepsPosition(m, open, es[0], check);
      RunKeepsPosition(Step(m, es[0], check), OpenAfter(open, es[0]), es[1..], check);
    }
  }

  // ----- Bodies that are no objects -----

  /** Elements of a list have no names. */
  ghost predicate AreElements(ns: seq<Node>) {
    forall i :: 0 <= i < |ns| ==> ns[i].name == ""
  }

  ghost predicate HasNames(info: Info) {
    && (forall i :: 0 <= i < |info.messages| ==> info.messages[i].field.name != "")
    && (forall i :: 0 <= i < |info.bindings| ==> info.bindings[i].field.name != "")
  }

  lemma {:induction false} NoHit(bs: seq<Bound>, name: string)
    requires forall i :: 0 <= i < |bs| ==> bs[i].field.name != name
    ensures WithName(bs, name) == [] && WithoutName(bs, name) == bs
  {
    if bs != [] {
      NoHit(bs[1..], name);
    }
  }

  /** Between the elements of a list, level lists deep, with no object around: the root has not been pushed, or it has
      been pushed by an element and the depth is one less than the lists that are open. */
  ghost predicate BetweenElements(m: Machine, level: nat) {
    m.frames == [] && m.depth == (if m.active then level - 1 else level)
  }

  lemma {:induction false} ElementRuns(m: Machine, n: Node, level: nat, check: Check) returns (r: Machine)
    requires level > 0 && BetweenElements(m, level) && HasNames(m.focus) && (level == 1 ==> n.name == "")
    ensures Yields(m, Serialize(n), check, r) && BetweenElements(r, level)
    ensures r.focus == m.focus && r.out == m.out + Serialize(n) && r.failed == m.failed
    decreases n
  {
    match n
    case Leaf(name, value) =>
      var e := Events.Render(name, value);
      YieldsOne(m, e, check);
      if level == 1 {
        NoHit(m.focus.bindings, "");
      }
      r := Step(m, e, check);
      assert m.out + [] == m.out;
    case Object(name, kids) =>
      var inside := Step(m, StartObject(name), check);
      YieldsOne(m, StartObject(name), check);
      CopyAll(inside, kids, check);
      r := CloseContainer(m, StartObject(name), inside, kids, Emit(inside, SerializeAll(kids)), EndObject, check);
    case List(name, kids) =>
      var inside := Step(m, StartList(name), check);
      YieldsOne(m, StartList(name), check);
      var last := ElementsRun(inside, kids, level + 1, check);
      r := CloseContainer(m, StartList(name), inside, kids, last, EndList, check);
  }

  lemma CloseContainer(m: Machine, start: Event, inside: Machine, kids: seq<Node>, last: Machine, end: Event,
                       check: Check)
    returns (r: Machine)
    requires Yields(m, [start], check, inside) && Yields(inside, SerializeAll(kids), check, last)
    requires inside.out == m.out + [start] && last.out == inside.out + SerializeAll(kids)
    requires end == EndList || (end == EndObject && last.depth > 0)
    ensures Yields(m, [start] + SerializeAll(kids) + [end], check, r)
    ensures r == last.(depth := last.depth - 1, out := m.out + ([start] + SerializeAll(kids) + [end]))
  {
    YieldsOne(last, end, check);
    r := Step(last, end, check);
    YieldsAppend(m, [start], inside, SerializeAll(kids), last, check);
    YieldsAppend(m, [start] + SerializeAll(kids), last, [end], r, check);
    Assoc(m.out, [start], SerializeAll(kids));
    Assoc(m.out, [start] + SerializeAll(kids), [end]);
  }

  lemma {:induction false} ElementsRun(m: Machine, ns: seq<Node>, level: nat, check: Check) returns (r: Machine)
    requires level > 0 && BetweenElements(m, level) && HasNames(m.focus) && (level == 1 ==> AreElements(ns))
    ensures Yields(m, SerializeAll(ns), check, r) && BetweenElements(r, level)
    ensures r.focus == m.focus && r.out == m.out + SerializeAll(ns) && r.failed == m.failed
    decreases ns
  {
    if ns == [] {
      r := m;
      assert m.out + [] == m.out;
    } else {
      var mid := ElementRuns(m, ns[0], level, check);
      r := ElementsRun(mid, ns[1..], level, check);
      YieldsAppend(m, Serialize(ns[0]), mid, SerializeAll(ns[1..]), r, check);
      Assoc(m.out, Serialize(ns[0]), SerializeAll(ns[1..]));
    }
  }

  /** A complete body with no name of its own leaves nothing to weave iff it is an object or there was nothing to
      weave: a list or a scalar is copied and the bindings are lost. */
  lemma WeavesIffObject(info: Info, body: Node, check: Check) returns (r: Machine)
    requires HasNames(info) && body.name == "" && (body.List? ==> AreElements(body.kids))
    ensures Yields(Start(info), Serialize(body), check, r)
    ensures r.focus == NOTHING <==> body.Object? || info == NOTHING
    ensures !body.Object? ==> r.focus == info && r.out == Serialize(body)
  {
    match body
    case Object(name, kids) =>
      BodyRuns(info, name, kids, check);
      r := Run(Start(info), Serialize(body), check);
    case Leaf(name, value) =>
      YieldsOne(Start(info), Events.Render(name, value), check);
      r := Step(Start(info), Events.Render(name, value), check);
    case List(name, kids) =>
      var inside := Step(Start(info), StartList(name), check);
      YieldsOne(Start(info), StartList(name), check);
      var last := ElementsRun(inside, kids, 1, check);
      r := CloseContainer(Start(info), StartList(name), inside, kids, last, EndList, check);
  }
}
