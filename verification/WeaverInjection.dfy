/** What the weaver writes is what it is given, with whole nodes added in between. */
module WeaverInjection {
  import opened Sequences
  import opened Events
  import opened Weaving
  import opened WeaverMachine

  /** What is added before that event is passed on. */
  function AddedBy(m: Machine, e: Event): seq<Node> {
    match e
    case EndObject => if m.depth > 0 then [] else Remainder(m.focus)
    case Render(name, value) =>
      if m.depth == 0 && m.active && value != Null then LeavesOf(Repeated(WithName(m.focus.bindings, name))) else []
    case _ => []
  }

  /** For each event of a run, what is added before it. */
  function AddedIn(m: Machine, es: seq<Event>, check: Check): (added: seq<seq<Node>>)
    requires CanRun(m, es, check)
    ensures |added| == |es|
    decreases |es|
  {
    if es == [] then [] else [AddedBy(m, es[0])] + AddedIn(Step(m, es[0], check), es[1..], check)
  }

  lemma {:induction false} RepeatedWithName(bs: seq<Bound>, name: string)
    ensures forall b :: b in Repeated(WithName(bs, name)) ==> b in bs && b.field.name == name && b.field.repeated
  {
    if bs != [] {
      RepeatedWithName(bs[1..], name);
    }
  }

  /** Nodes are added only at the end of an object and before a scalar other than null. In front of a scalar stand only
      strings bound to repeated fields of its name. */
  lemma WhereNodesAreAdded(m: Machine, e: Event, n: Node)
    requires n in AddedBy(m, e)
    ensures e != EndObject ==>
              && e.Render? && e.value != Null
              && exists b :: b in m.focus.bindings && b.field == Field(e.name, true) && n == LeafOf(b)
  {
    if e.Render? {
      RepeatedWithName(m.focus.bindings, e.name);
    }
  }

  // ----- Every run -----

  function Interleave(added: seq<seq<Node>>, es: seq<Event>): seq<Event>
    requires |added| == |es|
    decreases |es|
  {
    if es == [] then [] else SerializeAll(added[0]) + ([es[0]] + Interleave(added[1..], es[1..]))
  }

  /** Deletes the events of the added nodes. */
  function Deleted(added: seq<seq<Node>>, out: seq<Event>): seq<Event>
    decreases |added|
  {
    if added == [] then out
    else
      var n := |SerializeAll(added[0])|;
      if n < |out| then [out[n]] + Deleted(added[1..], out[n + 1..]) else []
  }

  /** At every point of every run, balanced or not, the weaver has written each event it was given, in order, with the
      events of whole nodes before it and nothing else. */
  lemma {:induction false} RunInjects(m: Machine, es: seq<Event>, check: Check)
    requires CanRun(m, es, check)
    ensures Run(m, es, check).out == m.out + Interleave(AddedIn(m, es, check), es)
    decreases |es|
  {
    if es == [] {
      Nothing(m.out);
    } else {
      var next, added := Step(m, es[0], check), AddedIn(m, es, check);
      StepInjects(m, es[0], check);
      RunInjects(next, es[1..], check);
      assert added[0] == AddedBy(m, es[0]) && added[1..] == AddedIn(next, es[1..], check);
      var rest := Interleave(added[1..], es[1..]);
      Assoc(m.out + SerializeAll(added[0]), [es[0]], rest);
      Assoc(m.out, SerializeAll(added[0]), [es[0]] + rest);
    }
  }

  lemma StepInjects(m: Machine, e: Event, check: Check)
    requires CanStep(m, e)
    ensures Step(m, e, check).out == m.out + SerializeAll(AddedBy(m, e)) + [e]
  {
    Nothing(m.out);
  }

  lemma {:induction false} DeletingUndoesAdding(added: seq<seq<Node>>, es: seq<Event>)
    requires |added| == |es|
    ensures Deleted(added, Interleave(added, es)) == es
    decreases |es|
  {
    if es != [] {
      var out, n, rest := Interleave(added, es), |SerializeAll(added[0])|, Interleave(added[1..], es[1..]);
      DeletingUndoesAdding(added[1..], es[1..]);
      assert out[n] == es[0] && out[n + 1..] == rest;
    }
  }

  /** So deleting what was added gives back the events so far. */
  lemma InputIsKept(info: Info, es: seq<Event>, check: Check)
    requires CanRun(Start(info), es, check)
    ensures Deleted(AddedIn(Start(info), es, check), Run(Start(info), es, check).out) == es
  {
    RunInjects(Start(info), es, check);
    Nothing(Interleave(AddedIn(Start(info), es, check), es));
    DeletingUndoesAdding(AddedIn(Start(info), es, check), es);
  }

  // ----- Complete bodies -----

  /** The nodes added to a woven body, in order. */
  function AddedOf(ws: seq<Woven>): seq<Node> {
    if ws == [] then [] else AddedOfPiece(ws[0]) + AddedOf(ws[1..])
  }

  function AddedOfPiece(w: Woven): seq<Node> {
    match w
    case Kept(_) => []
    case Mixed(_, kids) => AddedOf(kids)
    case Added(n) => [n]
  }

  lemma {:induction false} AddedOfAppend(a: seq<Woven>, b: seq<Woven>)
    ensures AddedOf(a + b) == AddedOf(a) + AddedOf(b)
    decreases |a|
  {
    if a == [] {
      assert a + b == b;
    } else {
      AddedOfAppend(a[1..], b);
      assert (a + b)[1..] == a[1..] + b;
      Assoc(AddedOfPiece(a[0]), AddedOf(a[1..]), AddedOf(b));
    }
  }

  lemma {:induction false} AddedOfAdded(ns: seq<Node>)
    ensures AddedOf(AddedAll(ns)) == ns
  {
    if ns != [] {
      AddedOfAdded(ns[1..]);
      assert AddedAll(ns)[1..] == AddedAll(ns[1..]);
    }
  }

  lemma AddedOfOne(w: Woven)
    ensures AddedOf([w]) == AddedOfPiece(w)
  {
    assert [w][1..] == [];
  }

  /** From m to r over es, exactly those nodes are added. */
  ghost predicate Adds(m: Machine, es: seq<Event>, check: Check, r: Machine, ns: seq<Node>) {
    Yields(m, es, check, r) && Concat(AddedIn(m, es, check)) == ns
  }

  lemma {:induction false} AddedInAppend(m: Machine, a: seq<Event>, b: seq<Event>, check: Check)
    requires CanRun(m, a, check) && CanRun(Run(m, a, check), b, check)
    ensures CanRun(m, a + b, check)
    ensures AddedIn(m, a + b, check) == AddedIn(m, a, check) + AddedIn(Run(m, a, check), b, check)
    decreases |a|
  {
    if a == [] {
      assert a + b == b;
    } else {
      AddedInAppend(Step(m, a[0], check), a[1..], b, check);
      RunAppend(m, a, b, check);
      assert (a + b)[1..] == a[1..] + b;
    }
  }

  lemma {:induction false} ConcatBoth<T>(a: seq<seq<T>>, b: seq<seq<T>>)
    ensures Concat(a + b) == Concat(a) + Concat(b)
    decreases |a|
  {
    if a == [] {
      assert a + b == b;
    } else {
      ConcatBoth(a[1..], b);
      assert (a + b)[1..] == a[1..] + b;
      Assoc(a[0], Concat(a[1..]), Concat(b));
    }
  }

  lemma AddsAppend(m: Machine, a: seq<Event>, mid: Machine, x: seq<Node>, b: seq<Event>, r: Machine, y: seq<Node>,
                   check: Check)
    requires Adds(m, a, check, mid, x) && Adds(mid, b, check, r, y)
    ensures Adds(m, a + b, check, r, x + y)
  {
    YieldsAppend(m, a, mid, b, r, check);
    AddedInAppend(m, a, b, check);
    ConcatBoth(AddedIn(m, a, check), AddedIn(mid, b, check));
  }

  lemma AddsOne(m: Machine, e: Event, check: Check)
    requires CanStep(m, e)
    ensures Adds(m, [e], check, Step(m, e, check), AddedBy(m, e))
  {
    YieldsOne(m, e, check);
    assert [e][1..] == [] && [AddedBy(m, e)][1..] == [];
    assert AddedIn(m, [e], check) == [AddedBy(m, e)] + AddedIn(Step(m, e, check), [], check);
    Nothing(AddedBy(m, e));
  }

  /** Whatever is copied in full has nothing added. */
  lemma NothingAdded(m: Machine, es: seq<Event>, check: Check)
    requires Yields(m, es, check, Emit(m, es))
    ensures Adds(m, es, check, Emit(m, es), [])
  {
    RunInjects(m, es, check);
    var added := AddedIn(m, es, check);
    assert Interleave(added, es) == es by {
      assert (m.out + Interleave(added, es))[|m.out|..] == (m.out + es)[|m.out|..];
    }
    NoRoom(added, es);
  }

  lemma {:induction false} NodesTakeRoom(ns: seq<Node>)
    ensures |SerializeAll(ns)| >= |ns|
  {
    if ns != [] {
      NodesTakeRoom(ns[1..]);
    }
  }

  lemma {:induction false} NoRoom(added: seq<seq<Node>>, es: seq<Event>)
    requires |added| == |es|
    ensures |Interleave(added, es)| >= |es|
    ensures |Interleave(added, es)| == |es| ==> Concat(added) == []
    decreases |es|
  {
    if es != [] {
      NodesTakeRoom(added[0]);
      NoRoom(added[1..], es[1..]);
    }
  }

  lemma LeafAdds(m: Machine, name: string, value: Scalar, at: seq<string>, check: Check)
    requires m.active && m.depth == 0
    ensures var n := Leaf(name, value);
            var w := WeaveOne(m.focus, n, at);
            Adds(m, Serialize(n), check, After(m, w, check), AddedOf(w.woven))
  {
    var e, kept := Events.Render(name, value), Kept(Leaf(name, value));
    WeaveLeaf(m, name, value, at, check);
    AddsOne(m, e, check);
    AddedOfOne(kept);
    if value != Null {
      var added := AddedBy(m, e);
      AddedOfAppend(AddedAll(added), [kept]);
      AddedOfAdded(added);
      Nothing(added);
    }
  }

  lemma ContainerAdds(m: Machine, n: Node, start: Event, end: Event, check: Check)
    requires m.active && m.depth == 0 && !n.Leaf?
    requires || (n.Object? && start == StartObject(n.name) && end == EndObject)
             || (n.List? && start == StartList(n.name) && end == EndList)
    requires n.List? || FindMessage(m.focus.messages, n.name) == |m.focus.messages|
    ensures Adds(m, Serialize(n), check, Emit(m, Serialize(n)), [])
  {
    CopyContainer(m, start, n.kids, end, check);
    NothingAdded(m, Serialize(n), check);
  }

  lemma {:induction false} OneAdds(m: Machine, n: Node, at: seq<string>, check: Check)
    requires m.active && m.depth == 0
    ensures var w := WeaveOne(m.focus, n, at);
            Adds(m, Serialize(n), check, After(m, w, check), AddedOf(w.woven))
    decreases n
  {
    AddedOfOne(Kept(n));
    WeaveOneRuns(m, n, at, check);
    match n
    case Leaf(name, value) =>
      LeafAdds(m, name, value, at, check);
    case List(name, kids) =>
      ContainerAdds(m, n, StartList(name), EndList, check);
    case Object(name, kids) =>
      if FindMessage(m.focus.messages, name) == |m.focus.messages| {
        ContainerAdds(m, n, StartObject(name), EndObject, check);
      } else {
        MatchedAdds(m, name, kids, at, check);
      }
  }

  lemma {:induction false} MatchedAdds(m: Machine, name: string, kids: seq<Node>, at: seq<string>, check: Check)
    requires m.active && m.depth == 0 && FindMessage(m.focus.messages, name) < |m.focus.messages|
    ensures var w := WeaveOne(m.focus, Object(name, kids), at);
            Adds(m, [StartObject(name)] + SerializeAll(kids) + [EndObject], check, After(m, w, check), AddedOf(w.woven))
    decreases kids, 1
  {
    var inside := Step(m, StartObject(name), check);
    var w := WeaveAll(inside.focus, kids, at + [name]);
    WeaveMatched(m, name, kids, at, check);
    AllAdd(inside, kids, at + [name], check);
    ObjectAdds(m, name, kids, inside, w, check);
  }

  /** Going into an object and out of it again. */
  lemma ObjectAdds(m: Machine, name: string, kids: seq<Node>, inside: Machine, w: Weave, check: Check)
    requires inside == Step(m, StartObject(name), check) && inside.active && inside.depth == 0
    requires Adds(inside, SerializeAll(kids), check, After(inside, w, check), AddedOf(w.woven))
    ensures Adds(m, [StartObject(name)] + SerializeAll(kids) + [EndObject], check,
                 Step(After(inside, w, check), EndObject, check),
                 AddedOf([Mixed(name, w.woven + AddedAll(Remainder(w.left)))]))
  {
    var last, added := After(inside, w, check), Remainder(w.left);
    AddsOne(m, StartObject(name), check);
    AddsAppend(m, [StartObject(name)], inside, [], SerializeAll(kids), last, AddedOf(w.woven), check);
    AddsOne(last, EndObject, check);
    AddsAppend(m, [StartObject(name)] + SerializeAll(kids), last, [] + AddedOf(w.woven), [EndObject],
               Step(last, EndObject, check), added, check);
    Nothing(AddedOf(w.woven));
    AddedOfOne(Mixed(name, w.woven + AddedAll(added)));
    AddedOfAppend(w.woven, AddedAll(added));
    AddedOfAdded(added);
  }

  lemma {:induction false} AllAdd(m: Machine, ns: seq<Node>, at: seq<string>, check: Check)
    requires m.active && m.depth == 0
    ensures var w := WeaveAll(m.focus, ns, at);
            Adds(m, SerializeAll(ns), check, After(m, w, check), AddedOf(w.woven))
    decreases ns, 0
  {
    WeaveAllRuns(m, ns, at, check);
    if ns != [] {
      var first := WeaveOne(m.focus, ns[0], at);
      var rest := WeaveAll(first.left, ns[1..], at);
      var mid := After(m, first, check);
      OneAdds(m, ns[0], at, check);
      AllAdd(mid, ns[1..], at, check);
      AddsAppend(m, Serialize(ns[0]), mid, AddedOf(first.woven), SerializeAll(ns[1..]), After(mid, rest, check),
                 AddedOf(rest.woven), check);
      AddedOfAppend(first.woven, rest.woven);
    }
  }

  /** Over a complete body object what is added to the events are the added nodes of the woven body, in order, and
      deleting them from its events gives those of what is left without them. */
  lemma BodyInjects(info: Info, name: string, kids: seq<Node>, check: Check)
    ensures CanRun(Start(info), Serialize(Object(name, kids)), check)
    ensures var w, added := WeaveBody(info, name, kids), AddedIn(Start(info), Serialize(Object(name, kids)), check);
            && Concat(added) == AddedOf(w.woven)
            && Deleted(added, SerializeAll(RenderAll(w.woven))) == SerializeAll(Strip(w.woven))
  {
    var m, n := Start(info), Object(name, kids);
    var inside := Step(m, StartObject(name), check);
    AllAdd(inside, kids, [], check);
    ObjectAdds(m, name, kids, inside, WeaveAll(info, kids, []), check);
    BodyRuns(info, name, kids, check);
    InputIsKept(info, Serialize(n), check);
    BodyIsKept(info, name, kids);
    SerializeOne(n);
  }
}
