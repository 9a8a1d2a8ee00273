/** The weaver as a machine over events. Its stack of tree nodes is seen as the node on top, the focus, and for each
    node below it a frame: everything of that node but the message the stack continues with. */
module WeaverMachine {
  import opened Sequences
  import opened Events
  import opened Weaving

  datatype Frame = Frame(before: seq<Message>, field: Field, after: seq<Message>, bindings: seq<Bound>)

  /** active iff the stack is not empty; while it is empty the focus is the root. */
  datatype Machine = Machine(active: bool, frames: seq<Frame>, focus: Info, depth: int, out: seq<Event>, failed: bool)

  /** Whether collisions are reported, and which values of a field collide. */
  datatype Check = Check(report: bool, conflicts: (string, Scalar, string) -> bool)

  function Start(info: Info): Machine { Machine(false, [], info, 0, [], false) }

  // ----- Steps -----

  /** The end of an object outside any list or unmatched object needs a node on the stack. */
  predicate CanStep(m: Machine, e: Event) {
    e.EndObject? && m.depth <= 0 ==> m.active
  }

  function Step(m: Machine, e: Event, check: Check): Machine
    requires CanStep(m, e)
  {
    match e
    case StartObject(name) => Enter(m, name).(out := m.out + [e])
    case EndObject =>
      if m.depth > 0 then m.(depth := m.depth - 1, out := m.out + [e])
      else Leave(m).(out := m.out + SerializeAll(Remainder(m.focus)) + [e])
    case StartList(_) => m.(depth := m.depth + 1, out := m.out + [e])
    case EndList => m.(depth := m.depth - 1, out := m.out + [e])
    case Render(name, value) =>
      if m.depth == 0 && m.active && value != Null then
        var hit := WithName(m.focus.bindings, name);
        m.(focus := m.focus.(bindings := WithoutName(m.focus.bindings, name)),
           out := m.out + SerializeAll(LeavesOf(Repeated(hit))) + [e],
           failed := m.failed || AnyConflict(hit, value, check))
      else m.(out := m.out + [e])
  }

  function Enter(m: Machine, name: string): Machine {
    if !m.active then m.(active := true)
    else
      var ms := m.focus.messages;
      var i := FindMessage(ms, name);
      if m.depth == 0 && i < |ms| then
        m.(frames := m.frames + [Frame(ms[..i], ms[i].field, ms[i + 1..], m.focus.bindings)], focus := ms[i].info)
      else m.(depth := m.depth + 1)
  }

  /** Pops a node that nothing is left in. */
  function Leave(m: Machine): Machine {
    if m.frames == [] then m.(active := false, focus := NOTHING)
    else
      var n := |m.frames| - 1;
      m.(frames := m.frames[..n], focus := Plug(m.frames[n], NOTHING))
  }

  function Plug(f: Frame, info: Info): Info {
    Info(f.before + [Message(f.field, info)] + f.after, f.bindings)
  }

  predicate IsConflict(b: Bound, value: Scalar, check: Check) {
    check.report && !b.field.repeated && check.conflicts(b.field.name, value, b.value)
  }

  predicate AnyConflict(hit: seq<Bound>, value: Scalar, check: Check) {
    exists i :: 0 <= i < |hit| && IsConflict(hit[i], value, check)
  }

  function Run(m: Machine, es: seq<Event>, check: Check): (r: Machine)
    requires CanRun(m, es, check)
    decreases |es|
  {
    if es == [] then m else Run(Step(m, es[0], check), es[1..], check)
  }

  predicate CanRun(m: Machine, es: seq<Event>, check: Check)
    decreases |es|
  {
    es == [] || (CanStep(m, es[0]) && CanRun(Step(m, es[0], check), es[1..], check))
  }

  lemma {:induction false} RunAppend(m: Machine, a: seq<Event>, b: seq<Event>, check: Check)
    requires CanRun(m, a, check) && CanRun(Run(m, a, check), b, check)
    ensures CanRun(m, a + b, check) && Run(m, a + b, check) == Run(Run(m, a, check), b, check)
    decreases |a|
  {
    if a == [] {
      assert a + b == b;
    } else {
      assert (a + b)[1..] == a[1..] + b;
      RunAppend(Step(m, a[0], check), a[1..], b, check);
    }
  }

  // ----- Running over values -----

  ghost predicate Yields(m: Machine, es: seq<Event>, check: Check, r: Machine) {
    CanRun(m, es, check) && Run(m, es, check) == r
  }

  lemma YieldsAppend(m: Machine, a: seq<Event>, mid: Machine, b: seq<Event>, r: Machine, check: Check)
    requires Yields(m, a, check, mid) && Yields(mid, b, check, r)
    ensures Yields(m, a + b, check, r)
  {
    RunAppend(m, a, b, check);
  }

  lemma YieldsOne(m: Machine, e: Event, check: Check)
    requires CanStep(m, e)
    ensures Yields(m, [e], check, Step(m, e, check))
  {
    assert [e][1..] == [];
    assert CanRun(Step(m, e, check), [], check);
  }

  function Emit(m: Machine, es: seq<Event>): Machine { m.(out := m.out + es) }

  lemma EmitEmit(m: Machine, a: seq<Event>, b: seq<Event>)
    ensures Emit(Emit(m, a), b) == Emit(m, a + b)
  {
    Assoc(m.out, a, b);
  }

  /** Below a list, or an object with nothing to weave, everything is copied. */
  lemma {:induction false} CopyOne(m: Machine, n: Node, check: Check)
    requires m.active && m.depth > 0
    ensures Yields(m, Serialize(n), check, Emit(m, Serialize(n)))
    decreases n
  {
    match n
    case Leaf(name, value) =>
      YieldsOne(m, Events.Render(name, value), check);
    case Object(name, kids) =>
      CopyContainer(m, StartObject(name), kids, EndObject, check);
    case List(name, kids) =>
      CopyContainer(m, StartList(name), kids, EndList, check);
  }

  /** So is a container that the weaver does not go into. */
  lemma {:induction false} CopyContainer(m: Machine, start: Event, kids: seq<Node>, end: Event, check: Check)
    requires m.active && m.depth >= 0
    requires (start.StartObject? && end == EndObject) || (start.StartList? && end == EndList)
    requires m.depth > 0 || start.StartList? || FindMessage(m.focus.messages, start.name) == |m.focus.messages|
    ensures Yields(m, [start] + SerializeAll(kids) + [end], check, Emit(m, [start] + SerializeAll(kids) + [end]))
    decreases kids, 1
  {
    var inside := Step(m, start, check);
    YieldsOne(m, start, check);
    CopyAll(inside, kids, check);
    var last := Emit(inside, SerializeAll(kids));
    YieldsOne(last, end, check);
    YieldsAppend(m, [start], inside, SerializeAll(kids), last, check);
    YieldsAppend(m, [start] + SerializeAll(kids), last, [end], Step(last, end, check), check);
    EmitEmit(m, [start], SerializeAll(kids));
    EmitEmit(m, [start] + SerializeAll(kids), [end]);
  }

  lemma {:induction false} CopyAll(m: Machine, ns: seq<Node>, check: Check)
    requires m.active && m.depth > 0
    ensures Yields(m, SerializeAll(ns), check, Emit(m, SerializeAll(ns)))
    decreases ns, 0
  {
    if ns == [] {
      assert m.out + [] == m.out;
    } else {
      CopyOne(m, ns[0], check);
      var mid := Emit(m, Serialize(ns[0]));
      CopyAll(mid, ns[1..], check);
      YieldsAppend(m, Serialize(ns[0]), mid, SerializeAll(ns[1..]), Emit(mid, SerializeAll(ns[1..])), check);
      EmitEmit(m, Serialize(ns[0]), SerializeAll(ns[1..]));
    }
  }

  // ----- The machine weaves -----

  ghost predicate Conflicting(ds: seq<Drop>, check: Check) {
    exists k :: 0 <= k < |ds| && IsConflict(ds[k].bound, ds[k].body, check)
  }

  /** m after weaving as w says. */
  ghost function After(m: Machine, w: Weave, check: Check): Machine {
    m.(focus := w.left, out := m.out + SerializeAll(RenderAll(w.woven)),
       failed := m.failed || Conflicting(w.drops, check))
  }

  lemma {:induction false} RenderAppend(a: seq<Woven>, b: seq<Woven>)
    ensures RenderAll(a + b) == RenderAll(a) + RenderAll(b)
    decreases |a|
  {
    if a == [] {
      assert a + b == b;
    } else {
      RenderAppend(a[1..], b);
      assert (a + b)[1..] == a[1..] + b;
    }
  }

  lemma {:induction false} RenderAdded(ns: seq<Node>)
    ensures RenderAll(AddedAll(ns)) == ns
  {
    if ns != [] {
      RenderAdded(ns[1..]);
      assert AddedAll(ns)[1..] == AddedAll(ns[1..]);
    }
  }

  lemma SerializeKept(n: Node)
    ensures SerializeAll(RenderAll([Kept(n)])) == Serialize(n)
  {
    assert [Kept(n)][1..] == [];
    SerializeOne(n);
  }

  lemma SerializeMixed(name: string, ws: seq<Woven>, added: seq<Node>)
    ensures SerializeAll(RenderAll([Mixed(name, ws + AddedAll(added))])) ==
            [StartObject(name)] + SerializeAll(RenderAll(ws)) + SerializeAll(added) + [EndObject]
  {
    var w := Mixed(name, ws + AddedAll(added));
    assert [w][1..] == [];
    RenderAppend(ws, AddedAll(added));
    RenderAdded(added);
    SerializeAppend(RenderAll(ws), added);
    SerializeOne(Weaving.Render(w));
    Assoc([StartObject(name)], SerializeAll(RenderAll(ws)), SerializeAll(added));
  }

  lemma {:induction false} DropsAreConflicts(hit: seq<Bound>, at: seq<string>, value: Scalar, check: Check)
    ensures Conflicting(DropsOf(hit, at, value), check) <==> AnyConflict(hit, value, check)
  {
    if hit != [] {
      var rest, ds := hit[1..], DropsOf(hit, at, value);
      DropsAreConflicts(rest, at, value, check);
      if AnyConflict(hit, value, check) && !IsConflict(hit[0], value, check) {
        var i :| 0 <= i < |hit| && IsConflict(hit[i], value, check);
        assert IsConflict(rest[i - 1], value, check);
      }
      if AnyConflict(rest, value, check) {
        var i :| 0 <= i < |rest| && IsConflict(rest[i], value, check);
        assert IsConflict(hit[i + 1], value, check);
      }
      if hit[0].field.repeated {
        assert ds == DropsOf(rest, at, value);
      } else {
        var more := DropsOf(rest, at, value);
        assert ds[0].bound == hit[0] && ds[0].body == value && ds[1..] == more;
        ConflictingCons(ds, check);
      }
    }
  }

  lemma ConflictingCons(ds: seq<Drop>, check: Check)
    requires ds != []
    ensures Conflicting(ds, check) <==> IsConflict(ds[0].bound, ds[0].body, check) || Conflicting(ds[1..], check)
  {
    if Conflicting(ds, check) {
      var k :| 0 <= k < |ds| && IsConflict(ds[k].bound, ds[k].body, check);
      assert k > 0 ==> IsConflict(ds[1..][k - 1].bound, ds[1..][k - 1].body, check);
    }
    if Conflicting(ds[1..], check) {
      var k :| 0 <= k < |ds[1..]| && IsConflict(ds[1..][k].bound, ds[1..][k].body, check);
      assert IsConflict(ds[k + 1].bound, ds[k + 1].body, check);
    }
  }

  lemma ConflictingAppend(a: seq<Drop>, b: seq<Drop>, check: Check)
    ensures Conflicting(a + b, check) <==> Conflicting(a, check) || Conflicting(b, check)
  {
    var ds := a + b;
    if Conflicting(b, check) {
      var k :| 0 <= k < |b| && IsConflict(b[k].bound, b[k].body, check);
      assert ds[|a| + k] == b[k];
    }
    if Conflicting(a, check) {
      var k :| 0 <= k < |a| && IsConflict(a[k].bound, a[k].body, check);
      assert ds[k] == a[k];
    }
  }

  lemma WeaveLeaf(m: Machine, name: string, value: Scalar, at: seq<string>, check: Check)
    requires m.active && m.depth == 0
    ensures var n := Leaf(name, value);
            Yields(m, Serialize(n), check, After(m, WeaveOne(m.focus, n, at), check))
  {
    var n, e := Leaf(name, value), Events.Render(name, value);
    YieldsOne(m, e, check);
    SerializeKept(n);
    if value != Null {
      var hit := WithName(m.focus.bindings, name);
      var added := LeavesOf(Repeated(hit));
      DropsAreConflicts(hit, at, value, check);
      RenderAppend(AddedAll(added), [Kept(n)]);
      RenderAdded(added);
      SerializeAppend(added, RenderAll([Kept(n)]));
      Assoc(m.out, SerializeAll(added), [e]);
    }
  }

  lemma {:induction false} WeaveOneRuns(m: Machine, n: Node, at: seq<string>, check: Check)
    requires m.active && m.depth == 0
    ensures Yields(m, Serialize(n), check, After(m, WeaveOne(m.focus, n, at), check))
    decreases n
  {
    SerializeKept(n);
    match n
    case Leaf(name, value) =>
      WeaveLeaf(m, name, value, at, check);
    case List(name, kids) =>
      CopyContainer(m, StartList(name), kids, EndList, check);
    case Object(name, kids) =>
      if FindMessage(m.focus.messages, name) == |m.focus.messages| {
        CopyContainer(m, StartObject(name), kids, EndObject, check);
      } else {
        WeaveMatched(m, name, kids, at, check);
      }
  }

  lemma {:induction false} WeaveMatched(m: Machine, name: string, kids: seq<Node>, at: seq<string>, check: Check)
    requires m.active && m.depth == 0 && FindMessage(m.focus.messages, name) < |m.focus.messages|
    ensures Yields(m, [StartObject(name)] + SerializeAll(kids) + [EndObject], check,
                   After(m, WeaveOne(m.focus, Object(name, kids), at), check))
    decreases kids, 1
  {
    var ms, i := m.focus.messages, FindMessage(m.focus.messages, name);
    var w := WeaveAll(ms[i].info, kids, at + [name]);
    var inside := Step(m, StartObject(name), check);
    YieldsOne(m, StartObject(name), check);
    WeaveAllRuns(inside, kids, at + [name], check);
    var last := After(inside, w, check);
    YieldsOne(last, EndObject, check);
    YieldsAppend(m, [StartObject(name)], inside, SerializeAll(kids), last, check);
    YieldsAppend(m, [StartObject(name)] + SerializeAll(kids), last, [EndObject], Step(last, EndObject, check), check);
    SerializeMixed(name, w.woven, Remainder(w.left));
    assert ms[..i] + [ms[i].(info := NOTHING)] + ms[i + 1..] == ms[i := ms[i].(info := NOTHING)];
    OutOfObject(m.out, StartObject(name), SerializeAll(RenderAll(w.woven)), SerializeAll(Remainder(w.left)));
    assert last.frames[..|m.frames|] == m.frames;
  }

  lemma OutOfObject(out: seq<Event>, start: Event, inner: seq<Event>, rest: seq<Event>)
    ensures ((out + [start]) + inner) + rest + [EndObject] == out + ([start] + inner + rest + [EndObject])
  {
  }

  lemma {:induction false} WeaveAllRuns(m: Machine, ns: seq<Node>, at: seq<string>, check: Check)
    requires m.active && m.depth == 0
    ensures Yields(m, SerializeAll(ns), check, After(m, WeaveAll(m.focus, ns, at), check))
    decreases ns, 0
  {
    if ns == [] {
      assert m.out + [] == m.out;
    } else {
      var first := WeaveOne(m.focus, ns[0], at);
      var rest := WeaveAll(first.left, ns[1..], at);
      var mid := After(m, first, check);
      WeaveOneRuns(m, ns[0], at, check);
      WeaveAllRuns(mid, ns[1..], at, check);
      YieldsAppend(m, Serialize(ns[0]), mid, SerializeAll(ns[1..]), After(mid, rest, check), check);
      RenderAppend(first.woven, rest.woven);
      SerializeAppend(RenderAll(first.woven), RenderAll(rest.woven));
      Assoc(m.out, SerializeAll(RenderAll(first.woven)), SerializeAll(RenderAll(rest.woven)));
      ConflictingAppend(first.drops, rest.drops, check);
    }
  }

  /** For every binding tree and every body object, the events that come out spell the woven body, and nothing is
      left to weave. */
  lemma BodyRuns(info: Info, name: string, kids: seq<Node>, check: Check)
    ensures var w := WeaveBody(info, name, kids);
            Yields(Start(info), Serialize(Object(name, kids)), check,
                   Machine(false, [], NOTHING, 0, SerializeAll(RenderAll(w.woven)), Conflicting(w.drops, check)))
  {
    var m, w := Start(info), WeaveAll(info, kids, []);
    var inside := Step(m, StartObject(name), check);
    YieldsOne(m, StartObject(name), check);
    WeaveAllRuns(inside, kids, [], check);
    var last := After(inside, w, check);
    YieldsOne(last, EndObject, check);
    YieldsAppend(m, [StartObject(name)], inside, SerializeAll(kids), last, check);
    YieldsAppend(m, [StartObject(name)] + SerializeAll(kids), last, [EndObject], Step(last, EndObject, check), check);
    SerializeMixed(name, w.woven, Remainder(w.left));
    OutOfObject([], StartObject(name), SerializeAll(RenderAll(w.woven)), SerializeAll(Remainder(w.left)));
  }
}
