/** Every bound value is woven in exactly once, at its field path, or given up for a body scalar at that path. */
module WeavingConservation {
  import opened Events
  import opened Weaving

  /** A value at a field path. */
  datatype Placed = Placed(path: seq<string>, value: string)

  function One(q: Placed, p: Placed): nat {
    if q == p then 1 else 0
  }

  function Names(path: seq<Field>): seq<string> {
    seq(|path|, i requires 0 <= i < |path| => path[i].name)
  }

  // Each function below counts how often the placed value p occurs in its argument; at is the path of the object.

  /** Among the bindings of an info. */
  function Leaves(info: Info, at: seq<string>, p: Placed): nat
    decreases info
  {
    PlacedAll(info.bindings, at, p) + LeavesAll(info.messages, at, p)
  }

  function PlacedAll(bs: seq<Bound>, at: seq<string>, p: Placed): nat {
    if bs == [] then 0 else One(Placed(at + [bs[0].field.name], bs[0].value), p) + PlacedAll(bs[1..], at, p)
  }

  function LeavesAll(ms: seq<Message>, at: seq<string>, p: Placed): nat
    decreases ms
  {
    if ms == [] then 0 else LeavesIn(ms[0], at, p) + LeavesAll(ms[1..], at, p)
  }

  function LeavesIn(m: Message, at: seq<string>, p: Placed): nat
    decreases m
  {
    Leaves(m.info, at + [m.field.name], p)
  }

  /** Among the string scalars of a node that was added. */
  function ScalarsOf(n: Node, at: seq<string>, p: Placed): nat
    decreases n
  {
    match n
    case Leaf(name, Data(String, text)) => One(Placed(at + [name], text), p)
    case Leaf(_, _) => 0
    case Object(name, kids) => ScalarsOfAll(kids, at + [name], p)
    case List(_, _) => 0
  }

  function ScalarsOfAll(ns: seq<Node>, at: seq<string>, p: Placed): nat
    decreases ns
  {
    if ns == [] then 0 else ScalarsOf(ns[0], at, p) + ScalarsOfAll(ns[1..], at, p)
  }

  /** Among what was added to a woven body. */
  function Injected(ws: seq<Woven>, at: seq<string>, p: Placed): nat {
    if ws == [] then 0
    else
      (match ws[0]
       case Kept(_) => 0
       case Mixed(name, kids) => Injected(kids, at + [name], p)
       case Added(n) => ScalarsOf(n, at, p)) + Injected(ws[1..], at, p)
  }

  function Dropped(ds: seq<Drop>, p: Placed): nat {
    if ds == [] then 0 else One(Placed(ds[0].path, ds[0].bound.value), p) + Dropped(ds[1..], p)
  }

  // ----- Lists -----

  lemma {:induction false} ScalarsAppend(a: seq<Node>, b: seq<Node>, at: seq<string>, p: Placed)
    ensures ScalarsOfAll(a + b, at, p) == ScalarsOfAll(a, at, p) + ScalarsOfAll(b, at, p)
    decreases |a|
  {
    if a == [] {
      assert a + b == b;
    } else {
      ScalarsAppend(a[1..], b, at, p);
      assert (a + b)[1..] == a[1..] + b;
    }
  }

  lemma {:induction false} InjectedAppend(a: seq<Woven>, b: seq<Woven>, at: seq<string>, p: Placed)
    ensures Injected(a + b, at, p) == Injected(a, at, p) + Injected(b, at, p)
    decreases |a|
  {
    if a == [] {
      assert a + b == b;
    } else {
      InjectedAppend(a[1..], b, at, p);
      assert (a + b)[1..] == a[1..] + b;
    }
  }

  lemma {:induction false} InjectedAdded(ns: seq<Node>, at: seq<string>, p: Placed)
    ensures Injected(AddedAll(ns), at, p) == ScalarsOfAll(ns, at, p)
  {
    if ns != [] {
      InjectedAdded(ns[1..], at, p);
      assert AddedAll(ns)[1..] == AddedAll(ns[1..]);
    }
  }

  lemma {:induction false} DroppedAppend(a: seq<Drop>, b: seq<Drop>, p: Placed)
    ensures Dropped(a + b, p) == Dropped(a, p) + Dropped(b, p)
  {
    if a == [] {
      assert a + b == b;
    } else {
      DroppedAppend(a[1..], b, p);
      assert (a + b)[1..] == a[1..] + b;
    }
  }

  lemma {:induction false} LeavesOfAreScalars(bs: seq<Bound>, at: seq<string>, p: Placed)
    ensures ScalarsOfAll(LeavesOf(bs), at, p) == PlacedAll(bs, at, p)
  {
    if bs != [] {
      LeavesOfAreScalars(bs[1..], at, p);
      assert LeavesOf(bs)[1..] == LeavesOf(bs[1..]);
    }
  }

  // ----- What is added at the end of an object is all that was left for it -----

  lemma {:induction false} RemainderIsAllLeft(info: Info, at: seq<string>, p: Placed)
    ensures ScalarsOfAll(Remainder(info), at, p) == Leaves(info, at, p)
    decreases info
  {
    LeavesOfAreScalars(info.bindings, at, p);
    RemainderOfAllIsAllLeft(info.messages, at, p);
    ScalarsAppend(LeavesOf(info.bindings), RemainderOfAll(info.messages), at, p);
  }

  lemma {:induction false} RemainderOfAllIsAllLeft(ms: seq<Message>, at: seq<string>, p: Placed)
    ensures ScalarsOfAll(RemainderOfAll(ms), at, p) == LeavesAll(ms, at, p)
    decreases ms
  {
    if ms != [] {
      RemainderOfIsLeft(ms[0], at, p);
      RemainderOfAllIsAllLeft(ms[1..], at, p);
      ScalarsAppend(RemainderOf(ms[0]), RemainderOfAll(ms[1..]), at, p);
    }
  }

  lemma {:induction false} RemainderOfIsLeft(m: Message, at: seq<string>, p: Placed)
    ensures ScalarsOfAll(RemainderOf(m), at, p) == LeavesIn(m, at, p)
    decreases m
  {
    RemainderIsAllLeft(m.info, at + [m.field.name], p);
    var n := Object(m.field.name, Remainder(m.info));
    assert [n][1..] == [];
    assert ScalarsOfAll([n], at, p) == ScalarsOf(n, at, p);
  }

  // ----- Conservation -----

  lemma {:induction false} SplitByName(bs: seq<Bound>, name: string, at: seq<string>, p: Placed)
    ensures PlacedAll(bs, at, p) ==
            PlacedAll(WithName(bs, name), at, p) + PlacedAll(WithoutName(bs, name), at, p)
  {
    if bs != [] {
      SplitByName(bs[1..], name, at, p);
      var rest := if bs[0].field.name == name then WithName(bs[1..], name) else WithoutName(bs[1..], name);
      assert ([bs[0]] + rest)[1..] == rest;
    }
  }

  lemma {:induction false} SplitByRepeated(bs: seq<Bound>, at: seq<string>, body: Scalar, p: Placed)
    ensures PlacedAll(bs, at, p) ==
            PlacedAll(Repeated(bs), at, p) + Dropped(DropsOf(bs, at, body), p)
  {
    if bs != [] {
      SplitByRepeated(bs[1..], at, body, p);
      if bs[0].field.repeated {
        assert ([bs[0]] + Repeated(bs[1..]))[1..] == Repeated(bs[1..]);
      } else {
        var d := Drop(at + [bs[0].field.name], bs[0], body);
        assert ([d] + DropsOf(bs[1..], at, body))[1..] == DropsOf(bs[1..], at, body);
      }
    }
  }

  lemma {:induction false} TakeOut(ms: seq<Message>, i: nat, info: Info, at: seq<string>, p: Placed)
    requires i < |ms|
    ensures LeavesAll(ms, at, p) + Leaves(info, at + [ms[i].field.name], p) ==
            LeavesAll(ms[i := ms[i].(info := info)], at, p) + Leaves(ms[i].info, at + [ms[i].field.name], p)
  {
    var ms' := ms[i := ms[i].(info := info)];
    if i == 0 {
      assert ms'[1..] == ms[1..];
    } else {
      TakeOut(ms[1..], i - 1, info, at, p);
      assert ms'[1..] == ms[1..][i - 1 := ms[i].(info := info)];
    }
  }

  lemma {:induction false} ConserveOne(info: Info, n: Node, at: seq<string>, p: Placed)
    ensures var w := WeaveOne(info, n, at);
            Leaves(info, at, p) ==
            Injected(w.woven, at, p) + Dropped(w.drops, p) + Leaves(w.left, at, p)
    decreases n
  {
    var w := WeaveOne(info, n, at);
    match n
    case Leaf(name, value) =>
      if value != Null {
        var hit := WithName(info.bindings, name);
        SplitByName(info.bindings, name, at, p);
        SplitByRepeated(hit, at, value, p);
        InjectedAppend(AddedAll(LeavesOf(Repeated(hit))), [Kept(n)], at, p);
        InjectedAdded(LeavesOf(Repeated(hit)), at, p);
        LeavesOfAreScalars(Repeated(hit), at, p);
      }
    case List(_, _) =>
    case Object(name, kids) =>
      var i := FindMessage(info.messages, name);
      if i < |info.messages| {
        var inner := WeaveAll(info.messages[i].info, kids, at + [name]);
        ConserveAll(info.messages[i].info, kids, at + [name], p);
        RemainderIsAllLeft(inner.left, at + [name], p);
        InjectedAdded(Remainder(inner.left), at + [name], p);
        InjectedAppend(inner.woven, AddedAll(Remainder(inner.left)), at + [name], p);
        TakeOut(info.messages, i, NOTHING, at, p);
      }
  }

  lemma {:induction false} ConserveAll(info: Info, ns: seq<Node>, at: seq<string>, p: Placed)
    ensures var w := WeaveAll(info, ns, at);
            Leaves(info, at, p) ==
            Injected(w.woven, at, p) + Dropped(w.drops, p) + Leaves(w.left, at, p)
    decreases ns
  {
    if ns != [] {
      var first := WeaveOne(info, ns[0], at);
      var rest := WeaveAll(first.left, ns[1..], at);
      ConserveOne(info, ns[0], at, p);
      ConserveAll(first.left, ns[1..], at, p);
      InjectedAppend(first.woven, rest.woven, at, p);
      DroppedAppend(first.drops, rest.drops, p);
    }
  }

  lemma {:induction false} BindAddsOne(info: Info, path: seq<Field>, value: string, at: seq<string>, p: Placed)
    requires path != []
    ensures Leaves(Bind(info, path, value), at, p) ==
            Leaves(info, at, p) + One(Placed(at + Names(path), value), p)
    decreases |path|
  {
    if |path| == 1 {
      PlacedAppend(info.bindings, Bound(path[0], value), at, p);
      assert Names(path) == [path[0].name];
    } else {
      var i := FindMessage(info.messages, path[0].name);
      var m := Message(path[0], NOTHING);
      var ms := if i < |info.messages| then info.messages else info.messages + [m];
      if i == |info.messages| {
        LeavesAllAppend(info.messages, m, at, p);
      }
      TakeOut(ms, i, Bind(ms[i].info, path[1..], value), at, p);
      BindAddsOne(ms[i].info, path[1..], value, at + [path[0].name], p);
      assert Names(path) == [path[0].name] + Names(path[1..]);
      assert at + [path[0].name] + Names(path[1..]) == at + Names(path);
    }
  }

  lemma {:induction false} PlacedAppend(bs: seq<Bound>, b: Bound, at: seq<string>, p: Placed)
    ensures PlacedAll(bs + [b], at, p) == PlacedAll(bs, at, p) + One(Placed(at + [b.field.name], b.value), p)
  {
    if bs == [] {
      assert ([] + [b])[1..] == [];
    } else {
      PlacedAppend(bs[1..], b, at, p);
      assert (bs + [b])[1..] == bs[1..] + [b];
    }
  }

  lemma {:induction false} LeavesAllAppend(ms: seq<Message>, m: Message, at: seq<string>, p: Placed)
    ensures LeavesAll(ms + [m], at, p) == LeavesAll(ms, at, p) + LeavesIn(m, at, p)
    decreases |ms|
  {
    if ms == [] {
      assert ([] + [m])[1..] == [];
    } else {
      LeavesAllAppend(ms[1..], m, at, p);
      assert (ms + [m])[1..] == ms[1..] + [m];
    }
  }

  /** Among the bindings given. */
  function Given(bs: seq<BindingInfo>, p: Placed): nat {
    if bs == [] then 0
    else Given(bs[..|bs| - 1], p) + One(Placed(Names(bs[|bs| - 1].fieldPath), bs[|bs| - 1].value), p)
  }

  lemma {:induction false} BindAllHoldsGiven(bs: seq<BindingInfo>, p: Placed)
    requires HavePaths(bs)
    ensures Leaves(BindAll(bs), [], p) == Given(bs, p)
  {
    if bs != [] {
      var before, b := bs[..|bs| - 1], bs[|bs| - 1];
      BindAllHoldsGiven(before, p);
      BindAddsOne(BindAll(before), b.fieldPath, b.value, [], p);
      assert [] + Names(b.fieldPath) == Names(b.fieldPath);
    }
  }

  /** Over a complete body object each given value is added exactly once at its path, or dropped exactly once. */
  lemma BindingsAreConserved(bs: seq<BindingInfo>, name: string, kids: seq<Node>, p: Placed)
    requires HavePaths(bs)
    ensures var w := WeaveBody(BindAll(bs), name, kids);
            && w.left == NOTHING && w.woven[0].Mixed?
            && Given(bs, p) == Injected(w.woven[0].kids, [], p) + Dropped(w.drops, p)
  {
    var info := BindAll(bs);
    var w := WeaveAll(info, kids, []);
    BindAllHoldsGiven(bs, p);
    ConserveAll(info, kids, [], p);
    RemainderIsAllLeft(w.left, [], p);
    InjectedAdded(Remainder(w.left), [], p);
    InjectedAppend(w.woven, AddedAll(Remainder(w.left)), [], p);
  }

  // ----- Drops -----

  /** The object at path at, with fields ns, holds the scalar body at path, through objects only. */
  ghost predicate HasScalar(ns: seq<Node>, at: seq<string>, path: seq<string>, body: Scalar)
    decreases ns
  {
    exists i :: 0 <= i < |ns| && NodeHasScalar(ns[i], at, path, body)
  }

  ghost predicate NodeHasScalar(n: Node, at: seq<string>, path: seq<string>, body: Scalar)
    decreases n
  {
    match n
    case Leaf(name, value) => path == at + [name] && value == body
    case Object(name, kids) => HasScalar(kids, at + [name], path, body)
    case List(_, _) => false
  }

  /** A drop is of a field that is not repeated, for a body scalar that is not null, at the path of the binding. */
  ghost predicate IsJustified(d: Drop, ns: seq<Node>, at: seq<string>) {
    && !d.bound.field.repeated && d.body != Null
    && d.path != [] && d.path[|d.path| - 1] == d.bound.field.name
    && HasScalar(ns, at, d.path, d.body)
  }

  lemma {:induction false} DropsOfFacts(bs: seq<Bound>, at: seq<string>, body: Scalar, k: nat)
    requires k < |DropsOf(bs, at, body)|
    ensures var d := DropsOf(bs, at, body)[k];
            d.bound in bs && !d.bound.field.repeated && d.body == body && d.path == at + [d.bound.field.name]
  {
    if bs[0].field.repeated {
      DropsOfFacts(bs[1..], at, body, k);
    } else if k > 0 {
      DropsOfFacts(bs[1..], at, body, k - 1);
    }
  }

  lemma {:induction false} WithNameFacts(bs: seq<Bound>, name: string)
    ensures forall b :: b in WithName(bs, name) ==> b in bs && b.field.name == name
  {
    if bs != [] {
      WithNameFacts(bs[1..], name);
    }
  }

  lemma {:induction false} DropsOfOneAreJustified(info: Info, n: Node, at: seq<string>, k: nat)
    requires k < |WeaveOne(info, n, at).drops|
    ensures IsJustified(WeaveOne(info, n, at).drops[k], [n], at)
    decreases n
  {
    var d := WeaveOne(info, n, at).drops[k];
    match n
    case Leaf(name, value) =>
      DropsOfFacts(WithName(info.bindings, name), at, value, k);
      WithNameFacts(info.bindings, name);
      assert NodeHasScalar([n][0], at, d.path, d.body);
    case Object(name, kids) =>
      var i := FindMessage(info.messages, name);
      DropsAreJustified(info.messages[i].info, kids, at + [name], k);
      assert NodeHasScalar([n][0], at, d.path, d.body);
  }

  /** A value is given up only if the body sets its field: the field is not repeated, and a scalar other than null of
      the same name is in the object that the binding is for. */
  lemma {:induction false} DropsAreJustified(info: Info, ns: seq<Node>, at: seq<string>, k: nat)
    requires k < |WeaveAll(info, ns, at).drops|
    ensures IsJustified(WeaveAll(info, ns, at).drops[k], ns, at)
    decreases ns
  {
    var first := WeaveOne(info, ns[0], at);
    var d := WeaveAll(info, ns, at).drops[k];
    if k < |first.drops| {
      DropsOfOneAreJustified(info, ns[0], at, k);
      assert NodeHasScalar(ns[0], at, d.path, d.body);
    } else {
      DropsAreJustified(first.left, ns[1..], at, k - |first.drops|);
      var i :| 0 <= i < |ns[1..]| && NodeHasScalar(ns[1..][i], at, d.path, d.body);
      assert NodeHasScalar(ns[i + 1], at, d.path, d.body);
    }
  }
}
