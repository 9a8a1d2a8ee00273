/** Exactly which bound values are given up for body scalars. */
module WeavingDrops {
  import opened Events
  import opened Weaving
  import opened WeavingConservation

  /** The index of the first object of that name, or the number of nodes. */
  function FindObject(ns: seq<Node>, name: string): (i: nat)
    ensures i <= |ns| && (i < |ns| ==> ns[i].Object? && ns[i].name == name)
    ensures forall j :: 0 <= j < i ==> !(ns[j].Object? && ns[j].name == name)
  {
    if ns == [] || (ns[0].Object? && ns[0].name == name) then 0 else 1 + FindObject(ns[1..], name)
  }

  predicate IsSet(n: Node, name: string) { n.Leaf? && n.name == name && n.value != Null }

  /** Taking the first object of each name on the way, the path ends in an object that has a scalar other than null for
      its field. */
  ghost predicate Sets(ns: seq<Node>, path: seq<string>)
    requires path != []
    decreases |path|
  {
    if |path| == 1 then exists k :: 0 <= k < |ns| && IsSet(ns[k], path[0])
    else
      var i := FindObject(ns, path[0]);
      i < |ns| && Sets(ns[i].kids, path[1..])
  }

  // Each function below counts how often the value is bound at the path, to a field that is not repeated.

  function SinglesOf(bs: seq<Bound>, name: string, value: string): nat {
    if bs == [] then 0
    else (if bs[0] == Bound(Field(name, false), value) then 1 else 0) + SinglesOf(bs[1..], name, value)
  }

  function Singles(info: Info, path: seq<string>, value: string): nat
    requires path != []
    decreases |path|
  {
    if |path| == 1 then SinglesOf(info.bindings, path[0], value)
    else
      var i := FindMessage(info.messages, path[0]);
      if i < |info.messages| then Singles(info.messages[i].info, path[1..], value) else 0
  }

  /** Among the bindings given. */
  function GivenSingles(bs: seq<BindingInfo>, path: seq<string>, value: string): nat
    requires HavePaths(bs)
  {
    if bs == [] then 0
    else
      var b := bs[|bs| - 1];
      GivenSingles(bs[..|bs| - 1], path, value) +
      (if Names(b.fieldPath) == path && b.value == value && !b.fieldPath[|b.fieldPath| - 1].repeated then 1 else 0)
  }

  // ----- The tree of bindings -----

  lemma {:induction false} SinglesOfAppend(bs: seq<Bound>, b: Bound, name: string, value: string)
    ensures SinglesOf(bs + [b], name, value) ==
            SinglesOf(bs, name, value) + (if b == Bound(Field(name, false), value) then 1 else 0)
  {
    if bs == [] {
      assert ([] + [b])[1..] == [];
    } else {
      SinglesOfAppend(bs[1..], b, name, value);
      assert (bs + [b])[1..] == bs[1..] + [b];
    }
  }

  lemma {:induction false} FindFirst(ms: seq<Message>, name: string, i: nat)
    requires i <= |ms| && (i < |ms| ==> ms[i].field.name == name)
    requires forall j :: 0 <= j < i ==> ms[j].field.name != name
    ensures FindMessage(ms, name) == i
  {
  }

  lemma {:induction false} BindAddsSingle(info: Info, field: seq<Field>, bound: string, path: seq<string>,
                                          value: string)
    requires field != [] && path != []
    ensures Singles(Bind(info, field, bound), path, value) ==
            Singles(info, path, value) +
            (if Names(field) == path && bound == value && !field[|field| - 1].repeated then 1 else 0)
    decreases |field|
  {
    var next := Bind(info, field, bound);
    if |field| == 1 {
      SinglesOfAppend(info.bindings, Bound(field[0], bound), path[0], value);
      assert Names(field) == [field[0].name];
      assert |path| == 1 ==> path == [path[0]];
    } else if |path| > 1 {
      var i, k := FindMessage(info.messages, field[0].name), FindMessage(info.messages, path[0]);
      SamePath(field, path);
      if path[0] == field[0].name {
        var inner := if i < |info.messages| then info.messages[i].info else NOTHING;
        BoundInside(info, field, bound);
        BindAddsSingle(inner, field[1..], bound, path[1..], value);
        NoSingles(path[1..], value);
      } else {
        FindFirst(next.messages, path[0], if k < |info.messages| then k else |next.messages|);
      }
    }
  }

  lemma BoundInside(info: Info, field: seq<Field>, bound: string)
    requires |field| > 1
    ensures var i, ms := FindMessage(info.messages, field[0].name), Bind(info, field, bound).messages;
            var inner := if i < |info.messages| then info.messages[i].info else NOTHING;
            FindMessage(ms, field[0].name) == i && i < |ms| && ms[i].info == Bind(inner, field[1..], bound)
  {
    var i := FindMessage(info.messages, field[0].name);
    FindFirst(Bind(info, field, bound).messages, field[0].name, i);
  }

  lemma SamePath(field: seq<Field>, path: seq<string>)
    requires field != [] && path != []
    ensures Names(field) == path <==> field[0].name == path[0] && Names(field[1..]) == path[1..]
  {
    assert Names(field) == [field[0].name] + Names(field[1..]);
    assert path == [path[0]] + path[1..];
    assert Names(field)[1..] == Names(field[1..]);
  }

  lemma NoSingles(path: seq<string>, value: string)
    requires path != []
    ensures Singles(NOTHING, path, value) == 0
  {
  }

  lemma {:induction false} BindAllHasSingles(bs: seq<BindingInfo>, path: seq<string>, value: string)
    requires HavePaths(bs) && path != []
    ensures Singles(BindAll(bs), path, value) == GivenSingles(bs, path, value)
  {
    if bs == [] {
      NoSingles(path, value);
    } else {
      var before, b := bs[..|bs| - 1], bs[|bs| - 1];
      BindAllHasSingles(before, path, value);
      BindAddsSingle(BindAll(before), b.fieldPath, b.value, path, value);
    }
  }

  // ----- Drops of one node -----

  lemma {:induction false} DropsOfSingles(bs: seq<Bound>, at: seq<string>, name: string, body: Scalar,
                                          path: seq<string>, value: string)
    requires path != []
    requires forall k :: 0 <= k < |bs| ==> bs[k].field.name == name
    ensures Dropped(DropsOf(bs, at, body), Placed(at + path, value)) ==
            if path == [name] then SinglesOf(bs, name, value) else 0
  {
    if bs != [] {
      DropsOfSingles(bs[1..], at, name, body, path, value);
      assert at + path == at + [name] <==> path == [name] by {
        assert (at + path)[|at|..] == path && (at + [name])[|at|..] == [name];
      }
      if !bs[0].field.repeated {
        var d, rest := Drop(at + [name], bs[0], body), DropsOf(bs[1..], at, body);
        assert ([d] + rest)[1..] == rest;
      }
    }
  }

  lemma {:induction false} SinglesByName(bs: seq<Bound>, name: string, other: string, value: string)
    ensures SinglesOf(WithName(bs, name), name, value) == SinglesOf(bs, name, value)
    ensures SinglesOf(WithoutName(bs, name), other, value) == if other == name then 0 else SinglesOf(bs, other, value)
  {
    if bs != [] {
      SinglesByName(bs[1..], name, other, value);
      if bs[0].field.name == name {
        assert ([bs[0]] + WithName(bs[1..], name))[1..] == WithName(bs[1..], name);
      } else {
        assert ([bs[0]] + WithoutName(bs[1..], name))[1..] == WithoutName(bs[1..], name);
      }
    }
  }

  /** Drops are below the object they come from. */
  ghost predicate AreBelow(ds: seq<Drop>, at: seq<string>) {
    forall k :: 0 <= k < |ds| ==> at < ds[k].path
  }

  lemma {:induction false} DropsOfAreBelow(bs: seq<Bound>, at: seq<string>, body: Scalar)
    ensures AreBelow(DropsOf(bs, at, body), at)
  {
    if bs != [] {
      DropsOfAreBelow(bs[1..], at, body);
    }
  }

  lemma {:induction false} OneDropsBelow(info: Info, n: Node, at: seq<string>)
    ensures AreBelow(WeaveOne(info, n, at).drops, at)
    decreases n
  {
    match n
    case Leaf(name, value) =>
      DropsOfAreBelow(WithName(info.bindings, name), at, value);
    case List(_, _) =>
    case Object(name, kids) =>
      var i := FindMessage(info.messages, name);
      if i < |info.messages| {
        AllDropBelow(info.messages[i].info, kids, at + [name]);
      }
  }

  lemma {:induction false} AllDropBelow(info: Info, ns: seq<Node>, at: seq<string>)
    ensures AreBelow(WeaveAll(info, ns, at).drops, at)
    decreases ns
  {
    if ns != [] {
      OneDropsBelow(info, ns[0], at);
      AllDropBelow(WeaveOne(info, ns[0], at).left, ns[1..], at);
    }
  }

  lemma {:induction false} NotBelow(ds: seq<Drop>, at: seq<string>, p: Placed)
    requires AreBelow(ds, at) && !(at < p.path)
    ensures Dropped(ds, p) == 0
  {
    if ds != [] {
      NotBelow(ds[1..], at, p);
    }
  }

  // ----- All drops -----

  /** What one node drops at the path, and what it leaves there. */
  lemma {:induction false} OneDrops(info: Info, n: Node, at: seq<string>, path: seq<string>, value: string)
    requires path != []
    ensures var w, had := WeaveOne(info, n, at), Singles(info, path, value);
            if |path| == 1 && IsSet(n, path[0]) then
              Dropped(w.drops, Placed(at + path, value)) == had && Singles(w.left, path, value) == 0
            else if |path| > 1 && n.Object? && n.name == path[0] then
              Dropped(w.drops, Placed(at + path, value)) == (if Sets(n.kids, path[1..]) then had else 0)
              && Singles(w.left, path, value) == 0
            else Dropped(w.drops, Placed(at + path, value)) == 0 && Singles(w.left, path, value) == had
    decreases n
  {
    match n
    case Leaf(name, value') =>
      if value' != Null {
        LeafDrops(info, name, value', at, path, value);
      }
    case List(_, _) =>
    case Object(name, kids) =>
      var i := FindMessage(info.messages, name);
      if i < |info.messages| {
        AllDropBelow(info.messages[i].info, kids, at + [name]);
        if |path| > 1 && name == path[0] {
          AllDrops(info.messages[i].info, kids, at + [name], path[1..], value);
          assert at + [name] + path[1..] == at + path;
        }
        ObjectDrops(info, name, kids, at, path, value);
      }
  }

  lemma LeafDrops(info: Info, name: string, body: Scalar, at: seq<string>, path: seq<string>, value: string)
    requires path != [] && body != Null
    ensures var w, had := WeaveOne(info, Leaf(name, body), at), Singles(info, path, value);
            if path == [name] then
              Dropped(w.drops, Placed(at + path, value)) == had && Singles(w.left, path, value) == 0
            else Dropped(w.drops, Placed(at + path, value)) == 0 && Singles(w.left, path, value) == had
  {
    var hit := WithName(info.bindings, name);
    WithNameFacts(info.bindings, name);
    DropsOfSingles(hit, at, name, body, path, value);
    SinglesByName(info.bindings, name, path[0], value);
  }

  lemma ObjectDrops(info: Info, name: string, kids: seq<Node>, at: seq<string>, path: seq<string>, value: string)
    requires path != [] && FindMessage(info.messages, name) < |info.messages|
    requires var inner := info.messages[FindMessage(info.messages, name)].info;
             AreBelow(WeaveAll(inner, kids, at + [name]).drops, at + [name])
    ensures var w := WeaveOne(info, Object(name, kids), at);
            if |path| > 1 && name == path[0] then Singles(w.left, path, value) == 0
            else Dropped(w.drops, Placed(at + path, value)) == 0
                 && Singles(w.left, path, value) == Singles(info, path, value)
  {
    var i, k := FindMessage(info.messages, name), FindMessage(info.messages, path[0]);
    var w := WeaveOne(info, Object(name, kids), at);
    FindFirst(w.left.messages, path[0], k);
    if |path| > 1 && name == path[0] {
      NoSingles(path[1..], value);
    } else {
      assert !(at + [name] < at + path) by {
        assert (at + path)[|at|] == path[0];
      }
      NotBelow(w.drops, at + [name], Placed(at + path, value));
    }
  }

  lemma {:induction false} AllDrops(info: Info, ns: seq<Node>, at: seq<string>, path: seq<string>, value: string)
    requires path != []
    ensures Dropped(WeaveAll(info, ns, at).drops, Placed(at + path, value)) ==
            if Sets(ns, path) then Singles(info, path, value) else 0
    decreases ns
  {
    if ns != [] {
      var first := WeaveOne(info, ns[0], at);
      OneDrops(info, ns[0], at, path, value);
      AllDrops(first.left, ns[1..], at, path, value);
      DroppedAppend(first.drops, WeaveAll(first.left, ns[1..], at).drops, Placed(at + path, value));
      SetsFirst(ns, path);
    }
  }

  lemma SetsFirst(ns: seq<Node>, path: seq<string>)
    requires path != [] && ns != []
    ensures Sets(ns, path) <==>
            if |path| == 1 && IsSet(ns[0], path[0]) then true
            else if |path| > 1 && ns[0].Object? && ns[0].name == path[0] then Sets(ns[0].kids, path[1..])
            else Sets(ns[1..], path)
  {
    if |path| == 1 {
      assert forall k :: 0 < k < |ns| ==> ns[k] == ns[1..][k - 1];
      if Sets(ns[1..], path) {
        var k :| 0 <= k < |ns[1..]| && IsSet(ns[1..][k], path[0]);
        assert IsSet(ns[k + 1], path[0]);
      }
    }
  }

  /** Over a complete body object a value given for a field that is not repeated is dropped, each time it was given, iff
      the body sets that field; nothing else is dropped. */
  lemma DroppedIffSet(bs: seq<BindingInfo>, name: string, kids: seq<Node>, path: seq<string>, value: string)
    requires HavePaths(bs) && path != []
    ensures Dropped(WeaveBody(BindAll(bs), name, kids).drops, Placed(path, value)) ==
            if Sets(kids, path) then GivenSingles(bs, path, value) else 0
  {
    BindAllHasSingles(bs, path, value);
    AllDrops(BindAll(bs), kids, [], path, value);
    assert [] + path == path;
  }
}
