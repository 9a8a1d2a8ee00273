/** What is added to an object: its own fields, then one object for each message with something left, none of them
    empty. */
module WeavingObjects {
  import opened Sequences
  import opened Events
  import opened Weaving
  import opened WeavingDrops

  ghost predicate IsFilled(n: Node)
    decreases n
  {
    match n
    case Leaf(_, _) => true
    case Object(_, kids) => kids != [] && AreTidy(kids)
    case List(_, _) => false
  }

  /** No object is empty, no two have the same name, and scalars come first. */
  ghost predicate AreTidy(ns: seq<Node>)
    decreases ns
  {
    && (forall i :: 0 <= i < |ns| ==> IsFilled(ns[i]))
    && (forall i, j :: 0 <= i < j < |ns| && ns[i].Object? ==> ns[j].Object? && ns[i].name != ns[j].name)
  }

  /** What is added to an object itself, not to those in it. */
  function AddedHere(ws: seq<Woven>): seq<Node> {
    if ws == [] then [] else NodeAdded(ws[0]) + AddedHere(ws[1..])
  }

  function NodeAdded(w: Woven): seq<Node> {
    match w
    case Added(n) => [n]
    case _ => []
  }

  /** In a woven object and in all objects in it. */
  ghost predicate IsTidy(ws: seq<Woven>)
    decreases ws
  {
    AreTidy(AddedHere(ws)) && forall i :: 0 <= i < |ws| && ws[i].Mixed? ==> IsTidy(ws[i].kids)
  }

  // ----- The tree of bindings -----

  /** Messages have different names, and one that holds anything holds a binding. */
  ghost predicate IsSolid(info: Info)
    decreases info
  {
    && (forall i, j :: 0 <= i < j < |info.messages| ==> info.messages[i].field.name != info.messages[j].field.name)
    && (forall i :: 0 <= i < |info.messages| && info.messages[i].info != NOTHING ==>
          IsSolid(info.messages[i].info) && Remainder(info.messages[i].info) != [])
  }

  lemma {:induction false} SomethingRemains(ms: seq<Message>, i: nat)
    requires i < |ms| && ms[i].info != NOTHING
    ensures RemainderOfAll(ms) != []
  {
    if i > 0 {
      SomethingRemains(ms[1..], i - 1);
    }
  }

  lemma {:induction false} BindKeepsSolid(info: Info, path: seq<Field>, value: string)
    requires path != [] && IsSolid(info)
    ensures IsSolid(Bind(info, path, value)) && Remainder(Bind(info, path, value)) != []
    decreases |path|
  {
    if |path| > 1 {
      var i := FindMessage(info.messages, path[0].name);
      var inner := if i < |info.messages| then info.messages[i].info else NOTHING;
      BindKeepsSolid(inner, path[1..], value);
      BoundInside(info, path, value);
      assert Remainder(NOTHING) == [];
      SomethingRemains(Bind(info, path, value).messages, i);
    } else {
      assert LeavesOf(Bind(info, path, value).bindings) != [];
    }
  }

  lemma {:induction false} BindAllIsSolid(bs: seq<BindingInfo>)
    requires HavePaths(bs)
    ensures IsSolid(BindAll(bs))
  {
    if bs != [] {
      BindAllIsSolid(bs[..|bs| - 1]);
      BindKeepsSolid(BindAll(bs[..|bs| - 1]), bs[|bs| - 1].fieldPath, bs[|bs| - 1].value);
    }
  }

  // ----- What is added at the end of an object -----

  ghost predicate IsNameIn(name: string, ms: seq<Message>) {
    exists j :: 0 <= j < |ms| && ms[j].field.name == name
  }

  lemma {:induction false} RemainderOfAllIsTidy(ms: seq<Message>)
    requires IsSolid(Info(ms, []))
    ensures AreTidy(RemainderOfAll(ms))
    ensures forall k :: 0 <= k < |RemainderOfAll(ms)| ==>
              RemainderOfAll(ms)[k].Object? && IsNameIn(RemainderOfAll(ms)[k].name, ms)
    decreases ms
  {
    if ms != [] {
      var rest := RemainderOfAll(ms[1..]);
      assert IsSolid(Info(ms[1..], []));
      RemainderOfAllIsTidy(ms[1..]);
      forall k | 0 <= k < |rest| ensures IsNameIn(rest[k].name, ms) && rest[k].name != ms[0].field.name {
        var j :| 0 <= j < |ms[1..]| && ms[1..][j].field.name == rest[k].name;
        assert ms[j + 1].field.name == rest[k].name;
      }
      assert IsNameIn(ms[0].field.name, ms);
      if ms[0].info != NOTHING {
        RemainderIsTidy(ms[0].info);
      }
    }
  }

  lemma {:induction false} RemainderIsTidy(info: Info)
    requires IsSolid(info)
    ensures AreTidy(Remainder(info))
    decreases info
  {
    RemainderOfAllIsTidy(info.messages);
    ScalarsFirst(LeavesOf(info.bindings), RemainderOfAll(info.messages));
  }

  lemma ScalarsFirst(a: seq<Node>, b: seq<Node>)
    requires AreTidy(b) && forall i :: 0 <= i < |a| ==> a[i].Leaf?
    ensures AreTidy(a + b)
  {
    var c := a + b;
    forall i | 0 <= i < |c| ensures IsFilled(c[i]) {
      assert i >= |a| ==> c[i] == b[i - |a|];
    }
    forall i, j | 0 <= i < j < |c| && c[i].Object? ensures c[j].Object? && c[i].name != c[j].name {
      assert i >= |a| && c[i] == b[i - |a|] && c[j] == b[j - |a|];
    }
  }

  // ----- Weaving -----

  lemma {:induction false} AddedHereAppend(a: seq<Woven>, b: seq<Woven>)
    ensures AddedHere(a + b) == AddedHere(a) + AddedHere(b)
    decreases |a|
  {
    if a == [] {
      assert a + b == b;
    } else {
      AddedHereAppend(a[1..], b);
      assert (a + b)[1..] == a[1..] + b;
      Assoc(NodeAdded(a[0]), AddedHere(a[1..]), AddedHere(b));
    }
  }

  lemma {:induction false} AddedHereAdded(ns: seq<Node>)
    ensures AddedHere(AddedAll(ns)) == ns
  {
    if ns != [] {
      AddedHereAdded(ns[1..]);
      assert AddedAll(ns)[1..] == AddedAll(ns[1..]);
    }
  }

  /** Before the end of an object only scalars are added to it. */
  ghost predicate AddsScalars(ws: seq<Woven>) {
    && (forall i :: 0 <= i < |AddedHere(ws)| ==> AddedHere(ws)[i].Leaf?)
    && (forall i :: 0 <= i < |ws| && ws[i].Mixed? ==> IsTidy(ws[i].kids))
  }

  lemma EndIsTidy(ws: seq<Woven>, left: Info)
    requires AddsScalars(ws) && IsSolid(left)
    ensures IsTidy(ws + AddedAll(Remainder(left)))
  {
    var last := Remainder(left);
    RemainderIsTidy(left);
    AddedHereAdded(last);
    AddedHereAppend(ws, AddedAll(last));
    ScalarsFirst(AddedHere(ws), last);
  }

  lemma {:induction false} OneIsTidy(info: Info, n: Node, at: seq<string>)
    requires IsSolid(info)
    ensures IsSolid(WeaveOne(info, n, at).left) && AddsScalars(WeaveOne(info, n, at).woven)
    decreases n
  {
    match n
    case Leaf(name, value) =>
      if value != Null {
        var leaves := LeavesOf(Repeated(WithName(info.bindings, name)));
        AddedHereAdded(leaves);
        AddedHereAppend(AddedAll(leaves), [Kept(n)]);
      }
    case List(_, _) =>
    case Object(name, kids) =>
      var i := FindMessage(info.messages, name);
      if i < |info.messages| {
        var w := WeaveAll(info.messages[i].info, kids, at + [name]);
        AllAreTidy(info.messages[i].info, kids, at + [name]);
        EndIsTidy(w.woven, w.left);
      }
  }

  lemma {:induction false} AllAreTidy(info: Info, ns: seq<Node>, at: seq<string>)
    requires IsSolid(info)
    ensures IsSolid(WeaveAll(info, ns, at).left) && AddsScalars(WeaveAll(info, ns, at).woven)
    decreases ns
  {
    if ns != [] {
      var first := WeaveOne(info, ns[0], at);
      OneIsTidy(info, ns[0], at);
      AllAreTidy(first.left, ns[1..], at);
      AddedHereAppend(first.woven, WeaveAll(first.left, ns[1..], at).woven);
    }
  }

  /** In a complete body object and in every object in it: what is added are scalars, then objects of different names,
      and no added object is empty. */
  lemma AddedIsTidy(bs: seq<BindingInfo>, name: string, kids: seq<Node>)
    requires HavePaths(bs)
    ensures var w := WeaveBody(BindAll(bs), name, kids);
            w.woven == [Mixed(name, w.woven[0].kids)] && IsTidy(w.woven[0].kids)
  {
    var w := WeaveAll(BindAll(bs), kids, []);
    BindAllIsSolid(bs);
    AllAreTidy(BindAll(bs), kids, []);
    EndIsTidy(w.woven, w.left);
  }
}
