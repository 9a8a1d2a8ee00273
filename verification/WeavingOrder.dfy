/** The values bound at a path are woven in in the order in which they were given. */
module WeavingOrder {
  import opened Sequences
  import opened Events
  import opened Weaving
  import opened WeavingConservation
  import opened WeavingDrops

  // Below, repeated restricts the values to those bound to a repeated field.

  /** The values given at that path, in order. */
  function ValuesOf(bs: seq<BindingInfo>, path: seq<string>, repeated: bool): seq<string>
    requires HavePaths(bs)
  {
    if bs == [] then []
    else
      var b := bs[|bs| - 1];
      ValuesOf(bs[..|bs| - 1], path, repeated) +
      if Names(b.fieldPath) == path && (repeated ==> b.fieldPath[|b.fieldPath| - 1].repeated) then [b.value] else []
  }

  function Texts(bs: seq<Bound>, name: string, repeated: bool): seq<string> {
    if bs == [] then []
    else
      (if bs[0].field.name == name && (repeated ==> bs[0].field.repeated) then [bs[0].value] else []) +
      Texts(bs[1..], name, repeated)
  }

  /** The values still held for that path. */
  function Held(info: Info, path: seq<string>, repeated: bool): seq<string>
    requires path != []
    decreases |path|
  {
    if |path| == 1 then Texts(info.bindings, path[0], repeated)
    else
      var i := FindMessage(info.messages, path[0]);
      if i < |info.messages| then Held(info.messages[i].info, path[1..], repeated) else []
  }

  /** The string scalars at that path among added nodes, in the order of the document. */
  function TextsAt(ns: seq<Node>, path: seq<string>): seq<string>
    requires path != []
    decreases ns
  {
    if ns == [] then [] else TextsIn(ns[0], path) + TextsAt(ns[1..], path)
  }

  function TextsIn(n: Node, path: seq<string>): seq<string>
    requires path != []
    decreases n
  {
    match n
    case Leaf(name, Data(String, text)) => if path == [name] then [text] else []
    case Leaf(_, _) => []
    case Object(name, kids) => if |path| > 1 && name == path[0] then TextsAt(kids, path[1..]) else []
    case List(_, _) => []
  }

  /** The values added to a woven object at that path, in the order of the document. */
  function AddedAt(ws: seq<Woven>, path: seq<string>): seq<string>
    requires path != []
  {
    if ws == [] then [] else AddedIn(ws[0], path) + AddedAt(ws[1..], path)
  }

  function AddedIn(w: Woven, path: seq<string>): seq<string>
    requires path != []
  {
    match w
    case Kept(_) => []
    case Mixed(name, kids) => if |path| > 1 && name == path[0] then AddedAt(kids, path[1..]) else []
    case Added(n) => TextsIn(n, path)
  }

  // ----- Binding -----

  lemma {:induction false} TextsAppend(bs: seq<Bound>, b: Bound, name: string, repeated: bool)
    ensures Texts(bs + [b], name, repeated) ==
            Texts(bs, name, repeated) +
            if b.field.name == name && (repeated ==> b.field.repeated) then [b.value] else []
  {
    if bs == [] {
      assert ([] + [b])[1..] == [];
    } else {
      TextsAppend(bs[1..], b, name, repeated);
      assert (bs + [b])[1..] == bs[1..] + [b];
    }
  }

  lemma {:induction false} BindAddsLast(info: Info, field: seq<Field>, value: string, path: seq<string>,
                                        repeated: bool)
    requires field != [] && path != []
    ensures Held(Bind(info, field, value), path, repeated) ==
            Held(info, path, repeated) +
            if Names(field) == path && (repeated ==> field[|field| - 1].repeated) then [value] else []
    decreases |field|
  {
    if |field| == 1 {
      TextsAppend(info.bindings, Bound(field[0], value), path[0], repeated);
      assert Names(field) == [field[0].name];
      assert |path| == 1 ==> path == [path[0]];
    } else if |path| > 1 {
      SamePath(field, path);
      if path[0] == field[0].name {
        var k := FindMessage(info.messages, path[0]);
        BoundInside(info, field, value);
        BindAddsLast(if k < |info.messages| then info.messages[k].info else NOTHING, field[1..], value, path[1..],
                     repeated);
        NothingHeld(path[1..], repeated);
      } else {
        OtherMessage(info, field, value, path, repeated);
      }
    }
  }

  lemma OtherMessage(info: Info, field: seq<Field>, value: string, path: seq<string>, repeated: bool)
    requires |field| > 1 && |path| > 1 && path[0] != field[0].name
    ensures Held(Bind(info, field, value), path, repeated) == Held(info, path, repeated)
  {
    var next, k := Bind(info, field, value), FindMessage(info.messages, path[0]);
    FindFirst(next.messages, path[0], if k < |info.messages| then k else |next.messages|);
  }

  lemma NothingHeld(path: seq<string>, repeated: bool)
    requires path != []
    ensures Held(NOTHING, path, repeated) == []
  {
  }

  lemma {:induction false} BindAllKeepsOrder(bs: seq<BindingInfo>, path: seq<string>, repeated: bool)
    requires HavePaths(bs) && path != []
    ensures Held(BindAll(bs), path, repeated) == ValuesOf(bs, path, repeated)
  {
    if bs == [] {
      NothingHeld(path, repeated);
    } else {
      var before, b := bs[..|bs| - 1], bs[|bs| - 1];
      BindAllKeepsOrder(before, path, repeated);
      BindAddsLast(BindAll(before), b.fieldPath, b.value, path, repeated);
    }
  }

  // ----- No two messages of one name -----

  ghost predicate AreDistinct(info: Info)
    decreases info
  {
    && (forall i, j :: 0 <= i < j < |info.messages| ==> info.messages[i].field.name != info.messages[j].field.name)
    && forall i :: 0 <= i < |info.messages| ==> AreDistinct(info.messages[i].info)
  }

  lemma {:induction false} BindKeepsDistinct(info: Info, path: seq<Field>, value: string)
    requires path != [] && AreDistinct(info)
    ensures AreDistinct(Bind(info, path, value))
    decreases |path|
  {
    if |path| > 1 {
      var i := FindMessage(info.messages, path[0].name);
      BindKeepsDistinct(if i < |info.messages| then info.messages[i].info else NOTHING, path[1..], value);
    }
  }

  lemma {:induction false} BindAllIsDistinct(bs: seq<BindingInfo>)
    requires HavePaths(bs)
    ensures AreDistinct(BindAll(bs))
  {
    if bs != [] {
      BindAllIsDistinct(bs[..|bs| - 1]);
      BindKeepsDistinct(BindAll(bs[..|bs| - 1]), bs[|bs| - 1].fieldPath, bs[|bs| - 1].value);
    }
  }

  lemma OneLeavesDistinct(info: Info, n: Node, at: seq<string>)
    requires AreDistinct(info)
    ensures AreDistinct(WeaveOne(info, n, at).left)
  {
  }

  lemma {:induction false} AllLeaveDistinct(info: Info, ns: seq<Node>, at: seq<string>)
    requires AreDistinct(info)
    ensures AreDistinct(WeaveAll(info, ns, at).left)
    decreases |ns|
  {
    if ns != [] {
      OneLeavesDistinct(info, ns[0], at);
      AllLeaveDistinct(WeaveOne(info, ns[0], at).left, ns[1..], at);
    }
  }

  // ----- What is added at the end of an object -----

  lemma {:induction false} TextsAtAppend(a: seq<Node>, b: seq<Node>, path: seq<string>)
    requires path != []
    ensures TextsAt(a + b, path) == TextsAt(a, path) + TextsAt(b, path)
    decreases |a|
  {
    if a == [] {
      assert a + b == b;
    } else {
      TextsAtAppend(a[1..], b, path);
      assert (a + b)[1..] == a[1..] + b;
      Assoc(TextsIn(a[0], path), TextsAt(a[1..], path), TextsAt(b, path));
    }
  }

  lemma {:induction false} TextsOfLeaves(bs: seq<Bound>, path: seq<string>)
    requires path != []
    ensures TextsAt(LeavesOf(bs), path) == if |path| == 1 then Texts(bs, path[0], false) else []
  {
    if bs != [] {
      TextsOfLeaves(bs[1..], path);
      assert LeavesOf(bs)[1..] == LeavesOf(bs[1..]);
      assert path == [bs[0].field.name] <==> |path| == 1 && path[0] == bs[0].field.name;
    }
  }

  lemma {:induction false} RemainderIsHeld(info: Info, path: seq<string>)
    requires path != [] && AreDistinct(info)
    ensures TextsAt(Remainder(info), path) == Held(info, path, false)
    decreases info
  {
    TextsOfLeaves(info.bindings, path);
    TextsAtAppend(LeavesOf(info.bindings), RemainderOfAll(info.messages), path);
    RemainderOfAllIsHeld(info.messages, path);
  }

  lemma {:induction false} RemainderOfAllIsHeld(ms: seq<Message>, path: seq<string>)
    requires path != [] && AreDistinct(Info(ms, []))
    ensures var i := FindMessage(ms, path[0]);
            TextsAt(RemainderOfAll(ms), path) ==
            if |path| > 1 && i < |ms| then Held(ms[i].info, path[1..], false) else []
    decreases ms
  {
    if ms != [] {
      var rest := Info(ms[1..], []);
      assert AreDistinct(ms[0].info);
      RemainderOfIsHeld(ms[0], path);
      assert AreDistinct(rest);
      RemainderOfAllIsHeld(ms[1..], path);
      TextsAtAppend(RemainderOf(ms[0]), RemainderOfAll(ms[1..]), path);
    }
  }

  lemma {:induction false} RemainderOfIsHeld(m: Message, path: seq<string>)
    requires path != [] && AreDistinct(m.info)
    ensures TextsAt(RemainderOf(m), path) ==
            if |path| > 1 && m.field.name == path[0] then Held(m.info, path[1..], false) else []
    decreases m
  {
    var n := Object(m.field.name, Remainder(m.info));
    assert [n][1..] == [];
    assert TextsAt([n], path) == TextsIn(n, path);
    if |path| > 1 {
      RemainderIsHeld(m.info, path[1..]);
    }
  }

  // ----- One node -----

  lemma {:induction false} AddedAtAppend(a: seq<Woven>, b: seq<Woven>, path: seq<string>)
    requires path != []
    ensures AddedAt(a + b, path) == AddedAt(a, path) + AddedAt(b, path)
    decreases |a|
  {
    if a == [] {
      assert a + b == b;
    } else {
      AddedAtAppend(a[1..], b, path);
      assert (a + b)[1..] == a[1..] + b;
      Assoc(AddedIn(a[0], path), AddedAt(a[1..], path), AddedAt(b, path));
    }
  }

  lemma {:induction false} AddedAtAdded(ns: seq<Node>, path: seq<string>)
    requires path != []
    ensures AddedAt(AddedAll(ns), path) == TextsAt(ns, path)
  {
    if ns != [] {
      AddedAtAdded(ns[1..], path);
      assert AddedAll(ns)[1..] == AddedAll(ns[1..]);
    }
  }

  /** The bindings of one name, of which those to repeated fields are added. */
  lemma {:induction false} TextsOfHit(bs: seq<Bound>, name: string, other: string)
    ensures Texts(Repeated(WithName(bs, name)), other, false) == if other == name then Texts(bs, name, true) else []
  {
    if bs != [] {
      TextsOfHit(bs[1..], name, other);
      var hit := WithName(bs[1..], name);
      if bs[0].field.name == name {
        assert ([bs[0]] + hit)[1..] == hit;
        assert ([bs[0]] + Repeated(hit))[1..] == Repeated(hit);
      }
    }
  }

  lemma {:induction false} TextsOfOthers(bs: seq<Bound>, name: string, other: string, repeated: bool)
    ensures Texts(WithoutName(bs, name), other, repeated) == if other == name then [] else Texts(bs, other, repeated)
  {
    if bs != [] {
      var rest := WithoutName(bs[1..], name);
      TextsOfOthers(bs[1..], name, other, repeated);
      assert ([bs[0]] + rest)[1..] == rest;
    }
  }

  lemma LeafAdds(info: Info, name: string, body: Scalar, at: seq<string>, path: seq<string>, repeated: bool)
    requires path != [] && body != Null
    ensures var w := WeaveOne(info, Leaf(name, body), at);
            if path == [name] then
              AddedAt(w.woven, path) == Held(info, path, true) && Held(w.left, path, repeated) == []
            else AddedAt(w.woven, path) == [] && Held(w.left, path, repeated) == Held(info, path, repeated)
  {
    var hit := Repeated(WithName(info.bindings, name));
    TextsOfHit(info.bindings, name, path[0]);
    TextsOfOthers(info.bindings, name, path[0], repeated);
    TextsOfLeaves(hit, path);
    AddedAtAdded(LeavesOf(hit), path);
    AddedAtAppend(AddedAll(LeavesOf(hit)), [Kept(Leaf(name, body))], path);
  }

  /** What one node adds at the path, and what it leaves there. */
  lemma {:induction false} OneAdds(info: Info, n: Node, at: seq<string>, path: seq<string>, repeated: bool)
    requires path != [] && AreDistinct(info)
    ensures var w := WeaveOne(info, n, at);
            if |path| == 1 && IsSet(n, path[0]) then
              AddedAt(w.woven, path) == Held(info, path, true) && Held(w.left, path, repeated) == []
            else if |path| > 1 && n.Object? && n.name == path[0] then
              AddedAt(w.woven, path) == Held(info, path, Sets(n.kids, path[1..]))
              && Held(w.left, path, repeated) == []
            else AddedAt(w.woven, path) == [] && Held(w.left, path, repeated) == Held(info, path, repeated)
    decreases n
  {
    match n
    case Leaf(name, body) =>
      if body != Null {
        LeafAdds(info, name, body, at, path, repeated);
      }
    case List(_, _) =>
    case Object(name, kids) =>
      var i := FindMessage(info.messages, name);
      if i < |info.messages| {
        var w := WeaveAll(info.messages[i].info, kids, at + [name]);
        if |path| > 1 && name == path[0] {
          AllAdd(info.messages[i].info, kids, at + [name], path[1..]);
          AddedAtAdded(Remainder(w.left), path[1..]);
          AddedAtAppend(w.woven, AddedAll(Remainder(w.left)), path[1..]);
        }
        ObjectLeaves(info, n, at, path, repeated);
      }
  }

  lemma ObjectLeaves(info: Info, n: Node, at: seq<string>, path: seq<string>, repeated: bool)
    requires path != [] && n.Object? && FindMessage(info.messages, n.name) < |info.messages|
    ensures Held(WeaveOne(info, n, at).left, path, repeated) ==
            if |path| > 1 && n.name == path[0] then [] else Held(info, path, repeated)
  {
    var w := WeaveOne(info, n, at);
    FindFirst(w.left.messages, path[0], FindMessage(info.messages, path[0]));
    if |path| > 1 {
      NothingHeld(path[1..], repeated);
    }
  }

  /** The values added to an object at the path, with what is added at its end: all of them, or those to repeated
      fields if the object sets the field itself. */
  lemma {:induction false} AllAdd(info: Info, ns: seq<Node>, at: seq<string>, path: seq<string>)
    requires path != [] && AreDistinct(info)
    ensures var w := WeaveAll(info, ns, at);
            AddedAt(w.woven, path) + TextsAt(Remainder(w.left), path) == Held(info, path, Sets(ns, path))
    decreases ns
  {
    if ns == [] {
      RemainderIsHeld(info, path);
    } else {
      var first := WeaveOne(info, ns[0], at);
      var rest := WeaveAll(first.left, ns[1..], at);
      OneAdds(info, ns[0], at, path, Sets(ns[1..], path));
      OneLeavesDistinct(info, ns[0], at);
      AllAdd(first.left, ns[1..], at, path);
      AddedAtAppend(first.woven, rest.woven, path);
      Assoc(AddedAt(first.woven, path), AddedAt(rest.woven, path), TextsAt(Remainder(rest.left), path));
      SetsFirst(ns, path);
    }
  }

  // ----- The whole body -----

  /** In a complete body object the values added at a path are those given there, in the order in which they were given:
      all of them if the body does not set the field, and otherwise those to repeated fields. */
  lemma AddedInOrder(bs: seq<BindingInfo>, name: string, kids: seq<Node>, path: seq<string>)
    requires HavePaths(bs) && path != []
    ensures var w := WeaveBody(BindAll(bs), name, kids);
            && w.woven == [Mixed(name, w.woven[0].kids)]
            && AddedAt(w.woven[0].kids, path) == ValuesOf(bs, path, Sets(kids, path))
  {
    var info := BindAll(bs);
    var w := WeaveAll(info, kids, []);
    BindAllIsDistinct(bs);
    AllAdd(info, kids, [], path);
    AddedAtAdded(Remainder(w.left), path);
    AddedAtAppend(w.woven, AddedAll(Remainder(w.left)), path);
    BindAllKeepsOrder(bs, path, Sets(kids, path));
  }

  // ----- Two bodies -----

  lemma {:induction false} RendersEach(ws: seq<Woven>)
    ensures |RenderAll(ws)| == |ws|
    ensures forall i :: 0 <= i < |ws| ==> RenderAll(ws)[i] == Weaving.Render(ws[i])
  {
    if ws != [] {
      RendersEach(ws[1..]);
    }
  }

  lemma RendersMixed(name: string, ws: seq<Woven>)
    ensures RenderAll([Mixed(name, ws)]) == [Object(name, RenderAll(ws))]
  {
    assert [Mixed(name, ws)][1..] == [];
  }

  lemma BindTwo(a: BindingInfo, b: BindingInfo)
    requires a.fieldPath != [] && b.fieldPath != []
    ensures BindAll([a, b]) == Bind(Bind(NOTHING, a.fieldPath, a.value), b.fieldPath, b.value)
  {
    assert [a, b][..1] == [a] && [a][..0] == [];
    assert BindAll([a]) == Bind(BindAll([]), a.fieldPath, a.value);
  }

  lemma {:induction false} AllAreHit(bs: seq<Bound>, field: Field, body: Scalar)
    requires field.repeated && forall i :: 0 <= i < |bs| ==> bs[i].field == field
    ensures WithName(bs, field.name) == bs == Repeated(bs)
    ensures WithoutName(bs, field.name) == [] && DropsOf(bs, [], body) == []
  {
    if bs != [] {
      AllAreHit(bs[1..], field, body);
    }
  }

  lemma LeafWithTwo(one: Bound, two: Bound, body: Scalar)
    requires one.field == two.field && one.field.repeated && body != Null
    ensures var own := Leaf(one.field.name, body);
            WeaveAll(Info([], [one, two]), [own], []) ==
            Weave([Added(LeafOf(one)), Added(LeafOf(two)), Kept(own)], NOTHING, [])
  {
    var own, both := Leaf(one.field.name, body), [one, two];
    AllAreHit(both, one.field, body);
    var first := WeaveOne(Info([], both), own, []);
    assert first == Weave([Added(LeafOf(one)), Added(LeafOf(two)), Kept(own)], NOTHING, []);
    assert [own][1..] == [] && WeaveAll(NOTHING, [], []) == Weave([], NOTHING, []);
    Nothing(first.woven);
  }

  /** Values of a repeated field come before the body's own value, in the order given. */
  lemma RepeatedValuesComeFirst(own: Scalar)
    requires own != Null
    ensures var ids := Field("ids", true);
            RenderAll(WeaveBody(BindAll([BindingInfo([ids], "1"), BindingInfo([ids], "2")]), "",
                                [Leaf("ids", own)]).woven) ==
            [Object("", [Leaf("ids", Data(String, "1")), Leaf("ids", Data(String, "2")), Leaf("ids", own)])]
  {
    var ids := Field("ids", true);
    BindTwo(BindingInfo([ids], "1"), BindingInfo([ids], "2"));
    assert [] + [Bound(ids, "1")] + [Bound(ids, "2")] == [Bound(ids, "1"), Bound(ids, "2")];
    LeafWithTwo(Bound(ids, "1"), Bound(ids, "2"), own);
    var ws := [Added(LeafOf(Bound(ids, "1"))), Added(LeafOf(Bound(ids, "2"))), Kept(Leaf("ids", own))];
    assert Remainder(NOTHING) == [];
    Nothing(ws);
    assert ws + AddedAll([]) == ws;
    RendersEach(ws);
    RendersMixed("", ws);
    assert RenderAll(ws) == [LeafOf(Bound(ids, "1")), LeafOf(Bound(ids, "2")), Leaf("ids", own)];
    var info := BindAll([BindingInfo([ids], "1"), BindingInfo([ids], "2")]);
    assert info == Info([], [Bound(ids, "1"), Bound(ids, "2")]);
    assert WeaveBody(info, "", [Leaf("ids", own)]).woven == [Mixed("", ws)];
  }

  lemma RemainderOfTwo(s: Field, a: Bound, x: Bound)
    ensures Remainder(Info([Message(s, Info([], [a]))], [x])) == [LeafOf(x), Object(s.name, [LeafOf(a)])]
  {
    var inner := Info([], [a]);
    assert [Message(s, inner)][1..] == [];
    assert RemainderOfAll([]) == [];
    assert Remainder(inner) == [LeafOf(a)];
    assert RemainderOfAll([Message(s, inner)]) == [Object(s.name, Remainder(inner))];
  }

  /** With an empty body the fields of the object itself come first, and then its messages. */
  lemma FieldsComeBeforeMessages()
    ensures var s, a, x := Field("s", false), Field("a", false), Field("x", false);
            RenderAll(WeaveBody(BindAll([BindingInfo([s, a], "1"), BindingInfo([x], "2")]), "", []).woven) ==
            [Object("", [Leaf("x", Data(String, "2")), Object("s", [Leaf("a", Data(String, "1"))])])]
  {
    var s, a, x := Field("s", false), Field("a", false), Field("x", false);
    BindTwo(BindingInfo([s, a], "1"), BindingInfo([x], "2"));
    assert [s, a][1..] == [a];
    assert Bind(NOTHING, [a], "1") == Info([], [Bound(a, "1")]);
    var info := Info([Message(s, Info([], [Bound(a, "1")]))], [Bound(x, "2")]);
    assert Bind(NOTHING, [s, a], "1") == info.(bindings := []);
    assert BindAll([BindingInfo([s, a], "1"), BindingInfo([x], "2")]) == info;
    RemainderOfTwo(s, Bound(a, "1"), Bound(x, "2"));
    var all := Remainder(info);
    RendersEach(AddedAll(all));
    assert RenderAll(AddedAll(all)) == all;
    assert [] + AddedAll(all) == AddedAll(all);
    RendersMixed("", AddedAll(all));
    assert WeaveBody(info, "", []).woven == [Mixed("", AddedAll(all))];
  }
}
