/** Weaving variable bindings into a request body, on trees. */
module Weaving {
  import opened Sequences
  import opened Events

  datatype Field = Field(name: string, repeated: bool)
  datatype Bound = Bound(field: Field, value: string)
  datatype Message = Message(field: Field, info: Info)
  /** The bindings still to be woven into an object: its own fields and those of its sub-messages. */
  datatype Info = Info(messages: seq<Message>, bindings: seq<Bound>)

  const NOTHING := Info([], [])

  // ----- The tree of bindings -----

  /** The index of the message of that name, or the number of messages. */
  function FindMessage(ms: seq<Message>, name: string): (i: nat)
    ensures i <= |ms| && (i < |ms| ==> ms[i].field.name == name)
    ensures forall j :: 0 <= j < i ==> ms[j].field.name != name
  {
    if ms == [] || ms[0].field.name == name then 0 else 1 + FindMessage(ms[1..], name)
  }

  function Bind(info: Info, path: seq<Field>, value: string): Info
    requires path != []
    decreases |path|
  {
    if |path| == 1 then info.(bindings := info.bindings + [Bound(path[0], value)])
    else
      var i := FindMessage(info.messages, path[0].name);
      var ms := if i < |info.messages| then info.messages else info.messages + [Message(path[0], NOTHING)];
      info.(messages := ms[i := ms[i].(info := Bind(ms[i].info, path[1..], value))])
  }

  datatype BindingInfo = BindingInfo(fieldPath: seq<Field>, value: string)

  ghost predicate HavePaths(bs: seq<BindingInfo>) {
    forall i :: 0 <= i < |bs| ==> bs[i].fieldPath != []
  }

  function BindAll(bs: seq<BindingInfo>): Info
    requires HavePaths(bs)
  {
    if bs == [] then NOTHING
    else Bind(BindAll(bs[..|bs| - 1]), bs[|bs| - 1].fieldPath, bs[|bs| - 1].value)
  }

  // ----- The woven body -----

  /** A piece of the woven body: copied from the body, an object of the body that bindings were woven into, or added. */
  datatype Woven =
    | Kept(node: Node)
    | Mixed(name: string, kids: seq<Woven>)
    | Added(node: Node)

  function Render(w: Woven): Node {
    match w
    case Kept(n) => n
    case Mixed(name, kids) => Object(name, RenderAll(kids))
    case Added(n) => n
  }

  function RenderAll(ws: seq<Woven>): seq<Node> {
    if ws == [] then [] else [Render(ws[0])] + RenderAll(ws[1..])
  }

  /** Without what was added. */
  function Strip(ws: seq<Woven>): seq<Node> {
    if ws == [] then [] else StripPiece(ws[0]) + Strip(ws[1..])
  }

  function StripPiece(w: Woven): seq<Node> {
    match w
    case Kept(n) => [n]
    case Mixed(name, kids) => [Object(name, Strip(kids))]
    case Added(_) => []
  }

  function LeafOf(b: Bound): Node {
    Leaf(b.field.name, Data(String, b.value))
  }

  function LeavesOf(bs: seq<Bound>): seq<Node> {
    seq(|bs|, i requires 0 <= i < |bs| => LeafOf(bs[i]))
  }

  /** What is added when nothing more of the object comes: its bindings, then each message with something left. */
  function Remainder(info: Info): seq<Node>
    decreases info
  {
    LeavesOf(info.bindings) + RemainderOfAll(info.messages)
  }

  function RemainderOfAll(ms: seq<Message>): seq<Node>
    decreases ms
  {
    if ms == [] then []
    else RemainderOf(ms[0]) + RemainderOfAll(ms[1..])
  }

  function RemainderOf(m: Message): seq<Node>
    decreases m
  {
    if m.info == NOTHING then [] else [Object(m.field.name, Remainder(m.info))]
  }

  function AddedAll(ns: seq<Node>): seq<Woven> {
    seq(|ns|, i requires 0 <= i < |ns| => Added(ns[i]))
  }

  function WithName(bs: seq<Bound>, name: string): seq<Bound> {
    if bs == [] then []
    else if bs[0].field.name == name then [bs[0]] + WithName(bs[1..], name)
    else WithName(bs[1..], name)
  }

  function WithoutName(bs: seq<Bound>, name: string): seq<Bound> {
    if bs == [] then []
    else if bs[0].field.name == name then WithoutName(bs[1..], name)
    else [bs[0]] + WithoutName(bs[1..], name)
  }

  function Repeated(bs: seq<Bound>): seq<Bound> {
    if bs == [] then []
    else if bs[0].field.repeated then [bs[0]] + Repeated(bs[1..])
    else Repeated(bs[1..])
  }

  /** A binding given up for a body scalar; path ends in its field. */
  datatype Drop = Drop(path: seq<string>, bound: Bound, body: Scalar)

  function DropsOf(bs: seq<Bound>, at: seq<string>, body: Scalar): seq<Drop> {
    if bs == [] then []
    else if bs[0].field.repeated then DropsOf(bs[1..], at, body)
    else [Drop(at + [bs[0].field.name], bs[0], body)] + DropsOf(bs[1..], at, body)
  }

  datatype Weave = Weave(woven: seq<Woven>, left: Info, drops: seq<Drop>)

  /** One field of the object at path at, with the bindings for that object. */
  function WeaveOne(info: Info, n: Node, at: seq<string>): Weave
    decreases n
  {
    match n
    case Leaf(name, value) =>
      if value == Null then Weave([Kept(n)], info, [])
      else
        var hit := WithName(info.bindings, name);
        Weave(AddedAll(LeavesOf(Repeated(hit))) + [Kept(n)],
              info.(bindings := WithoutName(info.bindings, name)), DropsOf(hit, at, value))
    case List(_, _) => Weave([Kept(n)], info, [])
    case Object(name, kids) =>
      var i := FindMessage(info.messages, name);
      if i == |info.messages| then Weave([Kept(n)], info, [])
      else
        var w := WeaveAll(info.messages[i].info, kids, at + [name]);
        Weave([Mixed(name, w.woven + AddedAll(Remainder(w.left)))],
              info.(messages := info.messages[i := info.messages[i].(info := NOTHING)]), w.drops)
  }

  function WeaveAll(info: Info, ns: seq<Node>, at: seq<string>): Weave
    decreases ns
  {
    if ns == [] then Weave([], info, [])
    else
      var first := WeaveOne(info, ns[0], at);
      var rest := WeaveAll(first.left, ns[1..], at);
      Weave(first.woven + rest.woven, rest.left, first.drops + rest.drops)
  }

  /** The whole body object. */
  function WeaveBody(info: Info, name: string, kids: seq<Node>): Weave {
    var w := WeaveAll(info, kids, []);
    Weave([Mixed(name, w.woven + AddedAll(Remainder(w.left)))], NOTHING, w.drops)
  }

  // ----- Nothing of the body is lost -----

  lemma {:induction false} StripAppend(a: seq<Woven>, b: seq<Woven>)
    ensures Strip(a + b) == Strip(a) + Strip(b)
    decreases |a|
  {
    if a == [] {
      assert a + b == b;
    } else {
      StripAppend(a[1..], b);
      assert (a + b)[1..] == a[1..] + b;
      Assoc(StripPiece(a[0]), Strip(a[1..]), Strip(b));
    }
  }

  lemma {:induction false} StripAdded(ns: seq<Node>)
    ensures Strip(AddedAll(ns)) == []
  {
    if ns != [] {
      StripAdded(ns[1..]);
      assert AddedAll(ns)[1..] == AddedAll(ns[1..]);
    }
  }

  lemma StripMixed(name: string, ws: seq<Woven>, added: seq<Node>)
    ensures Strip([Mixed(name, ws + AddedAll(added))]) == [Object(name, Strip(ws))]
  {
    var w := Mixed(name, ws + AddedAll(added));
    assert [w][1..] == [];
    StripAdded(added);
    StripAppend(ws, AddedAll(added));
    assert Strip(ws) + [] == Strip(ws);
  }

  lemma {:induction false} StripOne(info: Info, n: Node, at: seq<string>)
    ensures Strip(WeaveOne(info, n, at).woven) == [n]
    decreases n
  {
    match n
    case Leaf(name, value) =>
      if value != Null {
        var added := AddedAll(LeavesOf(Repeated(WithName(info.bindings, name))));
        StripAdded(LeavesOf(Repeated(WithName(info.bindings, name))));
        StripAppend(added, [Kept(n)]);
      }
    case List(_, _) =>
    case Object(name, kids) =>
      var i := FindMessage(info.messages, name);
      if i < |info.messages| {
        var w := WeaveAll(info.messages[i].info, kids, at + [name]);
        StripAll(info.messages[i].info, kids, at + [name]);
        StripMixed(name, w.woven, Remainder(w.left));
      }
  }

  /** Taking away what was added gives the body back. */
  lemma {:induction false} StripAll(info: Info, ns: seq<Node>, at: seq<string>)
    ensures Strip(WeaveAll(info, ns, at).woven) == ns
    decreases ns
  {
    if ns != [] {
      var first := WeaveOne(info, ns[0], at);
      StripOne(info, ns[0], at);
      StripAll(first.left, ns[1..], at);
      StripAppend(first.woven, WeaveAll(first.left, ns[1..], at).woven);
    }
  }

  lemma BodyIsKept(info: Info, name: string, kids: seq<Node>)
    ensures Strip(WeaveBody(info, name, kids).woven) == [Object(name, kids)]
  {
    var w := WeaveAll(info, kids, []);
    StripAll(info, kids, []);
    StripMixed(name, w.woven, Remainder(w.left));
  }
}
