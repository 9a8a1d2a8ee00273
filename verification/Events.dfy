/** The events of an ObjectWriter and the JSON-like values they spell. */
module Events {
  import opened Sequences

  datatype Kind = Bool | Int32 | Uint32 | Int64 | Uint64 | Double | Float | String | Bytes

  /** A value passed to one of the Render methods; what it holds is not looked into. */
  datatype Scalar = Null | Data(kind: Kind, text: string)

  datatype Event =
    | StartObject(name: string)
    | EndObject
    | StartList(name: string)
    | EndList
    | Render(name: string, value: Scalar)

  /** A named value: a scalar, an object with its fields, or a list with its elements. */
  datatype Node =
    | Leaf(name: string, value: Scalar)
    | Object(name: string, kids: seq<Node>)
    | List(name: string, kids: seq<Node>)

  function Serialize(n: Node): seq<Event> {
    match n
    case Leaf(name, value) => [Render(name, value)]
    case Object(name, kids) => [StartObject(name)] + SerializeAll(kids) + [EndObject]
    case List(name, kids) => [StartList(name)] + SerializeAll(kids) + [EndList]
  }

  function SerializeAll(ns: seq<Node>): seq<Event> {
    if ns == [] then [] else Serialize(ns[0]) + SerializeAll(ns[1..])
  }

  lemma {:induction false} SerializeAppend(a: seq<Node>, b: seq<Node>)
    ensures SerializeAll(a + b) == SerializeAll(a) + SerializeAll(b)
    decreases |a|
  {
    if a == [] {
      assert a + b == b;
    } else {
      SerializeAppend(a[1..], b);
      assert (a + b)[1..] == a[1..] + b;
      Assoc(Serialize(a[0]), SerializeAll(a[1..]), SerializeAll(b));
    }
  }

  lemma SerializeOne(n: Node)
    ensures SerializeAll([n]) == Serialize(n)
  {
    assert [n][1..] == [];
  }

  // ----- Nesting -----

  /** The containers open after some events, outermost first; true for an object. None if an end does not match. */
  function OpenAfter(open: seq<bool>, e: Event): (r: seq<bool>)
    requires CanFollow(open, e)
  {
    match e
    case StartObject(_) => open + [true]
    case StartList(_) => open + [false]
    case Render(_, _) => open
    case _ => open[..|open| - 1]
  }

  predicate CanFollow(open: seq<bool>, e: Event) {
    match e
    case EndObject => open != [] && open[|open| - 1]
    case EndList => open != [] && !open[|open| - 1]
    case _ => true
  }
}
