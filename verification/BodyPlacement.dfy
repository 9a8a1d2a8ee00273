/** Where the body of a request ends up in its message. */
module BodyPlacement {
  import opened Sequences
  import opened Strings
  import opened Events
  import opened Weaving
  import opened PrefixWriting
  import opened RequestPipeline

  /** Without bindings, any events: those for "" and "*" are passed on as they are. */
  lemma PassedOnIff(info: RequestInfo, lib: Library, es: seq<Event>)
    requires info.bindings == []
    ensures Received(info, lib, es) ==
            if info.bodyFieldPath == "" || info.bodyFieldPath == "*" then es
            else WrittenAll(PartsOf(info.bodyFieldPath), 0, es)
  {
  }

  /** Without bindings the message is the body for "" and "*", and otherwise the body with one object around it for
      each part of the path. */
  lemma BodyIsPlaced(info: RequestInfo, lib: Library, body: Node)
    requires info.bindings == []
    ensures Received(info, lib, Serialize(body)) ==
            if info.bodyFieldPath == "" || info.bodyFieldPath == "*" then Serialize(body)
            else Serialize(Wrap(PartsOf(info.bodyFieldPath), body))
  {
    RootIsWrapped(PartsOf(info.bodyFieldPath), body);
  }

  /** For a field path made of identifiers: each is the name of what is in the object before it. */
  lemma BodyIsNested(info: RequestInfo, lib: Library, ids: seq<string>, body: Node)
    requires info.bindings == [] && ids != [] && info.bodyFieldPath == Join(ids, '.')
    requires Without(ids, '.') && forall i :: 0 <= i < |ids| ==> ids[i] != "" && ids[i] != "*"
    ensures Received(info, lib, Serialize(body)) == Serialize(Nested(body.name, ids, body))
  {
    PartsOfJoin(ids);
    NotOneOfTheTwo(ids);
    BodyIsPlaced(info, lib, body);
    WrapNests(ids, body);
  }

  lemma NotOneOfTheTwo(ids: seq<string>)
    requires ids != [] && forall i :: 0 <= i < |ids| ==> ids[i] != "" && ids[i] != "*"
    ensures Join(ids, '.') != "" && Join(ids, '.') != "*"
  {
    if |ids| > 1 {
      assert |Join(ids, '.')| > 1;
    }
  }

  /** Objects with one field each; the innermost field is the body. */
  function Nested(name: string, ids: seq<string>, body: Node): Node
    decreases |ids|
  {
    if ids == [] then body.(name := name) else Object(name, [Nested(ids[0], ids[1..], body)])
  }

  lemma {:induction false} WrapNests(ids: seq<string>, body: Node)
    ensures Wrap(ids, body) == Nested(body.name, ids, body)
    decreases |ids|
  {
    if ids != [] {
      WrapNests(ids[1..], Renamed(body, ids[0]));
      NestedRenamed(ids[0], ids[1..], body, ids[0]);
    }
  }

  lemma {:induction false} NestedRenamed(name: string, ids: seq<string>, body: Node, other: string)
    ensures Nested(name, ids, Renamed(body, other)) == Nested(name, ids, body)
    decreases |ids|
  {
    if ids != [] {
      NestedRenamed(ids[0], ids[1..], body, other);
    }
  }

  /** The bindings are woven into the body itself for "", "*" and a path without parts, */
  lemma BodyIsWoven(info: RequestInfo, lib: Library, body: Node)
    requires HavePaths(info.bindings) && body.Object?
    requires info.bodyFieldPath == "" || info.bodyFieldPath == "*" || PartsOf(info.bodyFieldPath) == []
    ensures WeaverTakes(info, lib, Serialize(body))
    ensures Received(info, lib, Serialize(body)) ==
            SerializeAll(RenderAll(WeaveBody(BindAll(info.bindings), body.name, body.kids).woven))
  {
    ReceivedIsWoven(info, lib, body);
  }

  /** and otherwise into the object around it. */
  lemma PlacedBodyIsWoven(info: RequestInfo, lib: Library, body: Node)
    requires HavePaths(info.bindings) && PartsOf(info.bodyFieldPath) != []
    requires info.bodyFieldPath != "" && info.bodyFieldPath != "*"
    ensures WeaverTakes(info, lib, Serialize(body))
    ensures var parts := PartsOf(info.bodyFieldPath);
            Received(info, lib, Serialize(body)) ==
            SerializeAll(RenderAll(WeaveBody(BindAll(info.bindings), body.name,
                                             [Nested(parts[0], parts[1..], body)]).woven))
  {
    var parts := PartsOf(info.bodyFieldPath);
    ReceivedIsWoven(info, lib, body);
    WrapNests(parts, body);
  }
}
