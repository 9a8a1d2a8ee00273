/** Writing root values under a prefix, event by event. */
module PrefixWriting {
  import opened Sequences
  import opened Events
  import opened Strings

  /** The parts of a body field path. */
  function PartsOf(path: string): seq<string> { NonEmpty(Split(path, '.')) }

  function NonEmpty(pieces: seq<string>): (r: seq<string>)
    ensures forall i :: 0 <= i < |r| ==> r[i] != ""
  {
    if pieces == [] then [] else (if pieces[0] == "" then [] else [pieces[0]]) + NonEmpty(pieces[1..])
  }

  lemma {:induction false} NonEmptyBoth(a: seq<string>, b: seq<string>)
    ensures NonEmpty(a + b) == NonEmpty(a) + NonEmpty(b)
    decreases |a|
  {
    if a == [] {
      assert a + b == b;
    } else {
      NonEmptyBoth(a[1..], b);
      assert (a + b)[1..] == a[1..] + b;
    }
  }

  /** A path is cut at every dot; */
  lemma PartsAroundDot(a: string, b: string)
    ensures PartsOf(a + "." + b) == PartsOf(a) + PartsOf(b)
  {
    SplitBoth(a, b, '.');
    NonEmptyBoth(Split(a, '.'), Split(b, '.'));
  }

  /** and what has no dot is a part, unless it is empty. */
  lemma PartsWithoutDot(id: string)
    requires '.' !in id
    ensures PartsOf(id) == if id == "" then [] else [id]
  {
    SplitSingle(id, '.');
    assert [id][1..] == [] && NonEmpty([]) == [];
  }

  /** So cutting undoes joining. */
  lemma {:induction false} PartsOfJoin(ids: seq<string>)
    requires Without(ids, '.') && forall i :: 0 <= i < |ids| ==> ids[i] != ""
    ensures PartsOf(Join(ids, '.')) == ids
  {
    if ids == [] {
      PartsWithoutDot("");
    } else {
      PartsWithoutDot(ids[0]);
      if |ids| > 1 {
        PartsOfJoin(ids[1..]);
        PartsAroundDot(ids[0], Join(ids[1..], '.'));
      }
    }
  }

  // ----- One event -----

  /** The objects opened around a value of that name, and the name that is left for the value. */
  function Opening(prefix: seq<string>, name: string): (r: seq<Event>)
    ensures |r| == |prefix|
  {
    if prefix == [] then [] else [StartObject(name)] + Opening(prefix[1..], prefix[0])
  }

  function Inner(prefix: seq<string>, name: string): string {
    if prefix == [] then name else prefix[|prefix| - 1]
  }

  function Closing(n: nat): seq<Event> { seq(n, _ => EndObject) }

  function DepthAfter(depth: int, e: Event): int {
    match e
    case StartObject(_) => depth + 1
    case StartList(_) => depth + 1
    case Render(_, _) => depth
    case _ => depth - 1
  }

  function Written(prefix: seq<string>, depth: int, e: Event): seq<Event> {
    match e
    case StartObject(name) =>
      if depth == 0 then Opening(prefix, name) + [StartObject(Inner(prefix, name))] else [e]
    case StartList(name) =>
      if depth == 0 then Opening(prefix, name) + [StartList(Inner(prefix, name))] else [e]
    case Render(name, value) =>
      if depth == 0 then Opening(prefix, name) + [Render(Inner(prefix, name), value)] + Closing(|prefix|) else [e]
    case _ =>
      if depth == 1 then [e] + Closing(|prefix|) else [e]
  }

  // ----- Many events -----

  function WrittenAll(prefix: seq<string>, depth: int, es: seq<Event>): seq<Event>
    decreases |es|
  {
    if es == [] then [] else Written(prefix, depth, es[0]) + WrittenAll(prefix, DepthAfter(depth, es[0]), es[1..])
  }

  function DepthAfterAll(depth: int, es: seq<Event>): int
    decreases |es|
  {
    if es == [] then depth else DepthAfterAll(DepthAfter(depth, es[0]), es[1..])
  }

  /** What is written for es, and the depth afterwards. */
  ghost predicate Writes(prefix: seq<string>, depth: int, es: seq<Event>, out: seq<Event>, end: int) {
    WrittenAll(prefix, depth, es) == out && DepthAfterAll(depth, es) == end
  }

  lemma {:induction false} WritesAppend(prefix: seq<string>, depth: int, a: seq<Event>, outA: seq<Event>, mid: int,
                                        b: seq<Event>, outB: seq<Event>, end: int)
    requires Writes(prefix, depth, a, outA, mid) && Writes(prefix, mid, b, outB, end)
    ensures Writes(prefix, depth, a + b, outA + outB, end)
    decreases |a|
  {
    if a == [] {
      assert a + b == b && outA + outB == outB;
    } else {
      var d, rest := DepthAfter(depth, a[0]), WrittenAll(prefix, DepthAfter(depth, a[0]), a[1..]);
      WritesAppend(prefix, d, a[1..], rest, mid, b, outB, end);
      WritesCons(prefix, depth, a[0], a[1..] + b, rest + outB, end);
      assert [a[0]] + (a[1..] + b) == a + b;
      Assoc(Written(prefix, depth, a[0]), rest, outB);
    }
  }

  lemma WritesCons(prefix: seq<string>, depth: int, e: Event, es: seq<Event>, out: seq<Event>, end: int)
    requires Writes(prefix, DepthAfter(depth, e), es, out, end)
    ensures Writes(prefix, depth, [e] + es, Written(prefix, depth, e) + out, end)
  {
    assert ([e] + es)[1..] == es;
  }

  lemma WritesOne(prefix: seq<string>, depth: int, e: Event)
    ensures Writes(prefix, depth, [e], Written(prefix, depth, e), DepthAfter(depth, e))
  {
    assert [e][1..] == [] && WrittenAll(prefix, DepthAfter(depth, e), []) == [];
    assert Written(prefix, depth, e) + [] == Written(prefix, depth, e);
  }

  // ----- On values, it wraps -----

  function Renamed(n: Node, name: string): Node { n.(name := name) }

  function Wrap(prefix: seq<string>, n: Node): Node
    decreases |prefix|
  {
    if prefix == [] then n else Object(n.name, [Wrap(prefix[1..], Renamed(n, prefix[0]))])
  }

  function WrapAll(prefix: seq<string>, ns: seq<Node>): seq<Node> {
    seq(|ns|, i requires 0 <= i < |ns| => Wrap(prefix, ns[i]))
  }

  lemma {:induction false} InsideIsCopied(prefix: seq<string>, depth: int, n: Node)
    requires depth > 0
    ensures Writes(prefix, depth, Serialize(n), Serialize(n), depth)
    decreases n
  {
    match n
    case Leaf(name, value) =>
      WritesOne(prefix, depth, Render(name, value));
    case Object(name, kids) =>
      InnerContainer(prefix, depth, StartObject(name), kids, EndObject);
    case List(name, kids) =>
      InnerContainer(prefix, depth, StartList(name), kids, EndList);
  }

  lemma {:induction false} InnerContainer(prefix: seq<string>, depth: int, start: Event, kids: seq<Node>, end: Event)
    requires depth > 0
    requires (start.StartObject? && end == EndObject) || (start.StartList? && end == EndList)
    ensures var es := [start] + SerializeAll(kids) + [end]; Writes(prefix, depth, es, es, depth)
    decreases kids, 1
  {
    var inner := SerializeAll(kids);
    WritesOne(prefix, depth, start);
    AllInsideIsCopied(prefix, depth + 1, kids);
    WritesOne(prefix, depth + 1, end);
    WritesAppend(prefix, depth, [start], [start], depth + 1, inner, inner, depth + 1);
    WritesAppend(prefix, depth, [start] + inner, [start] + inner, depth + 1, [end], [end], depth);
  }

  lemma {:induction false} AllInsideIsCopied(prefix: seq<string>, depth: int, ns: seq<Node>)
    requires depth > 0
    ensures Writes(prefix, depth, SerializeAll(ns), SerializeAll(ns), depth)
    decreases ns, 0
  {
    if ns != [] {
      InsideIsCopied(prefix, depth, ns[0]);
      AllInsideIsCopied(prefix, depth, ns[1..]);
      WritesAppend(prefix, depth, Serialize(ns[0]), Serialize(ns[0]), depth,
                   SerializeAll(ns[1..]), SerializeAll(ns[1..]), depth);
    }
  }

  lemma {:induction false} SerializeWrap(prefix: seq<string>, n: Node)
    ensures Serialize(Wrap(prefix, n)) ==
            Opening(prefix, n.name) + Serialize(Renamed(n, Inner(prefix, n.name))) + Closing(|prefix|)
    decreases |prefix|
  {
    var value := Serialize(Renamed(n, Inner(prefix, n.name)));
    if prefix == [] {
      assert Renamed(n, n.name) == n;
      assert [] + Serialize(n) + [] == Serialize(n);
    } else {
      var rest := Renamed(n, prefix[0]);
      SerializeWrap(prefix[1..], rest);
      SerializeOne(Wrap(prefix[1..], rest));
      assert Renamed(rest, Inner(prefix[1..], prefix[0])) == Renamed(n, Inner(prefix, n.name));
      assert Closing(|prefix|) == Closing(|prefix| - 1) + [EndObject];
      AroundBoth([StartObject(n.name)], Opening(prefix[1..], prefix[0]), value, Closing(|prefix| - 1), [EndObject]);
    }
  }

  lemma AroundBoth<T>(a: seq<T>, b: seq<T>, c: seq<T>, d: seq<T>, e: seq<T>)
    ensures a + (b + c + d) + e == (a + b) + c + (d + e)
  {
  }

  lemma RootIsWrapped(prefix: seq<string>, n: Node)
    ensures Writes(prefix, 0, Serialize(n), Serialize(Wrap(prefix, n)), 0)
  {
    SerializeWrap(prefix, n);
    match n
    case Leaf(name, value) =>
      WritesOne(prefix, 0, Render(name, value));
    case Object(name, kids) =>
      RootContainer(prefix, StartObject(name), StartObject(Inner(prefix, name)), kids, EndObject);
    case List(name, kids) =>
      RootContainer(prefix, StartList(name), StartList(Inner(prefix, name)), kids, EndList);
  }

  lemma Around<T>(a: seq<T>, b: seq<T>, c: seq<T>, d: seq<T>, e: seq<T>)
    ensures ((a + b) + c) + (d + e) == a + (b + c + d) + e
  {
  }

  lemma RootContainer(prefix: seq<string>, start: Event, renamed: Event, kids: seq<Node>, end: Event)
    requires (start.StartObject? && end == EndObject) || (start.StartList? && end == EndList)
    requires Written(prefix, 0, start) == Opening(prefix, start.name) + [renamed]
    ensures Writes(prefix, 0, [start] + SerializeAll(kids) + [end],
                   Opening(prefix, start.name) + ([renamed] + SerializeAll(kids) + [end]) + Closing(|prefix|), 0)
  {
    var inner, opening := SerializeAll(kids), Opening(prefix, start.name) + [renamed];
    WritesOne(prefix, 0, start);
    AllInsideIsCopied(prefix, 1, kids);
    WritesOne(prefix, 1, end);
    WritesAppend(prefix, 0, [start], opening, 1, inner, inner, 1);
    WritesAppend(prefix, 0, [start] + inner, opening + inner, 1, [end], [end] + Closing(|prefix|), 0);
    Around(Opening(prefix, start.name), [renamed], inner, [end], Closing(|prefix|));
  }

  /** Any root values, objects or not, come out wrapped, one by one. */
  lemma {:induction false} RootsAreWrapped(prefix: seq<string>, ns: seq<Node>)
    ensures Writes(prefix, 0, SerializeAll(ns), SerializeAll(WrapAll(prefix, ns)), 0)
  {
    if ns != [] {
      RootIsWrapped(prefix, ns[0]);
      RootsAreWrapped(prefix, ns[1..]);
      assert WrapAll(prefix, ns)[1..] == WrapAll(prefix, ns[1..]);
      WritesAppend(prefix, 0, Serialize(ns[0]), Serialize(Wrap(prefix, ns[0])), 0,
                   SerializeAll(ns[1..]), SerializeAll(WrapAll(prefix, ns[1..])), 0);
    }
  }

  // ----- Two writers are one -----

  lemma {:induction false} OpeningAppend(outer: seq<string>, inner: seq<string>, name: string)
    ensures Opening(outer + inner, name) == Opening(outer, name) + Opening(inner, Inner(outer, name))
    ensures Inner(outer + inner, name) == Inner(inner, Inner(outer, name))
    decreases |outer|
  {
    if outer == [] {
      assert outer + inner == inner;
    } else {
      OpeningAppend(outer[1..], inner, outer[0]);
      assert (outer + inner)[1..] == outer[1..] + inner;
      Assoc([StartObject(name)], Opening(outer[1..], outer[0]), Opening(inner, Inner(outer, name)));
    }
  }

  lemma {:induction false} OpeningInside(prefix: seq<string>, depth: int, more: seq<string>, name: string)
    requires depth > 0
    ensures Writes(prefix, depth, Opening(more, name), Opening(more, name), depth + |more|)
    decreases |more|
  {
    if more != [] {
      WritesOne(prefix, depth, StartObject(name));
      OpeningInside(prefix, depth + 1, more[1..], more[0]);
      var rest := Opening(more[1..], more[0]);
      WritesAppend(prefix, depth, [StartObject(name)], [StartObject(name)], depth + 1, rest, rest, depth + |more|);
    }
  }

  /** Opening the inner prefix and starting a value of that name, as the outer writer passes it on. */
  lemma OpeningThrough(outer: seq<string>, inner: seq<string>, name: string)
    requires inner != []
    ensures Writes(outer, 0, Opening(inner, name), Opening(outer + inner, name), |inner|)
  {
    var rest, first := Opening(inner[1..], inner[0]), Opening(outer, name) + [StartObject(Inner(outer, name))];
    WritesOne(outer, 0, StartObject(name));
    OpeningInside(outer, 1, inner[1..], inner[0]);
    WritesAppend(outer, 0, [StartObject(name)], first, 1, rest, rest, |inner|);
    OpeningAppend(outer, inner, name);
    Assoc(Opening(outer, name), [StartObject(Inner(outer, name))], rest);
  }

  lemma {:induction false} ClosingThrough(outer: seq<string>, n: nat)
    requires n > 0
    ensures Writes(outer, n, Closing(n), Closing(n) + Closing(|outer|), 0)
  {
    WritesOne(outer, n, EndObject);
    assert Closing(n) == [EndObject] + Closing(n - 1);
    if n > 1 {
      ClosingThrough(outer, n - 1);
      var rest := Closing(n - 1) + Closing(|outer|);
      WritesAppend(outer, n, [EndObject], [EndObject], n - 1, Closing(n - 1), rest, 0);
      Assoc([EndObject], Closing(n - 1), Closing(|outer|));
    } else {
      assert Closing(n) == [EndObject];
    }
  }

  /** The depth of the outer writer that goes with one of the inner. */
  function Outer(depth: int, inner: seq<string>): int { if depth <= 0 then depth else depth + |inner| }

  lemma EventThroughBoth(outer: seq<string>, inner: seq<string>, depth: int, e: Event)
    ensures Writes(outer, Outer(depth, inner), Written(inner, depth, e), Written(outer + inner, depth, e),
                   Outer(DepthAfter(depth, e), inner))
  {
    OpeningAppend(outer, inner, if e.EndObject? || e.EndList? then "" else e.name);
    WritesOne(outer, Outer(depth, inner), e);
    if inner == [] {
      assert outer + inner == outer && Written(inner, depth, e) == [e];
    } else if depth == 0 && !e.EndObject? && !e.EndList? {
      RootThroughBoth(outer, inner, e);
    } else if depth == 1 && (e.EndObject? || e.EndList?) {
      var n := |inner|;
      ClosingThrough(outer, n);
      WritesAppend(outer, n + 1, [e], [e], n, Closing(n), Closing(n) + Closing(|outer|), 0);
      assert Closing(n) + Closing(|outer|) == Closing(|outer + inner|);
    }
  }

  function RenamedEvent(e: Event, name: string): Event
    requires !e.EndObject? && !e.EndList?
  {
    e.(name := name)
  }

  lemma RootThroughBoth(outer: seq<string>, inner: seq<string>, e: Event)
    requires inner != [] && !e.EndObject? && !e.EndList?
    ensures Writes(outer, 0, Written(inner, 0, e), Written(outer + inner, 0, e), Outer(DepthAfter(0, e), inner))
  {
    var n, opening, value := |inner|, Opening(inner, e.name), RenamedEvent(e, Inner(inner, e.name));
    OpeningAppend(outer, inner, e.name);
    OpeningThrough(outer, inner, e.name);
    WritesOne(outer, n, value);
    WritesAppend(outer, 0, opening, Opening(outer + inner, e.name), n, [value], [value], DepthAfter(n, value));
    if e.Render? {
      ClosingThrough(outer, n);
      WritesAppend(outer, 0, opening + [value], Opening(outer + inner, e.name) + [value], n,
                   Closing(n), Closing(n) + Closing(|outer|), 0);
      assert Closing(n) + Closing(|outer|) == Closing(|outer + inner|);
    }
  }

  /** For any events, balanced or not: a writer with one prefix that feeds a writer with another is a writer with the
      second prefix followed by the first. */
  lemma {:induction false} WritersCompose(outer: seq<string>, inner: seq<string>, depth: int, es: seq<Event>)
    ensures Writes(outer, Outer(depth, inner), WrittenAll(inner, depth, es), WrittenAll(outer + inner, depth, es),
                   Outer(DepthAfterAll(depth, es), inner))
    decreases |es|
  {
    if es != [] {
      var d := DepthAfter(depth, es[0]);
      EventThroughBoth(outer, inner, depth, es[0]);
      WritersCompose(outer, inner, d, es[1..]);
      WritesAppend(outer, Outer(depth, inner), Written(inner, depth, es[0]), Written(outer + inner, depth, es[0]),
                   Outer(d, inner), WrittenAll(inner, d, es[1..]), WrittenAll(outer + inner, d, es[1..]),
                   Outer(DepthAfterAll(depth, es), inner));
    }
  }
}
