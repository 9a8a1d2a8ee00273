/** The routing trie of path_matcher_node.cc as a value, and the reading of a trie as a flat registry.
    The class in PathMatcherNode.dfy is proved against the functions below. */
module RouteTrie {
  import opened Wrappers

  const SINGLE_PARAMETER := "/."
  const WILD_CARD_PATH_PART := "*"
  const WILD_CARD_PATH := "**"
  const ANY_METHOD := "*"

  /** What a node stores for one method key: a non-null pointer, as an address, and the duplicate mark. */
  datatype Entry = Entry(data: nat, isMultiple: bool)

  datatype Trie = Trie(results: map<string, Entry>, children: map<string, Trie>, wildcard: bool)

  const EMPTY := Trie(map[], map[], false)

  /** Exactly the nodes reached by "**" carry the wildcard flag. */
  ghost predicate WellFormed(t: Trie) {
    forall k :: k in t.children ==> (t.children[k].wildcard <==> k == WILD_CARD_PATH) && WellFormed(t.children[k])
  }

  // ----- Operations -----

  function Find(results: map<string, Entry>, key: string): Option<Entry> {
    if key in results then Some(results[key])
    else if ANY_METHOD in results then Some(results[ANY_METHOD])
    else None
  }

  function Store(results: map<string, Entry>, key: string, data: nat, mark: bool): map<string, Entry> {
    results[key := if key in results then Entry(data, results[key].isMultiple || mark) else Entry(data, false)]
  }

  function ChildOrNew(t: Trie, segment: string): Trie {
    var child := if segment in t.children then t.children[segment] else EMPTY;
    if segment == WILD_CARD_PATH then child.(wildcard := true) else child
  }

  function InsertTemplate(t: Trie, path: seq<string>, key: string, data: nat, mark: bool): Trie
    decreases |path|
  {
    if path == [] then
      t.(results := Store(t.results, key, data, mark))
    else
      t.(children := t.children[path[0] := InsertTemplate(ChildOrNew(t, path[0]), path[1..], key, data, mark)])
  }

  /** What is found when no request part is left at t. */
  function FindAtEnd(t: Trie, key: string): Option<Entry> {
    var own := Find(t.results, key);
    if own.None? && WILD_CARD_PATH in t.children then Find(t.children[WILD_CARD_PATH].results, key) else own
  }

  function LookupPath(t: Trie, parts: seq<string>, key: string): Option<Entry>
    decreases |parts|, 1
  {
    if parts == [] then FindAtEnd(t, key)
    else
      var own := LookupFromChild(t, parts[0], parts, key);
      if own.Some? then own
      else if t.wildcard then LookupPath(t, parts[1..], key)
      else LookupAny(t, parts, key)
  }

  /** The three children that match any text, in their order of precedence. */
  function LookupAny(t: Trie, parts: seq<string>, key: string): Option<Entry>
    requires parts != []
    decreases |parts|, 0, 1
  {
    var single := LookupFromChild(t, SINGLE_PARAMETER, parts, key);
    if single.Some? then single
    else
      var star := LookupFromChild(t, WILD_CARD_PATH_PART, parts, key);
      if star.Some? then star else LookupFromChild(t, WILD_CARD_PATH, parts, key)
  }

  function LookupFromChild(t: Trie, child: string, parts: seq<string>, key: string): Option<Entry>
    requires parts != []
    decreases |parts|, 0, 0
  {
    if child in t.children then LookupPath(t.children[child], parts[1..], key) else None
  }

  // ----- A trie read as a flat registry -----

  datatype Route = Route(path: seq<string>, key: string)
  type Registry = map<Route, Entry>

  function EntryAt(t: Trie, r: Route): Option<Entry>
    decreases |r.path|
  {
    if r.path == [] then (if r.key in t.results then Some(t.results[r.key]) else None)
    else if r.path[0] in t.children then EntryAt(t.children[r.path[0]], Route(r.path[1..], r.key))
    else None
  }

  function Get(reg: Registry, r: Route): Option<Entry> {
    if r in reg then Some(reg[r]) else None
  }

  ghost predicate Represents(t: Trie, reg: Registry) {
    forall r :: EntryAt(t, r) == Get(reg, r)
  }

  datatype Insertion = Insertion(route: Route, data: nat, mark: bool)

  function InsertFlat(reg: Registry, op: Insertion): Registry {
    reg[op.route := if op.route in reg then Entry(op.data, reg[op.route].isMultiple || op.mark)
                    else Entry(op.data, false)]
  }

  function TrieOf(ops: seq<Insertion>): Trie {
    if ops == [] then EMPTY
    else
      var op := ops[|ops| - 1];
      InsertTemplate(TrieOf(ops[..|ops| - 1]), op.route.path, op.route.key, op.data, op.mark)
  }

  function RegistryOf(ops: seq<Insertion>): Registry {
    if ops == [] then map[] else InsertFlat(RegistryOf(ops[..|ops| - 1]), ops[|ops| - 1])
  }

  /** Inserting changes the entry of one route and no other. */
  lemma {:induction false} InsertChangesOneRoute(t: Trie, path: seq<string>, key: string, data: nat, mark: bool,
                                                 r: Route)
    ensures var was := EntryAt(t, Route(path, key));
            EntryAt(InsertTemplate(t, path, key, data, mark), r) ==
            if r == Route(path, key) then Some(Entry(data, was.Some? && (was.value.isMultiple || mark)))
            else EntryAt(t, r)
    decreases |path|
  {
    if path != [] && r.path != [] && r.path[0] == path[0] {
      var child := ChildOrNew(t, path[0]);
      InsertChangesOneRoute(child, path[1..], key, data, mark, Route(r.path[1..], r.key));
      ForgetWildcard(child, Route(path[1..], key));
      ForgetWildcard(child, Route(r.path[1..], r.key));
      assert r == Route(path, key) <==> Route(r.path[1..], r.key) == Route(path[1..], key) by {
        assert path == [path[0]] + path[1..] && r.path == [r.path[0]] + r.path[1..];
      }
    }
  }

  lemma ForgetWildcard(t: Trie, r: Route)
    ensures forall w :: EntryAt(t.(wildcard := w), r) == EntryAt(t, r)
  {
  }

  /** Insertion below a child that has first been put in place. */
  lemma InsertThroughChild(t: Trie, segment: string, rest: seq<string>, key: string, data: nat, mark: bool)
    ensures var child := ChildOrNew(t, segment);
            var placed := t.(children := t.children[segment := child]);
            && InsertTemplate(t, [segment] + rest, key, data, mark) ==
                 placed.(children := placed.children[segment := InsertTemplate(child, rest, key, data, mark)])
            && EntryAt(t, Route([segment] + rest, key)) == EntryAt(child, Route(rest, key))
  {
    var child := ChildOrNew(t, segment);
    assert ([segment] + rest)[1..] == rest;
    ForgetWildcard(child, Route(rest, key));
  }

  lemma {:induction false} InsertKeepsWellFormed(t: Trie, path: seq<string>, key: string, data: nat, mark: bool)
    requires WellFormed(t)
    ensures WellFormed(InsertTemplate(t, path, key, data, mark))
    ensures InsertTemplate(t, path, key, data, mark).wildcard == t.wildcard
    decreases |path|
  {
    if path != [] {
      InsertKeepsWellFormed(ChildOrNew(t, path[0]), path[1..], key, data, mark);
    }
  }

  /** Inserting into the trie is updating the registry. */
  lemma InsertRefinesRegistry(t: Trie, reg: Registry, op: Insertion)
    requires WellFormed(t) && Represents(t, reg)
    ensures var t' := InsertTemplate(t, op.route.path, op.route.key, op.data, op.mark);
            WellFormed(t') && t'.wildcard == t.wildcard && Represents(t', InsertFlat(reg, op))
  {
    InsertKeepsWellFormed(t, op.route.path, op.route.key, op.data, op.mark);
    forall r
      ensures EntryAt(InsertTemplate(t, op.route.path, op.route.key, op.data, op.mark), r) ==
              Get(InsertFlat(reg, op), r)
    {
      InsertChangesOneRoute(t, op.route.path, op.route.key, op.data, op.mark, r);
      assert EntryAt(t, op.route) == Get(reg, op.route) && EntryAt(t, r) == Get(reg, r);
    }
  }

  /** Over every sequence of insertions the trie holds exactly the registry. */
  lemma {:induction false} TrieHoldsRegistry(ops: seq<Insertion>)
    ensures WellFormed(TrieOf(ops)) && !TrieOf(ops).wildcard && Represents(TrieOf(ops), RegistryOf(ops))
  {
    if ops != [] {
      TrieHoldsRegistry(ops[..|ops| - 1]);
      InsertRefinesRegistry(TrieOf(ops[..|ops| - 1]), RegistryOf(ops[..|ops| - 1]), ops[|ops| - 1]);
    }
  }

  /** The registry read off the insertions themselves: a route is there iff it was inserted, it carries the data of
      its last insertion, and it is marked iff an insertion that marks duplicates was not the first one for it. */
  lemma {:induction false} RegistryMeaning(ops: seq<Insertion>, r: Route)
    ensures r in RegistryOf(ops) <==> exists i :: 0 <= i < |ops| && ops[i].route == r
    ensures r in RegistryOf(ops) ==>
              (exists i :: 0 <= i < |ops| && ops[i].route == r && ops[i].data == RegistryOf(ops)[r].data &&
                           forall j :: i < j < |ops| ==> ops[j].route != r)
    ensures r in RegistryOf(ops) ==>
              (RegistryOf(ops)[r].isMultiple <==>
               exists i, j :: 0 <= i < j < |ops| && ops[i].route == r && ops[j].route == r && ops[j].mark)
  {
    if ops != [] {
      var prev, n := ops[..|ops| - 1], |ops| - 1;
      RegistryMeaning(prev, r);
      if ops[n].route == r {
        if r in RegistryOf(prev) && ops[n].mark {
          var i :| 0 <= i < |prev| && prev[i].route == r;
          assert ops[i].route == r && ops[n].route == r;
        }
        if r !in RegistryOf(prev) {
          assert forall i :: 0 <= i < n ==> ops[i] == prev[i];
        }
      } else if r in RegistryOf(prev) {
        var i :| 0 <= i < |prev| && prev[i].route == r && prev[i].data == RegistryOf(prev)[r].data &&
                 forall j :: i < j < |prev| ==> prev[j].route != r;
        assert ops[i].route == r && forall j :: i < j < |ops| ==> ops[j].route != r;
      }
    }
  }
}
