/** The mutable trie of path_matcher_node.cc, proved against the functions of RouteTrie. */
module PathMatcherNodes {
  import opened Wrappers
  import Spec = RouteTrie

  class PathMatcherNode {
    var resultMap: map<string, Spec.Entry>
    var children: map<string, PathMatcherNode>
    var wildcard: bool

    /** This node and all nodes it owns, directly or not. */
    ghost var repr: set<PathMatcherNode>
    /** The value of the trie below this node. */
    ghost var trie: Spec.Trie

    /** The nodes below form a tree, each child owning its own nodes, and trie is their value. */
    ghost predicate Valid()
      reads this, repr
      decreases repr
    {
      && this in repr
      && (forall k :: k in children ==>
            children[k] in repr && children[k].repr <= repr && this !in children[k].repr && children[k].Valid())
      && (forall j, k :: j in children && k in children && j != k ==> children[j].repr !! children[k].repr)
      && trie.results == resultMap && trie.wildcard == wildcard && trie.children.Keys == children.Keys
      && (forall k :: k in children ==> trie.children[k] == children[k].trie)
    }

    constructor ()
      ensures Valid() && repr == {this} && trie == Spec.EMPTY
    {
      resultMap, children, wildcard := map[], map[], false;
      repr := {this};
      trie := Spec.EMPTY;
    }

    method SetWildcard(wildcard: bool)
      requires Valid()
      modifies this`wildcard, this`trie
      ensures Valid() && trie == old(trie).(wildcard := wildcard)
    {
      this.wildcard := wildcard;
      trie := trie.(wildcard := wildcard);
    }

    method InsertPath(nodePathInfo: seq<string>, httpMethod: string, methodData: nat, markDuplicates: bool)
      returns (inserted: bool)
      requires Valid()
      modifies repr
      ensures Valid() && fresh(repr - old(repr))
      ensures trie == Spec.InsertTemplate(old(trie), nodePathInfo, httpMethod, methodData, markDuplicates)
      ensures inserted <==> Spec.EntryAt(old(trie), Spec.Route(nodePathInfo, httpMethod)).None?
    {
      inserted := InsertTemplate(nodePathInfo, 0, httpMethod, methodData, markDuplicates);
    }

    method LookupOrInsertNew(key: string) returns (child: PathMatcherNode)
      requires Valid()
      modifies this`children, this`repr, this`trie
      ensures Valid() && fresh(repr - old(repr))
      ensures key in children && children[key] == child && child in repr
      ensures trie == old(trie).(children := old(trie).children[key := child.trie])
      ensures child.trie == if key in old(trie).children then old(trie).children[key] else Spec.EMPTY
    {
      if key in children {
        child := children[key];
      } else {
        child := new PathMatcherNode();
        AddChild(key, child);
      }
    }

    method AddChild(key: string, child: PathMatcherNode)
      requires Valid() && key !in children
      requires child.Valid() && child.repr == {child} && child !in repr
      modifies this`children, this`repr, this`trie
      ensures Valid() && children == old(children)[key := child] && repr == old(repr) + {child}
      ensures trie == old(trie).(children := old(trie).children[key := child.trie])
    {
      children := children[key := child];
      repr := repr + {child};
      trie := trie.(children := trie.children[key := child.trie]);
      forall k | k in children && k != key
        ensures children[k].Valid() && children[k].repr !! child.repr
      {
        assert this !in children[k].repr;
      }
    }

    method InsertTemplate(path: seq<string>, current: nat, httpMethod: string, methodData: nat, markDuplicates: bool)
      returns (inserted: bool)
      requires Valid() && current <= |path|
      modifies repr
      ensures Valid() && fresh(repr - old(repr))
      ensures trie == Spec.InsertTemplate(old(trie), path[current..], httpMethod, methodData, markDuplicates)
      ensures inserted <==> Spec.EntryAt(old(trie), Spec.Route(path[current..], httpMethod)).None?
      decreases |path| - current, 1
    {
      if current == |path| {
        inserted := InsertResult(httpMethod, methodData, markDuplicates);
        return;
      }
      assert path[current..] == [path[current]] + path[current + 1..];
      Spec.InsertThroughChild(trie, path[current], path[current + 1..], httpMethod, methodData, markDuplicates);
      var child := ChildFor(path[current]);
      inserted := InsertInChild(child, path, current, httpMethod, methodData, markDuplicates);
    }

    /** The child that InsertTemplate continues with, marked when it is the one for "**". */
    method ChildFor(segment: string) returns (child: PathMatcherNode)
      requires Valid()
      modifies repr
      ensures Valid() && fresh(repr - old(repr))
      ensures segment in children && children[segment] == child
      ensures trie == old(trie).(children := old(trie).children[segment := Spec.ChildOrNew(old(trie), segment)])
    {
      ghost var t := trie;
      child := LookupOrInsertNew(segment);
      if segment == Spec.WILD_CARD_PATH {
        ghost var before := child.trie;
        assert trie.children[segment := before.(wildcard := true)] == t.children[segment := before.(wildcard := true)];
        MarkChild(segment, child);
      }
    }

    method MarkChild(segment: string, child: PathMatcherNode)
      requires Valid() && segment in children && children[segment] == child
      modifies child, this`trie
      ensures Valid() && repr == old(repr) && children == old(children)
      ensures trie == old(trie).(children := old(trie).children[segment := old(child.trie).(wildcard := true)])
    {
      child.SetWildcard(true);
      trie := trie.(children := trie.children[segment := child.trie]);
      Reassemble(segment);
    }

    /** The tail of InsertTemplate: the rest of the path goes below the child. */
    method InsertInChild(child: PathMatcherNode, path: seq<string>, current: nat, httpMethod: string, methodData: nat,
                         markDuplicates: bool)
      returns (inserted: bool)
      requires Valid() && current < |path|
      requires path[current] in children && children[path[current]] == child
      modifies repr
      ensures Valid() && fresh(repr - old(repr))
      ensures trie == old(trie).(children := old(trie).children[path[current] :=
                Spec.InsertTemplate(old(child.trie), path[current + 1..], httpMethod, methodData, markDuplicates)])
      ensures inserted <==> Spec.EntryAt(old(child.trie), Spec.Route(path[current + 1..], httpMethod)).None?
      decreases |path| - current, 0
    {
      inserted := child.InsertTemplate(path, current + 1, httpMethod, methodData, markDuplicates);
      repr := repr + child.repr;
      trie := trie.(children := trie.children[path[current] := child.trie]);
      Reassemble(path[current]);
    }

    /** When only what one child owns has changed, and that child is valid again, so is this node. */
    twostate lemma Reassemble(segment: string)
      requires old(Valid())
      requires segment in old(children) && children == old(children)
      requires children[segment].Valid()
      requires fresh(children[segment].repr - old(children[segment].repr))
      requires forall n: PathMatcherNode :: n != this && n in old(repr) && n !in old(children[segment].repr) ==>
               unchanged(n)
      requires resultMap == old(resultMap) && wildcard == old(wildcard)
      requires repr == old(repr) + children[segment].repr
      requires trie == old(trie).(children := old(trie).children[segment := children[segment].trie])
      requires this !in children[segment].repr
      ensures Valid()
    {
      Undisturbed(segment);
    }

    twostate lemma Undisturbed(segment: string)
      requires old(Valid())
      requires segment in old(children) && children == old(children)
      requires children[segment].Valid()
      requires fresh(children[segment].repr - old(children[segment].repr))
      requires forall n: PathMatcherNode :: n != this && n in old(repr) && n !in old(children[segment].repr) ==>
               unchanged(n)
      requires repr == old(repr) + children[segment].repr
      requires this !in children[segment].repr
      ensures forall k :: k in children ==>
                children[k] in repr && children[k].repr <= repr && this !in children[k].repr && children[k].Valid()
      ensures forall k :: k in children && k != segment ==> children[k].trie == old(trie).children[k]
      ensures forall j, k :: j in children && k in children && j != k ==> children[j].repr !! children[k].repr
    {
      forall k | k in children && k != segment
        ensures children[k].Valid() && children[k].repr == old(children[k].repr)
                && children[k].trie == old(trie).children[k]
      {
        assert old(children[k].repr) !! old(children[segment].repr);
        assert children[k] in old(children[k].repr);
        assert forall n :: n in old(children[k].repr) ==> unchanged(n);
      }
      forall j, k | j in children && k in children && j != k
        ensures children[j].repr !! children[k].repr
      {
        assert old(children[j].repr) !! old(children[k].repr);
      }
    }

    /** The branch of InsertTemplate for the node that the path ends at. */
    method InsertResult(key: string, methodData: nat, markDuplicates: bool) returns (inserted: bool)
      requires Valid()
      modifies this`resultMap, this`trie
      ensures Valid() && trie == old(trie).(results := Spec.Store(old(trie).results, key, methodData, markDuplicates))
      ensures inserted <==> key !in old(trie).results
    {
      if key in resultMap {
        var existing := resultMap[key];
        resultMap := resultMap[key := Spec.Entry(methodData, existing.isMultiple || markDuplicates)];
        inserted := false;
      } else {
        resultMap := resultMap[key := Spec.Entry(methodData, false)];
        inserted := true;
      }
      trie := trie.(results := resultMap);
    }

    method LookupPath(parts: seq<string>, start: nat, httpMethod: string) returns (result: Option<Spec.Entry>)
      requires Valid() && start <= |parts|
      ensures result == Spec.LookupPath(trie, parts[start..], httpMethod)
      decreases |parts| - start, 2
    {
      ghost var t := trie;
      var found;
      var current := start;
      while true
        invariant start <= current <= |parts|
        invariant Spec.LookupPath(t, parts[start..], httpMethod) == Spec.LookupPath(t, parts[current..], httpMethod)
        decreases |parts| - current
      {
        if current == |parts| {
          result := LookupAtEnd(httpMethod);
          return;
        }
        found, result := LookupPathFromChild(parts[current], parts, current, httpMethod);
        if found {
          return;
        }
        if !wildcard {
          break;
        }
        assert parts[current..][1..] == parts[current + 1..];
        current := current + 1;
      }
      result := LookupAnyChild(parts, current, httpMethod);
    }

    /** The branch of LookupPath for a request whose parts are used up. */
    method LookupAtEnd(httpMethod: string) returns (result: Option<Spec.Entry>)
      requires Valid()
      ensures result == Spec.FindAtEnd(trie, httpMethod)
    {
      var found;
      found, result := GetResultForHttpMethod(httpMethod);
      if !found && Spec.WILD_CARD_PATH in children {
        found, result := children[Spec.WILD_CARD_PATH].GetResultForHttpMethod(httpMethod);
      }
    }

    /** The children that match any text, tried after the loop of LookupPath. */
    method LookupAnyChild(parts: seq<string>, current: nat, httpMethod: string) returns (result: Option<Spec.Entry>)
      requires Valid() && current < |parts|
      ensures result == Spec.LookupAny(trie, parts[current..], httpMethod)
      decreases |parts| - current, 1
    {
      var found;
      found, result := LookupPathFromChild(Spec.SINGLE_PARAMETER, parts, current, httpMethod);
      if !found {
        found, result := LookupPathFromChild(Spec.WILD_CARD_PATH_PART, parts, current, httpMethod);
        if !found {
          found, result := LookupPathFromChild(Spec.WILD_CARD_PATH, parts, current, httpMethod);
        }
      }
    }

    method LookupPathFromChild(childKey: string, parts: seq<string>, current: nat, httpMethod: string)
      returns (found: bool, result: Option<Spec.Entry>)
      requires Valid() && current < |parts|
      ensures result == Spec.LookupFromChild(trie, childKey, parts[current..], httpMethod) && found == result.Some?
      decreases |parts| - current, 0
    {
      found, result := false, None;
      if childKey in children {
        assert parts[current..][1..] == parts[current + 1..];
        result := children[childKey].LookupPath(parts, current + 1, httpMethod);
        found := result.Some?;
      }
    }

    method GetResultForHttpMethod(key: string) returns (found: bool, result: Option<Spec.Entry>)
      ensures result == Spec.Find(resultMap, key) && found == result.Some?
    {
      if key in resultMap {
        return true, Some(resultMap[key]);
      } else if Spec.ANY_METHOD in resultMap {
        return true, Some(resultMap[Spec.ANY_METHOD]);
      }
      return false, None;
    }
  }
}
