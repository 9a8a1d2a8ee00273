/** PathMatcherBuilder and PathMatcher of path_matcher.h. A MethodData is known by an address; the builder owns the
    objects in methods. Addresses of objects that are gone may be used again. */
module PathMatchers {
  import opened Wrappers
  import opened PercentEncoding
  import opened RouteTrie
  import opened RoutePrecedence
  import opened PathMatcherNodes
  import opened HttpTemplates
  import opened PathBindings
  import opened RequestParts
  import opened RegisteredMethods
  import opened RegisteredTemplates
  import opened TreeMatching
  import G = TemplateGrammar
  import TemplateParser

  class PathMatcherBuilder<M(!new)> {
    var root: PathMatcherNode
    var customVerbs: set<string>
    var methods: map<nat, MethodData<M>>
    var pathUnescapeSpec: UrlUnescapeSpec
    var matchUnregisteredCustomVerb: bool
    var failRegistrationOnDuplicate: bool
    /** The calls of Register so far whose template parses. */
    ghost var log: seq<Registration<M>>

    ghost predicate Valid()
      reads this, root, root.repr
    {
      root.Valid() && Consistent(root.trie, log, methods) && AllRegistered(log) && VerbsAreKnown(log, customVerbs)
    }

    constructor ()
      ensures Valid() && fresh(root.repr)
      ensures log == [] && methods == map[] && customVerbs == {} && pathUnescapeSpec == AllCharactersExceptReserved
      ensures !matchUnregisteredCustomVerb && !failRegistrationOnDuplicate
    {
      root := new PathMatcherNode();
      customVerbs, methods, log := {}, map[], [];
      pathUnescapeSpec := AllCharactersExceptReserved;
      matchUnregisteredCustomVerb, failRegistrationOnDuplicate := false, false;
      new;
      TrieHoldsRegistry([]);
      assert Insertions(log) == [];
    }

    /** address is where the new MethodData is allocated, so no live object is there. */
    method Register(httpMethod: string, httpTemplate: string, bodyFieldPath: string, method_: M, address: nat)
      returns (ok: bool)
      requires Valid() && address !in methods
      modifies this`customVerbs, this`methods, this`log, root.repr
      ensures Valid() && fresh(root.repr - old(root.repr))
      ensures match HttpTemplates.ParseHttpTemplate(httpTemplate)
              case None => !ok && log == old(log) && methods == old(methods) && customVerbs == old(customVerbs)
              case Some(h) =>
                var data := MethodData(method_, h.variables, bodyFieldPath);
                var route := Route(h.segments, httpMethod + h.verb);
                && log == old(log) + [Registration(httpMethod, httpTemplate, route, address, data)]
                && (ok <==> !(failRegistrationOnDuplicate && route in RegistryFor(old(log))))
                && methods == (if ok then old(methods)[address := data] else old(methods))
                && customVerbs == old(customVerbs) + if ok && h.verb != "" then {h.verb} else {}
    {
      var ht := TemplateParser.ParseHttpTemplate(httpTemplate);
      if ht.None? {
        return false;
      }
      var h := ht.value;
      var methodData := MethodData(method_, h.variables, bodyFieldPath);
      ghost var route := Route(h.segments, httpMethod + h.verb);
      ok := RegisterParsed(h, httpMethod, methodData, address,
                           Registration(httpMethod, httpTemplate, route, address, methodData));
    }

    /** The part of Register after the parser; r is the call. */
    method RegisterParsed(h: HttpTemplate, httpMethod: string, methodData: MethodData<M>, address: nat,
                          ghost r: Registration<M>)
      returns (ok: bool)
      requires Valid() && address !in methods && IsRegistered(r) && VerbOf(r) == h.verb
      requires r.address == address && r.data == methodData && r.route == Route(h.segments, httpMethod + h.verb)
      modifies this`customVerbs, this`methods, this`log, root.repr
      ensures Valid() && fresh(root.repr - old(root.repr)) && log == old(log) + [r]
      ensures ok <==> !(failRegistrationOnDuplicate && r.route in RegistryFor(old(log)))
      ensures methods == (if ok then old(methods)[address := methodData] else old(methods))
      ensures customVerbs == old(customVerbs) + if ok && h.verb != "" then {h.verb} else {}
    {
      ghost var t := root.trie;
      assert EntryAt(t, r.route) == Get(RegistryFor(log), r.route);
      ok := InsertPathToNode(h.segments, address, httpMethod + h.verb);
      if ok {
        Own(address, methodData, h.verb);
      }
      RegisterKeepsConsistent(t, log, old(methods), r, methods);
      VerbsStayKnown(log, r, old(customVerbs), customVerbs);
      Log(log + [r]);
    }

    method Own(address: nat, methodData: MethodData<M>, verb: string)
      modifies this`methods, this`customVerbs
      ensures methods == old(methods)[address := methodData]
      ensures customVerbs == old(customVerbs) + if verb != "" then {verb} else {}
    {
      methods := methods[address := methodData];
      if verb != "" {
        customVerbs := customVerbs + {verb};
      }
    }

    ghost method Log(calls: seq<Registration<M>>)
      requires root.Valid() && Consistent(root.trie, calls, methods) && AllRegistered(calls)
      requires VerbsAreKnown(calls, customVerbs)
      modifies this`log
      ensures Valid() && log == calls
    {
      log := calls;
    }

    method InsertPathToNode(path: seq<string>, methodData: nat, httpMethod: string) returns (ok: bool)
      requires root.Valid()
      modifies root.repr
      ensures root.Valid() && fresh(root.repr - old(root.repr))
      ensures root.trie == InsertTemplate(old(root.trie), path, httpMethod, methodData, true)
      ensures ok <==> EntryAt(old(root.trie), Route(path, httpMethod)).None? || !failRegistrationOnDuplicate
    {
      var inserted := root.InsertPath(path, httpMethod, methodData, true);
      if !inserted {
        if failRegistrationOnDuplicate {
          return false;
        }
      }
      return true;
    }

    /** The builder is not used again. */
    method Build() returns (m: PathMatcher<M>)
      requires Valid()
      ensures m.Valid() && m.log == log && m.customVerbs == customVerbs
      ensures m.pathUnescapeSpec == pathUnescapeSpec && m.matchUnregisteredCustomVerb == matchUnregisteredCustomVerb
    {
      m := new PathMatcher(root, customVerbs, methods, pathUnescapeSpec, matchUnregisteredCustomVerb, log);
    }
  }

  class PathMatcher<M(!new)> {
    const root: PathMatcherNode
    const customVerbs: set<string>
    const methods: map<nat, MethodData<M>>
    const pathUnescapeSpec: UrlUnescapeSpec
    const matchUnregisteredCustomVerb: bool
    ghost const log: seq<Registration<M>>

    ghost predicate Valid()
      reads root, root.repr
    {
      root.Valid() && Consistent(root.trie, log, methods) && AllRegistered(log) && VerbsAreKnown(log, customVerbs)
    }

    constructor (root: PathMatcherNode, customVerbs: set<string>, methods: map<nat, MethodData<M>>,
                 spec: UrlUnescapeSpec, matchUnregistered: bool, ghost log: seq<Registration<M>>)
      requires root.Valid() && Consistent(root.trie, log, methods) && AllRegistered(log)
      requires VerbsAreKnown(log, customVerbs)
      ensures Valid() && this.root == root && this.log == log && this.customVerbs == customVerbs
      ensures pathUnescapeSpec == spec && matchUnregisteredCustomVerb == matchUnregistered
    {
      this.root, this.customVerbs, this.methods, this.log := root, customVerbs, methods, log;
      pathUnescapeSpec, matchUnregisteredCustomVerb := spec, matchUnregistered;
    }

    /** The requests built for a registered template are found. */
    lemma RegisteredIsFound(i: nat, t: G.Template, parts: seq<string>, r: Option<Found<M>>)
      requires Valid() && RoutesDiffer(log) && i < |log| && IsForTree(log[i], t) && TreeMatches(t, parts)
      requires ArePathParts(parts) && (t.verb.Some? ==> '?' !in t.verb.value)
      requires t.verb.None? ==> !EndsInVerb(parts, customVerbs, matchUnregisteredCustomVerb)
      requires var q := Extract(PathFor(t, parts), customVerbs, matchUnregisteredCustomVerb);
               IsLookupResult(log, q.parts, log[i].httpMethod + q.verb, pathUnescapeSpec, r)
      ensures r.Some?
    {
      TreeIsRegistered(log[i], t);
      assert IsFirstForRoute(log, i);
      RegisteredTemplates.RegisteredIsFound(log, i, t, parts, customVerbs, matchUnregisteredCustomVerb,
                                            pathUnescapeSpec, r);
    }

    /** The method to call and the variables bound from the path; None for a null method. */
    method Lookup(httpMethod: string, path: string) returns (r: Option<Found<M>>)
      requires Valid()
      ensures var q := Extract(path, customVerbs, matchUnregisteredCustomVerb);
              IsLookupResult(log, q.parts, httpMethod + q.verb, pathUnescapeSpec, r)
    {
      var parts, verb := ExtractRequestParts(path, customVerbs, matchUnregisteredCustomVerb);
      var key := httpMethod + verb;
      assert parts[0..] == parts;
      var entry := root.LookupPath(parts, 0, key);
      LookupIsFirstHit(root.trie, RegistryFor(log), parts, key);
      if entry.None? || entry.value.isMultiple {
        MissingOrMarked(root.trie, log, methods, parts, key, pathUnescapeSpec, entry);
        return None;
      }
      ghost var route := DecidedRoute(log, parts, key, entry.value);
      ghost var i := UnmarkedEntryIsOwned(root.trie, log, methods, route);
      VariablesAreInRange(log, parts, key, i);
      var methodData := methods[entry.value.data];
      var bindings := ExtractBindingsFromPath(methodData.variables, parts, pathUnescapeSpec);
      r := Some(Found(methodData.method_, bindings, methodData.bodyFieldPath));
      assert IsFoundFor(r.value, log[i].data, parts, pathUnescapeSpec);
    }
  }

  /** Nothing found, or a marked entry, is rightly answered with a null method. */
  lemma MissingOrMarked<M>(t: Trie, log: seq<Registration<M>>, methods: map<nat, MethodData<M>>, parts: seq<string>,
                           key: string, spec: UrlUnescapeSpec, e: Option<Entry>)
    requires Consistent(t, log, methods) && IsFirstHit(RegistryFor(log), parts, key, e)
    requires e.Some? ==> e.value.isMultiple
    ensures IsLookupResult<M>(log, parts, key, spec, None)
  {
    if e.Some? {
      var route := DecidedRoute(log, parts, key, e.value);
      EntryMeaning(log, route);
    }
  }

  lemma DecidedRoute<M>(log: seq<Registration<M>>, parts: seq<string>, key: string, e: Entry) returns (route: Route)
    requires IsFirstHit(RegistryFor(log), parts, key, Some(e))
    ensures IsFirstRoute(RegistryFor(log), parts, key, route)
    ensures route in RegistryFor(log) && RegistryFor(log)[route] == e
  {
    var reg := RegistryFor(log);
    var a :| Hit(reg, parts, key, a) && Some(e) == FindFlat(reg, Spelled(false, parts, a).value, key) &&
             forall b :: Hit(reg, parts, key, b) ==> NotAfter(a, b);
    var p := Spelled(false, parts, a).value;
    route := if Route(p, key) in reg then Route(p, key) else Route(p, ANY_METHOD);
  }

  /** The variables of the call for the route that is decided for lie within the parts. */
  lemma VariablesAreInRange<M>(log: seq<Registration<M>>, parts: seq<string>, key: string, i: nat)
    requires AllRegistered(log) && i < |log| && IsFirstRoute(RegistryFor(log), parts, key, log[i].route)
    ensures forall k :: 0 <= k < |log[i].data.variables| ==> InRange(log[i].data.variables[k], |parts|)
  {
    FirstRouteMatches(log, parts, key, log[i].route);
    VariablesInRange(log[i], parts);
  }
}
