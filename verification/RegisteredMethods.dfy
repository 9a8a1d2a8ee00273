/** What the calls to Register have left behind, said of the list of the calls alone, and what a lookup then means. */
module RegisteredMethods {
  import opened Wrappers
  import opened Strings
  import opened PercentEncoding
  import opened RouteTrie
  import opened RoutePrecedence
  import opened PathMatching
  import opened HttpTemplates
  import opened PathBindings
  import RequestParts
  import G = TemplateGrammar

  datatype MethodData<M> = MethodData(method_: M, variables: seq<Variable>, bodyFieldPath: string)

  /** One call of Register with a template that parses: the route it is for, the address of the MethodData made for
      it, and that data. */
  datatype Registration<M> = Registration(httpMethod: string, template: string, route: Route, address: nat,
                                          data: MethodData<M>)

  /** The route is the template's segments, and as key the HTTP method and the verb one after the other. */
  ghost predicate IsRegistered<M>(r: Registration<M>) {
    var h := ParseHttpTemplate(r.template);
    h.Some? && r.route == Route(h.value.segments, r.httpMethod + h.value.verb) && r.data.variables == h.value.variables
  }

  ghost predicate AllRegistered<M>(log: seq<Registration<M>>) {
    forall i :: 0 <= i < |log| ==> IsRegistered(log[i])
  }

  lemma AllRegisteredGrows<M>(log: seq<Registration<M>>, r: Registration<M>)
    requires AllRegistered(log) && IsRegistered(r)
    ensures AllRegistered(log + [r])
  {
  }

  /** Registration marks duplicates. */
  ghost function Insertions<M>(log: seq<Registration<M>>): seq<Insertion> {
    seq(|log|, i requires 0 <= i < |log| => Insertion(log[i].route, log[i].address, true))
  }

  ghost function RegistryFor<M>(log: seq<Registration<M>>): Registry {
    RegistryOf(Insertions(log))
  }

  ghost predicate IsFirstForRoute<M>(log: seq<Registration<M>>, i: nat)
    requires i < |log|
  {
    forall j :: 0 <= j < i ==> log[j].route != log[i].route
  }

  /** The only call for its route. */
  ghost predicate IsOnlyForRoute<M>(log: seq<Registration<M>>, i: nat)
    requires i < |log|
  {
    forall j :: 0 <= j < |log| && j != i ==> log[j].route != log[i].route
  }

  /** What holds between the trie, the calls so far and the live MethodData objects. */
  ghost predicate Consistent<M>(t: Trie, log: seq<Registration<M>>, methods: map<nat, MethodData<M>>) {
    && WellFormed(t) && !t.wildcard && Represents(t, RegistryFor(log))
    && (forall i :: 0 <= i < |log| && IsFirstForRoute(log, i) ==>
          log[i].address in methods && methods[log[i].address] == log[i].data)
  }

  lemma RegistryGrows<M>(log: seq<Registration<M>>, r: Registration<M>)
    ensures RegistryFor(log + [r]) == InsertFlat(RegistryFor(log), Insertion(r.route, r.address, true))
  {
    var more := Insertions(log + [r]);
    assert more[..|more| - 1] == Insertions(log);
  }

  /** One more call keeps everything consistent, whether or not its data stays alive when the route was taken. */
  lemma RegisterKeepsConsistent<M>(t: Trie, log: seq<Registration<M>>, methods: map<nat, MethodData<M>>,
                                   r: Registration<M>, methods': map<nat, MethodData<M>>)
    requires Consistent(t, log, methods) && r.address !in methods
    requires methods' == methods[r.address := r.data] || (methods' == methods && EntryAt(t, r.route).Some?)
    ensures Consistent(InsertTemplate(t, r.route.path, r.route.key, r.address, true), log + [r], methods')
  {
    RegistryGrows(log, r);
    InsertRefinesRegistry(t, RegistryFor(log), Insertion(r.route, r.address, true));
    assert EntryAt(t, r.route) == Get(RegistryFor(log), r.route);
    RegisterKeepsOwnership(log, methods, r, methods');
  }

  lemma RegisterKeepsOwnership<M>(log: seq<Registration<M>>, methods: map<nat, MethodData<M>>, r: Registration<M>,
                                  methods': map<nat, MethodData<M>>)
    requires forall i :: 0 <= i < |log| && IsFirstForRoute(log, i) ==>
               log[i].address in methods && methods[log[i].address] == log[i].data
    requires r.address !in methods
    requires methods' == methods[r.address := r.data] || (methods' == methods && r.route in RegistryFor(log))
    ensures forall i :: 0 <= i < |log| + 1 && IsFirstForRoute(log + [r], i) ==>
              (log + [r])[i].address in methods' && methods'[(log + [r])[i].address] == (log + [r])[i].data
  {
    var more := log + [r];
    if r.route in RegistryFor(log) {
      RegistryMeaning(Insertions(log), r.route);
      var j :| 0 <= j < |log| && Insertions(log)[j].route == r.route;
      assert more[j] == log[j] && !IsFirstForRoute(more, |log|);
    }
    forall i | 0 <= i < |log| && IsFirstForRoute(more, i) ensures IsFirstForRoute(log, i) {
      assert more[i] == log[i] && forall j :: 0 <= j < i ==> more[j] == log[j];
    }
  }

  /** A route is registered iff some call was for it, and its entry is unmarked iff only one was. */
  lemma EntryMeaning<M>(log: seq<Registration<M>>, route: Route)
    ensures route in RegistryFor(log) <==> exists i :: 0 <= i < |log| && log[i].route == route
    ensures route in RegistryFor(log) ==>
              (!RegistryFor(log)[route].isMultiple <==>
               exists i :: 0 <= i < |log| && log[i].route == route && IsOnlyForRoute(log, i))
  {
    var ops := Insertions(log);
    RegistryMeaning(ops, route);
    assert forall i :: 0 <= i < |log| ==> ops[i].route == log[i].route;
    if route in RegistryFor(log) {
      if RegistryFor(log)[route].isMultiple {
        NoneIfMarked(log, route);
      } else {
        var i :| 0 <= i < |ops| && ops[i].route == route;
        OnlyForUnmarked(log, route, i);
      }
    }
  }

  lemma NoneIfMarked<M>(log: seq<Registration<M>>, route: Route)
    requires route in RegistryFor(log) && RegistryFor(log)[route].isMultiple
    ensures forall j :: 0 <= j < |log| && log[j].route == route ==> !IsOnlyForRoute(log, j)
  {
    var ops := Insertions(log);
    RegistryMeaning(ops, route);
    var m, n :| 0 <= m < n < |ops| && ops[m].route == route && ops[n].route == route && ops[n].mark;
    forall j | 0 <= j < |log| && log[j].route == route ensures !IsOnlyForRoute(log, j) {
      var other := if j == m then n else m;
      assert log[other].route == route && other != j;
    }
  }

  lemma OnlyForUnmarked<M>(log: seq<Registration<M>>, route: Route, i: nat)
    requires route in RegistryFor(log) && !RegistryFor(log)[route].isMultiple && i < |log| && log[i].route == route
    ensures IsOnlyForRoute(log, i)
  {
    var ops := Insertions(log);
    RegistryMeaning(ops, route);
    forall j | 0 <= j < |log| && j != i ensures log[j].route != route {
      assert ops[j].route == log[j].route && ops[i].mark && ops[j].mark && ops[i].route == route;
    }
  }

  /** An unmarked entry points to the live data of the one call for its route. */
  lemma UnmarkedEntryIsOwned<M>(t: Trie, log: seq<Registration<M>>, methods: map<nat, MethodData<M>>, route: Route)
    returns (i: nat)
    requires Consistent(t, log, methods) && route in RegistryFor(log) && !RegistryFor(log)[route].isMultiple
    ensures i < |log| && log[i].route == route && IsOnlyForRoute(log, i)
    ensures var p := RegistryFor(log)[route].data; p in methods && methods[p] == log[i].data
  {
    var ops, p := Insertions(log), RegistryFor(log)[route].data;
    RegistryMeaning(ops, route);
    i :| && 0 <= i < |ops| && ops[i].route == route && ops[i].data == p
         && forall j :: i < j < |ops| ==> ops[j].route != route;
    OnlyForUnmarked(log, route, i);
    assert IsFirstForRoute(log, i);
  }

  // ----- Lookup -----

  /** The route that a lookup decides for: that of the first alignment with an entry, under the key before "*". */
  ghost predicate IsFirstRoute(reg: Registry, parts: seq<string>, key: string, route: Route) {
    exists a ::
      && Hit(reg, parts, key, a) && (forall b :: Hit(reg, parts, key, b) ==> NotAfter(a, b))
      && var p := Spelled(false, parts, a).value;
         route == if Route(p, key) in reg then Route(p, key) else Route(p, ANY_METHOD)
  }

  datatype Found<M> = Found(method_: M, bindings: seq<VariableBinding>, bodyFieldPath: string)

  ghost predicate IsFoundFor<M>(f: Found<M>, d: MethodData<M>, parts: seq<string>, spec: UrlUnescapeSpec) {
    && f.method_ == d.method_ && f.bodyFieldPath == d.bodyFieldPath && |f.bindings| == |d.variables|
    && forall k :: 0 <= k < |d.variables| ==>
         InRange(d.variables[k], |parts|) && f.bindings[k] == BindingOf(d.variables[k], parts, spec)
  }

  /** What a lookup must return: nothing if no registered path matches, nothing if the first route that matches was
      registered more than once, else the data of the one call for that route. */
  ghost predicate IsLookupResult<M>(log: seq<Registration<M>>, parts: seq<string>, key: string, spec: UrlUnescapeSpec,
                                    r: Option<Found<M>>) {
    var reg := RegistryFor(log);
    || ((forall b :: !Hit(reg, parts, key, b)) && r.None?)
    || exists route ::
         && IsFirstRoute(reg, parts, key, route)
         && if r.None? then forall i :: 0 <= i < |log| && log[i].route == route ==> !IsOnlyForRoute(log, i)
            else exists i :: 0 <= i < |log| && log[i].route == route && IsOnlyForRoute(log, i) &&
                             IsFoundFor(r.value, log[i].data, parts, spec)
  }

  lemma RoutesAreValidated<M>(log: seq<Registration<M>>)
    requires AllRegistered(log)
    ensures AllValidated(RegistryFor(log))
  {
    forall r | r in RegistryFor(log) ensures LiteralsAfterWild(r.path) {
      EntryMeaning(log, r);
      var i :| 0 <= i < |log| && log[i].route == r;
      assert IsRegistered(log[i]);
    }
  }

  lemma TreeOf(ht: string) returns (t: G.Template)
    requires ParseHttpTemplate(ht).Some? && ht != "/"
    ensures G.ValidTemplate(t) && LiteralsAfterWild(Flatten(t.segments)) && ParseHttpTemplate(ht) == Some(Compile(t))
  {
    t := G.ParseTemplate(ht).value;
    G.ParseIffPrinted(ht, t);
  }

  lemma TreeVariablesInRange(t: G.Template, parts: seq<string>)
    requires G.ValidTemplate(t) && LiteralsAfterWild(Flatten(t.segments)) && Matches(Flatten(t.segments), parts)
    ensures forall k :: 0 <= k < |Compile(t).variables| ==> InRange(Compile(t).variables[k], |parts|)
  {
    var cuts :| IsSplit(Flatten(t.segments), parts, cuts);
    forall k | 0 <= k < |Compile(t).variables| ensures InRange(Compile(t).variables[k], |parts|) {
      VariableRangeAligned(t, k, VariablesOf(t.segments)[k], Compile(t).variables[k], parts, cuts);
    }
  }

  /** The variables of a registered template lie within the parts of every request it matches. */
  lemma VariablesInRange<M>(r: Registration<M>, parts: seq<string>)
    requires IsRegistered(r) && Matches(r.route.path, parts)
    ensures forall k :: 0 <= k < |r.data.variables| ==> InRange(r.data.variables[k], |parts|)
  {
    if r.template != "/" {
      var t := TreeOf(r.template);
      TreeVariablesInRange(t, parts);
    }
  }

  ghost predicate CanServe<M>(r: Registration<M>, parts: seq<string>, key: string) {
    Matches(r.route.path, parts) && (r.route.key == key || r.route.key == ANY_METHOD)
  }

  /** A method is found only if its template matches, under the key or "*", and no other call was for its route. */
  lemma FoundMethodMatches<M>(log: seq<Registration<M>>, parts: seq<string>, key: string, spec: UrlUnescapeSpec,
                              f: Found<M>)
    requires AllRegistered(log)
    requires IsLookupResult(log, parts, key, spec, Some(f))
    ensures exists i :: 0 <= i < |log| && IsOnlyForRoute(log, i) && CanServe(log[i], parts, key) &&
                        IsFoundFor(f, log[i].data, parts, spec)
  {
    var route :| IsFirstRoute(RegistryFor(log), parts, key, route) &&
      exists i :: && 0 <= i < |log| && log[i].route == route && IsOnlyForRoute(log, i)
                  && IsFoundFor(f, log[i].data, parts, spec);
    FirstRouteMatches(log, parts, key, route);
  }

  /** When no method is found although some template matches, the route decided for was registered twice. */
  lemma NoMethodFound<M>(log: seq<Registration<M>>, parts: seq<string>, key: string, spec: UrlUnescapeSpec, i: nat)
    requires AllRegistered(log)
    requires IsLookupResult(log, parts, key, spec, None)
    requires i < |log| && CanServe(log[i], parts, key)
    ensures exists j, k :: 0 <= j < k < |log| && log[j].route == log[k].route && CanServe(log[j], parts, key) &&
                           IsFirstRoute(RegistryFor(log), parts, key, log[j].route)
  {
    MatchIsHit(log, i, parts, key);
    var route :| IsFirstRoute(RegistryFor(log), parts, key, route) &&
      forall i :: 0 <= i < |log| && log[i].route == route ==> !IsOnlyForRoute(log, i);
    FirstRouteMatches(log, parts, key, route);
    var j, k := TakenTwice(log, route);
  }

  lemma TakenTwice<M>(log: seq<Registration<M>>, route: Route) returns (j: nat, k: nat)
    requires route in RegistryFor(log)
    requires forall i :: 0 <= i < |log| && log[i].route == route ==> !IsOnlyForRoute(log, i)
    ensures j < k < |log| && log[j].route == route == log[k].route
  {
    EntryMeaning(log, route);
    j :| 0 <= j < |log| && log[j].route == route;
    k :| 0 <= k < |log| && k != j && log[k].route == log[j].route;
    if k < j {
      j, k := k, j;
    }
  }

  lemma FirstRouteMatches<M>(log: seq<Registration<M>>, parts: seq<string>, key: string, route: Route)
    requires AllRegistered(log)
    requires IsFirstRoute(RegistryFor(log), parts, key, route)
    ensures route in RegistryFor(log) && Matches(route.path, parts) && (route.key == key || route.key == ANY_METHOD)
  {
    RoutesAreValidated(log);
    var a :| Hit(RegistryFor(log), parts, key, a) && route.path == Spelled(false, parts, a).value &&
             (route == Route(route.path, key) || route == Route(route.path, ANY_METHOD)) && route in RegistryFor(log);
    assert Spelled(false, parts, a) == Some(route.path);
    AlignmentIffMatches(route.path, parts);
  }

  lemma MatchIsHit<M>(log: seq<Registration<M>>, i: nat, parts: seq<string>, key: string)
    requires AllRegistered(log)
    requires i < |log| && CanServe(log[i], parts, key)
    ensures exists b :: Hit(RegistryFor(log), parts, key, b)
  {
    var route := log[i].route;
    EntryMeaning(log, route);
    RoutesAreValidated(log);
    AlignmentIffMatches(route.path, parts);
    var b :| Spelled(false, parts, b) == Some(route.path);
    assert route == Route(route.path, route.key);
    assert Hit(RegistryFor(log), parts, key, b);
  }

  // ----- Methods and verbs -----

  /** The verb of a registered template. */
  ghost function VerbOf<M>(r: Registration<M>): string
    requires IsRegistered(r)
  {
    ParseHttpTemplate(r.template).value.verb
  }

  predicate IsProperPrefix(a: string, b: string) { a < b }

  lemma SameConcatenation(a: string, b: string, c: string, d: string)
    requires a + b == c + d
    ensures a == c && b == d <==> !IsProperPrefix(a, c) && !IsProperPrefix(c, a)
  {
    var s := a + b;
    assert s[..|a|] == a && s[|a|..] == b;
    assert s[..|c|] == c && s[|c|..] == d;
    if |a| < |c| {
      assert c[..|a|] == a;
    } else if |c| < |a| {
      assert a[..|c|] == c;
    }
  }

  /** A template under the key of a request is one for its method and its verb iff neither method is the beginning of
      the other. */
  lemma SameKeyIff<M>(r: Registration<M>, httpMethod: string, verb: string)
    requires IsRegistered(r) && r.route.key == httpMethod + verb
    ensures r.httpMethod == httpMethod && VerbOf(r) == verb <==>
            !IsProperPrefix(r.httpMethod, httpMethod) && !IsProperPrefix(httpMethod, r.httpMethod)
  {
    SameConcatenation(r.httpMethod, VerbOf(r), httpMethod, verb);
  }

  /** A template serves every method and verb iff it is one for "*" without a verb, or for no method with the verb
      "*". */
  lemma FallbackIff<M>(r: Registration<M>)
    requires IsRegistered(r)
    ensures r.route.key == ANY_METHOD <==>
            (r.httpMethod == "*" && VerbOf(r) == "") || (r.httpMethod == "" && VerbOf(r) == "*")
  {
    if r.httpMethod + VerbOf(r) == "*" {
      assert |r.httpMethod| + |VerbOf(r)| == 1;
    }
  }

  /** No method of a registered template is the beginning of that of the request, nor the other way round. */
  ghost predicate AreApart<M>(log: seq<Registration<M>>, httpMethod: string) {
    forall i :: 0 <= i < |log| ==>
      !IsProperPrefix(log[i].httpMethod, httpMethod) && !IsProperPrefix(httpMethod, log[i].httpMethod)
  }

  /** With methods that are apart, the method found was registered for the method and the verb of the request, or as a
      fallback for all. */
  lemma FoundMethodIsAskedFor<M>(log: seq<Registration<M>>, parts: seq<string>, httpMethod: string, verb: string,
                                 spec: UrlUnescapeSpec, f: Found<M>)
    requires AllRegistered(log) && AreApart(log, httpMethod)
    requires IsLookupResult(log, parts, httpMethod + verb, spec, Some(f))
    ensures exists i :: && 0 <= i < |log| && IsOnlyForRoute(log, i) && Matches(log[i].route.path, parts)
                        && IsFoundFor(f, log[i].data, parts, spec)
                        && ((log[i].httpMethod == httpMethod && VerbOf(log[i]) == verb)
                            || log[i].route.key == ANY_METHOD)
  {
    FoundMethodMatches(log, parts, httpMethod + verb, spec, f);
    var i :| && 0 <= i < |log| && IsOnlyForRoute(log, i) && CanServe(log[i], parts, httpMethod + verb)
             && IsFoundFor(f, log[i].data, parts, spec);
    if log[i].route.key == httpMethod + verb {
      SameKeyIff(log[i], httpMethod, verb);
    }
  }

  /** Otherwise it need not be: "/" registered for "GETX" serves the request "GET" for "/:X". */
  lemma KeysRunTogether<M>(m: M)
    ensures var r := Registration("GETX", "/", Route([], "GETX"), 0, MethodData(m, [], ""));
            var request := RequestParts.Extract("/:X", {}, true);
            IsRegistered(r) && CanServe(r, request.parts, "GET" + request.verb) && VerbOf(r) != request.verb
  {
    RequestParts.SplittingUndoesBuilding([], "X", {}, true);
    assert "/" + Join([], '/') + ":" + "X" == "/:X";
    assert IsSplit([], [], [0]);
  }

  /** And a template for "*" with a verb is no fallback: it serves its verb for "*" only. */
  lemma StarWithVerb<M>(r: Registration<M>, parts: seq<string>, httpMethod: string)
    requires IsRegistered(r) && r.httpMethod == "*" && VerbOf(r) != "" && Matches(r.route.path, parts)
    ensures CanServe(r, parts, httpMethod + VerbOf(r)) <==> httpMethod == "*"
  {
    FallbackIff(r);
    if r.route.key == httpMethod + VerbOf(r) {
      SameTail("*", httpMethod, VerbOf(r));
    }
  }

  lemma SameTail(a: string, b: string, tail: string)
    requires a + tail == b + tail
    ensures a == b
  {
    var s := a + tail;
    assert |a| == |b| && s[..|a|] == a && s[..|b|] == b;
  }

  /** The value bound to an aligned variable of the method found: the decoded parts its own segments matched. */
  lemma BoundValue<M>(r: Registration<M>, f: Found<M>, t: G.Template, parts: seq<string>, spec: UrlUnescapeSpec,
                      k: nat, raw: Variable, cuts: seq<nat>)
    requires IsRegistered(r) && ParseHttpTemplate(r.template) == Some(Compile(t))
    requires G.ValidTemplate(t) && LiteralsAfterWild(Flatten(t.segments))
    requires IsFoundFor(f, r.data, parts, spec) && IsSplit(r.route.path, parts, cuts)
    requires k < |VariablesOf(t.segments)| && raw == VariablesOf(t.segments)[k]
    requires IsAligned(raw, r.route.path, |parts|)
    ensures k < |f.bindings| && 0 <= raw.startSegment < raw.endSegment < |cuts|
    ensures cuts[raw.startSegment] <= cuts[raw.endSegment] <= |parts|
    ensures f.bindings[k] ==
            VariableBinding(raw.fieldPath,
              Join(UnescapeParts(parts[cuts[raw.startSegment]..cuts[raw.endSegment]],
                                 if raw.hasWildcardPath || raw.endSegment - raw.startSegment > 1 then spec
                                 else AllCharacters, false), '/'))
  {
    VariableValue(t, k, raw, Compile(t).variables[k], parts, cuts, spec);
  }
}
