/** What lookups find, said of the syntax trees of the templates that were registered. */
module RegisteredTemplates {
  import opened Wrappers
  import opened Strings
  import opened PercentEncoding
  import opened RouteTrie
  import opened PathMatching
  import opened HttpTemplates
  import opened TreeMatching
  import opened RequestParts
  import opened RegisteredMethods
  import G = TemplateGrammar

  /** The call is for the template that the tree prints as. */
  ghost predicate IsForTree<M>(r: Registration<M>, t: G.Template) {
    IsRegistered(r) && G.ValidTemplate(t) && r.template == G.Print(t)
  }

  function VerbIn(t: G.Template): string {
    match t.verb
    case Some(v) => v
    case None => ""
  }

  lemma TreeIsRegistered<M>(r: Registration<M>, t: G.Template)
    requires IsForTree(r, t)
    ensures IsTame(t) && VerbOf(r) == VerbIn(t)
    ensures r.route == Route(Spellings(Pieces(t.segments)), r.httpMethod + VerbIn(t))
  {
    AcceptedTree(t);
  }

  /** A registered tree serves its own method and verb iff it matches the parts. */
  lemma TreeServesIff<M>(r: Registration<M>, t: G.Template, parts: seq<string>)
    requires IsForTree(r, t)
    ensures CanServe(r, parts, r.httpMethod + VerbIn(t)) <==> TreeMatches(t, parts)
  {
    TreeIsRegistered(r, t);
    SegmentsAreSpelled(false, t.segments);
    TreeMatchesIff(t, parts);
  }

  /** The template "/" is for no parts, without a verb. */
  lemma RootServesIff<M>(r: Registration<M>, parts: seq<string>)
    requires IsRegistered(r) && r.template == "/"
    ensures r.route == Route([], r.httpMethod) && r.data.variables == []
    ensures CanServe(r, parts, r.httpMethod) <==> parts == []
  {
    MatchesIffTakes([], parts);
    assert r.httpMethod + "" == r.httpMethod;
  }

  // ----- Requests built for a tree -----

  /** The path of the parts, and the verb of the tree behind a colon. */
  function PathFor(t: G.Template, parts: seq<string>): string {
    match t.verb
    case Some(v) => "/" + Join(parts, '/') + ":" + v
    case None => "/" + Join(parts, '/')
  }

  /** The verb is known, and can stand in a path; without one the last part does not look like it. */
  ghost predicate VerbIsClear(t: G.Template, parts: seq<string>, customVerbs: set<string>, matchUnregistered: bool) {
    match t.verb
    case Some(v) => '?' !in v && (matchUnregistered || v in customVerbs)
    case None => !EndsInVerb(parts, customVerbs, matchUnregistered)
  }

  lemma RequestForTree(t: G.Template, parts: seq<string>, customVerbs: set<string>, matchUnregistered: bool)
    requires G.ValidTemplate(t) && ArePathParts(parts) && VerbIsClear(t, parts, customVerbs, matchUnregistered)
    ensures Extract(PathFor(t, parts), customVerbs, matchUnregistered) == Request(parts, VerbIn(t))
  {
    match t.verb
    case Some(v) =>
      SplittingUndoesBuilding(parts, v, customVerbs, matchUnregistered);
    case None =>
      SplittingWithoutVerb(parts, customVerbs, matchUnregistered);
  }

  ghost predicate RoutesDiffer<M>(log: seq<Registration<M>>) {
    forall j, k :: 0 <= j < k < |log| ==> log[j].route != log[k].route
  }

  /** A request for the method of a registered template, with parts that its tree matches, and its verb behind a colon,
      finds a method, if no route was registered twice; and what it finds has a tree that matches the parts. */
  lemma RegisteredIsFound<M>(log: seq<Registration<M>>, i: nat, t: G.Template, parts: seq<string>,
                             customVerbs: set<string>, matchUnregistered: bool, spec: UrlUnescapeSpec,
                             r: Option<Found<M>>)
    requires AllRegistered(log) && RoutesDiffer(log) && i < |log| && IsForTree(log[i], t) && TreeMatches(t, parts)
    requires ArePathParts(parts) && VerbIsClear(t, parts, customVerbs, matchUnregistered)
    requires var q := Extract(PathFor(t, parts), customVerbs, matchUnregistered);
             IsLookupResult(log, q.parts, log[i].httpMethod + q.verb, spec, r)
    ensures r.Some?
    ensures exists j :: && 0 <= j < |log| && IsFoundFor(r.value, log[j].data, parts, spec)
                        && forall u :: IsForTree(log[j], u) ==> TreeMatches(u, parts)
  {
    RequestForTree(t, parts, customVerbs, matchUnregistered);
    TreeServesIff(log[i], t, parts);
    var key := log[i].httpMethod + VerbIn(t);
    if r.None? {
      NoMethodFound(log, parts, key, spec, i);
    } else {
      FoundMethodMatches(log, parts, key, spec, r.value);
      var j :| && 0 <= j < |log| && IsOnlyForRoute(log, j) && CanServe(log[j], parts, key)
               && IsFoundFor(r.value, log[j].data, parts, spec);
      forall u | IsForTree(log[j], u) ensures TreeMatches(u, parts) {
        TreeIsRegistered(log[j], u);
        SegmentsAreSpelled(false, u.segments);
        TreeMatchesIff(u, parts);
      }
    }
  }

  // ----- Verbs that are known -----

  /** The verbs of the calls that were not refused. */
  ghost predicate VerbsAreKnown<M>(log: seq<Registration<M>>, verbs: set<string>)
    requires AllRegistered(log)
  {
    forall i :: 0 <= i < |log| && IsFirstForRoute(log, i) && VerbOf(log[i]) != "" ==> VerbOf(log[i]) in verbs
  }

  lemma VerbsStayKnown<M>(log: seq<Registration<M>>, r: Registration<M>, verbs: set<string>, verbs': set<string>)
    requires AllRegistered(log) && IsRegistered(r) && VerbsAreKnown(log, verbs) && verbs <= verbs'
    requires r.route !in RegistryFor(log) && VerbOf(r) != "" ==> VerbOf(r) in verbs'
    ensures AllRegistered(log + [r]) && VerbsAreKnown(log + [r], verbs')
  {
    var more := log + [r];
    AllRegisteredGrows(log, r);
    EntryMeaning(log, r.route);
    forall i | 0 <= i < |more| && IsFirstForRoute(more, i) && VerbOf(more[i]) != "" ensures VerbOf(more[i]) in verbs' {
      if i < |log| {
        assert forall j :: 0 <= j < i ==> more[j] == log[j];
        assert IsFirstForRoute(log, i);
      } else {
        assert forall j :: 0 <= j < |log| ==> more[j] == log[j];
      }
    }
  }
}
