/** Which of several matching templates a lookup decides for, said of their syntax trees. */
module TemplatePrecedence {
  import opened Wrappers
  import opened RouteTrie
  import opened RoutePrecedence
  import opened PathMatching
  import opened HttpTemplates
  import opened TreeMatching
  import opened PercentEncoding
  import opened RegisteredMethods
  import opened RegisteredTemplates
  import G = TemplateGrammar

  function Order(p: Piece): nat {
    match p
    case Text(_) => 0
    case One => 1
    case Many => 2
  }

  /** The first difference decides: a literal comes before a star, and both before a double star; the end of the path
      comes before a double star that takes nothing; behind a double star the longer path comes first. */
  ghost predicate Beats(ps: seq<Piece>, qs: seq<Piece>)
    decreases |ps|
  {
    if ps == [] then qs != [] && qs[0] == Many
    else if qs == [] then false
    else if ps[0] == Many && qs[0] == Many then |ps| > |qs|
    else if ps[0] == qs[0] then Beats(ps[1..], qs[1..])
    else Order(ps[0]) < Order(qs[0])
  }

  ghost predicate AreAccepted(ps: seq<Piece>) {
    && ArePlain(ps)
    && forall i, j :: 0 <= i < j < |ps| && ps[i] == Many ==> ps[j].Text?
  }

  lemma SameSpelling(ps: seq<Piece>, qs: seq<Piece>)
    requires ArePlain(ps) && ArePlain(qs) && Spellings(ps) == Spellings(qs)
    ensures ps == qs
  {
    assert |Spellings(ps)| == |Spellings(qs)|;
    forall i | 0 <= i < |ps| ensures ps[i] == qs[i] {
      assert Spelling(ps[i]) == Spellings(ps)[i] == Spellings(qs)[i] == Spelling(qs[i]);
      assert IsPlain(ps[i]) && IsPlain(qs[i]);
    }
  }

  // ----- Alignments of two paths with the same parts -----

  /** A part that is spelled "*" goes to the segment of that name as its own. */
  ghost predicate UsesOwn(parts: seq<string>, steps: seq<Step>) {
    forall j :: 0 <= j < |parts| && j < |steps| && steps[j] == Star ==> parts[j] != "*"
  }

  lemma {:induction false} AlignUsingOwn(parts: seq<string>, steps: seq<Step>, inWild: bool) returns (own: seq<Step>)
    requires Spelled(inWild, parts, steps).Some?
    ensures Spelled(inWild, parts, own) == Spelled(inWild, parts, steps) && UsesOwn(parts, own)
    decreases |parts|
  {
    if parts == [] {
      own := steps;
    } else {
      var first := if steps[0] == Star && parts[0] == "*" then Own else steps[0];
      var next := if steps[0] == Stay || steps[0] == Enter then true
                  else if steps[0] == Own then parts[0] == WILD_CARD_PATH else false;
      var rest := AlignUsingOwn(parts[1..], steps[1..], next);
      own := [first] + rest;
      assert own[1..] == rest;
      assert forall j :: 0 < j < |parts| ==> parts[j] == parts[1..][j - 1];
    }
  }

  lemma FirstPiece(parts: seq<string>, steps: seq<Step>, ps: seq<Piece>)
    requires parts != [] && "**" !in parts && ArePlain(ps) && Spelled(false, parts, steps) == Some(Spellings(ps))
    ensures steps != [] && ps != []
    ensures match steps[0]
            case Own => ps[0] == Text(parts[0]) || (ps[0] == One && parts[0] == "*")
            case Star => ps[0] == One
            case Enter => ps[0] == Many
            case _ => false
    ensures Spelled(steps[0] == Enter, parts[1..], steps[1..]) == Some(Spellings(ps[1..]))
  {
    assert parts[0] in parts;
    assert Spellings(ps) != [] && Spellings(ps)[0] == Spelling(ps[0]) && IsPlain(ps[0]);
    assert Spellings(ps)[1..] == Spellings(ps[1..]);
  }

  lemma {:induction false} LongerFirst(parts: seq<string>, a: seq<Step>, b: seq<Step>, p: seq<string>, q: seq<string>)
    requires "**" !in parts && AllLiterals(p) && AllLiterals(q) && NotAfter(a, b)
    requires Spelled(true, parts, a) == Some(p) && Spelled(true, parts, b) == Some(q)
    ensures |p| >= |q| && (|p| == |q| ==> p == q)
    decreases |parts|
  {
    AlignmentInWild(parts, a, p, true);
    AlignmentInWild(parts, b, q, true);
    if parts != [] {
      assert parts[0] in parts;
      if a[0] == Own {
        assert p != [] && IsLiteral(p[0]) && p[1..] == Spelled(false, parts[1..], a[1..]).value;
        AlignmentInWild(parts[1..], a[1..], p[1..], false);
      } else {
        LongerFirst(parts[1..], a[1..], b[1..], p, q);
      }
    }
  }

  /** If one alignment is not after another, their paths are the same, or the first path comes before the other. */
  lemma {:induction false} FirstBeats(parts: seq<string>, a: seq<Step>, b: seq<Step>, ps: seq<Piece>, qs: seq<Piece>)
    requires "**" !in parts && AreAccepted(ps) && AreAccepted(qs) && NotAfter(a, b) && UsesOwn(parts, b)
    requires Spelled(false, parts, a) == Some(Spellings(ps)) && Spelled(false, parts, b) == Some(Spellings(qs))
    ensures ps == qs || Beats(ps, qs)
    decreases |parts|
  {
    if parts == [] {
      EndBeats(a, b, ps, qs);
    } else {
      FirstPiece(parts, a, ps);
      FirstPiece(parts, b, qs);
      if a[0] == Enter && b[0] == Enter {
        WildBeats(parts, a, b, ps, qs);
      } else if ps[0] == qs[0] {
        assert ps == [ps[0]] + ps[1..] && qs == [qs[0]] + qs[1..];
        RestIsAccepted(ps);
        RestIsAccepted(qs);
        assert UsesOwn(parts[1..], b[1..]) by {
          assert forall j :: 0 <= j < |parts[1..]| ==> parts[1..][j] == parts[j + 1];
        }
        FirstBeats(parts[1..], a[1..], b[1..], ps[1..], qs[1..]);
      }
    }
  }

  lemma RestIsAccepted(ps: seq<Piece>)
    requires AreAccepted(ps) && ps != []
    ensures AreAccepted(ps[1..])
  {
    assert forall i :: 0 <= i < |ps[1..]| ==> ps[1..][i] == ps[i + 1];
  }

  lemma EndBeats(a: seq<Step>, b: seq<Step>, ps: seq<Piece>, qs: seq<Piece>)
    requires AreAccepted(ps) && AreAccepted(qs) && NotAfter(a, b)
    requires Spelled(false, [], a) == Some(Spellings(ps)) && Spelled(false, [], b) == Some(Spellings(qs))
    ensures ps == qs || Beats(ps, qs)
  {
    if Spellings(ps) == Spellings(qs) {
      SameSpelling(ps, qs);
    } else {
      assert a == [Here] && b == [Beyond];
      assert Spellings(ps) == [] && Spellings(qs) == ["**"];
      assert Spelling(qs[0]) == Spellings(qs)[0] && IsPlain(qs[0]);
    }
  }

  lemma WildBeats(parts: seq<string>, a: seq<Step>, b: seq<Step>, ps: seq<Piece>, qs: seq<Piece>)
    requires parts != [] && "**" !in parts && AreAccepted(ps) && AreAccepted(qs) && NotAfter(a, b)
    requires a != [] && b != [] && a[0] == Enter && b[0] == Enter
    requires ps != [] && qs != [] && ps[0] == Many && qs[0] == Many
    requires Spelled(true, parts[1..], a[1..]) == Some(Spellings(ps[1..]))
    requires Spelled(true, parts[1..], b[1..]) == Some(Spellings(qs[1..]))
    ensures ps == qs || Beats(ps, qs)
  {
    TextsBehindMany(ps);
    TextsBehindMany(qs);
    LongerFirst(parts[1..], a[1..], b[1..], Spellings(ps[1..]), Spellings(qs[1..]));
    if |ps| == |qs| {
      SameSpelling(ps[1..], qs[1..]);
      assert ps == [Many] + ps[1..] && qs == [Many] + qs[1..];
    }
  }

  lemma TextsBehindMany(ps: seq<Piece>)
    requires AreAccepted(ps) && ps != [] && ps[0] == Many
    ensures ArePlain(ps[1..]) && AllLiterals(Spellings(ps[1..]))
  {
    var rest := ps[1..];
    forall i | 0 <= i < |rest| ensures IsPlain(rest[i]) && IsLiteral(Spellings(rest)[i]) {
      assert rest[i] == ps[i + 1] && ps[i + 1].Text? && IsPlain(ps[i + 1]);
    }
  }

  // ----- The template that is found -----

  /** The template "/" has no tree. */
  ghost function PiecesAt<M>(r: Registration<M>): seq<Piece>
    requires IsRegistered(r)
  {
    if r.template == "/" then [] else Pieces(G.ParseTemplate(r.template).value.segments)
  }

  lemma RouteIsSpelled<M>(r: Registration<M>)
    requires IsRegistered(r)
    ensures AreAccepted(PiecesAt(r)) && r.route.path == Spellings(PiecesAt(r))
  {
    if r.template != "/" {
      var t := G.ParseTemplate(r.template).value;
      G.ParseIffPrinted(r.template, t);
      SegmentsAreSpelled(false, t.segments);
      TameIff(t);
    }
  }

  lemma PiecesOfTree<M>(r: Registration<M>, t: G.Template)
    requires IsForTree(r, t)
    ensures PiecesAt(r) == Pieces(t.segments)
  {
    G.ParseIffPrinted(r.template, t);
    assert G.ParseTemplate("/").None?;
  }

  /** No other template that can serve comes before it; under the same segments the key itself comes before "*". */
  ghost predicate IsMostSpecific<M>(log: seq<Registration<M>>, j: nat, parts: seq<string>, key: string)
    requires AllRegistered(log) && j < |log|
  {
    && CanServe(log[j], parts, key)
    && forall i :: 0 <= i < |log| && CanServe(log[i], parts, key) ==>
         if PiecesAt(log[j]) == PiecesAt(log[i]) then log[i].route.key == key ==> log[j].route.key == key
         else Beats(PiecesAt(log[j]), PiecesAt(log[i]))
  }

  lemma FirstRouteIsMostSpecific<M>(log: seq<Registration<M>>, j: nat, parts: seq<string>, key: string)
    requires AllRegistered(log) && j < |log| && "**" !in parts
    requires IsFirstRoute(RegistryFor(log), parts, key, log[j].route)
    ensures IsMostSpecific(log, j, parts, key)
  {
    var reg, route := RegistryFor(log), log[j].route;
    FirstRouteMatches(log, parts, key, route);
    RouteIsSpelled(log[j]);
    var a :| && Hit(reg, parts, key, a) && (forall b :: Hit(reg, parts, key, b) ==> NotAfter(a, b))
             && var p := Spelled(false, parts, a).value;
                route == if Route(p, key) in reg then Route(p, key) else Route(p, ANY_METHOD);
    assert Spelled(false, parts, a) == Some(route.path);
    forall i | 0 <= i < |log| && CanServe(log[i], parts, key)
      ensures if PiecesAt(log[j]) == PiecesAt(log[i]) then log[i].route.key == key ==> log[j].route.key == key
              else Beats(PiecesAt(log[j]), PiecesAt(log[i]))
    {
      RouteIsSpelled(log[i]);
      var b := HitOf(log, i, parts, key);
      FirstBeats(parts, a, b, PiecesAt(log[j]), PiecesAt(log[i]));
      EntryMeaning(log, log[i].route);
      assert log[i].route == Route(log[i].route.path, log[i].route.key);
    }
  }

  lemma HitOf<M>(log: seq<Registration<M>>, i: nat, parts: seq<string>, key: string) returns (b: seq<Step>)
    requires AllRegistered(log) && i < |log| && CanServe(log[i], parts, key)
    ensures Hit(RegistryFor(log), parts, key, b)
    ensures Spelled(false, parts, b) == Some(log[i].route.path) && UsesOwn(parts, b)
  {
    var route := log[i].route;
    EntryMeaning(log, route);
    RoutesAreValidated(log);
    AlignmentIffMatches(route.path, parts);
    var steps :| Spelled(false, parts, steps) == Some(route.path);
    b := AlignUsingOwn(parts, steps, false);
    assert route == Route(route.path, route.key);
  }

  /** For parts none of which is spelled "**": the method found is that of the most specific template. */
  lemma MostSpecificIsFound<M>(log: seq<Registration<M>>, parts: seq<string>, key: string, spec: UrlUnescapeSpec,
                               f: Found<M>)
    requires AllRegistered(log) && "**" !in parts && IsLookupResult(log, parts, key, spec, Some(f))
    ensures exists j :: 0 <= j < |log| && IsMostSpecific(log, j, parts, key) && IsFoundFor(f, log[j].data, parts, spec)
  {
    var route :| IsFirstRoute(RegistryFor(log), parts, key, route) &&
      exists i :: && 0 <= i < |log| && log[i].route == route && IsOnlyForRoute(log, i)
                  && IsFoundFor(f, log[i].data, parts, spec);
    var j :| && 0 <= j < |log| && log[j].route == route && IsOnlyForRoute(log, j)
             && IsFoundFor(f, log[j].data, parts, spec);
    FirstRouteIsMostSpecific(log, j, parts, key);
  }

  // ----- Parts that are spelled "**" -----

  /** Of two templates that take the parts, a lookup decides for the first. */
  ghost predicate IsPreferred(ps: seq<Piece>, qs: seq<Piece>, parts: seq<string>) {
    exists a :: && Spelled(false, parts, a) == Some(Spellings(ps))
                && forall b :: Spelled(false, parts, b) == Some(Spellings(qs)) ==> NotAfter(a, b)
  }

  /** The order decides between any two templates that take the parts. */
  ghost predicate OrderDecides(parts: seq<string>) {
    forall ps, qs ::
      AreAccepted(ps) && AreAccepted(qs) && Matches(Spellings(qs), parts) && IsPreferred(ps, qs, parts) ==>
        ps == qs || Beats(ps, qs)
  }

  function Ones(n: nat): seq<Piece> { seq(n, _ => One) }

  lemma OnesAreAccepted(n: nat)
    ensures AreAccepted(Ones(n)) && AreAccepted(Ones(n) + [Many])
  {
  }

  lemma {:induction false} OnesDoNotLose(i: nat, n: nat)
    requires i < n
    ensures !Beats(Ones(i) + [Many], Ones(n)) && Ones(i) + [Many] != Ones(n)
    decreases i
  {
    var ps, qs := Ones(i) + [Many], Ones(n);
    assert ps[i] == Many && qs[i] == One;
    if i > 0 {
      assert ps[1..] == Ones(i - 1) + [Many] && qs[1..] == Ones(n - 1);
      OnesDoNotLose(i - 1, n - 1);
    }
  }

  /** Stars up to the part spelled "**", which goes to the double star of that name as its own. */
  function ToPart(parts: seq<string>, i: nat): seq<Step>
    requires i < |parts|
    decreases |parts|
  {
    if i == 0 then [Own] + Inside(|parts| - 1)
    else [if parts[0] == "*" then Own else Star] + ToPart(parts[1..], i - 1)
  }

  function Inside(n: nat): seq<Step> { if n == 0 then [Here] else [Stay] + Inside(n - 1) }

  lemma {:induction false} InsideTakesAll(parts: seq<string>)
    ensures Spelled(true, parts, Inside(|parts|)) == Some([])
    decreases |parts|
  {
    if parts != [] {
      InsideTakesAll(parts[1..]);
      assert Inside(|parts|)[1..] == Inside(|parts| - 1);
    }
  }

  lemma {:induction false} ToPartSpells(parts: seq<string>, i: nat)
    requires i < |parts| && parts[i] == "**"
    ensures Spelled(false, parts, ToPart(parts, i)) == Some(Spellings(Ones(i) + [Many]))
    decreases |parts|
  {
    var steps, path := ToPart(parts, i), Spellings(Ones(i) + [Many]);
    if i == 0 {
      InsideTakesAll(parts[1..]);
      assert steps[1..] == Inside(|parts| - 1);
      assert path == ["**"] + [];
    } else {
      ToPartSpells(parts[1..], i - 1);
      assert steps[1..] == ToPart(parts[1..], i - 1);
      assert path == ["*"] + Spellings(Ones(i - 1) + [Many]);
    }
  }

  /** No alignment of stars alone comes before it. */
  lemma {:induction false} ToPartIsFirst(parts: seq<string>, i: nat, b: seq<Step>)
    requires i < |parts| && parts[i] == "**" && Spelled(false, parts, b) == Some(Spellings(Ones(|parts|)))
    ensures NotAfter(ToPart(parts, i), b)
    decreases |parts|
  {
    var path := Spellings(Ones(|parts|));
    assert path[0] == "*" && path[1..] == Spellings(Ones(|parts| - 1));
    if i > 0 {
      assert b[0] == Star || (b[0] == Own && parts[0] == "*");
      ToPartIsFirst(parts[1..], i - 1, b[1..]);
      assert ToPart(parts, i)[1..] == ToPart(parts[1..], i - 1);
    }
  }

  lemma {:induction false} OnesTakeAll(parts: seq<string>) returns (steps: seq<Step>)
    ensures Spelled(false, parts, steps) == Some(Spellings(Ones(|parts|)))
    decreases |parts|
  {
    var path := Spellings(Ones(|parts|));
    if parts == [] {
      steps := [Here];
      assert path == [];
    } else {
      var rest := OnesTakeAll(parts[1..]);
      steps := [Star] + rest;
      assert steps[1..] == rest && path == ["*"] + Spellings(Ones(|parts| - 1));
    }
  }

  /** For all parts: the order decides between templates iff no part is spelled "**". Such a part goes to a double star
      before it goes to a star. */
  lemma OrderDecidesIff(parts: seq<string>)
    ensures OrderDecides(parts) <==> "**" !in parts
  {
    if "**" in parts {
      var i :| 0 <= i < |parts| && parts[i] == "**";
      OrderFails(parts, i);
    } else {
      forall ps, qs | && AreAccepted(ps) && AreAccepted(qs) && Matches(Spellings(qs), parts)
                      && IsPreferred(ps, qs, parts)
        ensures ps == qs || Beats(ps, qs)
      {
        PreferredBeats(ps, qs, parts);
      }
    }
  }

  lemma PreferredBeats(ps: seq<Piece>, qs: seq<Piece>, parts: seq<string>)
    requires "**" !in parts && AreAccepted(ps) && AreAccepted(qs)
    requires Matches(Spellings(qs), parts) && IsPreferred(ps, qs, parts)
    ensures ps == qs || Beats(ps, qs)
  {
    var a :| && Spelled(false, parts, a) == Some(Spellings(ps))
             && forall b :: Spelled(false, parts, b) == Some(Spellings(qs)) ==> NotAfter(a, b);
    assert LiteralsAfterWild(Spellings(qs)) by {
      forall i | 0 <= i < |qs| ensures (Spellings(qs)[i] == "**" ==> qs[i] == Many) &&
                                       (qs[i].Text? ==> IsLiteral(Spellings(qs)[i])) {
        assert IsPlain(qs[i]);
      }
    }
    AlignmentIffMatches(Spellings(qs), parts);
    var steps :| Spelled(false, parts, steps) == Some(Spellings(qs));
    var b := AlignUsingOwn(parts, steps, false);
    FirstBeats(parts, a, b, ps, qs);
  }

  lemma OrderFails(parts: seq<string>, i: nat)
    requires i < |parts| && parts[i] == "**"
    ensures !OrderDecides(parts)
  {
    var ps, qs, a := Ones(i) + [Many], Ones(|parts|), ToPart(parts, i);
    OnesAreAccepted(i);
    OnesAreAccepted(|parts|);
    OnesDoNotLose(i, |parts|);
    var steps := OnesTakeAll(parts);
    assert LiteralsAfterWild(Spellings(qs));
    AlignmentIffMatches(Spellings(qs), parts);
    ToPartSpells(parts, i);
    forall b | Spelled(false, parts, b) == Some(Spellings(qs)) ensures NotAfter(a, b) {
      ToPartIsFirst(parts, i, b);
    }
    assert IsPreferred(ps, qs, parts);
  }
}
