/** What a path template compiles to: a flat list of segments, a verb and the segment ranges of its variables. */
module HttpTemplates {
  import opened Wrappers
  import opened TemplateGrammar
  import opened PathMatching

  /** The variable takes the segments from startSegment to before endSegment; a negative end counts from the end of
      the path, -1 being the end itself. */
  datatype Variable = Variable(startSegment: int, endSegment: int, fieldPath: seq<string>, hasWildcardPath: bool)

  datatype HttpTemplate = HttpTemplate(segments: seq<string>, verb: string, variables: seq<Variable>)

  const ROOT := HttpTemplate([], "", [])

  // ----- Compilation, read off the syntax tree -----

  function Texts(x: Segment): seq<string>
    decreases x
  {
    match x
    case Star => ["*"]
    case DoubleStar => ["**"]
    case Literal(text) => [text]
    case Binding(_, pattern) => PatternTexts(pattern)
  }

  function PatternTexts(p: Pattern): seq<string>
    decreases p
  {
    match p
    case AnyOne => ["*"]
    case Of(xs) => Flatten(xs)
  }

  function Flatten(xs: seq<Segment>): seq<string>
    decreases xs
  {
    if xs == [] then [] else Flatten(xs[..|xs| - 1]) + Texts(xs[|xs| - 1])
  }

  /** A variable covers the segments that its own pattern flattens to. */
  function VariablesOf(xs: seq<Segment>): seq<Variable> {
    if xs == [] then []
    else
      var before := xs[..|xs| - 1];
      VariablesOf(before) + VariableOf(|Flatten(before)|, xs[|xs| - 1])
  }

  /** The variable that a segment starting at start is, if it is one. */
  function VariableOf(start: nat, x: Segment): seq<Variable> {
    match x
    case Binding(path, pattern) => [Variable(start, start + |Texts(x)|, path, HasDoubleStar(pattern))]
    case _ => []
  }

  predicate HasDoubleStar(p: Pattern) {
    p.Of? && DoubleStar in p.segments
  }

  function PostProcess(v: Variable, n: nat): Variable {
    if v.hasWildcardPath then v.(endSegment := v.endSegment - n - 1) else v
  }

  function PostProcessAll(vs: seq<Variable>, n: nat): seq<Variable> {
    seq(|vs|, i requires 0 <= i < |vs| => PostProcess(vs[i], n))
  }

  function Compile(t: Template): HttpTemplate {
    HttpTemplate(Flatten(t.segments), if t.verb.Some? then t.verb.value else "",
                 PostProcessAll(VariablesOf(t.segments), |Flatten(t.segments)|))
  }

  // ----- Compilation, as the parser builds it up -----

  /** The lists a parser appends to. */
  datatype Lists = Lists(segments: seq<string>, variables: seq<Variable>)

  function MarkLast(vs: seq<Variable>): seq<Variable>
    requires vs != []
  {
    vs[|vs| - 1 := vs[|vs| - 1].(hasWildcardPath := true)]
  }

  function CloseLast(ls: Lists): Lists
    requires ls.variables != []
  {
    var n := |ls.variables|;
    ls.(variables := ls.variables[n - 1 := ls.variables[n - 1].(endSegment := |ls.segments|)])
  }

  function Open(ls: Lists, path: seq<string>): (r: Lists)
    ensures |r.variables| == |ls.variables| + 1
  {
    ls.(variables := ls.variables + [Variable(|ls.segments|, 0, path, false)])
  }

  function Append(inVariable: bool, ls: Lists, x: Segment): (r: Lists)
    requires inVariable ==> ls.variables != []
    ensures |r.variables| >= |ls.variables|
    decreases x
  {
    match x
    case Star => ls.(segments := ls.segments + ["*"])
    case DoubleStar =>
      Lists(ls.segments + ["**"], if inVariable then MarkLast(ls.variables) else ls.variables)
    case Literal(text) => ls.(segments := ls.segments + [text])
    case Binding(path, pattern) => CloseLast(AppendPattern(Open(ls, path), pattern))
  }

  function AppendPattern(ls: Lists, p: Pattern): (r: Lists)
    requires ls.variables != []
    ensures |r.variables| >= |ls.variables|
    decreases p
  {
    match p
    case AnyOne => ls.(segments := ls.segments + ["*"])
    case Of(xs) => AppendAll(true, ls, xs)
  }

  function AppendAll(inVariable: bool, ls: Lists, xs: seq<Segment>): (r: Lists)
    requires inVariable ==> ls.variables != []
    ensures |r.variables| >= |ls.variables|
    decreases xs
  {
    if xs == [] then ls else Append(inVariable, AppendAll(inVariable, ls, xs[..|xs| - 1]), xs[|xs| - 1])
  }

  lemma {:induction false} AppendPlain(ls: Lists, xs: seq<Segment>)
    requires ls.variables != [] && (xs != [] ==> ValidSegments(true, xs))
    ensures AppendAll(true, ls, xs).segments == ls.segments + Flatten(xs)
    ensures AppendAll(true, ls, xs).variables == if DoubleStar in xs then MarkLast(ls.variables) else ls.variables
    decreases |xs|
  {
    if xs != [] {
      var before, x := xs[..|xs| - 1], xs[|xs| - 1];
      assert xs == before + [x];
      ValidPrefix(true, xs);
      AppendPlain(ls, before);
    }
  }

  lemma AppendCompiles(ls: Lists, x: Segment)
    requires ValidSegment(false, x)
    ensures Append(false, ls, x) == Lists(ls.segments + Texts(x), ls.variables + VariableOf(|ls.segments|, x))
  {
    if x.Binding? {
      var open := Open(ls, x.fieldPath);
      if x.pattern.Of? {
        AppendPlain(open, x.pattern.segments);
      }
      assert HasDoubleStar(x.pattern) ==> AppendPattern(open, x.pattern).variables == MarkLast(open.variables);
      assert !HasDoubleStar(x.pattern) ==> AppendPattern(open, x.pattern).variables == open.variables;
      assert AppendPattern(open, x.pattern).segments == ls.segments + Texts(x);
    }
  }

  /** A variable that has been read always passes the parser's own check of it. */
  lemma ReadVariableIsValid(ls: Lists, path: seq<string>, p: Pattern)
    requires path != [] && (p.Of? ==> ValidSegments(true, p.segments))
    ensures var vs := AppendPattern(Open(ls, path), p).variables;
            |vs| == |ls.variables| + 1 && vs[|vs| - 1].fieldPath == path &&
            vs[|vs| - 1].startSegment == |ls.segments| < |AppendPattern(Open(ls, path), p).segments|
  {
    if p.Of? {
      AppendPlain(Open(ls, path), p.segments);
      FlattenPlain(p.segments);
    }
  }

  /** Building the lists step by step is compiling the tree. */
  lemma {:induction false} AppendAllCompiles(xs: seq<Segment>)
    requires xs != [] ==> ValidSegments(false, xs)
    ensures AppendAll(false, Lists([], []), xs) == Lists(Flatten(xs), VariablesOf(xs))
    decreases |xs|
  {
    if xs != [] {
      var before, x := xs[..|xs| - 1], xs[|xs| - 1];
      ValidPrefix(false, xs);
      AppendAllCompiles(before);
      AppendCompiles(Lists(Flatten(before), VariablesOf(before)), x);
    }
  }

  /** What HttpTemplate::Parse returns. */
  ghost function ParseHttpTemplate(ht: string): Option<HttpTemplate> {
    if ht == "/" then Some(ROOT)
    else
      match ParseTemplate(ht)
      case None => None
      case Some(t) => if LiteralsAfterWild(Flatten(t.segments)) then Some(Compile(t)) else None
  }

  /** Exactly "/" and the printed forms of the valid trees with only literals after a "**" are accepted, and each
      compiles as its tree does. */
  lemma AcceptedTemplates(ht: string, h: HttpTemplate)
    ensures ParseHttpTemplate(ht) == Some(h) <==>
            || (ht == "/" && h == ROOT)
            || exists t :: && ValidTemplate(t) && Print(t) == ht && LiteralsAfterWild(Flatten(t.segments))
                           && h == Compile(t)
  {
    assert ParseTemplate("/").None?;
    if t :| ValidTemplate(t) && Print(t) == ht && LiteralsAfterWild(Flatten(t.segments)) && h == Compile(t) {
      ParseIffPrinted(ht, t);
    }
    if ht != "/" && ParseHttpTemplate(ht) == Some(h) {
      ParseIffPrinted(ht, ParseTemplate(ht).value);
    }
  }

  // ----- Variable ranges -----

  lemma {:induction false} FlattenPlain(xs: seq<Segment>)
    requires ValidSegments(true, xs)
    ensures |Flatten(xs)| == |xs| && forall i :: 0 <= i < |xs| ==> Texts(xs[i]) == [Flatten(xs)[i]]
    decreases |xs|
  {
    var before, x := xs[..|xs| - 1], xs[|xs| - 1];
    ValidPrefix(true, xs);
    assert |Texts(x)| == 1;
    if before != [] {
      FlattenPlain(before);
    } else {
      assert Flatten(before) == [];
    }
  }

  /** A pattern is not empty, and it flattens to a "**" iff it has one. */
  lemma PatternFacts(p: Pattern)
    requires p.Of? ==> ValidSegments(true, p.segments)
    ensures PatternTexts(p) != []
    ensures HasDoubleStar(p) <==> "**" in PatternTexts(p)
  {
    if p.Of? {
      var xs := p.segments;
      FlattenPlain(xs);
      forall i | 0 <= i < |xs| ensures xs[i] == DoubleStar <==> Flatten(xs)[i] == "**" {
        assert ValidSegment(true, xs[i]);
        if xs[i].Literal? {
          assert xs[i].text[0] != '*' && "**"[0] == '*';
        }
      }
    }
  }

  /** Each variable of a valid tree: its range lies within the segments, is not empty, covers the texts of one
      binding of the tree, and is flagged iff these have a "**". */
  ghost predicate RangeIsOwn(v: Variable, segments: seq<string>) {
    && 0 <= v.startSegment < v.endSegment <= |segments|
    && (v.hasWildcardPath <==> "**" in segments[v.startSegment..v.endSegment])
  }

  ghost predicate Covers(v: Variable, segments: seq<string>, x: Segment) {
    && 0 <= v.startSegment <= v.endSegment <= |segments|
    && x.Binding? && v.fieldPath == x.fieldPath && segments[v.startSegment..v.endSegment] == PatternTexts(x.pattern)
  }

  lemma {:induction false} VariableRanges(xs: seq<Segment>, k: nat)
    requires (xs != [] ==> ValidSegments(false, xs)) && k < |VariablesOf(xs)|
    ensures RangeIsOwn(VariablesOf(xs)[k], Flatten(xs))
    ensures exists i :: 0 <= i < |xs| && Covers(VariablesOf(xs)[k], Flatten(xs), xs[i])
    decreases |xs|
  {
    var before, v := xs[..|xs| - 1], VariablesOf(xs)[k];
    ValidPrefix(false, xs);
    if k < |VariablesOf(before)| {
      VariableRanges(before, k);
      var i :| 0 <= i < |before| && Covers(v, Flatten(before), before[i]);
      RangeGrows(v, Flatten(before), Texts(xs[|xs| - 1]), before[i]);
      assert Covers(v, Flatten(xs), xs[i]);
    } else {
      LastRange(Flatten(before), xs[|xs| - 1]);
      assert Covers(v, Flatten(xs), xs[|xs| - 1]);
    }
  }

  lemma RangeGrows(v: Variable, segments: seq<string>, more: seq<string>, x: Segment)
    requires RangeIsOwn(v, segments) && Covers(v, segments, x)
    ensures RangeIsOwn(v, segments + more) && Covers(v, segments + more, x)
  {
    assert (segments + more)[v.startSegment..v.endSegment] == segments[v.startSegment..v.endSegment];
  }

  lemma LastRange(before: seq<string>, x: Segment)
    requires x.Binding? && (x.pattern.Of? ==> ValidSegments(true, x.pattern.segments))
    ensures var v := VariableOf(|before|, x)[0];
            RangeIsOwn(v, before + Texts(x)) && Covers(v, before + Texts(x), x)
  {
    PatternFacts(x.pattern);
    assert (before + Texts(x))[|before|..|before| + |Texts(x)|] == Texts(x);
  }
}
