/** Binding the variables of a matched template: ExtractBindingsFromPath of path_matcher.h. */
module PathBindings {
  import opened Wrappers
  import opened Sequences
  import opened Strings
  import opened PercentEncoding
  import opened RouteTrie
  import opened PathMatching
  import opened HttpTemplates
  import G = TemplateGrammar

  datatype VariableBinding = VariableBinding(fieldPath: seq<string>, value: string)

  /** Where the range of a variable ends among n request parts. */
  function EndIndex(v: Variable, n: nat): int {
    if v.endSegment >= 0 then v.endSegment else n + v.endSegment + 1
  }

  predicate InRange(v: Variable, n: nat) {
    0 <= v.startSegment <= EndIndex(v, n) <= n
  }

  /** Only the value of a single-segment variable is decoded in full whatever the spec. */
  function SpecFor(v: Variable, n: nat, spec: UrlUnescapeSpec): UrlUnescapeSpec {
    if EndIndex(v, n) - v.startSegment > 1 || v.endSegment < 0 then spec else AllCharacters
  }

  function BindingOf(v: Variable, parts: seq<string>, spec: UrlUnescapeSpec): VariableBinding
    requires InRange(v, |parts|)
  {
    var taken := parts[v.startSegment..EndIndex(v, |parts|)];
    VariableBinding(v.fieldPath, Join(UnescapeParts(taken, SpecFor(v, |parts|, spec), false), '/'))
  }

  method ExtractBindingsFromPath(vars: seq<Variable>, parts: seq<string>, unescapeSpec: UrlUnescapeSpec)
    returns (bindings: seq<VariableBinding>)
    requires forall i :: 0 <= i < |vars| ==> InRange(vars[i], |parts|)
    ensures |bindings| == |vars|
    ensures forall i :: 0 <= i < |vars| ==> bindings[i] == BindingOf(vars[i], parts, unescapeSpec)
  {
    bindings := [];
    for k := 0 to |vars|
      invariant |bindings| == k
      invariant forall i :: 0 <= i < k ==> bindings[i] == BindingOf(vars[i], parts, unescapeSpec)
    {
      var v := vars[k];
      var endSegment := if v.endSegment >= 0 then v.endSegment else |parts| + v.endSegment + 1;
      var isMultipart := endSegment - v.startSegment > 1 || v.endSegment < 0;
      var varUnescapeSpec := if isMultipart then unescapeSpec else AllCharacters;
      var value := JoinUnescaped(parts, v.startSegment, endSegment, varUnescapeSpec);
      bindings := bindings + [VariableBinding(v.fieldPath, value)];
    }
  }

  /** Joined pieces that another piece is to follow. */
  ghost function Prefix(pieces: seq<string>): string {
    if pieces == [] then "" else Join(pieces, '/') + "/"
  }

  lemma PrefixGrows(pieces: seq<string>, piece: string)
    ensures Prefix(pieces) + piece == Join(pieces + [piece], '/')
    ensures Prefix(pieces) + piece + "/" == Prefix(pieces + [piece])
  {
    if pieces != [] {
      JoinAppend(pieces, piece, '/');
      Assoc(Join(pieces, '/'), "/", piece);
    } else {
      assert [] + [piece] == [piece] && "" + piece == piece;
    }
  }

  lemma UnescapePartsGrow(parts: seq<string>, start: nat, i: nat, spec: UrlUnescapeSpec)
    requires start <= i < |parts|
    ensures UnescapeParts(parts[start..i + 1], spec, false) ==
            UnescapeParts(parts[start..i], spec, false) + [Unescape(parts[i], spec, false)]
  {
    var more := parts[start..i + 1];
    assert more[..i - start] == parts[start..i] && more[i - start] == parts[i];
  }

  /** The inner loop: the parts from start to before end, decoded and joined. */
  method JoinUnescaped(parts: seq<string>, start: nat, end: nat, spec: UrlUnescapeSpec) returns (value: string)
    requires start <= end <= |parts|
    ensures value == Join(UnescapeParts(parts[start..end], spec, false), '/')
  {
    value := "";
    ghost var done := [];
    var i := start;
    while i < end
      invariant start <= i <= end
      invariant done == UnescapeParts(parts[start..i], spec, false)
      invariant value == if i < end then Prefix(done) else Join(done, '/')
    {
      var piece := UrlUnescapeString(parts[i], spec, false);
      UnescapePartsGrow(parts, start, i, spec);
      PrefixGrows(done, piece);
      done := done + [piece];
      value := value + piece;
      if i < end - 1 {
        value := value + "/";
      }
      i := i + 1;
    }
  }

  // ----- The parts that a variable's own segments matched -----

  /** Variable k of the template, before and after its end is made relative. */
  ghost predicate IsVariable(t: G.Template, k: nat, raw: Variable, v: Variable) {
    && k < |VariablesOf(t.segments)| && raw == VariablesOf(t.segments)[k]
    && v == PostProcess(raw, |Flatten(t.segments)|) == Compile(t).variables[k]
  }

  /** When the range computed for a variable is the run of parts that its own segments took. */
  predicate IsAligned(raw: Variable, segments: seq<string>, n: nat) {
    raw.startSegment <= WildAt(segments) || n == |segments|
  }

  lemma OnlyOneWild(segments: seq<string>, raw: Variable)
    requires LiteralsAfterWild(segments) && RangeIsOwn(raw, segments)
    ensures raw.hasWildcardPath <==> raw.startSegment <= WildAt(segments) < raw.endSegment
  {
    var w, own := WildAt(segments), segments[raw.startSegment..raw.endSegment];
    if raw.startSegment <= w < raw.endSegment {
      assert own[w - raw.startSegment] == WILD_CARD_PATH;
    }
    if raw.hasWildcardPath {
      var i :| 0 <= i < |own| && own[i] == WILD_CARD_PATH;
      var j := raw.startSegment + i;
      assert segments[j] == WILD_CARD_PATH && w <= j && segments[w] == WILD_CARD_PATH;
      assert !IsLiteral(segments[j]);
    }
  }

  /** For every accepted template and every match of it, every variable's range lies within the parts, and it is the
      run of parts matched by the variable's own segments iff no "**" stands before the variable or the match has as
      many parts as the template has segments. */
  lemma VariableRangeAligned(t: G.Template, k: nat, raw: Variable, v: Variable, parts: seq<string>, cuts: seq<nat>)
    requires G.ValidTemplate(t) && IsVariable(t, k, raw, v)
    requires LiteralsAfterWild(Flatten(t.segments)) && IsSplit(Flatten(t.segments), parts, cuts)
    ensures InRange(v, |parts|)
    ensures 0 <= raw.startSegment < raw.endSegment <= |Flatten(t.segments)|
    ensures v.startSegment == cuts[raw.startSegment] && EndIndex(v, |parts|) == cuts[raw.endSegment] <==>
            IsAligned(raw, Flatten(t.segments), |parts|)
  {
    var segments := Flatten(t.segments);
    VariableRanges(t.segments, k);
    OnlyOneWild(segments, raw);
    SplitIsForced(segments, parts, cuts, raw.startSegment);
    SplitIsForced(segments, parts, cuts, raw.endSegment);
    SplitGivesIndices(segments, parts, cuts);
  }

  /** The value bound to an aligned variable is the "/"-join of the decoded parts that its segments matched: the
      request spec applies iff the variable has a "**" or more than one segment. */
  lemma VariableValue(t: G.Template, k: nat, raw: Variable, v: Variable, parts: seq<string>, cuts: seq<nat>,
                      spec: UrlUnescapeSpec)
    requires G.ValidTemplate(t) && IsVariable(t, k, raw, v)
    requires LiteralsAfterWild(Flatten(t.segments)) && IsSplit(Flatten(t.segments), parts, cuts)
    requires IsAligned(raw, Flatten(t.segments), |parts|)
    ensures InRange(v, |parts|) && 0 <= raw.startSegment < raw.endSegment < |cuts|
    ensures cuts[raw.startSegment] <= cuts[raw.endSegment] <= |parts|
    ensures BindingOf(v, parts, spec) ==
            VariableBinding(raw.fieldPath,
              Join(UnescapeParts(parts[cuts[raw.startSegment]..cuts[raw.endSegment]],
                                 if raw.hasWildcardPath || raw.endSegment - raw.startSegment > 1 then spec
                                 else AllCharacters, false), '/'))
  {
    VariableRangeAligned(t, k, raw, v, parts, cuts);
    VariableRanges(t.segments, k);
  }

  const FOO := G.Binding(["x"], G.Of([G.Literal("foo")]))
  const WILD_THEN_FOO := G.Template([G.DoubleStar, FOO], None)

  lemma WildThenFooCompiles()
    ensures Compile(WILD_THEN_FOO) == HttpTemplate(["**", "foo"], "", [Variable(1, 2, ["x"], false)])
  {
    var xs, foo := WILD_THEN_FOO.segments, FOO.pattern.segments;
    assert foo[..0] == [] && xs[..1] == [G.DoubleStar] && xs[..1][..0] == [];
    assert Texts(FOO) == Flatten(foo) == ["foo"];
    assert Flatten(xs[..1]) == ["**"] && VariablesOf(xs[..1]) == [];
    assert VariablesOf(xs) == VariableOf(1, FOO);
  }

  lemma WildThenFooPrints()
    ensures G.ValidTemplate(WILD_THEN_FOO) && G.Print(WILD_THEN_FOO) == "/**/{x=foo}"
  {
    var xs, foo := WILD_THEN_FOO.segments, FOO.pattern.segments;
    assert G.ValidSegment(true, foo[0]);
    assert xs[1..] == [FOO];
    assert G.PrintSegments(foo) == "foo";
    assert G.PrintSegment(FOO) == "{x=foo}";
    assert G.PrintSegments(xs[1..]) == "{x=foo}";
    assert G.PrintVerb(None) == "" && G.PrintSegments(xs) == "**/{x=foo}";
  }

  lemma WildThenFooMatches()
    ensures LiteralsAfterWild(["**", "foo"]) && IsSplit(["**", "foo"], ["a", "b", "foo"], [0, 2, 3])
  {
    var parts := ["a", "b", "foo"];
    assert parts[0..2] == ["a", "b"] && parts[2..3] == ["foo"];
  }

  lemma WildThenFooParses()
    ensures ParseHttpTemplate("/**/{x=foo}") == Some(HttpTemplate(["**", "foo"], "", [Variable(1, 2, ["x"], false)]))
  {
    WildThenFooPrints();
    G.ParseIffPrinted("/**/{x=foo}", WILD_THEN_FOO);
    WildThenFooCompiles();
    WildThenFooMatches();
  }

  /** The variable of "/**/{x=foo}" matches "foo", but against /a/b/foo it is bound to "b". */
  lemma VariableAfterWildIsNotAligned()
    ensures var parts, x := ["a", "b", "foo"], Variable(1, 2, ["x"], false);
            && ParseHttpTemplate("/**/{x=foo}") == Some(HttpTemplate(["**", "foo"], "", [x]))
            && IsSplit(["**", "foo"], parts, [0, 2, 3])
            && BindingOf(x, parts, AllCharacters) == VariableBinding(["x"], "b")
  {
    var parts := ["a", "b", "foo"];
    WildThenFooParses();
    WildThenFooMatches();
    assert parts[1..2] == ["b"];
    SinglePart("b");
  }

  lemma SinglePart(part: string)
    requires '%' !in part
    ensures Join(UnescapeParts([part], AllCharacters, false), '/') == part
  {
    UnescapedIsUnchanged(part, AllCharacters, false);
    assert UnescapeParts([part], AllCharacters, false) == [part];
  }
}
