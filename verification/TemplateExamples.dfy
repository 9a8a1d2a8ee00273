/** Which texts are literals and identifiers, and templates written out. */
module TemplateExamples {
  import opened Wrappers
  import opened Strings
  import opened TemplateGrammar
  import opened PathMatching
  import opened HttpTemplates

  lemma LiteralTextIff(s: string)
    ensures IsLiteralText(s) <==> s != "" && '/' !in s && ':' !in s && '}' !in s
  {
    assert forall i :: 0 <= i < |s| ==> s[i] in s;
  }

  lemma IdentifierIff(s: string)
    ensures IsIdentifier(s) <==> s != "" && '.' !in s && '}' !in s && '=' !in s
  {
    assert forall i :: 0 <= i < |s| ==> s[i] in s;
  }

  /** What a valid tree prints as is accepted, if only literals follow a double star. */
  lemma IsAccepted(ht: string, t: Template)
    requires ValidTemplate(t) && Print(t) == ht && LiteralsAfterWild(Flatten(t.segments))
    ensures ParseHttpTemplate(ht) == Some(Compile(t))
  {
    AcceptedTemplates(ht, Compile(t));
  }

  lemma FlattenOne(x: Segment)
    ensures Flatten([x]) == Texts(x) && VariablesOf([x]) == VariableOf(0, x)
  {
    assert [x][..0] == [];
    assert Flatten([]) == [] && VariablesOf([]) == [];
  }

  lemma PrintOne(x: Segment, verb: string)
    ensures Print(Template([x], None)) == "/" + PrintSegment(x)
    ensures Print(Template([x], Some(verb))) == "/" + PrintSegment(x) + ":" + verb
  {
    assert PrintSegments([x]) == PrintSegment(x);
    assert PrintSegment(x) + "" == PrintSegment(x);
    assert "/" + (PrintSegment(x) + (":" + verb)) == "/" + PrintSegment(x) + ":" + verb;
  }

  /** Any such text is a template of one literal, which keeps all of it, with or without a verb. */
  lemma LiteralIsAccepted(text: string, verb: string)
    requires text != "" && '/' !in text && ':' !in text && '}' !in text && text[0] != '*' && text[0] != '{'
    requires verb != "" && '/' !in verb && ':' !in verb && '}' !in verb
    ensures ParseHttpTemplate("/" + text) == Some(HttpTemplate([text], "", []))
    ensures ParseHttpTemplate("/" + text + ":" + verb) == Some(HttpTemplate([text], verb, []))
  {
    var x := Literal(text);
    LiteralTextIff(text);
    LiteralTextIff(verb);
    FlattenOne(x);
    PrintOne(x, verb);
    assert ValidSegment(false, x) && PostProcessAll([], 1) == [];
    IsAccepted("/" + text, Template([x], None));
    IsAccepted("/" + text + ":" + verb, Template([x], Some(verb)));
  }

  /** Any such identifier is a variable that takes one part. */
  lemma VariableIsAccepted(id: string)
    requires id != "" && '.' !in id && '}' !in id && '=' !in id
    ensures ParseHttpTemplate("/{" + id + "}") == Some(HttpTemplate(["*"], "", [Variable(0, 1, [id], false)]))
  {
    var x := Binding([id], AnyOne);
    IdentifierIff(id);
    assert ValidFieldPath(x.fieldPath) && ValidSegment(false, x);
    FlattenOne(x);
    PrintOne(x, "");
    PrintVariable([id], AnyOne, id, "");
    assert "/" + ("{" + (id + ("" + "}"))) == "/{" + id + "}";
    IsAccepted("/{" + id + "}", Template([x], None));
    PostProcessOne(VariablesOf([x])[0], 1);
    assert VariablesOf([x]) == [VariablesOf([x])[0]];
  }

  lemma PostProcessOne(v: Variable, n: nat)
    ensures PostProcessAll([v], n) == [PostProcess(v, n)]
  {
  }

  lemma PrintVariable(path: seq<string>, pattern: Pattern, ids: string, behind: string)
    requires Join(path, '.') == ids && PrintPattern(pattern) == behind
    ensures PrintSegment(Binding(path, pattern)) == "{" + (ids + (behind + "}"))
  {
  }

  // ----- Two templates -----

  /** A variable of two identifiers with a pattern of its own, a double star and a verb. */
  lemma NestedTemplate()
    ensures ParseHttpTemplate("/a/{b.c=d/*}/**:v") ==
            Some(HttpTemplate(["a", "d", "*", "**"], "v", [Variable(1, 3, ["b", "c"], false)]))
  {
    var b := Binding(["b", "c"], Of([Literal("d"), Star]));
    var t := Template([Literal("a"), b, DoubleStar], Some("v"));
    NestedCompiles(b);
    NestedPrints(b);
    assert IsIdentifier("b") && IsIdentifier("c") && IsLiteralText("v");
    ValidVariable(b, Literal("d"), Star);
    assert ValidSegment(false, Literal("a")) && ValidSegment(false, DoubleStar);
    IsAccepted("/a/{b.c=d/*}/**:v", t);
  }

  lemma ValidVariable(x: Segment, y: Segment, z: Segment)
    requires x.Binding? && x.pattern == Of([y, z]) && ValidFieldPath(x.fieldPath)
    requires ValidSegment(true, y) && ValidSegment(true, z)
    ensures ValidSegment(false, x)
  {
    assert ValidSegments(true, [y, z]);
  }

  lemma NestedCompiles(b: Segment)
    requires b == Binding(["b", "c"], Of([Literal("d"), Star]))
    ensures var t := Template([Literal("a"), b, DoubleStar], Some("v"));
            && Flatten(t.segments) == ["a", "d", "*", "**"]
            && Compile(t) == HttpTemplate(["a", "d", "*", "**"], "v", [Variable(1, 3, ["b", "c"], false)])
  {
    FlattenTwo(Literal("d"), Star);
    assert Texts(b) == ["d", "*"];
    FlattenThree(Literal("a"), b, DoubleStar);
    PostProcessOne(Variable(1, 3, ["b", "c"], false), 4);
  }

  lemma NestedPrints(b: Segment)
    requires b == Binding(["b", "c"], Of([Literal("d"), Star]))
    ensures Print(Template([Literal("a"), b, DoubleStar], Some("v"))) == "/a/{b.c=d/*}/**:v"
  {
    PrintTwo(Literal("d"), Star);
    JoinTwo("b", "c");
    PrintVariable(["b", "c"], b.pattern, "b.c", "=d/*");
    assert "{" + ("b.c" + ("=d/*" + "}")) == "{b.c=d/*}";
    NestedWithPrinted(b, "{b.c=d/*}");
  }

  lemma NestedWithPrinted(b: Segment, middle: string)
    requires PrintSegment(b) == middle
    ensures Print(Template([Literal("a"), b, DoubleStar], Some("v"))) == "/a/" + middle + "/**:v"
  {
    PrintThree(Literal("a"), b, DoubleStar);
  }

  lemma JoinTwo(a: string, b: string)
    ensures Join([a, b], '.') == a + "." + b
  {
    assert [a, b][1..] == [b];
  }

  /** A variable with a double star ends at a place counted from the end of the path. */
  lemma WildTemplate()
    ensures ParseHttpTemplate("/{a=b/**}/c") ==
            Some(HttpTemplate(["b", "**", "c"], "", [Variable(0, -2, ["a"], true)]))
  {
    var x := Binding(["a"], Of([Literal("b"), DoubleStar]));
    WildCompiles(x);
    WildPrints(x);
    assert IsIdentifier("a");
    ValidVariable(x, Literal("b"), DoubleStar);
    assert ValidSegment(false, Literal("c"));
    IsAccepted("/{a=b/**}/c", Template([x, Literal("c")], None));
  }

  lemma WildCompiles(x: Segment)
    requires x == Binding(["a"], Of([Literal("b"), DoubleStar]))
    ensures var t := Template([x, Literal("c")], None);
            && Flatten(t.segments) == ["b", "**", "c"]
            && Compile(t) == HttpTemplate(["b", "**", "c"], "", [Variable(0, -2, ["a"], true)])
  {
    FlattenTwo(Literal("b"), DoubleStar);
    assert Texts(x) == ["b", "**"];
    assert x.pattern.segments[1] == DoubleStar;
    FlattenTwo(x, Literal("c"));
    PostProcessOne(Variable(0, 2, ["a"], true), 3);
  }

  lemma WildPrints(x: Segment)
    requires x == Binding(["a"], Of([Literal("b"), DoubleStar]))
    ensures Print(Template([x, Literal("c")], None)) == "/{a=b/**}/c"
  {
    PrintTwo(Literal("b"), DoubleStar);
    PrintVariable(["a"], x.pattern, "a", "=b/**");
    assert PrintSegment(x) == "{a=b/**}";
    PrintTwo(x, Literal("c"));
    assert "{a=b/**}" + ("/" + "c") == "{a=b/**}/c";
  }

  // ----- Short lists -----

  lemma FlattenTwo(x: Segment, y: Segment)
    ensures Flatten([x, y]) == Texts(x) + Texts(y)
    ensures VariablesOf([x, y]) == VariableOf(0, x) + VariableOf(|Texts(x)|, y)
  {
    FlattenOne(x);
    assert [x, y][..1] == [x];
  }

  lemma FlattenThree(x: Segment, y: Segment, z: Segment)
    ensures Flatten([x, y, z]) == Texts(x) + Texts(y) + Texts(z)
    ensures VariablesOf([x, y, z]) ==
            VariableOf(0, x) + VariableOf(|Texts(x)|, y) + VariableOf(|Texts(x)| + |Texts(y)|, z)
  {
    FlattenTwo(x, y);
    assert [x, y, z][..2] == [x, y];
  }

  lemma PrintTwo(x: Segment, y: Segment)
    ensures PrintSegments([x, y]) == PrintSegment(x) + ("/" + PrintSegment(y))
  {
    assert [x, y][1..] == [y] && PrintSegments([y]) == PrintSegment(y);
  }

  lemma PrintThree(x: Segment, y: Segment, z: Segment)
    ensures PrintSegments([x, y, z]) == PrintSegment(x) + ("/" + (PrintSegment(y) + ("/" + PrintSegment(z))))
  {
    PrintTwo(y, z);
    assert [x, y, z][1..] == [y, z];
  }
}
