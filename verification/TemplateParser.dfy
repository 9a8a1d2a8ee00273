/** The two-cursor parser of http_template.cc. */
module TemplateParser {
  import opened Wrappers
  import opened HttpTemplates
  import opened PathMatching
  import G = TemplateGrammar
  import T = RouteTrie

  class Parser {
    const input: string
    /** The character looked at is input[te - 1]; it is not consumed yet iff tb < te. */
    var tb: nat
    var te: nat
    var inVariable: bool
    var segments: seq<string>
    var verb: string
    var variables: seq<Variable>

    /** At most one character is looked at ahead of the input consumed. */
    ghost predicate Valid()
      reads this
    {
      tb <= te <= tb + 1 && te <= |input| && (inVariable ==> variables != [])
    }

    ghost function Rest(): string
      requires tb <= |input|
      reads this
    {
      input[tb..]
    }

    ghost function Lists(): Lists
      reads this
    {
      HttpTemplates.Lists(segments, variables)
    }

    constructor (input: string)
      ensures Valid() && this.input == input && tb == 0 && te == 0
      ensures !inVariable && segments == [] && verb == "" && variables == []
    {
      this.input := input;
      tb, te, inVariable, segments, verb, variables := 0, 0, false, [], "", [];
    }

    // ----- Characters -----

    /** Only asked for when a character is looked at, so the end-of-input value is never seen. */
    function CurrentChar(): char
      requires Valid() && tb < te
      reads this
    {
      input[te - 1]
    }

    method NextChar() returns (ok: bool)
      requires Valid() && tb == te
      modifies this`te
      ensures Valid() && ok == (Rest() != "") && te == if ok then tb + 1 else tb
    {
      if te < |input| {
        te := te + 1;
        return true;
      }
      return false;
    }

    method EnsureCurrent() returns (ok: bool)
      requires Valid()
      modifies this`te
      ensures Valid() && ok == (Rest() != "") && ok == (tb < te)
    {
      if tb < te {
        return true;
      }
      ok := NextChar();
    }

    method Consume(c: char) returns (ok: bool)
      requires Valid()
      modifies this`tb, this`te
      ensures Valid() && ok == G.Starts(old(Rest()), c)
      ensures if ok then Rest() == old(Rest())[1..] && tb == te else tb == old(tb)
    {
      if tb >= te {
        var next := NextChar();
        if !next {
          return false;
        }
      }
      if CurrentChar() != c {
        return false;
      }
      tb := tb + 1;
      return true;
    }

    predicate ConsumedAllInput()
      reads this
    {
      tb >= |input|
    }

    // ----- Words -----

    method ParseLiteral() returns (ok: bool, lit: string)
      requires Valid()
      modifies this`tb, this`te
      ensures Valid() && ok == G.ParseLiteral(old(Rest())).Done?
      ensures ok ==> G.ParseLiteral(old(Rest())) == G.Done(lit, Rest())
    {
      ghost var s, start := Rest(), tb;
      lit := "";
      ok := EnsureCurrent();
      if !ok {
        return;
      }
      var more := true;
      while more
        invariant Valid() && start <= tb && te == (if more then tb + 1 else tb) && (!more ==> tb == |input|)
        invariant lit == s[..tb - start]
        invariant forall i :: 0 <= i < tb - start ==> !G.EndsLiteral(s[i])
        decreases |input| - tb, more
      {
        var c := CurrentChar();
        if c == '/' || c == ':' || c == '}' {
          break;
        }
        assert c == s[tb - start] && s[..tb - start + 1] == s[..tb - start] + [c];
        var _ := Consume(c);
        lit := lit + [c];
        more := NextChar();
      }
      ok := lit != "";
      G.LiteralIs(s, tb - start);
      assert s[tb - start..] == Rest();
    }

    method AddFieldIdentifier(id: string)
      requires inVariable && variables != []
      modifies this`variables
      ensures variables == AddToLast(old(variables), id)
    {
      var n := |variables|;
      variables := variables[n - 1 := variables[n - 1].(fieldPath := variables[n - 1].fieldPath + [id])];
    }

    method ParseIdentifier() returns (ok: bool)
      requires Valid() && tb == te && inVariable
      modifies this`tb, this`te, this`variables
      ensures Valid() && ok == G.ParseIdentifier(old(Rest())).Done?
      ensures ok ==>
                var r := G.ParseIdentifier(old(Rest()));
                Rest() == r.rest && variables == AddToLast(old(variables), r.value)
    {
      ghost var s, start := Rest(), tb;
      var id := "";
      var more := NextChar();
      while more
        invariant Valid() && start <= tb && te == (if more then tb + 1 else tb) && (!more ==> tb == |input|)
        invariant id == s[..tb - start] && variables == old(variables)
        invariant forall i :: 0 <= i < tb - start ==> !G.EndsIdentifier(s[i])
        decreases |input| - tb, more
      {
        var c := CurrentChar();
        if c == '.' || c == '}' || c == '=' {
          break;
        }
        assert c == s[tb - start] && s[..tb - start + 1] == s[..tb - start] + [c];
        var _ := Consume(c);
        id := id + [c];
        more := NextChar();
      }
      ok := id != "";
      G.IdentifierIs(s, tb - start);
      assert s[tb - start..] == Rest();
      if ok {
        AddFieldIdentifier(id);
      }
    }

    /** The identifiers are added to the current variable, whose field path is empty at first. */
    method ParseFieldPath() returns (ok: bool)
      requires Valid() && tb == te && inVariable && variables[|variables| - 1].fieldPath == []
      modifies this`tb, this`te, this`variables
      ensures Valid() && ok == G.ParseFieldPath(old(Rest())).Done?
      ensures ok ==>
                var r := G.ParseFieldPath(old(Rest()));
                Rest() == r.rest && variables == WithPath(old(variables), r.value)
    {
      ghost var s, vs := Rest(), variables;
      ok := ParseIdentifier();
      if !ok {
        return false;
      }
      ghost var ids := [G.ParseIdentifier(s).value];
      ghost var at := Rest();
      PathGrows(vs, [], ids[0]);
      assert [] + [ids[0]] == ids;
      var dot := Consume('.');
      while dot
        invariant Valid() && inVariable && variables == WithPath(vs, ids)
        invariant G.ParseFieldPath(s) == G.FieldPathFrom(ids, at) && dot == G.Starts(at, '.')
        invariant if dot then tb == te && Rest() == at[1..] else Rest() == at
        decreases |at|
      {
        ok := ParseIdentifier();
        if !ok {
          return false;
        }
        PathGrows(vs, ids, G.ParseIdentifier(at[1..]).value);
        ids, at := ids + [G.ParseIdentifier(at[1..]).value], Rest();
        dot := Consume('.');
      }
      return true;
    }

    /** Starts a variable that covers the segments parsed from now on. */
    method StartVariable() returns (ok: bool)
      requires Valid()
      modifies this`variables, this`inVariable
      ensures Valid() && ok == !old(inVariable)
      ensures ok ==> inVariable && Lists() == Open(old(Lists()), [])
    {
      if inVariable {
        return false;
      }
      variables := variables + [Variable(|segments|, 0, [], false)];
      inVariable := true;
      return true;
    }

    method EndVariable() returns (ok: bool)
      requires Valid() && inVariable
      modifies this`variables, this`inVariable
      ensures Valid() && !inVariable && Lists() == CloseLast(old(Lists()))
      ensures var v := variables[|variables| - 1]; ok <==> v.fieldPath != [] && v.startSegment < v.endSegment
    {
      var n := |variables|;
      variables := variables[n - 1 := variables[n - 1].(endSegment := |segments|)];
      inVariable := false;
      return ValidateVariable(variables[n - 1]);
    }

    predicate ValidateVariable(v: Variable)
      reads this`segments
    {
      v.fieldPath != [] && v.startSegment < v.endSegment && v.endSegment <= |segments|
    }

    method MarkVariableHasWildCardPath()
      requires Valid() && inVariable
      modifies this`variables
      ensures Valid() && Lists() == old(Lists()).(variables := MarkLast(old(variables)))
    {
      var n := |variables|;
      variables := variables[n - 1 := variables[n - 1].(hasWildcardPath := true)];
    }

    // ----- Segments -----

    method ParseSegment() returns (ok: bool)
      requires Valid()
      modifies this`tb, this`te, this`inVariable, this`segments, this`variables
      ensures Valid() && ok == G.ParseSegment(old(inVariable), old(Rest())).Done?
      ensures ok ==>
                var r := G.ParseSegment(inVariable, old(Rest()));
                && inVariable == old(inVariable) && Rest() == r.rest
                && Lists() == Append(inVariable, old(Lists()), r.value)
      decreases |input| - tb, 1
    {
      var some := EnsureCurrent();
      if !some {
        return false;
      }
      var c := CurrentChar();
      if c == '*' {
        var _ := Consume('*');
        var second := Consume('*');
        if second {
          segments := segments + ["**"];
          if inVariable {
            MarkVariableHasWildCardPath();
          }
        } else {
          segments := segments + ["*"];
        }
        return true;
      } else if c == '{' {
        ok := ParseVariable();
      } else {
        ok := ParseLiteralSegment();
      }
    }

    method ParseLiteralSegment() returns (ok: bool)
      requires Valid()
      modifies this`tb, this`te, this`segments
      ensures Valid() && ok == G.ParseLiteral(old(Rest())).Done?
      ensures ok ==>
                var r := G.ParseLiteral(old(Rest()));
                Rest() == r.rest && segments == old(segments) + [r.value]
    {
      var ls;
      ok, ls := ParseLiteral();
      if ok {
        segments := segments + [ls];
      }
    }

    method ParseVariable() returns (ok: bool)
      requires Valid() && G.Starts(Rest(), '{')
      modifies this`tb, this`te, this`inVariable, this`segments, this`variables
      ensures Valid() && ok == (!old(inVariable) && G.ParseVariable(old(Rest())[1..]).Done?)
      ensures ok ==>
                var r := G.ParseVariable(old(Rest())[1..]);
                !inVariable && Rest() == r.rest && Lists() == Append(false, old(Lists()), r.value)
      decreases |input| - tb, 0
    {
      ghost var ls := Lists();
      var _ := Consume('{');
      ghost var path := G.ParseFieldPath(Rest());
      ok := ParseVariableName();
      if ok {
        ok := ParseVariableBody(ls, path.value);
      }
    }

    /** The rest of ParseVariable: the pattern, the check of the variable and the "}". */
    method ParseVariableBody(ghost ls: Lists, ghost path: seq<string>) returns (ok: bool)
      requires Valid() && inVariable && Lists() == Open(ls, path) && path != []
      modifies this`tb, this`te, this`inVariable, this`segments, this`variables
      ensures Valid()
      ensures ok == (G.ParsePattern(old(Rest())).Done? && G.Starts(G.ParsePattern(old(Rest())).rest, '}'))
      ensures ok ==>
                var r := G.ParsePattern(old(Rest()));
                !inVariable && Rest() == r.rest[1..] && Lists() == CloseLast(AppendPattern(Open(ls, path), r.value))
      decreases |input| - tb, 1
    {
      ghost var s := Rest();
      ok := ParsePattern();
      if !ok {
        return;
      }
      G.PatternSound(s);
      ReadVariableIsValid(ls, path, G.ParsePattern(s).value);
      ok := CloseVariable();
    }

    /** The first part of ParseVariable, after the "{". */
    method ParseVariableName() returns (ok: bool)
      requires Valid() && tb == te
      modifies this`tb, this`te, this`inVariable, this`variables
      ensures Valid() && ok == (!old(inVariable) && G.ParseFieldPath(old(Rest())).Done?)
      ensures ok ==>
                var r := G.ParseFieldPath(old(Rest()));
                inVariable && Rest() == r.rest && Lists() == Open(old(Lists()), r.value)
    {
      ok := StartVariable();
      if ok {
        ok := ParseFieldPath();
      }
    }

    /** The last part of ParseVariable, for a variable that passes the check. */
    method CloseVariable() returns (ok: bool)
      requires Valid() && inVariable
      requires var v := variables[|variables| - 1]; v.fieldPath != [] && v.startSegment < |segments|
      modifies this`tb, this`te, this`inVariable, this`variables
      ensures Valid() && !inVariable && Lists() == CloseLast(old(Lists()))
      ensures ok == G.Starts(old(Rest()), '}')
      ensures ok ==> Rest() == old(Rest())[1..]
    {
      ok := EndVariable();
      if ok {
        ok := Consume('}');
      }
    }

    /** The part of a variable behind its field path. */
    method ParsePattern() returns (ok: bool)
      requires Valid() && inVariable
      modifies this`tb, this`te, this`inVariable, this`segments, this`variables
      ensures Valid() && ok == G.ParsePattern(old(Rest())).Done?
      ensures ok ==>
                var r := G.ParsePattern(old(Rest()));
                inVariable && Rest() == r.rest && Lists() == AppendPattern(old(Lists()), r.value)
      decreases |input| - tb, 0
    {
      var withPattern := Consume('=');
      if withPattern {
        ok := ParseSegments();
      } else {
        segments := segments + ["*"];
        ok := true;
      }
    }

    method ParseSegments() returns (ok: bool)
      requires Valid()
      modifies this`tb, this`te, this`inVariable, this`segments, this`variables
      ensures Valid() && ok == G.ParseSegments(old(inVariable), old(Rest())).Done?
      ensures ok ==>
                var r := G.ParseSegments(inVariable, old(Rest()));
                && inVariable == old(inVariable) && Rest() == r.rest
                && Lists() == AppendAll(inVariable, old(Lists()), r.value)
      decreases |input| - tb, 2
    {
      ghost var s, inVar, ls := Rest(), inVariable, Lists();
      ok := ParseSegment();
      if !ok {
        return false;
      }
      ghost var xs := [G.ParseSegment(inVar, s).value];
      ghost var at := Rest();
      var slash := Consume('/');
      while slash
        invariant Valid() && inVariable == inVar && Lists() == AppendAll(inVar, ls, xs)
        invariant G.ParseSegments(inVar, s) == G.SegmentsFrom(inVar, xs, at) && slash == G.Starts(at, '/')
        invariant if slash then tb == te && Rest() == at[1..] else Rest() == at
        decreases |at|
      {
        ok := ParseSegment();
        if !ok {
          return false;
        }
        xs, at := xs + [G.ParseSegment(inVar, at[1..]).value], Rest();
        slash := Consume('/');
      }
      return true;
    }

    // ----- Templates -----

    method ParseVerb() returns (ok: bool)
      requires Valid()
      modifies this`tb, this`te, this`verb
      ensures Valid()
      ensures ok <==> G.Starts(old(Rest()), ':') && G.ParseLiteral(old(Rest())[1..]).Done?
      ensures ok ==> G.ParseLiteral(old(Rest())[1..]) == G.Done(verb, Rest())
    {
      ok := Consume(':');
      if ok {
        ok, verb := ParseLiteral();
      }
    }

    /** Parses as far as the template goes; the input may go on. */
    method ParseTemplate() returns (ok: bool)
      requires Valid() && tb == 0 && !inVariable && segments == [] && verb == "" && variables == []
      modifies this`tb, this`te, this`inVariable, this`segments, this`variables, this`verb
      ensures Valid()
      ensures ok == (G.Starts(input, '/') && G.ParseSegments(false, input[1..]).Done? &&
                     var rest := G.ParseSegments(false, input[1..]).rest;
                     G.Starts(rest, ':') ==> G.ParseLiteral(rest[1..]).Done?)
      ensures ok ==>
                var r := G.ParseSegments(false, input[1..]);
                && Lists() == HttpTemplates.Lists(Flatten(r.value), VariablesOf(r.value))
                && if G.Starts(r.rest, ':') then G.ParseLiteral(r.rest[1..]) == G.Done(verb, Rest())
                   else verb == "" && Rest() == r.rest
    {
      assert Rest() == input;
      ok := Consume('/');
      if !ok {
        return;
      }
      ok := ParseSegments();
      if !ok {
        return;
      }
      G.SegmentsSound(false, input[1..]);
      AppendAllCompiles(G.ParseSegments(false, input[1..]).value);
      var some := EnsureCurrent();
      if some && CurrentChar() == ':' {
        ok := ParseVerb();
      }
    }

    method Parse() returns (ok: bool)
      requires Valid() && tb == 0 && !inVariable && segments == [] && verb == "" && variables == []
      modifies this
      ensures Valid() && ok == G.ParseTemplate(input).Some?
      ensures ok ==> HttpTemplate(segments, verb, variables) == Compile(G.ParseTemplate(input).value)
    {
      ok := ParseTemplate();
      if !ok || !ConsumedAllInput() {
        assert Rest() == "" <==> tb >= |input|;
        return false;
      }
      assert Rest() == "";
      PostProcessVariables();
    }

    method PostProcessVariables()
      requires Valid()
      modifies this`variables
      ensures Valid() && variables == PostProcessAll(old(variables), |segments|)
    {
      var i := 0;
      while i < |variables|
        invariant 0 <= i <= |variables| == |old(variables)|
        invariant forall j :: 0 <= j < i ==> variables[j] == PostProcess(old(variables)[j], |segments|)
        invariant forall j :: i <= j < |variables| ==> variables[j] == old(variables)[j]
      {
        if variables[i].hasWildcardPath {
          variables := variables[i := variables[i].(endSegment := variables[i].endSegment - |segments| - 1)];
        }
        i := i + 1;
      }
    }

    method ValidateParts() returns (ok: bool)
      ensures ok <==> LiteralsAfterWild(segments)
    {
      var foundWildCard := false;
      for i := 0 to |segments|
        invariant foundWildCard <==> exists j :: 0 <= j < i && segments[j] == T.WILD_CARD_PATH
        invariant LiteralsAfterWild(segments[..i])
      {
        assert segments[..i + 1] == segments[..i] + [segments[i]];
        if !foundWildCard {
          if segments[i] == T.WILD_CARD_PATH {
            foundWildCard := true;
          }
        } else if segments[i] == T.SINGLE_PARAMETER || segments[i] == T.WILD_CARD_PATH_PART ||
                  segments[i] == T.WILD_CARD_PATH {
          return false;
        }
      }
      assert segments[..|segments|] == segments;
      return true;
    }
  }

  /** HttpTemplate::Parse; None stands for a null pointer. */
  method ParseHttpTemplate(ht: string) returns (r: Option<HttpTemplate>)
    ensures r == HttpTemplates.ParseHttpTemplate(ht)
  {
    if ht == "/" {
      return Some(ROOT);
    }
    var p := new Parser(ht);
    var ok := p.Parse();
    if ok {
      ok := p.ValidateParts();
    }
    if ok {
      return Some(HttpTemplate(p.segments, p.verb, p.variables));
    }
    return None;
  }

  /** The variables with the field path of the current one replaced. */
  function WithPath(vs: seq<Variable>, path: seq<string>): seq<Variable>
    requires vs != []
  {
    vs[|vs| - 1 := vs[|vs| - 1].(fieldPath := path)]
  }

  /** Adding an identifier to the field path of the current variable. */
  function AddToLast(vs: seq<Variable>, id: string): seq<Variable>
    requires vs != []
  {
    WithPath(vs, vs[|vs| - 1].fieldPath + [id])
  }

  lemma PathGrows(vs: seq<Variable>, ids: seq<string>, id: string)
    requires vs != []
    ensures AddToLast(WithPath(vs, ids), id) == WithPath(vs, ids + [id])
    ensures vs[|vs| - 1].fieldPath == [] ==> WithPath(vs, []) == vs
  {
  }
}
