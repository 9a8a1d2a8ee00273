/** The path template syntax of http_template.cc: syntax trees, their printed form, and a predictive parser on values
    against which the class in TemplateParser.dfy is proved. */
module TemplateGrammar {
  import opened Wrappers
  import opened Sequences
  import opened Strings

  // ----- Syntax trees -----

  datatype Segment =
    | Star
    | DoubleStar
    | Literal(text: string)
    | Binding(fieldPath: seq<string>, pattern: Pattern)

  /** The segments of a variable, if it says which. */
  datatype Pattern = AnyOne | Of(segments: seq<Segment>)

  datatype Template = Template(segments: seq<Segment>, verb: Option<string>)

  predicate EndsLiteral(c: char) { c == '/' || c == ':' || c == '}' }

  predicate EndsIdentifier(c: char) { c == '.' || c == '}' || c == '=' }

  ghost predicate IsLiteralText(s: string) {
    s != "" && forall i :: 0 <= i < |s| ==> !EndsLiteral(s[i])
  }

  ghost predicate IsIdentifier(s: string) {
    s != "" && forall i :: 0 <= i < |s| ==> !EndsIdentifier(s[i])
  }

  ghost predicate ValidFieldPath(path: seq<string>) {
    path != [] && forall i :: 0 <= i < |path| ==> IsIdentifier(path[i])
  }

  /** Variables do not nest. */
  ghost predicate ValidSegment(inVariable: bool, x: Segment)
    decreases x
  {
    match x
    case Star => true
    case DoubleStar => true
    case Literal(text) => IsLiteralText(text) && text[0] != '*' && text[0] != '{'
    case Binding(path, pattern) =>
      !inVariable && ValidFieldPath(path) && (pattern.Of? ==> ValidSegments(true, pattern.segments))
  }

  ghost predicate ValidSegments(inVariable: bool, xs: seq<Segment>)
    decreases xs
  {
    xs != [] && forall i :: 0 <= i < |xs| ==> ValidSegment(inVariable, xs[i])
  }

  ghost predicate ValidTemplate(t: Template) {
    ValidSegments(false, t.segments) && (t.verb.Some? ==> IsLiteralText(t.verb.value))
  }

  // ----- Printed form -----

  function PrintSegment(x: Segment): string {
    match x
    case Star => "*"
    case DoubleStar => "**"
    case Literal(text) => text
    case Binding(path, pattern) => "{" + (Join(path, '.') + (PrintPattern(pattern) + "}"))
  }

  function PrintPattern(pattern: Pattern): string {
    match pattern
    case AnyOne => ""
    case Of(xs) => "=" + PrintSegments(xs)
  }

  function PrintSegments(xs: seq<Segment>): string {
    if xs == [] then ""
    else if |xs| == 1 then PrintSegment(xs[0])
    else PrintSegment(xs[0]) + ("/" + PrintSegments(xs[1..]))
  }

  function Print(t: Template): string {
    "/" + (PrintSegments(t.segments) + PrintVerb(t.verb))
  }

  function PrintVerb(verb: Option<string>): string {
    if verb.Some? then ":" + verb.value else ""
  }

  // ----- The parser on values -----

  /** A result and the input left. */
  datatype Parsed<T> = Fail | Done(value: T, rest: string)

  function LiteralLength(s: string): (n: nat)
    ensures n <= |s| && (n < |s| ==> EndsLiteral(s[n])) && forall i :: 0 <= i < n ==> !EndsLiteral(s[i])
  {
    if s == "" || EndsLiteral(s[0]) then 0 else 1 + LiteralLength(s[1..])
  }

  function IdentifierLength(s: string): (n: nat)
    ensures n <= |s| && (n < |s| ==> EndsIdentifier(s[n])) && forall i :: 0 <= i < n ==> !EndsIdentifier(s[i])
  {
    if s == "" || EndsIdentifier(s[0]) then 0 else 1 + IdentifierLength(s[1..])
  }

  function ParseLiteral(s: string): (r: Parsed<string>)
    ensures r.Done? ==> |r.rest| < |s|
  {
    var n := LiteralLength(s);
    if n == 0 then Fail else Done(s[..n], s[n..])
  }

  function ParseIdentifier(s: string): (r: Parsed<string>)
    ensures r.Done? ==> |r.rest| < |s|
  {
    var n := IdentifierLength(s);
    if n == 0 then Fail else Done(s[..n], s[n..])
  }

  lemma LiteralIs(s: string, n: nat)
    requires n <= |s| && (n < |s| ==> EndsLiteral(s[n]))
    requires forall i :: 0 <= i < n ==> !EndsLiteral(s[i])
    ensures ParseLiteral(s) == if n == 0 then Fail else Done(s[..n], s[n..])
  {
  }

  lemma IdentifierIs(s: string, n: nat)
    requires n <= |s| && (n < |s| ==> EndsIdentifier(s[n]))
    requires forall i :: 0 <= i < n ==> !EndsIdentifier(s[i])
    ensures ParseIdentifier(s) == if n == 0 then Fail else Done(s[..n], s[n..])
  {
  }

  predicate Starts(s: string, c: char) { s != "" && s[0] == c }

  function ParseFieldPath(s: string): (r: Parsed<seq<string>>)
    ensures r.Done? ==> |r.rest| < |s| && r.value != []
    decreases |s|
  {
    match ParseIdentifier(s)
    case Fail => Fail
    case Done(id, rest) => FieldPathFrom([id], rest)
  }

  /** The rest of a field path after the identifiers ids. */
  function FieldPathFrom(ids: seq<string>, s: string): (r: Parsed<seq<string>>)
    ensures r.Done? ==> |r.rest| <= |s| && |ids| <= |r.value|
    decreases |s|
  {
    if !Starts(s, '.') then Done(ids, s)
    else
      match ParseIdentifier(s[1..])
      case Fail => Fail
      case Done(id, rest) => FieldPathFrom(ids + [id], rest)
  }

  function ParseSegment(inVariable: bool, s: string): (r: Parsed<Segment>)
    ensures r.Done? ==> |r.rest| < |s|
    decreases |s|, 0
  {
    if Starts(s, '*') then
      if Starts(s[1..], '*') then Done(DoubleStar, s[2..]) else Done(Star, s[1..])
    else if Starts(s, '{') then
      if inVariable then Fail else ParseVariable(s[1..])
    else
      match ParseLiteral(s)
      case Fail => Fail
      case Done(text, rest) => Done(Literal(text), rest)
  }

  /** What follows the "{" of a variable. */
  function ParseVariable(s: string): (r: Parsed<Segment>)
    ensures r.Done? ==> |r.rest| < |s|
    decreases |s|, 2
  {
    match ParseFieldPath(s)
    case Fail => Fail
    case Done(path, rest) =>
      match ParsePattern(rest)
      case Fail => Fail
      case Done(pattern, rest') => CloseVariable(Binding(path, pattern), rest')
  }

  function ParsePattern(s: string): (r: Parsed<Pattern>)
    ensures r.Done? ==> |r.rest| <= |s|
    decreases |s|, 2
  {
    if Starts(s, '=') then
      match ParseSegments(true, s[1..])
      case Fail => Fail
      case Done(xs, rest) => Done(Of(xs), rest)
    else Done(AnyOne, s)
  }

  function CloseVariable(x: Segment, s: string): Parsed<Segment> {
    if Starts(s, '}') then Done(x, s[1..]) else Fail
  }

  function ParseSegments(inVariable: bool, s: string): (r: Parsed<seq<Segment>>)
    ensures r.Done? ==> |r.rest| < |s|
    decreases |s|, 1
  {
    match ParseSegment(inVariable, s)
    case Fail => Fail
    case Done(x, rest) => SegmentsFrom(inVariable, [x], rest)
  }

  /** The rest of a list of segments after the segments xs. */
  function SegmentsFrom(inVariable: bool, xs: seq<Segment>, s: string): (r: Parsed<seq<Segment>>)
    ensures r.Done? ==> |r.rest| <= |s|
    decreases |s|, 1
  {
    if !Starts(s, '/') then Done(xs, s)
    else
      match ParseSegment(inVariable, s[1..])
      case Fail => Fail
      case Done(x, rest) => SegmentsFrom(inVariable, xs + [x], rest)
  }

  /** What follows the segments: nothing, or a verb that ends the input. */
  function ParseVerb(s: string): Option<Option<string>> {
    if s == "" then Some(None)
    else if s[0] != ':' then None
    else
      match ParseLiteral(s[1..])
      case Fail => None
      case Done(verb, rest) => if rest == "" then Some(Some(verb)) else None
  }

  function ParseTemplate(s: string): Option<Template> {
    if !Starts(s, '/') then None
    else
      match ParseSegments(false, s[1..])
      case Fail => None
      case Done(segments, rest) =>
        match ParseVerb(rest)
        case None => None
        case Some(verb) => Some(Template(segments, verb))
  }

  // ----- Lists: the printed form of a longer list -----

  lemma {:induction false} PrintAppend(xs: seq<Segment>, x: Segment)
    requires xs != []
    ensures PrintSegments(xs + [x]) == PrintSegments(xs) + ("/" + PrintSegment(x))
    decreases |xs|
  {
    if |xs| > 1 {
      PrintAppend(xs[1..], x);
      assert (xs + [x])[1..] == xs[1..] + [x];
      RegroupAt(PrintSegment(xs[0]), "/", PrintSegments(xs[1..]), "/" + PrintSegment(x));
    } else {
      assert (xs + [x])[1..] == [x];
    }
  }

  // ----- Soundness: what is parsed prints back -----

  lemma LiteralSound(s: string)
    ensures ParseLiteral(s).Done? ==>
              s == ParseLiteral(s).value + ParseLiteral(s).rest && IsLiteralText(ParseLiteral(s).value)
  {
  }

  lemma {:induction false} FieldPathSound(ids: seq<string>, s: string)
    requires ValidFieldPath(ids)
    ensures FieldPathFrom(ids, s).Done? ==>
              Join(ids, '.') + s == Join(FieldPathFrom(ids, s).value, '.') + FieldPathFrom(ids, s).rest
    ensures FieldPathFrom(ids, s).Done? ==> ValidFieldPath(FieldPathFrom(ids, s).value)
    decreases |s|
  {
    if Starts(s, '.') && ParseIdentifier(s[1..]).Done? {
      var r := ParseIdentifier(s[1..]);
      var id, rest := r.value, r.rest;
      assert s == "." + (id + rest);
      FieldPathSound(ids + [id], rest);
      JoinAppend(ids, id, '.');
      RegroupAt(Join(ids, '.'), ".", id, rest);
    }
  }

  lemma ValidPrefix(inVariable: bool, xs: seq<Segment>)
    requires ValidSegments(inVariable, xs)
    ensures xs[..|xs| - 1] != [] ==> ValidSegments(inVariable, xs[..|xs| - 1])
    ensures ValidSegment(inVariable, xs[|xs| - 1])
  {
    assert forall i :: 0 <= i < |xs| - 1 ==> xs[..|xs| - 1][i] == xs[i] && ValidSegment(inVariable, xs[i]);
  }

  lemma {:induction false} SegmentSound(inVariable: bool, s: string)
    ensures ParseSegment(inVariable, s).Done? ==>
              var Done(x, rest) := ParseSegment(inVariable, s);
              s == PrintSegment(x) + rest && ValidSegment(inVariable, x)
    decreases |s|, 0
  {
    if Starts(s, '{') {
      if !inVariable {
        VariableSound(s[1..]);
        assert s == "{" + s[1..];
        if ParseVariable(s[1..]).Done? {
          var Done(x, rest) := ParseVariable(s[1..]);
          Assoc("{", Join(x.fieldPath, '.') + (PrintPattern(x.pattern) + "}"), rest);
        }
      }
    } else {
      LiteralSound(s);
    }
  }

  lemma CloseSound(x: Segment, s: string)
    requires x.Binding? && CloseVariable(x, s).Done?
    ensures Join(x.fieldPath, '.') + (PrintPattern(x.pattern) + s) ==
            Join(x.fieldPath, '.') + (PrintPattern(x.pattern) + "}") + CloseVariable(x, s).rest
  {
    assert s == "}" + s[1..];
    Assoc(PrintPattern(x.pattern), "}", s[1..]);
    Assoc(Join(x.fieldPath, '.'), PrintPattern(x.pattern) + "}", s[1..]);
  }

  lemma {:induction false} VariableSound(s: string)
    ensures match ParseVariable(s)
            case Fail => true
            case Done(x, rest) =>
              && x.Binding? && s == Join(x.fieldPath, '.') + (PrintPattern(x.pattern) + "}") + rest
              && ValidSegment(false, x)
    decreases |s|, 2
  {
    if ParseVariable(s).Done? {
      var Done(id, tail) := ParseIdentifier(s);
      assert s == Join([id], '.') + tail;
      FieldPathSound([id], tail);
      var Done(path, rest) := ParseFieldPath(s);
      PatternSound(rest);
      var Done(pattern, close) := ParsePattern(rest);
      CloseSound(Binding(path, pattern), close);
    }
  }

  lemma {:induction false} PatternSound(s: string)
    ensures ParsePattern(s).Done? ==>
              var Done(p, rest) := ParsePattern(s);
              s == PrintPattern(p) + rest && (p.Of? ==> ValidSegments(true, p.segments))
    decreases |s|, 2
  {
    if Starts(s, '=') {
      SegmentsSound(true, s[1..]);
      assert s == "=" + s[1..];
      if ParseSegments(true, s[1..]).Done? {
        var Done(xs, rest) := ParseSegments(true, s[1..]);
        Assoc("=", PrintSegments(xs), rest);
      }
    } else {
      assert s == "" + s;
    }
  }

  lemma {:induction false} SegmentsSound(inVariable: bool, s: string)
    ensures ParseSegments(inVariable, s).Done? ==>
              var Done(xs, rest) := ParseSegments(inVariable, s);
              s == PrintSegments(xs) + rest && ValidSegments(inVariable, xs)
    decreases |s|, 1
  {
    SegmentSound(inVariable, s);
    if ParseSegment(inVariable, s).Done? {
      var Done(x, rest) := ParseSegment(inVariable, s);
      SegmentsFromSound(inVariable, [x], rest);
    }
  }

  lemma {:induction false} SegmentsFromSound(inVariable: bool, xs: seq<Segment>, s: string)
    requires ValidSegments(inVariable, xs)
    ensures SegmentsFrom(inVariable, xs, s).Done? ==>
              var Done(ys, rest) := SegmentsFrom(inVariable, xs, s);
              PrintSegments(xs) + s == PrintSegments(ys) + rest && ValidSegments(inVariable, ys)
    decreases |s|, 1
  {
    if Starts(s, '/') {
      SegmentSound(inVariable, s[1..]);
      if ParseSegment(inVariable, s[1..]).Done? {
        var Done(x, rest) := ParseSegment(inVariable, s[1..]);
        SegmentsFromSound(inVariable, xs + [x], rest);
        PrintAppend(xs, x);
        assert s == "/" + (PrintSegment(x) + rest);
        Assoc("/", PrintSegment(x), rest);
        Assoc(PrintSegments(xs), "/" + PrintSegment(x), rest);
      }
    }
  }

  lemma VerbSound(s: string)
    ensures match ParseVerb(s)
            case None => true
            case Some(verb) => s == PrintVerb(verb) && (verb.Some? ==> IsLiteralText(verb.value))
  {
    if s != "" {
      LiteralSound(s[1..]);
      assert s == [s[0]] + s[1..];
    }
  }

  lemma ParseIsSound(s: string)
    ensures ParseTemplate(s).Some? ==> ValidTemplate(ParseTemplate(s).value) && Print(ParseTemplate(s).value) == s
  {
    if ParseTemplate(s).Some? {
      SegmentsSound(false, s[1..]);
      VerbSound(ParseSegments(false, s[1..]).rest);
      assert s == "/" + s[1..];
    }
  }

  // ----- Completeness: what is printed parses back -----

  /** What can stand behind a segment. */
  predicate EndsSegment(rest: string) { rest == "" || EndsLiteral(rest[0]) }

  lemma LiteralComplete(text: string, rest: string)
    requires IsLiteralText(text) && EndsSegment(rest)
    ensures ParseLiteral(text + rest) == Done(text, rest)
  {
    var s, n := text + rest, LiteralLength(text + rest);
    assert forall i :: 0 <= i < |text| ==> s[i] == text[i];
    assert rest != "" ==> s[|text|] == rest[0];
    assert s[..|text|] == text && s[|text|..] == rest;
  }

  lemma IdentifierComplete(id: string, rest: string)
    requires IsIdentifier(id) && (rest == "" || EndsIdentifier(rest[0]))
    ensures ParseIdentifier(id + rest) == Done(id, rest)
  {
    var s, n := id + rest, IdentifierLength(id + rest);
    assert forall i :: 0 <= i < |id| ==> s[i] == id[i];
    assert rest != "" ==> s[|id|] == rest[0];
    assert s[..|id|] == id && s[|id|..] == rest;
  }

  /** The text of the identifiers that follow the first one. */
  function PrintMoreIds(ids: seq<string>): string {
    if ids == [] then "" else "." + Join(ids, '.')
  }

  lemma JoinFirst(id: string, ids: seq<string>)
    ensures Join([id] + ids, '.') == id + PrintMoreIds(ids)
  {
    assert ([id] + ids)[1..] == ids;
  }

  lemma FieldPathStep(done: seq<string>, id: string, tail: string)
    requires IsIdentifier(id) && (tail == "" || EndsIdentifier(tail[0]))
    ensures FieldPathFrom(done, "." + (id + tail)) == FieldPathFrom(done + [id], tail)
  {
    IdentifierComplete(id, tail);
    assert ("." + (id + tail))[1..] == id + tail;
  }

  lemma {:induction false} FieldPathFromComplete(done: seq<string>, ids: seq<string>, rest: string)
    requires (ids != [] ==> ValidFieldPath(ids)) && rest != "" && (rest[0] == '=' || rest[0] == '}')
    ensures FieldPathFrom(done, PrintMoreIds(ids) + rest) == Done(done + ids, rest)
    decreases |ids|
  {
    if ids == [] {
      assert "" + rest == rest && done + ids == done;
    } else {
      var id, more := ids[0], ids[1..];
      var tail := PrintMoreIds(more) + rest;
      assert ids == [id] + more && done + [id] + more == done + ids;
      JoinFirst(id, more);
      Assoc(id, PrintMoreIds(more), rest);
      Assoc(".", Join(ids, '.'), rest);
      FieldPathStep(done, id, tail);
      FieldPathFromComplete(done + [id], more, rest);
    }
  }

  lemma FieldPathComplete(path: seq<string>, rest: string)
    requires ValidFieldPath(path) && rest != "" && (rest[0] == '=' || rest[0] == '}')
    ensures ParseFieldPath(Join(path, '.') + rest) == Done(path, rest)
  {
    var id, more := path[0], path[1..];
    assert path == [id] + more;
    JoinFirst(id, more);
    Assoc(id, PrintMoreIds(more), rest);
    IdentifierComplete(id, PrintMoreIds(more) + rest);
    FieldPathFromComplete([id], more, rest);
  }

  lemma {:induction false} SegmentComplete(inVariable: bool, x: Segment, rest: string)
    requires ValidSegment(inVariable, x) && EndsSegment(rest)
    ensures ParseSegment(inVariable, PrintSegment(x) + rest) == Done(x, rest)
    decreases x, 2
  {
    var s := PrintSegment(x) + rest;
    match x
    case Star =>
      assert s[0] == '*' && s[1..] == rest;
    case DoubleStar =>
      assert s[0] == '*' && s[1..][0] == '*' && s[2..] == rest;
    case Literal(text) =>
      assert s[0] == text[0];
      LiteralComplete(text, rest);
    case Binding(path, pattern) =>
      var inner := Join(path, '.') + (PrintPattern(pattern) + "}");
      Assoc("{", inner, rest);
      assert s[1..] == inner + rest;
      VariableComplete(path, pattern, rest);
  }

  lemma {:induction false} VariableComplete(path: seq<string>, pattern: Pattern, rest: string)
    requires ValidFieldPath(path) && (pattern.Of? ==> ValidSegments(true, pattern.segments))
    ensures ParseVariable(Join(path, '.') + (PrintPattern(pattern) + "}") + rest) == Done(Binding(path, pattern), rest)
    decreases pattern, 1
  {
    var close := "}" + rest;
    assert close[1..] == rest;
    Assoc(Join(path, '.'), PrintPattern(pattern) + "}", rest);
    Assoc(PrintPattern(pattern), "}", rest);
    match pattern
    case AnyOne =>
      assert "" + close == close;
      FieldPathComplete(path, close);
    case Of(xs) =>
      var tail := PrintSegments(xs) + close;
      Assoc("=", PrintSegments(xs), close);
      FieldPathComplete(path, "=" + tail);
      assert ("=" + tail)[1..] == tail;
      SegmentsComplete(true, xs, close);
  }

  function PrintMore(xs: seq<Segment>): string {
    if xs == [] then "" else "/" + PrintSegments(xs)
  }

  lemma PrintFirst(x: Segment, xs: seq<Segment>)
    ensures PrintSegments([x] + xs) == PrintSegment(x) + PrintMore(xs)
  {
    assert ([x] + xs)[1..] == xs;
  }

  lemma {:induction false} SegmentsComplete(inVariable: bool, xs: seq<Segment>, rest: string)
    requires ValidSegments(inVariable, xs) && EndsSegment(rest) && !Starts(rest, '/')
    ensures ParseSegments(inVariable, PrintSegments(xs) + rest) == Done(xs, rest)
    decreases xs, 1
  {
    var x, more := xs[0], xs[1..];
    assert xs == [x] + more;
    PrintFirst(x, more);
    Assoc(PrintSegment(x), PrintMore(more), rest);
    SegmentComplete(inVariable, x, PrintMore(more) + rest);
    SegmentsFromComplete(inVariable, [x], more, rest);
  }

  lemma {:induction false} SegmentsFromComplete(inVariable: bool, done: seq<Segment>, xs: seq<Segment>, rest: string)
    requires (xs != [] ==> ValidSegments(inVariable, xs)) && EndsSegment(rest) && !Starts(rest, '/')
    ensures SegmentsFrom(inVariable, done, PrintMore(xs) + rest) == Done(done + xs, rest)
    decreases xs, 0
  {
    if xs == [] {
      assert "" + rest == rest && done + xs == done;
    } else {
      var s, x, more := PrintMore(xs) + rest, xs[0], xs[1..];
      assert xs == [x] + more;
      PrintFirst(x, more);
      Assoc(PrintSegment(x), PrintMore(more), rest);
      Assoc("/", PrintSegments(xs), rest);
      assert s[1..] == PrintSegment(x) + (PrintMore(more) + rest);
      SegmentComplete(inVariable, x, PrintMore(more) + rest);
      SegmentsFromComplete(inVariable, done + [x], more, rest);
      assert done + [x] + more == done + xs;
    }
  }

  lemma VerbComplete(verb: Option<string>)
    requires verb.Some? ==> IsLiteralText(verb.value)
    ensures ParseVerb(PrintVerb(verb)) == Some(verb)
  {
    if verb.Some? {
      LiteralComplete(verb.value, "");
      assert PrintVerb(verb)[1..] == verb.value + "";
    }
  }

  lemma ParseIsComplete(t: Template)
    requires ValidTemplate(t)
    ensures ParseTemplate(Print(t)) == Some(t)
  {
    SegmentsComplete(false, t.segments, PrintVerb(t.verb));
    VerbComplete(t.verb);
    assert Print(t)[1..] == PrintSegments(t.segments) + PrintVerb(t.verb);
  }

  /** The parser accepts exactly the printed forms of the valid trees, and a string has at most one such tree. */
  lemma ParseIffPrinted(s: string, t: Template)
    ensures ParseTemplate(s) == Some(t) <==> ValidTemplate(t) && Print(t) == s
  {
    ParseIsSound(s);
    if ValidTemplate(t) {
      ParseIsComplete(t);
    }
  }
}
