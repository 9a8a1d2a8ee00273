/** Matching said of the syntax tree of a template, without the strings that its segments compile to. */
module TreeMatching {
  import opened Wrappers
  import opened Sequences
  import opened TemplateGrammar
  import opened PathMatching
  import opened HttpTemplates

  /** A star takes any one part, a double star one or more, or none when it comes last, a literal the part equal to its
      text, and a variable what its pattern takes, any one part if it has none. */
  ghost predicate Takes(x: Segment, run: seq<string>, last: bool)
    decreases x
  {
    match x
    case Star => |run| == 1
    case DoubleStar => run != [] || last
    case Literal(text) => run == [text]
    case Binding(_, pattern) => PatternTakes(pattern, run, last)
  }

  ghost predicate PatternTakes(p: Pattern, run: seq<string>, last: bool)
    decreases p
  {
    match p
    case AnyOne => |run| == 1
    case Of(xs) => AllTake(xs, run, last)
  }

  /** The segments take all the parts, in order. */
  ghost predicate AllTake(xs: seq<Segment>, parts: seq<string>, last: bool)
    decreases xs
  {
    if xs == [] then parts == []
    else
      exists n :: && 0 <= n <= |parts| && Takes(xs[0], parts[..n], last && |xs| == 1)
                  && AllTake(xs[1..], parts[n..], last)
  }

  ghost predicate TreeMatches(t: Template, parts: seq<string>) {
    AllTake(t.segments, parts, true)
  }

  /** What a tree is made of from left to right, out of all variables. */
  datatype Piece = One | Many | Text(text: string)

  function PiecesOf(x: Segment): seq<Piece>
    decreases x
  {
    match x
    case Star => [One]
    case DoubleStar => [Many]
    case Literal(text) => [Text(text)]
    case Binding(_, pattern) => PatternPieces(pattern)
  }

  function PatternPieces(p: Pattern): seq<Piece>
    decreases p
  {
    match p
    case AnyOne => [One]
    case Of(xs) => Pieces(xs)
  }

  function Pieces(xs: seq<Segment>): seq<Piece>
    decreases xs
  {
    if xs == [] then [] else PiecesOf(xs[0]) + Pieces(xs[1..])
  }

  /** Only literals follow a double star. */
  ghost predicate IsTame(t: Template) {
    forall i, j :: 0 <= i < j < |Pieces(t.segments)| && Pieces(t.segments)[i] == Many ==> Pieces(t.segments)[j].Text?
  }

  // ----- The same on strings -----

  ghost predicate PathTakes(path: seq<string>, parts: seq<string>, last: bool)
    decreases |path|
  {
    if path == [] then parts == []
    else
      exists n :: && 0 <= n <= |parts| && SegmentMatches(path[0], parts[..n], last && |path| == 1)
                  && PathTakes(path[1..], parts[n..], last)
  }

  lemma {:induction false} CutsGrow(path: seq<string>, parts: seq<string>, cuts: seq<nat>, i: nat, j: nat)
    requires IsSplit(path, parts, cuts) && i <= j <= |path|
    ensures cuts[i] <= cuts[j]
    decreases j
  {
    if i < j {
      CutsGrow(path, parts, cuts, i, j - 1);
    }
  }

  lemma FirstIsCut(path: seq<string>, parts: seq<string>, cuts: seq<nat>)
    requires path != [] && IsSplit(path, parts, cuts)
    ensures cuts[1] <= |parts| && SegmentMatches(path[0], parts[..cuts[1]], |path| == 1)
  {
    assert SegmentMatches(path[0], parts[cuts[0]..cuts[0 + 1]], 0 == |path| - 1);
    assert parts[0..cuts[1]] == parts[..cuts[1]];
  }

  lemma TailIsSplit(path: seq<string>, parts: seq<string>, cuts: seq<nat>) returns (tail: seq<nat>)
    requires path != [] && IsSplit(path, parts, cuts)
    ensures cuts[1] <= |parts| && IsSplit(path[1..], parts[cuts[1]..], tail)
  {
    var n, rest := cuts[1], parts[cuts[1]..];
    forall i | 1 <= i <= |path| ensures n <= cuts[i] {
      CutsGrow(path, parts, cuts, 1, i);
    }
    tail := seq(|path|, i requires 0 <= i < |path| => cuts[i + 1] - n);
    forall i | 0 <= i < |path| - 1
      ensures tail[i] <= tail[i + 1] && SegmentMatches(path[1..][i], rest[tail[i]..tail[i + 1]], i == |path| - 2)
    {
      assert cuts[i + 1] <= cuts[i + 1 + 1];
      assert SegmentMatches(path[i + 1], parts[cuts[i + 1]..cuts[i + 1 + 1]], i + 1 == |path| - 1);
      SliceOfRest(parts, n, tail[i], tail[i + 1]);
    }
  }

  lemma SliceOfRest<T>(a: seq<T>, n: nat, i: nat, j: nat)
    requires n <= |a| && i <= j <= |a| - n
    ensures a[n..][i..j] == a[n + i..n + j]
  {
  }

  lemma {:induction false} SplitTakes(path: seq<string>, parts: seq<string>, cuts: seq<nat>)
    requires IsSplit(path, parts, cuts)
    ensures PathTakes(path, parts, true)
    decreases |path|
  {
    if path != [] {
      FirstIsCut(path, parts, cuts);
      var tail := TailIsSplit(path, parts, cuts);
      SplitTakes(path[1..], parts[cuts[1]..], tail);
    }
  }

  lemma PutInFront(path: seq<string>, parts: seq<string>, n: nat, tail: seq<nat>) returns (cuts: seq<nat>)
    requires path != [] && n <= |parts| && SegmentMatches(path[0], parts[..n], |path| == 1)
    requires IsSplit(path[1..], parts[n..], tail)
    ensures IsSplit(path, parts, cuts)
  {
    cuts := [0] + seq(|path|, i requires 0 <= i < |path| => tail[i] + n);
    forall i | 0 <= i < |path|
      ensures cuts[i] <= cuts[i + 1] && SegmentMatches(path[i], parts[cuts[i]..cuts[i + 1]], i == |path| - 1)
    {
      SegmentAfterPut(path, parts, n, tail, cuts[i], cuts[i + 1], i);
    }
  }

  lemma SegmentAfterPut(path: seq<string>, parts: seq<string>, n: nat, tail: seq<nat>, from: nat, to: nat, i: nat)
    requires i < |path| && n <= |parts| && SegmentMatches(path[0], parts[..n], |path| == 1)
    requires IsSplit(path[1..], parts[n..], tail)
    requires from == (if i == 0 then 0 else tail[i - 1] + n) && to == tail[i] + n
    ensures from <= to <= |parts| && SegmentMatches(path[i], parts[from..to], i == |path| - 1)
  {
    if i == 0 {
      assert parts[0..n] == parts[..n];
    } else {
      SegmentInTail(path, parts, n, tail, i - 1);
    }
  }

  lemma SegmentInTail(path: seq<string>, parts: seq<string>, n: nat, tail: seq<nat>, k: nat)
    requires k + 1 < |path| && n <= |parts| && IsSplit(path[1..], parts[n..], tail)
    ensures tail[k] <= tail[k + 1] <= |parts| - n
    ensures SegmentMatches(path[k + 1], parts[n + tail[k]..n + tail[k + 1]], k + 1 == |path| - 1)
  {
    assert SegmentMatches(path[1..][k], parts[n..][tail[k]..tail[k + 1]], k == |path[1..]| - 1);
    SliceOfRest(parts, n, tail[k], tail[k + 1]);
  }

  lemma {:induction false} TakesSplit(path: seq<string>, parts: seq<string>) returns (cuts: seq<nat>)
    requires PathTakes(path, parts, true)
    ensures IsSplit(path, parts, cuts)
    decreases |path|
  {
    if path == [] {
      cuts := [0];
    } else {
      var n :| && 0 <= n <= |parts| && SegmentMatches(path[0], parts[..n], |path| == 1)
               && PathTakes(path[1..], parts[n..], true);
      var tail := TakesSplit(path[1..], parts[n..]);
      cuts := PutInFront(path, parts, n, tail);
    }
  }

  lemma MatchesIffTakes(path: seq<string>, parts: seq<string>)
    ensures Matches(path, parts) <==> PathTakes(path, parts, true)
  {
    if Matches(path, parts) {
      var cuts :| IsSplit(path, parts, cuts);
      SplitTakes(path, parts, cuts);
    }
    if PathTakes(path, parts, true) {
      var cuts := TakesSplit(path, parts);
    }
  }

  /** Two paths, one after the other, with the second not empty. */
  ghost predicate BothTake(a: seq<string>, b: seq<string>, parts: seq<string>, last: bool, n: nat) {
    n <= |parts| && PathTakes(a, parts[..n], last && b == []) && PathTakes(b, parts[n..], last)
  }

  lemma {:induction false} TakeApart(a: seq<string>, b: seq<string>, parts: seq<string>, last: bool) returns (n: nat)
    requires PathTakes(a + b, parts, last)
    ensures BothTake(a, b, parts, last, n)
    decreases |a|
  {
    if a == [] {
      assert a + b == b && parts[0..] == parts;
      n := 0;
    } else {
      assert (a + b)[1..] == a[1..] + b;
      var k :| && 0 <= k <= |parts| && SegmentMatches(a[0], parts[..k], last && |a + b| == 1)
               && PathTakes((a + b)[1..], parts[k..], last);
      var m := TakeApart(a[1..], b, parts[k..], last);
      n := k + m;
      assert parts[..n][..k] == parts[..k] && parts[..n][k..] == parts[k..][..m] && parts[k..][m..] == parts[n..];
    }
  }

  lemma {:induction false} TakeTogether(a: seq<string>, b: seq<string>, parts: seq<string>, last: bool, n: nat)
    requires BothTake(a, b, parts, last, n)
    ensures PathTakes(a + b, parts, last)
    decreases |a|
  {
    if a == [] {
      assert a + b == b && parts[0..] == parts;
    } else {
      assert (a + b)[1..] == a[1..] + b;
      var k :| && 0 <= k <= n && SegmentMatches(a[0], parts[..n][..k], last && b == [] && |a| == 1)
               && PathTakes(a[1..], parts[..n][k..], last && b == []);
      assert parts[..n][..k] == parts[..k] && parts[..n][k..] == parts[k..][..n - k];
      assert parts[k..][n - k..] == parts[n..];
      TakeTogether(a[1..], b, parts[k..], last, n - k);
    }
  }

  lemma OneTakes(segment: string, parts: seq<string>, last: bool)
    ensures PathTakes([segment], parts, last) <==> SegmentMatches(segment, parts, last)
  {
    assert [segment][1..] == [];
    assert parts[..|parts|] == parts && parts[|parts|..] == [];
    if n :| && 0 <= n <= |parts| && SegmentMatches(segment, parts[..n], last) && PathTakes([], parts[n..], last) {
      assert n == |parts|;
    }
  }

  // ----- The tree and its strings -----

  lemma {:induction false} FlattenFirst(xs: seq<Segment>)
    requires xs != []
    ensures Flatten(xs) == Texts(xs[0]) + Flatten(xs[1..])
    decreases |xs|
  {
    var before, x := xs[..|xs| - 1], xs[|xs| - 1];
    if |xs| == 1 {
      assert before == [] && xs[1..] == [];
      Nothing(Texts(x));
    } else {
      FlattenFirst(before);
      assert before[1..] == xs[1..][..|xs| - 2] && xs[1..][|xs| - 2] == x;
      Assoc(Texts(xs[0]), Flatten(before[1..]), Texts(x));
    }
  }

  lemma {:induction false} SegmentTakes(inVariable: bool, x: Segment, run: seq<string>, last: bool)
    requires ValidSegment(inVariable, x)
    ensures Texts(x) != [] && (Takes(x, run, last) <==> PathTakes(Texts(x), run, last))
    decreases x
  {
    match x
    case Star =>
      OneTakes("*", run, last);
    case DoubleStar =>
      OneTakes("**", run, last);
    case Literal(text) =>
      OneTakes(text, run, last);
      assert text[0] != '*' && text[0] != '/';
    case Binding(_, pattern) =>
      match pattern
      case AnyOne =>
        OneTakes("*", run, last);
      case Of(xs) =>
        SegmentsTake(true, xs, run, last);
  }

  lemma {:induction false} SegmentsTake(inVariable: bool, xs: seq<Segment>, parts: seq<string>, last: bool)
    requires xs != [] ==> ValidSegments(inVariable, xs)
    ensures xs != [] ==> Flatten(xs) != []
    ensures AllTake(xs, parts, last) <==> PathTakes(Flatten(xs), parts, last)
    decreases xs
  {
    if xs != [] {
      var a, b := Texts(xs[0]), Flatten(xs[1..]);
      FlattenFirst(xs);
      SegmentTakes(inVariable, xs[0], [], last);
      forall n | 0 <= n <= |parts|
        ensures a != [] && (|xs| > 1 ==> b != [])
        ensures BothTake(a, b, parts, last, n) <==>
                Takes(xs[0], parts[..n], last && |xs| == 1) && AllTake(xs[1..], parts[n..], last)
      {
        SegmentTakes(inVariable, xs[0], parts[..n], last && |xs| == 1);
        SegmentsTake(inVariable, xs[1..], parts[n..], last);
      }
      if PathTakes(a + b, parts, last) {
        var n := TakeApart(a, b, parts, last);
      }
      if AllTake(xs, parts, last) {
        var n :| && 0 <= n <= |parts| && Takes(xs[0], parts[..n], last && |xs| == 1)
                 && AllTake(xs[1..], parts[n..], last);
        TakeTogether(a, b, parts, last, n);
      }
    }
  }

  // ----- Which templates are accepted -----

  function Spelling(p: Piece): string {
    match p
    case One => "*"
    case Many => "**"
    case Text(text) => text
  }

  function Spellings(ps: seq<Piece>): seq<string> {
    seq(|ps|, i requires 0 <= i < |ps| => Spelling(ps[i]))
  }

  /** A literal does not look like anything else. */
  predicate IsPlain(p: Piece) { p.Text? ==> p.text != "" && p.text[0] != '*' && p.text[0] != '/' }

  ghost predicate ArePlain(ps: seq<Piece>) {
    forall i :: 0 <= i < |ps| ==> IsPlain(ps[i])
  }

  lemma {:induction false} SegmentIsSpelled(inVariable: bool, x: Segment)
    requires ValidSegment(inVariable, x)
    ensures Texts(x) == Spellings(PiecesOf(x)) && ArePlain(PiecesOf(x))
    decreases x
  {
    match x
    case Literal(text) =>
      assert IsPlain(PiecesOf(x)[0]);
    case Binding(_, pattern) =>
      if pattern.Of? {
        SegmentsAreSpelled(true, pattern.segments);
      }
    case _ =>
  }

  lemma {:induction false} SegmentsAreSpelled(inVariable: bool, xs: seq<Segment>)
    requires xs != [] ==> ValidSegments(inVariable, xs)
    ensures Flatten(xs) == Spellings(Pieces(xs)) && ArePlain(Pieces(xs))
    decreases xs
  {
    if xs != [] {
      FlattenFirst(xs);
      SegmentIsSpelled(inVariable, xs[0]);
      SegmentsAreSpelled(inVariable, xs[1..]);
      SpelledTogether(PiecesOf(xs[0]), Pieces(xs[1..]));
    }
  }

  lemma SpelledTogether(a: seq<Piece>, b: seq<Piece>)
    requires ArePlain(a) && ArePlain(b)
    ensures Spellings(a + b) == Spellings(a) + Spellings(b) && ArePlain(a + b)
  {
    assert forall i :: |a| <= i < |a + b| ==> (a + b)[i] == b[i - |a|];
  }

  lemma TameIff(t: Template)
    requires ValidTemplate(t)
    ensures LiteralsAfterWild(Flatten(t.segments)) <==> IsTame(t)
  {
    var ps, path := Pieces(t.segments), Flatten(t.segments);
    SegmentsAreSpelled(false, t.segments);
    forall i | 0 <= i < |ps| ensures (path[i] == "**" <==> ps[i] == Many) && (IsLiteral(path[i]) <==> ps[i].Text?) {
      assert IsPlain(ps[i]) && path[i] == Spelling(ps[i]);
    }
  }

  /** A valid tree is accepted iff only literals follow a double star; then its segments are spelled as they stand in
      it, and its verb is the one it has. */
  lemma AcceptedTree(t: Template)
    requires ValidTemplate(t)
    ensures ParseHttpTemplate(Print(t)).Some? <==> IsTame(t)
    ensures IsTame(t) ==>
              && ParseHttpTemplate(Print(t)).value.segments == Spellings(Pieces(t.segments))
              && ParseHttpTemplate(Print(t)).value.verb == (match t.verb case Some(v) => v case None => "")
  {
    TameIff(t);
    ParseIffPrinted(Print(t), t);
    SegmentsAreSpelled(false, t.segments);
    assert ParseTemplate("/").None?;
  }

  function BindingsIn(xs: seq<Segment>): seq<Segment> {
    if xs == [] then []
    else BindingsIn(xs[..|xs| - 1]) + if xs[|xs| - 1].Binding? then [xs[|xs| - 1]] else []
  }

  lemma {:induction false} VariablesAreBindings(xs: seq<Segment>, k: nat)
    requires xs != [] ==> ValidSegments(false, xs)
    ensures |VariablesOf(xs)| == |BindingsIn(xs)|
    ensures k < |VariablesOf(xs)| ==>
              RangeIsOwn(VariablesOf(xs)[k], Flatten(xs)) && Covers(VariablesOf(xs)[k], Flatten(xs), BindingsIn(xs)[k])
    ensures k < |BindingsIn(xs)| ==> BindingsIn(xs)[k].Binding? && ValidSegment(false, BindingsIn(xs)[k])
    decreases |xs|
  {
    if xs != [] {
      var before, x := xs[..|xs| - 1], xs[|xs| - 1];
      ValidPrefix(false, xs);
      VariablesAreBindings(before, k);
      if k < |VariablesOf(before)| {
        RangeGrows(VariablesOf(before)[k], Flatten(before), Texts(x), BindingsIn(before)[k]);
      } else if x.Binding? {
        LastRange(Flatten(before), x);
      }
    }
  }

  /** Each variable in an accepted tree, in order, has its field path and a range: the segments spelled from its own
      pattern. The end counts from the end of the path iff there is a double star among them. */
  lemma AcceptedVariables(t: Template, h: HttpTemplate, k: nat)
    requires ValidTemplate(t) && ParseHttpTemplate(Print(t)) == Some(h) && k < |BindingsIn(t.segments)|
    ensures BindingsIn(t.segments)[k].Binding?
    ensures && |h.variables| == |BindingsIn(t.segments)|
            && var v, x := h.variables[k], BindingsIn(t.segments)[k];
               var pieces := PatternPieces(x.pattern);
               var end := if Many in pieces then v.endSegment + |h.segments| + 1 else v.endSegment;
               && v.fieldPath == x.fieldPath && (v.endSegment < 0 <==> Many in pieces)
               && 0 <= v.startSegment < end <= |h.segments|
               && h.segments[v.startSegment..end] == Spellings(pieces)
  {
    var x := BindingsIn(t.segments)[k];
    ParseIffPrinted(Print(t), t);
    assert ParseTemplate("/").None?;
    VariablesAreBindings(t.segments, k);
    assert h == Compile(t) && h.variables[k] == PostProcess(VariablesOf(t.segments)[k], |h.segments|);
    RangeIsSpelled(VariablesOf(t.segments)[k], h.segments, x);
  }

  lemma RangeIsSpelled(raw: Variable, segments: seq<string>, x: Segment)
    requires ValidSegment(false, x) && RangeIsOwn(raw, segments) && Covers(raw, segments, x)
    ensures var v, pieces := PostProcess(raw, |segments|), PatternPieces(x.pattern);
            var end := if Many in pieces then v.endSegment + |segments| + 1 else v.endSegment;
            && v.fieldPath == x.fieldPath && (v.endSegment < 0 <==> Many in pieces)
            && 0 <= v.startSegment < end <= |segments|
            && segments[v.startSegment..end] == Spellings(pieces)
  {
    PatternIsSpelled(x.pattern);
  }

  lemma PatternIsSpelled(p: Pattern)
    requires p.Of? ==> ValidSegments(true, p.segments)
    ensures PatternTexts(p) == Spellings(PatternPieces(p))
    ensures "**" in PatternTexts(p) <==> Many in PatternPieces(p)
  {
    var ps := PatternPieces(p);
    if p.Of? {
      SegmentsAreSpelled(true, p.segments);
    }
    assert PatternTexts(p) == Spellings(ps);
    forall i | 0 <= i < |ps| ensures Spellings(ps)[i] == "**" <==> ps[i] == Many {
      assert IsPlain(ps[i]);
    }
    if Many in ps {
      var i :| 0 <= i < |ps| && ps[i] == Many;
      assert Spellings(ps)[i] == "**";
    }
  }

  /** For every valid tree: its segments match the parts as the tree does. */
  lemma TreeMatchesIff(t: Template, parts: seq<string>)
    requires ValidTemplate(t)
    ensures TreeMatches(t, parts) <==> Matches(Flatten(t.segments), parts)
  {
    SegmentsTake(false, t.segments, parts, true);
    MatchesIffTakes(Flatten(t.segments), parts);
  }
}
