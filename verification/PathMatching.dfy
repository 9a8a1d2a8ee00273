/** When a template path matches request parts, and which parts each of its segments then takes. */
module PathMatching {
  import opened Wrappers
  import opened Sequences
  import opened RouteTrie
  import opened RoutePrecedence

  predicate IsLiteral(segment: string) {
    segment != SINGLE_PARAMETER && segment != WILD_CARD_PATH_PART && segment != WILD_CARD_PATH
  }

  /** Only literals follow a "**". */
  ghost predicate LiteralsAfterWild(path: seq<string>) {
    forall i, j :: 0 <= i < j < |path| && path[i] == WILD_CARD_PATH ==> IsLiteral(path[j])
  }

  // ----- Matching, as the template syntax of google.api.http describes it -----

  /** A literal takes the part equal to it, "*" one part, "**" one or more parts, or none when it comes last. */
  predicate SegmentMatches(segment: string, run: seq<string>, last: bool) {
    if segment == WILD_CARD_PATH then run != [] || last
    else if IsLiteral(segment) then run == [segment]
    else |run| == 1
  }

  /** cuts[i] is where segment i starts; together the segments take all the parts, in order. */
  ghost predicate IsSplit(path: seq<string>, parts: seq<string>, cuts: seq<nat>) {
    && |cuts| == |path| + 1 && cuts[0] == 0 && cuts[|path|] == |parts|
    && (forall i :: 0 <= i < |path| ==> cuts[i] <= cuts[i + 1])
    && (forall i :: 0 <= i <= |path| ==> cuts[i] <= |parts|)
    && (forall i :: 0 <= i < |path| ==> SegmentMatches(path[i], parts[cuts[i]..cuts[i + 1]], i == |path| - 1))
  }

  ghost predicate Matches(path: seq<string>, parts: seq<string>) {
    exists cuts :: IsSplit(path, parts, cuts)
  }

  // ----- The same by index arithmetic -----

  function WildAt(path: seq<string>): (w: nat)
    ensures w <= |path| && (w < |path| ==> path[w] == WILD_CARD_PATH)
    ensures forall i :: 0 <= i < w ==> path[i] != WILD_CARD_PATH
  {
    if path == [] || path[0] == WILD_CARD_PATH then 0 else 1 + WildAt(path[1..])
  }

  /** The start of segment i when the path matches n parts: everything after the "**" is counted from the end. */
  function CutAt(path: seq<string>, n: nat, i: nat): int {
    if i <= WildAt(path) then i else i + n - |path|
  }

  predicate TakesOne(segment: string, part: string) {
    segment == SINGLE_PARAMETER || segment == WILD_CARD_PATH_PART || segment == part
  }

  ghost predicate MatchesByIndex(path: seq<string>, parts: seq<string>) {
    var w := WildAt(path);
    if w == |path| then |parts| == |path| && forall i :: 0 <= i < w ==> TakesOne(path[i], parts[i])
    else
      && |parts| + (if w == |path| - 1 then 1 else 0) >= |path|
      && (forall i :: 0 <= i < w ==> TakesOne(path[i], parts[i]))
      && (forall i :: w < i < |path| ==> parts[i + |parts| - |path|] == path[i])
  }

  lemma {:induction false} CutsUpToWild(path: seq<string>, parts: seq<string>, cuts: seq<nat>, i: nat)
    requires IsSplit(path, parts, cuts) && i <= WildAt(path)
    ensures cuts[i] == i
  {
    if i > 0 {
      CutsUpToWild(path, parts, cuts, i - 1);
      assert SegmentMatches(path[i - 1], parts[cuts[i - 1]..cuts[i]], i - 1 == |path| - 1);
    }
  }

  lemma {:induction false} CutsAfterWild(path: seq<string>, parts: seq<string>, cuts: seq<nat>, i: nat)
    requires IsSplit(path, parts, cuts) && LiteralsAfterWild(path) && WildAt(path) < i <= |path|
    ensures cuts[i] == i + |parts| - |path|
    decreases |path| - i
  {
    if i < |path| {
      CutsAfterWild(path, parts, cuts, i + 1);
      assert path[WildAt(path)] == WILD_CARD_PATH;
      assert SegmentMatches(path[i], parts[cuts[i]..cuts[i + 1]], i == |path| - 1);
    }
  }

  /** Where a validated path is cut is forced: there is at most one split. */
  lemma SplitIsForced(path: seq<string>, parts: seq<string>, cuts: seq<nat>, i: nat)
    requires IsSplit(path, parts, cuts) && LiteralsAfterWild(path) && i <= |path|
    ensures cuts[i] == CutAt(path, |parts|, i)
  {
    if i <= WildAt(path) {
      CutsUpToWild(path, parts, cuts, i);
    } else {
      CutsAfterWild(path, parts, cuts, i);
    }
  }

  lemma SplitGivesIndices(path: seq<string>, parts: seq<string>, cuts: seq<nat>)
    requires IsSplit(path, parts, cuts) && LiteralsAfterWild(path)
    ensures MatchesByIndex(path, parts)
  {
    var w, n := WildAt(path), |path|;
    forall i | 0 <= i <= n ensures cuts[i] == CutAt(path, |parts|, i) {
      SplitIsForced(path, parts, cuts, i);
    }
    forall i | 0 <= i < n && i != w ensures 0 <= cuts[i] < |parts| && TakesOne(path[i], parts[cuts[i]]) {
      assert SegmentMatches(path[i], parts[cuts[i]..cuts[i + 1]], i == n - 1);
      assert cuts[i + 1] == cuts[i] + 1;
      assert parts[cuts[i]..cuts[i + 1]] == [parts[cuts[i]]];
    }
    if w < n {
      assert SegmentMatches(path[w], parts[cuts[w]..cuts[w + 1]], w == n - 1);
      forall i | w < i < n ensures parts[i + |parts| - n] == path[i] {
        assert IsLiteral(path[i]);
      }
    }
  }

  /** The run of parts that the i-th segment takes when matching is by index. */
  ghost predicate TakesRun(path: seq<string>, parts: seq<string>, i: nat)
    requires i < |path|
  {
    var a, b := CutAt(path, |parts|, i), CutAt(path, |parts|, i + 1);
    0 <= a <= b <= |parts| && SegmentMatches(path[i], parts[a..b], i == |path| - 1)
  }

  lemma RunBeforeWild(path: seq<string>, parts: seq<string>, i: nat)
    requires MatchesByIndex(path, parts) && LiteralsAfterWild(path) && i < WildAt(path)
    ensures TakesRun(path, parts, i)
  {
    assert TakesOne(path[i], parts[i]);
    SliceOfOne(parts, i);
  }

  lemma RunAfterWild(path: seq<string>, parts: seq<string>, i: nat)
    requires MatchesByIndex(path, parts) && LiteralsAfterWild(path) && WildAt(path) < i < |path|
    ensures TakesRun(path, parts, i)
  {
    assert IsLiteral(path[i]);
    SliceOfOne(parts, CutAt(path, |parts|, i));
  }

  lemma IndicesGiveSplit(path: seq<string>, parts: seq<string>)
    requires MatchesByIndex(path, parts) && LiteralsAfterWild(path)
    ensures forall i :: 0 <= i <= |path| ==> CutAt(path, |parts|, i) >= 0
    ensures IsSplit(path, parts, seq(|path| + 1, i requires 0 <= i <= |path| => CutAt(path, |parts|, i) as nat))
  {
    forall i | 0 <= i < |path| ensures TakesRun(path, parts, i) {
      if i < WildAt(path) {
        RunBeforeWild(path, parts, i);
      } else if i > WildAt(path) {
        RunAfterWild(path, parts, i);
      }
    }
    RunsAreSplit(path, parts);
  }

  lemma RunsAreSplit(path: seq<string>, parts: seq<string>)
    requires forall i :: 0 <= i < |path| ==> TakesRun(path, parts, i)
    requires CutAt(path, |parts|, |path|) == |parts|
    ensures forall i :: 0 <= i <= |path| ==> CutAt(path, |parts|, i) >= 0
    ensures IsSplit(path, parts, seq(|path| + 1, i requires 0 <= i <= |path| => CutAt(path, |parts|, i) as nat))
  {
    forall i | 0 <= i <= |path| ensures 0 <= CutAt(path, |parts|, i) <= |parts| {
      if i < |path| {
        assert TakesRun(path, parts, i);
      }
    }
    var cuts: seq<nat> := seq(|path| + 1, i requires 0 <= i <= |path| => CutAt(path, |parts|, i) as nat);
    forall i | 0 <= i < |path|
      ensures cuts[i] <= cuts[i + 1] && SegmentMatches(path[i], parts[cuts[i]..cuts[i + 1]], i == |path| - 1)
    {
      assert TakesRun(path, parts, i);
    }
  }

  lemma MatchesIffByIndex(path: seq<string>, parts: seq<string>)
    requires LiteralsAfterWild(path)
    ensures Matches(path, parts) <==> MatchesByIndex(path, parts)
  {
    if Matches(path, parts) {
      var cuts :| IsSplit(path, parts, cuts);
      SplitGivesIndices(path, parts, cuts);
    }
    if MatchesByIndex(path, parts) {
      IndicesGiveSplit(path, parts);
    }
  }

  // ----- Alignments and matches -----

  ghost predicate AllLiterals(path: seq<string>) {
    forall i :: 0 <= i < |path| ==> IsLiteral(path[i])
  }

  /** Inside a "**" the literals left are a suffix of the parts left. */
  lemma {:induction false} AlignmentInWild(parts: seq<string>, steps: seq<Step>, path: seq<string>, inWild: bool)
    requires Spelled(inWild, parts, steps) == Some(path) && AllLiterals(path)
    ensures |path| <= |parts| && parts[|parts| - |path|..] == path
    ensures !inWild ==> path == parts
    decreases |parts|
  {
    if parts != [] {
      if steps[0] == Stay {
        AlignmentInWild(parts[1..], steps[1..], path, true);
      } else {
        assert path != [] && path[0] == ChildOf(steps[0], parts[0]);
        assert IsLiteral(path[0]);
        assert path[1..] == Spelled(false, parts[1..], steps[1..]).value;
        AlignmentInWild(parts[1..], steps[1..], path[1..], false);
        assert path == [path[0]] + path[1..];
        assert parts == [parts[0]] + parts[1..];
      }
    } else {
      var beyond := [WILD_CARD_PATH];
      assert !IsLiteral(beyond[0]) && !AllLiterals(beyond);
    }
  }

  lemma {:induction false} AlignmentMatches(parts: seq<string>, steps: seq<Step>, path: seq<string>)
    requires Spelled(false, parts, steps) == Some(path) && LiteralsAfterWild(path)
    ensures MatchesByIndex(path, parts)
    decreases |parts|
  {
    if parts != [] {
      assert path != [] && path[0] == ChildOf(steps[0], parts[0]);
      assert path[1..] == Spelled(path[0] == WILD_CARD_PATH, parts[1..], steps[1..]).value;
      var rest := path[1..];
      if path[0] == WILD_CARD_PATH {
        assert forall i :: 0 <= i < |rest| ==> rest[i] == path[i + 1];
        AlignmentInWild(parts[1..], steps[1..], rest, true);
        var k := |parts[1..]| - |rest|;
        forall i | 0 < i < |path| ensures parts[i + |parts| - |path|] == path[i] {
          assert parts[1..][k..][i - 1] == rest[i - 1];
        }
      } else {
        assert forall i :: 0 <= i < |rest| ==> rest[i] == path[i + 1];
        AlignmentMatches(parts[1..], steps[1..], rest);
        PrependOne(path, parts);
      }
    } else {
      assert steps == [Here] || path == [WILD_CARD_PATH];
    }
  }

  lemma PrependOne(path: seq<string>, parts: seq<string>)
    requires path != [] && parts != [] && path[0] != WILD_CARD_PATH
    ensures TakesOne(path[0], parts[0]) && MatchesByIndex(path[1..], parts[1..]) <==> MatchesByIndex(path, parts)
  {
    var rest, left, w := path[1..], parts[1..], WildAt(path);
    assert forall i :: 0 <= i < |rest| ==> rest[i] == path[i + 1];
    assert forall i :: 0 <= i < |left| ==> left[i] == parts[i + 1];
    if MatchesByIndex(path, parts) {
      forall i | 0 <= i < w - 1 ensures TakesOne(rest[i], left[i]) {
        assert TakesOne(path[i + 1], parts[i + 1]);
      }
      forall i | w - 1 < i < |rest| ensures left[i + |left| - |rest|] == rest[i] {
        assert parts[(i + 1) + |parts| - |path|] == path[i + 1];
      }
    }
    if TakesOne(path[0], parts[0]) && MatchesByIndex(rest, left) {
      forall i | 0 <= i < w ensures TakesOne(path[i], parts[i]) {
        if i > 0 { assert TakesOne(rest[i - 1], left[i - 1]); }
      }
      forall i | w < i < |path| ensures parts[i + |parts| - |path|] == path[i] {
        assert left[(i - 1) + |left| - |rest|] == rest[i - 1];
      }
    }
  }

  lemma {:induction false} AlignInWild(path: seq<string>, parts: seq<string>, inWild: bool) returns (steps: seq<Step>)
    requires AllLiterals(path) && |path| <= |parts| && parts[|parts| - |path|..] == path
    requires inWild || |path| == |parts|
    ensures Spelled(inWild, parts, steps) == Some(path)
    decreases |parts|
  {
    if parts == [] {
      steps := [Here];
    } else if |path| < |parts| {
      assert parts[1..][|parts| - 1 - |path|..] == path;
      var rest := AlignInWild(path, parts[1..], true);
      steps := [Stay] + rest;
      assert steps[1..] == rest;
    } else {
      assert parts == path && IsLiteral(path[0]);
      var rest := AlignInWild(path[1..], parts[1..], false);
      steps := [Own] + rest;
      assert steps[1..] == rest && path == [path[0]] + path[1..];
    }
  }

  lemma AlignAtWild(path: seq<string>, parts: seq<string>) returns (steps: seq<Step>)
    requires MatchesByIndex(path, parts) && LiteralsAfterWild(path)
    requires parts != [] && path != [] && path[0] == WILD_CARD_PATH
    ensures Spelled(false, parts, steps) == Some(path)
  {
    var rest, left := path[1..], parts[1..];
    forall i | 0 <= i < |rest| ensures left[|left| - |rest|..][i] == rest[i] {
      assert parts[(i + 1) + |parts| - |path|] == path[i + 1];
    }
    assert left[|left| - |rest|..] == rest;
    assert forall i :: 0 <= i < |rest| ==> rest[i] == path[i + 1];
    var tail := AlignInWild(rest, left, true);
    steps := EnterFirst(Enter, path, parts, tail);
  }

  lemma EnterFirst(first: Step, path: seq<string>, parts: seq<string>, tail: seq<Step>) returns (steps: seq<Step>)
    requires parts != [] && path != [] && Spelled(path[0] == WILD_CARD_PATH, parts[1..], tail) == Some(path[1..])
    requires if path[0] == WILD_CARD_PATH then first == Enter
             else if path[0] == SINGLE_PARAMETER then first == Single
             else if path[0] == WILD_CARD_PATH_PART then first == Star
             else first == Own && path[0] == parts[0]
    ensures Spelled(false, parts, steps) == Some(path)
  {
    steps := [first] + tail;
    assert steps[1..] == tail;
    assert path == [path[0]] + path[1..];
  }

  lemma {:induction false} Align(path: seq<string>, parts: seq<string>) returns (steps: seq<Step>)
    requires MatchesByIndex(path, parts) && LiteralsAfterWild(path)
    ensures Spelled(false, parts, steps) == Some(path)
    decreases |path|
  {
    if parts == [] {
      steps := if path == [] then [Here] else [Beyond];
      assert path == [] || path == [WILD_CARD_PATH];
    } else if path[0] == WILD_CARD_PATH {
      steps := AlignAtWild(path, parts);
    } else {
      PrependOne(path, parts);
      var tail := Align(path[1..], parts[1..]);
      var first := if path[0] == SINGLE_PARAMETER then Single else if path[0] == WILD_CARD_PATH_PART then Star else Own;
      steps := EnterFirst(first, path, parts, tail);
    }
  }

  lemma AlignmentIffMatches(path: seq<string>, parts: seq<string>)
    requires LiteralsAfterWild(path)
    ensures (exists steps :: Spelled(false, parts, steps) == Some(path)) <==> Matches(path, parts)
  {
    MatchesIffByIndex(path, parts);
    if steps :| Spelled(false, parts, steps) == Some(path) {
      AlignmentMatches(parts, steps, path);
    }
    if MatchesByIndex(path, parts) {
      var steps := Align(path, parts);
    }
  }

  // ----- Soundness and completeness of lookup -----

  ghost predicate AllValidated(reg: Registry) {
    forall r :: r in reg ==> LiteralsAfterWild(r.path)
  }

  /** A lookup finds an entry iff some registered path under the key, or under "*", matches the parts. */
  lemma LookupFindsIffMatches(t: Trie, reg: Registry, parts: seq<string>, key: string)
    requires WellFormed(t) && !t.wildcard && Represents(t, reg) && AllValidated(reg)
    ensures LookupPath(t, parts, key).Some? <==>
            exists r :: r in reg && (r.key == key || r.key == ANY_METHOD) && Matches(r.path, parts)
  {
    LookupIsFirstHit(t, reg, parts, key);
    if LookupPath(t, parts, key).Some? {
      var a :| Hit(reg, parts, key, a);
      var p := Spelled(false, parts, a).value;
      var r := if Route(p, key) in reg then Route(p, key) else Route(p, ANY_METHOD);
      assert Spelled(false, parts, a) == Some(p);
      AlignmentIffMatches(p, parts);
      assert r in reg && Matches(r.path, parts);
    }
    if r :| r in reg && (r.key == key || r.key == ANY_METHOD) && Matches(r.path, parts) {
      AlignmentIffMatches(r.path, parts);
      var steps :| Spelled(false, parts, steps) == Some(r.path);
      assert r == Route(r.path, r.key);
      assert Hit(reg, parts, key, steps);
    }
  }
}
