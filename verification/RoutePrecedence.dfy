/** What a lookup finds, said of the flat registry alone: the first alignment, in order of precedence,
    of the request parts with a registered path. */
module RoutePrecedence {
  import opened Wrappers
  import opened RouteTrie

  /** How one request part is used, and last how the request ends. */
  datatype Step =
    | Own      // by the segment spelled like the part itself
    | Single   // by "/."
    | Star     // by "*"
    | Enter    // as the first part of a "**"
    | Stay     // as a further part of the "**" being matched
    | Here     // the request ends with the path
    | Beyond   // the path has one more segment, a "**" that matches nothing

  function Rank(s: Step): nat {
    match s
    case Own => 0
    case Single => 1
    case Star => 2
    case Enter => 3
    case Stay => 1
    case Here => 0
    case Beyond => 1
  }

  ghost predicate NotAfter(a: seq<Step>, b: seq<Step>) {
    a == [] || (b != [] && (Rank(a[0]) < Rank(b[0]) || (Rank(a[0]) == Rank(b[0]) && NotAfter(a[1..], b[1..]))))
  }

  /** The template path that an alignment of the parts spells; None if it is not an alignment.
      Inside a "**" a part either continues it or is the literal that follows it. */
  ghost function Spelled(inWild: bool, parts: seq<string>, steps: seq<Step>): Option<seq<string>>
    decreases |parts|
  {
    if parts == [] then
      if steps == [Here] then Some([])
      else if steps == [Beyond] then Some([WILD_CARD_PATH])
      else None
    else if steps == [] then None
    else
      match steps[0]
      case Own => Prepend(parts[0], Spelled(parts[0] == WILD_CARD_PATH, parts[1..], steps[1..]))
      case Stay => if inWild then Spelled(true, parts[1..], steps[1..]) else None
      case Single => if inWild then None else Prepend(SINGLE_PARAMETER, Spelled(false, parts[1..], steps[1..]))
      case Star => if inWild then None else Prepend(WILD_CARD_PATH_PART, Spelled(false, parts[1..], steps[1..]))
      case Enter => if inWild then None else Prepend(WILD_CARD_PATH, Spelled(true, parts[1..], steps[1..]))
      case _ => None
  }

  ghost function Prepend(s: string, p: Option<seq<string>>): Option<seq<string>> {
    if p.Some? then Some([s] + p.value) else None
  }

  /** The entry of a path: under the key itself, else under "*". */
  function FindFlat(reg: Registry, path: seq<string>, key: string): Option<Entry> {
    if Route(path, key) in reg then Some(reg[Route(path, key)]) else Get(reg, Route(path, ANY_METHOD))
  }

  ghost predicate Hit(reg: Registry, parts: seq<string>, key: string, steps: seq<Step>) {
    var p := Spelled(false, parts, steps);
    p.Some? && FindFlat(reg, p.value, key).Some?
  }

  /** The specification of a lookup: r is the entry of the first hit, or None when there is none. */
  ghost predicate IsFirstHit(reg: Registry, parts: seq<string>, key: string, r: Option<Entry>) {
    match r
    case None => forall b :: !Hit(reg, parts, key, b)
    case Some(_) =>
      exists a :: Hit(reg, parts, key, a) && r == FindFlat(reg, Spelled(false, parts, a).value, key) &&
                  forall b :: Hit(reg, parts, key, b) ==> NotAfter(a, b)
  }

  // ----- The same, below a trie node -----

  ghost function FindBelow(t: Trie, path: seq<string>, key: string): Option<Entry>
    decreases |path|
  {
    if path == [] then Find(t.results, key)
    else if path[0] in t.children then FindBelow(t.children[path[0]], path[1..], key)
    else None
  }

  lemma {:induction false} FindBelowIsFindFlat(t: Trie, path: seq<string>, key: string)
    ensures FindBelow(t, path, key) ==
            var own := EntryAt(t, Route(path, key));
            if own.Some? then own else EntryAt(t, Route(path, ANY_METHOD))
    decreases |path|
  {
    if path != [] && path[0] in t.children {
      FindBelowIsFindFlat(t.children[path[0]], path[1..], key);
    }
  }

  ghost predicate HitBelow(t: Trie, parts: seq<string>, key: string, steps: seq<Step>) {
    var p := Spelled(t.wildcard, parts, steps);
    p.Some? && FindBelow(t, p.value, key).Some?
  }

  /** What one child contributes: it is entered with a step, and everything after that happens below it. */
  ghost predicate HitVia(t: Trie, child: string, parts: seq<string>, key: string, rest: seq<Step>)
    requires parts != []
  {
    child in t.children && HitBelow(t.children[child], parts[1..], key, rest)
  }

  function ChildOf(s: Step, part: string): string {
    match s
    case Own => part
    case Single => SINGLE_PARAMETER
    case Star => WILD_CARD_PATH_PART
    case _ => WILD_CARD_PATH
  }

  predicate Enters(s: Step, inWild: bool) {
    s == Own || (!inWild && (s == Single || s == Star || s == Enter))
  }

  /** A hit either enters a child with its first step or stays in the "**". */
  lemma ViaChild(t: Trie, parts: seq<string>, key: string, steps: seq<Step>)
    requires WellFormed(t) && parts != []
    ensures HitBelow(t, parts, key, steps) <==>
            && steps != []
            && (if steps[0] == Stay then t.wildcard && HitBelow(t, parts[1..], key, steps[1..])
                else Enters(steps[0], t.wildcard) && HitVia(t, ChildOf(steps[0], parts[0]), parts, key, steps[1..]))
    ensures HitBelow(t, parts, key, steps) ==>
            FindBelow(t, Spelled(t.wildcard, parts, steps).value, key) ==
              if steps[0] == Stay then FindBelow(t, Spelled(true, parts[1..], steps[1..]).value, key)
              else var c := ChildOf(steps[0], parts[0]);
                   FindBelow(t.children[c], Spelled(t.children[c].wildcard, parts[1..], steps[1..]).value, key)
  {
    if steps != [] && steps[0] != Stay {
      var child := ChildOf(steps[0], parts[0]);
      var p := Spelled(child == WILD_CARD_PATH, parts[1..], steps[1..]);
      if p.Some? {
        assert ([child] + p.value)[1..] == p.value;
      }
    }
  }

  ghost predicate FirstVia(t: Trie, child: string, parts: seq<string>, key: string, rest: seq<Step>)
    requires parts != []
  {
    match LookupFromChild(t, child, parts, key)
    case None => forall b :: !HitVia(t, child, parts, key, b)
    case Some(e) =>
      HitVia(t, child, parts, key, rest) &&
      FindBelow(t.children[child], Spelled(t.children[child].wildcard, parts[1..], rest).value, key) == Some(e) &&
      forall b :: HitVia(t, child, parts, key, b) ==> NotAfter(rest, b)
  }

  ghost predicate FirstBelow(t: Trie, parts: seq<string>, key: string, steps: seq<Step>) {
    match LookupPath(t, parts, key)
    case None => forall b :: !HitBelow(t, parts, key, b)
    case Some(e) =>
      HitBelow(t, parts, key, steps) && FindBelow(t, Spelled(t.wildcard, parts, steps).value, key) == Some(e) &&
      forall b :: HitBelow(t, parts, key, b) ==> NotAfter(steps, b)
  }

  /** Entering a child is first when every way of less rank leads to no hit. */
  lemma EnteringIsFirst(t: Trie, step: Step, child: string, parts: seq<string>, key: string, rest: seq<Step>)
    requires WellFormed(t) && parts != []
    requires Enters(step, t.wildcard) && child == ChildOf(step, parts[0])
    requires FirstVia(t, child, parts, key, rest)
    requires LookupPath(t, parts, key) == LookupFromChild(t, child, parts, key)
    requires forall s, b :: Enters(s, t.wildcard) && Rank(s) < Rank(step) ==>
             !HitVia(t, ChildOf(s, parts[0]), parts, key, b)
    requires LookupFromChild(t, child, parts, key).None? ==>
               !t.wildcard && forall s, b :: Enters(s, t.wildcard) ==> !HitVia(t, ChildOf(s, parts[0]), parts, key, b)
    ensures FirstBelow(t, parts, key, [step] + rest)
  {
    var steps := [step] + rest;
    assert steps[1..] == rest;
    ViaChild(t, parts, key, steps);
    forall b | HitBelow(t, parts, key, b)
      ensures LookupPath(t, parts, key).Some? && NotAfter(steps, b)
    {
      ViaChild(t, parts, key, b);
    }
  }

  lemma StayingIsFirst(t: Trie, parts: seq<string>, key: string, rest: seq<Step>)
    requires WellFormed(t) && parts != [] && t.wildcard
    requires FirstBelow(t, parts[1..], key, rest)
    requires LookupPath(t, parts, key) == LookupPath(t, parts[1..], key)
    requires forall b :: !HitVia(t, parts[0], parts, key, b)
    ensures FirstBelow(t, parts, key, [Stay] + rest)
  {
    var steps := [Stay] + rest;
    assert steps[1..] == rest;
    ViaChild(t, parts, key, steps);
    forall b | HitBelow(t, parts, key, b)
      ensures LookupPath(t, parts, key).Some? && NotAfter(steps, b)
    {
      ViaChild(t, parts, key, b);
    }
  }

  lemma {:induction false} LookupTakesFirstVia(t: Trie, child: string, parts: seq<string>, key: string)
    returns (rest: seq<Step>)
    requires WellFormed(t) && parts != []
    ensures FirstVia(t, child, parts, key, rest)
    decreases |parts|, 0
  {
    rest := [];
    if child in t.children {
      rest := LookupTakesFirstBelow(t.children[child], parts[1..], key);
    }
  }

  /** The value of a lookup below t is that of its first hit below t; steps is that hit. */
  lemma {:induction false} LookupTakesFirstBelow(t: Trie, parts: seq<string>, key: string) returns (steps: seq<Step>)
    requires WellFormed(t)
    ensures FirstBelow(t, parts, key, steps)
    decreases |parts|, 2
  {
    if parts == [] {
      steps := FirstAtEnd(t, key);
    } else {
      var own := LookupTakesFirstVia(t, parts[0], parts, key);
      if LookupFromChild(t, parts[0], parts, key).Some? {
        steps := [Own] + own;
        EnteringIsFirst(t, Own, parts[0], parts, key, own);
      } else if t.wildcard {
        var rest := LookupTakesFirstBelow(t, parts[1..], key);
        steps := [Stay] + rest;
        StayingIsFirst(t, parts, key, rest);
      } else {
        steps := LookupTakesFirstAny(t, parts, key);
      }
    }
  }

  lemma FirstAtEnd(t: Trie, key: string) returns (steps: seq<Step>)
    ensures FirstBelow(t, [], key, steps)
  {
    steps := if Find(t.results, key).Some? then [Here] else [Beyond];
    assert FindBelow(t, [], key) == Find(t.results, key);
    assert FindBelow(t, [WILD_CARD_PATH], key) ==
           if WILD_CARD_PATH in t.children then Find(t.children[WILD_CARD_PATH].results, key) else None by {
      assert [WILD_CARD_PATH][1..] == [];
    }
  }

  lemma {:induction false} LookupTakesFirstAny(t: Trie, parts: seq<string>, key: string) returns (steps: seq<Step>)
    requires WellFormed(t) && parts != [] && !t.wildcard
    requires LookupFromChild(t, parts[0], parts, key).None?
    requires forall b :: !HitVia(t, parts[0], parts, key, b)
    ensures FirstBelow(t, parts, key, steps)
    decreases |parts|, 1
  {
    var single := LookupTakesFirstVia(t, SINGLE_PARAMETER, parts, key);
    if LookupFromChild(t, SINGLE_PARAMETER, parts, key).Some? {
      steps := [Single] + single;
      EnteringIsFirst(t, Single, SINGLE_PARAMETER, parts, key, single);
    } else {
      var star := LookupTakesFirstVia(t, WILD_CARD_PATH_PART, parts, key);
      if LookupFromChild(t, WILD_CARD_PATH_PART, parts, key).Some? {
        steps := [Star] + star;
        EnteringIsFirst(t, Star, WILD_CARD_PATH_PART, parts, key, star);
      } else {
        var wild := LookupTakesFirstVia(t, WILD_CARD_PATH, parts, key);
        steps := [Enter] + wild;
        EnteringIsFirst(t, Enter, WILD_CARD_PATH, parts, key, wild);
      }
    }
  }

  // ----- Main results -----

  /** Trie search, with all its backtracking and early returns, is the priority match over the flat registry. */
  lemma LookupIsFirstHit(t: Trie, reg: Registry, parts: seq<string>, key: string)
    requires WellFormed(t) && !t.wildcard && Represents(t, reg)
    ensures IsFirstHit(reg, parts, key, LookupPath(t, parts, key))
  {
    var steps := LookupTakesFirstBelow(t, parts, key);
    forall path ensures FindBelow(t, path, key) == FindFlat(reg, path, key) {
      FindBelowIsFindFlat(t, path, key);
      assert EntryAt(t, Route(path, key)) == Get(reg, Route(path, key));
      assert EntryAt(t, Route(path, ANY_METHOD)) == Get(reg, Route(path, ANY_METHOD));
    }
    forall b ensures HitBelow(t, parts, key, b) <==> Hit(reg, parts, key, b) {
      var p := Spelled(false, parts, b);
      assert p.Some? ==> FindBelow(t, p.value, key) == FindFlat(reg, p.value, key);
    }
  }

  /** Two alignments of the same parts that do not come after each other are the same. */
  lemma {:induction false} AlignmentsAreOrdered(inWild: bool, parts: seq<string>, a: seq<Step>, b: seq<Step>)
    requires Spelled(inWild, parts, a).Some? && Spelled(inWild, parts, b).Some?
    requires NotAfter(a, b) && NotAfter(b, a)
    ensures a == b
    decreases |parts|
  {
    if parts != [] {
      assert a[0] == b[0];
      var next := if a[0] == Stay then true else ChildOf(a[0], parts[0]) == WILD_CARD_PATH;
      AlignmentsAreOrdered(next, parts[1..], a[1..], b[1..]);
      assert a == [a[0]] + a[1..] && b == [b[0]] + b[1..];
    }
  }

  /** The specification leaves a lookup no choice. */
  lemma FirstHitIsUnique(reg: Registry, parts: seq<string>, key: string, r: Option<Entry>, r': Option<Entry>)
    requires IsFirstHit(reg, parts, key, r) && IsFirstHit(reg, parts, key, r')
    ensures r == r'
  {
    if r.Some? && r'.Some? {
      var a :| Hit(reg, parts, key, a) && r == FindFlat(reg, Spelled(false, parts, a).value, key) &&
               forall b :: Hit(reg, parts, key, b) ==> NotAfter(a, b);
      var a' :| Hit(reg, parts, key, a') && r' == FindFlat(reg, Spelled(false, parts, a').value, key) &&
                forall b :: Hit(reg, parts, key, b) ==> NotAfter(a', b);
      AlignmentsAreOrdered(false, parts, a, a');
    }
  }
}
