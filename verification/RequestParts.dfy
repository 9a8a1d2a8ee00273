/** Splitting a request path into parts and a custom verb: ExtractRequestParts of path_matcher.h. */
module RequestParts {
  import opened Wrappers
  import opened Sequences
  import opened Strings

  // ----- Finding a character -----

  ghost predicate IsFirst(s: string, c: char, n: nat) {
    n < |s| && s[n] == c && forall i :: 0 <= i < n ==> s[i] != c
  }

  ghost predicate IsLast(s: string, c: char, n: nat) {
    n < |s| && s[n] == c && forall i :: n < i < |s| ==> s[i] != c
  }

  lemma {:induction false} HasFirst(s: string, c: char)
    requires c in s
    ensures exists n: nat :: IsFirst(s, c, n)
  {
    if s[0] == c {
      assert IsFirst(s, c, 0);
    } else {
      HasFirst(s[1..], c);
      var n: nat :| IsFirst(s[1..], c, n);
      assert forall i :: 0 < i < |s| ==> s[i] == s[1..][i - 1];
      assert s[n + 1] == s[1..][n];
      assert IsFirst(s, c, n + 1);
    }
  }

  lemma {:induction false} HasLast(s: string, c: char)
    requires c in s
    ensures exists n: nat :: IsLast(s, c, n)
  {
    var k := |s| - 1;
    if s[k] == c {
      assert IsLast(s, c, k);
    } else {
      assert s == s[..k] + [s[k]];
      HasLast(s[..k], c);
      var n: nat :| IsLast(s[..k], c, n);
      assert IsLast(s, c, n);
    }
  }

  /** std::string::find_first_of for one character; None is npos. */
  ghost function First(s: string, c: char): (r: Option<nat>)
    ensures if c in s then r.Some? && IsFirst(s, c, r.value) else r.None?
  {
    if c in s then
      HasFirst(s, c);
      var n: nat :| IsFirst(s, c, n);
      Some(n)
    else None
  }

  /** std::string::find_last_of for one character. */
  ghost function Last(s: string, c: char): (r: Option<nat>)
    ensures if c in s then r.Some? && IsLast(s, c, r.value) else r.None?
  {
    if c in s then
      HasLast(s, c);
      var n: nat :| IsLast(s, c, n);
      Some(n)
    else None
  }

  method FindFirstOf(s: string, c: char) returns (r: Option<nat>)
    ensures r == First(s, c)
  {
    var n: nat := 0;
    while n < |s| && s[n] != c
      invariant n <= |s| && forall i :: 0 <= i < n ==> s[i] != c
    {
      n := n + 1;
    }
    r := if n < |s| then Some(n) else None;
  }

  method FindLastOf(s: string, c: char) returns (r: Option<nat>)
    ensures r == Last(s, c)
  {
    var n: nat := |s|;
    while n > 0 && s[n - 1] != c
      invariant n <= |s| && forall i :: n <= i < |s| ==> s[i] != c
    {
      n := n - 1;
    }
    r := if n > 0 then Some(n - 1) else None;
  }

  datatype Request = Request(parts: seq<string>, verb: string)

  /** Everything up to the query string. */
  ghost function WithoutQuery(path: string): string {
    var n := First(path, '?');
    if n.Some? then path[..n.value] else path
  }

  /** The position of the ":" that starts a verb: the last one, if no "/" follows it and the text behind it counts as
      a verb. A path without "/" has no verb. */
  ghost function VerbColon(path: string, customVerbs: set<string>, matchUnregistered: bool): (r: Option<nat>)
    ensures r.Some? ==> r.value < |path|
  {
    var colon, slash := Last(path, ':'), Last(path, '/');
    if colon.Some? && slash.Some? && colon.value > slash.value &&
       (matchUnregistered || path[colon.value + 1..] in customVerbs)
    then colon else None
  }

  function TrimEmpty(parts: seq<string>): (r: seq<string>)
    ensures r <= parts && (r == [] || r[|r| - 1] != "")
    ensures forall i :: |r| <= i < |parts| ==> parts[i] == ""
  {
    if parts == [] || parts[|parts| - 1] != "" then parts else TrimEmpty(parts[..|parts| - 1])
  }

  /** The parts behind the first character, whatever it is. */
  function SplitPath(path: string): seq<string> {
    if path == "" then [] else TrimEmpty(Split(path[1..], '/'))
  }

  ghost function Extract(path: string, customVerbs: set<string>, matchUnregistered: bool): Request {
    var p := WithoutQuery(path);
    match VerbColon(p, customVerbs, matchUnregistered)
    case None => Request(SplitPath(p), "")
    case Some(colon) => Request(SplitPath(p[..colon]), p[colon + 1..])
  }

  method ExtractRequestParts(path: string, customVerbs: set<string>, matchUnregisteredCustomVerb: bool)
    returns (result: seq<string>, verb: string)
    ensures Request(result, verb) == Extract(path, customVerbs, matchUnregisteredCustomVerb)
  {
    var query := FindFirstOf(path, '?');
    var p := if query.Some? then path[..query.value] else path;
    p, verb := CutVerb(p, customVerbs, matchUnregisteredCustomVerb);
    result := SplitParts(p);
  }

  method CutVerb(path: string, customVerbs: set<string>, matchUnregisteredCustomVerb: bool)
    returns (rest: string, verb: string)
    ensures var colon := VerbColon(path, customVerbs, matchUnregisteredCustomVerb);
            if colon.None? then rest == path && verb == ""
            else rest == path[..colon.value] && verb == path[colon.value + 1..]
  {
    rest, verb := path, "";
    var lastColonPos := FindLastOf(path, ':');
    var lastSlashPos := FindLastOf(path, '/');
    if lastColonPos.Some? && lastSlashPos.Some? && lastColonPos.value > lastSlashPos.value {
      var tmpVerb := path[lastColonPos.value + 1..];
      if matchUnregisteredCustomVerb || tmpVerb in customVerbs {
        verb := tmpVerb;
        rest := path[..lastColonPos.value];
      }
    }
  }

  method SplitParts(path: string) returns (result: seq<string>)
    ensures result == SplitPath(path)
  {
    result := [];
    if |path| > 0 {
      result := Split(path[1..], '/');
    }
    ghost var all := result;
    while result != [] && result[|result| - 1] == ""
      invariant TrimEmpty(result) == TrimEmpty(all)
    {
      result := result[..|result| - 1];
    }
  }

  // ----- What it means -----

  /** The last ":" of a path, behind a "/" and before none, starts a verb if the text behind it counts as one. */
  lemma VerbColonIs(path: string, n: nat, customVerbs: set<string>, matchUnregistered: bool)
    requires n < |path| && path[n] == ':' && '/' in path[..n]
    requires forall i :: n < i < |path| ==> path[i] != ':' && path[i] != '/'
    ensures VerbColon(path, customVerbs, matchUnregistered) ==
            if matchUnregistered || path[n + 1..] in customVerbs then Some(n) else None
  {
    var i :| 0 <= i < n && path[..n][i] == '/';
    assert path[i] == '/';
  }

  lemma NoVerbColon(path: string, n: nat, customVerbs: set<string>, matchUnregistered: bool)
    requires n < |path| && path[n] == '/' && forall i :: n < i < |path| ==> path[i] != ':'
    ensures VerbColon(path, customVerbs, matchUnregistered).None?
  {
  }

  /** Anything from the first "?" on is ignored. */
  lemma QueryIsIgnored(path: string, query: string, customVerbs: set<string>, matchUnregistered: bool)
    ensures Extract(path + "?" + query, customVerbs, matchUnregistered) == Extract(path, customVerbs, matchUnregistered)
  {
    var s := path + "?" + query;
    var n := if '?' in path then First(path, '?').value else |path|;
    assert s[n] == '?' && forall i :: 0 <= i < n ==> s[i] == path[i];
    assert First(s, '?') == Some(n);
    assert s[..n] == path[..n] && path[..|path|] == path;
    assert WithoutQuery(s) == WithoutQuery(path);
  }

  /** A result is empty or ends in a part that is not. */
  lemma LastPartIsNotEmpty(path: string, customVerbs: set<string>, matchUnregistered: bool)
    ensures var parts := Extract(path, customVerbs, matchUnregistered).parts;
            (parts == [] || parts[|parts| - 1] != "") && Without(parts, '/')
  {
    var p := WithoutQuery(path);
    var colon := VerbColon(p, customVerbs, matchUnregistered);
    var q := if colon.Some? then p[..colon.value] else p;
    if q != "" {
      SplitHasNoSeparator(q[1..], '/');
    }
  }

  ghost predicate ArePathParts(parts: seq<string>) {
    Without(parts, '/') && Without(parts, '?') && (parts == [] || parts[|parts| - 1] != "")
  }

  lemma {:induction false} JoinHasNo(parts: seq<string>, c: char)
    requires Without(parts, c) && c != '/'
    ensures c !in Join(parts, '/')
  {
    if |parts| > 1 {
      JoinHasNo(parts[1..], c);
    }
  }

  lemma SplitPathOfJoin(parts: seq<string>)
    requires ArePathParts(parts)
    ensures SplitPath("/" + Join(parts, '/')) == parts
  {
    assert ("/" + Join(parts, '/'))[1..] == Join(parts, '/');
    if parts == [] {
      assert TrimEmpty([""]) == [] by { assert [""][..0] == []; }
    } else {
      SplitOfJoin(parts, '/');
    }
  }

  lemma NoQuery(path: string)
    requires '?' !in path
    ensures WithoutQuery(path) == path
  {
  }

  /** Splitting undoes building a path with a verb that counts. */
  lemma SplittingUndoesBuilding(parts: seq<string>, verb: string, customVerbs: set<string>, matchUnregistered: bool)
    requires ArePathParts(parts) && '/' !in verb && '?' !in verb && ':' !in verb
    requires matchUnregistered || verb in customVerbs
    ensures Extract("/" + Join(parts, '/') + ":" + verb, customVerbs, matchUnregistered) == Request(parts, verb)
  {
    JoinHasNo(parts, '?');
    SplitPathOfJoin(parts);
    VerbIsSplit("/" + Join(parts, '/'), verb, customVerbs, matchUnregistered);
  }

  function Slashes(n: nat): string { seq(n, _ => '/') }

  lemma {:induction false} TrailingSlashes(path: string, n: nat)
    requires path != ""
    ensures SplitPath(path + Slashes(n)) == SplitPath(path)
  {
    if n == 0 {
      assert path + Slashes(0) == path;
    } else {
      var before := path + Slashes(n - 1);
      TrailingSlashes(path, n - 1);
      assert path + Slashes(n) == before + "/";
      OneMoreSlash(before);
    }
  }

  lemma OneMoreSlash(path: string)
    requires path != ""
    ensures SplitPath(path + "/") == SplitPath(path)
  {
    var pieces := Split(path[1..], '/');
    assert (path + "/")[1..] == path[1..] + ['/'] + "";
    SplitBoth(path[1..], "", '/');
    assert (pieces + [""])[..|pieces|] == pieces;
  }

  /** A built path may end in slashes: with one at least there is no verb, */
  lemma SplittingWithSlashes(parts: seq<string>, n: nat, customVerbs: set<string>, matchUnregistered: bool)
    requires ArePathParts(parts) && n > 0
    ensures Extract("/" + Join(parts, '/') + Slashes(n), customVerbs, matchUnregistered) == Request(parts, "")
  {
    var front := "/" + Join(parts, '/');
    var s := front + Slashes(n);
    JoinHasNo(parts, '?');
    NoVerbColon(s, |s| - 1, customVerbs, matchUnregistered);
    SplitPathOfJoin(parts);
    TrailingSlashes(front, n);
    NothingCut(s, parts, customVerbs, matchUnregistered);
  }

  /** unless the verb is behind them. */
  lemma SplittingVerbBehindSlashes(parts: seq<string>, n: nat, verb: string, customVerbs: set<string>,
                                   matchUnregistered: bool)
    requires ArePathParts(parts) && '/' !in verb && '?' !in verb && ':' !in verb
    requires matchUnregistered || verb in customVerbs
    ensures Extract("/" + Join(parts, '/') + Slashes(n) + ":" + verb, customVerbs, matchUnregistered) ==
            Request(parts, verb)
  {
    var front := "/" + Join(parts, '/');
    JoinHasNo(parts, '?');
    SplitPathOfJoin(parts);
    TrailingSlashes(front, n);
    VerbIsSplit(front + Slashes(n), verb, customVerbs, matchUnregistered);
  }

  lemma VerbIsSplit(front: string, verb: string, customVerbs: set<string>, matchUnregistered: bool)
    requires front != "" && front[0] == '/' && '?' !in front
    requires '/' !in verb && '?' !in verb && ':' !in verb
    requires matchUnregistered || verb in customVerbs
    ensures Extract(front + ":" + verb, customVerbs, matchUnregistered) == Request(SplitPath(front), verb)
  {
    var s := front + ":" + verb;
    NoQuery(s);
    assert s[|front| + 1..] == verb && s[..|front|] == front && front[0] == '/';
    assert forall m :: |front| < m < |s| ==> s[m] == verb[m - |front| - 1];
    VerbColonIs(s, |front|, customVerbs, matchUnregistered);
  }

  /** Whether the last part would be read as a part and a verb. */
  ghost predicate EndsInVerb(parts: seq<string>, customVerbs: set<string>, matchUnregistered: bool) {
    parts != [] &&
    var last := parts[|parts| - 1];
    var colon := Last(last, ':');
    colon.Some? && (matchUnregistered || last[colon.value + 1..] in customVerbs)
  }

  ghost function Lead(parts: seq<string>): string
    requires parts != []
  {
    if |parts| == 1 then "" else "/" + Join(parts[..|parts| - 1], '/')
  }

  lemma JoinAtLast(parts: seq<string>)
    requires parts != []
    ensures "/" + Join(parts, '/') == Lead(parts) + ("/" + parts[|parts| - 1])
  {
    var front, last := parts[..|parts| - 1], parts[|parts| - 1];
    assert parts == front + [last];
    if front == [] {
      FirstIsJoined(last);
    } else {
      LastIsJoined(front, last);
    }
  }

  lemma FirstIsJoined(last: string)
    ensures "/" + Join([] + [last], '/') == "" + ("/" + last)
  {
    assert [] + [last] == [last];
  }

  lemma LastIsJoined(front: seq<string>, last: string)
    requires front != []
    ensures "/" + Join(front + [last], '/') == ("/" + Join(front, '/')) + ("/" + last)
  {
    JoinAppend(front, last, '/');
    Assoc("/", Join(front, '/'), ['/'] + last);
  }

  lemma SuffixAtLast(lead: string, last: string, k: nat)
    requires k <= |last|
    ensures (lead + ("/" + last))[|lead| + 1 + k..] == last[k..]
    ensures (lead + ("/" + last))[..|lead| + 1 + k] == lead + ("/" + last[..k])
  {
  }

  lemma VerbColonOfLast(lead: string, last: string, customVerbs: set<string>, matchUnregistered: bool)
    requires '/' !in last
    ensures VerbColon(lead + ("/" + last), customVerbs, matchUnregistered) ==
            match Last(last, ':')
            case None => None
            case Some(k) => if matchUnregistered || last[k + 1..] in customVerbs then Some(|lead| + 1 + k) else None
  {
    var path, n := lead + ("/" + last), |lead| + 1;
    SuffixAtLast(lead, last, 0);
    if Last(last, ':').None? {
      forall m | n <= m < |path| ensures path[m] != ':' { assert path[n..][m - n] == last[m - n]; }
      NoVerbColon(path, n - 1, customVerbs, matchUnregistered);
    } else {
      ColonInLast(lead, last, Last(last, ':').value, customVerbs, matchUnregistered);
    }
  }

  lemma ColonInLast(lead: string, last: string, k: nat, customVerbs: set<string>, matchUnregistered: bool)
    requires '/' !in last && IsLast(last, ':', k)
    ensures VerbColon(lead + ("/" + last), customVerbs, matchUnregistered) ==
            if matchUnregistered || last[k + 1..] in customVerbs then Some(|lead| + 1 + k) else None
  {
    var path := lead + ("/" + last);
    CharactersAtLast(lead, last, k);
    SuffixAtLast(lead, last, k + 1);
    VerbColonIs(path, |lead| + 1 + k, customVerbs, matchUnregistered);
  }

  lemma CharactersAtLast(lead: string, last: string, k: nat)
    requires '/' !in last && IsLast(last, ':', k)
    ensures var path, n := lead + ("/" + last), |lead| + 1 + k;
            && n < |path| && path[n] == ':' && '/' in path[..n]
            && forall m :: n < m < |path| ==> path[m] != ':' && path[m] != '/'
  {
    var path, at := lead + ("/" + last), |lead| + 1;
    assert path[..at + k][at - 1] == '/';
    assert forall m :: at <= m < |path| ==> path[m] == last[m - at];
  }

  lemma CutLastPart(parts: seq<string>, k: nat)
    requires ArePathParts(parts) && parts != [] && k < |parts[|parts| - 1]|
    ensures SplitPath(Lead(parts) + ("/" + parts[|parts| - 1][..k])) != parts
  {
    var front, last := parts[..|parts| - 1], parts[|parts| - 1];
    var cut := front + [last[..k]];
    assert cut[..|cut| - 1] == front && cut[|cut| - 1] == last[..k];
    JoinAtLast(cut);
    assert ("/" + Join(cut, '/'))[1..] == Join(cut, '/');
    SplitOfJoin(cut, '/');
  }

  lemma ExtractWithoutQuery(path: string, customVerbs: set<string>, matchUnregistered: bool)
    requires '?' !in path
    ensures Extract(path, customVerbs, matchUnregistered) ==
            match VerbColon(path, customVerbs, matchUnregistered)
            case None => Request(SplitPath(path), "")
            case Some(colon) => Request(SplitPath(path[..colon]), path[colon + 1..])
  {
    NoQuery(path);
  }

  /** Without a verb the path splits back into its parts iff its last part does not end in one. */
  lemma SplittingWithoutVerb(parts: seq<string>, customVerbs: set<string>, matchUnregistered: bool)
    requires ArePathParts(parts)
    ensures Extract("/" + Join(parts, '/'), customVerbs, matchUnregistered) == Request(parts, "") <==>
            !EndsInVerb(parts, customVerbs, matchUnregistered)
  {
    var s := "/" + Join(parts, '/');
    JoinHasNo(parts, '?');
    SplitPathOfJoin(parts);
    if parts == [] {
      NoVerbColon(s, 0, customVerbs, matchUnregistered);
      NothingCut(s, parts, customVerbs, matchUnregistered);
    } else {
      JoinAtLast(parts);
      if EndsInVerb(parts, customVerbs, matchUnregistered) {
        SomethingCut(parts, s, Last(parts[|parts| - 1], ':').value, customVerbs, matchUnregistered);
      } else {
        NoVerbAtLast(parts, s, customVerbs, matchUnregistered);
        NothingCut(s, parts, customVerbs, matchUnregistered);
      }
    }
  }

  lemma NothingCut(s: string, parts: seq<string>, customVerbs: set<string>, matchUnregistered: bool)
    requires '?' !in s && VerbColon(s, customVerbs, matchUnregistered).None? && SplitPath(s) == parts
    ensures Extract(s, customVerbs, matchUnregistered) == Request(parts, "")
  {
    ExtractWithoutQuery(s, customVerbs, matchUnregistered);
  }

  lemma SomethingCut(parts: seq<string>, s: string, k: nat, customVerbs: set<string>, matchUnregistered: bool)
    requires ArePathParts(parts) && parts != [] && s == Lead(parts) + ("/" + parts[|parts| - 1]) && '?' !in s
    requires EndsInVerb(parts, customVerbs, matchUnregistered) && Last(parts[|parts| - 1], ':') == Some(k)
    ensures Extract(s, customVerbs, matchUnregistered).parts != parts
  {
    var lead, last := Lead(parts), parts[|parts| - 1];
    var cut := CuttingAtLast(parts, lead, last, k);
    VerbIsCut(lead, last, s, k, cut, parts, customVerbs, matchUnregistered);
  }

  lemma VerbIsCut(lead: string, last: string, s: string, k: nat, cut: string, parts: seq<string>,
                  customVerbs: set<string>, matchUnregistered: bool)
    requires s == lead + ("/" + last) && '?' !in s && '/' !in last && IsLast(last, ':', k)
    requires matchUnregistered || last[k + 1..] in customVerbs
    requires cut == lead + ("/" + last[..k]) && SplitPath(cut) != parts
    ensures Extract(s, customVerbs, matchUnregistered).parts != parts
  {
    VerbStarts(lead, last, s, k, cut, customVerbs, matchUnregistered);
    PartsAreCut(s, |lead| + 1 + k, cut, parts, customVerbs, matchUnregistered);
  }

  lemma VerbStarts(lead: string, last: string, s: string, k: nat, cut: string, customVerbs: set<string>,
                   matchUnregistered: bool)
    requires s == lead + ("/" + last) && '/' !in last && IsLast(last, ':', k)
    requires matchUnregistered || last[k + 1..] in customVerbs
    requires cut == lead + ("/" + last[..k])
    ensures VerbColon(s, customVerbs, matchUnregistered) == Some(|lead| + 1 + k) && cut == s[..|lead| + 1 + k]
  {
    ColonInLast(lead, last, k, customVerbs, matchUnregistered);
    SuffixAtLast(lead, last, k);
  }

  lemma PartsAreCut(s: string, n: nat, cut: string, parts: seq<string>, customVerbs: set<string>,
                    matchUnregistered: bool)
    requires '?' !in s && n <= |s| && VerbColon(s, customVerbs, matchUnregistered) == Some(n)
    requires cut == s[..n] && SplitPath(cut) != parts
    ensures Extract(s, customVerbs, matchUnregistered).parts != parts
  {
    ExtractWithoutQuery(s, customVerbs, matchUnregistered);
  }

  lemma NoVerbAtLast(parts: seq<string>, s: string, customVerbs: set<string>, matchUnregistered: bool)
    requires ArePathParts(parts) && parts != [] && s == Lead(parts) + ("/" + parts[|parts| - 1])
    requires !EndsInVerb(parts, customVerbs, matchUnregistered)
    ensures VerbColon(s, customVerbs, matchUnregistered).None?
  {
    VerbColonOfLast(Lead(parts), parts[|parts| - 1], customVerbs, matchUnregistered);
  }

  lemma CuttingAtLast(parts: seq<string>, lead: string, last: string, k: nat) returns (cut: string)
    requires ArePathParts(parts) && parts != [] && lead == Lead(parts) && last == parts[|parts| - 1] && k < |last|
    ensures cut == lead + ("/" + last[..k]) && SplitPath(cut) != parts
  {
    cut := lead + ("/" + last[..k]);
    CutLastPart(parts, k);
  }
}
