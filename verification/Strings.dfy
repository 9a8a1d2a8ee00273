/** Splitting at a separator and joining again. */
module Strings {
  /** absl::StrSplit at one character: always at least one piece. */
  function Split(s: string, sep: char): (pieces: seq<string>)
    ensures |pieces| >= 1
  {
    if s == "" then [""]
    else
      var rest := Split(s[1..], sep);
      if s[0] == sep then [""] + rest else [[s[0]] + rest[0]] + rest[1..]
  }

  function Join(pieces: seq<string>, sep: char): string {
    if pieces == [] then ""
    else if |pieces| == 1 then pieces[0]
    else pieces[0] + [sep] + Join(pieces[1..], sep)
  }

  ghost predicate Without(pieces: seq<string>, sep: char) {
    forall i :: 0 <= i < |pieces| ==> sep !in pieces[i]
  }

  lemma {:induction false} SplitHasNoSeparator(s: string, sep: char)
    ensures Without(Split(s, sep), sep)
  {
    if s != "" {
      SplitHasNoSeparator(s[1..], sep);
      assert sep !in Split(s[1..], sep)[0];
    }
  }

  /** A separator anywhere splits what is before it from what is behind it. */
  lemma {:induction false} SplitBoth(a: string, b: string, sep: char)
    ensures Split(a + [sep] + b, sep) == Split(a, sep) + Split(b, sep)
    decreases |a|
  {
    var s := a + [sep] + b;
    if a == "" {
      assert s[1..] == b;
    } else {
      SplitBoth(a[1..], b, sep);
      assert s[1..] == a[1..] + [sep] + b;
      SplitBehind(s, Split(a[1..], sep), Split(b, sep), sep);
    }
  }

  lemma SplitBehind(s: string, first: seq<string>, second: seq<string>, sep: char)
    requires s != "" && first != [] && Split(s[1..], sep) == first + second
    ensures Split(s, sep) ==
            (if s[0] == sep then [""] + first else [[s[0]] + first[0]] + first[1..]) + second
  {
    assert (first + second)[1..] == first[1..] + second;
    if s[0] == sep {
      assert [""] + (first + second) == [""] + first + second;
    } else {
      var head := [[s[0]] + first[0]];
      assert head + (first[1..] + second) == head + first[1..] + second;
    }
  }

  /** One piece without the separator, then the separator, is split off first. */
  lemma {:induction false} SplitFirst(piece: string, rest: string, sep: char)
    requires sep !in piece
    ensures Split(piece + [sep] + rest, sep) == [piece] + Split(rest, sep)
  {
    var s := piece + [sep] + rest;
    if piece == "" {
      assert s[1..] == rest;
    } else {
      SplitFirst(piece[1..], rest, sep);
      assert s[1..] == piece[1..] + [sep] + rest;
      assert [piece[0]] + piece[1..] == piece;
    }
  }

  lemma {:induction false} SplitSingle(piece: string, sep: char)
    requires sep !in piece
    ensures Split(piece, sep) == [piece]
  {
    if piece != "" {
      SplitSingle(piece[1..], sep);
      assert [piece[0]] + piece[1..] == piece;
    }
  }

  /** Splitting undoes joining. */
  lemma {:induction false} SplitOfJoin(pieces: seq<string>, sep: char)
    requires pieces != [] && Without(pieces, sep)
    ensures Split(Join(pieces, sep), sep) == pieces
  {
    if |pieces| == 1 {
      SplitSingle(pieces[0], sep);
    } else {
      SplitOfJoin(pieces[1..], sep);
      SplitFirst(pieces[0], Join(pieces[1..], sep), sep);
    }
  }

  lemma {:induction false} JoinAppend(pieces: seq<string>, piece: string, sep: char)
    requires pieces != []
    ensures Join(pieces + [piece], sep) == Join(pieces, sep) + ([sep] + piece)
  {
    var more := pieces + [piece];
    if |pieces| > 1 {
      JoinAppend(pieces[1..], piece, sep);
      assert more[1..] == pieces[1..] + [piece];
    } else {
      assert more[1..] == [piece];
    }
  }

  // ----- Concatenation -----

  lemma RegroupAt(a: string, mid: string, b: string, c: string)
    ensures a + (mid + (b + c)) == (a + (mid + b)) + c
  {
  }
}
