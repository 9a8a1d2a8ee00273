/** Percent-decoding of percent_encoding.h. Characters stand for bytes: a decoded value is the character of code 0 to
    255. */
module PercentEncoding {
  import opened Sequences
  import opened Strings

  datatype UrlUnescapeSpec = AllCharactersExceptReserved | AllCharactersExceptSlash | AllCharacters

  /** The reserved characters of RFC 6570, section 1.5. */
  predicate IsReservedChar(c: char) {
    || c == '!' || c == '#' || c == '$' || c == '&' || c == '\'' || c == '(' || c == ')' || c == '*' || c == '+'
    || c == ',' || c == '/' || c == ':' || c == ';' || c == '=' || c == '?' || c == '@' || c == '[' || c == ']'
  }

  predicate IsHexDigit(c: char) {
    'a' <= c <= 'f' || 'A' <= c <= 'F' || '0' <= c <= '9'
  }

  /** Adding 9 to the code of a letter and keeping the low four bits. */
  function HexDigitToInt(c: char): (n: nat)
    ensures n < 16
  {
    var x := c as int;
    (if x > '9' as int then x + 9 else x) % 16
  }

  /** The number of characters that stand for one decoded character at i, and that character; 0 if none do. */
  function GetEscapedChar(src: string, i: nat, spec: UrlUnescapeSpec, unescapePlus: bool): (r: (nat, char))
    requires i < |src|
    ensures i + r.0 <= |src|
  {
    if unescapePlus && src[i] == '+' then (1, ' ')
    else if i + 2 < |src| && src[i] == '%' && IsHexDigit(src[i + 1]) && IsHexDigit(src[i + 2]) then
      var c := (16 * HexDigitToInt(src[i + 1]) + HexDigitToInt(src[i + 2])) as char;
      if spec == AllCharactersExceptReserved && IsReservedChar(c) then (0, '\0')
      else if spec == AllCharactersExceptSlash && c == '/' then (0, '\0')
      else (3, c)
    else (0, '\0')
  }

  /** How many characters the first decoded character takes. */
  function Taken(s: string, spec: UrlUnescapeSpec, plus: bool): (n: nat)
    requires s != ""
    ensures 1 <= n <= |s|
  {
    var skip := GetEscapedChar(s, 0, spec, plus).0;
    if skip > 0 then skip else 1
  }

  function Produced(s: string, spec: UrlUnescapeSpec, plus: bool): char
    requires s != ""
  {
    var (skip, c) := GetEscapedChar(s, 0, spec, plus);
    if skip > 0 then c else s[0]
  }

  /** What decoding means: read from the left, every escape of a character that the spec decodes is replaced. */
  function Unescape(s: string, spec: UrlUnescapeSpec, plus: bool): string
  {
    if s == "" then "" else [Produced(s, spec, plus)] + Unescape(s[Taken(s, spec, plus)..], spec, plus)
  }

  method IsUrlEscapedString(part: string, spec: UrlUnescapeSpec, unescapePlus: bool) returns (escaped: bool)
    ensures escaped <==> exists i :: 0 <= i < |part| && GetEscapedChar(part, i, spec, unescapePlus).0 > 0
  {
    for i := 0 to |part|
      invariant forall j :: 0 <= j < i ==> GetEscapedChar(part, j, spec, unescapePlus).0 == 0
    {
      var (skip, _) := GetEscapedChar(part, i, spec, unescapePlus);
      if skip > 0 {
        return true;
      }
    }
    return false;
  }

  lemma GetEscapedCharInSuffix(s: string, i: nat, j: nat, spec: UrlUnescapeSpec, plus: bool)
    requires i + j < |s|
    ensures GetEscapedChar(s[i..], j, spec, plus) == GetEscapedChar(s, i + j, spec, plus)
  {
  }

  lemma {:induction false} UnescapedIsUnchanged(s: string, spec: UrlUnescapeSpec, plus: bool)
    requires forall i :: 0 <= i < |s| ==> GetEscapedChar(s, i, spec, plus).0 == 0
    ensures Unescape(s, spec, plus) == s
  {
    if s != "" {
      forall i | 0 <= i < |s[1..]| ensures GetEscapedChar(s[1..], i, spec, plus).0 == 0 {
        GetEscapedCharInSuffix(s, 1, i, spec, plus);
      }
      UnescapedIsUnchanged(s[1..], spec, plus);
    }
  }

  /** Decoding with the part already decoded in front. */
  ghost function UnescapeAfter(done: string, s: string, spec: UrlUnescapeSpec, plus: bool): string {
    done + Unescape(s, spec, plus)
  }

  lemma UnescapeStep(done: string, s: string, i: nat, spec: UrlUnescapeSpec, plus: bool, next: char, n: nat)
    requires i < |s|
    requires var (skip, c) := GetEscapedChar(s, i, spec, plus);
             if skip > 0 then next == c && n == skip else next == s[i] && n == 1
    ensures UnescapeAfter(done, s[i..], spec, plus) == UnescapeAfter(done + [next], s[i + n..], spec, plus)
  {
    GetEscapedCharInSuffix(s, i, 0, spec, plus);
    assert n == Taken(s[i..], spec, plus) && next == Produced(s[i..], spec, plus);
    assert s[i..][n..] == s[i + n..];
    Assoc(done, [next], Unescape(s[i + n..], spec, plus));
  }

  method UrlUnescapeString(part: string, spec: UrlUnescapeSpec, unescapePlus: bool) returns (unescaped: string)
    ensures unescaped == Unescape(part, spec, unescapePlus)
  {
    var escaped := IsUrlEscapedString(part, spec, unescapePlus);
    if escaped {
      unescaped := UnescapeIntoBuffer(part, spec, unescapePlus);
    } else {
      UnescapedIsUnchanged(part, spec, unescapePlus);
      unescaped := part;
    }
  }

  /** One decoded character, and how many characters it takes. */
  method ReadChar(part: string, i: nat, spec: UrlUnescapeSpec, unescapePlus: bool) returns (next: char, n: nat)
    requires i < |part|
    ensures 0 < n && i + n <= |part|
    ensures var (skip, c) := GetEscapedChar(part, i, spec, unescapePlus);
            if skip > 0 then next == c && n == skip else next == part[i] && n == 1
  {
    var (skip, ch) := GetEscapedChar(part, i, spec, unescapePlus);
    next, n := ch, skip;
    if skip == 0 {
      next, n := part[i], 1;
    }
  }

  /** The copying loop of UrlUnescapeString. */
  method UnescapeIntoBuffer(part: string, spec: UrlUnescapeSpec, unescapePlus: bool) returns (unescaped: string)
    ensures unescaped == Unescape(part, spec, unescapePlus)
  {
    var buffer := new char[|part|];
    var p, i := 0, 0;
    ghost var done := "";
    assert part[i..] == part && UnescapeAfter(done, part, spec, unescapePlus) == Unescape(part, spec, unescapePlus);
    while i < |part|
      invariant p <= i <= |part|
      invariant buffer[..p] == done
      invariant UnescapeAfter(done, part[i..], spec, unescapePlus) == Unescape(part, spec, unescapePlus)
      decreases |part| - i
    {
      var next, n := ReadChar(part, i, spec, unescapePlus);
      UnescapeStep(done, part, i, spec, unescapePlus, next, n);
      buffer[p] := next;
      done := done + [next];
      i := i + n;
      p := p + 1;
    }
    unescaped := buffer[..p];
    assert part[i..] == "" && done + "" == done;
  }

  // ----- Decoding inverts encoding -----

  /** The value of a hexadecimal digit. */
  function DigitValue(c: char): nat
    requires IsHexDigit(c)
  {
    if '0' <= c <= '9' then c as int - '0' as int
    else if 'a' <= c <= 'f' then c as int - 'a' as int + 10
    else c as int - 'A' as int + 10
  }

  /** A percent-encoded octet of RFC 3986, section 2.1, with digits of either case. */
  predicate IsPercentEncoded(e: string, c: char) {
    |e| == 3 && e[0] == '%' && IsHexDigit(e[1]) && IsHexDigit(e[2]) &&
    c as int == 16 * DigitValue(e[1]) + DigitValue(e[2])
  }

  predicate Decodes(spec: UrlUnescapeSpec, c: char) {
    match spec
    case AllCharactersExceptReserved => !IsReservedChar(c)
    case AllCharactersExceptSlash => c != '/'
    case AllCharacters => true
  }

  /** encoded is raw with any choice of characters escaped, but always "%", and "+" where it stands for a space. */
  predicate Encodes(encoded: string, raw: string, spec: UrlUnescapeSpec, plus: bool)
    decreases |raw|
  {
    if raw == "" then encoded == ""
    else
      || (&& encoded != "" && encoded[0] == raw[0] && raw[0] != '%' && !(plus && raw[0] == '+')
          && Encodes(encoded[1..], raw[1..], spec, plus))
      || (&& |encoded| >= 3 && IsPercentEncoded(encoded[..3], raw[0]) && Decodes(spec, raw[0])
          && Encodes(encoded[3..], raw[1..], spec, plus))
      || (&& plus && encoded != "" && encoded[0] == '+' && raw[0] == ' '
          && Encodes(encoded[1..], raw[1..], spec, plus))
  }

  lemma PercentEncodedIsRead(s: string, c: char, spec: UrlUnescapeSpec, plus: bool)
    requires |s| >= 3 && IsPercentEncoded(s[..3], c)
    ensures GetEscapedChar(s, 0, spec, plus) == if Decodes(spec, c) then (3, c) else (0, '\0')
  {
    assert s[1] == s[..3][1] && s[2] == s[..3][2];
    assert HexDigitToInt(s[1]) == DigitValue(s[1]);
    assert HexDigitToInt(s[2]) == DigitValue(s[2]);
  }

  /** What is read at i: a plus where it stands for a space, a percent-encoded octet that the spec decodes, or
      nothing. */
  lemma WhatIsRead(s: string, i: nat, spec: UrlUnescapeSpec, plus: bool)
    requires i < |s|
    ensures GetEscapedChar(s, i, spec, plus).0 == 1 <==> plus && s[i] == '+'
    ensures GetEscapedChar(s, i, spec, plus).0 == 1 ==> GetEscapedChar(s, i, spec, plus).1 == ' '
    ensures forall c :: GetEscapedChar(s, i, spec, plus) == (3, c) <==>
                        i + 3 <= |s| && IsPercentEncoded(s[i..][..3], c) && Decodes(spec, c)
    ensures GetEscapedChar(s, i, spec, plus).0 in {0, 1, 3}
  {
    if i + 3 <= |s| && IsHexDigit(s[i + 1]) && IsHexDigit(s[i + 2]) {
      assert HexDigitToInt(s[i + 1]) == DigitValue(s[i + 1]) && HexDigitToInt(s[i + 2]) == DigitValue(s[i + 2]);
      assert s[i..][..3] == [s[i], s[i + 1], s[i + 2]];
    }
  }

  const LOWER := "0123456789abcdef"
  const UPPER := "0123456789ABCDEF"

  /** The reserved characters are those of the general and of the sub-delimiters. */
  lemma ReservedAre(c: char)
    ensures IsReservedChar(c) <==> c in {':', '/', '?', '#', '[', ']', '@'}
                                   || c in {'!', '$', '&', '\'', '(', ')', '*', '+', ',', ';', '='}
  {
  }

  lemma DigitsAre(k: nat)
    requires k < 16
    ensures IsHexDigit(LOWER[k]) && HexDigitToInt(LOWER[k]) == k
    ensures IsHexDigit(UPPER[k]) && HexDigitToInt(UPPER[k]) == k
  {
    assert k < 10 ==> LOWER[k] as int == '0' as int + k && UPPER[k] == LOWER[k];
    assert k >= 10 ==> LOWER[k] as int == 'a' as int + k - 10 && UPPER[k] as int == 'A' as int + k - 10;
  }

  /** Every octet is read from two digits of either case, but under the first spec the reserved characters stay
      encoded, and under the second the "/" does. */
  lemma EveryOctetIsRead(hi: nat, lo: nat, a: char, b: char, spec: UrlUnescapeSpec, plus: bool)
    requires hi < 16 && lo < 16 && (a == LOWER[hi] || a == UPPER[hi]) && (b == LOWER[lo] || b == UPPER[lo])
    ensures var c := (16 * hi + lo) as char;
            var stays := match spec
                         case AllCharactersExceptReserved => c in {':', '/', '?', '#', '[', ']', '@'}
                              || c in {'!', '$', '&', '\'', '(', ')', '*', '+', ',', ';', '='}
                         case AllCharactersExceptSlash => c == '/'
                         case AllCharacters => false;
            Unescape(['%', a, b], spec, plus) == if stays then ['%', a, b] else [c]
  {
    var s := ['%', a, b];
    DigitsAre(hi);
    DigitsAre(lo);
    ReservedAre((16 * hi + lo) as char);
    OneEscape(s, spec, plus);
  }

  lemma OneEscape(s: string, spec: UrlUnescapeSpec, plus: bool)
    requires |s| == 3 && s[0] == '%' && IsHexDigit(s[1]) && IsHexDigit(s[2])
    ensures var (skip, c) := GetEscapedChar(s, 0, spec, plus);
            Unescape(s, spec, plus) == if skip == 0 then s else [c]
  {
    if GetEscapedChar(s, 0, spec, plus).0 == 0 {
      assert GetEscapedChar(s, 1, spec, plus).0 == 0 && GetEscapedChar(s, 2, spec, plus).0 == 0;
      UnescapedIsUnchanged(s, spec, plus);
    } else {
      assert s[3..] == "";
    }
  }

  /** Decoding inverts every such encoder. */
  lemma {:induction false} UnescapeInvertsEncoding(encoded: string, raw: string, spec: UrlUnescapeSpec, plus: bool)
    requires Encodes(encoded, raw, spec, plus)
    ensures Unescape(encoded, spec, plus) == raw
    decreases |raw|
  {
    if raw != "" {
      assert raw == [raw[0]] + raw[1..];
      if && |encoded| >= 3 && IsPercentEncoded(encoded[..3], raw[0]) && Decodes(spec, raw[0])
         && Encodes(encoded[3..], raw[1..], spec, plus) {
        PercentEncodedIsRead(encoded, raw[0], spec, plus);
        UnescapeInvertsEncoding(encoded[3..], raw[1..], spec, plus);
      } else {
        UnescapeInvertsEncoding(encoded[1..], raw[1..], spec, plus);
      }
    }
  }

  function HexDigit(n: nat): char
    requires n < 16
  {
    if n < 10 then ('0' as int + n) as char else ('A' as int + n - 10) as char
  }

  function EscapeChar(c: char): string
    requires c as int < 256
  {
    ['%', HexDigit(c as int / 16), HexDigit(c as int % 16)]
  }

  function EscapeAll(raw: string): string
    requires forall i :: 0 <= i < |raw| ==> raw[i] as int < 256
  {
    if raw == "" then "" else EscapeChar(raw[0]) + EscapeAll(raw[1..])
  }

  lemma HexDigitsAreDigits(n: nat)
    requires n < 16
    ensures IsHexDigit(HexDigit(n)) && DigitValue(HexDigit(n)) == n
  {
  }

  lemma TwoDigits(hi: nat, lo: nat, c: char)
    requires hi < 16 && lo < 16 && c as int == 16 * hi + lo
    ensures IsPercentEncoded(['%', HexDigit(hi), HexDigit(lo)], c)
  {
    HexDigitsAreDigits(hi);
    HexDigitsAreDigits(lo);
  }

  lemma EscapeCharIsPercentEncoded(c: char)
    requires c as int < 256
    ensures IsPercentEncoded(EscapeChar(c), c)
  {
    TwoDigits(c as int / 16, c as int % 16, c);
  }

  lemma EncodesOneMore(e: string, c: char, encoded: string, raw: string, plus: bool)
    requires IsPercentEncoded(e, c) && Encodes(encoded, raw, AllCharacters, plus)
    ensures Encodes(e + encoded, [c] + raw, AllCharacters, plus)
  {
    assert (e + encoded)[..3] == e && (e + encoded)[3..] == encoded;
    assert ([c] + raw)[1..] == raw;
  }

  lemma {:induction false} EscapeAllEncodes(raw: string, plus: bool)
    requires forall i :: 0 <= i < |raw| ==> raw[i] as int < 256
    ensures Encodes(EscapeAll(raw), raw, AllCharacters, plus)
  {
    if raw != "" {
      EscapeCharIsPercentEncoded(raw[0]);
      EscapeAllEncodes(raw[1..], plus);
      EncodesOneMore(EscapeChar(raw[0]), raw[0], EscapeAll(raw[1..]), raw[1..], plus);
      assert raw == [raw[0]] + raw[1..];
    }
  }

  /** Every byte string has an encoding, and reading it back is the identity. */
  lemma EscapeAllRoundTrip(raw: string, plus: bool)
    requires forall i :: 0 <= i < |raw| ==> raw[i] as int < 256
    ensures Unescape(EscapeAll(raw), AllCharacters, plus) == raw
  {
    EscapeAllEncodes(raw, plus);
    UnescapeInvertsEncoding(EscapeAll(raw), raw, AllCharacters, plus);
  }

  // ----- Decoding and "/" -----

  function UnescapeParts(parts: seq<string>, spec: UrlUnescapeSpec, plus: bool): (r: seq<string>)
    ensures |r| == |parts|
  {
    seq(|parts|, i requires 0 <= i < |parts| => Unescape(parts[i], spec, plus))
  }

  /** No escape reaches across a "/". */
  lemma EscapeEndsBeforeSlash(a: string, b: string, spec: UrlUnescapeSpec, plus: bool)
    requires a != ""
    ensures Taken(a + "/" + b, spec, plus) == Taken(a, spec, plus)
    ensures Produced(a + "/" + b, spec, plus) == Produced(a, spec, plus)
  {
    var s := a + "/" + b;
    assert s[0] == a[0];
    if |a| >= 3 {
      assert s[1] == a[1] && s[2] == a[2];
    } else {
      assert s[|a|] == '/';
    }
  }

  lemma {:induction false} UnescapeAtSlash(a: string, b: string, spec: UrlUnescapeSpec, plus: bool)
    ensures Unescape(a + "/" + b, spec, plus) == Unescape(a, spec, plus) + "/" + Unescape(b, spec, plus)
  {
    var s := a + "/" + b;
    if a == "" {
      assert s == ['/'] + b && s[1..] == b;
      assert GetEscapedChar(s, 0, spec, plus).0 == 0;
    } else {
      EscapeEndsBeforeSlash(a, b, spec, plus);
      var skip, next := Taken(a, spec, plus), Produced(a, spec, plus);
      assert s[skip..] == a[skip..] + "/" + b;
      UnescapeAtSlash(a[skip..], b, spec, plus);
      var u, v := Unescape(a[skip..], spec, plus), Unescape(b, spec, plus);
      Assoc([next], u + "/", v);
      Assoc([next], u, "/");
    }
  }

  /** Decoding the whole path is decoding its parts, under every spec. */
  lemma {:induction false} UnescapeOfJoin(parts: seq<string>, spec: UrlUnescapeSpec, plus: bool)
    ensures Unescape(Join(parts, '/'), spec, plus) == Join(UnescapeParts(parts, spec, plus), '/')
  {
    if |parts| > 1 {
      UnescapeAtSlash(parts[0], Join(parts[1..], '/'), spec, plus);
      UnescapeOfJoin(parts[1..], spec, plus);
      assert UnescapeParts(parts, spec, plus)[1..] == UnescapeParts(parts[1..], spec, plus);
    }
  }

  /** The two specs that keep some characters encoded never produce a "/". */
  lemma {:induction false} UnescapeMakesNoSlash(s: string, spec: UrlUnescapeSpec, plus: bool)
    requires spec != AllCharacters && '/' !in s
    ensures '/' !in Unescape(s, spec, plus)
  {
    if s != "" {
      UnescapeMakesNoSlash(s[Taken(s, spec, plus)..], spec, plus);
    }
  }

  /** The escape "%2F", with a hex digit of either case, at i. */
  predicate IsEscapedSlash(s: string, i: nat) {
    i + 2 < |s| && s[i] == '%' && s[i + 1] == '2' && (s[i + 2] == 'F' || s[i + 2] == 'f')
  }

  ghost predicate HasEscapedSlash(s: string) {
    exists i: nat :: IsEscapedSlash(s, i)
  }

  lemma HexSlash(hi: char, lo: char)
    requires IsHexDigit(hi) && IsHexDigit(lo)
    ensures 16 * HexDigitToInt(hi) + HexDigitToInt(lo) == '/' as int <==> hi == '2' && (lo == 'F' || lo == 'f')
  {
    assert HexDigitToInt(hi) == DigitValue(hi) && HexDigitToInt(lo) == DigitValue(lo);
  }

  /** The first decoded character is a "/" iff it is an escaped one, and no other starts within what it takes. */
  lemma FirstSlash(s: string, plus: bool)
    requires s != "" && s[0] != '/'
    ensures Produced(s, AllCharacters, plus) == '/' <==> IsEscapedSlash(s, 0)
    ensures forall i: nat :: 0 < i < Taken(s, AllCharacters, plus) ==> !IsEscapedSlash(s, i)
  {
    if |s| > 2 && s[0] == '%' && IsHexDigit(s[1]) && IsHexDigit(s[2]) {
      HexSlash(s[1], s[2]);
    }
  }

  /** The full spec produces a "/" iff one was escaped. */
  lemma {:induction false} UnescapeMakesSlashIff(s: string, plus: bool)
    requires '/' !in s
    ensures '/' in Unescape(s, AllCharacters, plus) <==> HasEscapedSlash(s)
  {
    if s != "" {
      var n := Taken(s, AllCharacters, plus);
      FirstSlash(s, plus);
      UnescapeMakesSlashIff(s[n..], plus);
      assert forall i: nat :: IsEscapedSlash(s[n..], i) ==> IsEscapedSlash(s, n + i);
      assert forall i: nat :: i >= n && IsEscapedSlash(s, i) ==> IsEscapedSlash(s[n..], i - n);
    }
  }

  /** The value of a variable that takes several parts still shows the decoded parts iff the spec keeps an encoded
      slash, or there is none. */
  lemma SplitRecoversParts(parts: seq<string>, spec: UrlUnescapeSpec, plus: bool)
    requires parts != [] && Without(parts, '/')
    ensures Split(Join(UnescapeParts(parts, spec, plus), '/'), '/') == UnescapeParts(parts, spec, plus) <==>
            spec != AllCharacters || forall i :: 0 <= i < |parts| ==> !HasEscapedSlash(parts[i])
  {
    var decoded := UnescapeParts(parts, spec, plus);
    forall i | 0 <= i < |parts| ensures '/' in decoded[i] <==> spec == AllCharacters && HasEscapedSlash(parts[i]) {
      if spec == AllCharacters {
        UnescapeMakesSlashIff(parts[i], plus);
      } else {
        UnescapeMakesNoSlash(parts[i], spec, plus);
      }
    }
    SplitHasNoSeparator(Join(decoded, '/'), '/');
    if Without(decoded, '/') {
      SplitOfJoin(decoded, '/');
    }
  }

  /** With an encoded slash under the full spec it does not: the slash becomes one more separator. */
  lemma FullDecodingHidesParts()
    ensures Split(Join(UnescapeParts(["a%2Fb"], AllCharacters, false), '/'), '/') == ["a", "b"]
  {
    var s := "a%2Fb";
    assert s[1..] == "%2Fb" && s[1..][3..] == "b";
    PercentEncodedIsRead(s[1..], '/', AllCharacters, false);
    assert Unescape("b", AllCharacters, false) == "b" by { assert "b"[1..] == ""; }
    assert Unescape(s, AllCharacters, false) == "a/b";
    assert UnescapeParts([s], AllCharacters, false) == ["a/b"];
    SplitFirst("a", "b", '/');
    SplitSingle("b", '/');
  }
}
