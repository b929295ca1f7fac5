/** String primitives of the .NET base library that the bundler relies on:
    `char.IsWhiteSpace`, `string.IsNullOrWhiteSpace`, `Trim`, ASCII case folding,
    `Split` on one separator, and the line reading/writing done by
    `File.ReadLines` and `TextWriter.WriteLine` (with "\n" as the newline). */
module Text {

  /** `char.IsWhiteSpace`: the Unicode space separators (category Zs), the line and
      paragraph separators, and the control characters U+0009..U+000D and U+0085. */
  predicate IsWhiteSpace(c: char) {
    || c == ' '
    || ('\t' <= c <= '\r')
    || c == '\U{85}' || c == '\U{A0}' || c == '\U{1680}'
    || ('\U{2000}' <= c <= '\U{200A}')
    || c == '\U{2028}' || c == '\U{2029}' || c == '\U{202F}' || c == '\U{205F}' || c == '\U{3000}'
  }

  /** `string.IsNullOrWhiteSpace` on a non-null string: empty, or white space only. */
  predicate IsBlank(s: string) {
    forall i :: 0 <= i < |s| ==> IsWhiteSpace(s[i])
  }

  /** Neither end of `s` is white space. */
  predicate IsTrimmed(s: string) {
    s == [] || (!IsWhiteSpace(s[0]) && !IsWhiteSpace(s[|s| - 1]))
  }

  /** The first position at or after `k` that does not hold white space, or `|s|`. */
  function SkipWhite(s: string, k: nat): (n: nat)
    requires k <= |s|
    ensures k <= n <= |s|
    ensures forall j :: k <= j < n ==> IsWhiteSpace(s[j])
    ensures n < |s| ==> !IsWhiteSpace(s[n])
    decreases |s| - k
  {
    if k < |s| && IsWhiteSpace(s[k]) then SkipWhite(s, k + 1) else k
  }

  /** The end of `s[lo..hi]` once the white space at its back is removed. */
  function SkipWhiteBack(s: string, lo: nat, hi: nat): (m: nat)
    requires lo <= hi <= |s|
    ensures lo <= m <= hi
    ensures forall j :: m <= j < hi ==> IsWhiteSpace(s[j])
    ensures m > lo ==> !IsWhiteSpace(s[m - 1])
    decreases hi
  {
    if hi > lo && IsWhiteSpace(s[hi - 1]) then SkipWhiteBack(s, lo, hi - 1) else hi
  }

  /** `string.Trim()`: the infix of `s` left once the white space at both ends is removed. */
  function Trim(s: string): (r: string)
    ensures IsTrimmed(r)
    ensures r == [] <==> IsBlank(s)
    ensures IsTrimmed(s) ==> r == s
    ensures forall c :: c in r ==> c in s
    ensures exists b, e :: 0 <= b <= e <= |s| && r == s[b..e] && IsBlank(s[..b]) && IsBlank(s[e..])
  {
    var b := SkipWhite(s, 0);
    var e := SkipWhiteBack(s, b, |s|);
    TrimBounds(s, b, e);
    s[b..e]
  }

  /** What the two scans of `Trim` find: no white space at the ends of `s[b..e]`. */
  lemma TrimBounds(s: string, b: nat, e: nat)
    requires b == SkipWhite(s, 0) && e == SkipWhiteBack(s, b, |s|)
    ensures IsTrimmed(s[b..e])
    ensures s[b..e] == [] <==> IsBlank(s)
    ensures IsTrimmed(s) ==> s[b..e] == s
    ensures forall c :: c in s[b..e] ==> c in s
    ensures IsBlank(s[..b]) && IsBlank(s[e..])
  {
    assert b < e ==> s[b..e][0] == s[b] && s[b..e][e - b - 1] == s[e - 1];
    assert b == e ==> b == |s|;
    assert IsTrimmed(s) && s != [] ==> b == 0 && e == |s|;
    assert s[..|s|] == s;
    BlankOutside(s, b, e);
  }

  lemma BlankOutside(s: string, b: nat, e: nat)
    requires b <= e <= |s|
    requires forall j :: 0 <= j < b ==> IsWhiteSpace(s[j])
    requires forall j :: e <= j < |s| ==> IsWhiteSpace(s[j])
    ensures IsBlank(s[..b]) && IsBlank(s[e..])
  {
    assert forall j :: 0 <= j < b ==> s[..b][j] == s[j];
    assert forall j :: 0 <= j < |s| - e ==> s[e..][j] == s[e + j];
  }

  /** ASCII case folding, standing in for `ToLowerInvariant` and `ToLower`. */
  function LowerChar(c: char): char {
    if 'A' <= c <= 'Z' then (c as int + 32) as char else c
  }

  predicate IsUpperAscii(c: char) {
    'A' <= c <= 'Z'
  }

  /** No character of `s` is an upper-case ASCII letter. */
  predicate IsLowerCase(s: string) {
    forall i :: 0 <= i < |s| ==> !IsUpperAscii(s[i])
  }

  /** `StringComparison.OrdinalIgnoreCase` on ASCII letters. */
  predicate EqualsIgnoreCase(a: string, b: string) {
    |a| == |b| && forall i :: 0 <= i < |a| ==> LowerChar(a[i]) == LowerChar(b[i])
  }

  function Lower(s: string): (r: string)
    ensures IsLowerCase(r)
    ensures EqualsIgnoreCase(r, s)
  {
    seq(|s|, i requires 0 <= i < |s| => LowerChar(s[i]))
  }

  /** A lower-case string is the lowering of everything it equals ignoring case. */
  lemma LowerUnique(e: string, s: string)
    requires IsLowerCase(e) && EqualsIgnoreCase(e, s)
    ensures e == Lower(s)
  {
    assert forall i :: 0 <= i < |e| ==> LowerChar(e[i]) == e[i];
  }

  /** Index of the first occurrence of `c` in `s`. */
  function IndexOf(s: string, c: char): (i: nat)
    requires c in s
    ensures i < |s| && s[i] == c
    ensures forall k :: 0 <= k < i ==> s[k] != c
  {
    if s[0] == c then 0 else 1 + IndexOf(s[1..], c)
  }

  /** `String.Join(sep, parts)`. */
  function Join(parts: seq<string>, sep: char): string
    decreases |parts|
  {
    if |parts| == 0 then ""
    else if |parts| == 1 then parts[0]
    else parts[0] + [sep] + Join(parts[1..], sep)
  }

  /** Joining two non-empty lists of pieces is joining their joins. */
  lemma {:induction false} JoinAppend(x: seq<string>, y: seq<string>, sep: char)
    requires |x| >= 1 && |y| >= 1
    ensures Join(x + y, sep) == Join(x, sep) + [sep] + Join(y, sep)
    decreases |x|
  {
    var xy := x + y;
    assert xy[0] == x[0];
    assert xy[1..] == x[1..] + y;
    if |x| > 1 {
      JoinAppend(x[1..], y, sep);
    }
  }

  /** `s.Split(sep)` with no options: the maximal pieces between separators, empty pieces included. */
  function SplitOn(s: string, sep: char): (parts: seq<string>)
    ensures |parts| >= 1
    ensures forall p <- parts :: sep !in p
    ensures Join(parts, sep) == s
    decreases |s|
  {
    if sep !in s then [s]
    else
      var i := IndexOf(s, sep);
      var rest := SplitOn(s[i + 1..], sep);
      assert ([s[..i]] + rest)[1..] == rest;
      assert s == s[..i] + [sep] + s[i + 1..];
      [s[..i]] + rest
  }

  /** A separator-free first piece is split off at the first separator. */
  lemma SplitAtFirst(p: string, rest: string, sep: char)
    requires sep !in p
    ensures SplitOn(p + [sep] + rest, sep) == [p] + SplitOn(rest, sep)
  {
    var s := p + [sep] + rest;
    assert s[|p|] == sep;
    assert forall k :: 0 <= k < |p| ==> s[k] == p[k];
    assert IndexOf(s, sep) == |p|;
    assert s[..|p|] == p;
    assert s[|p| + 1..] == rest;
  }

  /** Splitting a join of separator-free pieces gives the pieces back. */
  lemma {:induction false} SplitOnJoin(parts: seq<string>, sep: char)
    requires |parts| >= 1
    requires forall p <- parts :: sep !in p
    ensures SplitOn(Join(parts, sep), sep) == parts
    decreases |parts|
  {
    if |parts| > 1 {
      assert parts[0] in parts;
      assert forall p <- parts[1..] :: p in parts;
      SplitAtFirst(parts[0], Join(parts[1..], sep), sep);
      SplitOnJoin(parts[1..], sep);
      assert parts == [parts[0]] + parts[1..];
    }
  }

  // ---- Lines ----

  predicate IsLineBreak(c: char) {
    c == '\n' || c == '\r'
  }

  predicate HasNoBreak(s: string) {
    forall i :: 0 <= i < |s| ==> !IsLineBreak(s[i])
  }

  /** Index of the first line-break character of `t`, or `|t|` if there is none. */
  function LineEnd(t: string): (i: nat)
    ensures i <= |t|
    ensures HasNoBreak(t[..i])
    ensures i < |t| ==> IsLineBreak(t[i])
  {
    if |t| == 0 || IsLineBreak(t[0]) then 0
    else
      var i := 1 + LineEnd(t[1..]);
      assert t[..i] == [t[0]] + t[1..][..i - 1];
      i
  }

  /** `File.ReadLines` over the text of a file: lines end at "\r\n", "\r" or "\n"; a final
      line is produced only when text follows the last terminator. */
  function ReadLines(t: string): (lines: seq<string>)
    ensures forall l <- lines :: HasNoBreak(l)
    decreases |t|
  {
    if |t| == 0 then []
    else
      var i := LineEnd(t);
      if i == |t| then [t]
      else
        var next := if t[i] == '\r' && i + 1 < |t| && t[i + 1] == '\n' then i + 2 else i + 1;
        [t[..i]] + ReadLines(t[next..])
  }

  /** The text produced by one `WriteLine` per element, the newline being "\n". */
  function Unlines(lines: seq<string>): string
    decreases |lines|
  {
    if |lines| == 0 then "" else lines[0] + "\n" + Unlines(lines[1..])
  }

  lemma {:induction false} UnlinesAppend(a: seq<string>, b: seq<string>)
    ensures Unlines(a + b) == Unlines(a) + Unlines(b)
    decreases |a|
  {
    if |a| > 0 {
      assert (a + b)[0] == a[0];
      assert (a + b)[1..] == a[1..] + b;
      UnlinesAppend(a[1..], b);
      calc {
        Unlines(a + b);
        a[0] + "\n" + Unlines(a[1..] + b);
        a[0] + "\n" + (Unlines(a[1..]) + Unlines(b));
        (a[0] + "\n" + Unlines(a[1..])) + Unlines(b);
      }
    } else {
      assert a + b == b;
    }
  }

  /** Lines written with `WriteLine` are read back unchanged by `ReadLines`. */
  lemma {:induction false} ReadLinesUnlines(lines: seq<string>)
    requires forall l <- lines :: HasNoBreak(l)
    ensures ReadLines(Unlines(lines)) == lines
    decreases |lines|
  {
    if |lines| > 0 {
      var l := lines[0];
      var rest := Unlines(lines[1..]);
      var t := Unlines(lines);
      assert t == l + "\n" + rest;
      assert t[|l|] == '\n';
      assert t[..|l|] == l;
      var i := LineEnd(t);
      assert lines[0] in lines;
      assert i == |l|;
      assert t[i + 1..] == rest;
      ReadLinesUnlines(lines[1..]);
      assert lines == [l] + lines[1..];
    }
  }

  /** In text with "\n" terminators only that ends in one, the first line ends at a "\n". */
  lemma FirstLineOf(t: string)
    requires '\r' !in t
    requires |t| > 0 && t[|t| - 1] == '\n'
    ensures LineEnd(t) < |t| && t[LineEnd(t)] == '\n'
    ensures ReadLines(t) == [t[..LineEnd(t)]] + ReadLines(t[LineEnd(t) + 1..])
  {
    var i := LineEnd(t);
    assert t[..|t|] == t;
    assert IsLineBreak(t[..|t|][|t| - 1]);
    assert t[i] != '\r';
  }

  lemma UnlinesCons(line: string, rest: seq<string>)
    ensures Unlines([line] + rest) == line + "\n" + Unlines(rest)
  {
    assert ([line] + rest)[1..] == rest;
  }

  /** What follows a "\n" of text with "\n" terminators only that ends in one is such a text. */
  lemma RestAfterNewline(t: string, i: nat)
    requires '\r' !in t
    requires i < |t| && t[i] == '\n' && t[|t| - 1] == '\n'
    ensures t == t[..i] + "\n" + t[i + 1..]
    ensures '\r' !in t[i + 1..]
    ensures t[i + 1..] == [] || t[i + 1..][|t[i + 1..]| - 1] == '\n'
  {
    var u := t[i + 1..];
    forall k | 0 <= k < |u| ensures u[k] != '\r' {
      assert u[k] == t[i + 1 + k];
    }
  }

  /** Text with "\n" terminators only, ending in a terminator, is rebuilt exactly from its lines. */
  lemma {:induction false} UnlinesReadLines(t: string)
    requires '\r' !in t
    requires t == [] || t[|t| - 1] == '\n'
    ensures Unlines(ReadLines(t)) == t
    decreases |t|
  {
    if |t| > 0 {
      FirstLineOf(t);
      var i := LineEnd(t);
      RestAfterNewline(t, i);
      UnlinesReadLines(t[i + 1..]);
      UnlinesCons(t[..i], ReadLines(t[i + 1..]));
    }
  }

  /** `nl` is one line terminator as `File.ReadLines` reads it before `rest`: "\n", "\r\n",
      or a "\r" that is not followed by '\n'. */
  predicate IsTerminator(nl: string, rest: string) {
    || nl == "\n"
    || nl == "\r\n"
    || (nl == "\r" && (rest == [] || rest[0] != '\n'))
  }

  /** The first line of `t` ends where `l`, a line without breaks, is followed by a break. */
  lemma LineEndAfter(l: string, t: string)
    requires HasNoBreak(l) && |l| < |t| && t[..|l|] == l && IsLineBreak(t[|l|])
    ensures LineEnd(t) == |l|
  {
    assert forall j :: 0 <= j < |l| ==> t[j] == l[j];
  }

  /** A line followed by any terminator is read as that line, then the lines of the rest. */
  lemma ReadLinesCons(l: string, nl: string, rest: string)
    requires HasNoBreak(l) && IsTerminator(nl, rest)
    ensures ReadLines(l + nl + rest) == [l] + ReadLines(rest)
  {
    var t := l + nl + rest;
    assert t[..|l|] == l;
    assert t[|l|] == nl[0];
    LineEndAfter(l, t);
    assert t[|l| + |nl|..] == rest;
    if nl == "\r" && rest != [] {
      assert t[|l| + 1] == rest[0];
    }
    if nl == "\r\n" {
      assert t[|l| + 1] == '\n';
    }
  }

  /** A last line with no terminator is still read as a line. */
  lemma ReadLinesLastLine(l: string)
    requires HasNoBreak(l) && l != []
    ensures ReadLines(l) == [l]
  {
    assert l[..|l|] == l;
  }

  /** The lines that are not empty or white space only, in their original order. */
  function NonBlank(lines: seq<string>): (r: seq<string>)
    ensures forall l <- r :: !IsBlank(l) && l in lines
    decreases |lines|
  {
    if |lines| == 0 then []
    else
      var rest := NonBlank(lines[1..]);
      if IsBlank(lines[0]) then rest else [lines[0]] + rest
  }

  /** Each non-blank line is kept as many times as it occurs, and no blank line is kept. */
  lemma {:induction false} NonBlankCount(lines: seq<string>)
    ensures forall l :: multiset(NonBlank(lines))[l] == if IsBlank(l) then 0 else multiset(lines)[l]
    decreases |lines|
  {
    if |lines| > 0 {
      NonBlankCount(lines[1..]);
      assert lines == [lines[0]] + lines[1..];
    }
  }

  /** Dropping blank lines commutes with concatenation, so the kept lines stay in order. */
  lemma {:induction false} NonBlankAppend(a: seq<string>, b: seq<string>)
    ensures NonBlank(a + b) == NonBlank(a) + NonBlank(b)
    decreases |a|
  {
    if |a| > 0 {
      var ab := a + b;
      assert ab[0] == a[0];
      assert ab[1..] == a[1..] + b;
      NonBlankAppend(a[1..], b);
      var head := if IsBlank(a[0]) then [] else [a[0]];
      assert NonBlank(ab) == head + (NonBlank(a[1..]) + NonBlank(b));
      assert NonBlank(a) == head + NonBlank(a[1..]);
    } else {
      assert a + b == b;
    }
  }
}
