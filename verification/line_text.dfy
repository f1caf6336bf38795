/** The Ruby String operations the extractor applies to each line of a template:
    `chomp`, `rstrip`, the indentation pattern `([ \t]+)?(.*)`, and `join("\n")`. */
module LineText {

  /** A character of the class `[ \t]` in the indentation pattern. */
  predicate IsIndentChar(ch: char) {
    ch == ' ' || ch == '\t'
  }

  /** A character that Ruby's `String#rstrip` removes from the end of a string:
      NUL, tab, line feed, vertical tab, form feed, carriage return or space. */
  predicate IsTrailingSpace(ch: char) {
    ch == '\0' || ch == '\t' || ch == '\n' || ch == '\U{B}' || ch == '\U{C}' || ch == '\r' || ch == ' '
  }

  /** `String#chomp` with the default separator: removes one trailing "\r\n", "\n" or "\r". */
  function Chomp(s: string): string {
    if |s| >= 2 && s[|s| - 2] == '\r' && s[|s| - 1] == '\n' then s[..|s| - 2]
    else if |s| >= 1 && (s[|s| - 1] == '\n' || s[|s| - 1] == '\r') then s[..|s| - 1]
    else s
  }

  /** `chomp` keeps a prefix and drops at most two characters, all of them line terminators:
      nothing when the string does not end in one, and two exactly for a final "\r\n". */
  lemma ChompRemovesTerminator(s: string)
    ensures var r := Chomp(s);
      && |r| <= |s| <= |r| + 2 && r == s[..|r|]
      && (forall i :: |r| <= i < |s| ==> s[i] == '\r' || s[i] == '\n')
      && (|r| == |s| <==> s == [] || (s[|s| - 1] != '\n' && s[|s| - 1] != '\r'))
      && (|r| + 2 == |s| <==> |s| >= 2 && s[|s| - 2] == '\r' && s[|s| - 1] == '\n')
  {
  }

  /** `String#rstrip`: drops trailing-space characters from the end while there are any. */
  function RStrip(s: string): string
    decreases |s|
  {
    if s != [] && IsTrailingSpace(s[|s| - 1]) then RStrip(s[..|s| - 1]) else s
  }

  /** `rstrip` keeps the longest prefix that does not end in a trailing-space character:
      everything it drops is trailing space. */
  lemma {:induction false} RStripKeepsPrefix(s: string)
    ensures var r := RStrip(s);
      && r <= s
      && (r == [] || !IsTrailingSpace(r[|r| - 1]))
      && (forall i :: |r| <= i < |s| ==> IsTrailingSpace(s[i]))
    decreases |s|
  {
    if s != [] && IsTrailingSpace(s[|s| - 1]) {
      var t := s[..|s| - 1];
      RStripKeepsPrefix(t);
      assert RStrip(t) <= t;
    }
  }

  /** Appending trailing-space characters does not change what `rstrip` keeps. */
  lemma {:induction false} RStripIgnoresTrailingSpace(s: string, t: string)
    requires forall i :: 0 <= i < |t| ==> IsTrailingSpace(t[i])
    ensures RStrip(s + t) == RStrip(s)
    decreases |t|
  {
    if t != [] {
      var u := s + t;
      assert IsTrailingSpace(u[|u| - 1]) by { assert u[|u| - 1] == t[|t| - 1]; }
      assert u[..|u| - 1] == s + t[..|t| - 1];
      RStripIgnoresTrailingSpace(s, t[..|t| - 1]);
      assert RStrip(u) == RStrip(s + t[..|t| - 1]);
    } else {
      assert s + t == s;
    }
  }

  /** `rstrip` after `chomp` is the same as `rstrip` alone: `chomp` only removes characters `rstrip` removes. */
  lemma RStripAfterChomp(s: string)
    ensures RStrip(Chomp(s)) == RStrip(s)
  {
    var r := Chomp(s);
    ChompRemovesTerminator(s);
    var t := s[|r|..];
    assert s == r + t;
    RStripIgnoresTrailingSpace(r, t);
  }

  /** Length of the longest run of spaces and tabs at the start of `s` (the greedy `[ \t]+`). */
  function IndentLength(s: string): (n: nat)
    ensures n <= |s|
    decreases |s|
  {
    if s != [] && IsIndentChar(s[0]) then 1 + IndentLength(s[1..]) else 0
  }

  /** The indentation run is maximal: spaces and tabs up to it, and none right after it. */
  lemma {:induction false} IndentLengthIsMaximal(s: string)
    ensures var n := IndentLength(s);
      && (forall i :: 0 <= i < n ==> IsIndentChar(s[i]))
      && (n == |s| || !IsIndentChar(s[n]))
    decreases |s|
  {
    if s != [] && IsIndentChar(s[0]) {
      IndentLengthIsMaximal(s[1..]);
    }
  }

  /** Position of the first line feed in `s`, or `|s|` when there is none: how far `.*` reaches. */
  function LineLength(s: string): (n: nat)
    ensures n <= |s|
    decreases |s|
  {
    if s == [] || s[0] == '\n' then 0 else 1 + LineLength(s[1..])
  }

  /** `.*` stops exactly at the first line feed: none before it, and one at it unless the string ends. */
  lemma {:induction false} LineLengthStopsAtLineFeed(s: string)
    ensures var n := LineLength(s);
      && (forall i :: 0 <= i < n ==> s[i] != '\n')
      && (n == |s| || s[n] == '\n')
    decreases |s|
  {
    if s != [] && s[0] != '\n' {
      LineLengthStopsAtLineFeed(s[1..]);
    }
  }

  /** A line split into its leading indentation and the rest. */
  datatype Indented = Indented(whitespace: string, content: string)

  /** `handle_line_whitespace`: match `([ \t]+)?(.*)` against the right-stripped line.
      An absent first group (Ruby's nil) is the empty string. */
  function HandleLineWhitespace(line: string): Indented {
    var s := RStrip(line);
    var n := IndentLength(s);
    Indented(s[..n], s[n..][..LineLength(s[n..])])
  }

  /** The two parts of `handle_line_whitespace`: the indentation is spaces and tabs only, the
      content does not start with one and holds no line feed, and a blank line gives two empty parts. */
  lemma HandleLineWhitespaceSplits(line: string)
    ensures var r := HandleLineWhitespace(line);
      && (forall i :: 0 <= i < |r.whitespace| ==> IsIndentChar(r.whitespace[i]))
      && (r.content == [] || !IsIndentChar(r.content[0]))
      && (forall i :: 0 <= i < |r.content| ==> r.content[i] != '\n')
      && ((forall i :: 0 <= i < |line| ==> IsTrailingSpace(line[i])) ==> r.whitespace == [] && r.content == [])
  {
    var s := RStrip(line);
    var n := IndentLength(s);
    RStripKeepsPrefix(line);
    IndentLengthIsMaximal(s);
    LineLengthStopsAtLineFeed(s[n..]);
  }

  /** Taking `n` characters, then `m` of what follows, is taking `n + m`. */
  lemma TakeTwice(s: string, n: nat, m: nat)
    requires n + m <= |s|
    ensures s[..n] + s[n..][..m] == s[..n + m]
  {
  }

  /** Skipping a stretch with no line feed adds its length to how far `.*` reaches. */
  lemma {:induction false} LineLengthSkips(s: string, n: nat)
    requires n <= |s|
    requires forall i :: 0 <= i < n ==> s[i] != '\n'
    ensures LineLength(s) == n + LineLength(s[n..])
    decreases n
  {
    if n > 0 {
      assert s[1..][n - 1..] == s[n..];
      LineLengthSkips(s[1..], n - 1);
    }
  }

  /** The indentation and the content together are the right-stripped line up to its first line
      feed (all of it when it holds none): `handle_line_whitespace` drops nothing else. */
  lemma HandleLineWhitespaceRejoins(line: string)
    ensures var r := HandleLineWhitespace(line);
      && r.whitespace + r.content == RStrip(line)[..LineLength(RStrip(line))]
      && ((forall i :: 0 <= i < |RStrip(line)| ==> RStrip(line)[i] != '\n') ==> r.whitespace + r.content == RStrip(line))
  {
    var s := RStrip(line);
    var n := IndentLength(s);
    var m := LineLength(s[n..]);
    IndentLengthIsMaximal(s);
    LineLengthSkips(s, n);
    TakeTwice(s, n, m);
    LineLengthStopsAtLineFeed(s[n..]);
    if m < |s[n..]| {
      assert s[n + m] == s[n..][m];
    } else {
      assert s[..n + m] == s;
    }
  }

  /** `Array#join(sep)`: the parts with `sep` between consecutive ones; no parts give "". */
  function Join(parts: seq<string>, sep: string): (r: string)
    ensures |parts| == 0 ==> r == ""
    ensures |parts| > 0 ==> parts[0] <= r
    decreases |parts|
  {
    if |parts| == 0 then ""
    else if |parts| == 1 then parts[0]
    else parts[0] + sep + Join(parts[1..], sep)
  }

  /** Splits `s` at every line feed, keeping empty fields: the inverse of joining with "\n". */
  function SplitLines(s: string): (r: seq<string>)
    ensures |r| >= 1
    ensures forall k :: 0 <= k < |r| ==> forall i :: 0 <= i < |r[k]| ==> r[k][i] != '\n'
    decreases |s|
  {
    var n := LineLength(s);
    LineLengthStopsAtLineFeed(s);
    if n == |s| then [s] else [s[..n]] + SplitLines(s[n + 1..])
  }

  /** Joining with "\n" loses nothing when no part holds a line feed: splitting gives the parts back. */
  lemma {:induction false} SplitJoin(parts: seq<string>)
    requires |parts| >= 1
    requires forall k :: 0 <= k < |parts| ==> forall i :: 0 <= i < |parts[k]| ==> parts[k][i] != '\n'
    ensures SplitLines(Join(parts, "\n")) == parts
    decreases |parts|
  {
    var p := parts[0];
    if |parts| == 1 {
      LineLengthStopsAtLineFeed(p);
    } else {
      var rest := Join(parts[1..], "\n");
      var s := p + "\n" + rest;
      var n := LineLength(s);
      LineLengthStopsAtLineFeed(s);
      assert s[|p|] == '\n';
      assert n == |p|;
      assert s[..n] == p;
      assert s[n + 1..] == rest;
      SplitJoin(parts[1..]);
      assert [p] + parts[1..] == parts;
    }
  }

  /** A string is its prefix up to position `n`, the character at `n`, and the rest. */
  lemma SplitAround(s: string, n: nat)
    requires n < |s|
    ensures s == s[..n] + [s[n]] + s[n + 1..]
  {
  }

  /** `Join` of two or more parts: the first, the separator, then the join of the rest. */
  lemma JoinCons(head: string, tail: seq<string>, sep: string)
    requires |tail| >= 1
    ensures Join([head] + tail, sep) == head + sep + Join(tail, sep)
  {
    assert ([head] + tail)[1..] == tail;
  }

  /** Splitting at line feeds and joining again with "\n" gives back the original text. */
  lemma {:induction false} JoinSplit(s: string)
    ensures Join(SplitLines(s), "\n") == s
    decreases |s|
  {
    var n := LineLength(s);
    if n < |s| {
      LineLengthStopsAtLineFeed(s);
      var head, rest := s[..n], s[n + 1..];
      var tail := SplitLines(rest);
      assert SplitLines(s) == [head] + tail;
      JoinSplit(rest);
      JoinCons(head, tail, "\n");
      SplitAround(s, n);
    }
  }
}
