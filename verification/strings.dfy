/** Text primitives with the meaning the Python string methods used by the
    generator give them: `str.strip()`, `str.splitlines()`, `str.split(c)`,
    `sep.join(parts)` and `str.upper()`. Strings are sequences of Unicode
    scalar values, as Python's `str` is. */
module Strings {

  /** Python's `str.isspace` on one character: the ASCII whitespace
      (tab, line feed, vertical tab, form feed, carriage return, the four
      information separators 0x1C-0x1F and space) and the Unicode spaces. */
  predicate IsSpace(c: char) {
    || c == ' '
    || ('\t' <= c <= '\r')
    || ('\U{1C}' <= c <= '\U{1F}')
    || c == '\U{85}' || c == '\U{A0}' || c == '\U{1680}'
    || ('\U{2000}' <= c <= '\U{200A}')
    || c == '\U{2028}' || c == '\U{2029}'
    || c == '\U{202F}' || c == '\U{205F}' || c == '\U{3000}'
  }

  /** The line boundaries `str.splitlines` recognises (a "\r\n" pair is one
      boundary; see `SplitLines`). */
  predicate IsLineBreak(c: char) {
    || ('\n' <= c <= '\r')
    || ('\U{1C}' <= c <= '\U{1E}')
    || c == '\U{85}' || c == '\U{2028}' || c == '\U{2029}'
  }

  predicate AllSpace(s: string) {
    forall i :: 0 <= i < |s| ==> IsSpace(s[i])
  }

  predicate NoLineBreak(s: string) {
    forall i :: 0 <= i < |s| ==> !IsLineBreak(s[i])
  }

  /** `s` begins and ends with a non-space character (or is empty). */
  predicate Trimmed(s: string) {
    s == [] || (!IsSpace(s[0]) && !IsSpace(s[|s| - 1]))
  }

  predicate EndsWith(s: string, suffix: string) {
    |suffix| <= |s| && s[|s| - |suffix|..] == suffix
  }

  /** `frag` occurs in `s` starting at position `i`. */
  predicate OccursAt(s: string, frag: string, i: int) {
    0 <= i && i + |frag| <= |s| && s[i..i + |frag|] == frag
  }

  /** `frag` occurs somewhere in `s` as a contiguous piece. */
  ghost predicate Contains(s: string, frag: string) {
    exists i :: OccursAt(s, frag, i)
  }

  // ---------------------------------------------------------------------
  // strip

  /** `s[i..j]` is what is left of `s` once whitespace-only margins are cut
      off, and it neither starts nor ends with whitespace. */
  predicate StripsTo(s: string, i: int, j: int) {
    && 0 <= i <= j <= |s|
    && (forall k :: 0 <= k < i ==> IsSpace(s[k]))
    && (forall k :: j <= k < |s| ==> IsSpace(s[k]))
    && (i < j ==> !IsSpace(s[i]) && !IsSpace(s[j - 1]))
  }

  /** Number of whitespace characters `s` starts with. */
  function LeadingSpace(s: string): (i: nat)
    ensures i <= |s|
    ensures forall k :: 0 <= k < i ==> IsSpace(s[k])
    ensures i < |s| ==> !IsSpace(s[i])
  {
    if s != [] && IsSpace(s[0]) then 1 + LeadingSpace(s[1..]) else 0
  }

  /** End of `s` once trailing whitespace is cut off, never going below `lo`. */
  function TrailingStart(s: string, lo: nat): (j: nat)
    requires lo <= |s|
    ensures lo <= j <= |s|
    ensures forall k :: j <= k < |s| ==> IsSpace(s[k])
    ensures lo < j ==> !IsSpace(s[j - 1])
  {
    if lo < |s| && IsSpace(s[|s| - 1]) then TrailingStart(s[..|s| - 1], lo) else |s|
  }

  /** Python's `str.strip()` with no argument. */
  function Strip(s: string): (r: string)
    ensures |r| <= |s|
    ensures Trimmed(r)
  {
    var i := LeadingSpace(s);
    s[i..TrailingStart(s, i)]
  }

  /** What `Strip` keeps is the piece of `s` between whitespace-only
      margins: the margins it cuts off, as indices. */
  lemma StripBounds(s: string) returns (i: int, j: int)
    ensures StripsTo(s, i, j) && Strip(s) == s[i..j]
  {
    i := LeadingSpace(s);
    j := TrailingStart(s, i);
  }

  /** There is exactly one way to cut whitespace margins down to a piece
      with no whitespace at its ends. */
  lemma StripsToUnique(s: string, i1: int, j1: int, i2: int, j2: int)
    requires StripsTo(s, i1, j1) && StripsTo(s, i2, j2)
    ensures s[i1..j1] == s[i2..j2]
  {
    if i1 < j1 && i2 < j2 {
      assert i1 == i2 && j1 == j2;
    } else {
      assert i1 == j1 && i2 == j2;
    }
  }

  /** Any piece with whitespace-only margins and no whitespace at its ends
      is what `Strip` returns. */
  lemma StripIs(s: string, i: int, j: int)
    requires StripsTo(s, i, j)
    ensures Strip(s) == s[i..j]
  {
    var i', j' := StripBounds(s);
    StripsToUnique(s, i, j, i', j');
  }

  /** Stripping a text framed by whitespace gives back the frame's content. */
  lemma StripFramed(pre: string, mid: string, post: string)
    requires AllSpace(pre) && AllSpace(post) && Trimmed(mid)
    ensures Strip(pre + mid + post) == mid
  {
    var s := pre + mid + post;
    assert s[|pre|..|pre| + |mid|] == mid;
    assert StripsTo(s, |pre|, |pre| + |mid|);
    StripIs(s, |pre|, |pre| + |mid|);
  }

  lemma StripsToShift(w1: string, s: string, w2: string, i: int, j: int)
    requires AllSpace(w1) && AllSpace(w2) && StripsTo(s, i, j)
    ensures StripsTo(w1 + s + w2, |w1| + i, |w1| + j)
    ensures (w1 + s + w2)[|w1| + i..|w1| + j] == s[i..j]
  {
    var t := w1 + s + w2;
    forall k | 0 <= k < |w1| + i
      ensures IsSpace(t[k])
    {
      if k < |w1| { assert t[k] == w1[k]; } else { assert t[k] == s[k - |w1|]; }
    }
    forall k | |w1| + j <= k < |t|
      ensures IsSpace(t[k])
    {
      if k < |w1| + |s| { assert t[k] == s[k - |w1|]; } else { assert t[k] == w2[k - |w1| - |s|]; }
    }
    if i < j {
      assert t[|w1| + i] == s[i] && t[|w1| + j - 1] == s[j - 1];
    }
    assert t[|w1| + i..|w1| + j] == s[i..j];
  }

  /** Two texts whose margins cut down to the same piece strip alike. */
  lemma StripAgree(t: string, a: int, b: int, s: string, i: int, j: int)
    requires StripsTo(t, a, b) && StripsTo(s, i, j) && t[a..b] == s[i..j]
    ensures Strip(t) == Strip(s)
  {
    StripIs(t, a, b);
    StripIs(s, i, j);
  }

  /** A text with no whitespace at its ends is its own stripped form. */
  lemma StripTrimmed(s: string)
    requires Trimmed(s)
    ensures Strip(s) == s
  {
    assert s[0..|s|] == s;
    assert StripsTo(s, 0, |s|);
    StripIs(s, 0, |s|);
  }

  /** Whitespace added around a text does not change what `Strip` keeps. */
  lemma StripIgnoresMargins(w1: string, s: string, w2: string)
    requires AllSpace(w1) && AllSpace(w2)
    ensures Strip(w1 + s + w2) == Strip(s)
  {
    var i, j := StripBounds(s);
    StripsToShift(w1, s, w2, i, j);
    StripAgree(w1 + s + w2, |w1| + i, |w1| + j, s, i, j);
  }

  lemma StripIdempotent(s: string)
    ensures Strip(Strip(s)) == Strip(s)
  {
    var r := Strip(s);
    assert r[0..|r|] == r;
    assert StripsTo(r, 0, |r|);
    StripIs(r, 0, |r|);
  }

  // ---------------------------------------------------------------------
  // upper

  /** No ASCII lower-case letter occurs in `s`. */
  predicate NoLowerAscii(s: string) {
    forall i :: 0 <= i < |s| ==> !('a' <= s[i] <= 'z')
  }

  /** Upper-casing of one character, for the ASCII letters: a lower-case
      letter becomes the capital 32 code points below it, and every other
      character (capitals, digits, `_`, spaces) is left as it is. */
  function UpperChar(c: char): (u: char)
    ensures !('a' <= u <= 'z')
    ensures IsSpace(u) <==> IsSpace(c)
    ensures !('a' <= c <= 'z') ==> u == c
    ensures 'a' <= c <= 'z' ==> 'A' <= u <= 'Z' && u as int + 32 == c as int
  {
    if 'a' <= c <= 'z' then (c as int - 'a' as int + 'A' as int) as char else c
  }

  /** `str.upper()`, restricted to ASCII letters. */
  function Upper(s: string): (r: string)
    ensures |r| == |s|
    ensures forall i :: 0 <= i < |s| ==> r[i] == UpperChar(s[i])
  {
    if s == [] then [] else [UpperChar(s[0])] + Upper(s[1..])
  }

  lemma UpperKeepsTrimmed(s: string)
    requires Trimmed(s)
    ensures Trimmed(Upper(s))
  {
  }

  /** A text with no ASCII lower-case letter is its own upper-case form,
      so a label such as "STRING" or "TIMESTAMP" passes through unchanged. */
  lemma UpperKeepsUpper(s: string)
    requires NoLowerAscii(s)
    ensures Upper(s) == s
  {
    assert forall i :: 0 <= i < |s| ==> Upper(s)[i] == s[i];
  }

  lemma UpperIdempotent(s: string)
    ensures Upper(Upper(s)) == Upper(s)
  {
  }

  // ---------------------------------------------------------------------
  // join and split on one character

  /** Python's `sep.join(parts)`. */
  function Join(parts: seq<string>, sep: string): (r: string)
    ensures parts == [] ==> r == []
    ensures |parts| == 1 ==> r == parts[0]
  {
    if |parts| == 0 then []
    else if |parts| == 1 then parts[0]
    else parts[0] + sep + Join(parts[1..], sep)
  }

  lemma JoinCons(first: string, rest: seq<string>, sep: string)
    requires rest != []
    ensures Join([first] + rest, sep) == first + sep + Join(rest, sep)
  {
    assert ([first] + rest)[1..] == rest;
  }

  /** Extending the first piece extends the join at the front. */
  lemma JoinExtendFirst(x: char, parts: seq<string>, sep: string)
    requires parts != []
    ensures Join([[x] + parts[0]] + parts[1..], sep) == [x] + Join(parts, sep)
  {
    var ext := [[x] + parts[0]] + parts[1..];
    if |parts| > 1 {
      assert ext[1..] == parts[1..];
    }
  }

  /** Pieces free of `c` stay free of it when a character other than `c`
      is put in front of the first one. */
  lemma ExtendFirstAvoids(x: char, parts: seq<string>, c: char)
    requires parts != [] && x != c
    requires forall k :: 0 <= k < |parts| ==> c !in parts[k]
    ensures forall k :: 0 <= k < |parts| ==> c !in ([[x] + parts[0]] + parts[1..])[k]
  {
    var ext := [[x] + parts[0]] + parts[1..];
    forall k | 0 <= k < |ext|
      ensures c !in ext[k]
    {
      if k == 0 {
        assert ext[0] == [x] + parts[0];
      } else {
        assert ext[k] == parts[k];
      }
    }
  }

  /** Occurrences add up over a concatenation. */
  lemma {:induction false} CountAppend(a: string, b: string, c: char)
    ensures Count(a + b, c) == Count(a, c) + Count(b, c)
  {
    if a == [] {
      assert a + b == b;
    } else {
      assert (a + b)[1..] == a[1..] + b;
      CountAppend(a[1..], b, c);
    }
  }

  function Count(s: string, c: char): (n: nat)
    ensures n <= |s|
    ensures n == 0 <==> c !in s
  {
    if s == [] then 0
    else (if s[0] == c then 1 else 0) + Count(s[1..], c)
  }

  /** Python's `s.split(c)` for a one-character separator: the pieces
      between the occurrences of `c`, one more than there are occurrences,
      which the separator joins back into `s`. */
  function SplitOn(s: string, c: char): (parts: seq<string>)
    ensures |parts| == Count(s, c) + 1
    ensures forall k :: 0 <= k < |parts| ==> c !in parts[k]
    ensures Join(parts, [c]) == s
  {
    if s == [] then [[]]
    else
      var rest := SplitOn(s[1..], c);
      assert s == [s[0]] + s[1..];
      if s[0] == c then
        JoinCons([], rest, [c]);
        [[]] + rest
      else
        ExtendFirstAvoids(s[0], rest, c);
        JoinExtendFirst(s[0], rest, [c]);
        [[s[0]] + rest[0]] + rest[1..]
  }

  lemma {:induction false} SplitOnNoSeparator(s: string, c: char)
    requires c !in s
    ensures SplitOn(s, c) == [s]
  {
    if s != [] {
      SplitOnNoSeparator(s[1..], c);
      assert [s[0]] + s[1..] == s;
    }
  }

  lemma {:induction false} SplitOnFirst(p: string, c: char, t: string)
    requires c !in p
    ensures SplitOn(p + [c] + t, c) == [p] + SplitOn(t, c)
  {
    if p == [] {
      assert ([] + [c] + t)[1..] == t;
    } else {
      var s := p + [c] + t;
      assert s[1..] == p[1..] + [c] + t;
      SplitOnFirst(p[1..], c, t);
      var rest := SplitOn(s[1..], c);
      assert rest[0] == p[1..] && rest[1..] == SplitOn(t, c);
      assert [s[0]] + rest[0] == p;
    }
  }

  /** The converse round trip: splitting what `Join` produced, from pieces
      free of the separator, returns those pieces. */
  lemma {:induction false} JoinThenSplit(parts: seq<string>, c: char)
    requires parts != []
    requires forall k :: 0 <= k < |parts| ==> c !in parts[k]
    ensures SplitOn(Join(parts, [c]), c) == parts
  {
    if |parts| == 1 {
      SplitOnNoSeparator(parts[0], c);
    } else {
      JoinThenSplit(parts[1..], c);
      SplitOnFirst(parts[0], c, Join(parts[1..], [c]));
      assert [parts[0]] + parts[1..] == parts;
    }
  }

  /** `Join` over a concatenation of two non-empty lists puts one separator
      between the two joined halves. */
  lemma {:induction false} JoinAppend(a: seq<string>, b: seq<string>, sep: string)
    requires a != [] && b != []
    ensures Join(a + b, sep) == Join(a, sep) + sep + Join(b, sep)
  {
    if |a| == 1 {
      assert (a + b)[1..] == b;
    } else {
      assert (a + b)[1..] == a[1..] + b;
      JoinAppend(a[1..], b, sep);
    }
  }

  function TotalLength(parts: seq<string>): nat {
    if parts == [] then 0 else |parts[0]| + TotalLength(parts[1..])
  }

  /** A join of N pieces is as long as the pieces plus N - 1 separators. */
  lemma {:induction false} JoinLength(parts: seq<string>, sep: string)
    requires parts != []
    ensures |Join(parts, sep)| == TotalLength(parts) + (|parts| - 1) * |sep|
  {
    if |parts| > 1 {
      JoinLength(parts[1..], sep);
    }
  }

  /** A join of non-empty pieces is empty exactly when there are no pieces. */
  lemma JoinEmpty(parts: seq<string>, sep: string)
    requires forall k :: 0 <= k < |parts| ==> parts[k] != []
    ensures Join(parts, sep) == [] <==> parts == []
  {
  }

  // ---------------------------------------------------------------------
  // splitlines

  /** Index of the first line boundary in `s`, or `|s|` when there is none. */
  function FirstBreak(s: string): (i: nat)
    ensures i <= |s|
    ensures NoLineBreak(s[..i])
    ensures i < |s| ==> IsLineBreak(s[i])
  {
    if s == [] then 0
    else if IsLineBreak(s[0]) then 0
    else
      var i := 1 + FirstBreak(s[1..]);
      assert s[..i] == [s[0]] + s[1..][..i - 1];
      i
  }

  /** How many characters the boundary at `i` takes: two for "\r\n", one
      for any other boundary, none at the end of the text. */
  function BoundaryWidth(s: string, i: nat): nat
    requires i <= |s|
  {
    if i == |s| then 0
    else if s[i] == '\r' && i + 1 < |s| && s[i + 1] == '\n' then 2
    else 1
  }

  /** Python's `str.splitlines()`: the lines between boundaries, without
      the boundaries and without an empty line after a final boundary. */
  function SplitLines(s: string): (lines: seq<string>)
    ensures |lines| <= |s|
    ensures forall k :: 0 <= k < |lines| ==> NoLineBreak(lines[k])
    decreases |s|
  {
    if s == [] then []
    else
      var i := FirstBreak(s);
      [s[..i]] + SplitLines(s[i + BoundaryWidth(s, i)..])
  }

  /** Every line boundary in `s` is a "\n". */
  predicate OnlyNewlines(s: string)
  {
    forall k :: 0 <= k < |s| ==> IsLineBreak(s[k]) ==> s[k] == '\n'
  }

  /** Text that ends before a "\n" is cut there into its first line and
      the rest. */
  lemma SplitLinesAtNewline(s: string, i: nat)
    requires i == FirstBreak(s) && i < |s| && s[i] == '\n'
    ensures SplitLines(s) == [s[..i]] + SplitLines(s[i + 1..])
  {
    var w := BoundaryWidth(s, i);
    assert w == 1 by {
      assert s[i] != '\r';
    }
  }

  lemma OnlyNewlinesSuffix(s: string, i: nat)
    requires OnlyNewlines(s) && i <= |s|
    ensures OnlyNewlines(s[i..])
  {
    assert forall k :: 0 <= k < |s[i..]| ==> s[i..][k] == s[i + k];
  }

  lemma CutAt(s: string, i: nat)
    requires i < |s|
    ensures s == s[..i] + [s[i]] + s[i + 1..]
  {
  }

  /** Text whose only line boundary is "\n" and that does not end in one
      is split into lines that "\n" joins back together. */
  lemma {:induction false} SplitLinesThenJoin(s: string)
    requires OnlyNewlines(s)
    requires s != [] && s[|s| - 1] != '\n'
    ensures Join(SplitLines(s), "\n") == s
    decreases |s|
  {
    var i := FirstBreak(s);
    if i < |s| {
      var rest := s[i + 1..];
      SplitLinesAtNewline(s, i);
      OnlyNewlinesSuffix(s, i + 1);
      SplitLinesThenJoin(rest);
      JoinCons(s[..i], SplitLines(rest), "\n");
      CutAt(s, i);
    } else {
      SplitLinesSingle(s);
    }
  }

  /** A non-empty text with no line boundary is a single line. */
  lemma SplitLinesSingle(s: string)
    requires s != [] && NoLineBreak(s)
    ensures SplitLines(s) == [s]
  {
    assert FirstBreak(s) == |s|;
    assert s[..|s|] == s;
  }

  lemma {:induction false} FirstBreakAt(p: string, c: char, t: string)
    requires NoLineBreak(p) && IsLineBreak(c)
    ensures FirstBreak(p + [c] + t) == |p|
  {
    if p != [] {
      assert (p + [c] + t)[1..] == p[1..] + [c] + t;
      FirstBreakAt(p[1..], c, t);
    }
  }

  /** Lines free of boundaries, joined by "\n", split back into the same
      lines, provided the last one is not empty. */
  lemma {:induction false} JoinThenSplitLines(lines: seq<string>)
    requires lines != [] && lines[|lines| - 1] != []
    requires forall k :: 0 <= k < |lines| ==> NoLineBreak(lines[k])
    ensures SplitLines(Join(lines, "\n")) == lines
  {
    if |lines| == 1 {
      SplitLinesSingle(lines[0]);
    } else {
      var rest := lines[1..];
      LinesTail(lines);
      JoinThenSplitLines(rest);
      SplitLinesCons(lines[0], Join(rest, "\n"));
      assert [lines[0]] + rest == lines;
    }
  }

  lemma LinesTail(lines: seq<string>)
    requires |lines| > 1 && lines[|lines| - 1] != []
    requires forall k :: 0 <= k < |lines| ==> NoLineBreak(lines[k])
    ensures lines[1..][|lines[1..]| - 1] != []
    ensures forall k :: 0 <= k < |lines[1..]| ==> NoLineBreak(lines[1..][k])
  {
    assert forall k :: 0 <= k < |lines[1..]| ==> lines[1..][k] == lines[k + 1];
  }

  /** A first line free of boundaries, then "\n", splits off first. */
  lemma SplitLinesCons(p: string, t: string)
    requires NoLineBreak(p)
    ensures SplitLines(p + "\n" + t) == [p] + SplitLines(t)
  {
    var s := p + "\n" + t;
    FirstBreakAt(p, '\n', t);
    SplitLinesAtNewline(s, |p|);
    assert s[..|p|] == p;
    assert s[|p| + 1..] == t;
  }

  // ---------------------------------------------------------------------
  // substring facts

  lemma ContainsInfix(a: string, frag: string, b: string)
    ensures Contains(a + frag + b, frag)
  {
    assert OccursAt(a + frag + b, frag, |a|);
  }

  lemma ContainsAfter(a: string, s: string, frag: string)
    requires Contains(s, frag)
    ensures Contains(a + s, frag)
  {
    var i :| OccursAt(s, frag, i);
    assert (a + s)[|a| + i..|a| + i + |frag|] == s[i..i + |frag|];
    assert OccursAt(a + s, frag, |a| + i);
  }

  lemma ContainsBefore(s: string, b: string, frag: string)
    requires Contains(s, frag)
    ensures Contains(s + b, frag)
  {
    var i :| OccursAt(s, frag, i);
    assert (s + b)[i..i + |frag|] == s[i..i + |frag|];
    assert OccursAt(s + b, frag, i);
  }

  lemma ContainsTransitive(s: string, mid: string, frag: string)
    requires Contains(s, mid) && Contains(mid, frag)
    ensures Contains(s, frag)
  {
    var i :| OccursAt(s, mid, i);
    var j :| OccursAt(mid, frag, j);
    assert s[i..i + |mid|] == mid;
    forall t | 0 <= t < |frag|
      ensures s[i + j + t] == frag[t]
    {
      assert s[i + j + t] == s[i..i + |mid|][j + t] == mid[j + t];
      assert mid[j + t] == mid[j..j + |frag|][t];
    }
    assert s[i + j..i + j + |frag|] == frag;
    assert OccursAt(s, frag, i + j);
  }

  /** `Join` keeps every part as a contiguous piece of its result. */
  lemma {:induction false} JoinContainsPart(parts: seq<string>, sep: string, k: nat)
    requires k < |parts|
    ensures Contains(Join(parts, sep), parts[k])
  {
    if |parts| == 1 {
      ContainsInfix([], parts[0], []);
      assert [] + parts[0] + [] == parts[0];
    } else if k == 0 {
      ContainsInfix([], parts[0], sep + Join(parts[1..], sep));
      assert [] + parts[0] + (sep + Join(parts[1..], sep)) == Join(parts, sep);
    } else {
      assert parts[1..][k - 1] == parts[k];
      JoinContainsPart(parts[1..], sep, k - 1);
      ContainsAfter(parts[0] + sep, Join(parts[1..], sep), parts[k]);
    }
  }

  /** Every part occurs in the join. */
  lemma JoinContainsEvery(parts: seq<string>, sep: string)
    ensures forall k :: 0 <= k < |parts| ==> Contains(Join(parts, sep), parts[k])
  {
    forall k | 0 <= k < |parts|
      ensures Contains(Join(parts, sep), parts[k])
    {
      JoinContainsPart(parts, sep, k);
    }
  }

  /** A join of parts that all share a prefix and a suffix has that prefix
      and that suffix. */
  lemma {:induction false} JoinStartsAndEnds(parts: seq<string>, sep: string, pre: string, suf: string)
    requires parts != []
    requires forall k :: 0 <= k < |parts| ==> pre <= parts[k] && EndsWith(parts[k], suf)
    ensures pre <= Join(parts, sep) && EndsWith(Join(parts, sep), suf)
  {
    if |parts| > 1 {
      assert forall k :: 0 <= k < |parts[1..]| ==> parts[1..][k] == parts[k + 1];
      JoinStartsAndEnds(parts[1..], sep, pre, suf);
      FramedConcat(parts[0], sep, Join(parts[1..], sep), pre, suf);
    }
  }

  /** A concatenation starts like its first piece and ends like its last. */
  lemma FramedConcat(a: string, b: string, c: string, pre: string, suf: string)
    requires pre <= a && EndsWith(c, suf)
    ensures pre <= a + b + c && EndsWith(a + b + c, suf)
  {
    var j := a + b + c;
    assert j[..|pre|] == a[..|pre|];
    assert j[|j| - |suf|..] == c[|c| - |suf|..];
  }
}
