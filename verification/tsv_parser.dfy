/** The column-spec parser (`parse_tsv`, app2.py lines 35-44): tab-separated
    text pasted from a spreadsheet becomes an ordered list of
    (name, declared type) records. */
module TsvParser {
  import opened Wrappers
  import opened Strings
  import opened Columns

  /** One line of the paste: a record exactly when splitting it on the tab
      character gives two fields; both fields are trimmed and the type is
      upper-cased. */
  function ParseLine(line: string): (r: Option<ColumnSpec>)
    ensures r.Some? <==> Count(line, '\t') == 1
    ensures r.Some? ==> Trimmed(r.value.name) && Trimmed(r.value.dataType)
    ensures r.Some? ==> NoLowerAscii(r.value.dataType)
  {
    if '\t' in line then
      var parts := SplitOn(line, '\t');
      if |parts| == 2 then
        UpperKeepsTrimmed(Strip(parts[1]));
        Some(ColumnSpec(Strip(parts[0]), Upper(Strip(parts[1]))))
      else None
    else None
  }

  /** The fields of a kept line are the text on either side of its one
      tab: the name is the trimmed left side, the type the trimmed and
      upper-cased right side. */
  lemma ParseLineFields(line: string, k: nat)
    requires k < |line| && line[k] == '\t' && Count(line, '\t') == 1
    ensures ParseLine(line) == Some(ColumnSpec(Strip(line[..k]), Upper(Strip(line[k + 1..]))))
  {
    var parts := SplitOn(line, '\t');
    assert Join(parts, "\t") == parts[0] + "\t" + Join(parts[1..], "\t");
    assert parts[1..] == [parts[1]];
    assert line == parts[0] + "\t" + parts[1];
    var p := |parts[0]|;
    assert line[p] == '\t';
    assert forall i :: 0 <= i < p ==> line[i] == parts[0][i];
    assert forall i :: p < i < |line| ==> line[i] == parts[1][i - p - 1];
    assert k == p;
    assert line[..k] == parts[0];
    assert line[k + 1..] == parts[1];
  }

  /** The records one line contributes: one or none. */
  function LineRecords(line: string): (r: seq<ColumnSpec>)
    ensures |r| == if Count(line, '\t') == 1 then 1 else 0
    ensures forall i :: 0 <= i < |r| ==> r[i] == ParseLine(line).value
  {
    var p := ParseLine(line);
    if p.Some? then [p.value] else []
  }

  /** The records of a list of lines, in line order. */
  function ParseLines(lines: seq<string>): (r: seq<ColumnSpec>)
    ensures |r| <= |lines|
    ensures forall i :: 0 <= i < |r| ==>
              Trimmed(r[i].name) && Trimmed(r[i].dataType) && NoLowerAscii(r[i].dataType)
  {
    if lines == [] then []
    else
      LineRecords(lines[0]) + ParseLines(lines[1..])
  }

  /** Parsing distributes over concatenation of line lists: each line
      contributes on its own, in place, so the output keeps input order. */
  lemma {:induction false} ParseLinesAppend(a: seq<string>, b: seq<string>)
    ensures ParseLines(a + b) == ParseLines(a) + ParseLines(b)
  {
    if a != [] {
      assert (a + b)[0] == a[0];
      assert (a + b)[1..] == a[1..] + b;
      ParseLinesAppend(a[1..], b);
      assert ParseLines(a + b) == LineRecords(a[0]) + ParseLines(a[1..] + b);
    } else {
      assert a + b == b;
    }
  }

  /** A single line yields one record or none, by its tab count. */
  lemma ParseLinesSingle(line: string)
    ensures Count(line, '\t') == 1 ==> ParseLines([line]) == [ParseLine(line).value]
    ensures Count(line, '\t') != 1 ==> ParseLines([line]) == []
  {
    assert [line][1..] == [];
    assert ParseLines([line]) == LineRecords(line) + [];
  }

  /** `parse_tsv`: strip the whole text, split it into lines, parse each. */
  function ParseTsv(text: string): (r: seq<ColumnSpec>)
    ensures |r| <= |SplitLines(Strip(text))|
    ensures forall i :: 0 <= i < |r| ==>
              Trimmed(r[i].name) && Trimmed(r[i].dataType) && NoLowerAscii(r[i].dataType)
  {
    ParseLines(SplitLines(Strip(text)))
  }

  /** Whitespace around the whole paste is removed before the lines are
      split, so a tab leading the first line or trailing the last line does
      not count towards that line's fields. */
  lemma ParseTsvIgnoresMargins(w1: string, text: string, w2: string)
    requires AllSpace(w1) && AllSpace(w2)
    ensures ParseTsv(w1 + text + w2) == ParseTsv(text)
  {
    StripIgnoresMargins(w1, text, w2);
  }

  /** A text of "\n"-separated lines, with nothing to strip around it,
      yields the records of those lines in order. */
  lemma ParseTsvLines(lines: seq<string>)
    requires lines != [] && lines[|lines| - 1] != []
    requires forall k :: 0 <= k < |lines| ==> NoLineBreak(lines[k])
    requires Trimmed(Join(lines, "\n"))
    ensures ParseTsv(Join(lines, "\n")) == ParseLines(lines)
  {
    StripTrimmed(Join(lines, "\n"));
    JoinThenSplitLines(lines);
  }

  /** A one-line paste with a text that needs no stripping. */
  lemma ParseOneLine(text: string, k: nat)
    requires Trimmed(text) && text != [] && NoLineBreak(text)
    requires k < |text| && text[k] == '\t' && Count(text, '\t') == 1
    ensures ParseTsv(text) == [ColumnSpec(Strip(text[..k]), Upper(Strip(text[k + 1..])))]
  {
    StripTrimmed(text);
    SplitLinesSingle(text);
    ParseLinesSingle(text);
    ParseLineFields(text, k);
  }

  /** A one-line paste without exactly one tab (no tab, or a third
      field) yields nothing. */
  lemma ParseOneLineRejected(text: string)
    requires Trimmed(text) && text != [] && NoLineBreak(text)
    requires Count(text, '\t') != 1
    ensures ParseTsv(text) == []
  {
    StripTrimmed(text);
    SplitLinesSingle(text);
    ParseLinesSingle(text);
  }

  /** A `name<TAB>type` line of non-empty trimmed fields is trimmed. */
  lemma RecordLineTrimmed(n: string, t: string)
    requires n != [] && t != [] && Trimmed(n) && Trimmed(t)
    ensures Trimmed(n + "\t" + t)
  {
    var text := n + "\t" + t;
    assert text[0] == n[0];
    assert text[|text| - 1] == t[|t| - 1];
  }

  /** A `name<TAB>type` line of break-free fields is break-free. */
  lemma RecordLineNoBreak(n: string, t: string)
    requires NoLineBreak(n) && NoLineBreak(t)
    ensures NoLineBreak(n + "\t" + t)
  {
    var text := n + "\t" + t;
    forall i | 0 <= i < |text|
      ensures !IsLineBreak(text[i])
    {
      if i < |n| {
        assert text[i] == n[i];
      } else if i > |n| {
        assert text[i] == t[i - |n| - 1];
      }
    }
  }

  /** A `name<TAB>type` line of tab-free fields has exactly one tab, at
      `|n|`, with the name before it and the type after it. */
  lemma RecordLineTab(n: string, t: string)
    requires '\t' !in n && '\t' !in t
    ensures Count(n + "\t" + t, '\t') == 1
    ensures |n| < |n + "\t" + t| && (n + "\t" + t)[|n|] == '\t'
    ensures (n + "\t" + t)[..|n|] == n && (n + "\t" + t)[|n| + 1..] == t
  {
    CountAppend(n, "\t", '\t');
    CountAppend(n + "\t", t, '\t');
    assert Count("\t", '\t') == 1 by { assert "\t"[1..] == []; }
  }

  /** The parser inverts the spreadsheet's export of one record: a name and
      an upper-case type, each non-empty and trimmed, with no tab or line
      break, pasted as `name<TAB>type` parse back to exactly that record. */
  lemma ParseTsvRecord(n: string, t: string)
    requires n != [] && t != [] && Trimmed(n) && Trimmed(t)
    requires '\t' !in n && '\t' !in t && NoLineBreak(n) && NoLineBreak(t)
    requires NoLowerAscii(t)
    ensures ParseTsv(n + "\t" + t) == [ColumnSpec(n, t)]
  {
    var text := n + "\t" + t;
    RecordLineTrimmed(n, t);
    RecordLineNoBreak(n, t);
    RecordLineTab(n, t);
    ParseOneLine(text, |n|);
    StripTrimmed(n);
    StripTrimmed(t);
    UpperKeepsUpper(t);
  }
}
