/** The rows that the dashboard extracts from the two classification-report
    texts: each line is split on white space and its column count decides
    the row's shape. */
module Report {
  import opened Wrappers
  import opened Text

  /** A table row: a class (or average) line with its four figures, or the
      two-field summary row of the weather report. `value` is `None` where
      the code reads a second column that does not exist (`undefined`). */
  datatype ReportRow =
    | ClassRow(name: string, precision: string, recall: string, f1Score: string, support: string)
    | SummaryRow(name: string, value: Option<string>)

  function NonEmptyParts(parts: seq<string>): (r: seq<string>)
    ensures |r| <= |parts|
    ensures forall i | 0 <= i < |r| :: r[i] != []
  {
    if parts == [] then []
    else (if parts[0] == [] then [] else [parts[0]]) + NonEmptyParts(parts[1..])
  }

  /** `line.trim().split(/\s+/)`: the white-space separated words of the
      line, or a single empty column for a blank line. */
  function Columns(line: string): (cols: seq<string>)
    ensures |cols| >= 1
  {
    var t := Trim(line);
    if t == [] then [[]]
    else
      var parts := SplitBy(t, IsSpace);
      assert parts[0] != [] by {
        assert SplitBy(t, IsSpace) == [[t[0]] + SplitBy(t[1..], IsSpace)[0]] + SplitBy(t[1..], IsSpace)[1..];
      }
      NonEmptyParts(parts)
  }

  /** The row shape chosen by column count: five columns as they are, six
      columns with the first two joined by a space (a two-word label such as
      `macro avg`), anything else no row. */
  function ClassRowOf(cols: seq<string>): (r: Option<ReportRow>)
    ensures r.Some? <==> |cols| == 5 || |cols| == 6
    ensures r.Some? ==> r.value.ClassRow?
    ensures r.Some? ==> var n := |cols|;
      && r.value.precision == cols[n - 4] && r.value.recall == cols[n - 3]
      && r.value.f1Score == cols[n - 2] && r.value.support == cols[n - 1]
    ensures |cols| == 5 ==> r.value.name == cols[0]
    ensures |cols| == 6 ==> r.value.name == cols[0] + " " + cols[1]
  {
    if |cols| == 5 then Some(ClassRow(cols[0], cols[1], cols[2], cols[3], cols[4]))
    else if |cols| == 6 then Some(ClassRow(cols[0] + " " + cols[1], cols[2], cols[3], cols[4], cols[5]))
    else None
  }

  /** The present values of a sequence of optional values, in order. */
  function Somes<T>(xs: seq<Option<T>>): (r: seq<T>)
    ensures |r| <= |xs|
  {
    if xs == [] then [] else (if xs[0].Some? then [xs[0].value] else []) + Somes(xs[1..])
  }

  /** The weather report's row for line `index`: the line whose index is
      `lines.length - 1` gives the summary row, every other line its class row. */
  function WeatherRowAt(lines: seq<string>, index: nat): (r: Option<ReportRow>)
    requires index < |lines|
    ensures index == |lines| - 1 ==> r.Some? && r.value.SummaryRow?
    ensures index < |lines| - 1 ==> r == LineRow(lines[index])
  {
    var cols := Columns(lines[index]);
    if index == |lines| - 1 then Some(SummaryRow(cols[0], if |cols| > 1 then Some(cols[1]) else None))
    else ClassRowOf(cols)
  }

  /** Rows of the weather report: only `lines.slice(0, 11)` is examined. */
  function WeatherReportRows(lines: seq<string>): (rows: seq<ReportRow>)
    ensures |rows| <= |lines| && |rows| <= 11
  {
    var n := if |lines| < 11 then |lines| else 11;
    Somes(seq(n, i requires 0 <= i < n => WeatherRowAt(lines, i)))
  }

  /** The row of one line of the day-type report. */
  function LineRow(line: string): (r: Option<ReportRow>)
    ensures r.Some? <==> |Columns(line)| == 5 || |Columns(line)| == 6
    ensures r.Some? ==> r.value.ClassRow?
  {
    ClassRowOf(Columns(line))
  }

  /** Rows of the working/non-working day report: every line is examined. */
  function DayTypeReportRows(lines: seq<string>): (rows: seq<ReportRow>)
    ensures |rows| <= |lines|
  {
    Somes(MapLines(lines, LineRow))
  }

  /** `lines.forEach(...)`: one optional row per line, in order. */
  function MapLines(lines: seq<string>, rowOf: string -> Option<ReportRow>): (r: seq<Option<ReportRow>>)
    ensures |r| == |lines|
    ensures forall i | 0 <= i < |lines| :: r[i] == rowOf(lines[i])
  {
    if lines == [] then [] else [rowOf(lines[0])] + MapLines(lines[1..], rowOf)
  }

  /** `report.split('\n')`: the lines of the report, which joined again give
      back the report text. */
  function ReportLines(report: string): (lines: seq<string>)
    ensures |lines| >= 1
    ensures forall i | 0 <= i < |lines| :: '\n' !in lines[i]
    ensures Join(lines, '\n') == report
  {
    JoinSplit(report, '\n');
    Split(report, '\n')
  }

  /** The rows of the weather table, from the report text. */
  function WeatherReportTable(report: string): (rows: seq<ReportRow>)
    ensures |rows| <= 11 && |rows| <= |ReportLines(report)|
  {
    WeatherReportRows(ReportLines(report))
  }

  /** The rows of the working/non-working day table, from the report text. */
  function DayTypeReportTable(report: string): (rows: seq<ReportRow>)
    ensures |rows| <= |ReportLines(report)|
    ensures forall j | 0 <= j < |rows| :: rows[j].ClassRow?
  {
    DayTypeRowsAreClassRows(ReportLines(report));
    DayTypeReportRows(ReportLines(report))
  }

  /** A report written as lines joined by line breaks is read back as those
      lines, so its tables are the rows of those lines. */
  lemma ReportTextLines(lines: seq<string>)
    requires |lines| >= 1
    requires forall i | 0 <= i < |lines| :: '\n' !in lines[i]
    ensures ReportLines(Join(lines, '\n')) == lines
    ensures WeatherReportTable(Join(lines, '\n')) == WeatherReportRows(lines)
    ensures DayTypeReportTable(Join(lines, '\n')) == DayTypeReportRows(lines)
  {
    SplitJoin(lines, '\n');
  }

  // ---- Properties ----

  lemma {:induction false} SomesAppend<T>(xs: seq<Option<T>>, ys: seq<Option<T>>)
    ensures Somes(xs + ys) == Somes(xs) + Somes(ys)
  {
    if xs == [] {
      assert xs + ys == ys;
    } else {
      assert (xs + ys)[0] == xs[0];
      assert (xs + ys)[1..] == xs[1..] + ys;
      SomesAppend(xs[1..], ys);
    }
  }

  lemma {:induction false} SomesAllPresent<T>(xs: seq<Option<T>>)
    requires forall i | 0 <= i < |xs| :: xs[i].Some?
    ensures |Somes(xs)| == |xs|
    ensures forall i | 0 <= i < |xs| :: Somes(xs)[i] == xs[i].value
  {
    if xs != [] {
      SomesAllPresent(xs[1..]);
    }
  }

  lemma {:induction false} SomesLast<T>(xs: seq<Option<T>>)
    requires xs != [] && xs[|xs| - 1].Some?
    ensures Somes(xs) != [] && Somes(xs)[|Somes(xs)| - 1] == xs[|xs| - 1].value
  {
    var init := xs[..|xs| - 1];
    assert xs == init + [xs[|xs| - 1]];
    SomesAppend(init, [xs[|xs| - 1]]);
    assert Somes([xs[|xs| - 1]]) == [xs[|xs| - 1].value] + Somes([]);
  }

  lemma {:induction false} SomesMember<T>(xs: seq<Option<T>>, P: T -> bool)
    requires forall i | 0 <= i < |xs| :: xs[i].Some? ==> P(xs[i].value)
    ensures forall j | 0 <= j < |Somes(xs)| :: P(Somes(xs)[j])
  {
    if xs != [] {
      SomesMember(xs[1..], P);
    }
  }

  /** At most eleven weather rows, and lines past the eleventh are never
      looked at: two reports of twelve or more lines that agree on their first
      eleven give the same rows. */
  lemma WeatherRowsFirstEleven(a: seq<string>, b: seq<string>)
    requires |a| >= 12 && |b| >= 12 && a[..11] == b[..11]
    ensures |WeatherReportRows(a)| <= 11
    ensures WeatherReportRows(a) == WeatherReportRows(b)
  {
    assert forall i | 0 <= i < 11 :: a[i] == a[..11][i] && b[i] == b[..11][i];
    assert seq(11, i requires 0 <= i < 11 => WeatherRowAt(a, i)) == seq(11, i requires 0 <= i < 11 => WeatherRowAt(b, i));
  }

  /** A weather report of at most eleven lines ends with the summary row
      built from its last line's first two columns. */
  lemma WeatherSummaryRow(lines: seq<string>)
    requires 1 <= |lines| <= 11
    ensures var rows := WeatherReportRows(lines);
      var cols := Columns(lines[|lines| - 1]);
      rows != [] && rows[|rows| - 1] == SummaryRow(cols[0], if |cols| > 1 then Some(cols[1]) else None)
  {
    var xs := seq(|lines|, i requires 0 <= i < |lines| => WeatherRowAt(lines, i));
    assert WeatherReportRows(lines) == Somes(xs);
    SomesLast(xs);
  }

  /** A weather report of twelve or more lines has no summary row. */
  lemma WeatherNoSummary(lines: seq<string>)
    requires |lines| >= 12
    ensures forall j | 0 <= j < |WeatherReportRows(lines)| :: WeatherReportRows(lines)[j].ClassRow?
  {
    SomesMember(seq(11, i requires 0 <= i < 11 => WeatherRowAt(lines, i)), (r: ReportRow) => r.ClassRow?);
  }

  /** A line yields a class row or nothing. */
  lemma ClassRowOfIsClassRow(cols: seq<string>)
    ensures ClassRowOf(cols).Some? ==> ClassRowOf(cols).value.ClassRow?
  {
  }

  /** The day-type report is read line by line: the rows of two
      concatenated reports are the rows of each, one after the other. */
  lemma DayTypeRowsAppend(a: seq<string>, b: seq<string>)
    ensures DayTypeReportRows(a + b) == DayTypeReportRows(a) + DayTypeReportRows(b)
  {
    MapLinesAppend(a, b, LineRow);
    SomesAppend(MapLines(a, LineRow), MapLines(b, LineRow));
  }

  lemma MapLinesAppend(a: seq<string>, b: seq<string>, rowOf: string -> Option<ReportRow>)
    ensures MapLines(a + b, rowOf) == MapLines(a, rowOf) + MapLines(b, rowOf)
  {
    var x, y, z := MapLines(a + b, rowOf), MapLines(a, rowOf), MapLines(b, rowOf);
    forall i | 0 <= i < |a + b| ensures x[i] == (y + z)[i] {
      if i < |a| {
        assert (a + b)[i] == a[i];
      } else {
        assert (a + b)[i] == b[i - |a|];
      }
    }
  }

  /** Only class rows come out of the day-type report. */
  lemma DayTypeRowsAreClassRows(lines: seq<string>)
    ensures forall j | 0 <= j < |DayTypeReportRows(lines)| :: DayTypeReportRows(lines)[j].ClassRow?
  {
    var xs := MapLines(lines, LineRow);
    forall i | 0 <= i < |xs| ensures xs[i].Some? ==> xs[i].value.ClassRow? {
      ClassRowOfIsClassRow(Columns(lines[i]));
    }
    SomesMember(xs, (r: ReportRow) => r.ClassRow?);
  }

  /** When every line has five or six columns, the day-type report gives one
      row per line, in order. */
  lemma DayTypeRowPerLine(lines: seq<string>)
    requires forall i | 0 <= i < |lines| :: |Columns(lines[i])| == 5 || |Columns(lines[i])| == 6
    ensures |DayTypeReportRows(lines)| == |lines|
    ensures forall i | 0 <= i < |lines| :: Some(DayTypeReportRows(lines)[i]) == ClassRowOf(Columns(lines[i]))
  {
    SomesAllPresent(MapLines(lines, LineRow));
  }

  // ---- Columns read back the words of a padded line ----

  predicate IsWord(w: string)
  {
    w != [] && forall k | 0 <= k < |w| :: !IsSpace(w[k])
  }

  lemma {:induction false} NonEmptyPartsId(parts: seq<string>)
    requires forall i | 0 <= i < |parts| :: parts[i] != []
    ensures NonEmptyParts(parts) == parts
  {
    if parts != [] {
      NonEmptyPartsId(parts[1..]);
    }
  }

  /** A run of white space between two columns: at least one character. */
  predicate IsGap(g: string)
  {
    g != [] && AllSpace(g)
  }

  /** Words separated by the given runs of white space, as the columns of a
      report line are aligned: `words[0] + gaps[0] + words[1] + ...`. */
  function Spaced(words: seq<string>, gaps: seq<string>): string
    requires |words| >= 1 && |gaps| == |words| - 1
  {
    if |words| == 1 then words[0] else words[0] + gaps[0] + Spaced(words[1..], gaps[1..])
  }

  predicate SpacedLine(words: seq<string>, gaps: seq<string>)
  {
    && |words| >= 1 && |gaps| == |words| - 1
    && (forall i | 0 <= i < |words| :: IsWord(words[i]))
    && (forall i | 0 <= i < |gaps| :: IsGap(gaps[i]))
  }

  /** Splitting at white space yields one empty part per leading white space
      character; dropping the empty parts forgets them. */
  lemma {:induction false} GapDropped(g: string, t: string)
    requires AllSpace(g)
    ensures NonEmptyParts(SplitBy(g + t, IsSpace)) == NonEmptyParts(SplitBy(t, IsSpace))
  {
    if g != [] {
      assert (g + t)[0] == g[0];
      assert (g + t)[1..] == g[1..] + t;
      var rest := SplitBy(g[1..] + t, IsSpace);
      assert SplitBy(g + t, IsSpace) == [[]] + rest;
      assert ([[]] + rest)[1..] == rest;
      GapDropped(g[1..], t);
    } else {
      assert g + t == t;
    }
  }

  /** A word followed by a run of white space contributes that word alone
      to the non-empty parts. */
  lemma HeadWord(w: string, g: string, tail: string)
    requires IsWord(w) && IsGap(g)
    ensures NonEmptyParts(SplitBy(w + (g + tail), IsSpace)) == [w] + NonEmptyParts(SplitBy(tail, IsSpace))
  {
    SplitByPrefix(w, g + tail, IsSpace);
    var after := SplitBy(g[1..] + tail, IsSpace);
    assert (g + tail)[0] == g[0];
    assert (g + tail)[1..] == g[1..] + tail;
    assert SplitBy(g + tail, IsSpace) == [[]] + after;
    assert ([[]] + after)[1..] == after;
    assert w + [] == w;
    assert SplitBy(w + (g + tail), IsSpace) == [w] + after;
    GapDropped(g[1..], tail);
    assert ([w] + after)[1..] == after;
  }

  /** The words of a spaced line, with runs of white space of any length
      between them, are its non-empty parts. */
  lemma {:induction false} SpacedParts(words: seq<string>, gaps: seq<string>)
    requires SpacedLine(words, gaps)
    ensures NonEmptyParts(SplitBy(Spaced(words, gaps), IsSpace)) == words
  {
    var w := words[0];
    if |words| == 1 {
      SplitByPrefix(w, [], IsSpace);
      assert w + [] == w;
      assert SplitBy(w, IsSpace) == [w];
      assert NonEmptyParts([w]) == [w] + NonEmptyParts([]);
    } else {
      assert SpacedLine(words[1..], gaps[1..]) by {
        assert forall i | 0 <= i < |words| - 1 :: words[1..][i] == words[i + 1];
        assert forall i | 0 <= i < |gaps| - 1 :: gaps[1..][i] == gaps[i + 1];
      }
      SpacedParts(words[1..], gaps[1..]);
      var tail := Spaced(words[1..], gaps[1..]);
      assert Spaced(words, gaps) == w + (gaps[0] + tail);
      HeadWord(w, gaps[0], tail);
      assert words == [w] + words[1..];
    }
  }

  lemma ConcatEnds(a: string, b: string)
    requires a != [] && b != []
    ensures (a + b)[0] == a[0] && (a + b)[|a + b| - 1] == b[|b| - 1]
  {
  }

  /** A spaced line starts with the first word's first character and ends
      with the last word's last character. */
  lemma {:induction false} SpacedEnds(words: seq<string>, gaps: seq<string>)
    requires SpacedLine(words, gaps)
    ensures var j := Spaced(words, gaps);
      var last := words[|words| - 1];
      j != [] && j[0] == words[0][0] && j[|j| - 1] == last[|last| - 1]
  {
    if |words| > 1 {
      assert SpacedLine(words[1..], gaps[1..]) by {
        assert forall i | 0 <= i < |words| - 1 :: words[1..][i] == words[i + 1];
        assert forall i | 0 <= i < |gaps| - 1 :: gaps[1..][i] == gaps[i + 1];
      }
      SpacedEnds(words[1..], gaps[1..]);
      var tail := Spaced(words[1..], gaps[1..]);
      assert words[1..][|words| - 2] == words[|words| - 1];
      ConcatEnds(gaps[0], tail);
      ConcatEnds(words[0], gaps[0] + tail);
    }
  }

  /** A line of words separated by runs of white space, padded on both sides
      with white space, splits into exactly those words. */
  lemma ColumnsOfWords(pad1: string, words: seq<string>, gaps: seq<string>, pad2: string)
    requires AllSpace(pad1) && AllSpace(pad2)
    requires SpacedLine(words, gaps)
    ensures Columns(pad1 + Spaced(words, gaps) + pad2) == words
  {
    var j := Spaced(words, gaps);
    SpacedEnds(words, gaps);
    TrimPadded(pad1, j, pad2);
    SpacedParts(words, gaps);
  }

  /** A class line `label precision recall f1 support`, its columns aligned
      with runs of white space, gives that row. */
  lemma ClassLineRow(pad1: string, name: string, p: string, r: string, f: string, s: string,
                     gaps: seq<string>, pad2: string)
    requires AllSpace(pad1) && AllSpace(pad2)
    requires SpacedLine([name, p, r, f, s], gaps)
    ensures ClassRowOf(Columns(pad1 + Spaced([name, p, r, f, s], gaps) + pad2)) == Some(ClassRow(name, p, r, f, s))
  {
    ColumnsOfWords(pad1, [name, p, r, f, s], gaps, pad2);
  }

  /** A line with a two-word label, such as `macro avg` or `weighted avg`,
      gives a row whose label is the two words joined by one space, whatever
      white space separated them in the line. */
  lemma TwoWordLabelRow(pad1: string, w1: string, w2: string, p: string, r: string, f: string, s: string,
                        gaps: seq<string>, pad2: string)
    requires AllSpace(pad1) && AllSpace(pad2)
    requires SpacedLine([w1, w2, p, r, f, s], gaps)
    ensures ClassRowOf(Columns(pad1 + Spaced([w1, w2, p, r, f, s], gaps) + pad2)) == Some(ClassRow(w1 + " " + w2, p, r, f, s))
  {
    ColumnsOfWords(pad1, [w1, w2, p, r, f, s], gaps, pad2);
  }

  /** The `accuracy` line has three columns and gives no row. */
  lemma AccuracyLineDropped(pad1: string, a: string, s: string, gaps: seq<string>, pad2: string)
    requires AllSpace(pad1) && AllSpace(pad2)
    requires SpacedLine(["accuracy", a, s], gaps)
    ensures ClassRowOf(Columns(pad1 + Spaced(["accuracy", a, s], gaps) + pad2)) == None
  {
    ColumnsOfWords(pad1, ["accuracy", a, s], gaps, pad2);
  }
}
