/**
  The text of the CSV export: a byte-order mark, a header line, and one comma-separated line
  per entry in list order, with the reason and the notes wrapped in double quotes (quotes
  inside them are not doubled).
*/
module Csv {
  import opened Records

  /** The parts laid end to end with `sep` between neighbours, as `Array.prototype.join` does. */
  function Join(parts: seq<string>, sep: char): (r: string)
    ensures parts != [] ==> |parts[0]| <= |r| && r[..|parts[0]|] == parts[0]
  {
    if parts == [] then ""
    else if |parts| == 1 then parts[0]
    else parts[0] + [sep] + Join(parts[1..], sep)
  }

  /** The pieces of `s` between occurrences of `sep`, as `String.prototype.split` does. */
  function Split(s: string, sep: char): (r: seq<string>)
    ensures |r| >= 1
  {
    if s == [] then [""]
    else if s[0] == sep then [""] + Split(s[1..], sep)
    else var rest := Split(s[1..], sep); [[s[0]] + rest[0]] + rest[1..]
  }

  lemma {:induction false} SplitPlain(p: string, sep: char)
    requires sep !in p
    ensures Split(p, sep) == [p]
  {
    if p != [] {
      SplitPlain(p[1..], sep);
      assert [p[0]] + p[1..] == p;
    }
  }

  lemma {:induction false} SplitAfterPart(p: string, sep: char, rest: string)
    requires sep !in p
    ensures Split(p + [sep] + rest, sep) == [p] + Split(rest, sep)
  {
    if p == [] {
      assert p + [sep] + rest == [sep] + rest;
      assert ([sep] + rest)[1..] == rest;
    } else {
      var s := p + [sep] + rest;
      assert s[0] == p[0];
      assert s[1..] == p[1..] + [sep] + rest;
      SplitAfterPart(p[1..], sep, rest);
      assert [p[0]] + p[1..] == p;
    }
  }

  /** Splitting a join gives the parts back, provided no part contains the separator. */
  lemma {:induction false} SplitJoin(parts: seq<string>, sep: char)
    requires parts != []
    requires forall i :: 0 <= i < |parts| ==> sep !in parts[i]
    ensures Split(Join(parts, sep), sep) == parts
  {
    if |parts| == 1 {
      SplitPlain(parts[0], sep);
    } else {
      SplitAfterPart(parts[0], sep, Join(parts[1..], sep));
      SplitJoin(parts[1..], sep);
    }
  }

  const Bom := "\U{FEFF}"

  /** The column names; the header line is these joined by commas. */
  const Columns := ["Date", "Pair", "Direction", "Entry Price", "Exit Price", "Size", "PnL",
                    "Reason", "Emotion", "Result", "Notes"]

  const Header := Join(Columns, ',')

  lemma ColumnsPlain(c: char)
    requires c == ',' || c == '\n'
    ensures forall i :: 0 <= i < |Columns| ==> c !in Columns[i]
  {
    forall i | 0 <= i < |Columns| ensures c !in Columns[i] {
      if i == 0 {} else if i == 1 {} else if i == 2 {} else if i == 3 {} else if i == 4 {}
      else if i == 5 {} else if i == 6 {} else if i == 7 {} else if i == 8 {} else if i == 9 {}
      else {}
    }
  }

  /** The header line splits at its commas into the eleven column names, in order. */
  lemma HeaderColumns()
    ensures Split(Header, ',') == Columns && |Columns| == 11
  {
    ColumnsPlain(',');
    SplitJoin(Columns, ',');
  }

  lemma {:induction false} NotInJoin(parts: seq<string>, sep: char, c: char)
    requires c != sep
    requires forall i :: 0 <= i < |parts| ==> c !in parts[i]
    ensures c !in Join(parts, sep)
  {
    if |parts| > 1 {
      NotInJoin(parts[1..], sep, c);
    }
  }

  function Quoted(s: string): string {
    "\"" + s + "\""
  }

  /**
    The cells of an entry's line, in column order, as the export's template interpolates
    them: the reason and the notes inside double quotes, every other cell as it is.
  */
  function Cells(e: Trade): (c: seq<string>)
    ensures |c| == 11
  {
    [e.date, e.pair, DirectionName(e.direction), e.entryPrice.text, e.exitPrice.text,
     e.positionSize.text, e.calculatedPnL.text, Quoted(e.entryReason), EmotionName(e.emotionPre),
     ResultName(e.result), Quoted(e.notes)]
  }

  /** One entry's line: its cells with a comma between neighbours. */
  function Row(e: Trade): (r: string)
    ensures Occurrences(r, ',') == TotalOccurrences(Cells(e), ',') + 10
  {
    JoinOccurrences(Cells(e), ',');
    Join(Cells(e), ',')
  }

  function Rows(es: seq<Trade>): (r: seq<string>)
    ensures |r| == |es| && forall i :: 0 <= i < |es| ==> r[i] == Row(es[i])
  {
    if es == [] then [] else [Row(es[0])] + Rows(es[1..])
  }

  /** The exported text: the mark, then the header and the rows joined by newlines. */
  function CsvText(es: seq<Trade>): (r: string)
    ensures Occurrences(r, '\n') == TotalOccurrences(Rows(es), '\n') + |es|
  {
    CsvNewlines(Rows(es));
    Bom + Join([Header] + Rows(es), '\n')
  }

  lemma {:induction false} JoinSnoc(parts: seq<string>, sep: char, last: string)
    requires parts != []
    ensures Join(parts + [last], sep) == Join(parts, sep) + [sep] + last
  {
    if |parts| == 1 {
      assert parts + [last] == [parts[0], last];
      assert [parts[0], last][1..] == [last];
    } else {
      assert (parts + [last])[1..] == parts[1..] + [last];
      JoinSnoc(parts[1..], sep, last);
    }
  }

  lemma {:induction false} JoinPrefix(parts: seq<string>, sep: char)
    requires parts != []
    ensures |parts[0]| <= |Join(parts, sep)| && Join(parts, sep)[..|parts[0]|] == parts[0]
  {
  }

  lemma RowsSnoc(es: seq<Trade>, e: Trade)
    ensures Rows(es + [e]) == Rows(es) + [Row(e)]
  {
  }

  /** The export always opens with the byte-order mark and then the header; with no entries that is all of it. */
  lemma CsvStartsWithHeader(es: seq<Trade>)
    ensures |Bom + Header| <= |CsvText(es)| && CsvText(es)[..|Bom + Header|] == Bom + Header
    ensures es == [] ==> CsvText(es) == Bom + Header
  {
    JoinPrefix([Header] + Rows(es), '\n');
    assert ([Header] + Rows(es))[0] == Header;
    if es == [] {
      assert [Header] + Rows(es) == [Header];
    }
  }

  lemma LinesSnoc(header: string, rows: seq<string>, r: string)
    ensures Bom + Join([header] + (rows + [r]), '\n') == (Bom + Join([header] + rows, '\n')) + "\n" + r
  {
    assert [header] + (rows + [r]) == ([header] + rows) + [r];
    JoinSnoc([header] + rows, '\n', r);
  }

  /** Adding an entry at the end of the list adds one line, its row, at the end of the export. */
  lemma CsvSnoc(es: seq<Trade>, e: Trade)
    ensures CsvText(es + [e]) == CsvText(es) + "\n" + Row(e)
  {
    RowsSnoc(es, e);
    LinesSnoc(Header, Rows(es), Row(e));
  }

  lemma LinesSplit(header: string, rows: seq<string>)
    requires '\n' !in header
    requires forall i :: 0 <= i < |rows| ==> '\n' !in rows[i]
    ensures Split((Bom + Join([header] + rows, '\n'))[|Bom|..], '\n') == [header] + rows
  {
    var lines := [header] + rows;
    forall i | 0 <= i < |lines| ensures '\n' !in lines[i] {
      if i > 0 {
        assert lines[i] == rows[i - 1];
      }
    }
    SplitJoin(lines, '\n');
    assert (Bom + Join(lines, '\n'))[|Bom|..] == Join(lines, '\n');
  }

  lemma HeaderOneLine()
    ensures '\n' !in Header
  {
    ColumnsPlain('\n');
    NotInJoin(Columns, ',', '\n');
  }

  /** Without newlines inside any row, the export's lines after the mark are the header and then the rows, in list order. */
  lemma CsvLines(es: seq<Trade>)
    requires forall i :: 0 <= i < |es| ==> '\n' !in Row(es[i])
    ensures Split(CsvText(es)[|Bom|..], '\n') == [Header] + Rows(es)
  {
    HeaderOneLine();
    LinesSplit(Header, Rows(es));
  }

  /** Without commas inside any cell, a row splits at its commas into exactly its eleven cells. */
  lemma RowCells(e: Trade)
    requires forall i :: 0 <= i < |Cells(e)| ==> ',' !in Cells(e)[i]
    ensures Split(Row(e), ',') == Cells(e)
  {
    SplitJoin(Cells(e), ',');
  }

  /** The newlines of the export: one before each row, plus those inside the rows. */
  lemma CsvNewlines(rows: seq<string>)
    ensures Occurrences(Bom + Join([Header] + rows, '\n'), '\n') == TotalOccurrences(rows, '\n') + |rows|
  {
    var lines := [Header] + rows;
    OccurrencesAppend(Bom, Join(lines, '\n'), '\n');
    assert Occurrences(Bom, '\n') == 0 by {
      assert Bom[1..] == [];
    }
    JoinOccurrences(lines, '\n');
    assert lines[1..] == rows;
    HeaderOneLine();
    OccurrencesAbsent(Header, '\n');
  }

  lemma {:induction false} OccurrencesAbsent(s: string, c: char)
    requires c !in s
    ensures Occurrences(s, c) == 0
  {
    if s != [] {
      OccurrencesAbsent(s[1..], c);
    }
  }

  /** Number of occurrences of `c` in `s`. */
  function Occurrences(s: string, c: char): nat {
    if s == [] then 0 else (if s[0] == c then 1 else 0) + Occurrences(s[1..], c)
  }

  lemma {:induction false} OccurrencesAppend(a: string, b: string, c: char)
    ensures Occurrences(a + b, c) == Occurrences(a, c) + Occurrences(b, c)
  {
    if a == [] {
      assert a + b == b;
    } else {
      assert (a + b)[1..] == a[1..] + b;
      OccurrencesAppend(a[1..], b, c);
    }
  }

  /** Splitting yields one piece more than there are separators. */
  lemma {:induction false} SplitCount(s: string, sep: char)
    ensures |Split(s, sep)| == Occurrences(s, sep) + 1
  {
    if s != [] {
      SplitCount(s[1..], sep);
    }
  }

  /**
    The pair is written without quotes, so a pair holding a comma (and no other comma in the
    row) makes the row split into twelve cells under an eleven-column header.
  */
  lemma PairCommaShiftsColumns(e: Trade)
    requires Occurrences(e.pair, ',') == 1
    requires forall i :: 0 <= i < |Cells(e)| && i != 1 ==> Occurrences(Cells(e)[i], ',') == 0
    ensures |Split(Row(e), ',')| == 12
  {
    var c := Cells(e);
    SplitCount(Row(e), ',');
    JoinOccurrences(c, ',');
    TotalOccurrencesOne(c, ',', 1);
  }

  /** Occurrences of `c` across all the parts. */
  function TotalOccurrences(parts: seq<string>, c: char): nat {
    if parts == [] then 0 else Occurrences(parts[0], c) + TotalOccurrences(parts[1..], c)
  }

  lemma {:induction false} JoinOccurrences(parts: seq<string>, sep: char)
    requires parts != []
    ensures Occurrences(Join(parts, sep), sep) == TotalOccurrences(parts, sep) + |parts| - 1
  {
    if |parts| == 1 {
      assert parts[1..] == [];
    } else {
      OccurrencesAppend(parts[0], [sep], sep);
      OccurrencesAppend(parts[0] + [sep], Join(parts[1..], sep), sep);
      assert Occurrences([sep], sep) == 1 by {
        assert [sep][1..] == [];
      }
      JoinOccurrences(parts[1..], sep);
    }
  }

  lemma {:induction false} TotalOccurrencesOne(parts: seq<string>, c: char, j: nat)
    requires j < |parts| && Occurrences(parts[j], c) == 1
    requires forall i :: 0 <= i < |parts| && i != j ==> Occurrences(parts[i], c) == 0
    ensures TotalOccurrences(parts, c) == 1
  {
    if j == 0 {
      TotalOccurrencesNone(parts[1..], c);
    } else {
      TotalOccurrencesOne(parts[1..], c, j - 1);
    }
  }

  lemma {:induction false} TotalOccurrencesNone(parts: seq<string>, c: char)
    requires forall i :: 0 <= i < |parts| ==> Occurrences(parts[i], c) == 0
    ensures TotalOccurrences(parts, c) == 0
  {
    if parts != [] {
      TotalOccurrencesNone(parts[1..], c);
    }
  }
}
