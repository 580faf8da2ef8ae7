/** The queue document as a whole: what `writeQueueTable` writes is what
    the table constructor reads back. The constructor as written starts
    one line too early and reads the table's alignment line as a row; the
    corrected reader recovers exactly the rows that were written. */
module Document {
  import opened Wrappers
  import opened Host
  import opened Rows
  import opened Table
  import opened Schedulers
  import opened Queue
  import Text

  // ---------------------------------------------------------------------
  // Lines of text

  /** A character neither in any part nor in the separator is not in the join. */
  lemma {:induction false} JoinFree(parts: seq<string>, sep: string, c: char)
    requires c !in sep
    requires forall i :: 0 <= i < |parts| ==> c !in parts[i]
    ensures c !in Text.Join(parts, sep)
  {
    if |parts| > 1 {
      JoinFree(parts[1..], sep, c);
      assert c !in parts[0];
    }
  }

  /** Cells as the table line keeps them: no pipe, no line break, and no
      whitespace at either end. */
  predicate Canonical(cells: seq<string>)
  {
    forall i :: 0 <= i < |cells| ==>
      '|' !in cells[i] && '\n' !in cells[i] && '\r' !in cells[i] && Text.Trimmed(cells[i])
  }

  /** A cell with the single space `RenderLine` puts on either side. */
  function Padded(cell: string): string
  {
    " " + cell + " "
  }

  function PadAll(cells: seq<string>): (r: seq<string>)
    ensures |r| == |cells| && forall i :: 0 <= i < |r| ==> r[i] == Padded(cells[i])
  {
    seq(|cells|, i requires 0 <= i < |cells| => Padded(cells[i]))
  }

  /** The text between the outer pipes of a line is the padded cells
      joined by pipes. */
  lemma {:induction false} PaddedJoin(cells: seq<string>)
    requires |cells| >= 1
    ensures " " + Text.Join(cells, " | ") + " " == Text.Join(PadAll(cells), "|")
  {
    if |cells| > 1 {
      PaddedJoin(cells[1..]);
      assert PadAll(cells) == [Padded(cells[0])] + PadAll(cells[1..]);
      Text.JoinCons(Padded(cells[0]), PadAll(cells[1..]), "|");
      Text.JoinCons(cells[0], cells[1..], " | ");
      var rest := Text.Join(cells[1..], " | ");
      assert " " + (cells[0] + " | " + rest) + " "
          == (" " + cells[0] + " ") + "|" + (" " + rest + " ");
    }
  }

  /** Reading a rendered line gives back its cells, and the empty piece
      after the closing pipe. */
  lemma ParseRenderedCells(cells: seq<string>)
    requires |cells| >= 1 && Canonical(cells)
    ensures ParseCells(RenderLine(cells)) == cells + [""]
  {
    var line := RenderLine(cells);
    var pieces := PadAll(cells) + [""];
    PaddedJoin(cells);
    assert AfterFirst(line) == (" " + Text.Join(cells, " | ") + " ") + "|";
    Text.JoinAppend(PadAll(cells), [""], "|");
    assert AfterFirst(line) == Text.Join(pieces, ['|']);
    forall i | 0 <= i < |pieces|
      ensures '|' !in pieces[i]
    {
      if i < |cells| {
        assert '|' !in cells[i];
      }
    }
    Text.SplitJoin(pieces, '|');
    var parsed := ParseCells(line);
    assert |parsed| == |cells| + 1;
    forall i | 0 <= i < |parsed|
      ensures parsed[i] == (cells + [""])[i]
    {
      if i < |cells| {
        Text.TrimPadded(" ", cells[i], " ");
      } else {
        Text.TrimTrimmed("");
      }
    }
  }

  /** A rendered line of canonical cells holds no line break. */
  lemma RenderedLinePlain(cells: seq<string>)
    requires Canonical(cells)
    ensures '\n' !in RenderLine(cells) && '\r' !in RenderLine(cells)
  {
    JoinFree(cells, " | ", '\n');
    JoinFree(cells, " | ", '\r');
  }

  // ---------------------------------------------------------------------
  // Rows

  /** The conditions under which a row survives being written and read:
      its class is the table's, its cells are canonical, and the helpers
      read back what they wrote (a sanitised value reads back as itself). */
  ghost predicate Restorable(env: Env, kind: RowKind, r: Row)
  {
    && r.Kind() == kind
    && Canonical(Cells(env, r))
    && env.removeBrackets(env.addBrackets(r.link)) == r.link
    && env.parseNumber(env.showNumber(r.priority)) == Finite(r.priority)
    && (env.isValidPriority(r.priority) || r.priority == DefaultPriority)
    && match r
       case IterationRow(_, _, _, _, last) => env.parseDate(env.formatDate(last)) == last
       case _ =>
         && env.parseNumber(env.showNumber(r.interval)) == Finite(r.interval)
         && (env.isValidInterval(r.interval) || r.interval == DefaultInterval)
         && env.parseDate(env.formatDate(Valid(r.nextRepDate))) == Valid(r.nextRepDate)
  }

  /** A restorable row is read back from its line as itself. */
  lemma RowRoundTrip(env: Env, kind: RowKind, r: Row)
    requires Restorable(env, kind, r)
    ensures ParseRow(env, kind, RenderLine(Cells(env, r))) == Some(r)
  {
    ParseRenderedCells(Cells(env, r));
    CellsRestore(env, kind, r);
  }

  /** The row built from a restorable row's cells is that row. */
  lemma CellsRestore(env: Env, kind: RowKind, r: Row)
    requires Restorable(env, kind, r)
    ensures RowOfCells(env, kind, Cells(env, r) + [""]) == r
  {
    var cells := Cells(env, r) + [""];
    assert cells[0] == env.addBrackets(r.link) && cells[1] == env.showNumber(r.priority);
    assert cells[2] == r.notes;
    assert CleanNotes(r.notes) by {
      assert Cells(env, r)[2] == r.notes;
    }
    match r
    case IterationRow(_, _, _, _, _) =>
      assert cells[3] == r.iteration && cells[4] == env.formatDate(r.lastReadDate);
    case _ =>
      assert cells[3] == env.showNumber(r.interval) && cells[4] == env.formatDate(Valid(r.nextRepDate));
  }

  /** Lines that each read back as the corresponding row are read as
      those rows. */
  lemma ParseRowsAll(env: Env, kind: RowKind, lines: seq<string>, rows: seq<Row>)
    requires |lines| == |rows|
    requires forall i :: 0 <= i < |lines| ==> ParseRow(env, kind, lines[i]) == Some(rows[i])
    ensures ParseRows(env, kind, lines) == Some(rows)
  {
    var f := (line: string) => ParseRow(env, kind, line);
    assert forall i :: 0 <= i < |lines| ==> f(lines[i]) == Some(rows[i]);
    Seqs.MapAllEach(f, lines, rows);
    assert ParseRows(env, kind, lines) == Seqs.MapAll(f, lines);
  }

  /** A line read as a row in front of lines read as rows. */
  lemma ParseRowsCons(env: Env, kind: RowKind, lines: seq<string>, rows: seq<Row>)
    requires |lines| == |rows| && lines != []
    ensures ParseRow(env, kind, lines[0]) == Some(rows[0]) && ParseRows(env, kind, lines[1..]) == Some(rows[1..])
            ==> ParseRows(env, kind, lines) == Some(rows)
  {
    var f := (line: string) => ParseRow(env, kind, line);
    assert ParseRows(env, kind, lines[1..]) == Seqs.MapAll(f, lines[1..]);
    assert ParseRows(env, kind, lines) == Seqs.MapAll(f, lines);
    if f(lines[0]) == Some(rows[0]) && Seqs.MapAll(f, lines[1..]) == Some(rows[1..]) {
      Seqs.MapAllCons(f, lines, rows);
    }
  }

  // ---------------------------------------------------------------------
  // The document

  /** The front matter lines hold no line break: the numbers a factor
      scheduler prints contain none. */
  predicate PlainFrontMatter(env: Env, s: Scheduler)
  {
    s.AFactorScheduler? ==>
      && '\n' !in env.showNumber(s.afactor) && '\r' !in env.showNumber(s.afactor)
      && '\n' !in env.showNumber(s.interval) && '\r' !in env.showNumber(s.interval)
  }

  lemma FrontMatterPlain(env: Env, s: Scheduler)
    requires PlainFrontMatter(env, s)
    ensures PlainLines(FrontMatterLines(env, s))
  {
    var fm := FrontMatterLines(env, s);
    forall i | 0 <= i < |fm|
      ensures '\n' !in fm[i] && '\r' !in fm[i]
    {
      if 0 < i < |fm| - 1 {
        FrontMatterLinePlain(env, s, i);
      }
    }
  }

  /** Each line between the delimiters holds no line break. */
  lemma FrontMatterLinePlain(env: Env, s: Scheduler, i: int)
    requires PlainFrontMatter(env, s) && 0 < i < |FrontMatterLines(env, s)| - 1
    ensures '\n' !in FrontMatterLines(env, s)[i] && '\r' !in FrontMatterLines(env, s)[i]
  {
    if i == 1 {
      QuotedPlain("scheduler: \"", Name(s));
    } else if s.AFactorScheduler? {
      QuotedPlain("afactor: ", env.showNumber(s.afactor));
      QuotedPlain("interval: ", env.showNumber(s.interval));
    }
  }

  /** A key, a value and a closing quote hold no line break when the
      value holds none. */
  lemma QuotedPlain(key: string, value: string)
    requires key == "scheduler: \"" || key == "afactor: " || key == "interval: "
    requires '\n' !in value && '\r' !in value
    ensures var l := key + value; '\n' !in l && '\r' !in l
    ensures var l := key + value + "\""; '\n' !in l && '\r' !in l
  {
  }

  /** The lines of the document holding a non-empty table: front matter, a
      blank line, heading, alignment, one line per row. */
  function DocumentLinesOf(env: Env, s: Scheduler, t: Table): seq<string>
  {
    FrontMatterLines(env, s) + ([""] + TableLines(ToArray(env, t)))
  }

  /** Every line begins and ends with a pipe. */
  predicate PipeLines(tl: seq<string>)
  {
    forall i :: 0 <= i < |tl| ==> |tl[i]| > 0 && tl[i][0] == '|' && tl[i][|tl[i]| - 1] == '|'
  }

  lemma TableLinesPipes(rows: seq<seq<string>>)
    ensures PipeLines(TableLines(rows))
  {
    var tl := TableLines(rows);
    forall i | 0 <= i < |tl|
      ensures |tl[i]| > 0 && tl[i][0] == '|' && tl[i][|tl[i]| - 1] == '|'
    {
      if i == 0 {
        RenderLineEnds(Header);
      } else if i == 1 {
        RenderLineEnds(Alignment);
      } else {
        RenderLineEnds(rows[i - 2]);
      }
    }
  }

  /** Text that begins and ends with a pipe. */
  predicate PipeEnded(text: string)
  {
    |text| > 0 && text[0] == '|' && text[|text| - 1] == '|'
  }

  /** The rendered table of a non-empty table is the join of its lines,
      which begins and ends with a pipe. */
  lemma TableTextJoin(env: Env, t: Table, tl: seq<string>)
    requires t.rows != [] && tl == TableLines(ToArray(env, t))
    ensures ToText(env, t) == Text.Join(tl, "\n") && PipeEnded(ToText(env, t))
  {
    TableTextIsJoin(env, t, tl);
    TableLinesPipes(ToArray(env, t));
    PipeEnds(tl);
  }

  lemma TableTextIsJoin(env: Env, t: Table, tl: seq<string>)
    requires t.rows != [] && tl == TableLines(ToArray(env, t))
    ensures ToText(env, t) == Text.Join(tl, "\n")
  {
    assert ToText(env, t) == Text.Trim(Text.Join(tl, "\n"));
    TableLinesPipes(ToArray(env, t));
    PipeEnds(tl);
    Text.TrimTrimmed(Text.Join(tl, "\n"));
  }

  /** Lines that all begin and end with a pipe join into text that does. */
  lemma PipeEnds(tl: seq<string>)
    requires |tl| >= 1 && PipeLines(tl)
    ensures var j := Text.Join(tl, "\n");
      PipeEnded(j) && Text.Trimmed(j)
  {
    Text.JoinOuter(tl);
  }

  /** The written document is the join of its lines. */
  lemma DocumentJoin(env: Env, s: Scheduler, t: Table)
    requires t.rows != []
    ensures Queue.Document(env, s, t) == Text.Join(DocumentLinesOf(env, s, t), "\n")
  {
    var fm := FrontMatterLines(env, s);
    var tl := TableLines(ToArray(env, t));
    TableTextJoin(env, t, tl);
    BlankLineJoin(fm, tl);
  }

  /** Joining two blocks of lines around a blank line. */
  lemma BlankLineJoin(a: seq<string>, b: seq<string>)
    requires |a| >= 1 && |b| >= 1
    ensures Text.Join(a + ([""] + b), "\n") == Text.Join(a, "\n") + "\n\n" + Text.Join(b, "\n")
  {
    Text.JoinAppend(a, [""] + b, "\n");
    Text.JoinCons("", b, "\n");
    assert Text.Join(a, "\n") + "\n" + ("" + "\n" + Text.Join(b, "\n"))
        == Text.Join(a, "\n") + "\n\n" + Text.Join(b, "\n");
  }

  /** No line holds a line break. */
  predicate PlainLines(lines: seq<string>)
  {
    forall i :: 0 <= i < |lines| ==> '\n' !in lines[i] && '\r' !in lines[i]
  }

  /** The rendered lines of canonical cells hold no line break. */
  lemma TableLinesPlain(rows: seq<seq<string>>)
    requires forall i :: 0 <= i < |rows| ==> Canonical(rows[i])
    ensures PlainLines(TableLines(rows))
  {
    var tl := TableLines(rows);
    FixedLinesCanonical();
    forall i | 0 <= i < |tl|
      ensures '\n' !in tl[i] && '\r' !in tl[i]
    {
      if i == 0 {
        RenderedLinePlain(Header);
      } else if i == 1 {
        RenderedLinePlain(Alignment);
      } else {
        RenderedLinePlain(rows[i - 2]);
      }
    }
  }

  /** Two blocks of plain lines around a blank line are plain. */
  lemma BlankLinePlain(a: seq<string>, b: seq<string>)
    requires PlainLines(a) && PlainLines(b)
    ensures PlainLines(a + ([""] + b))
  {
    var lines := a + ([""] + b);
    forall i | 0 <= i < |lines|
      ensures '\n' !in lines[i] && '\r' !in lines[i]
    {
      if i < |a| {
        assert lines[i] == a[i];
      } else if i > |a| {
        assert lines[i] == b[i - |a| - 1];
      }
    }
  }

  /** No line of the written document holds a line break. */
  lemma DocumentLinesPlain(env: Env, s: Scheduler, t: Table)
    requires PlainFrontMatter(env, s)
    requires forall i :: 0 <= i < |t.rows| ==> Canonical(Cells(env, t.rows[i]))
    ensures PlainLines(DocumentLinesOf(env, s, t))
  {
    FrontMatterPlain(env, s);
    var cells := ToArray(env, t);
    assert forall i :: 0 <= i < |cells| ==> Canonical(cells[i]);
    TableLinesPlain(cells);
    BlankLinePlain(FrontMatterLines(env, s), TableLines(cells));
  }

  /** Splitting the written document gives back its lines. */
  lemma DocumentSplits(env: Env, s: Scheduler, t: Table)
    requires t.rows != [] && PlainFrontMatter(env, s)
    requires forall i :: 0 <= i < |t.rows| ==> Canonical(Cells(env, t.rows[i]))
    ensures DocumentLines(Queue.Document(env, s, t)) == DocumentLinesOf(env, s, t)
  {
    DocumentJoin(env, s, t);
    DocumentLinesEnds(env, s, t);
    DocumentLinesPlain(env, s, t);
    SplitsBack(DocumentLinesOf(env, s, t));
  }

  /** Plain lines from an opening delimiter to a table line are what the
      table constructor splits their join into. */
  lemma SplitsBack(lines: seq<string>)
    requires |lines| >= 1 && lines[0] == Delimiter && PipeEnded(lines[|lines| - 1])
    requires PlainLines(lines)
    ensures DocumentLines(Text.Join(lines, "\n")) == lines
  {
    JoinedTrimmed(lines);
    Text.TrimTrimmed(Text.Join(lines, "\n"));
    Text.SplitLinesJoin(lines);
  }

  /** The document's first line is the opening delimiter and its last
      line a table line. */
  lemma DocumentLinesEnds(env: Env, s: Scheduler, t: Table)
    ensures var lines := DocumentLinesOf(env, s, t);
      && |lines| >= 1 && lines[0] == Delimiter
      && PipeEnded(lines[|lines| - 1])
  {
    var fm := FrontMatterLines(env, s);
    var tl := TableLines(ToArray(env, t));
    TableLinesPipes(ToArray(env, t));
    BlankLineEnds(fm, tl);
  }

  lemma BlankLineEnds(a: seq<string>, b: seq<string>)
    requires |a| >= 1 && a[0] == Delimiter && |b| >= 1 && PipeLines(b)
    ensures var lines := a + ([""] + b);
      lines[0] == Delimiter && PipeEnded(lines[|lines| - 1])
  {
    var lines := a + ([""] + b);
    assert lines[0] == a[0];
    assert lines[|lines| - 1] == b[|b| - 1];
  }

  /** Lines whose outer ends are not whitespace join into trimmed text. */
  lemma JoinedTrimmed(lines: seq<string>)
    requires |lines| >= 1 && lines[0] == Delimiter && PipeEnded(lines[|lines| - 1])
    ensures Text.Trimmed(Text.Join(lines, "\n"))
  {
    Text.JoinOuter(lines);
  }

  /** The header and alignment cells are canonical. */
  lemma FixedLinesCanonical()
    ensures Canonical(Header) && Canonical(Alignment)
  {
    CellCanonical("Link");
    CellCanonical("Priority");
    CellCanonical("Notes");
    CellCanonical("Interval");
    CellCanonical("Next Rep");
    CellCanonical(":---");
    CellCanonical("---:");
  }

  /** A cell of the fixed lines is canonical. */
  lemma CellCanonical(cell: string)
    requires cell in Header || cell in Alignment
    ensures '|' !in cell && '\n' !in cell && '\r' !in cell && Text.Trimmed(cell)
  {
  }

  // ---------------------------------------------------------------------
  // Reading a written document back

  /** Where the row lines start in lines laid out as front matter, a blank
      line and a table: two lines past the blank line as intended, and
      one line past it as the constructor is written. */
  lemma BodyOfDocument(fm: seq<string>, tl: seq<string>)
    requires |fm| >= 1 && FindYamlEnd(fm + ([""] + tl)) == |fm| - 1
    requires |tl| >= 2 && tl[0] != ""
    ensures BodyLines(fm + ([""] + tl)) == tl[2..]
    ensures BodyLinesAsWritten(fm + ([""] + tl)) == tl[1..]
  {
    var lines := fm + ([""] + tl);
    assert lines[|fm|] == "";
    assert lines[|fm| + 1] == tl[0];
    assert SkipBlankLines(lines, |fm|) == |fm| + 1;
    assert lines[|fm| + 3..] == tl[2..];
    assert lines[|fm| + 2..] == tl[1..];
  }

  /** The lines the table constructor finds in a written document with a
      non-empty table: the row lines as intended, and the alignment line
      followed by the row lines as written. */
  lemma DocumentBody(env: Env, s: Scheduler, t: Table)
    requires t.rows != [] && PlainFrontMatter(env, s)
    requires forall i :: 0 <= i < |t.rows| ==> Canonical(Cells(env, t.rows[i]))
    ensures var text := Queue.Document(env, s, t);
      var tl := TableLines(ToArray(env, t));
      && text != ""
      && BodyLines(DocumentLines(text)) == tl[2..]
      && BodyLinesAsWritten(DocumentLines(text)) == tl[1..]
  {
    var fm := FrontMatterLines(env, s);
    var tl := TableLines(ToArray(env, t));
    DocumentSplits(env, s, t);
    FrontMatterEnd(env, s, [""] + tl);
    RenderLineEnds(Header);
    BodyOfDocument(fm, tl);
    assert |ToText(env, t)| > 0;
  }

  /** The rendered row lines of restorable rows read back as those rows. */
  lemma RowLinesParse(env: Env, kind: RowKind, t: Table)
    requires forall i :: 0 <= i < |t.rows| ==> Restorable(env, kind, t.rows[i])
    ensures ParseRows(env, kind, TableLines(ToArray(env, t))[2..]) == Some(t.rows)
  {
    var lines := TableLines(ToArray(env, t))[2..];
    forall i | 0 <= i < |lines|
      ensures ParseRow(env, kind, lines[i]) == Some(t.rows[i])
    {
      assert lines[i] == RenderLine(Cells(env, t.rows[i]));
      RowRoundTrip(env, kind, t.rows[i]);
    }
    ParseRowsAll(env, kind, lines, t.rows);
  }

  /** Round trip: the corrected constructor reads a written document with
      a non-empty table back as exactly the rows written, in their order. */
  lemma DocumentRoundTrip(env: Env, kind: RowKind, s: Scheduler, t: Table)
    requires t.rows != [] && PlainFrontMatter(env, s)
    requires forall i :: 0 <= i < |t.rows| ==> Restorable(env, kind, t.rows[i])
    ensures ParseTable(env, kind, Queue.Document(env, s, t)) == Some(Table(t.rows, false))
  {
    DocumentBody(env, s, t);
    RowLinesParse(env, kind, t);
  }

  /** The row the constructor as written reads from the alignment line:
      its link and notes are the alignment markers themselves. */
  function Phantom(env: Env, kind: RowKind): (r: Row)
    ensures ParseRow(env, kind, RenderLine(Alignment)) == Some(r)
    ensures r.Kind() == kind && r.link == env.removeBrackets(":---") && r.notes == ":---"
  {
    var line := RenderLine(Alignment);
    AlignmentCells();
    ParsedNotes(env, kind, line);
    ParseRow(env, kind, line).value
  }

  /** The alignment line reads as the alignment cells. */
  lemma AlignmentCells()
    ensures var cells := ParseCells(RenderLine(Alignment));
      |cells| == 6 && cells[0] == ":---" && cells[2] == ":---"
  {
    FixedLinesCanonical();
    ParseRenderedCells(Alignment);
  }

  /** A line whose third cell is `:---` is read with that cell as notes:
      it holds no line break and no pipe, so sanitising keeps it. */
  lemma ParsedNotes(env: Env, kind: RowKind, line: string)
    ensures |ParseCells(line)| >= 3 && ParseCells(line)[2] == ":---" ==>
      ParseRow(env, kind, line).Some? && ParseRow(env, kind, line).value.notes == ":---"
  {
    var cells := ParseCells(line);
    if |cells| >= 3 && cells[2] == ":---" {
      AlignmentNotesKept();
      assert RowOfCells(env, kind, cells).notes == SanitizeNotes(":---");
    }
  }

  /** The alignment cell is kept as it is when sanitised as notes. */
  lemma AlignmentNotesKept()
    ensures SanitizeNotes(":---") == ":---"
  {
    assert CleanNotes(":---");
  }

  /** The constructor as written reads every written document with a
      non-empty table as one row too many: the alignment line comes back
      as a row in front of the rows that were written. */
  lemma DocumentReadAsWritten(env: Env, kind: RowKind, s: Scheduler, t: Table)
    requires t.rows != [] && PlainFrontMatter(env, s)
    requires forall i :: 0 <= i < |t.rows| ==> Restorable(env, kind, t.rows[i])
    ensures ParseTableAsWritten(env, kind, Queue.Document(env, s, t))
         == Some(Table([Phantom(env, kind)] + t.rows, false))
  {
    var tl := TableLines(ToArray(env, t));
    DocumentBody(env, s, t);
    RowLinesParse(env, kind, t);
    var rows := [Phantom(env, kind)] + t.rows;
    assert tl[1..][1..] == tl[2..];
    assert rows[1..] == t.rows;
    ParseRowsCons(env, kind, tl[1..], rows);
  }

  /** Loading with the constructor as written: when no note is named like
      the alignment cell, pruning drops the phantom row and sets the pruning
      flag, so the queue matches the corrected reader's; when such a note
      exists, the phantom row stays in the loaded queue. */
  lemma PhantomPruned(env: Env, kind: RowKind, s: Scheduler, t: Table, now: Date)
    requires t.rows != [] && PlainFrontMatter(env, s)
    requires forall i :: 0 <= i < |t.rows| ==> Restorable(env, kind, t.rows[i])
    ensures var doc := Queue.Document(env, s, t);
      var asWritten := ParseTableAsWritten(env, kind, doc);
      var corrected := ParseTable(env, kind, doc);
      && asWritten.Some? && corrected.Some?
      && (!env.linkExists(Phantom(env, kind).link) ==>
            Prepare(env, asWritten.value, now) == Prepare(env, corrected.value.(removedDeleted := true), now))
      && (env.linkExists(Phantom(env, kind).link) ==>
            Phantom(env, kind) in Prepare(env, asWritten.value, now).rows)
  {
    var doc := Queue.Document(env, s, t);
    var ph := Phantom(env, kind);
    assert ParseTableAsWritten(env, kind, doc) == Some(Table([ph] + t.rows, false)) by {
      DocumentReadAsWritten(env, kind, s, t);
    }
    assert ParseTable(env, kind, doc) == Some(Table(t.rows, false)) by {
      DocumentRoundTrip(env, kind, s, t);
    }
    PrepareLeadingRow(env, ph, t.rows, false, now);
  }

  /** Both constructors read a written document with no rows as an empty
      table. */
  lemma EmptyDocumentRoundTrip(env: Env, kind: RowKind, s: Scheduler)
    requires PlainFrontMatter(env, s)
    ensures ParseTable(env, kind, Queue.Document(env, s, Table([], false))) == Some(Table([], false))
    ensures ParseTableAsWritten(env, kind, Queue.Document(env, s, Table([], false))) == Some(Table([], false))
  {
    var fm := FrontMatterLines(env, s);
    EmptyDocumentLines(env, s);
    FrontMatterEnd(env, s, []);
    assert fm + [] == fm;
    FrontMatterOnly(fm);
  }

  /** A document with no rows splits into its front matter lines. */
  lemma EmptyDocumentLines(env: Env, s: Scheduler)
    requires PlainFrontMatter(env, s)
    ensures var text := Queue.Document(env, s, Table([], false));
      text != "" && DocumentLines(text) == FrontMatterLines(env, s)
  {
    var fm := FrontMatterLines(env, s);
    FrontMatterPlain(env, s);
    FrontMatterSplits(fm);
    assert InitialText(env, s) == Text.Join(fm, "\n") + "\n\n";
  }

  /** The front matter text splits back into the lines it was written
      from, as long as the numbers it shows print on one line. */
  lemma FrontMatterReadBack(env: Env, s: Scheduler)
    ensures PlainFrontMatter(env, s) ==> Text.SplitLines(FrontMatter(env, s)) == FrontMatterLines(env, s)
  {
    if PlainFrontMatter(env, s) {
      FrontMatterPlain(env, s);
      Text.SplitLinesJoin(FrontMatterLines(env, s));
    }
  }

  /** Front matter lines followed by a blank line split back into those
      lines. */
  lemma FrontMatterSplits(fm: seq<string>)
    requires |fm| >= 1 && fm[0] == Delimiter && fm[|fm| - 1] == Delimiter
    requires PlainLines(fm)
    ensures var text := Text.Join(fm, "\n") + "\n\n";
      text != "" && DocumentLines(text) == fm
  {
    var joined := Text.Join(fm, "\n");
    FrontMatterTrimmed(fm);
    Text.TrimPadded("", joined, "\n\n");
    assert "" + joined + "\n\n" == joined + "\n\n";
    Text.SplitLinesJoin(fm);
  }

  /** Lines opening and closing with a delimiter join into trimmed text. */
  lemma FrontMatterTrimmed(fm: seq<string>)
    requires |fm| >= 1 && fm[0] == Delimiter && fm[|fm| - 1] == Delimiter
    ensures Text.Trimmed(Text.Join(fm, "\n"))
  {
    Text.JoinOuter(fm);
  }

  /** Lines that end with the closing delimiter hold no row lines. */
  lemma FrontMatterOnly(fm: seq<string>)
    requires |fm| >= 1 && FindYamlEnd(fm) == |fm| - 1
    ensures BodyLines(fm) == [] && BodyLinesAsWritten(fm) == []
  {
    assert SkipBlankLines(fm, |fm|) == |fm|;
  }

  /** Round trip for any table, with or without rows: the corrected
      constructor reads the written document back as the rows written. */
  lemma ReadBack(env: Env, kind: RowKind, s: Scheduler, t: Table)
    requires PlainFrontMatter(env, s)
    requires forall i :: 0 <= i < |t.rows| ==> Restorable(env, kind, t.rows[i])
    ensures Queue.Document(env, s, t) != ""
    ensures ParseTable(env, kind, Queue.Document(env, s, t)) == Some(Table(t.rows, false))
  {
    if t.rows == [] {
      EmptyDocumentRoundTrip(env, kind, s);
      EmptyDocumentLines(env, s);
      assert Queue.Document(env, s, t) == Queue.Document(env, s, Table([], false));
    } else {
      DocumentRoundTrip(env, kind, s, t);
      assert |ToText(env, t)| > 0;
    }
  }

  /** Pruning keeps only rows of the table. */
  lemma PrunedRestorable(env: Env, kind: RowKind, t: Table)
    requires forall x :: x in t.rows ==> Restorable(env, kind, x)
    ensures var pruned := RemoveDeleted(env, t).rows;
      forall i :: 0 <= i < |pruned| ==> Restorable(env, kind, pruned[i])
  {
    var pruned := RemoveDeleted(env, t).rows;
    forall i | 0 <= i < |pruned|
      ensures Restorable(env, kind, pruned[i])
    {
      Seqs.FilterMembers(LinkExists(env), t.rows, pruned[i]);
    }
  }

  /** Writing then loading: every restorable row that survives pruning is
      loaded back, in due/priority order, into the table the write leaves
      in memory; only the pruning flag is reset. */
  lemma WriteThenLoad(env: Env, kind: RowKind, s: Scheduler, t: Table, now: Date)
    requires PlainFrontMatter(env, s)
    requires forall x :: x in t.rows ==> Restorable(env, kind, x)
    ensures var w := WriteQueueTable(env, s, t, now);
      Load(env, kind, Some(w.text), now) == Success(w.table.(removedDeleted := false))
  {
    var pruned := RemoveDeleted(env, t);
    var read := Table(pruned.rows, false);
    PrunedRestorable(env, kind, t);
    ReadBack(env, kind, s, pruned);
    PruneNothing(env, read);
    LoadParsed(env, kind, Queue.Document(env, s, pruned), now);
    assert SortReps(read, now) == SortReps(pruned, now).(removedDeleted := false);
  }

  /** Loading text the constructor reads as a table prepares that table. */
  lemma LoadParsed(env: Env, kind: RowKind, text: string, now: Date)
    ensures text != "" && ParseTable(env, kind, text).Some? ==>
      Load(env, kind, Some(text), now) == Success(Prepare(env, ParseTable(env, kind, text).value, now))
  {
  }

  /** A queue file created by `add` loads as an empty queue. */
  lemma CreatedLoadsEmpty(env: Env, kind: RowKind, s: Scheduler, now: Date)
    requires PlainFrontMatter(env, s)
    ensures Load(env, kind, Created(env, s, None), now) == Success(Table([], false))
  {
    var empty := Table([], false);
    var text := Queue.Document(env, s, empty);
    assert Created(env, s, None) == Some(text);
    EmptyDocumentRoundTrip(env, kind, s);
    EmptyDocumentLines(env, s);
    LoadParsed(env, kind, text, now);
    PrepareEmpty(env, now);
  }

  /** Preparing an empty table leaves it empty, with the flag down. */
  lemma PrepareEmpty(env: Env, now: Date)
    ensures Prepare(env, Table([], false), now) == Table([], false)
  {
    PruneNothing(env, Table([], false));
  }
}
