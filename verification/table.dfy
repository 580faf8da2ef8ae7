/** The queue table: its rows, how they are read from the document text,
    the two-pass due/priority sort, the current/next/remove operations,
    pruning of deleted links, duplicate lookup, and rendering. */
module Table {
  import opened Wrappers
  import opened Host
  import opened Rows
  import Text
  import Seqs

  /** `MarkdownTable`: the rows in table order, and whether pruning has
      ever removed a row from this table. */
  datatype Table = Table(rows: seq<Row>, removedDeleted: bool)

  /** The line that opens and closes the front matter. */
  const Delimiter: string := "---"

  // ---------------------------------------------------------------------
  // Reading the document

  /** How many lines of `lines` are exactly the delimiter. */
  function CountDelimiters(lines: seq<string>): nat
  {
    if lines == [] then 0
    else CountDelimiters(lines[..|lines| - 1]) + (if lines[|lines| - 1] == Delimiter then 1 else 0)
  }

  lemma CountPrefixStep(lines: seq<string>, i: nat)
    requires i < |lines|
    ensures CountDelimiters(lines[..i + 1])
         == CountDelimiters(lines[..i]) + (if lines[i] == Delimiter then 1 else 0)
  {
    assert lines[..i + 1][..i] == lines[..i];
  }

  /** The search of `findYamlEnd` from line `i` on, `seen` delimiters having
      been passed before `i`. */
  function FindYamlEndFrom(lines: seq<string>, i: nat, seen: nat): (idx: int)
    requires i <= |lines| && seen <= 1 && seen == CountDelimiters(lines[..i])
    ensures idx == -1 <==> CountDelimiters(lines) < 2
    ensures idx != -1 ==> i <= idx < |lines| && lines[idx] == Delimiter
                          && CountDelimiters(lines[..idx]) == 1
    decreases |lines| - i
  {
    if i == |lines| then
      assert lines[..i] == lines;
      -1
    else
      CountPrefixStep(lines, i);
      if lines[i] == Delimiter && seen == 1 then
        CountMonotone(lines, i + 1);
        i
      else
        FindYamlEndFrom(lines, i + 1, if lines[i] == Delimiter then seen + 1 else seen)
  }

  /** Counting over a longer prefix never gives less. */
  lemma {:induction false} CountMonotone(lines: seq<string>, i: nat)
    requires i <= |lines|
    ensures CountDelimiters(lines[..i]) <= CountDelimiters(lines)
    decreases |lines| - i
  {
    if i < |lines| {
      CountPrefixStep(lines, i);
      CountMonotone(lines, i + 1);
    } else {
      assert lines[..i] == lines;
    }
  }

  /** `findYamlEnd`: the index of the second line equal to the delimiter,
      which closes the front matter, or -1 when there are fewer than two. */
  function FindYamlEnd(lines: seq<string>): (idx: int)
    ensures idx == -1 <==> CountDelimiters(lines) < 2
    ensures idx != -1 ==> 0 <= idx < |lines| && lines[idx] == Delimiter
                          && CountDelimiters(lines[..idx]) == 1
  {
    assert lines[..0] == [];
    FindYamlEndFrom(lines, 0, 0)
  }

  /** The text of a row line after its first character, as `substr(1, length - 1)`. */
  function AfterFirst(line: string): string
  {
    if |line| == 0 then "" else line[1..]
  }

  /** The cells of a row line: the line without its first character, split
      on pipes, each piece trimmed. No check of how many there are. */
  function ParseCells(line: string): (cells: seq<string>)
    ensures |cells| >= 1
    ensures forall i :: 0 <= i < |cells| ==> '|' !in cells[i] && Text.Trimmed(cells[i])
  {
    var pieces := Text.Split(AfterFirst(line), '|');
    seq(|pieces|, i requires 0 <= i < |pieces| => Text.Trim(pieces[i]))
  }

  /** The `i`-th cell read as a number; a missing cell is `undefined`,
      which `Number` turns into NaN. */
  function NumberCell(env: Env, cells: seq<string>, i: nat): JsNumber
  {
    if i < |cells| then env.parseNumber(cells[i]) else NonFinite
  }

  /** The `i`-th cell read as a date; `new Date(undefined)` is invalid. */
  function DateCell(env: Env, cells: seq<string>, i: nat): JsDate
  {
    if i < |cells| then env.parseDate(cells[i]) else Invalid
  }

  /** The row `parseRow` builds from the cells of a line of at least three
      cells: a missing iteration label takes the constructor's default,
      the empty string. */
  function RowOfCells(env: Env, kind: RowKind, cells: seq<string>): (r: Row)
    requires |cells| >= 3
    ensures r.Kind() == kind && Sanitized(env, r)
    ensures r.link == env.removeBrackets(cells[0]) && r.notes == SanitizeNotes(cells[2])
  {
    match kind
    case SimpleKind =>
      NewSimpleRow(env, cells[0], NumberCell(env, cells, 1), cells[2],
                   NumberCell(env, cells, 3), DateCell(env, cells, 4))
    case AFactorKind =>
      NewAFactorRow(env, cells[0], NumberCell(env, cells, 1), cells[2],
                    NumberCell(env, cells, 3), DateCell(env, cells, 4))
    case IterationKind =>
      NewIterationRow(env, cells[0], NumberCell(env, cells, 1), cells[2],
                      if 3 < |cells| then cells[3] else "", DateCell(env, cells, 4))
  }

  /** `parseRow` for a table holding rows of `kind`. A line with fewer than
      three cells has no notes, and `notes.replace` on the missing value
      throws: that is `None`. */
  function ParseRow(env: Env, kind: RowKind, line: string): (r: Option<Row>)
    ensures r.None? <==> |ParseCells(line)| < 3
    ensures r.Some? ==> r.value.Kind() == kind && Sanitized(env, r.value)
    ensures r.Some? ==> r.value.link == env.removeBrackets(ParseCells(line)[0])
  {
    var cells := ParseCells(line);
    if |cells| < 3 then None else Some(RowOfCells(env, kind, cells))
  }

  /** `parseRows`: every line parsed, in order; one unreadable line makes
      the whole table unreadable. */
  function ParseRows(env: Env, kind: RowKind, lines: seq<string>): (r: Option<seq<Row>>)
    ensures r.None? <==> exists i :: 0 <= i < |lines| && ParseRow(env, kind, lines[i]).None?
    ensures r.Some? ==> |r.value| == |lines|
                        && forall i :: 0 <= i < |lines| ==> Some(r.value[i]) == ParseRow(env, kind, lines[i])
  {
    Seqs.MapAll((line: string) => ParseRow(env, kind, line), lines)
  }

  /** The lines of the document text, as the table constructor splits them. */
  function DocumentLines(text: string): seq<string>
  {
    Text.SplitLines(Text.Trim(text))
  }

  /** The lines the table constructor parses as rows, exactly as written:
      everything from three lines past the closing delimiter on, nothing
      when there is no closing delimiter. */
  function BodyLinesAsWritten(lines: seq<string>): seq<string>
  {
    var idx := FindYamlEnd(lines);
    if idx == -1 then [] else lines[if idx + 3 <= |lines| then idx + 3 else |lines|..]
  }

  /** The first line at or after `i` that is not empty. */
  function SkipBlankLines(lines: seq<string>, i: nat): (j: nat)
    requires i <= |lines|
    ensures i <= j <= |lines|
    ensures forall k :: i <= k < j ==> lines[k] == ""
    ensures j < |lines| ==> lines[j] != ""
    decreases |lines| - i
  {
    if i < |lines| && lines[i] == "" then SkipBlankLines(lines, i + 1) else i
  }

  /** The row lines as intended: after the closing delimiter, any blank
      lines, the header line and the alignment line. */
  function BodyLines(lines: seq<string>): seq<string>
  {
    var idx := FindYamlEnd(lines);
    if idx == -1 then []
    else
      var start := SkipBlankLines(lines, idx + 1) + 2;
      lines[if start <= |lines| then start else |lines|..]
  }

  /** The table read from its row lines: `None` when a line cannot be read. */
  function TableOfLines(env: Env, kind: RowKind, body: seq<string>): (t: Option<Table>)
    ensures body == [] ==> t == Some(Table([], false))
    ensures t.Some? ==> !t.value.removedDeleted
    ensures t.Some? ==> forall i :: 0 <= i < |t.value.rows| ==> t.value.rows[i].Kind() == kind
  {
    var parsed := ParseRows(env, kind, body);
    if parsed.None? then None
    else
      var rows := parsed.value;
      assert forall i :: 0 <= i < |rows| ==> rows[i].Kind() == kind by {
        forall i | 0 <= i < |rows|
          ensures rows[i].Kind() == kind
        {
          var r := ParseRow(env, kind, body[i]);
          assert r == Some(rows[i]);
        }
      }
      Some(Table(rows, false))
  }

  /** The table constructor as written: an empty text gives no rows,
      otherwise the rows are parsed from `BodyLinesAsWritten`. */
  function ParseTableAsWritten(env: Env, kind: RowKind, text: string): (t: Option<Table>)
    ensures text == "" ==> t == Some(Table([], false))
    ensures FindYamlEnd(DocumentLines(text)) == -1 ==> t == Some(Table([], false))
    ensures t.Some? ==> !t.value.removedDeleted
    ensures t.Some? ==> forall i :: 0 <= i < |t.value.rows| ==> t.value.rows[i].Kind() == kind
  {
    if text == "" then Some(Table([], false))
    else TableOfLines(env, kind, BodyLinesAsWritten(DocumentLines(text)))
  }

  /** The table constructor with the row lines found as intended; `None`
      when a row line cannot be read. */
  function ParseTable(env: Env, kind: RowKind, text: string): (t: Option<Table>)
    ensures text == "" ==> t == Some(Table([], false))
    ensures FindYamlEnd(DocumentLines(text)) == -1 ==> t == Some(Table([], false))
    ensures t.Some? ==> !t.value.removedDeleted
    ensures t.Some? ==> forall i :: 0 <= i < |t.value.rows| ==> t.value.rows[i].Kind() == kind
  {
    if text == "" then Some(Table([], false))
    else TableOfLines(env, kind, BodyLines(DocumentLines(text)))
  }

  // ---------------------------------------------------------------------
  // Sorting

  /** The key of `sortByPriority`. */
  function Priority(r: Row): real
  {
    r.priority
  }

  /** The key of `sortByDue`: due rows rank before rows that are not due. */
  function DueRank(now: Date): Row -> real
  {
    r => if IsDue(r, now) then 0.0 else 1.0
  }

  function DueFilter(now: Date): Row -> bool
  {
    r => IsDue(r, now)
  }

  function NotDueFilter(now: Date): Row -> bool
  {
    r => !IsDue(r, now)
  }

  /** `sortByPriority`: a stable sort by ascending priority. */
  function SortByPriority(rows: seq<Row>): (r: seq<Row>)
    ensures multiset(r) == multiset(rows)
    ensures Seqs.SortedBy(r, Priority)
  {
    Seqs.SortBy(rows, Priority)
  }

  /** `sortByDue`: a stable sort with due rows first. */
  function SortByDue(rows: seq<Row>, now: Date): (r: seq<Row>)
    ensures multiset(r) == multiset(rows)
  {
    Seqs.SortBy(rows, DueRank(now))
  }

  /** A stable sort by due status is the stable partition into the due rows
      followed by the rows that are not due. */
  lemma SortByDuePartition(rows: seq<Row>, now: Date)
    ensures SortByDue(rows, now) == Seqs.Filter(DueFilter(now), rows) + Seqs.Filter(NotDueFilter(now), rows)
  {
    Seqs.SortByPartition(rows, DueRank(now), DueFilter(now), NotDueFilter(now));
  }

  /** No row that is not due precedes a due row, and rows of equal due
      status are in non-decreasing priority order. */
  ghost predicate Ordered(rows: seq<Row>, now: Date)
  {
    forall i, j :: 0 <= i < j < |rows| ==>
      && (IsDue(rows[j], now) ==> IsDue(rows[i], now))
      && (IsDue(rows[i], now) == IsDue(rows[j], now) ==> rows[i].priority <= rows[j].priority)
  }

  /** `sortReps` on the rows: first by priority, then by due status. */
  function SortRows(rows: seq<Row>, now: Date): seq<Row>
  {
    SortByDue(SortByPriority(rows), now)
  }

  /** The sorted rows are the due rows of the priority order followed by
      the rest of it. */
  lemma SortRowsSplit(rows: seq<Row>, now: Date)
    ensures SortRows(rows, now)
         == Seqs.Filter(DueFilter(now), SortByPriority(rows)) + Seqs.Filter(NotDueFilter(now), SortByPriority(rows))
  {
    SortByDuePartition(SortByPriority(rows), now);
  }

  /** Two priority-sorted runs, the first all due and the second none due,
      make an ordered sequence. */
  lemma OrderedRuns(d: seq<Row>, n: seq<Row>, now: Date)
    requires Seqs.SortedBy(d, Priority) && Seqs.SortedBy(n, Priority)
    requires forall i :: 0 <= i < |d| ==> IsDue(d[i], now)
    requires forall i :: 0 <= i < |n| ==> !IsDue(n[i], now)
    ensures Ordered(d + n, now)
  {
    var s := d + n;
    forall i, j | 0 <= i < j < |s|
      ensures IsDue(s[j], now) ==> IsDue(s[i], now)
      ensures IsDue(s[i], now) == IsDue(s[j], now) ==> s[i].priority <= s[j].priority
    {
      if j < |d| {
        assert Priority(d[i]) <= Priority(d[j]);
      } else if i >= |d| {
        assert Priority(n[i - |d|]) <= Priority(n[j - |d|]);
      }
    }
  }

  /** `sortReps`: the rows are permuted into due/priority order. */
  function SortReps(t: Table, now: Date): (r: Table)
    ensures multiset(r.rows) == multiset(t.rows)
    ensures Ordered(r.rows, now)
    ensures r.removedDeleted == t.removedDeleted
  {
    var p := SortByPriority(t.rows);
    SortRowsSplit(t.rows, now);
    Seqs.FilterSorted(DueFilter(now), p, Priority);
    Seqs.FilterSorted(NotDueFilter(now), p, Priority);
    OrderedRuns(Seqs.Filter(DueFilter(now), p), Seqs.Filter(NotDueFilter(now), p), now);
    t.(rows := SortRows(t.rows, now))
  }

  /** How many rows at the front of `rows` are due. */
  function DuePrefix(rows: seq<Row>, now: Date): (k: nat)
    ensures k <= |rows|
    ensures forall i :: 0 <= i < k ==> IsDue(rows[i], now)
    ensures k < |rows| ==> !IsDue(rows[k], now)
  {
    if rows != [] && IsDue(rows[0], now) then
      var k := DuePrefix(rows[1..], now);
      assert forall i :: 1 <= i < k + 1 ==> rows[i] == rows[1..][i - 1];
      1 + k
    else 0
  }

  /** An ordered sequence is a priority-sorted run of due rows followed by
      a priority-sorted run of rows that are not due. */
  lemma OrderedSplit(rows: seq<Row>, now: Date)
    requires Ordered(rows, now)
    ensures var k := DuePrefix(rows, now);
      && (forall i :: k <= i < |rows| ==> !IsDue(rows[i], now))
      && Seqs.SortedBy(rows[..k], Priority) && Seqs.SortedBy(rows[k..], Priority)
  {
    var k := DuePrefix(rows, now);
    forall i | k <= i < |rows|
      ensures !IsDue(rows[i], now)
    {
      assert k < |rows| && !IsDue(rows[k], now);
    }
    var d := rows[..k];
    var n := rows[k..];
    forall i, j | 0 <= i < j < |n|
      ensures Priority(n[i]) <= Priority(n[j])
    {
      assert n[i] == rows[k + i] && n[j] == rows[k + j];
    }
  }

  /** `sortReps` is idempotent: rows already in due/priority order are
      left exactly where they are. */
  lemma SortRowsOrdered(rows: seq<Row>, now: Date)
    requires Ordered(rows, now)
    ensures SortRows(rows, now) == rows
  {
    OrderedSplit(rows, now);
    var k := DuePrefix(rows, now);
    var d := rows[..k];
    var n := rows[k..];
    assert rows == d + n;
    var due := DueFilter(now);
    var notDue := NotDueFilter(now);
    Seqs.FilterConcat(due, d, n);
    Seqs.FilterConcat(notDue, d, n);
    Seqs.FilterAll(due, d);
    Seqs.FilterNone(due, n);
    Seqs.FilterNone(notDue, d);
    Seqs.FilterAll(notDue, n);
    assert Seqs.Filter(due, rows) == d;
    assert Seqs.Filter(notDue, rows) == n;
    SortRowsSplit(rows, now);
    Seqs.FilterSortBy(due, rows, Priority);
    Seqs.FilterSortBy(notDue, rows, Priority);
    Seqs.SortBySorted(d, Priority);
    Seqs.SortBySorted(n, Priority);
  }

  /** Rows of one due status and one priority: the ties `sortReps` must
      keep in their prior order. */
  function TieClass(due: bool, priority: real, now: Date): Row -> bool
  {
    r => IsDue(r, now) == due && r.priority == priority
  }

  /** Stability of `sortReps`: rows that tie on due status and priority
      keep their relative order. */
  lemma SortRowsStable(rows: seq<Row>, now: Date, due: bool, priority: real)
    ensures Seqs.Filter(TieClass(due, priority, now), SortRows(rows, now))
         == Seqs.Filter(TieClass(due, priority, now), rows)
  {
    var tie := TieClass(due, priority, now);
    Seqs.SortByStable(tie, SortByPriority(rows), DueRank(now), if due then 0.0 else 1.0);
    Seqs.SortByStable(tie, rows, Priority, priority);
  }

  /** Applying `sortReps` to a sorted table changes nothing. */
  lemma SortRepsIdempotent(t: Table, now: Date)
    ensures SortReps(SortReps(t, now), now) == SortReps(t, now)
  {
    SortRowsOrdered(SortReps(t, now).rows, now);
  }

  /** The row `x` is a best choice among `rows`: no row is due when it is
      not, and no row of the same due status has a lower priority. */
  ghost predicate Best(x: Row, rows: seq<Row>, now: Date)
  {
    forall y :: y in rows ==>
      && (IsDue(y, now) ==> IsDue(x, now))
      && (IsDue(y, now) == IsDue(x, now) ==> x.priority <= y.priority)
  }

  /** `currentRep`: the first row of the sorted table, `undefined` when
      there is none. */
  function CurrentRep(t: Table, now: Date): (r: Option<Row>)
    ensures r.None? <==> t.rows == []
    ensures r.Some? ==> r.value in t.rows && Best(r.value, t.rows, now)
  {
    var sorted := SortReps(t, now).rows;
    if |sorted| == 0 then None
    else
      assert sorted[0] in multiset(t.rows);
      assert Best(sorted[0], t.rows, now) by {
        forall y | y in t.rows
          ensures IsDue(y, now) ==> IsDue(sorted[0], now)
          ensures IsDue(y, now) == IsDue(sorted[0], now) ==> sorted[0].priority <= y.priority
        {
          assert y in multiset(sorted);
          var j :| 0 <= j < |sorted| && sorted[j] == y;
        }
      }
      Some(sorted[0])
  }

  /** Among the best rows, the current one is the earliest in table order. */
  lemma CurrentRepEarliest(t: Table, now: Date)
    requires t.rows != []
    ensures var x := CurrentRep(t, now).value;
      Seqs.Filter(TieClass(IsDue(x, now), x.priority, now), t.rows) != []
      && x == Seqs.Filter(TieClass(IsDue(x, now), x.priority, now), t.rows)[0]
  {
    var sorted := SortRows(t.rows, now);
    var x := sorted[0];
    var tie := TieClass(IsDue(x, now), x.priority, now);
    SortRowsStable(t.rows, now, IsDue(x, now), x.priority);
    assert Seqs.Filter(tie, sorted) == [x] + Seqs.Filter(tie, sorted[1..]);
  }

  /** `nextRep`: the second row of the sorted table, `undefined` when
      there are fewer than two. */
  function NextRep(t: Table, now: Date): (r: Option<Row>)
    ensures r.None? <==> |t.rows| < 2
    ensures r.Some? ==> r.value in t.rows
  {
    var sorted := SortReps(t, now).rows;
    if |sorted| < 2 then None
    else
      assert sorted[1] in multiset(t.rows);
      Some(sorted[1])
  }

  /** The result of `removeCurrentRep`: the table it leaves and the row it
      returned. */
  datatype Removal = Removal(table: Table, removed: Option<Row>)

  /** `removeCurrentRep`: sorts, then takes the first row out. An empty
      table is returned sorted (that is, unchanged) with nothing removed. */
  function RemoveCurrentRep(t: Table, now: Date): (r: Removal)
    ensures r.removed == CurrentRep(t, now)
    ensures t.rows == [] ==> r.table == t
    ensures t.rows != [] ==> |r.table.rows| == |t.rows| - 1
                             && multiset(r.table.rows) + multiset{r.removed.value} == multiset(t.rows)
    ensures t.rows != [] ==> SortReps(t, now).rows == [r.removed.value] + r.table.rows
    ensures Ordered(r.table.rows, now)
    ensures r.table.removedDeleted == t.removedDeleted
  {
    var sorted := SortReps(t, now);
    if |sorted.rows| == 0 then
      Removal(sorted, None)
    else
      var rest := sorted.rows[1..];
      assert sorted.rows == [sorted.rows[0]] + rest;
      OrderedTail(sorted.rows, now);
      Removal(sorted.(rows := rest), Some(sorted.rows[0]))
  }

  /** Dropping the first row keeps a sequence in due/priority order. */
  lemma OrderedTail(rows: seq<Row>, now: Date)
    requires rows != [] && Ordered(rows, now)
    ensures Ordered(rows[1..], now)
  {
    var rest := rows[1..];
    forall i, j | 0 <= i < j < |rest|
      ensures IsDue(rest[j], now) ==> IsDue(rest[i], now)
      ensures IsDue(rest[i], now) == IsDue(rest[j], now) ==> rest[i].priority <= rest[j].priority
    {
      assert rest[i] == rows[i + 1] && rest[j] == rows[j + 1];
    }
  }

  /** Removing the current row leaves only rows that were in the table. */
  lemma RemoveCurrentRepMember(t: Table, now: Date)
    ensures forall x :: x in RemoveCurrentRep(t, now).table.rows ==> x in t.rows
  {
    var r := RemoveCurrentRep(t, now);
    forall x | x in r.table.rows
      ensures x in t.rows
    {
      assert x in multiset(r.table.rows);
      if t.rows != [] {
        assert multiset(r.table.rows) <= multiset(t.rows);
      }
    }
  }

  /** The next row is the row that becomes current once the current one
      has been removed. */
  lemma NextRepAfterRemoval(t: Table, now: Date)
    ensures NextRep(t, now) == CurrentRep(RemoveCurrentRep(t, now).table, now)
  {
    var r := RemoveCurrentRep(t, now);
    SortRowsOrdered(r.table.rows, now);
  }

  // ---------------------------------------------------------------------
  // Pruning, lookup and appending

  /** The predicate `removeDeleted` filters with: the row's link exists. */
  function LinkExists(env: Env): Row -> bool
  {
    (r: Row) => env.linkExists(r.link)
  }

  /** `removeDeleted`: keeps the rows whose link exists, in their order,
      and raises the flag when a row was dropped; it never lowers it. */
  function RemoveDeleted(env: Env, t: Table): (r: Table)
    ensures |r.rows| <= |t.rows|
    ensures forall i :: 0 <= i < |r.rows| ==> env.linkExists(r.rows[i].link)
    ensures r.removedDeleted <==>
      t.removedDeleted || exists i :: 0 <= i < |t.rows| && !env.linkExists(t.rows[i].link)
  {
    var kept := Seqs.Filter(LinkExists(env), t.rows);
    Seqs.FilterShorter(LinkExists(env), t.rows);
    Table(kept, t.removedDeleted || |kept| < |t.rows|)
  }

  /** Pruning keeps each row whose link exists exactly as often as it
      occurred and drops every other row. */
  lemma RemoveDeletedCount(env: Env, t: Table, x: Row)
    ensures multiset(RemoveDeleted(env, t).rows)[x]
         == if env.linkExists(x.link) then multiset(t.rows)[x] else 0
  {
    Seqs.FilterCount(LinkExists(env), t.rows, x);
  }

  /** Pruning keeps the surviving rows in their order: it distributes over
      a split of the table. */
  lemma RemoveDeletedOrder(env: Env, a: seq<Row>, b: seq<Row>, flag: bool)
    ensures RemoveDeleted(env, Table(a + b, flag)).rows
         == RemoveDeleted(env, Table(a, flag)).rows + RemoveDeleted(env, Table(b, flag)).rows
  {
    Seqs.FilterConcat(LinkExists(env), a, b);
  }

  /** Pruning twice prunes nothing more. */
  lemma RemoveDeletedIdempotent(env: Env, t: Table)
    ensures RemoveDeleted(env, RemoveDeleted(env, t)) == RemoveDeleted(env, t)
  {
    Seqs.FilterAll(LinkExists(env), RemoveDeleted(env, t).rows);
  }

  /** Whether some row's link is `link`, as `Array.prototype.some`. */
  function LinkIn(rows: seq<Row>, link: string): (b: bool)
    ensures b <==> exists i :: 0 <= i < |rows| && rows[i].link == link
  {
    if rows == [] then false
    else if rows[0].link == link then true
    else
      var b := LinkIn(rows[1..], link);
      assert forall i :: 1 <= i < |rows| ==> rows[i] == rows[1..][i - 1];
      b
  }

  /** `hasRowWithLink`: whether a row links to `link` once its brackets
      are removed. */
  function HasRowWithLink(env: Env, t: Table, link: string): (b: bool)
    ensures b <==> exists i :: 0 <= i < |t.rows| && t.rows[i].link == env.removeBrackets(link)
  {
    LinkIn(t.rows, env.removeBrackets(link))
  }

  /** `appendRow`: the row goes last; the rows before it are untouched. */
  function AppendRow(t: Table, row: Row): (r: Table)
    ensures |r.rows| == |t.rows| + 1 && r.rows[|t.rows|] == row
    ensures r.rows[..|t.rows|] == t.rows
    ensures r.removedDeleted == t.removedDeleted
  {
    var rows := t.rows + [row];
    assert rows[..|t.rows|] == t.rows;
    t.(rows := rows)
  }

  /** After appending, a link is present iff it was present before or is
      the appended row's. */
  lemma HasRowWithLinkAppend(env: Env, t: Table, row: Row, link: string)
    ensures HasRowWithLink(env, AppendRow(t, row), link)
        <==> HasRowWithLink(env, t, link) || row.link == env.removeBrackets(link)
  {
    var r := AppendRow(t, row);
    if HasRowWithLink(env, r, link) {
      var i :| 0 <= i < |r.rows| && r.rows[i].link == env.removeBrackets(link);
      if i < |t.rows| {
        assert r.rows[i] == t.rows[i];
      }
    }
    if HasRowWithLink(env, t, link) {
      var i :| 0 <= i < |t.rows| && t.rows[i].link == env.removeBrackets(link);
      assert r.rows[i] == t.rows[i];
    }
  }

  // ---------------------------------------------------------------------
  // Rendering

  /** The column headings. */
  const Header: seq<string> := ["Link", "Priority", "Notes", "Interval", "Next Rep"]

  /** The alignment cells for the columns aligned left, right, left, right, right. */
  const Alignment: seq<string> := [":---", "---:", ":---", "---:", "---:"]

  /** `toArray`: the cells of every row, in table order. */
  function ToArray(env: Env, t: Table): (cells: seq<seq<string>>)
    ensures |cells| == |t.rows|
    ensures forall i :: 0 <= i < |cells| ==> cells[i] == Cells(env, t.rows[i])
  {
    seq(|t.rows|, i requires 0 <= i < |t.rows| => Cells(env, t.rows[i]))
  }

  /** One line of the rendered table: each cell between pipes, set off by
      one space on either side. */
  function RenderLine(cells: seq<string>): string
  {
    "| " + Text.Join(cells, " | ") + " |"
  }

  /** The lines of the rendered table: heading, alignment, then one line
      per row. */
  function TableLines(rows: seq<seq<string>>): (lines: seq<string>)
    ensures |lines| == |rows| + 2
    ensures lines[0] == RenderLine(Header) && lines[1] == RenderLine(Alignment)
    ensures forall i :: 0 <= i < |rows| ==> lines[i + 2] == RenderLine(rows[i])
  {
    [RenderLine(Header), RenderLine(Alignment)] + seq(|rows|, i requires 0 <= i < |rows| => RenderLine(rows[i]))
  }

  /** A rendered line begins and ends with a pipe. */
  lemma RenderLineEnds(cells: seq<string>)
    ensures var l := RenderLine(cells); |l| > 0 && l[0] == '|' && l[|l| - 1] == '|'
  {
    var l := RenderLine(cells);
    assert l == "| " + (Text.Join(cells, " | ") + " |");
  }

  /** `toString`: the rendered table, trimmed; empty exactly when there
      are no rows. */
  function ToText(env: Env, t: Table): (text: string)
    ensures text == "" <==> t.rows == []
  {
    if |t.rows| > 0 then
      TableTextNonEmpty(ToArray(env, t));
      Text.Trim(Text.Join(TableLines(ToArray(env, t)), "\n"))
    else ""
  }

  /** The rendered lines of at least one row do not trim to nothing: they
      start and end with a pipe. */
  lemma TableTextNonEmpty(rows: seq<seq<string>>)
    requires |rows| > 0
    ensures Text.Trim(Text.Join(TableLines(rows), "\n")) != ""
  {
    var lines := TableLines(rows);
    RenderLineEnds(Header);
    RenderLineEnds(rows[|rows| - 1]);
    assert lines[|lines| - 1] == RenderLine(rows[|rows| - 1]);
    Text.JoinTrimNonEmpty(lines);
  }
}
