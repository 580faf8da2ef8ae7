/** The queue's transitions as functions of the stored document text:
    choosing the scheduler, loading, writing, dismissing the current
    repetition, advancing to the next one, and adding rows. Reading and
    writing the file, opening notes and the status bar are left to the
    caller: the transitions return the text to write and the row to open. */
module Queue {
  import opened Wrappers
  import opened Host
  import opened Rows
  import opened Table
  import opened Schedulers
  import Seqs

  // ---------------------------------------------------------------------
  // Choosing the scheduler

  /** The scheduler named by the `defaultQueueType` setting, built with its
      constructor's defaults; none for an unknown name. */
  function DefaultScheduler(defaultType: string): (s: Option<Scheduler>)
    ensures s.Some? <==> defaultType == "simple" || defaultType == "afactor" || defaultType == "iteration"
    ensures s.Some? ==> Name(s.value) == defaultType
    ensures defaultType == "afactor" ==> s == Some(AFactorScheduler(DefaultAFactor, DefaultInterval))
    ensures defaultType == "iteration" ==> s == Some(IterationScheduler(""))
  {
    if defaultType == "afactor" then Some(AFactorScheduler(DefaultAFactor, DefaultInterval))
    else if defaultType == "simple" then Some(SimpleScheduler)
    else if defaultType == "iteration" then Some(IterationScheduler(""))
    else None
  }

  /** `Number(data[key])`: a missing key is `undefined`, which is NaN. */
  function NumberOf(env: Env, data: map<string, string>, key: string): JsNumber
  {
    if key in data then env.parseNumber(data[key]) else NonFinite
  }

  /** The scheduler name the front matter gives, if any. */
  function NamedIn(frontMatter: Option<map<string, string>>): Option<string>
  {
    if frontMatter.Some? && "scheduler" in frontMatter.value then Some(frontMatter.value["scheduler"])
    else None
  }

  /** Whether a name is one of the three scheduler names. */
  predicate KnownName(name: string)
  {
    name == "simple" || name == "afactor" || name == "iteration"
  }

  /** `createScheduler`: the default, overridden by a known `scheduler`
      key of the front matter; a factor scheduler reads `afactor` and
      `interval`, an iteration scheduler reads `iteration` (empty when
      missing). */
  function CreateScheduler(env: Env, defaultType: string, frontMatter: Option<map<string, string>>): (s: Option<Scheduler>)
    ensures (NamedIn(frontMatter).None? || !KnownName(NamedIn(frontMatter).value))
            ==> s == DefaultScheduler(defaultType)
    ensures NamedIn(frontMatter).Some? && KnownName(NamedIn(frontMatter).value)
            ==> s.Some? && Name(s.value) == NamedIn(frontMatter).value
    ensures s.None? <==> ((NamedIn(frontMatter).None? || !KnownName(NamedIn(frontMatter).value))
                          && DefaultScheduler(defaultType).None?)
    ensures s.Some? ==> ValidScheduler(env, s.value)
  {
    var name := NamedIn(frontMatter);
    if name == Some("simple") then Some(SimpleScheduler)
    else if name == Some("afactor") then
      var data := frontMatter.value;
      Some(NewAFactorScheduler(env, NumberOf(env, data, "afactor"), NumberOf(env, data, "interval")))
    else if name == Some("iteration") then
      var data := frontMatter.value;
      Some(IterationScheduler(if "iteration" in data then data["iteration"] else ""))
    else DefaultScheduler(defaultType)
  }

  /** Reading back the front matter a scheduler writes gives that
      scheduler, given numbers that print and parse back; except that an
      iteration scheduler comes back with the label "Test". */
  lemma SchedulerRoundTrip(env: Env, defaultType: string, s: Scheduler)
    requires ValidScheduler(env, s)
    requires s.AFactorScheduler? ==>
      && env.parseNumber(env.showNumber(s.afactor)) == Finite(s.afactor)
      && env.parseNumber(env.showNumber(s.interval)) == Finite(s.interval)
      && env.isValidAFactor(s.afactor) && env.isValidInterval(s.interval)
    ensures CreateScheduler(env, defaultType, Some(FrontMatterData(env, s)))
         == Some(if s.IterationScheduler? then IterationScheduler("Test") else s)
  {
  }

  // ---------------------------------------------------------------------
  // Loading and writing

  /** Why a queue could not be loaded: no text to read, or a row line with
      fewer than three cells. */
  datatype LoadError = NoQueueText | MalformedRow

  /** The part of `loadTable` after parsing: prune, then sort. The result
      holds rows of the table whose links exist, in due/priority order. */
  function Prepare(env: Env, t: Table, now: Date): (r: Table)
    ensures Ordered(r.rows, now)
    ensures forall x :: x in r.rows ==> x in t.rows && env.linkExists(x.link)
    ensures multiset(r.rows) == multiset(RemoveDeleted(env, t).rows)
  {
    var pruned := RemoveDeleted(env, t);
    var sorted := SortReps(pruned, now);
    assert forall x :: x in sorted.rows ==> x in t.rows && env.linkExists(x.link) by {
      forall x | x in sorted.rows
        ensures x in t.rows && env.linkExists(x.link)
      {
        assert x in multiset(pruned.rows);
        Seqs.FilterMembers(LinkExists(env), t.rows, x);
      }
    }
    sorted
  }

  /** `loadTable`: parse the stored text, prune rows whose link no longer
      exists, sort. Missing or empty text loads nothing. */
  function Load(env: Env, kind: RowKind, stored: Option<string>, now: Date): (r: Result<Table, LoadError>)
    ensures r == Failure(NoQueueText) <==> stored.None? || stored.value == ""
    ensures r.Success? ==> Ordered(r.value.rows, now)
    ensures r == Failure(MalformedRow) <==>
      stored.Some? && stored.value != "" && ParseTable(env, kind, stored.value).None?
    ensures r.Success? ==> forall x :: x in r.value.rows ==> env.linkExists(x.link) && x.Kind() == kind
    ensures r.Success? ==>
      multiset(r.value.rows) == multiset(RemoveDeleted(env, ParseTable(env, kind, stored.value).value).rows)
  {
    if stored.None? || stored.value == "" then Failure(NoQueueText)
    else
      var parsed := ParseTable(env, kind, stored.value);
      if parsed.None? then Failure(MalformedRow)
      else
        PreparedKinds(env, kind, parsed.value, now);
        Success(Prepare(env, parsed.value, now))
  }

  /** Preparing keeps rows of one class in that class. */
  lemma PreparedKinds(env: Env, kind: RowKind, t: Table, now: Date)
    requires forall i :: 0 <= i < |t.rows| ==> t.rows[i].Kind() == kind
    ensures forall x :: x in Prepare(env, t, now).rows ==> x.Kind() == kind
  {
    forall x | x in Prepare(env, t, now).rows
      ensures x.Kind() == kind
    {
      var i :| 0 <= i < |t.rows| && t.rows[i] == x;
    }
  }

  /** The text `writeQueueTable` writes and the table it leaves behind. */
  datatype Written = Written(text: string, table: Table)

  /** The whole queue document: front matter, a blank line, the table. */
  function Document(env: Env, s: Scheduler, t: Table): (text: string)
    ensures t.rows == [] <==> text == FrontMatter(env, s) + "\n\n"
  {
    FrontMatter(env, s) + "\n\n" + ToText(env, t)
  }

  /** `writeQueueTable`: prune, render in the order the rows are in, and
      only then sort the table in memory. */
  function WriteQueueTable(env: Env, s: Scheduler, t: Table, now: Date): (w: Written)
    ensures w.text == Document(env, s, RemoveDeleted(env, t))
    ensures w.table == SortReps(RemoveDeleted(env, t), now)
  {
    var pruned := RemoveDeleted(env, t);
    Written(Document(env, s, pruned), SortReps(pruned, now))
  }

  /** Rows whose links all exist survive pruning as they are. */
  lemma PruneNothing(env: Env, t: Table)
    requires forall x :: x in t.rows ==> env.linkExists(x.link)
    ensures RemoveDeleted(env, t) == t
  {
    Seqs.FilterAll(LinkExists(env), t.rows);
  }

  /** Preparing a table whose first row has a missing link is preparing
      the rest with the pruning flag set; a first row whose link exists
      stays in the prepared table. */
  lemma PrepareLeadingRow(env: Env, x: Row, rows: seq<Row>, flag: bool, now: Date)
    ensures !env.linkExists(x.link) ==>
      Prepare(env, Table([x] + rows, flag), now) == Prepare(env, Table(rows, true), now)
    ensures env.linkExists(x.link) ==> x in Prepare(env, Table([x] + rows, flag), now).rows
  {
    var all := [x] + rows;
    assert all[0] == x && all[1..] == rows;
    var kept := RemoveDeleted(env, Table(all, flag));
    if env.linkExists(x.link) {
      assert kept.rows == [x] + Seqs.Filter(LinkExists(env), rows);
      assert x in multiset(kept.rows);
    } else {
      assert kept.rows == Seqs.Filter(LinkExists(env), rows);
      assert kept == RemoveDeleted(env, Table(rows, true));
    }
  }

  /** Writing a table as `loadTable` leaves it, in due/priority order with
      every link existing, writes its rows in their order and leaves the
      table as it was. */
  lemma WriteLoaded(env: Env, s: Scheduler, t: Table, now: Date)
    requires Loaded(env, t, now)
    ensures WriteQueueTable(env, s, t, now) == Written(Document(env, s, t), t)
  {
    PruneNothing(env, t);
    SortRowsOrdered(t.rows, now);
  }

  /** The text `createTableIfNotExists` writes into a new queue file. */
  function InitialText(env: Env, s: Scheduler): (text: string)
    ensures text == Document(env, s, Table([], false))
  {
    FrontMatter(env, s) + "\n\n"
  }

  // ---------------------------------------------------------------------
  // Dismissing and advancing

  /** What `loadTable` guarantees of the table the transitions work on. */
  ghost predicate Loaded(env: Env, t: Table, now: Date)
  {
    Ordered(t.rows, now) && forall x :: x in t.rows ==> env.linkExists(x.link)
  }

  /** Whether the transitions find nothing to do: no rows, or the
      sorted-first row is not due. */
  predicate NothingDue(t: Table, now: Date)
  {
    t.rows == [] || !IsDue(CurrentRep(t, now).value, now)
  }

  /** The body of `dismissCurrent` on a loaded table: when the
      sorted-first row is due it is removed; in every case the table is
      written back. */
  function Dismiss(env: Env, s: Scheduler, t: Table, now: Date): (w: Written)
    requires Loaded(env, t, now)
    ensures NothingDue(t, now) ==> w == Written(Document(env, s, t), t)
    ensures !NothingDue(t, now) ==>
      && |w.table.rows| == |t.rows| - 1
      && multiset(w.table.rows) + multiset{CurrentRep(t, now).value} == multiset(t.rows)
      && Ordered(w.table.rows, now)
      && w.text == Document(env, s, w.table)
    ensures !NothingDue(t, now) ==> w.table.rows == SortReps(t, now).rows[1..]
  {
    PruneNothing(env, t);
    if NothingDue(t, now) then
      SortRowsOrdered(t.rows, now);
      WriteQueueTable(env, s, t, now)
    else
      var removal := RemoveCurrentRep(t, now);
      RemoveCurrentRepMember(t, now);
      PruneNothing(env, removal.table);
      SortRowsOrdered(removal.table.rows, now);
      WriteQueueTable(env, s, removal.table, now)
  }

  /** `dismissCurrent`: failing to load aborts before anything is written;
      otherwise `Dismiss` on the loaded table. */
  function DismissCurrent(env: Env, s: Scheduler, kind: RowKind, stored: Option<string>, now: Date)
    : (r: Result<Written, LoadError>)
    ensures r.Failure? <==> Load(env, kind, stored, now).Failure?
    ensures r.Success? ==> r.value == Dismiss(env, s, Load(env, kind, stored, now).value, now)
  {
    match Load(env, kind, stored, now)
    case Failure(e) => Failure(e)
    case Success(t) => Success(Dismiss(env, s, t, now))
  }

  /** The outcome of `nextRepetition`: whether it advanced, what it wrote,
      and which row it opens. */
  datatype Advance = Advance(advanced: bool, written: Written, open: Option<Row>)

  /** The row to open after rescheduling: the reviewed row if it is still
      due, otherwise the row that was next if that one is due. */
  function RowToOpen(rescheduled: Row, next: Option<Row>, now: Date): (r: Option<Row>)
    ensures IsDue(rescheduled, now) ==> r == Some(rescheduled)
    ensures !IsDue(rescheduled, now) ==> (r.Some? <==> next.Some? && IsDue(next.value, now))
    ensures r.Some? ==> IsDue(r.value, now) && (r.value == rescheduled || Some(r.value) == next)
  {
    if IsDue(rescheduled, now) then Some(rescheduled)
    else if next.Some? && IsDue(next.value, now) then next
    else None
  }

  /** The body of `nextRepetition` on a loaded table: when the
      sorted-first row is due, take it out, hand it to the scheduler, write
      the table and open a row; otherwise only write the table back. */
  function Advancing(env: Env, s: Scheduler, t: Table, now: Date): (r: Advance)
    requires Loaded(env, t, now)
    ensures NothingDue(t, now) ==> r == Advance(false, Written(Document(env, s, t), t), None)
    ensures !NothingDue(t, now) ==> r.advanced
    ensures !NothingDue(t, now) ==>
      && r.written == WriteQueueTable(env, s, Rescheduled(env, s, t, now).table, now)
      && r.open == RowToOpen(Rescheduled(env, s, t, now).row, NextRep(t, now), now)
    ensures r.open.Some? ==> IsDue(r.open.value, now)
  {
    if NothingDue(t, now) then
      PruneNothing(env, t);
      SortRowsOrdered(t.rows, now);
      Advance(false, WriteQueueTable(env, s, t, now), None)
    else
      var scheduled := Rescheduled(env, s, t, now);
      Advance(true, WriteQueueTable(env, s, scheduled.table, now),
              RowToOpen(scheduled.row, NextRep(t, now), now))
  }

  /** The current row taken out of the table and handed to the scheduler. */
  function Rescheduled(env: Env, s: Scheduler, t: Table, now: Date): Scheduled
    requires t.rows != []
  {
    Schedule(env, s, RemoveCurrentRep(t, now).table, CurrentRep(t, now).value, now)
  }

  /** `nextRepetition`: failing to load aborts before anything is written;
      otherwise `Advancing` on the loaded table. */
  function NextRepetition(env: Env, s: Scheduler, kind: RowKind, stored: Option<string>, now: Date)
    : (r: Result<Advance, LoadError>)
    ensures r.Failure? <==> Load(env, kind, stored, now).Failure?
    ensures r.Success? ==> r.value == Advancing(env, s, Load(env, kind, stored, now).value, now)
  {
    match Load(env, kind, stored, now)
    case Failure(e) => Failure(e)
    case Success(t) => Success(Advancing(env, s, t, now))
  }

  /** When the scheduler handles rows of the table's class, advancing
      keeps the number of rows: one taken out, one put back. */
  lemma AdvancingKeepsCount(env: Env, s: Scheduler, t: Table, now: Date)
    requires Loaded(env, t, now) && !NothingDue(t, now)
    requires forall x :: x in t.rows ==> x.Kind() == KindOf(s)
    ensures |Advancing(env, s, t, now).written.table.rows| == |t.rows|
  {
    var scheduled := Rescheduled(env, s, t, now);
    RescheduledLinks(env, s, t, now);
    WriteKeepsCount(env, s, scheduled.table, now);
    assert Advancing(env, s, t, now).written == WriteQueueTable(env, s, scheduled.table, now);
  }

  /** Rescheduling a row of the scheduler's class keeps the number of rows
      and leaves only rows whose links exist. */
  lemma RescheduledLinks(env: Env, s: Scheduler, t: Table, now: Date)
    requires Loaded(env, t, now) && t.rows != []
    requires forall x :: x in t.rows ==> x.Kind() == KindOf(s)
    ensures var rows := Rescheduled(env, s, t, now).table.rows;
      |rows| == |t.rows| && forall x :: x in rows ==> env.linkExists(x.link)
  {
    var current := CurrentRep(t, now).value;
    var removal := RemoveCurrentRep(t, now);
    ScheduleKeepsLinks(env, s, removal.table, current, now);
    RemoveCurrentRepMember(t, now);
    LinksCarried(env, removal.table.rows, current, Rescheduled(env, s, t, now).table.rows);
  }

  /** Rows that take their links, in order, from rows whose links exist
      followed by one more such row have only existing links. */
  lemma LinksCarried(env: Env, rows: seq<Row>, row: Row, after: seq<Row>)
    requires forall x :: x in rows ==> env.linkExists(x.link)
    requires env.linkExists(row.link)
    requires |after| == |rows| + 1 && after[|rows|].link == row.link
    requires forall i :: 0 <= i < |rows| ==> after[i].link == rows[i].link
    ensures forall x :: x in after ==> env.linkExists(x.link)
  {
    forall x | x in after
      ensures env.linkExists(x.link)
    {
      var i :| 0 <= i < |after| && after[i] == x;
      if i < |rows| {
        assert rows[i] in rows;
      }
    }
  }

  /** Writing a table whose links all exist keeps all its rows. */
  lemma WriteKeepsCount(env: Env, s: Scheduler, t: Table, now: Date)
    requires forall x :: x in t.rows ==> env.linkExists(x.link)
    ensures |WriteQueueTable(env, s, t, now).table.rows| == |t.rows|
    ensures WriteQueueTable(env, s, t, now).text == Document(env, s, t)
    ensures multiset(WriteQueueTable(env, s, t, now).table.rows) == multiset(t.rows)
  {
    PruneNothing(env, t);
    assert |multiset(SortReps(t, now).rows)| == |multiset(t.rows)|;
  }

  /** When a row is due, advancing writes the table the scheduler hands
      back: the document of that table, and its rows re-sorted. */
  lemma AdvancingWritesScheduled(env: Env, s: Scheduler, t: Table, now: Date)
    requires Loaded(env, t, now) && !NothingDue(t, now)
    requires forall x :: x in t.rows ==> x.Kind() == KindOf(s)
    ensures var scheduled := Rescheduled(env, s, t, now);
      var w := Advancing(env, s, t, now).written;
      && w.text == Document(env, s, scheduled.table)
      && multiset(w.table.rows) == multiset(scheduled.table.rows)
      && Ordered(w.table.rows, now)
  {
    var scheduled := Rescheduled(env, s, t, now);
    RescheduledLinks(env, s, t, now);
    WriteKeepsCount(env, s, scheduled.table, now);
  }

  /** Under the factor scheduler advancing writes the rows that were left
      once the current row was taken out, and the moved-on current row. */
  lemma AFactorAdvanceRows(env: Env, s: Scheduler, t: Table, now: Date)
    requires Loaded(env, t, now) && !NothingDue(t, now)
    requires s.AFactorScheduler? && forall x :: x in t.rows ==> x.AFactorRow?
    ensures var w := Advancing(env, s, t, now).written;
      multiset(w.table.rows)
        == multiset(RemoveCurrentRep(t, now).table.rows) + multiset{Rescheduled(env, s, t, now).row}
  {
    var current := CurrentRep(t, now).value;
    var removal := RemoveCurrentRep(t, now);
    AdvancingWritesScheduled(env, s, t, now);
    AFactorMovesOn(env, s, removal.table, current, now);
  }

  /** Under the simple and iteration schedulers advancing writes the rows
      that were left once the current row was taken out, changed only in
      their priorities, and the reviewed row after them, all re-sorted. */
  lemma SpreadAdvanceRows(env: Env, s: Scheduler, t: Table, now: Date)
    requires Loaded(env, t, now) && !NothingDue(t, now)
    requires !s.AFactorScheduler? && forall x :: x in t.rows ==> x.Kind() == KindOf(s)
    ensures var rest := RemoveCurrentRep(t, now).table.rows;
      var scheduled := Rescheduled(env, s, t, now);
      && multiset(Advancing(env, s, t, now).written.table.rows) == multiset(scheduled.table.rows)
      && |scheduled.table.rows| == |rest| + 1
      && (forall i :: 0 <= i < |rest| ==> SameExceptPriority(scheduled.table.rows[i], rest[i]))
      && scheduled.table.rows[|rest|] == scheduled.row
  {
    var current := CurrentRep(t, now).value;
    var removal := RemoveCurrentRep(t, now);
    AdvancingWritesScheduled(env, s, t, now);
    ScheduleSpreads(env, s, removal.table, current, now);
  }

  /** Under the iteration scheduler the reviewed iteration row is opened,
      stamped with the scheduler's label and today. */
  lemma IterationOpensCurrent(env: Env, name: string, t: Table, now: Date)
    requires Loaded(env, t, now) && !NothingDue(t, now)
    requires CurrentRep(t, now).value.IterationRow?
    ensures var r := Advancing(env, IterationScheduler(name), t, now);
      && r.open.Some? && r.open.value.link == CurrentRep(t, now).value.link
      && r.open.value.IterationRow? && r.open.value.iteration == name
      && r.open.value.lastReadDate == Valid(now)
  {
    var current := CurrentRep(t, now).value;
    var removal := RemoveCurrentRep(t, now);
    var scheduled := Schedule(env, IterationScheduler(name), removal.table, current, now);
    IterationStamps(env, name, removal.table, current, now);
    assert Advancing(env, IterationScheduler(name), t, now).open
        == RowToOpen(scheduled.row, NextRep(t, now), now) == Some(scheduled.row);
  }

  /** Under the simple scheduler the reviewed row stays due and is opened. */
  lemma SimpleOpensCurrent(env: Env, t: Table, now: Date)
    requires Loaded(env, t, now) && !NothingDue(t, now)
    ensures var r := Advancing(env, SimpleScheduler, t, now);
      r.open.Some? && SameExceptPriority(r.open.value, CurrentRep(t, now).value)
  {
    var current := CurrentRep(t, now).value;
    var removal := RemoveCurrentRep(t, now);
    var scheduled := Schedule(env, SimpleScheduler, removal.table, current, now);
    SimpleKeepsDate(env, removal.table, current, now);
    assert Advancing(env, SimpleScheduler, t, now).open
        == RowToOpen(scheduled.row, NextRep(t, now), now) == Some(scheduled.row);
  }

  /** Under the factor scheduler, with sound helpers and a factor of at
      least one, the reviewed factor row is pushed past today, so the row
      opened is the one that was next, when that one is due. */
  lemma AFactorOpensNext(env: Env, s: Scheduler, t: Table, now: Date)
    requires Loaded(env, t, now) && !NothingDue(t, now)
    requires s.AFactorScheduler? && Sound(env) && s.afactor >= 1.0
    requires CurrentRep(t, now).value.AFactorRow? && CurrentRep(t, now).value.interval >= 1.0
    ensures var r := Advancing(env, s, t, now);
      var next := NextRep(t, now);
      r.open == if next.Some? && IsDue(next.value, now) then next else None
  {
    var current := CurrentRep(t, now).value;
    var removal := RemoveCurrentRep(t, now);
    var scheduled := Schedule(env, s, removal.table, current, now);
    AFactorMovesOn(env, s, removal.table, current, now);
    assert Advancing(env, s, t, now).open == RowToOpen(scheduled.row, NextRep(t, now), now);
  }

  // ---------------------------------------------------------------------
  // Adding rows

  /** Whether `add` turns a candidate away: its link is already in the
      table, or its link or notes contain a pipe. */
  predicate Rejected(env: Env, present: seq<Row>, row: Row)
  {
    LinkIn(present, env.removeBrackets(row.link)) || '|' in row.link || '|' in row.notes
  }

  /** The candidates `add` accepts, in order: each is checked against the
      table as it stands, rows accepted before it included. */
  function Accept(env: Env, present: seq<Row>, candidates: seq<Row>): seq<Row>
    decreases |candidates|
  {
    if candidates == [] then []
    else if Rejected(env, present, candidates[0]) then Accept(env, present, candidates[1..])
    else [candidates[0]] + Accept(env, present + [candidates[0]], candidates[1..])
  }

  /** One candidate examined: rejected, it adds nothing; accepted, it goes
      in front of what the rest adds to the grown table. */
  lemma AcceptStep(env: Env, present: seq<Row>, candidates: seq<Row>)
    requires candidates != []
    ensures var c := candidates[0];
      && (LinkIn(present, env.removeBrackets(c.link)) || '|' in c.link || '|' in c.notes
          ==> Accept(env, present, candidates) == Accept(env, present, candidates[1..]))
      && (!LinkIn(present, env.removeBrackets(c.link)) && '|' !in c.link && '|' !in c.notes
          ==> Accept(env, present, candidates) == [c] + Accept(env, present + [c], candidates[1..]))
  {
  }

  /** The loop of `add` over the candidates: each is appended unless it is
      rejected; the rows already there are left alone. */
  method AddRows(env: Env, t: Table, candidates: seq<Row>) returns (r: Table, accepted: seq<Row>)
    ensures accepted == Accept(env, t.rows, candidates)
    ensures r == t.(rows := t.rows + accepted)
  {
    r := t;
    accepted := [];
    var i := 0;
    while i < |candidates|
      invariant 0 <= i <= |candidates|
      invariant r == t.(rows := t.rows + accepted)
      invariant accepted + Accept(env, r.rows, candidates[i..]) == Accept(env, t.rows, candidates)
    {
      var row := candidates[i];
      AcceptStep(env, r.rows, candidates[i..]);
      assert candidates[i..][0] == row && candidates[i..][1..] == candidates[i + 1..];
      if HasRowWithLink(env, r, row.link) {
        // already in the queue
      } else if '|' in row.link || '|' in row.notes {
        // a pipe would break the table line
      } else {
        var present := r.rows;
        r := AppendRow(r, row);
        assert r.rows == present + [row];
        Seqs.ConcatAssoc(t.rows, accepted, [row]);
        Seqs.ConcatAssoc(accepted, [row], Accept(env, r.rows, candidates[i + 1..]));
        accepted := accepted + [row];
      }
      i := i + 1;
    }
    assert candidates[i..] == [];
  }

  /** What `add` accepts is a selection of the candidates in their order;
      none contains a pipe, none links to a row that was present, and no
      two of them share a link. */
  lemma {:induction false} AcceptSound(env: Env, present: seq<Row>, candidates: seq<Row>)
    ensures var a := Accept(env, present, candidates);
      && Seqs.IsSubsequence(a, candidates)
      && (forall i :: 0 <= i < |a| ==>
            '|' !in a[i].link && '|' !in a[i].notes && !LinkIn(present, env.removeBrackets(a[i].link)))
      && (forall i, j :: 0 <= i < j < |a| ==> a[i].link != env.removeBrackets(a[j].link))
    decreases |candidates|
  {
    if candidates != [] {
      var c := candidates[0];
      var rest := candidates[1..];
      if Rejected(env, present, c) {
        AcceptSound(env, present, rest);
        var a := Accept(env, present, rest);
        if a != [] {
          assert Seqs.IsSubsequence(a, candidates);
        }
      } else {
        var p := present + [c];
        AcceptSound(env, p, rest);
        var a := Accept(env, p, rest);
        var full := [c] + a;
        assert full[1..] == a;
        forall i | 0 <= i < |full|
          ensures !LinkIn(present, env.removeBrackets(full[i].link))
        {
          if i > 0 {
            LinkInPrefix(present, c, env.removeBrackets(full[i].link));
          }
        }
        forall i, j | 0 <= i < j < |full|
          ensures full[i].link != env.removeBrackets(full[j].link)
        {
          if i == 0 {
            assert !LinkIn(p, env.removeBrackets(full[j].link));
            assert p[|present|] == c;
          }
        }
      }
    }
  }

  /** A link absent from a table with one more row is absent from the table. */
  lemma LinkInPrefix(present: seq<Row>, c: Row, link: string)
    requires !LinkIn(present + [c], link)
    ensures !LinkIn(present, link) && c.link != link
  {
    assert (present + [c])[|present|] == c;
    forall i | 0 <= i < |present|
      ensures present[i].link != link
    {
      assert (present + [c])[i] == present[i];
    }
  }

  /** `add` examines the candidates one after the other: what it accepts
      from a list followed by more candidates is what it accepts from the
      list, then what it accepts from the rest against the grown table. */
  lemma {:induction false} AcceptConcat(env: Env, present: seq<Row>, a: seq<Row>, b: seq<Row>)
    ensures Accept(env, present, a + b)
         == Accept(env, present, a) + Accept(env, present + Accept(env, present, a), b)
    decreases |a|
  {
    if a == [] {
      assert a + b == b;
      assert present + [] == present;
    } else {
      var c := a[0];
      assert (a + b)[0] == c && (a + b)[1..] == a[1..] + b;
      if Rejected(env, present, c) {
        AcceptConcat(env, present, a[1..], b);
      } else {
        var p := present + [c];
        AcceptConcat(env, p, a[1..], b);
        assert present + ([c] + Accept(env, p, a[1..])) == p + Accept(env, p, a[1..]);
      }
    }
  }

  /** The k-th candidate is accepted exactly when it is not rejected by the
      table grown by the candidates accepted before it; in particular every
      pipe-free candidate whose link is new to that table is accepted. */
  lemma AcceptComplete(env: Env, present: seq<Row>, candidates: seq<Row>, k: nat)
    requires k < |candidates|
    ensures var before := Accept(env, present, candidates[..k]);
      Accept(env, present, candidates[..k + 1])
        == before + (if Rejected(env, present + before, candidates[k]) then [] else [candidates[k]])
    ensures var before := Accept(env, present, candidates[..k]);
      && '|' !in candidates[k].link && '|' !in candidates[k].notes
      && !LinkIn(present + before, env.removeBrackets(candidates[k].link))
      ==> candidates[k] in Accept(env, present, candidates)
  {
    var c := candidates[k];
    var before := Accept(env, present, candidates[..k]);
    assert candidates[..k + 1] == candidates[..k] + [c];
    AcceptConcat(env, present, candidates[..k], [c]);
    assert [c][1..] == [];
    var upTo := Accept(env, present, candidates[..k + 1]);
    assert candidates == candidates[..k + 1] + candidates[k + 1..];
    AcceptConcat(env, present, candidates[..k + 1], candidates[k + 1..]);
    if !Rejected(env, present + before, c) {
      assert upTo[|before|] == c;
      assert Accept(env, present, candidates)[|before|] == c;
    }
  }


  /** `createTableIfNotExists` followed by reading the file: a missing
      file is created holding the initial text; an existing one is read as
      it is. */
  function Created(env: Env, s: Scheduler, stored: Option<string>): (r: Option<string>)
    ensures r.Some?
    ensures stored.Some? ==> r == stored
    ensures stored.None? ==> r == Some(Document(env, s, Table([], false)))
  {
    if stored.None? then Some(InitialText(env, s)) else stored
  }

  /** `add(...rows)`: create the file when it is missing, then load; with
      nothing to load, stop without writing; otherwise append the accepted
      candidates and write. A malformed row aborts the operation. */
  method Add(env: Env, s: Scheduler, kind: RowKind, stored: Option<string>, candidates: seq<Row>, now: Date)
    returns (r: Result<Option<Written>, LoadError>)
    ensures var loaded := Load(env, kind, Created(env, s, stored), now);
      && (loaded == Failure(MalformedRow) <==> r == Failure(MalformedRow))
      && (loaded == Failure(NoQueueText) <==> r == Success(None))
      && (loaded.Success? ==>
            var t := loaded.value;
            && r.Success? && r.value.Some?
            && r.value.value == WriteQueueTable(env, s, t.(rows := t.rows + Accept(env, t.rows, candidates)), now))
  {
    var loaded := Load(env, kind, Created(env, s, stored), now);
    if loaded.Failure? {
      if loaded.error == NoQueueText {
        return Success(None);
      }
      return Failure(MalformedRow);
    }
    var table, accepted := AddRows(env, loaded.value, candidates);
    return Success(Some(WriteQueueTable(env, s, table, now)));
  }
}
