/** The three schedulers: how each re-files a reviewed row into the table,
    and the front matter each writes at the top of the queue document. */
module Schedulers {
  import opened Host
  import opened Rows
  import opened Table
  import Seqs
  import Text

  /** The active scheduler with its settings. */
  datatype Scheduler =
    | SimpleScheduler
    | AFactorScheduler(afactor: real, interval: real)
    | IterationScheduler(iteration: string)

  /** The factor that replaces an invalid one. */
  const DefaultAFactor: real := 2.0

  /** `new AFactorScheduler(afactor, interval)`: an invalid factor becomes
      2 and an invalid interval 1. */
  function NewAFactorScheduler(env: Env, afactor: JsNumber, interval: JsNumber): (s: Scheduler)
    ensures s.AFactorScheduler?
    ensures s.afactor == Sanitize(afactor, env.isValidAFactor, DefaultAFactor)
    ensures s.interval == Sanitize(interval, env.isValidInterval, DefaultInterval)
  {
    AFactorScheduler(Sanitize(afactor, env.isValidAFactor, DefaultAFactor),
                     Sanitize(interval, env.isValidInterval, DefaultInterval))
  }

  /** The settings a scheduler can hold: those its constructor lets through. */
  predicate ValidScheduler(env: Env, s: Scheduler)
  {
    s.AFactorScheduler? ==>
      (env.isValidAFactor(s.afactor) || s.afactor == DefaultAFactor)
      && (env.isValidInterval(s.interval) || s.interval == DefaultInterval)
  }

  /** Whatever it is given, the constructor yields valid settings, so with
      sound helpers a factor and an interval of at least one. */
  lemma NewAFactorSchedulerValid(env: Env, afactor: JsNumber, interval: JsNumber)
    ensures ValidScheduler(env, NewAFactorScheduler(env, afactor, interval))
    ensures Sound(env) ==> (NewAFactorScheduler(env, afactor, interval).afactor >= 1.0
                            && NewAFactorScheduler(env, afactor, interval).interval >= 1.0)
  {
  }

  /** The row class a scheduler works with. */
  function KindOf(s: Scheduler): RowKind
  {
    match s
    case SimpleScheduler => SimpleKind
    case AFactorScheduler(_, _) => AFactorKind
    case IterationScheduler(_) => IterationKind
  }

  // ---------------------------------------------------------------------
  // Priority spreading

  /** `round(2)`: to the nearest hundredth, halves rounded up. */
  function Round2(x: real): (r: real)
    ensures x - 0.005 < r <= x + 0.005
    ensures (r * 100.0).Floor as real == r * 100.0
  {
    ((x * 100.0 + 0.5).Floor as real) / 100.0
  }

  /** Rounding never reverses an order. */
  lemma Round2Monotone(x: real, y: real)
    requires x <= y
    ensures Round2(x) <= Round2(y)
  {
    assert (x * 100.0 + 0.5).Floor <= (y * 100.0 + 0.5).Floor;
  }

  /** Values at least a hundredth apart round to different hundredths. */
  lemma Round2Separates(x: real, y: real)
    requires x + 0.01 <= y
    ensures Round2(x) < Round2(y)
  {
    assert (x * 100.0 + 0.5).Floor + 1 <= (y * 100.0 + 0.5).Floor;
  }

  /** The distance between neighbouring priorities when `n` rows are spread. */
  function Step(n: nat): (step: real)
    requires n > 0
    ensures step > 0.0 && step * n as real == 99.9
  {
    99.9 / n as real
  }

  /** The `k`-th of `n` priorities before rounding: `k` steps. */
  function Exact(n: nat, k: nat): real
    requires n > 0
  {
    Step(n) * k as real
  }

  /** The priority the `k`-th of `n` rows gets: `k` steps of `99.9 / n`, rounded. */
  function SpreadPriority(n: nat, k: nat): real
    requires n > 0
  {
    Round2(Exact(n, k))
  }

  /** With at most `m` rows a step is at least `99.9 / m`. */
  lemma StepBound(n: nat, m: nat)
    requires 0 < n <= m
    ensures Step(n) * m as real >= 99.9
  {
    var d := (m - n) as real;
    assert m as real == n as real + d;
    assert Step(n) * m as real == Step(n) * n as real + Step(n) * d;
    assert Step(n) * d >= 0.0;
  }

  /** Later rows are further along by whole steps. */
  lemma ExactGap(n: nat, j: nat, k: nat)
    requires n > 0 && j <= k
    ensures Exact(n, k) == Exact(n, j) + Step(n) * (k - j) as real
    ensures Exact(n, k) >= Exact(n, j) + Step(n) * (if j < k then 1.0 else 0.0)
  {
    var d := (k - j) as real;
    assert k as real == j as real + d;
    assert Step(n) * k as real == Step(n) * j as real + Step(n) * d;
    if j < k {
      assert d >= 1.0;
      assert Step(n) * d >= Step(n) * 1.0;
    }
  }

  /** Spreading gives non-decreasing priorities along the table. */
  lemma SpreadPriorityMonotone(n: nat, j: nat, k: nat)
    requires n > 0 && j <= k
    ensures SpreadPriority(n, j) <= SpreadPriority(n, k)
  {
    ExactGap(n, j, k);
    Round2Monotone(Exact(n, j), Exact(n, k));
  }

  /** With at most 9990 rows the steps are at least a hundredth, so
      spreading gives distinct priorities. */
  lemma SpreadPriorityStrict(n: nat, j: nat, k: nat)
    requires 0 < n <= 9990 && j < k
    ensures SpreadPriority(n, j) < SpreadPriority(n, k)
  {
    StepBound(n, 9990);
    ExactGap(n, j, k);
    Round2Separates(Exact(n, j), Exact(n, k));
  }

  /** The last row gets exactly 99.9. */
  lemma SpreadPriorityLast(n: nat)
    requires n > 0
    ensures SpreadPriority(n, n) == 99.9
  {
    assert Exact(n, n) == 99.9;
    assert (99.9 * 100.0 + 0.5).Floor == 9990;
  }

  /** With at most 19980 rows even the first row gets a positive priority. */
  lemma SpreadPriorityPositive(n: nat, k: nat)
    requires 0 < n <= 19980 && 1 <= k
    ensures SpreadPriority(n, k) > 0.0
  {
    StepBound(n, 19980);
    ExactGap(n, 1, k);
    assert Exact(n, 1) == Step(n);
    assert (Exact(n, k) * 100.0 + 0.5).Floor >= 1;
  }

  /** The loop that spreads priorities: the `k`-th row (from 1) gets
      `SpreadPriority(n, k)`, nothing else changes. */
  function Spread(rows: seq<Row>): (r: seq<Row>)
    ensures |r| == |rows|
    ensures forall i :: 0 <= i < |r| ==> SameExceptPriority(r[i], rows[i])
    ensures forall i :: 0 <= i < |r| ==> r[i].priority == SpreadPriority(|rows|, i + 1)
  {
    seq(|rows|, i requires 0 <= i < |rows| => rows[i].(priority := SpreadPriority(|rows|, i + 1)))
  }

  /** After spreading the priorities rise along the table, the last row's
      being 99.9; with at most 9990 rows they rise strictly, and with at
      most 19980 rows all are positive. */
  lemma SpreadOrdered(rows: seq<Row>)
    ensures Seqs.SortedBy(Spread(rows), Priority)
    ensures |rows| > 0 ==> Spread(rows)[|rows| - 1].priority == 99.9
    ensures |rows| <= 9990 ==>
      forall i, j :: 0 <= i < j < |rows| ==> Spread(rows)[i].priority < Spread(rows)[j].priority
    ensures |rows| <= 19980 ==>
      forall i :: 0 <= i < |rows| ==> 0.0 < Spread(rows)[i].priority <= 99.9
  {
    var r := Spread(rows);
    var n := |rows|;
    forall i, j | 0 <= i < j < n
      ensures Priority(r[i]) <= Priority(r[j])
    {
      SpreadPriorityMonotone(n, i + 1, j + 1);
    }
    if n > 0 {
      SpreadPriorityLast(n);
    }
    if n <= 9990 {
      forall i, j | 0 <= i < j < n
        ensures r[i].priority < r[j].priority
      {
        SpreadPriorityStrict(n, i + 1, j + 1);
      }
    }
    if n <= 19980 {
      forall i | 0 <= i < n
        ensures 0.0 < r[i].priority <= 99.9
      {
        SpreadPriorityPositive(n, i + 1);
        SpreadPriorityMonotone(n, i + 1, n);
        SpreadPriorityLast(n);
      }
    }
  }

  // ---------------------------------------------------------------------
  // Scheduling

  /** What `schedule` leaves behind: the table and the reviewed row as it
      now is. */
  datatype Scheduled = Scheduled(table: Table, row: Row)

  /** `schedule(table, row)` with `now` as today. The simple scheduler
      appends any row and re-spreads priorities; the iteration scheduler
      does so for an iteration row after stamping it with its label and
      today; the factor scheduler moves a factor row's next date on by its
      interval, multiplies the interval by the factor and appends it. A
      row of the wrong class is left out of the table. */
  function Schedule(env: Env, s: Scheduler, t: Table, row: Row, now: Date): (r: Scheduled)
    ensures r.table.removedDeleted == t.removedDeleted
    ensures s.SimpleScheduler? || row.Kind() == KindOf(s) ==>
      |r.table.rows| == |t.rows| + 1 && r.table.rows[|t.rows|] == r.row && r.row.link == row.link
    ensures !s.SimpleScheduler? && row.Kind() != KindOf(s) ==> r == Scheduled(t, row)
  {
    match s
    case SimpleScheduler =>
      var rows := Spread(t.rows + [row]);
      Scheduled(t.(rows := rows), rows[|rows| - 1])
    case IterationScheduler(iteration) =>
      if row.IterationRow? then
        var stamped := row.(iteration := iteration, lastReadDate := Valid(now));
        var rows := Spread(t.rows + [stamped]);
        Scheduled(t.(rows := rows), rows[|rows| - 1])
      else Scheduled(t, row)
    case AFactorScheduler(afactor, _) =>
      if row.AFactorRow? then
        var moved := row.(nextRepDate := env.addDays(now, row.interval), interval := afactor * row.interval);
        Scheduled(AppendRow(t, moved), moved)
      else Scheduled(t, row)
  }

  /** Simple and iteration scheduling of a matching row: one row more, the
      reviewed row last, priorities spread, nothing but priorities changed
      in the rows that were there. */
  lemma ScheduleSpreads(env: Env, s: Scheduler, t: Table, row: Row, now: Date)
    requires s.SimpleScheduler? || (s.IterationScheduler? && row.IterationRow?)
    ensures var r := Schedule(env, s, t, row, now);
      && |r.table.rows| == |t.rows| + 1
      && r.row == r.table.rows[|t.rows|]
      && (forall i :: 0 <= i < |t.rows| ==> SameExceptPriority(r.table.rows[i], t.rows[i]))
      && Seqs.SortedBy(r.table.rows, Priority)
      && r.row.priority == 99.9
      && r.row.link == row.link && r.row.notes == row.notes
  {
    var stamped := if s.SimpleScheduler? then row
                   else row.(iteration := s.iteration, lastReadDate := Valid(now));
    var all := t.rows + [stamped];
    SpreadOrdered(all);
    assert forall i :: 0 <= i < |t.rows| ==> all[i] == t.rows[i];
  }

  /** The simple scheduler leaves the reviewed row's interval and date alone. */
  lemma SimpleKeepsDate(env: Env, t: Table, row: Row, now: Date)
    ensures SameExceptPriority(Schedule(env, SimpleScheduler, t, row, now).row, row)
    ensures IsDue(Schedule(env, SimpleScheduler, t, row, now).row, now) == IsDue(row, now)
  {
    SpreadOrdered(t.rows + [row]);
  }

  /** The iteration scheduler stamps an iteration row with its label and
      today; the row stays due. */
  lemma IterationStamps(env: Env, name: string, t: Table, row: Row, now: Date)
    requires row.IterationRow?
    ensures var r := Schedule(env, IterationScheduler(name), t, row, now).row;
      && r.IterationRow? && r.iteration == name && r.lastReadDate == Valid(now) && IsDue(r, now)
      && r.link == row.link && r.notes == row.notes
  {
    ScheduleSpreads(env, IterationScheduler(name), t, row, now);
  }

  /** Factor scheduling of a factor row: the rows that were there are
      untouched, priorities included; the row is appended with its next
      date one interval after today and its interval multiplied by the
      factor. With sound helpers, a factor of at least one and an interval
      of at least one day, the interval does not shrink and the row is no
      longer due today. */
  lemma AFactorMovesOn(env: Env, s: Scheduler, t: Table, row: Row, now: Date)
    requires s.AFactorScheduler? && row.AFactorRow?
    ensures var r := Schedule(env, s, t, row, now);
      && r.table.rows == t.rows + [r.row]
      && r.row.link == row.link && r.row.priority == row.priority && r.row.notes == row.notes
      && r.row.nextRepDate == env.addDays(now, row.interval)
      && r.row.interval == s.afactor * row.interval
      && (Sound(env) && s.afactor >= 1.0 && row.interval >= 1.0 ==>
            r.row.interval >= row.interval && !IsDue(r.row, now))
  {
    var r := Schedule(env, s, t, row, now);
    if Sound(env) && s.afactor >= 1.0 && row.interval >= 1.0 {
      assert s.afactor * row.interval >= 1.0 * row.interval;
      assert env.addDays(now, row.interval) > now;
    }
  }

  /** Scheduling a row its scheduler handles puts it back: one row more,
      and every row keeps its link, the reviewed row's last. */
  lemma ScheduleKeepsLinks(env: Env, s: Scheduler, t: Table, row: Row, now: Date)
    requires s.SimpleScheduler? || row.Kind() == KindOf(s)
    ensures var r := Schedule(env, s, t, row, now);
      && |r.table.rows| == |t.rows| + 1
      && (forall i :: 0 <= i < |t.rows| ==> r.table.rows[i].link == t.rows[i].link)
      && r.table.rows[|t.rows|].link == row.link
  {
    if s.AFactorScheduler? {
      AFactorMovesOn(env, s, t, row, now);
    } else {
      ScheduleSpreads(env, s, t, row, now);
      var r := Schedule(env, s, t, row, now);
      forall i | 0 <= i < |t.rows|
        ensures r.table.rows[i].link == t.rows[i].link
      {
        assert SameExceptPriority(r.table.rows[i], t.rows[i]);
        assert r.table.rows[i].(priority := 0.0).link == t.rows[i].(priority := 0.0).link;
      }
    }
  }


  // ---------------------------------------------------------------------
  // Front matter

  /** The scheduler's name as the front matter records it. */
  function Name(s: Scheduler): string
  {
    match s
    case SimpleScheduler => "simple"
    case AFactorScheduler(_, _) => "afactor"
    case IterationScheduler(_) => "iteration"
  }

  /** `toString()`: the front matter block, line by line. The iteration
      scheduler writes the label "Test" whatever its own label is. */
  function FrontMatterLines(env: Env, s: Scheduler): (lines: seq<string>)
    ensures |lines| >= 3 && lines[0] == Delimiter && lines[|lines| - 1] == Delimiter
    ensures forall i :: 0 < i < |lines| - 1 ==> lines[i] != Delimiter
    ensures lines[1] == "scheduler: \"" + Name(s) + "\""
  {
    var first := "scheduler: \"" + Name(s) + "\"";
    assert first[0] == 's';
    match s
    case SimpleScheduler => [Delimiter, first, Delimiter]
    case IterationScheduler(_) =>
      var second := "iteration: \"Test\"";
      [Delimiter, first, second, Delimiter]
    case AFactorScheduler(afactor, interval) =>
      var second := "afactor: " + env.showNumber(afactor);
      var third := "interval: " + env.showNumber(interval);
      assert second[0] == 'a' && third[0] == 'i';
      [Delimiter, first, second, third, Delimiter]
  }

  /** The front matter text. */
  function FrontMatter(env: Env, s: Scheduler): string
  {
    Text.Join(FrontMatterLines(env, s), "\n")
  }

  /** The key/value pairs the front matter of a scheduler spells out. */
  function FrontMatterData(env: Env, s: Scheduler): map<string, string>
  {
    match s
    case SimpleScheduler => map["scheduler" := "simple"]
    case IterationScheduler(_) => map["scheduler" := "iteration", "iteration" := "Test"]
    case AFactorScheduler(afactor, interval) =>
      map["scheduler" := "afactor", "afactor" := env.showNumber(afactor), "interval" := env.showNumber(interval)]
  }

  /** How the front matter writes one key: the numbers bare, the names in
      double quotes. */
  function YamlLine(key: string, value: string): string
  {
    if key == "afactor" || key == "interval" then key + ": " + value
    else key + ": \"" + value + "\""
  }

  /** The lines between the delimiters spell out the scheduler's key/value
      pairs: every line is one key's, and every key has its line. */
  predicate WritesData(lines: seq<string>, data: map<string, string>)
    requires |lines| >= 2
  {
    && (forall i :: 0 < i < |lines| - 1 ==> LineOfData(lines[i], data))
    && (forall k :: k in data ==> YamlLine(k, data[k]) in lines[1..|lines| - 1])
  }

  /** The front matter a scheduler writes holds exactly its key/value pairs. */
  lemma FrontMatterWritesData(env: Env, s: Scheduler)
    ensures WritesData(FrontMatterLines(env, s), FrontMatterData(env, s))
  {
    match s
    case SimpleScheduler =>
      SimpleWritesData(env);
    case IterationScheduler(tag) =>
      IterationWritesData(env, tag);
    case AFactorScheduler(afactor, interval) =>
      AFactorWritesData(env, afactor, interval);
  }

  /** The simple scheduler writes its one key. */
  lemma SimpleWritesData(env: Env)
    ensures WritesData(FrontMatterLines(env, SimpleScheduler), FrontMatterData(env, SimpleScheduler))
  {
    var lines := FrontMatterLines(env, SimpleScheduler);
    var data := FrontMatterData(env, SimpleScheduler);
    assert lines[1] == YamlLine("scheduler", data["scheduler"]);
    KeyedLines(lines, ["scheduler"], data);
  }

  /** The iteration scheduler writes its name and the label "Test". */
  lemma IterationWritesData(env: Env, tag: string)
    ensures WritesData(FrontMatterLines(env, IterationScheduler(tag)), FrontMatterData(env, IterationScheduler(tag)))
  {
    var lines := FrontMatterLines(env, IterationScheduler(tag));
    var data := FrontMatterData(env, IterationScheduler(tag));
    assert lines[1] == YamlLine("scheduler", data["scheduler"]);
    assert lines[2] == YamlLine("iteration", data["iteration"]);
    KeyedLines(lines, ["scheduler", "iteration"], data);
  }

  /** The factor scheduler writes its name, factor and interval. */
  lemma AFactorWritesData(env: Env, afactor: real, interval: real)
    ensures WritesData(FrontMatterLines(env, AFactorScheduler(afactor, interval)),
                       FrontMatterData(env, AFactorScheduler(afactor, interval)))
  {
    var lines := FrontMatterLines(env, AFactorScheduler(afactor, interval));
    var data := FrontMatterData(env, AFactorScheduler(afactor, interval));
    assert lines[1] == YamlLine("scheduler", data["scheduler"]);
    assert lines[2] == YamlLine("afactor", data["afactor"]);
    assert lines[3] == YamlLine("interval", data["interval"]);
    KeyedLines(lines, ["scheduler", "afactor", "interval"], data);
  }

  /** Lines that spell out, between two delimiters, one listed key each,
      where every key of the data is listed. */
  lemma KeyedLines(lines: seq<string>, keys: seq<string>, data: map<string, string>)
    requires |lines| == |keys| + 2
    requires forall j :: 0 <= j < |keys| ==> keys[j] in data && lines[j + 1] == YamlLine(keys[j], data[keys[j]])
    requires forall k :: k in data ==> k in keys
    ensures WritesData(lines, data)
  {
    forall i | 0 < i < |lines| - 1
      ensures LineOfData(lines[i], data)
    {
      assert keys[i - 1] in data && lines[i] == YamlLine(keys[i - 1], data[keys[i - 1]]);
    }
    forall k | k in data
      ensures YamlLine(k, data[k]) in lines[1..|lines| - 1]
    {
      var j :| 0 <= j < |keys| && keys[j] == k;
      assert lines[1..|lines| - 1][j] == YamlLine(k, data[k]);
    }
  }

  /** A line that spells out one key of the data. */
  predicate LineOfData(line: string, data: map<string, string>)
  {
    exists k :: k in data && line == YamlLine(k, data[k])
  }

  /** The iteration label never reaches the document. */
  lemma IterationLabelNotWritten(env: Env, a: string, b: string)
    ensures FrontMatter(env, IterationScheduler(a)) == FrontMatter(env, IterationScheduler(b))
  {
  }

  /** The end of the front matter is found where the front matter puts it,
      whatever follows. */
  lemma FrontMatterEnd(env: Env, s: Scheduler, rest: seq<string>)
    ensures FindYamlEnd(FrontMatterLines(env, s) + rest) == |FrontMatterLines(env, s)| - 1
  {
    var fm := FrontMatterLines(env, s);
    var lines := fm + rest;
    var idx := FindYamlEnd(lines);
    var end := |fm| - 1;
    assert lines[..end + 1] == fm;
    CountFrontMatter(fm, end);
    assert lines[..end] == fm[..end];
    CountPrefixStep(lines, end);
    CountMonotone(lines, end + 1);
    assert idx != -1;
    if idx > end {
      assert lines[..idx][..end + 1] == lines[..end + 1];
      CountMonotone(lines[..idx], end + 1);
    }
  }

  /** In the front matter, the delimiter occurs once before its last line. */
  lemma CountFrontMatter(fm: seq<string>, i: nat)
    requires |fm| >= 3 && fm[0] == Delimiter
    requires forall k :: 0 < k < |fm| - 1 ==> fm[k] != Delimiter
    requires 1 <= i <= |fm| - 1
    ensures CountDelimiters(fm[..i]) == 1
  {
    if i == 1 {
      assert fm[..1][..0] == [];
    } else {
      CountFrontMatter(fm, i - 1);
      CountPrefixStep(fm, i - 1);
    }
  }
}
