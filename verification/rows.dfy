/** The three kinds of queue row, their sanitising constructors, when each
    is due, and the five table cells each renders to. */
module Rows {
  import opened Host
  import Text

  /** Which row class a table holds; chosen by the active scheduler. */
  datatype RowKind = SimpleKind | AFactorKind | IterationKind

  /** One review item: the link it points at, a priority used only for
      ordering (lower comes first), free-text notes, and the fields the
      row's scheduler works with. */
  datatype Row =
    | SimpleRow(link: string, priority: real, notes: string, interval: real, nextRepDate: Date)
    | AFactorRow(link: string, priority: real, notes: string, interval: real, nextRepDate: Date)
    | IterationRow(link: string, priority: real, notes: string, iteration: string, lastReadDate: JsDate)
  {
    function Kind(): RowKind
    {
      match this
      case SimpleRow(_, _, _, _, _) => SimpleKind
      case AFactorRow(_, _, _, _, _) => AFactorKind
      case IterationRow(_, _, _, _, _) => IterationKind
    }
  }

  /** The priority that replaces an invalid one. */
  const DefaultPriority: real := 30.0

  /** The interval that replaces an invalid one. */
  const DefaultInterval: real := 1.0

  /** Notes as every constructor leaves them: no line break and no pipe. */
  predicate CleanNotes(notes: string)
  {
    '\r' !in notes && '\n' !in notes && '|' !in notes
  }

  /** What every constructor guarantees of a row, whatever it was given:
      clean notes and, for the interval-based rows, an interval of at least
      one day when the helpers are sound. */
  ghost predicate Sanitized(env: Env, r: Row)
  {
    && CleanNotes(r.notes)
    && (Sound(env) && !r.IterationRow? ==> r.interval >= 1.0)
  }

  /** The notes a constructor stores: the given text with every line break
      and pipe removed. */
  function SanitizeNotes(notes: string): (r: string)
    ensures CleanNotes(r)
    ensures CleanNotes(notes) ==> r == notes
    ensures forall c :: multiset(r)[c] == if Text.IsBreakOrPipe(c) then 0 else multiset(notes)[c]
  {
    Text.StripClean(notes);
    Text.StripBreaksAndPipes(notes)
  }

  /** `new SimpleSchedulerTableRow(link, priority, notes, interval, nextRepDate)`. */
  function NewSimpleRow(env: Env, link: string, priority: JsNumber, notes: string,
                        interval: JsNumber, nextRepDate: JsDate): (r: Row)
    ensures r.SimpleRow? && Sanitized(env, r)
    ensures r.link == env.removeBrackets(link)
    ensures r.priority == Sanitize(priority, env.isValidPriority, DefaultPriority)
    ensures r.notes == SanitizeNotes(notes)
    ensures r.interval == Sanitize(interval, env.isValidInterval, DefaultInterval)
    ensures r.nextRepDate == ValidDate(nextRepDate)
  {
    SimpleRow(env.removeBrackets(link),
              Sanitize(priority, env.isValidPriority, DefaultPriority),
              SanitizeNotes(notes),
              Sanitize(interval, env.isValidInterval, DefaultInterval),
              ValidDate(nextRepDate))
  }

  /** `new AfactorSchedulerTableRow(link, priority, notes, interval, nextRepDate)`:
      the same sanitising as the simple row. */
  function NewAFactorRow(env: Env, link: string, priority: JsNumber, notes: string,
                         interval: JsNumber, nextRepDate: JsDate): (r: Row)
    ensures r.AFactorRow? && Sanitized(env, r)
    ensures r.link == env.removeBrackets(link)
    ensures r.priority == Sanitize(priority, env.isValidPriority, DefaultPriority)
    ensures r.notes == SanitizeNotes(notes)
    ensures r.interval == Sanitize(interval, env.isValidInterval, DefaultInterval)
    ensures r.nextRepDate == ValidDate(nextRepDate)
  {
    AFactorRow(env.removeBrackets(link),
               Sanitize(priority, env.isValidPriority, DefaultPriority),
               SanitizeNotes(notes),
               Sanitize(interval, env.isValidInterval, DefaultInterval),
               ValidDate(nextRepDate))
  }

  /** `new IterationSchedulerTableRow(link, priority, notes, iteration, lastReadDate)`:
      link, priority and notes are sanitised; the label and the date are
      stored as given, an invalid date included. */
  function NewIterationRow(env: Env, link: string, priority: JsNumber, notes: string,
                           iteration: string, lastReadDate: JsDate): (r: Row)
    ensures r.IterationRow? && Sanitized(env, r)
    ensures r.link == env.removeBrackets(link)
    ensures r.priority == Sanitize(priority, env.isValidPriority, DefaultPriority)
    ensures r.notes == SanitizeNotes(notes)
    ensures r.iteration == iteration && r.lastReadDate == lastReadDate
  {
    IterationRow(env.removeBrackets(link),
                 Sanitize(priority, env.isValidPriority, DefaultPriority),
                 SanitizeNotes(notes),
                 iteration,
                 lastReadDate)
  }

  /** Rebuilding a row from its own stored fields keeps priority, notes,
      interval and date: every sanitised value is a fixed point. */
  lemma ResanitizeFixed(env: Env, r: Row, link: string)
    requires Sanitized(env, r)
    ensures r.SimpleRow? ==>
      var r' := NewSimpleRow(env, link, Finite(r.priority), r.notes,
                             Finite(r.interval), Valid(r.nextRepDate));
      && (env.isValidPriority(r.priority) || r.priority == DefaultPriority ==> r'.priority == r.priority)
      && r'.notes == r.notes && r'.nextRepDate == r.nextRepDate
      && (env.isValidInterval(r.interval) || r.interval == DefaultInterval ==> r'.interval == r.interval)
    ensures r.AFactorRow? ==>
      var r' := NewAFactorRow(env, link, Finite(r.priority), r.notes,
                              Finite(r.interval), Valid(r.nextRepDate));
      && (env.isValidPriority(r.priority) || r.priority == DefaultPriority ==> r'.priority == r.priority)
      && r'.notes == r.notes && r'.nextRepDate == r.nextRepDate
      && (env.isValidInterval(r.interval) || r.interval == DefaultInterval ==> r'.interval == r.interval)
    ensures r.IterationRow? ==>
      var r' := NewIterationRow(env, link, Finite(r.priority), r.notes, r.iteration, r.lastReadDate);
      && (env.isValidPriority(r.priority) || r.priority == DefaultPriority ==> r'.priority == r.priority)
      && r'.notes == r.notes && r'.iteration == r.iteration && r'.lastReadDate == r.lastReadDate
  {
  }

  /** `isDue()`: interval-based rows are due from their next repetition
      date on; iteration rows are always due. */
  predicate IsDue(r: Row, now: Date)
  {
    match r
    case SimpleRow(_, _, _, _, next) => now >= next
    case AFactorRow(_, _, _, _, next) => now >= next
    case IterationRow(_, _, _, _, _) => true
  }

  /** An interval-based row falls due on its next repetition date and
      stays due from then on; a due row stays due as time passes. */
  lemma DueFromNextDate(r: Row, now: Date, later: Date)
    ensures now <= later && IsDue(r, now) ==> IsDue(r, later)
    ensures !r.IterationRow? ==> IsDue(r, r.nextRepDate) && (now < r.nextRepDate ==> !IsDue(r, now))
  {
  }

  /** A row built from an invalid date gets the epoch, so it is due at any
      time from the epoch on. */
  lemma InvalidDateIsDue(env: Env, link: string, priority: JsNumber, notes: string,
                         interval: JsNumber, d: JsDate, now: Date)
    requires d.Invalid? && now >= Epoch
    ensures IsDue(NewSimpleRow(env, link, priority, notes, interval, d), now)
    ensures IsDue(NewAFactorRow(env, link, priority, notes, interval, d), now)
  {
  }

  /** An iteration row is due whatever its fields, its date included. */
  lemma IterationRowIsDue(env: Env, link: string, priority: JsNumber, notes: string,
                          iteration: string, d: JsDate, now: Date)
    ensures IsDue(NewIterationRow(env, link, priority, notes, iteration, d), now)
  {
  }

  /** `toArray()`: the five cells link, priority, notes, interval or
      iteration label, and date. */
  function Cells(env: Env, r: Row): (cells: seq<string>)
    ensures |cells| == 5
    ensures cells[0] == env.addBrackets(r.link) && cells[1] == env.showNumber(r.priority) && cells[2] == r.notes
    ensures r.IterationRow? ==> cells[3] == r.iteration && cells[4] == env.formatDate(r.lastReadDate)
    ensures !r.IterationRow? ==> cells[3] == env.showNumber(r.interval) && cells[4] == env.formatDate(Valid(r.nextRepDate))
  {
    match r
    case SimpleRow(link, p, notes, interval, next) =>
      [env.addBrackets(link), env.showNumber(p), notes, env.showNumber(interval), env.formatDate(Valid(next))]
    case AFactorRow(link, p, notes, interval, next) =>
      [env.addBrackets(link), env.showNumber(p), notes, env.showNumber(interval), env.formatDate(Valid(next))]
    case IterationRow(link, p, notes, iteration, last) =>
      [env.addBrackets(link), env.showNumber(p), notes, iteration, env.formatDate(last)]
  }

  /** Everything of a row except its priority: what re-spreading
      priorities must leave alone. */
  predicate SameExceptPriority(a: Row, b: Row)
  {
    a.(priority := 0.0) == b.(priority := 0.0)
  }
}
