/** The values and helpers the queue core borrows from its runtime and its
    host application. Helpers whose code is not part of this model are
    fields of `Env`, so every operation is stated for whatever they do;
    `Sound` collects the only facts about them that proofs rely on. */
module Host {

  /** A calendar day, counted in days from 1970-01-01. */
  type Date = int

  /** 1970-01-01, the date an invalid date is replaced by. */
  const Epoch: Date := 0

  /** A JavaScript number. NaN and the infinities are lumped together as
      `NonFinite`; none of them is a usable priority, interval or factor. */
  datatype JsNumber = Finite(value: real) | NonFinite

  /** A JavaScript `Date`: a day, or the "Invalid Date" that `new Date`
      returns for text it cannot read. */
  datatype JsDate = Valid(day: Date) | Invalid

  /** The helpers of the host and of the runtime that the core calls.
      - `removeBrackets`/`addBrackets`: strip or add the `[[…]]` link markup;
      - `linkExists`: whether a link still resolves from the queue document;
      - `isValidPriority`, `isValidInterval`, `isValidAFactor`: the range
        checks on finite numbers;
      - `parseNumber`: `Number(text)`; `parseDate`: `new Date(text)`;
      - `addDays`: the day a number of days after another;
      - `formatDate`: `formatYYMMDD`; `showNumber`: `Number.prototype.toString`. */
  datatype Env = Env(
    removeBrackets: string -> string,
    addBrackets: string -> string,
    linkExists: string -> bool,
    isValidPriority: real -> bool,
    isValidInterval: real -> bool,
    isValidAFactor: real -> bool,
    parseNumber: string -> JsNumber,
    parseDate: string -> JsDate,
    addDays: (Date, real) -> Date,
    formatDate: JsDate -> string,
    showNumber: real -> string)

  /** What the proofs assume of the helpers: a valid factor or interval is
      at least 1, and adding at least one day moves a date forward. */
  ghost predicate Sound(env: Env)
  {
    && (forall a :: env.isValidAFactor(a) ==> a >= 1.0)
    && (forall i :: env.isValidInterval(i) ==> i >= 1.0)
    && (forall d, n :: n >= 1.0 ==> env.addDays(d, n) > d)
  }

  /** Replaces a number `isValid` rejects, or one that is not finite, by `default`. */
  function Sanitize(n: JsNumber, isValid: real -> bool, default: real): (r: real)
    ensures n.Finite? && isValid(n.value) ==> r == n.value
    ensures !(n.Finite? && isValid(n.value)) ==> r == default
  {
    if n.Finite? && isValid(n.value) then n.value else default
  }

  /** Sanitizing is idempotent: an accepted value and the default are both
      left as they are when sanitized again. */
  lemma SanitizeIdempotent(n: JsNumber, isValid: real -> bool, default: real)
    ensures Sanitize(Finite(Sanitize(n, isValid, default)), isValid, default)
         == Sanitize(n, isValid, default)
  {
  }

  /** The day of a valid date; the epoch for an invalid one. */
  function ValidDate(d: JsDate): (r: Date)
    ensures d.Valid? ==> r == d.day
    ensures d.Invalid? ==> r == Epoch
  {
    if d.Valid? then d.day else Epoch
  }
}
