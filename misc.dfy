/**
 * Miscellaneous tools: the exception wrapper with its `null` default handler
 * and the `timeUnit` table of durations in milliseconds.
 */
module Misc {
  import opened Js
  import Utils

  // ---------------------------------------------------------------------
  // handleException
  // ---------------------------------------------------------------------

  /** `handleException(fn, handler = null)`: the result of `fn()`; if `fn`
      throws, the handler's result on the thrown value when the handler is a
      function, and otherwise (the `null` default included) the thrown value
      itself. */
  function HandleException(fn: () -> Completion, handler: Option<JsValue -> JsValue> := None): (r: JsValue)
    ensures fn().Normal? ==> r == fn().value
    ensures fn().Thrown? && handler.Some? ==> r == handler.value(fn().exception)
    ensures fn().Thrown? && handler.None? ==> r == fn().exception
  {
    Utils.HandleException(fn, handler)
  }

  /** Without a handler, a computation that throws evaluates to what it threw
      and one that returns to what it returned: the wrapper turns the two ways
      of completing into one value. */
  lemma HandleExceptionWithoutHandler(v: JsValue)
    ensures HandleException(() => Thrown(v)) == v
    ensures HandleException(() => Normal(v)) == v
  {
  }

  /** A handler is consulted only when the computation throws. */
  lemma HandlerOnlyOnThrow(fn: () -> Completion, h1: JsValue -> JsValue, h2: JsValue -> JsValue)
    requires fn().Normal?
    ensures HandleException(fn, Some(h1)) == HandleException(fn, Some(h2)) == HandleException(fn)
  {
  }

  // ---------------------------------------------------------------------
  // timeUnit
  // ---------------------------------------------------------------------

  /** `timeUnit`: durations in milliseconds. Month, quarter and year are the
      averages over the 365.25-day year. */
  const Second: nat := 1000
  const Minute: nat := 60000
  const Hour: nat := 3600000
  const Day: nat := 86400000
  const Week: nat := 604800000
  const Month: nat := 2629800000
  const Quarter: nat := 7889400000
  const Year: nat := 31557600000

  /** A second is 1000 milliseconds, a minute 60 seconds, an hour 60
      minutes, a day 24 hours and a week 7 days. */
  lemma BaseUnits()
    ensures Second == 1000
    ensures Minute == 60 * Second
    ensures Hour == 60 * Minute
    ensures Day == 24 * Hour
    ensures Week == 7 * Day
  {
  }

  /** The average year is 365.25 days: four years are 1461 days. */
  lemma YearIsAverage()
    ensures 4 * Year == 1461 * Day
  {
  }

  /** The average month is a twelfth of the year, exactly 30.4375 days:
      twelve months are a year and sixteen months are 487 days. */
  lemma MonthIsTwelfthOfYear()
    ensures 12 * Month == Year
    ensures 16 * Month == 487 * Day
  {
  }

  /** The average quarter is three months and a quarter of the year. */
  lemma QuarterIsThreeMonths()
    ensures Quarter == 3 * Month
    ensures 4 * Quarter == Year
  {
  }
}
