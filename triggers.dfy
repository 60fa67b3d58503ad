/**
 * The trigger delegates of the buying bot: each one decides whether a buying
 * strategy may fire at the instant `now`.
 *
 * The abstract base class `TriggeredDelegate` of the Python implementation becomes a sum type with one variant per
 * delegate; the collaborators a delegate holds a reference to (the datastore,
 * the historical price source and the fear-and-greed index) are gathered in a
 * `World` of query functions passed to `Evaluate`. Instants are whole minutes
 * on one time line, calendar dates are whole days on the same line.
 */
module Triggers {
  import opened Wrappers

  /** Minutes in a day: an instant `now` lies on the date `DateOf(now)`. */
  const MinutesPerDay: int := 1440

  /** A coin and the fiat currency it is quoted in. */
  datatype AssetPair = AssetPair(coin: string, fiat: string)

  /** A quoted price; only its last traded value is used here. */
  datatype Price = Price(last: real)

  /** What a collaborator call may raise. Only the reference-price lookup of the
      drop delegate recovers from a `HistoricalError`. */
  datatype Err =
    | HistoricalError(message: string)
    | OtherError(message: string)

  /** The read-only queries the delegates address to their collaborators. */
  datatype Call =
    | WasTriggeredSince(name: string, pair: AssetPair, since: int)
    | GetPrice(at: int, pair: AssetPair)
    | GetValue(dateFrom: int, dateTo: int)

  /** The answers the collaborators give, as they stand when a delegate is asked. */
  datatype World = World(
    wasTriggeredSince: (string, AssetPair, int) -> Result<bool, Err>,
    getPrice: (int, AssetPair) -> Result<Price, Err>,
    getValue: (int, int) -> Result<int, Err>)

  /** The answer of `w` to one call, whichever collaborator it goes to. */
  datatype Reply =
    | Flag(flag: Result<bool, Err>)
    | Quote(quote: Result<Price, Err>)
    | Index(index: Result<int, Err>)

  function Answer(w: World, c: Call): Reply
  {
    match c
    case WasTriggeredSince(name, pair, since) => Flag(w.wasTriggeredSince(name, pair, since))
    case GetPrice(at, pair) => Quote(w.getPrice(at, pair))
    case GetValue(dateFrom, dateTo) => Index(w.getValue(dateFrom, dateTo))
  }

  /** The error a reply carries, if the collaborator raised one. */
  function ReplyError(reply: Reply): Option<Err>
  {
    match reply
    case Flag(flag) => if flag.Failure? then Some(flag.error) else None
    case Quote(quote) => if quote.Failure? then Some(quote.error) else None
    case Index(index) => if index.Failure? then Some(index.error) else None
  }

  /** The four delegates with their configuration, fixed at construction. */
  datatype TriggeredDelegate =
    | StartTriggered(start: int)
    | CooldownTriggered(cooldownMinutes: int, assetPair: AssetPair, name: string)
    | DropTriggered(assetPair: AssetPair, delayMinutes: int, dropPercentage: real)
    | FearAndGreedIndexTriggered(threshold: int)

  /** One evaluation: the verdict (or the error that escapes), the calls issued
      in the order they were issued, and the error logged as a warning, if any. */
  datatype Run = Run(result: Result<bool, Err>, calls: seq<Call>, warning: Option<Err>)

  /** The calendar date of an instant: the day whose minutes contain it. */
  function DateOf(now: int): (day: int)
    ensures day * MinutesPerDay <= now < (day + 1) * MinutesPerDay
  {
    now / MinutesPerDay
  }

  /** The price below which the drop delegate fires: the reference price
      reduced by `dropPercentage` percent. */
  function Critical(reference: real, dropPercentage: real): (c: real)
    ensures 0.0 <= reference && 0.0 <= dropPercentage ==> c <= reference
    ensures 0.0 <= reference && dropPercentage <= 100.0 ==> 0.0 <= c
    ensures 0.0 < reference && 0.0 < dropPercentage ==> c < reference
  {
    reference * (1.0 - dropPercentage / 100.0)
  }

  /** `is_triggered(now)` of delegate `d`, together with what it asked and logged. */
  function Evaluate(d: TriggeredDelegate, w: World, now: int): (r: Run)
    ensures r.calls == [] <==> d.StartTriggered?
    ensures |r.calls| <= 2
    ensures r.warning.Some? ==>
      d.DropTriggered? && r.warning.value.HistoricalError? && r.result == Success(false)
    // an error that escapes is the one the last call raised, unchanged
    ensures r.result.Failure? ==>
      r.warning.None? && r.calls != [] &&
      ReplyError(Answer(w, r.calls[|r.calls| - 1])) == Some(r.result.error)
  {
    match d
    case StartTriggered(start) =>
      Run(Success(start <= now), [], None)

    case CooldownTriggered(cooldownMinutes, assetPair, name) =>
      var since := now - cooldownMinutes;
      var calls := [WasTriggeredSince(name, assetPair, since)];
      (match w.wasTriggeredSince(name, assetPair, since)
       case Failure(e) => Run(Failure(e), calls, None)
       case Success(fired) => Run(Success(!fired), calls, None))

    case DropTriggered(assetPair, delayMinutes, dropPercentage) =>
      (match w.getPrice(now, assetPair)
       case Failure(e) => Run(Failure(e), [GetPrice(now, assetPair)], None)
       case Success(price) =>
         var past := now - delayMinutes;
         var calls := [GetPrice(now, assetPair), GetPrice(past, assetPair)];
         match w.getPrice(past, assetPair)
         case Failure(e) =>
           if e.HistoricalError? then Run(Success(false), calls, Some(e))
           else Run(Failure(e), calls, None)
         case Success(thenPrice) =>
           Run(Success(price.last < Critical(thenPrice.last, dropPercentage)), calls, None))

    case FearAndGreedIndexTriggered(threshold) =>
      var today := DateOf(now);
      var calls := [GetValue(today, today)];
      match w.getValue(today, today)
      case Failure(e) => Run(Failure(e), calls, None)
      case Success(value) => Run(Success(value < threshold), calls, None)
  }

  /** The value `is_triggered(now)` returns or the error it raises. */
  function IsTriggered(d: TriggeredDelegate, w: World, now: int): Result<bool, Err>
  {
    Evaluate(d, w, now).result
  }
}
