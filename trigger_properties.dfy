/**
 * What each delegate promises at one instant, how its verdict depends on the
 * collaborators' answers, and boundary examples (a 5 percent drop from 100,
 * a threshold of 20).
 */
module TriggerProperties {
  import opened Wrappers
  import opened Triggers

  // ---- StartTriggeredDelegate ----

  /** The start delegate is a pure time gate: open exactly from `start` on,
      whatever the collaborators say, and it asks none of them. */
  lemma StartIsTimeGate(start: int, w: World, now: int)
    ensures IsTriggered(StartTriggered(start), w, now) == Success(start <= now)
    ensures Evaluate(StartTriggered(start), w, now).calls == []
  {
  }

  /** Once open, the start gate stays open at every later instant. */
  lemma StartStaysOpen(start: int, w: World, w': World, now: int, later: int)
    requires now <= later
    requires IsTriggered(StartTriggered(start), w, now) == Success(true)
    ensures IsTriggered(StartTriggered(start), w', later) == Success(true)
  {
  }

  // ---- CooldownTriggeredDelegate ----

  /** The cooldown delegate asks the datastore exactly one question, with its own
      name and pair and the threshold `now - cooldownMinutes`, and answers its
      negation; an error of the datastore escapes unchanged. */
  lemma CooldownNegatesQuery(cooldownMinutes: int, pair: AssetPair, name: string, w: World, now: int)
    ensures Evaluate(CooldownTriggered(cooldownMinutes, pair, name), w, now).calls
      == [WasTriggeredSince(name, pair, now - cooldownMinutes)]
    ensures IsTriggered(CooldownTriggered(cooldownMinutes, pair, name), w, now) ==
      match w.wasTriggeredSince(name, pair, now - cooldownMinutes)
      case Success(fired) => Success(!fired)
      case Failure(e) => Failure(e)
  {
  }

  /** A firing reported inside the cooldown window always blocks, and a
      report of none always lets through. */
  lemma CooldownBlocksIffFiredInWindow(cooldownMinutes: int, pair: AssetPair, name: string, w: World, now: int)
    ensures w.wasTriggeredSince(name, pair, now - cooldownMinutes) == Success(true) <==>
      IsTriggered(CooldownTriggered(cooldownMinutes, pair, name), w, now) == Success(false)
    ensures w.wasTriggeredSince(name, pair, now - cooldownMinutes) == Success(false) <==>
      IsTriggered(CooldownTriggered(cooldownMinutes, pair, name), w, now) == Success(true)
  {
  }

  // ---- DropTriggeredDelegate ----

  /** An error of the current-price lookup escapes unchanged, whether or not it
      is a `HistoricalError`, and the reference price is then never asked. */
  lemma DropPropagatesCurrentPriceError(pair: AssetPair, delayMinutes: int, drop: real, w: World, now: int, e: Err)
    requires w.getPrice(now, pair) == Failure(e)
    ensures Evaluate(DropTriggered(pair, delayMinutes, drop), w, now)
      == Run(Failure(e), [GetPrice(now, pair)], None)
  {
  }

  /** Fail-open: a `HistoricalError` of the reference lookup at
      `now - delayMinutes` gives "not triggered", no error, and a warning that
      carries the original error. */
  lemma DropFailsOpen(pair: AssetPair, delayMinutes: int, drop: real, w: World, now: int, message: string)
    requires w.getPrice(now, pair).Success?
    requires w.getPrice(now - delayMinutes, pair) == Failure(HistoricalError(message))
    ensures Evaluate(DropTriggered(pair, delayMinutes, drop), w, now)
      == Run(Success(false), [GetPrice(now, pair), GetPrice(now - delayMinutes, pair)],
             Some(HistoricalError(message)))
  {
  }

  /** Any other error of the reference lookup is not caught. */
  lemma DropPropagatesOtherReferenceError(pair: AssetPair, delayMinutes: int, drop: real, w: World, now: int, message: string)
    requires w.getPrice(now, pair).Success?
    requires w.getPrice(now - delayMinutes, pair) == Failure(OtherError(message))
    ensures IsTriggered(DropTriggered(pair, delayMinutes, drop), w, now) == Failure(OtherError(message))
    ensures Evaluate(DropTriggered(pair, delayMinutes, drop), w, now).warning == None
  {
  }

  /** With both prices known, the delegate fires iff the current price is
      strictly below the reference price reduced by `drop` percent; nothing
      is logged. */
  lemma DropComparesStrictly(pair: AssetPair, delayMinutes: int, drop: real, w: World, now: int, current: real, reference: real)
    requires w.getPrice(now, pair) == Success(Price(current))
    requires w.getPrice(now - delayMinutes, pair) == Success(Price(reference))
    ensures Evaluate(DropTriggered(pair, delayMinutes, drop), w, now)
      == Run(Success(current < reference * (1.0 - drop / 100.0)),
             [GetPrice(now, pair), GetPrice(now - delayMinutes, pair)], None)
  {
  }

  /** For a positive reference price, firing means the price has fallen by
      strictly more than `drop` percent of the reference. */
  lemma DropFiresIffFallExceeds(pair: AssetPair, delayMinutes: int, drop: real, w: World, now: int, current: real, reference: real)
    requires 0.0 < reference
    requires w.getPrice(now, pair) == Success(Price(current))
    requires w.getPrice(now - delayMinutes, pair) == Success(Price(reference))
    ensures IsTriggered(DropTriggered(pair, delayMinutes, drop), w, now)
      == Success((reference - current) / reference * 100.0 > drop)
  {
    var fall, share := reference - current, drop / 100.0;
    assert Critical(reference, drop) == reference - reference * share;
    DivisionKeepsOrder(fall, reference, share);
    assert fall / reference * 100.0 > drop <==> fall / reference > share;
  }

  /** Dividing both sides of `b * c < a` by a positive `b` keeps the order. */
  lemma DivisionKeepsOrder(a: real, b: real, c: real)
    requires 0.0 < b
    ensures b * c < a <==> c < a / b
  {
  }

  // ---- FearAndGreedIndexTriggeredDelegate ----

  /** The index is asked for the single date of `now`, and the delegate fires
      iff the value is strictly below the threshold; an index error escapes. */
  lemma FearAndGreedComparesStrictly(threshold: int, w: World, now: int)
    ensures Evaluate(FearAndGreedIndexTriggered(threshold), w, now).calls
      == [GetValue(DateOf(now), DateOf(now))]
    ensures IsTriggered(FearAndGreedIndexTriggered(threshold), w, now) ==
      match w.getValue(DateOf(now), DateOf(now))
      case Success(value) => Success(value < threshold)
      case Failure(e) => Failure(e)
  {
  }

  /** Two instants of the same day give the same evaluation: time of day is
      discarded. */
  lemma FearAndGreedSameDay(threshold: int, w: World, day: int, now: int, now': int)
    requires day * MinutesPerDay <= now < (day + 1) * MinutesPerDay
    requires day * MinutesPerDay <= now' < (day + 1) * MinutesPerDay
    ensures Evaluate(FearAndGreedIndexTriggered(threshold), w, now)
      == Evaluate(FearAndGreedIndexTriggered(threshold), w, now')
  {
  }

  /** Only one date contains a given instant. */
  lemma DateIsUnique(day: int, now: int)
    requires day * MinutesPerDay <= now < (day + 1) * MinutesPerDay
    ensures DateOf(now) == day
  {
  }

  // ---- All delegates ----

  /** `w` and `w'` give the same answer to every call in `calls`. */
  predicate Agree(w: World, w': World, calls: seq<Call>)
  {
    forall i :: 0 <= i < |calls| ==> Answer(w, calls[i]) == Answer(w', calls[i])
  }

  /** An evaluation is determined by the answers to the calls it issues and by
      nothing else the collaborators hold; in particular asking again with the
      same answers gives the same verdict, calls and warning. */
  lemma AnswersDetermineRun(d: TriggeredDelegate, w: World, w': World, now: int)
    requires Agree(w, w', Evaluate(d, w, now).calls)
    ensures Evaluate(d, w', now) == Evaluate(d, w, now)
  {
    var calls := Evaluate(d, w, now).calls;
    match d
    case StartTriggered(_) =>
    case CooldownTriggered(cooldownMinutes, pair, name) =>
      assert Answer(w, calls[0]) == Answer(w', calls[0]);
    case DropTriggered(pair, delayMinutes, _) =>
      assert Answer(w, calls[0]) == Answer(w', calls[0]);
      if w.getPrice(now, pair).Success? {
        assert Answer(w, calls[1]) == Answer(w', calls[1]);
      }
    case FearAndGreedIndexTriggered(_) =>
      assert Answer(w, calls[0]) == Answer(w', calls[0]);
  }

  // ---- Boundary examples ----

  /** A world with no recorded firings, a fixed index value and a current price
      that differs from every other price. */
  function ExampleWorld(now: int, current: real, reference: real, index: int): World
  {
    World(
      (name, pair, since) => Success(false),
      (at, pair) => if at == now then Success(Price(current)) else Success(Price(reference)),
      (dateFrom, dateTo) => Success(index))
  }

  /** Reference 100 and a 5 percent drop: 94 fires, 95 (the boundary) and 96 do not. */
  lemma DropExamples(pair: AssetPair, now: int)
    ensures IsTriggered(DropTriggered(pair, 60, 5.0), ExampleWorld(now, 94.0, 100.0, 0), now) == Success(true)
    ensures IsTriggered(DropTriggered(pair, 60, 5.0), ExampleWorld(now, 95.0, 100.0, 0), now) == Success(false)
    ensures IsTriggered(DropTriggered(pair, 60, 5.0), ExampleWorld(now, 96.0, 100.0, 0), now) == Success(false)
  {
  }

  /** Threshold 20: index 15 fires, 25 and the boundary 20 do not. */
  lemma FearAndGreedExamples(now: int)
    ensures IsTriggered(FearAndGreedIndexTriggered(20), ExampleWorld(now, 0.0, 0.0, 15), now) == Success(true)
    ensures IsTriggered(FearAndGreedIndexTriggered(20), ExampleWorld(now, 0.0, 0.0, 25), now) == Success(false)
    ensures IsTriggered(FearAndGreedIndexTriggered(20), ExampleWorld(now, 0.0, 0.0, 20), now) == Success(false)
  {
  }
}
