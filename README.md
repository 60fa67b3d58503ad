# Trigger delegates of vigilant-crypto-snatch

A model of the trigger delegates of the recurring crypto-buying bot
`vigilant-crypto-snatch`. Each delegate answers one question: may the buying
strategy fire at the instant `now`?

- The start delegate opens a time gate at a configured instant.
- The cooldown delegate asks the datastore whether the strategy already fired
  on its asset pair within the last `cooldown_minutes`, and fires only if not.
- The drop delegate compares the current price with the price `delay_minutes`
  earlier. It fires when the current price is strictly below the earlier
  price reduced by `drop_percentage` percent. It fails open: a
  `HistoricalError` on the earlier price makes it not fire and logs a warning.
  An error on the current price escapes.
- The fear-and-greed delegate reads the index for today's date and fires when
  the value is strictly below its threshold.

Files:

- `wrappers.dfy`: `Option` and `Result`, which stand in for the Python
  exceptions.
- `triggers.dfy`: the data model and the delegates. The abstract base class
  becomes the datatype `TriggeredDelegate`, with one variant per delegate.
  The collaborators (datastore, historical source, index) become a `World` of
  query functions. Each query returns a `Result`, so an error can escape.
  `Evaluate(d, w, now)` is `is_triggered(now)`. It returns a `Run`: the
  verdict or escaping error, the collaborator calls in the order they were
  issued, and the error logged as a warning, if any.
- `trigger_properties.dfy`: what each delegate promises at one instant, the
  boundary examples, and the lemma that an evaluation depends only on the
  answers to the calls it issues.
- `cooldown_history.dfy`: the cooldown delegate against a datastore that
  answers from a history of firings. It also proves the rate limit that
  follows when the caller records every firing it lets through.

Instants are whole minutes on one time line. A calendar date is a whole day
on that line: `DateOf(now) == now / 1440`. Prices and percentages are `real`.

## Model

| member | source | states |
|---|---|---|
| Triggers.Evaluate | vigilant_crypto_snatch/triggers/triggered_delegates.py:11-86 | in the model (unbounded minutes): only the start delegate issues no collaborator call; at most two calls are issued; a warning is logged only by the drop delegate, only for a `HistoricalError`, and then the verdict is "not triggered"; an error that escapes is exactly the error the last call raised, and no warning is logged then |
| Triggers.DateOf | vigilant_crypto_snatch/triggers/triggered_delegates.py:85 | `now.date()`: the day returned is the one whose minutes contain `now` |
| Triggers.Critical | vigilant_crypto_snatch/triggers/triggered_delegates.py:72 | for a non-negative reference and a non-negative drop, the critical price is not above the reference; for a positive reference and a positive drop, it is strictly below the reference; for a non-negative reference and a drop of at most 100 percent, it is non-negative |
| TriggerProperties.StartIsTimeGate | vigilant_crypto_snatch/triggers/triggered_delegates.py:20-21 | triggered exactly when `start <= now`, for every state of the collaborators, and no collaborator is asked |
| TriggerProperties.StartStaysOpen | vigilant_crypto_snatch/triggers/triggered_delegates.py:20-21 | once triggered at `now`, the start delegate is triggered at every later instant |
| TriggerProperties.CooldownNegatesQuery | vigilant_crypto_snatch/triggers/triggered_delegates.py:40-42 | the only call is `was_triggered_since(name, asset_pair, now - cooldown_minutes)`; the verdict is its negation; a datastore error escapes unchanged |
| TriggerProperties.CooldownBlocksIffFiredInWindow | vigilant_crypto_snatch/triggers/triggered_delegates.py:42 | the datastore reporting a firing in the window is equivalent to "not triggered"; reporting none is equivalent to "triggered" |
| TriggerProperties.DropPropagatesCurrentPriceError | vigilant_crypto_snatch/triggers/triggered_delegates.py:62 | any error of the current-price lookup, `HistoricalError` included, escapes unchanged; the reference price is never asked and nothing is logged |
| TriggerProperties.DropFailsOpen | vigilant_crypto_snatch/triggers/triggered_delegates.py:63-71 | a `HistoricalError` of the lookup at `now - delay_minutes` gives "not triggered" without error, and the warning carries that error |
| TriggerProperties.DropPropagatesOtherReferenceError | vigilant_crypto_snatch/triggers/triggered_delegates.py:64-66 | any other error of the reference lookup escapes, and nothing is logged |
| TriggerProperties.DropComparesStrictly | vigilant_crypto_snatch/triggers/triggered_delegates.py:61-73 | with both prices known, the calls are the two lookups at `now` and `now - delay_minutes`; the verdict is `price < then_price * (1 - drop_percentage / 100)`, with strict `<`; no error escapes and nothing is logged |
| TriggerProperties.DropFiresIffFallExceeds | vigilant_crypto_snatch/triggers/triggered_delegates.py:72-73 | for a positive reference price, firing is equivalent to the price having fallen by strictly more than `drop_percentage` percent of the reference |
| TriggerProperties.DropExamples | vigilant_crypto_snatch/triggers/triggered_delegates.py:72-73 | reference 100 and drop 5: price 94 fires; 95 (the boundary) and 96 do not |
| TriggerProperties.FearAndGreedComparesStrictly | vigilant_crypto_snatch/triggers/triggered_delegates.py:84-86 | the only call is `get_value(date(now), date(now))`; the verdict is `value < threshold`, with strict `<`; an index error escapes unchanged |
| TriggerProperties.FearAndGreedSameDay | vigilant_crypto_snatch/triggers/triggered_delegates.py:85 | two instants on the same day give the same evaluation: same calls, same verdict |
| TriggerProperties.DateIsUnique | vigilant_crypto_snatch/triggers/triggered_delegates.py:85 | an instant lies on exactly one date |
| TriggerProperties.FearAndGreedExamples | vigilant_crypto_snatch/triggers/triggered_delegates.py:84-86 | threshold 20: index 15 fires; 25 and the boundary 20 do not |
| TriggerProperties.AnswersDetermineRun | vigilant_crypto_snatch/triggers/triggered_delegates.py:11-86 | two collaborator states that answer the issued calls alike give the same verdict, calls and warning; a repeated evaluation with unchanged answers is therefore identical. Calls are read-only queries, so no delegate writes to a collaborator |
| CooldownHistory.CooldownAgainstHistory | vigilant_crypto_snatch/triggers/triggered_delegates.py:40-42 | against a history of firings, the cooldown delegate fires exactly when every firing of its own name and pair lies strictly before `now - cooldown_minutes` |
| CooldownHistory.CooldownExamples | vigilant_crypto_snatch/triggers/triggered_delegates.py:40-42 | a 60-minute cooldown: a firing 30 minutes ago blocks; one 90 minutes ago, or none, does not |
| CooldownHistory.Step | vigilant_crypto_snatch/triggers/triggered_delegates.py:40-42 | a caller tick adds at most its own firing to the history; it adds it exactly when the strategy wanted to fire and no firing of its own name and pair lay inside the cooldown window |
| CooldownHistory.StepKeepsSpacing | vigilant_crypto_snatch/triggers/triggered_delegates.py:40-42 | a tick gated by the cooldown delegate keeps the firings of one strategy and pair more than `cooldown_minutes` apart |
| CooldownHistory.ReplayKeepsSpacing | vigilant_crypto_snatch/triggers/triggered_delegates.py:40-42 | the rate limit: over any sequence of ticks, two recorded firings of one strategy and pair are more than `cooldown_minutes` apart, whatever the rest of the strategy wants |

## Left out

- `__str__` of each delegate: it only formats log text. The warning's text is
  not modelled either; `Run.warning` records only that a warning was logged
  and the error it names.
- Floating point: `float(then_price.last) * (1 - drop_percentage / 100)` is
  computed over `real`, with no rounding.
- Triggers.Evaluate: does not model the `OverflowError` that the Python
  implementation raises at lines 41 and 63 when `now - timedelta(minutes=…)`
  leaves datetime's range of years 1 to 9999, or that `timedelta` raises past
  999999999 days. Minutes here are unbounded, so that subtraction never fails.
  In the Python cooldown delegate this error escapes before any call is made,
  and in the drop delegate it escapes after a successful current-price lookup.
  So "an error that escapes is the one the last call raised" and "only the
  start delegate makes no call" hold of the model, not of every Python run.
- `datetime` and `timedelta`: instants are integer minutes and dates are
  integer days on one line. Time zones and calendar rules are not modelled.
- The implementations of the datastore, the historical source and the
  fear-and-greed index are not part of this model. They are query functions
  in `World`. `cooldown_history.dfy` adds one datastore that answers from a
  history. It counts a firing at exactly `now - cooldown_minutes` as inside the
  window; the real datastore's boundary is not part of this model.
- How several delegates combine into one strategy decision is not part of
  this model. `CooldownHistory.Step` takes that decision as a parameter.
- `vigilant/marketplace.py`: an abstract interface and two empty exception
  classes, with no logic.
- Concurrency between bot processes sharing one datastore: evaluations are
  single calls on one collaborator state.
