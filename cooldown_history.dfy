/**
 * The cooldown delegate against a datastore that answers from a history of
 * recorded firings, and the rate limit it yields when the caller records every
 * firing it lets through.
 *
 * The datastore implementation is not part of this model: `FiredSince` counts
 * a firing at exactly the threshold instant as inside the window.
 */
module CooldownHistory {
  import opened Wrappers
  import opened Triggers

  /** One recorded firing of the strategy `name` on `pair` at instant `at`. */
  datatype Firing = Firing(name: string, pair: AssetPair, at: int)

  /** One evaluation instant of the caller, and whether the rest of the
      strategy wants to fire then. */
  datatype Tick = Tick(now: int, wanted: bool)

  /** `h` holds a firing of `name` on `pair` at or after `since`. */
  predicate FiredSince(h: seq<Firing>, name: string, pair: AssetPair, since: int)
  {
    exists i :: 0 <= i < |h| && h[i].name == name && h[i].pair == pair && since <= h[i].at
  }

  /** `w` with its datastore answering from the history `h`. */
  function WithHistory(w: World, h: seq<Firing>): World
  {
    w.(wasTriggeredSince := (name, pair, since) => Success(FiredSince(h, name, pair, since)))
  }

  /** Against a history, the cooldown delegate fires exactly when every firing
      of its own strategy and pair lies strictly before `now - cooldownMinutes`;
      firings of other strategies or pairs do not matter. */
  lemma CooldownAgainstHistory(cooldownMinutes: int, pair: AssetPair, name: string, w: World, h: seq<Firing>, now: int)
    ensures IsTriggered(CooldownTriggered(cooldownMinutes, pair, name), WithHistory(w, h), now) ==
      Success(forall i :: 0 <= i < |h| && h[i].name == name && h[i].pair == pair ==> h[i].at < now - cooldownMinutes)
  {
  }

  /** A sixty-minute cooldown: a firing thirty minutes ago blocks, one ninety
      minutes ago or none at all does not. */
  lemma CooldownExamples(pair: AssetPair, name: string, w: World, now: int)
    ensures IsTriggered(CooldownTriggered(60, pair, name), WithHistory(w, [Firing(name, pair, now - 30)]), now) == Success(false)
    ensures IsTriggered(CooldownTriggered(60, pair, name), WithHistory(w, [Firing(name, pair, now - 90)]), now) == Success(true)
    ensures IsTriggered(CooldownTriggered(60, pair, name), WithHistory(w, []), now) == Success(true)
  {
    var recent := [Firing(name, pair, now - 30)];
    assert recent[0].at == now - 30;
  }

  /** One tick of the caller: the strategy fires when it is wanted and the
      cooldown delegate lets it through, and the firing is then recorded. */
  function Step(cooldownMinutes: int, pair: AssetPair, name: string, w: World, h: seq<Firing>, tick: Tick): (h': seq<Firing>)
    ensures h' == h || h' == h + [Firing(name, pair, tick.now)]
    ensures h' != h ==> tick.wanted && !FiredSince(h, name, pair, tick.now - cooldownMinutes)
    ensures tick.wanted && !FiredSince(h, name, pair, tick.now - cooldownMinutes) ==>
      h' == h + [Firing(name, pair, tick.now)]
  {
    if tick.wanted && IsTriggered(CooldownTriggered(cooldownMinutes, pair, name), WithHistory(w, h), tick.now) == Success(true)
    then h + [Firing(name, pair, tick.now)]
    else h
  }

  /** The history after the caller has gone through `ticks` in order. */
  function Replay(cooldownMinutes: int, pair: AssetPair, name: string, w: World, h: seq<Firing>, ticks: seq<Tick>): seq<Firing>
    decreases |ticks|
  {
    if ticks == [] then h
    else Replay(cooldownMinutes, pair, name, w, Step(cooldownMinutes, pair, name, w, h, ticks[0]), ticks[1..])
  }

  /** Every later-recorded firing of `name` on `pair` comes more than
      `cooldownMinutes` after every earlier one. */
  predicate Spaced(h: seq<Firing>, name: string, pair: AssetPair, cooldownMinutes: int)
  {
    forall i, j ::
      (0 <= i < j < |h| && h[i].name == name && h[i].pair == pair && h[j].name == name && h[j].pair == pair)
      ==> h[j].at - h[i].at > cooldownMinutes
  }

  /** A firing the cooldown delegate lets through keeps the history spaced. */
  lemma StepKeepsSpacing(cooldownMinutes: int, pair: AssetPair, name: string, w: World, h: seq<Firing>, tick: Tick)
    requires Spaced(h, name, pair, cooldownMinutes)
    ensures Spaced(Step(cooldownMinutes, pair, name, w, h, tick), name, pair, cooldownMinutes)
  {
  }

  /** The rate limit: whatever the rest of the strategy wants, and in whatever
      order the ticks come, two recorded firings of one strategy on one pair are
      always more than `cooldownMinutes` apart. */
  lemma {:induction false} ReplayKeepsSpacing(cooldownMinutes: int, pair: AssetPair, name: string, w: World, h: seq<Firing>, ticks: seq<Tick>)
    requires Spaced(h, name, pair, cooldownMinutes)
    ensures Spaced(Replay(cooldownMinutes, pair, name, w, h, ticks), name, pair, cooldownMinutes)
    decreases |ticks|
  {
    if ticks != [] {
      StepKeepsSpacing(cooldownMinutes, pair, name, w, h, ticks[0]);
      ReplayKeepsSpacing(cooldownMinutes, pair, name, w, Step(cooldownMinutes, pair, name, w, h, ticks[0]), ticks[1..]);
    }
  }
}
