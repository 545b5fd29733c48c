/**
 * A combatant's deck and battle state (assets/script/components/card-deck.ts) without its
 * tweens and scene nodes: the HP, the lingering effects, the card pool drawn in ping-pong
 * order, the hand used first in first out, and `execute` with its buff stage.
 */
module CardDeck {
  import opened Wrappers
  import opened CardData
  import opened CardEffects

  /**
   * What `prepare` and `play` throw: an empty pool, an empty hand read by `play`, or the
   * TypeError of reading the name of a hand card whose configuration is undefined.
   */
  datatype DeckError = EmptyPool | EmptyHand | UndefinedConf

  // ---------------------------------------------------------------------------
  // The ping-pong order of draws

  /** `getNextCardConf`'s index update: bounce off either end, otherwise keep going. */
  function Step(n: int, idx: int, dir: int): (int, int)
  {
    if idx <= 0 then (1, 1)
    else if idx >= n - 1 then (n - 2, -1)
    else (idx + dir, dir)
  }

  /** The pool entry at `idx`, or `None` (the `undefined` of an index out of range). */
  function CardAt(pool: seq<Card>, idx: int): (r: Option<Card>)
    ensures r.Some? <==> 0 <= idx < |pool|
  {
    if 0 <= idx < |pool| then Some(pool[idx]) else None
  }

  /** The `t`-th position of the sequence 0, 1, ..., n-1, n-2, ..., 1, 0, 1, ... */
  function PingPong(n: nat, t: nat): (i: nat)
    requires n >= 2
    ensures i < n
  {
    var period := 2 * (n - 1);
    if t >= period then PingPong(n, t - period)
    else if t < n then t
    else period - t
  }

  /** The direction of travel after the `t`-th position of the ping-pong sequence. */
  function Direction(n: nat, t: nat): int
    requires n >= 2
  {
    var period := 2 * (n - 1);
    if t >= period then Direction(n, t - period)
    else if t < n - 1 then 1
    else -1
  }

  /** The index a pool of one card reads at draw `t`: 0, 1, -1, 1, -1, ... */
  function OneCardIndex(t: nat): int
  {
    if t == 0 then 0
    else if t == 1 then 1
    else if t == 2 then -1
    else OneCardIndex(t - 2)
  }

  /**
   * The index read by the `t`-th draw after a reset. A pool of one card reads
   * indices 0, 1, -1, 1, -1, ...: only the first draw finds a card.
   */
  function DrawIndex(n: nat, t: nat): int
    requires n >= 1
  {
    if n >= 2 then PingPong(n, t) else OneCardIndex(t)
  }

  /** The configurations of `k` consecutive draws, the first being draw number `from`. */
  function Dealt(pool: seq<Card>, from: nat, k: nat): (r: seq<Option<Card>>)
    requires |pool| >= 1
    ensures |r| == k
    ensures forall t :: 0 <= t < k ==> r[t] == CardAt(pool, DrawIndex(|pool|, from + t))
  {
    seq(k, t requires 0 <= t < k => CardAt(pool, DrawIndex(|pool|, from + t)))
  }

  /** One step of `getNextCardConf` moves the index along the ping-pong sequence. */
  lemma {:induction false} StepFollowsPingPong(n: nat, t: nat, dir: int)
    requires n >= 2
    requires 0 < PingPong(n, t) < n - 1 ==> dir == Direction(n, t)
    ensures Step(n, PingPong(n, t), dir).0 == PingPong(n, t + 1)
    ensures 0 < PingPong(n, t + 1) < n - 1 ==> Step(n, PingPong(n, t), dir).1 == Direction(n, t + 1)
  {
    var period := 2 * (n - 1);
    if t >= period {
      StepFollowsPingPong(n, t - period, dir);
    } else if t + 1 == period {
      assert PingPong(n, t + 1) == PingPong(n, 0);
      assert Direction(n, t + 1) == Direction(n, 0);
    }
  }

  /** The same for a pool of one card, where the direction plays no part. */
  lemma {:induction false} StepFollowsOneCard(t: nat, dir: int)
    ensures Step(1, OneCardIndex(t), dir).0 == OneCardIndex(t + 1)
  {
    if t > 2 {
      StepFollowsOneCard(t - 2, dir);
    }
  }

  /** The first `n` draws after a reset read the pool front to back. */
  lemma PingPongRising(n: nat, t: nat)
    requires n >= 2 && t < n
    ensures PingPong(n, t) == t
  {
  }

  /** The next `n - 1` draws read it back to front, down to index 0. */
  lemma PingPongFalling(n: nat, k: nat)
    requires n >= 2 && k <= n - 1
    ensures PingPong(n, n - 1 + k) == n - 1 - k
  {
    if k == n - 1 {
      assert PingPong(n, n - 1 + k) == PingPong(n, 0);
    }
  }

  /** After that the order repeats with period `2(n - 1)`. */
  lemma PingPongPeriodic(n: nat, t: nat)
    requires n >= 2
    ensures PingPong(n, t + 2 * (n - 1)) == PingPong(n, t)
  {
  }

  // ---------------------------------------------------------------------------
  // The lingering skip-turn entries

  /** An entry of type "skipturn". */
  predicate IsSkip(c: Command) {
    TypeOf(c) == "skipturn"
  }

  /** `effects.find(effect => effect.type === "skipturn")`, as a position. */
  function SkipIndex(effects: seq<Command>): (r: Option<nat>)
    ensures r.Some? ==> r.value < |effects| && IsSkip(effects[r.value])
    ensures r.Some? ==> forall k :: 0 <= k < r.value ==> !IsSkip(effects[k])
    ensures r.None? ==> forall k :: 0 <= k < |effects| ==> !IsSkip(effects[k])
  {
    if effects == [] then None
    else if IsSkip(effects[0]) then Some(0)
    else
      match SkipIndex(effects[1..])
      case None => None
      case Some(i) => Some(i + 1)
  }

  /** The entry at `i` counted down by one, and removed when it reaches 0 or less. */
  function CountDown(effects: seq<Command>, i: nat): (r: seq<Command>)
    requires i < |effects|
  {
    var v := effects[i].value - 1.0;
    if v <= 0.0 then effects[..i] + effects[i + 1..] else effects[i := WithValue(effects[i], v)]
  }

  /** The effects after one `needsSkip`. */
  function AfterNeedsSkip(effects: seq<Command>): seq<Command>
  {
    match SkipIndex(effects)
    case None => effects
    case Some(i) => CountDown(effects, i)
  }

  /** The effects after `k` calls of `needsSkip`. */
  function AfterNeedsSkips(effects: seq<Command>, k: nat): seq<Command>
    decreases k
  {
    if k == 0 then effects else AfterNeedsSkips(AfterNeedsSkip(effects), k - 1)
  }

  /** Changing only the value of the first skip-turn entry keeps it the first. */
  lemma SkipIndexKept(effects: seq<Command>, i: nat, v: real)
    requires SkipIndex(effects) == Some(i)
    ensures SkipIndex(effects[i := WithValue(effects[i], v)]) == Some(i)
  {
    var e := effects[i := WithValue(effects[i], v)];
    assert IsSkip(e[i]);
    assert forall k :: 0 <= k < i ==> e[k] == effects[k];
  }

  /** One `needsSkip` on a first skip-turn entry holding `m`. */
  lemma OneNeedsSkip(effects: seq<Command>, i: nat, m: real)
    requires SkipIndex(effects) == Some(i) && effects[i].value == m
    ensures m <= 1.0 ==> AfterNeedsSkip(effects) == effects[..i] + effects[i + 1..]
    ensures m > 1.0 ==> AfterNeedsSkip(effects) == effects[i := WithValue(effects[i], m - 1.0)]
  {
    assert AfterNeedsSkip(effects) == CountDown(effects, i);
  }

  /**
   * A first skip-turn entry of whole value `n >= 1` makes each of the next `n` calls of
   * `needsSkip` find it, and the `n`-th call removes it, leaving every other entry as it
   * was.
   */
  lemma {:induction false} SkipCountdown(effects: seq<Command>, i: nat, n: nat)
    requires SkipIndex(effects) == Some(i) && effects[i].value == n as real && n >= 1
    ensures AfterNeedsSkips(effects, n) == effects[..i] + effects[i + 1..]
    ensures forall k :: 0 <= k < n ==> SkipIndex(AfterNeedsSkips(effects, k)) == Some(i)
    decreases n
  {
    OneNeedsSkip(effects, i, n as real);
    assert (n as real) - 1.0 == (n - 1) as real;
    assert AfterNeedsSkips(effects, n) == AfterNeedsSkips(AfterNeedsSkip(effects), n - 1);
    if n > 1 {
      var e := effects[i := WithValue(effects[i], (n - 1) as real)];
      SkipIndexKept(effects, i, (n - 1) as real);
      SkipCountdown(e, i, n - 1);
      assert e[..i] == effects[..i] && e[i + 1..] == effects[i + 1..];
      forall k | 0 < k < n
        ensures SkipIndex(AfterNeedsSkips(effects, k)) == Some(i)
      {
        assert AfterNeedsSkips(effects, k) == AfterNeedsSkips(e, k - 1);
      }
    }
  }

  /** Without a skip-turn entry `needsSkip` changes nothing. */
  lemma NoSkipNoChange(effects: seq<Command>)
    requires forall k :: 0 <= k < |effects| ==> !IsSkip(effects[k])
    ensures AfterNeedsSkip(effects) == effects
  {
  }

  // ---------------------------------------------------------------------------
  // The deck

  class CardDeck {
    var hp: real
    /** The lingering effects: the skip-turn commands received, with their remaining turns. */
    var effects: seq<Command>
    var cardsPool: seq<Card>
    var nextCardIdx: int
    var direction: int
    /** The configuration of each card in the hand, oldest first; `None` when it is undefined. */
    var cards: seq<Option<Card>>
    /** The number of draws since the pool was last reset. */
    ghost var drawn: nat

    /** The draw index follows the ping-pong order, and so stays within the pool. */
    ghost predicate Valid()
      reads this
    {
      (direction == 1 || direction == -1) &&
      (|cardsPool| >= 1 ==> nextCardIdx == DrawIndex(|cardsPool|, drawn)) &&
      (|cardsPool| >= 2 && 0 < nextCardIdx < |cardsPool| - 1 ==> direction == Direction(|cardsPool|, drawn))
    }

    constructor()
      ensures Valid()
      ensures hp == 0.0 && effects == [] && cardsPool == [] && cards == []
      ensures nextCardIdx == 0 && direction == -1
    {
      hp := 0.0;
      effects := [];
      cardsPool := [];
      nextCardIdx := 0;
      direction := -1;
      cards := [];
      drawn := 0;
    }

    // -------------------------------------------------------------------------
    // HP

    /** `isDead`. */
    function IsDead(): (r: bool)
      reads this
      ensures r <==> hp <= 0.0
    {
      hp <= 0.0
    }

    /** `addHP(v)`: adds exactly `v`, without clamping; `addHP(0)` returns at once. */
    method AddHP(value: real)
      requires Valid()
      modifies this
      ensures Valid()
      ensures hp == old(hp) + value
      ensures value == 0.0 ==> unchanged(this)
      ensures effects == old(effects) && cards == old(cards) && cardsPool == old(cardsPool)
      ensures nextCardIdx == old(nextCardIdx) && direction == old(direction) && drawn == old(drawn)
    {
      if value == 0.0 {
        return;
      }
      hp := hp + value;
    }

    method SetHP(value: real)
      requires Valid()
      modifies this
      ensures Valid()
      ensures hp == value
      ensures effects == old(effects) && cards == old(cards) && cardsPool == old(cardsPool)
      ensures nextCardIdx == old(nextCardIdx) && direction == old(direction) && drawn == old(drawn)
    {
      hp := value;
    }

    // -------------------------------------------------------------------------
    // The card pool and the hand

    method ResetCardsPool()
      modifies this
      ensures Valid()
      ensures cardsPool == [] && nextCardIdx == 0 && direction == 1 && drawn == 0
      ensures hp == old(hp) && effects == old(effects) && cards == old(cards)
    {
      cardsPool := [];
      nextCardIdx := 0;
      direction := 1;
      drawn := 0;
    }

    /**
     * `getNextCardConf`: throws on an empty pool; otherwise returns the entry at the
     * current index (undefined when the index is outside the pool) and moves the index
     * one step along the ping-pong order.
     */
    method GetNextCardConf() returns (r: Result<Option<Card>, DeckError>)
      requires Valid()
      modifies this
      ensures Valid()
      ensures |cardsPool| == 0 ==> r == Err(EmptyPool) && unchanged(this)
      ensures |cardsPool| >= 1 ==>
        r == Ok(CardAt(cardsPool, old(nextCardIdx))) &&
        (nextCardIdx, direction) == Step(|cardsPool|, old(nextCardIdx), old(direction)) &&
        drawn == old(drawn) + 1
      ensures |cardsPool| >= 1 ==> r == Ok(CardAt(cardsPool, DrawIndex(|cardsPool|, old(drawn))))
      ensures |cardsPool| >= 2 ==> r == Ok(Some(cardsPool[PingPong(|cardsPool|, old(drawn))]))
      ensures cardsPool == old(cardsPool) && hp == old(hp) && effects == old(effects) && cards == old(cards)
    {
      if |cardsPool| <= 0 {
        return Err(EmptyPool);
      }
      if |cardsPool| >= 2 {
        StepFollowsPingPong(|cardsPool|, drawn, direction);
      } else {
        StepFollowsOneCard(drawn, direction);
      }
      var card := CardAt(cardsPool, nextCardIdx);
      if nextCardIdx <= 0 {
        direction := 1;
        nextCardIdx := 0;
      } else if nextCardIdx >= |cardsPool| - 1 {
        direction := -1;
        nextCardIdx := |cardsPool| - 1;
      }
      nextCardIdx := nextCardIdx + direction;
      drawn := drawn + 1;
      return Ok(card);
    }

    /**
     * `drawCard`: a card joins the end of the hand before its configuration is drawn,
     * so on an empty pool it stays there without one and the error propagates.
     */
    method DrawCard() returns (r: Outcome<DeckError>)
      requires Valid()
      modifies this
      ensures Valid()
      ensures |cardsPool| == 0 ==> r == Fail(EmptyPool) && cards == old(cards) + [None] && drawn == old(drawn)
      ensures |cardsPool| >= 1 ==>
        r == Pass && drawn == old(drawn) + 1 &&
        cards == old(cards) + [CardAt(cardsPool, DrawIndex(|cardsPool|, old(drawn)))]
      ensures cardsPool == old(cardsPool) && hp == old(hp) && effects == old(effects)
    {
      cards := cards + [None];
      var conf := GetNextCardConf();
      if conf.Err? {
        return Fail(conf.error);
      }
      cards := cards[|cards| - 1 := conf.value];
      return Pass;
    }

    /** `createCard`: five draws, stopping at the first that throws. */
    method CreateCard() returns (r: Outcome<DeckError>)
      requires Valid()
      modifies this
      ensures Valid()
      ensures |cardsPool| == 0 ==> r == Fail(EmptyPool) && cards == old(cards) + [None]
      ensures |cardsPool| >= 1 ==>
        r == Pass && drawn == old(drawn) + 5 && cards == old(cards) + Dealt(cardsPool, old(drawn), 5)
      ensures cardsPool == old(cardsPool) && hp == old(hp) && effects == old(effects)
    {
      var i := 0;
      while i < 5
        invariant 0 <= i <= 5 && Valid()
        invariant |cardsPool| >= 1 || i == 0
        invariant |cardsPool| >= 1 ==> cards == old(cards) + Dealt(cardsPool, old(drawn), i)
        invariant |cardsPool| == 0 ==> cards == old(cards)
        invariant drawn == old(drawn) + i
        invariant cardsPool == old(cardsPool) && hp == old(hp) && effects == old(effects)
      {
        ghost var before := cards;
        r := DrawCard();
        if r.Fail? {
          return;
        }
        assert Dealt(cardsPool, old(drawn), i + 1) ==
          Dealt(cardsPool, old(drawn), i) + [CardAt(cardsPool, DrawIndex(|cardsPool|, old(drawn) + i))];
        i := i + 1;
      }
      return Pass;
    }

    /**
     * `prepare(pool)`: the pool is reset to a copy of `pool`, HP becomes 100 and the
     * effects are cleared; then five cards are drawn onto the hand, which is not cleared,
     * and the names of all hand cards are logged, which throws when one has no configuration.
     */
    method Prepare(pool: seq<Card>) returns (r: Outcome<DeckError>)
      modifies this
      ensures Valid()
      ensures cardsPool == pool && hp == 100.0 && effects == []
      ensures |pool| == 0 ==> r == Fail(EmptyPool) && cards == old(cards) + [None]
      ensures |pool| >= 1 ==> drawn == 5 && cards == old(cards) + Dealt(pool, 0, 5)
      ensures |pool| >= 1 ==> (r == Pass <==> forall k :: 0 <= k < |cards| ==> cards[k].Some?)
      ensures |pool| >= 1 && r != Pass ==> r == Fail(UndefinedConf)
    {
      ResetCardsPool();
      cardsPool := pool;
      SetHP(100.0);
      effects := [];
      r := CreateCard();
      if r.Fail? {
        return;
      }
      // logging the names of the hand reads `conf.name` of every card
      if None in cards {
        return Fail(UndefinedConf);
      }
    }

    /**
     * `needsSkip`: the first skip-turn entry, if any, loses one turn and is removed
     * once it has none left; the answer is whether there was one.
     */
    method NeedsSkip() returns (skip: bool)
      requires Valid()
      modifies this
      ensures Valid()
      ensures skip <==> SkipIndex(old(effects)).Some?
      ensures effects == AfterNeedsSkip(old(effects))
      ensures hp == old(hp) && cards == old(cards) && cardsPool == old(cardsPool)
      ensures nextCardIdx == old(nextCardIdx) && direction == old(direction) && drawn == old(drawn)
    {
      var found := SkipIndex(effects);
      if found.Some? {
        var i := found.value;
        var skipCard := WithValue(effects[i], effects[i].value - 1.0);
        effects := effects[i := skipCard];
        if skipCard.value <= 0.0 {
          effects := effects[..i] + effects[i + 1..];
        }
        return true;
      }
      return false;
    }

    /**
     * `play`: a pending skip turn yields no commands and leaves the hand alone; otherwise
     * the oldest hand card is taken out and its name logged, which throws when it has no
     * configuration; then a new draw joins the end of the hand, and the card's
     * configuration goes through `convert` (`convertToCommands(conf, 1)`).
     */
    method Play(convert: Card -> seq<Command>) returns (r: Result<seq<Command>, DeckError>)
      requires Valid()
      modifies this
      ensures Valid()
      ensures effects == AfterNeedsSkip(old(effects)) && hp == old(hp) && cardsPool == old(cardsPool)
      ensures SkipIndex(old(effects)).Some? ==> r == Ok([]) && cards == old(cards) && drawn == old(drawn)
      ensures SkipIndex(old(effects)).None? && |old(cards)| == 0 ==>
        r == Err(EmptyHand) && cards == old(cards) && drawn == old(drawn)
      ensures SkipIndex(old(effects)).None? && |old(cards)| >= 1 && old(cards)[0].None? ==>
        r == Err(UndefinedConf) && cards == old(cards)[1..] && drawn == old(drawn)
      ensures SkipIndex(old(effects)).None? && |old(cards)| >= 1 && old(cards)[0].Some? && |cardsPool| == 0 ==>
        r == Err(EmptyPool) && cards == old(cards)[1..] + [None]
      ensures SkipIndex(old(effects)).None? && |old(cards)| >= 1 && old(cards)[0].Some? && |cardsPool| >= 1 ==>
        r == Ok(convert(old(cards)[0].value)) && |cards| == |old(cards)| && drawn == old(drawn) + 1 &&
        cards == old(cards)[1..] + [CardAt(cardsPool, DrawIndex(|cardsPool|, old(drawn)))]
    {
      var skip := NeedsSkip();
      if skip {
        return Ok([]);
      }
      if |cards| == 0 {
        return Err(EmptyHand);
      }
      var card := cards[0];
      cards := cards[1..];
      if card.None? {
        return Err(UndefinedConf);
      }
      var dealt := DrawCard();
      if dealt.Fail? {
        return Err(dealt.error);
      }
      return Ok(convert(card.value));
    }

    // -------------------------------------------------------------------------
    // execute

    /** `execute`: `findCommandsByType`, then `applyEffects`, then the dispatch loop. */
    method Execute(commands: seq<Command>, draws: seq<real>)
      requires Valid()
      requires WellTyped(commands)
      requires |draws| >= DrawsNeeded(commands, FindCommandsByType(commands, "effect"))
      modifies this
      ensures Valid()
      ensures hp == old(hp) - AttackTotal(Buffed(commands, draws))
      ensures effects == old(effects) + SkipTurns(Buffed(commands, draws))
      ensures cards == old(cards) && cardsPool == old(cardsPool)
      ensures nextCardIdx == old(nextCardIdx) && direction == old(direction) && drawn == old(drawn)
    {
      FoundEffectsArePositions(commands);
      var effs := FindCommandsByType(commands, "effect");
      var cmds := ApplyEffects(effs, commands, draws);
      Dispatch(cmds);
    }

    /**
     * The loop of `execute` over the buffed commands: effects are skipped, an attack goes
     * through `executeAttack`, a skip turn through `executeSkipTurn`, and a type with no
     * entry in `executeMap` is only logged.
     */
    method Dispatch(cmds: seq<Command>)
      requires Valid()
      modifies this
      ensures Valid()
      ensures hp == old(hp) - AttackTotal(cmds)
      ensures effects == old(effects) + SkipTurns(cmds)
      ensures cards == old(cards) && cardsPool == old(cardsPool)
      ensures nextCardIdx == old(nextCardIdx) && direction == old(direction) && drawn == old(drawn)
    {
      var i := 0;
      while i < |cmds|
        invariant 0 <= i <= |cmds| && Valid()
        invariant hp == old(hp) - AttackTotal(cmds[..i])
        invariant effects == old(effects) + SkipTurns(cmds[..i])
        invariant cards == old(cards) && cardsPool == old(cardsPool)
        invariant nextCardIdx == old(nextCardIdx) && direction == old(direction) && drawn == old(drawn)
      {
        var command := cmds[i];
        DispatchStep(cmds, i);
        if TypeOf(command) == "effect" {
        } else if TypeOf(command) == "attack" {
          ExecuteAttack(command);
        } else if TypeOf(command) == "skipturn" {
          ExecuteSkipTurn(command);
        }
        i := i + 1;
      }
      assert cmds[..|cmds|] == cmds;
    }

    method ExecuteAttack(command: Command)
      requires Valid()
      modifies this
      ensures Valid()
      ensures hp == old(hp) - command.value
      ensures effects == old(effects) && cards == old(cards) && cardsPool == old(cardsPool)
      ensures nextCardIdx == old(nextCardIdx) && direction == old(direction) && drawn == old(drawn)
    {
      AddHP(-command.value);
    }

    method ExecuteSkipTurn(command: Command)
      requires Valid()
      modifies this
      ensures Valid()
      ensures effects == old(effects) + [command]
      ensures hp == old(hp) && cards == old(cards) && cardsPool == old(cardsPool)
      ensures nextCardIdx == old(nextCardIdx) && direction == old(direction) && drawn == old(drawn)
    {
      effects := effects + [command];
    }

    /**
     * `applyEffects(effects, commands)`: for each command in order, each effect aimed at
     * its type is tried with the next draw and applied unless the draw is above the
     * effect's current probability. Effects are read from the list being updated.
     */
    method ApplyEffects(effs: seq<nat>, commands: seq<Command>, draws: seq<real>) returns (r: seq<Command>)
      requires EffectPositions(commands, effs) && |draws| >= DrawsNeeded(commands, effs)
      ensures r == CardEffects.ApplyEffects(commands, effs, draws)
    {
      r := commands;
      RebuildValues(commands);
      var pos := 0;
      var i := 0;
      while i < |commands|
        invariant 0 <= i <= |commands|
        invariant Progress(commands, effs, draws, i, r, pos)
      {
        r, pos := ApplyEffectsTo(commands, effs, r, i, draws, pos);
        i := i + 1;
      }
    }

    /**
     * One pass of the outer loop of `applyEffects`: the effects aimed at the type of
     * command `i` (`targetEffects`) tried on it, with the draws from position `pos` on.
     */
    method ApplyEffectsTo(commands: seq<Command>, effs: seq<nat>, cur: seq<Command>, i: nat,
                          draws: seq<real>, pos: nat) returns (r: seq<Command>, next: nat)
      requires i < |commands| && EffectPositions(commands, effs) && |draws| >= DrawsNeeded(commands, effs)
      requires Progress(commands, effs, draws, i, cur, pos)
      ensures Progress(commands, effs, draws, i + 1, r, next)
    {
      var targetEffects := Targets(commands, effs, TypeOf(commands[i]));
      ApplyEffectsUpToNext(commands, effs, draws, i, targetEffects, pos);
      r := TryTargets(commands, cur, ApplyEffectsUpTo(commands, effs, draws, i), i, targetEffects, draws, pos);
      next := pos + |targetEffects|;
    }

    /**
     * The inner loop of `applyEffects`: the effects `ts` tried in order on command `i`,
     * spending the draws from position `pos`. `vals` are the current values of `cur`.
     */
    method TryTargets(commands: seq<Command>, cur: seq<Command>, ghost vals: seq<real>, i: nat,
                      ts: seq<nat>, draws: seq<real>, pos: nat) returns (r: seq<Command>)
      requires |vals| == |commands| && i < |commands| && EffectPositions(commands, ts)
      requires cur == Rebuild(commands, vals) && pos + |ts| <= |draws|
      ensures r == Rebuild(commands, ApplyTargets(commands, vals, i, ts, draws[pos..pos + |ts|]))
    {
      ghost var ds := draws[pos..pos + |ts|];
      r := cur;
      assert ts[..0] == [] && ds[..0] == [];
      var j := 0;
      while j < |ts|
        invariant 0 <= j <= |ts|
        invariant r == Rebuild(commands, ApplyTargets(commands, vals, i, ts[..j], ds[..j]))
      {
        var effect := ts[j];
        ghost var now := ApplyTargets(commands, vals, i, ts[..j], ds[..j]);
        ApplyTargetsStep(commands, vals, i, ts, ds, j);
        RebuildBuff(commands, now, i, effect);
        assert ds[j] == draws[pos + j];
        if draws[pos + j] > r[effect].value {
          assert TryEffect(commands, now, i, effect, ds[j]) == now;
        } else {
          assert TryEffect(commands, now, i, effect, ds[j]) ==
            now[i := BuffValue(commands[effect].buff, now[i])];
          r := r[i := ApplyBuff(r[effect].buff, r[i])];
        }
        j := j + 1;
      }
      assert ts[..|ts|] == ts && ds[..|ds|] == ds;
    }
  }

  /** The state of `applyEffects` after `i` passes of its outer loop. */
  ghost predicate Progress(commands: seq<Command>, effs: seq<nat>, draws: seq<real>, i: nat, r: seq<Command>, pos: nat)
    requires i <= |commands| && EffectPositions(commands, effs) && |draws| >= DrawsNeeded(commands, effs)
  {
    r == Rebuild(commands, ApplyEffectsUpTo(commands, effs, draws, i)) && pos == DrawsBefore(commands, effs, i)
  }

  lemma RebuildValues(cmds: seq<Command>)
    ensures Rebuild(cmds, Values(cmds)) == cmds
  {
    var r := Rebuild(cmds, Values(cmds));
    forall k | 0 <= k < |cmds| ensures r[k] == cmds[k] {
      assert WithValue(cmds[k], cmds[k].value) == cmds[k];
    }
  }

  /** Reading and buffing the rebuilt list is reading and buffing the value list. */
  lemma RebuildBuff(cmds: seq<Command>, vals: seq<real>, i: nat, e: nat)
    requires |vals| == |cmds| && i < |cmds| && e < |cmds| && cmds[e].Effect?
    ensures Rebuild(cmds, vals)[e].value == vals[e] && Rebuild(cmds, vals)[e].buff == cmds[e].buff
    ensures var r := Rebuild(cmds, vals);
      r[i := ApplyBuff(r[e].buff, r[i])] == Rebuild(cmds, vals[i := BuffValue(cmds[e].buff, vals[i])])
  {
    var r := Rebuild(cmds, vals);
    var b := cmds[e].buff;
    var lhs := r[i := ApplyBuff(b, r[i])];
    var rhs := Rebuild(cmds, vals[i := BuffValue(b, vals[i])]);
    forall k | 0 <= k < |cmds| ensures lhs[k] == rhs[k] {
      if k == i {
        assert ApplyBuff(b, r[i]) == WithValue(r[i], BuffValue(b, vals[i]));
        assert WithValue(r[i], BuffValue(b, vals[i])) == WithValue(cmds[i], BuffValue(b, vals[i]));
      }
    }
  }
  /** From a pool of one card, only the first of five draws finds a card. */
  lemma OneCardDealt(c: Card)
    ensures Dealt([c], 0, 5) == [Some(c), None, None, None, None]
  {
    assert OneCardIndex(3) == 1 && OneCardIndex(4) == -1;
  }

  /** `prepare` with a pool of one card always throws when it logs the hand. */
  method PrepareOneCard(d: CardDeck, c: Card) returns (r: Outcome<DeckError>)
    modifies d
    ensures r == Fail(UndefinedConf)
    ensures d.cards == old(d.cards) + [Some(c), None, None, None, None]
  {
    r := d.Prepare([c]);
    OneCardDealt(c);
    assert d.cards[|old(d.cards)| + 1] == None;
  }
}
