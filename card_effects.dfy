/**
 * The buff pipeline of a combatant's `execute` (assets/script/components/card-deck.ts):
 * `findCommandsByType`, `applyBuff` and `applyEffects`, stated as functions over the
 * command list, together with what `execute` then does with the buffed list.
 *
 * The effect commands that `applyEffects` applies are the very objects that sit in the
 * command list, so a buff on commands of type "effect" changes the probability (the
 * `value`) of an effect that is applied later. The functions below therefore refer to
 * an effect by its position in the current list and always read its current value.
 */
module CardEffects {
  import opened CardData

  /** The command with its value replaced; type and buff stay. */
  function WithValue(c: Command, v: real): (r: Command)
    ensures r.value == v && TypeOf(r) == TypeOf(c) && r.Effect? == c.Effect?
  {
    match c
    case Normal(kind, _) => Normal(kind, v)
    case Effect(_, buff) => Effect(v, buff)
  }

  // ---------------------------------------------------------------------------
  // applyBuff

  /** The value a command of value `v` has after `applyBuff(buff, _)`. */
  function BuffValue(buff: BuffCommand, v: real): real
  {
    var addValue := if buff.valueType == Percent then v * buff.value else buff.value;
    v + addValue
  }

  /** `applyBuff(buff, cmd)`: only the value of the command changes. */
  function ApplyBuff(buff: BuffCommand, cmd: Command): (r: Command)
    ensures r == WithValue(cmd, r.value)
    ensures buff.valueType == Number ==> r.value == cmd.value + buff.value
    ensures buff.valueType == Percent ==> r.value == cmd.value + cmd.value * buff.value
  {
    WithValue(cmd, BuffValue(buff, cmd.value))
  }

  // ---------------------------------------------------------------------------
  // findCommandsByType

  /** Positions of the first `n` commands whose type is `t`, in list order. */
  function PositionsOf(cmds: seq<Command>, t: string, n: nat): (r: seq<nat>)
    requires n <= |cmds|
    ensures forall k :: 0 <= k < |r| ==> r[k] < n && TypeOf(cmds[r[k]]) == t
  {
    if n == 0 then []
    else PositionsOf(cmds, t, n - 1) + (if TypeOf(cmds[n - 1]) == t then [n - 1] else [])
  }

  /** Every position of a command of type `t` is listed. */
  lemma {:induction false} PositionsOfComplete(cmds: seq<Command>, t: string, n: nat)
    requires n <= |cmds|
    ensures forall p :: 0 <= p < n && TypeOf(cmds[p]) == t ==> p in PositionsOf(cmds, t, n)
  {
    if n > 0 {
      PositionsOfComplete(cmds, t, n - 1);
      var init := PositionsOf(cmds, t, n - 1);
      var r := PositionsOf(cmds, t, n);
      assert r == init + (if TypeOf(cmds[n - 1]) == t then [n - 1] else []);
      forall p | 0 <= p < n && TypeOf(cmds[p]) == t ensures p in r {
        if p < n - 1 {
          assert p in init;
        } else {
          assert r[|r| - 1] == p;
        }
      }
    }
  }

  predicate Increasing(r: seq<nat>) {
    forall a, b :: 0 <= a < b < |r| ==> r[a] < r[b]
  }

  /** The positions are listed in increasing order. */
  lemma {:induction false} PositionsOfIncreasing(cmds: seq<Command>, t: string, n: nat)
    requires n <= |cmds|
    ensures Increasing(PositionsOf(cmds, t, n))
  {
    if n > 0 {
      PositionsOfIncreasing(cmds, t, n - 1);
      var init := PositionsOf(cmds, t, n - 1);
      var r := PositionsOf(cmds, t, n);
      if TypeOf(cmds[n - 1]) == t {
        assert r == init + [n - 1];
        forall a, b | 0 <= a < b < |r| ensures r[a] < r[b] {
          if b < |init| {
            assert r[a] == init[a] && r[b] == init[b];
          } else {
            assert r[a] == init[a] && init[a] < n - 1 && r[b] == n - 1;
          }
        }
      } else {
        assert r == init;
      }
    }
  }

  /** `findCommandsByType(commands, t)`: the commands of type `t`, as positions in the list. */
  function FindCommandsByType(cmds: seq<Command>, t: string): seq<nat>
  {
    PositionsOf(cmds, t, |cmds|)
  }

  /** The filter keeps exactly the commands of type `t`, in list order. */
  lemma FindCommandsByTypeExact(cmds: seq<Command>, t: string)
    ensures var r := FindCommandsByType(cmds, t);
      forall k :: 0 <= k < |r| ==> r[k] < |cmds| && TypeOf(cmds[r[k]]) == t
    ensures forall p :: 0 <= p < |cmds| && TypeOf(cmds[p]) == t ==> p in FindCommandsByType(cmds, t)
    ensures Increasing(FindCommandsByType(cmds, t))
  {
    PositionsOfComplete(cmds, t, |cmds|);
    PositionsOfIncreasing(cmds, t, |cmds|);
    assert FindCommandsByType(cmds, t) == PositionsOf(cmds, t, |cmds|);
  }

  /** `effs` lists positions of effect commands of `cmds`. */
  predicate EffectPositions(cmds: seq<Command>, effs: seq<nat>) {
    forall k :: 0 <= k < |effs| ==> effs[k] < |cmds| && cmds[effs[k]].Effect?
  }

  lemma FoundEffectsArePositions(cmds: seq<Command>)
    requires WellTyped(cmds)
    ensures EffectPositions(cmds, FindCommandsByType(cmds, "effect"))
  {
    FindCommandsByTypeExact(cmds, "effect");
  }

  /** The effects of `effs` whose buff targets commands of type `kind` (`targetEffects`). */
  function Targets(cmds: seq<Command>, effs: seq<nat>, kind: string): (r: seq<nat>)
    requires EffectPositions(cmds, effs)
    ensures EffectPositions(cmds, r)
    ensures |r| <= |effs|
  {
    if effs == [] then []
    else
      var init := Targets(cmds, effs[..|effs| - 1], kind);
      var e := effs[|effs| - 1];
      if cmds[e].buff.on == kind then init + [e] else init
  }

  /** The targets are exactly the effects of the list whose buff is aimed at `kind`. */
  lemma {:induction false} TargetsExact(cmds: seq<Command>, effs: seq<nat>, kind: string)
    requires EffectPositions(cmds, effs)
    ensures forall x :: x in Targets(cmds, effs, kind) ==> x in effs && x < |cmds| && cmds[x].buff.on == kind
    ensures forall j :: 0 <= j < |effs| && cmds[effs[j]].buff.on == kind ==> effs[j] in Targets(cmds, effs, kind)
  {
    if effs != [] {
      var init := effs[..|effs| - 1];
      var e := effs[|effs| - 1];
      TargetsExact(cmds, init, kind);
      assert effs == init + [e];
      var r := Targets(cmds, effs, kind);
      var ri := Targets(cmds, init, kind);
      assert r == if cmds[e].buff.on == kind then ri + [e] else ri;
      forall j | 0 <= j < |effs| && cmds[effs[j]].buff.on == kind ensures effs[j] in r {
        if j < |init| {
          assert effs[j] == init[j] && init[j] in ri;
        } else {
          assert r[|r| - 1] == e;
        }
      }
    }
  }

  // ---------------------------------------------------------------------------
  // applyEffects

  /**
   * `applyEffects` changes only the `value` fields of the commands it is given, so its
   * state is the list of current values, one per position; types and buffs are read
   * from the list as written.
   */
  function Values(cmds: seq<Command>): (vals: seq<real>)
    ensures |vals| == |cmds| && forall k :: 0 <= k < |cmds| ==> vals[k] == cmds[k].value
  {
    seq(|cmds|, k requires 0 <= k < |cmds| => cmds[k].value)
  }

  /** The commands with their values replaced by `vals`. */
  function Rebuild(cmds: seq<Command>, vals: seq<real>): (r: seq<Command>)
    requires |vals| == |cmds|
    ensures |r| == |cmds| && forall k :: 0 <= k < |cmds| ==> r[k] == WithValue(cmds[k], vals[k])
  {
    seq(|cmds|, k requires 0 <= k < |cmds| => WithValue(cmds[k], vals[k]))
  }

  /**
   * One pass of the inner loop: the effect at position `e` is applied to the command at
   * position `i` unless the draw `d` is above the effect's current probability `vals[e]`.
   */
  function TryEffect(cmds: seq<Command>, vals: seq<real>, i: nat, e: nat, d: real): (r: seq<real>)
    requires |vals| == |cmds| && i < |cmds| && e < |cmds| && cmds[e].Effect?
    ensures |r| == |vals|
  {
    if d > vals[e] then vals else vals[i := BuffValue(cmds[e].buff, vals[i])]
  }

  /** The inner loop: the effects `ts`, in order, tried on command `i` with the draws `ds`. */
  function ApplyTargets(cmds: seq<Command>, vals: seq<real>, i: nat, ts: seq<nat>, ds: seq<real>): (r: seq<real>)
    requires |vals| == |cmds| && i < |cmds| && |ds| == |ts| && EffectPositions(cmds, ts)
    ensures |r| == |vals|
  {
    if ts == [] then vals
    else
      var n := |ts| - 1;
      TryEffect(cmds, ApplyTargets(cmds, vals, i, ts[..n], ds[..n]), i, ts[n], ds[n])
  }

  /** The number of draws spent on the first `i` commands: one per (command, target effect). */
  function DrawsBefore(cmds: seq<Command>, effs: seq<nat>, i: nat): nat
    requires i <= |cmds| && EffectPositions(cmds, effs)
  {
    if i == 0 then 0 else DrawsBefore(cmds, effs, i - 1) + |Targets(cmds, effs, TypeOf(cmds[i - 1]))|
  }

  lemma DrawsBeforeMonotone(cmds: seq<Command>, effs: seq<nat>, i: nat, j: nat)
    requires i <= j <= |cmds| && EffectPositions(cmds, effs)
    ensures DrawsBefore(cmds, effs, i) <= DrawsBefore(cmds, effs, j)
    decreases j
  {
    if i < j {
      DrawsBeforeMonotone(cmds, effs, i, j - 1);
    }
  }

  /** The draws consumed by the whole of `applyEffects`. */
  function DrawsNeeded(cmds: seq<Command>, effs: seq<nat>): nat
    requires EffectPositions(cmds, effs)
  {
    DrawsBefore(cmds, effs, |cmds|)
  }

  /** The draws command `i` uses. */
  function DrawsFor(cmds: seq<Command>, effs: seq<nat>, draws: seq<real>, i: nat): (ds: seq<real>)
    requires i < |cmds| && EffectPositions(cmds, effs) && |draws| >= DrawsNeeded(cmds, effs)
    ensures |ds| == |Targets(cmds, effs, TypeOf(cmds[i]))|
  {
    DrawsBeforeMonotone(cmds, effs, i + 1, |cmds|);
    draws[DrawsBefore(cmds, effs, i)..DrawsBefore(cmds, effs, i + 1)]
  }

  /** One more pass of the inner loop. */
  lemma ApplyTargetsStep(cmds: seq<Command>, vals: seq<real>, i: nat, ts: seq<nat>, ds: seq<real>, j: nat)
    requires |vals| == |cmds| && i < |cmds| && |ds| == |ts| && EffectPositions(cmds, ts) && j < |ts|
    ensures ApplyTargets(cmds, vals, i, ts[..j + 1], ds[..j + 1]) ==
      TryEffect(cmds, ApplyTargets(cmds, vals, i, ts[..j], ds[..j]), i, ts[j], ds[j])
  {
    assert ts[..j + 1][..j] == ts[..j] && ds[..j + 1][..j] == ds[..j];
  }

  /** The current values after the first `i` iterations of the outer loop. */
  function ApplyEffectsUpTo(cmds: seq<Command>, effs: seq<nat>, draws: seq<real>, i: nat): (r: seq<real>)
    requires i <= |cmds| && EffectPositions(cmds, effs) && |draws| >= DrawsNeeded(cmds, effs)
    ensures |r| == |cmds|
  {
    if i == 0 then Values(cmds)
    else
      ApplyTargets(cmds, ApplyEffectsUpTo(cmds, effs, draws, i - 1), i - 1,
        Targets(cmds, effs, TypeOf(cmds[i - 1])), DrawsFor(cmds, effs, draws, i - 1))
  }

  /** One more pass of the outer loop, with its draws as a slice of the whole run. */
  lemma ApplyEffectsUpToNext(cmds: seq<Command>, effs: seq<nat>, draws: seq<real>, i: nat, ts: seq<nat>, pos: nat)
    requires i < |cmds| && EffectPositions(cmds, effs) && |draws| >= DrawsNeeded(cmds, effs)
    requires ts == Targets(cmds, effs, TypeOf(cmds[i])) && pos == DrawsBefore(cmds, effs, i)
    ensures DrawsBefore(cmds, effs, i + 1) == pos + |ts| <= |draws|
    ensures ApplyEffectsUpTo(cmds, effs, draws, i + 1) ==
      ApplyTargets(cmds, ApplyEffectsUpTo(cmds, effs, draws, i), i, ts, draws[pos..pos + |ts|])
  {
    DrawsBeforeMonotone(cmds, effs, i + 1, |cmds|);
  }

  /**
   * `applyEffects(effects, commands)` with the draws it makes, in loop order: the same
   * commands, position by position of the same type and, for an effect, with the same
   * buff; only values change.
   */
  function ApplyEffects(cmds: seq<Command>, effs: seq<nat>, draws: seq<real>): (r: seq<Command>)
    requires EffectPositions(cmds, effs) && |draws| >= DrawsNeeded(cmds, effs)
    ensures |r| == |cmds|
    ensures forall k :: 0 <= k < |cmds| ==>
      TypeOf(r[k]) == TypeOf(cmds[k]) && r[k].Effect? == cmds[k].Effect? &&
      (r[k].Effect? ==> r[k].buff == cmds[k].buff)
  {
    Rebuild(cmds, ApplyEffectsUpTo(cmds, effs, draws, |cmds|))
  }

  /** The command list after the buff stage of `execute`. */
  function Buffed(cmds: seq<Command>, draws: seq<real>): (r: seq<Command>)
    requires WellTyped(cmds)
    requires |draws| >= DrawsNeeded(cmds, FindCommandsByType(cmds, "effect"))
    ensures |r| == |cmds| && forall k :: 0 <= k < |cmds| ==> TypeOf(r[k]) == TypeOf(cmds[k])
  {
    FoundEffectsArePositions(cmds);
    ApplyEffects(cmds, FindCommandsByType(cmds, "effect"), draws)
  }

  // ---------------------------------------------------------------------------
  // Stacking: the buffs on one command, written out

  /** The effect commands at the positions `ts`. */
  function At(cmds: seq<Command>, ts: seq<nat>): (r: seq<Command>)
    requires forall k :: 0 <= k < |ts| ==> ts[k] < |cmds|
    ensures |r| == |ts| && forall k :: 0 <= k < |ts| ==> r[k] == cmds[ts[k]]
  {
    seq(|ts|, k requires 0 <= k < |ts| => cmds[ts[k]])
  }

  /**
   * The value `v` after the effects `effects` are tried on it in list order, each on the
   * running value, each applying exactly when its draw is at most its probability.
   */
  function Stack(v: real, effects: seq<Command>, ds: seq<real>): real
    requires |ds| == |effects|
    requires forall k :: 0 <= k < |effects| ==> effects[k].Effect?
    decreases |effects|
  {
    if effects == [] then v
    else
      var n := |effects| - 1;
      var w := Stack(v, effects[..n], ds[..n]);
      if ds[n] > effects[n].value then w else BuffValue(effects[n].buff, w)
  }

  /**
   * On a command that is not an effect, while the effects tried still hold their written
   * probabilities, the inner loop stacks the buffs on its value and changes no other value.
   */
  lemma {:induction false} ApplyTargetsOnNormal(cmds: seq<Command>, vals: seq<real>, i: nat, ts: seq<nat>, ds: seq<real>)
    requires |vals| == |cmds| && i < |cmds| && cmds[i].Normal?
    requires |ds| == |ts| && EffectPositions(cmds, ts)
    requires forall k :: 0 <= k < |ts| ==> vals[ts[k]] == cmds[ts[k]].value
    ensures ApplyTargets(cmds, vals, i, ts, ds) == vals[i := Stack(vals[i], At(cmds, ts), ds)]
  {
    if ts != [] {
      var n := |ts| - 1;
      var e := ts[n];
      ApplyTargetsOnNormal(cmds, vals, i, ts[..n], ds[..n]);
      assert At(cmds, ts)[..n] == At(cmds, ts[..n]);
      var w := Stack(vals[i], At(cmds, ts[..n]), ds[..n]);
      var prev := vals[i := w];
      assert prev[e] == cmds[e].value by {
        assert e != i;
        assert vals[e] == cmds[e].value;
      }
      assert Stack(vals[i], At(cmds, ts), ds) ==
        if ds[n] > cmds[e].value then w else BuffValue(cmds[e].buff, w);
    }
  }

  /** No effect of `effs` is aimed at commands of type `kind`, so none is tried on them. */
  lemma {:induction false} TargetsEmpty(cmds: seq<Command>, effs: seq<nat>, kind: string)
    requires EffectPositions(cmds, effs)
    requires forall j :: 0 <= j < |effs| ==> cmds[effs[j]].buff.on != kind
    ensures Targets(cmds, effs, kind) == []
  {
    if effs != [] {
      TargetsEmpty(cmds, effs[..|effs| - 1], kind);
    }
  }

  /** No effect of the list buffs commands of type "effect", so every probability stays as written. */
  predicate NoBuffOnEffects(cmds: seq<Command>, effs: seq<nat>)
    requires EffectPositions(cmds, effs)
  {
    forall j :: 0 <= j < |effs| ==> cmds[effs[j]].buff.on != "effect"
  }

  /** The value a command that is not an effect ends with, when no effect buffs effects. */
  function StackedValue(cmds: seq<Command>, effs: seq<nat>, draws: seq<real>, k: nat): real
    requires k < |cmds| && EffectPositions(cmds, effs) && |draws| >= DrawsNeeded(cmds, effs)
  {
    Stack(cmds[k].value, At(cmds, Targets(cmds, effs, TypeOf(cmds[k]))), DrawsFor(cmds, effs, draws, k))
  }

  /** The stacked value of every position (only those that are not effects are used). */
  function StackedValues(cmds: seq<Command>, effs: seq<nat>, draws: seq<real>): (sv: seq<real>)
    requires EffectPositions(cmds, effs) && |draws| >= DrawsNeeded(cmds, effs)
    ensures |sv| == |cmds|
  {
    seq(|cmds|, k requires 0 <= k < |cmds| => StackedValue(cmds, effs, draws, k))
  }

  /** `cur` holds the stacked values `sv` on the first `i` commands that are not effects. */
  predicate StackedPrefix(cmds: seq<Command>, sv: seq<real>, i: nat, cur: seq<real>)
    requires |sv| == |cmds|
  {
    |cur| == |cmds| &&
    forall k :: 0 <= k < |cmds| ==> cur[k] == if k < i && cmds[k].Normal? then sv[k] else cmds[k].value
  }

  /** The values after `i` iterations of the outer loop, written out. */
  ghost predicate StackedUpTo(cmds: seq<Command>, effs: seq<nat>, draws: seq<real>, i: nat, cur: seq<real>)
    requires i <= |cmds| && EffectPositions(cmds, effs) && |draws| >= DrawsNeeded(cmds, effs)
  {
    StackedPrefix(cmds, StackedValues(cmds, effs, draws), i, cur)
  }

  lemma StackedPrefixStep(cmds: seq<Command>, sv: seq<real>, i: nat, prev: seq<real>, next: seq<real>)
    requires |sv| == |cmds| && i < |cmds| && StackedPrefix(cmds, sv, i, prev)
    requires next == if cmds[i].Effect? then prev else prev[i := sv[i]]
    ensures StackedPrefix(cmds, sv, i + 1, next)
  {
  }

  lemma StackStep(cmds: seq<Command>, effs: seq<nat>, draws: seq<real>, i: nat)
    requires i < |cmds| && EffectPositions(cmds, effs) && |draws| >= DrawsNeeded(cmds, effs)
    requires NoBuffOnEffects(cmds, effs)
    requires StackedUpTo(cmds, effs, draws, i, ApplyEffectsUpTo(cmds, effs, draws, i))
    ensures StackedUpTo(cmds, effs, draws, i + 1, ApplyEffectsUpTo(cmds, effs, draws, i + 1))
  {
    var sv := StackedValues(cmds, effs, draws);
    var prev := ApplyEffectsUpTo(cmds, effs, draws, i);
    var ts := Targets(cmds, effs, TypeOf(cmds[i]));
    var ds := DrawsFor(cmds, effs, draws, i);
    var next := ApplyEffectsUpTo(cmds, effs, draws, i + 1);
    assert StackedPrefix(cmds, sv, i, prev);
    assert next == ApplyTargets(cmds, prev, i, ts, ds);
    if cmds[i].Effect? {
      TargetsEmpty(cmds, effs, "effect");
      assert next == prev;
    } else {
      forall k | 0 <= k < |ts| ensures prev[ts[k]] == cmds[ts[k]].value {
        assert cmds[ts[k]].Effect?;
      }
      ApplyTargetsOnNormal(cmds, prev, i, ts, ds);
      assert prev[i] == cmds[i].value;
      assert sv[i] == StackedValue(cmds, effs, draws, i);
      assert next == prev[i := sv[i]];
    }
    StackedPrefixStep(cmds, sv, i, prev, next);
  }

  lemma {:induction false} ApplyEffectsUpToStacks(cmds: seq<Command>, effs: seq<nat>, draws: seq<real>, i: nat)
    requires i <= |cmds| && EffectPositions(cmds, effs) && |draws| >= DrawsNeeded(cmds, effs)
    requires NoBuffOnEffects(cmds, effs)
    ensures StackedUpTo(cmds, effs, draws, i, ApplyEffectsUpTo(cmds, effs, draws, i))
  {
    if i > 0 {
      var j := i - 1;
      ApplyEffectsUpToStacks(cmds, effs, draws, j);
      StackStep(cmds, effs, draws, j);
      assert j + 1 == i;
    }
  }

  /**
   * When no effect buffs effects, every command that is not an effect ends with its value
   * stacked by exactly the effects whose `buff.on` equals its type, in list order, with
   * the draws spent on it; effects keep their values.
   */
  lemma ApplyEffectsStacks(cmds: seq<Command>, effs: seq<nat>, draws: seq<real>)
    requires EffectPositions(cmds, effs) && |draws| >= DrawsNeeded(cmds, effs)
    requires NoBuffOnEffects(cmds, effs)
    ensures forall k :: 0 <= k < |cmds| ==>
      ApplyEffects(cmds, effs, draws)[k] ==
        if cmds[k].Effect? then cmds[k] else WithValue(cmds[k], StackedValue(cmds, effs, draws, k))
  {
    ApplyEffectsUpToStacks(cmds, effs, draws, |cmds|);
    var vals := ApplyEffectsUpTo(cmds, effs, draws, |cmds|);
    var sv := StackedValues(cmds, effs, draws);
    forall k | 0 <= k < |cmds|
      ensures ApplyEffects(cmds, effs, draws)[k] ==
        if cmds[k].Effect? then cmds[k] else WithValue(cmds[k], StackedValue(cmds, effs, draws, k))
    {
      assert vals[k] == if cmds[k].Normal? then sv[k] else cmds[k].value;
      if cmds[k].Effect? {
        assert WithValue(cmds[k], vals[k]) == cmds[k];
      }
    }
  }

  /** A command with no effect aimed at its type comes out unchanged. */
  lemma UntargetedUnchanged(cmds: seq<Command>, effs: seq<nat>, draws: seq<real>, k: nat)
    requires EffectPositions(cmds, effs) && |draws| >= DrawsNeeded(cmds, effs)
    requires NoBuffOnEffects(cmds, effs)
    requires k < |cmds| && forall j :: 0 <= j < |effs| ==> cmds[effs[j]].buff.on != TypeOf(cmds[k])
    ensures ApplyEffects(cmds, effs, draws)[k] == cmds[k]
  {
    ApplyEffectsStacks(cmds, effs, draws);
    if cmds[k].Normal? {
      TargetsEmpty(cmds, effs, TypeOf(cmds[k]));
      assert At(cmds, []) == [];
    }
  }

  /** One attack of 10 and an effect with a 50% chance of +20% on attacks. */
  const Example: seq<Command> := [Normal("attack", 10.0), Effect(0.5, BuffCommand("attack", 0.2, Percent))]

  lemma ExampleEffects()
    ensures FindCommandsByType(Example, "effect") == [1]
  {
    assert PositionsOf(Example, "effect", 1) == [];
  }

  lemma ExampleTargets()
    ensures EffectPositions(Example, [1])
    ensures Targets(Example, [1], "attack") == [1] && Targets(Example, [1], "effect") == []
  {
    var none: seq<nat> := [];
    assert [1][..0] == none;
    assert Targets(Example, none, "attack") == [];
    assert Targets(Example, none, "effect") == [];
    assert Example[1].buff.on == "attack";
  }

  lemma ExampleDraws(d: real)
    ensures EffectPositions(Example, [1]) && DrawsNeeded(Example, [1]) == 1
    ensures DrawsFor(Example, [1], [d], 0) == [d]
  {
    ExampleTargets();
    assert DrawsBefore(Example, [1], 1) == 1;
  }

  /** The attack's stacked value: 12 when the draw is at most 0.5, 10 otherwise. */
  lemma ExampleStacked(d: real)
    ensures EffectPositions(Example, [1]) && DrawsNeeded(Example, [1]) == 1
    ensures StackedValue(Example, [1], [d], 0) == if d <= 0.5 then 12.0 else 10.0
  {
    ExampleTargets();
    ExampleDraws(d);
    var at := At(Example, [1]);
    assert at == [Example[1]];
    assert at[..0] == [] && [d][..0] == [];
    assert Stack(10.0, at, [d]) == if d > 0.5 then 10.0 else BuffValue(Example[1].buff, 10.0);
  }

  /** The attack becomes 12 exactly when the draw is at most the effect's probability 0.5. */
  lemma OneEffectExample(d: real)
    ensures |[d]| >= DrawsNeeded(Example, FindCommandsByType(Example, "effect"))
    ensures Buffed(Example, [d]) == [Normal("attack", if d <= 0.5 then 12.0 else 10.0), Example[1]]
  {
    ExampleEffects();
    ExampleStacked(d);
    var effs: seq<nat> := [1];
    ApplyEffectsStacks(Example, effs, [d]);
    var r := ApplyEffects(Example, effs, [d]);
    assert r[0] == WithValue(Example[0], StackedValue(Example, effs, [d], 0));
    assert r[1] == Example[1];
    assert r == [r[0], r[1]];
  }

  // ---------------------------------------------------------------------------
  // The dispatch stage of execute

  /** The sum of the values of the attack commands: what `executeAttack` takes off the HP. */
  function AttackTotal(cmds: seq<Command>): real
  {
    if cmds == [] then 0.0
    else
      var n := |cmds| - 1;
      AttackTotal(cmds[..n]) + (if TypeOf(cmds[n]) == "attack" then cmds[n].value else 0.0)
  }

  /** The skipturn commands, in order: what `executeSkipTurn` appends to the effects. */
  function SkipTurns(cmds: seq<Command>): (r: seq<Command>)
    ensures forall k :: 0 <= k < |r| ==> TypeOf(r[k]) == "skipturn"
    ensures |r| <= |cmds|
  {
    if cmds == [] then []
    else
      var n := |cmds| - 1;
      SkipTurns(cmds[..n]) + (if TypeOf(cmds[n]) == "skipturn" then [cmds[n]] else [])
  }

  /** What the dispatch loop adds for one more command. */
  lemma DispatchStep(cmds: seq<Command>, i: nat)
    requires i < |cmds|
    ensures AttackTotal(cmds[..i + 1]) ==
      AttackTotal(cmds[..i]) + (if TypeOf(cmds[i]) == "attack" then cmds[i].value else 0.0)
    ensures SkipTurns(cmds[..i + 1]) ==
      SkipTurns(cmds[..i]) + (if TypeOf(cmds[i]) == "skipturn" then [cmds[i]] else [])
  {
    assert cmds[..i + 1][..i] == cmds[..i];
  }

  /** Commands of types without a handler (energy, effect, ...) add no damage and no lingering effect. */
  lemma {:induction false} NoHandlerNoChange(cmds: seq<Command>)
    requires forall k :: 0 <= k < |cmds| ==> TypeOf(cmds[k]) != "attack" && TypeOf(cmds[k]) != "skipturn"
    ensures AttackTotal(cmds) == 0.0 && SkipTurns(cmds) == []
  {
    if cmds != [] {
      NoHandlerNoChange(cmds[..|cmds| - 1]);
    }
  }

  /** Damage adds up over a concatenation of command lists. */
  lemma {:induction false} AttackTotalAppend(a: seq<Command>, b: seq<Command>)
    ensures AttackTotal(a + b) == AttackTotal(a) + AttackTotal(b)
    decreases |b|
  {
    if b != [] {
      var n := |b| - 1;
      assert (a + b)[..|a + b| - 1] == a + b[..n];
      AttackTotalAppend(a, b[..n]);
    } else {
      assert a + b == a;
    }
  }
}
