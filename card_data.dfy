/** The card and command shapes of the card engine (assets/script/game-logic/card-data-type.ts). */
module CardData {

  type CardId = int

  /** A card configuration; `effects` holds the raw effect strings of the card. */
  datatype Card = Card(id: CardId, name: string, description: string, resource: string, effects: seq<string>)

  /** How a buff's value is applied: as a fraction of the target's value, or as a number added to it. */
  datatype ValueType = Percent | Number

  /**
   * A `BuffCommand`: its `type` is always "buff"; `on` is the command type it targets,
   * kept as the raw token the effect string gave.
   */
  datatype BuffCommand = BuffCommand(on: string, value: real, valueType: ValueType)

  /**
   * A command: a `NormalCommand` of some type with a value, or an `EffectCommand`
   * (type "effect") whose value is the probability with which its buff applies.
   */
  datatype Command =
    | Normal(kind: string, value: real)
    | Effect(value: real, buff: BuffCommand)

  /** The `type` field of a command. */
  function TypeOf(c: Command): string {
    if c.Normal? then c.kind else "effect"
  }

  /** The static typing of the source: only an `EffectCommand` has type "effect". */
  predicate WellTyped(cmds: seq<Command>) {
    forall k :: 0 <= k < |cmds| ==> (cmds[k].Normal? ==> cmds[k].kind != "effect")
  }
}
