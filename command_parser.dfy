/**
 * The effect-string parser (assets/script/game-logic/command-parser.ts): one line of
 * space-separated tokens becomes one typed command, dispatched on its first token
 * through a table with the entries "attack", "energy" and "effect".
 */
module CommandParser {
  import opened Wrappers
  import opened Strings
  import opened CardData

  /**
   * Why a line does not give a command. `UnknownCommandType` is the error the parser
   * throws. `MissingToken` is a token the handler reads but the line does not have, and
   * `NotANumber` a token `parseInt` cannot read; the source builds a command holding
   * `NaN` or `undefined` for these, or throws a `TypeError` when it calls a string
   * method on a missing token.
   */
  datatype ParseError =
    | UnknownCommandType(name: string)
    | MissingToken(index: nat)
    | NotANumber(token: string)

  /** The keys of the parser table, filled once in the constructor and only read afterwards. */
  predicate HasParser(t: string) {
    t == "attack" || t == "energy" || t == "effect"
  }

  /** A trailing '%' marks a percentage, stored as a fraction; otherwise the token is a number. */
  function ParsePercent(p: string): (r: Option<real>)
  {
    if EndsWith(p, '%') then
      match ParseInt(p[..|p| - 1])
      case Some(n) => Some(n as real / 100.0)
      case None => None
    else
      match ParseInt(p)
      case Some(n) => Some(n as real)
      case None => None
  }

  function GetValueType(v: string): (r: ValueType)
    ensures r == Percent <==> EndsWith(v, '%')
    ensures r == Number <==> !EndsWith(v, '%')
  {
    if EndsWith(v, '%') then Percent else Number
  }

  /** Reads the first token as the value of a command of the given type ("attack" or "energy"). */
  function ParseValueCommand(kind: string, components: seq<string>): (r: Result<Command, ParseError>)
    ensures r.Ok? <==> |components| > 0 && ParseInt(components[0]).Some?
    ensures r.Ok? ==> r.value == Normal(kind, ParseInt(components[0]).value as real)
  {
    if |components| == 0 then Err(MissingToken(0))
    else match ParseInt(components[0])
      case Some(n) => Ok(Normal(kind, n as real))
      case None => Err(NotANumber(components[0]))
  }

  function ParserAttack(components: seq<string>): (r: Result<Command, ParseError>)
  {
    ParseValueCommand("attack", components)
  }

  function ParserEnergy(components: seq<string>): (r: Result<Command, ParseError>)
  {
    ParseValueCommand("energy", components)
  }

  /**
   * `effect <probability> <buff value> <target type>`. Missing probability or buff value
   * tokens are reported first (the source throws on them), then unreadable numbers and
   * a missing target.
   */
  function ParserEffect(components: seq<string>): (r: Result<Command, ParseError>)
    ensures r.Ok? <==>
      |components| >= 3 && ParsePercent(components[0]).Some? && ParsePercent(components[1]).Some?
    ensures r.Ok? ==> r.value == Effect(
      ParsePercent(components[0]).value,
      BuffCommand(components[2], ParsePercent(components[1]).value, GetValueType(components[1])))
  {
    if |components| < 2 then Err(MissingToken(|components|))
    else if ParsePercent(components[0]).None? then Err(NotANumber(components[0]))
    else if |components| < 3 then Err(MissingToken(2))
    else if ParsePercent(components[1]).None? then Err(NotANumber(components[1]))
    else Ok(Effect(
      ParsePercent(components[0]).value,
      BuffCommand(components[2], ParsePercent(components[1]).value, GetValueType(components[1]))))
  }

  /** The handler the table holds for a known type, applied to the tokens after the type token. */
  function Dispatch(t: string, components: seq<string>): Result<Command, ParseError>
    requires HasParser(t)
  {
    if t == "attack" then ParserAttack(components)
    else if t == "energy" then ParserEnergy(components)
    else ParserEffect(components)
  }

  function Parse(rawStr: string): (r: Result<Command, ParseError>)
    ensures var t := Split(rawStr, ' ')[0];
      !HasParser(t) <==> r == Err(UnknownCommandType(t))
    ensures r.Ok? ==> HasParser(TypeOf(r.value))
  {
    var components := Split(rawStr, ' ');
    var t := components[0];
    if !HasParser(t) then Err(UnknownCommandType(t))
    else Dispatch(t, components[1..])
  }

  // ---------------------------------------------------------------------------
  // Properties

  /** "attack N" and "energy N" give a command of that type and value N. */
  lemma ParseNumberCommand(kind: string, n: int)
    requires kind == "attack" || kind == "energy"
    ensures Parse(kind + " " + IntToString(n)) == Ok(Normal(kind, n as real))
  {
    var tok := IntToString(n);
    assert ' ' !in tok;
    assert kind + " " + tok == kind + [' '] + tok;
    SplitCons(kind, tok, ' ');
    SplitNoSep(tok, ' ');
    ParseIntToString(n);
  }

  /** "d%" reads as d/100, and "d" as d. */
  lemma ParsePercentDecimal(d: int)
    ensures ParsePercent(IntToString(d) + "%") == Some(d as real / 100.0)
    ensures ParsePercent(IntToString(d)) == Some(d as real)
    ensures GetValueType(IntToString(d) + "%") == Percent
    ensures GetValueType(IntToString(d)) == Number
  {
    var tok := IntToString(d);
    var p := tok + "%";
    assert p[..|p| - 1] == tok;
    ParseIntToString(d);
    assert tok[|tok| - 1] == '-' || IsDigit(tok[|tok| - 1]);
  }

  /**
   * The handler sees exactly the tokens after the type token: a line with a known type
   * parses as that type's handler applied to the split of the rest of the line.
   */
  lemma ParseDispatchesRest(t: string, rest: string)
    requires ' ' !in t && HasParser(t)
    ensures Parse(t + " " + rest) == Dispatch(t, Split(rest, ' '))
  {
    assert t + " " + rest == t + [' '] + rest;
    SplitCons(t, rest, ' ');
  }

  /** Tokens after the ones a handler reads are ignored. */
  lemma ExtraTokensIgnored(t: string, args: seq<string>, extra: seq<string>)
    requires HasParser(t)
    requires t == "effect" ==> |args| >= 3
    requires t != "effect" ==> |args| >= 1
    ensures Dispatch(t, args + extra) == Dispatch(t, args)
  {
    var all := args + extra;
    assert all[0] == args[0];
    if t == "effect" {
      assert all[1] == args[1] && all[2] == args[2];
    }
  }

  /** Three space-free tokens joined by single spaces split back into those tokens. */
  lemma SplitThree(p: string, v: string, target: string)
    requires ' ' !in p && ' ' !in v && ' ' !in target
    ensures Split(p + " " + v + " " + target, ' ') == [p, v, target]
  {
    var tail := v + [' '] + target;
    assert p + " " + v + " " + target == p + [' '] + tail;
    SplitCons(p, tail, ' ');
    SplitCons(v, target, ' ');
    SplitNoSep(target, ' ');
  }

  /** The fields of a parsed `effect` line. */
  lemma ParseEffect(p: string, v: string, target: string)
    requires ' ' !in p && ' ' !in v && ' ' !in target
    requires ParsePercent(p).Some? && ParsePercent(v).Some?
    ensures Parse("effect " + p + " " + v + " " + target) == Ok(Effect(
      ParsePercent(p).value, BuffCommand(target, ParsePercent(v).value, GetValueType(v))))
  {
    var rest := p + " " + v + " " + target;
    var line := "effect " + p + " " + v + " " + target;
    assert line == "effect" + " " + rest;
    ParseDispatchesRest("effect", rest);
    SplitThree(p, v, target);
    assert Parse(line) == ParserEffect([p, v, target]);
  }

  /** "50%" reads as one half. */
  lemma PercentExample()
    ensures ParsePercent("50%") == Some(0.5)
  {
    var p, d := "50%", "50";
    assert p[..2] == d && d[..1] == "5" && "5"[..0] == "";
    assert DigitsValue(d) == 50;
  }

  /** "20%" reads as a fifth, of value type percent. */
  lemma PercentExample2()
    ensures ParsePercent("20%") == Some(0.2) && GetValueType("20%") == Percent
  {
    var v, d := "20%", "20";
    assert v[..2] == d && d[..1] == "2" && "2"[..0] == "";
    assert DigitsValue(d) == 20;
  }

  /** The example line "effect 50% 20% attack". */
  lemma ParseEffectExample()
    ensures Parse("effect 50% 20% attack") == Ok(Effect(0.5, BuffCommand("attack", 0.2, Percent)))
  {
    PercentExample();
    PercentExample2();
    assert "effect 50% 20% attack" == "effect " + "50%" + " " + "20%" + " " + "attack";
    ParseEffect("50%", "20%", "attack");
  }
}
