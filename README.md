# Card battle engine and game utilities, modelled in Dafny

This project models the logic of a small card-battle game written in TypeScript for the
Cocos Creator engine. The graphics, animations and engine calls are left out.

**The card engine:**
- a parser turns effect strings such as `effect 50% 20% attack` into typed commands;
- a combatant's deck:
  - its HP and lingering "skip turn" entries;
  - a card pool drawn in ping-pong order;
  - a five-card hand used oldest first;
  - `execute`, which applies probabilistic buffs to a list of commands in place and then deals the damage;
- the card registry's duplicate-id check;
- the bookkeeping of the deck-selection panel:
  - locked and unlocked placeholders;
  - the two maps between placeholders and cards;
  - what `submit` collects.

**The utilities beside the engine:**
- version comparison, `clamp`, thousands grouping, the in-place shuffle and the random choices built on it;
- the `mm:ss` / `hh:mm:ss` formatter;
- a typed listener registry;
- the touch lock, a set of tokens with a stack of saved sets;
- a last-in-first-out object pool;
- the pure helpers of the HTTP layer: the query-string builder with `encodeURIComponent`, the classification of a finished request, and the success test applied to its status.

**Layout.** There is one module per source file:
- `CommandParser`, `CardDeck` with `CardEffects` (the buff pipeline of `card-deck.ts`), `CardManager`, `SelectCardPanel`, `Common`, `Time`, `TypedEvents`, `Locker`, `ObjectPools` and `Http`.
- Three shared modules support them:
  - `Wrappers` (`Option`, `Result`, `Outcome`);
  - `Strings` (the JavaScript `split`, `join`, `parseInt` and integer `toString` the code relies on);
  - `CardData` (the card and command shapes).
- Code that changes state is a class:
  - the deck, the selection panel, the listener registry, the lock and the pool;
  - each method's contract states its whole new state.
- Loops stay loops with invariants: `applyEffects`, `createCard`, the dispatch loop of `execute`, `compareVersion`, `shuffleArr`, `submit`, `getTouchedHolder`, `emit` and `unlock`.
- Pure code is functions, each with lemmas stating the source's promises.

**Modelling choices:**
- **Numbers in the card engine are `real`,** because percentage buffs multiply by fractions.
- **Random numbers are inputs:**
  - `applyEffects` receives the sequence of draws that its calls of `random(0, 1)` would make, one per (command, matching effect) pair in loop order;
  - `shuffleArr` receives one draw in [0, 1) per pass.
- **Aliasing in `applyEffects`.** The effect commands it applies are the very objects in the command list. A buff aimed at commands of type `effect` therefore changes the probability of an effect that is applied later. The model refers to effects by position and always reads the current value.
- **A pool of one card reads out of range.** The ping-pong draw then reads indices 0, 1, -1, 1, ... The model reproduces that: the configuration after the first draw is `None`, standing for `undefined`. `prepare` then logs the names of the hand, which throws a TypeError on the first such card, so `prepare` on a one-card pool always fails (`PrepareOneCard`). `play` likewise throws when the card it takes out has no configuration, after removing it from the hand and before drawing its replacement.
- **An empty pool makes `drawCard` throw, but only after the new card has joined the hand.** That card is kept, with no configuration.
- **`convertToCommands` and `getCard` are parameters,** because the card registry functions they name are not part of this model. The same holds for the hit tests of cards and placeholders, the object-pool factory and the `uuid` token generator.

## Model

| member | source | states |
|---|---|---|
| `CommandParser.GetValueType` | assets/script/game-logic/command-parser.ts:24-29 | the value type is percent exactly when the token ends with `%`, and number exactly when it does not |
| `CommandParser.ParseValueCommand` | assets/script/game-logic/command-parser.ts:31-43 | an attack or energy handler succeeds exactly when a first token exists and reads as an integer, and then gives a command of that type holding that integer |
| `CommandParser.ParserEffect` | assets/script/game-logic/command-parser.ts:45-56 | an effect handler succeeds exactly when there are three tokens and the first two read as percentages; the probability is the first, the buff targets the third token verbatim, and the buff value and value type come from the second |
| `CommandParser.Parse` | assets/script/game-logic/command-parser.ts:58-66 | the error is "unknown command type" exactly when the first token is not `attack`, `energy` or `effect`; a parsed command always has a type from that table |
| `CommandParser.ParserAttack` | assets/script/game-logic/command-parser.ts:31-36 | no contract of its own: it is `ParseValueCommand` for `attack`, and `ParseNumberCommand` states its result |
| `CommandParser.ParserEnergy` | assets/script/game-logic/command-parser.ts:38-43 | no contract of its own: it is `ParseValueCommand` for `energy`, and `ParseNumberCommand` states its result |
| `CommandParser.ParseNumberCommand` | assets/script/game-logic/command-parser.ts:31-43 | `attack N` and `energy N` parse to a command of that type and value N, for every integer N |
| `CommandParser.ParsePercent` | assets/script/game-logic/command-parser.ts:17-22 | no contract of its own: `ParsePercentDecimal` and `PercentExample` state what it reads |
| `CommandParser.ParsePercentDecimal` | assets/script/game-logic/command-parser.ts:17-29 | `d%` reads as d/100 with value type percent, and `d` reads as d with value type number, for every integer d |
| `CommandParser.ParseDispatchesRest` | assets/script/game-logic/command-parser.ts:59-65 | for a known type, the line parses as that type's handler applied to the split of the text after the type token |
| `CommandParser.ExtraTokensIgnored` | assets/script/game-logic/command-parser.ts:31-56 | tokens after the ones a handler reads do not change its result |
| `CommandParser.ParseEffect` | assets/script/game-logic/command-parser.ts:45-65 | `effect p v t` parses to an effect of probability parsePercent(p) whose buff targets t, with value parsePercent(v) and value type getValueType(v) |
| `CommandParser.PercentExample` | assets/script/game-logic/command-parser.ts:17-20 | `50%` reads as 0.5 |
| `CommandParser.PercentExample2` | assets/script/game-logic/command-parser.ts:17-29 | `20%` reads as 0.2, with value type percent |
| `CommandParser.ParseEffectExample` | assets/script/game-logic/command-parser.ts:45-65 | `effect 50% 20% attack` parses to a 0.5-probability effect with a +20% percent buff on attacks |
| `Strings.ParseInt` | assets/script/game-logic/command-parser.ts:34 | only a non-empty token reads as a number, and a token of digits reads as its decimal value |
| `Strings.NatToString` | assets/script/common/time.ts:99-101 | the text is non-empty decimal digits, one digit exactly for numbers below ten |
| `Strings.IntToString` | assets/script/common/time.ts:99-101 | the text is non-empty, all digits for non-negative numbers, and otherwise digits and a minus sign |
| `Strings.ParseIntToString` | assets/script/game-logic/command-parser.ts:34 | reading back the decimal text of an integer gives the integer |
| `Strings.DigitsValueLeadingZero` | assets/script/common/time.ts:97-100 | a leading zero does not change the value of a digit string |
| `Strings.Split` | assets/script/game-logic/command-parser.ts:59 | a split has at least one piece, and no piece contains the separator |
| `Strings.SplitCons` | assets/script/game-logic/command-parser.ts:59-65 | the first piece ends at the first separator and the rest of the text is split on its own |
| `Strings.JoinSplit` | assets/script/common/common.ts:158-159 | joining the pieces of a split gives back the text |
| `Strings.SplitJoin` | assets/script/common/network/http.ts:51-53 | splitting a join of separator-free pieces gives back the pieces |
| `CardEffects.ApplyBuff` | assets/script/components/card-deck.ts:288-296 | only the value of the command changes; a number buff adds its value, and a percent buff adds the command's value times its value |
| `CardEffects.FindCommandsByTypeExact` | assets/script/components/card-deck.ts:284-286 | the filter lists every command of the type and nothing else, in list order |
| `CardEffects.FindCommandsByType` | assets/script/components/card-deck.ts:284-286 | no contract of its own: `FindCommandsByTypeExact` states that it lists exactly the commands of the type, in order |
| `CardEffects.TargetsExact` | assets/script/components/card-deck.ts:301 | the target effects of a command are exactly the effects whose buff is aimed at its type |
| `CardEffects.ApplyEffects` | assets/script/components/card-deck.ts:298-311 | the list keeps its length, and each position its type, whether it is an effect, and its buff; only values change |
| `CardEffects.Buffed` | assets/script/components/card-deck.ts:258-259 | the buff stage of `execute` keeps the length and the type of every command |
| `CardEffects.ApplyTargetsOnNormal` | assets/script/components/card-deck.ts:303-308 | on a command that is not an effect, the inner loop stacks the target buffs in list order on the running value, each applied exactly when its draw is at most its probability, and changes no other value, provided the target effects still hold their original values |
| `CardEffects.ApplyEffectsStacks` | assets/script/components/card-deck.ts:298-311 | when no effect buffs effects, every other command ends with its value stacked by exactly the effects aimed at its type, in list order, with its own draws, and effects keep their values |
| `CardEffects.UntargetedUnchanged` | assets/script/components/card-deck.ts:301-308 | a command that no effect is aimed at comes out unchanged |
| `CardEffects.ExampleStacked` | assets/script/components/card-deck.ts:303-307 | an attack of 10 under a 50% chance of +20% reaches 12 exactly when its draw is at most 0.5, and stays 10 otherwise |
| `CardEffects.OneEffectExample` | assets/script/components/card-deck.ts:257-259 | the whole buff stage of that two-command list gives the attack 12 or 10 by the draw and leaves the effect as it was |
| `CardEffects.SkipTurns` | assets/script/components/card-deck.ts:280-282 | what the dispatch appends to the effects holds only skip-turn commands, no more than the commands dispatched |
| `CardEffects.NoHandlerNoChange` | assets/script/components/card-deck.ts:264-270 | commands of types with no handler, effects included, deal no damage and leave no lingering effect |
| `CardEffects.AttackTotalAppend` | assets/script/components/card-deck.ts:275-278 | the damage of two command lists in a row is the sum of their damages |
| `CardDeck.CardAt` | assets/script/components/card-deck.ts:131 | a pool read finds a card exactly when the index is inside the pool |
| `CardDeck.PingPong` | assets/script/components/card-deck.ts:130-140 | every position of the ping-pong order lies inside the pool |
| `CardDeck.StepFollowsPingPong` | assets/script/components/card-deck.ts:131-139 | one index update of `getNextCardConf` moves the index, and its direction, one step along the ping-pong order |
| `CardDeck.StepFollowsOneCard` | assets/script/components/card-deck.ts:131-139 | on a pool of one card the index update follows the order 0, 1, -1, 1, -1, ... |
| `CardDeck.PingPongRising` | assets/script/components/card-deck.ts:120-140 | after a reset, the first n draws read the pool front to back |
| `CardDeck.PingPongFalling` | assets/script/components/card-deck.ts:135-139 | the next n - 1 draws read it back to front, down to index 0 |
| `CardDeck.PingPongPeriodic` | assets/script/components/card-deck.ts:131-139 | after that the order repeats with period 2(n - 1) |
| `CardDeck.OneCardDealt` | assets/script/components/card-deck.ts:126-141 | five draws from a pool of one card give the card, then four undefined configurations |
| `CardDeck.PrepareOneCard` | assets/script/components/card-deck.ts:143-157 | `prepare` on a pool of one card fills the hand with the card and four undefined configurations, and throws |
| `CardDeck.SkipIndex` | assets/script/components/card-deck.ts:241 | the position found is the first skip-turn entry, and none is found exactly when there is no such entry |
| `CardDeck.OneNeedsSkip` | assets/script/components/card-deck.ts:242-246 | one `needsSkip` removes a first skip-turn entry holding at most 1, and otherwise lowers its value by one |
| `CardDeck.SkipCountdown` | assets/script/components/card-deck.ts:240-250 | a first skip-turn entry of whole value n >= 1 is found by each of the next n calls of `needsSkip` and removed by the n-th, and the other entries stay as they were |
| `CardDeck.NoSkipNoChange` | assets/script/components/card-deck.ts:241-249 | without a skip-turn entry, `needsSkip` changes nothing |
| `CardDeck.CardDeck.constructor` | assets/script/components/card-deck.ts:24-118 | a new deck has HP 0, no effects, an empty pool and hand, index 0 and direction -1 |
| `CardDeck.CardDeck.IsDead` | assets/script/components/card-deck.ts:97-99 | dead exactly when HP is at most 0 |
| `CardDeck.CardDeck.AddHP` | assets/script/components/card-deck.ts:101-106 | HP grows by exactly the value, without clamping; adding 0 changes nothing; the rest of the state stays |
| `CardDeck.CardDeck.SetHP` | assets/script/components/card-deck.ts:108-111 | HP becomes the value and nothing else changes |
| `CardDeck.CardDeck.ResetCardsPool` | assets/script/components/card-deck.ts:120-124 | the pool is empty, the index 0 and the direction 1; HP, effects and hand stay |
| `CardDeck.CardDeck.GetNextCardConf` | assets/script/components/card-deck.ts:126-141 | an empty pool is an error and changes nothing; otherwise the card at the current index is returned (read along the ping-pong order), and the index takes one step |
| `CardDeck.CardDeck.DrawCard` | assets/script/components/card-deck.ts:164-182 | the hand grows by one card at its end, configured with the next draw; on an empty pool that card keeps no configuration and the error is returned |
| `CardDeck.CardDeck.CreateCard` | assets/script/components/card-deck.ts:54-58 | five draws are dealt onto the end of the hand in ping-pong order, or the first one fails on an empty pool |
| `CardDeck.CardDeck.Prepare` | assets/script/components/card-deck.ts:143-157 | the pool is the given list, HP is 100 and the effects are empty; the first five draws after the reset are added to the hand, or an empty pool fails; it then succeeds exactly when every hand card has a configuration, and fails with the undefined-configuration error otherwise |
| `CardDeck.CardDeck.NeedsSkip` | assets/script/components/card-deck.ts:240-250 | the answer is whether a skip-turn entry exists, and the effects are counted down as `AfterNeedsSkip` says; nothing else changes |
| `CardDeck.CardDeck.Play` | assets/script/components/card-deck.ts:201-238 | a pending skip turn gives no commands and leaves the hand alone; otherwise the oldest card is taken out; without a configuration that is the undefined-configuration error and nothing is drawn; with one, the next draw joins the end of the hand, so the hand size stays, and the card's configuration is converted; an empty hand or pool is an error |
| `CardDeck.CardDeck.Execute` | assets/script/components/card-deck.ts:257-273 | HP drops by the total of the buffed attacks, and the buffed skip turns are appended to the effects; pool, hand and draw index stay |
| `CardDeck.CardDeck.Dispatch` | assets/script/components/card-deck.ts:261-272 | the loop takes each attack's value off HP and appends each skip turn to the effects; effects and types without a handler change nothing |
| `CardDeck.CardDeck.ExecuteAttack` | assets/script/components/card-deck.ts:275-278 | HP drops by the command's value and nothing else changes |
| `CardDeck.CardDeck.ExecuteSkipTurn` | assets/script/components/card-deck.ts:280-282 | the command is appended to the effects and nothing else changes |
| `CardDeck.CardDeck.ApplyEffects` | assets/script/components/card-deck.ts:298-311 | the loop computes the buff pipeline exactly as the function `CardEffects.ApplyEffects` states it |
| `CardDeck.CardDeck.ApplyEffectsTo` | assets/script/components/card-deck.ts:299-309 | one pass of the outer loop moves its state one command further and consumes that command's draws |
| `CardDeck.CardDeck.TryTargets` | assets/script/components/card-deck.ts:303-308 | the inner loop tries the target effects in order with consecutive draws, reading each effect's current probability |
| `CardManager.SetOfSize` | assets/script/game-logic/card-manager.ts:20-22 | the set of ids is no larger than the list, and the same size exactly when the ids are distinct |
| `CardManager.ValidateCards` | assets/script/game-logic/card-manager.ts:18-25 | the check fails with "duplicate card id" exactly when two cards share an id, and passes exactly when all ids differ |
| `CardManager.LoadConfigs` | assets/script/game-logic/card-manager.ts:27-28 | the configuration is left as it was |
| `SelectCardPanel.DroppedInverse` | assets/script/select-card-panel.ts:165-185 | a drop keeps the holder-to-card and card-to-holder maps inverse to each other |
| `SelectCardPanel.DroppedPlaces` | assets/script/select-card-panel.ts:176-183 | after the drop the card sits in the target holder, seen from both maps |
| `SelectCardPanel.DroppedSwap` | assets/script/select-card-panel.ts:175-177 | a card moved from holder A onto an occupied holder B swaps with B's card, which goes to A |
| `SelectCardPanel.DroppedFromPool` | assets/script/select-card-panel.ts:178-181 | a pool card dropped on an occupied holder takes its place, and the old card leaves both maps |
| `SelectCardPanel.DroppedOthers` | assets/script/select-card-panel.ts:170-177 | holders other than the target and the card's old holder keep their cards |
| `SelectCardPanel.DroppedCards` | assets/script/select-card-panel.ts:165-185 | after a drop every placed card is the dropped one or one that was placed before |
| `SelectCardPanel.FirstLocked` | assets/script/select-card-panel.ts:212-216 | the position reached is a locked holder, or the end, and every holder before it is open |
| `SelectCardPanel.FilledHoldersExact` | assets/script/select-card-panel.ts:212-220 | the filled holders before a position are exactly the holders there that hold a card, in increasing order |
| `SelectCardPanel.CollectedCards` | assets/script/select-card-panel.ts:212-222 | what is collected is the configuration of the card in each filled holder, in holder order |
| `SelectCardPanel.FirstLockedAfterInit` | assets/script/select-card-panel.ts:38-45 | after `initHolders(k)` the first locked holder is at k, or at 0 for k <= 0, or the number of holders, none being locked, when k is at or past the end |
| `SelectCardPanel.Panel.constructor` | assets/script/select-card-panel.ts:25-115 | a new panel has no cards, no selection and empty maps |
| `SelectCardPanel.Panel.InitHolders` | assets/script/select-card-panel.ts:38-45 | holder i gets index i and is locked exactly when i >= the lock index; nothing else changes |
| `SelectCardPanel.Panel.CreateCards` | assets/script/select-card-panel.ts:48-61 | five cards are appended, card i with the configuration of card id i mod 3 + 1 |
| `SelectCardPanel.Panel.OnTouchBegin` | assets/script/select-card-panel.ts:117-136 | the selected card is the first card whose hit test passes, or none |
| `SelectCardPanel.Panel.OnTouchMove` | assets/script/select-card-panel.ts:138-145 | with a card selected, the remembered holder is the one under the touch, and without one nothing changes |
| `SelectCardPanel.Panel.GetTouchedHolder` | assets/script/select-card-panel.ts:147-158 | the result is the first unlocked holder whose hit test passes, or none |
| `SelectCardPanel.Panel.OnTouchEnd` | assets/script/select-card-panel.ts:161-189 | with a card selected and a holder under it the maps become the drop's; a release over no holder, or with no card selected, leaves them as they were |
| `SelectCardPanel.Panel.PutCardToHolder` | assets/script/select-card-panel.ts:198-206 | the card and the holder are linked in both maps |
| `SelectCardPanel.Panel.Submit` | assets/script/select-card-panel.ts:208-225 | the result is the configurations of the cards in the filled holders, in holder order, up to the first locked holder |
| `Common.GroupIsJoin` | assets/script/common/common.ts:15-19 | the grouped digits are the digit groups joined by commas |
| `Common.ChunksShape` | assets/script/common/common.ts:17 | the first group has one to three digits, every later one three, and together they are the digits |
| `Common.GroupPieces` | assets/script/common/common.ts:15-19 | split at the commas, grouped digits give a first group of one to three digits and groups of exactly three, which put together are the digits |
| `Common.ToThousands` | assets/script/common/common.ts:15-19 | no contract of its own beyond the range below 10^21 where `toString` writes plain digits; `ToThousandsGroups` states its text |
| `Common.ToThousandsGroups` | assets/script/common/common.ts:15-19 | the text is a minus sign for a negative number, then a first group of one to three digits and groups of exactly three, separated by commas, which together are the digits of the magnitude |
| `Common.ToThousandsSmall` | assets/script/common/common.ts:15-19 | numbers from 0 to 999 get no comma |
| `Common.ToThousandsExample` | assets/script/common/common.ts:15-19 | 1234567 becomes "1,234,567" |
| `Common.ComparePadded` | assets/script/common/common.ts:167-176 | the comparison loop gives -1, 0 or 1 |
| `Common.CompareVersion` | assets/script/common/common.ts:157-177 | the method's padding and loop return the version order, which is -1, 0 or 1 |
| `Common.VersionOrderReflexive` | assets/script/common/common.ts:167-176 | a version compares equal to itself |
| `Common.VersionOrderAntisymmetric` | assets/script/common/common.ts:167-176 | swapping the two versions negates the result |
| `Common.VersionOrderTrailingZero` | assets/script/common/common.ts:160-166 | a trailing `.0` component makes no difference |
| `Common.OneZeroEqualsOne` | assets/script/common/common.ts:160-166 | `1.0` and `1` compare equal |
| `Common.VersionsOfThree` | assets/script/common/common.ts:158-176 | two versions of three components compare as their component lists |
| `Common.CompareVersionNewer` | assets/script/common/common.ts:149-150 | `1.11.0` is newer than `1.9.9` |
| `Common.CompareVersionSame` | assets/script/common/common.ts:151-152 | `1.11.0` compares equal to itself |
| `Common.CompareVersionOlder` | assets/script/common/common.ts:153-154 | `1.11.0` is older than `1.99.0` |
| `Common.Pick` | assets/script/common/common.ts:200 | a draw in [0, 1) picks a position from 0 to i |
| `Common.ShuffleStepsPermutes` | assets/script/common/common.ts:199-204 | every pass of the shuffle loop keeps the multiset of entries |
| `Common.ShuffledPermutes` | assets/script/common/common.ts:198-206 | the shuffle is a permutation of the list |
| `Common.ShuffleArr` | assets/script/common/common.ts:198-206 | the same array is returned, it holds the shuffle of its old contents, and it is a permutation of them |
| `Common.SliceEnd` | assets/script/common/common.ts:217 | `slice(0, n)` stops at min(n, length) for n >= 0, and never past the end |
| `Common.RandomChoice` | assets/script/common/common.ts:216-218 | the result is the first min(n, length) entries of a shuffled copy, drawn from the list, which is left as it was |
| `Common.RandomChoiceOne` | assets/script/common/common.ts:212-214 | an entry is returned exactly when the list is non-empty, and it is the first entry of the shuffle |
| `Common.Clamp` | assets/script/common/common.ts:290-292 | the result is min below min, max above max when the input is not below min, and the input inside the range; when min <= max it always lies within [min, max] |
| `Common.ClampIdempotent` | assets/script/common/common.ts:290-292 | clamping twice is clamping once |
| `Time.AddZero` | assets/script/common/time.ts:97-102 | no contract of its own: `AddZeroTwoDigits` and `AddZeroReadsBack` state its text |
| `Time.AddZeroTwoDigits` | assets/script/common/time.ts:97-102 | a number from 0 to 99 becomes exactly two digits that read back as the number |
| `Time.AddZeroReadsBack` | assets/script/common/time.ts:97-102 | every number that is not negative gets at least two digits, which read back as the number |
| `Time.ClockOf` | assets/script/common/time.ts:152-155 | hours * 3600 + minutes * 60 + seconds is the number, with minutes and seconds below 60 |
| `Time.FormatTimeString` | assets/script/common/time.ts:142-173 | a number that is not positive gives `00:00`, or `00:00:00` with `needHour`; otherwise the hour (only when there are hours or `needHour`), minute and second fields joined by colons |
| `Time.FormatTimeReadsBack` | assets/script/common/time.ts:152-172 | the text splits at the colons into three fields exactly when there are hours or `needHour`, minutes and seconds come as two digits, the hour as at least two, and they read back as a clock that adds up to the number |
| `Time.FormatTimeNinety` | assets/script/common/time.ts:152-172 | ninety seconds read `01:30` |
| `Time.FormatTimeHourAndSecond` | assets/script/common/time.ts:152-172 | 3601 seconds with `needHour` read `01:00:01` |
| `TypedEvents.IndexOf` | assets/script/common/event/typed-event.ts:25 | the first position of the listener, or -1 exactly when it is absent |
| `TypedEvents.SpliceIndexOf` | assets/script/common/event/typed-event.ts:25-26 | splicing at `indexOf` removes the first occurrence |
| `TypedEvents.RemoveFirst` | assets/script/common/event/typed-event.ts:24-27 | no contract of its own: `SpliceIndexOf`, `RemoveFirstMultiset` and `RemoveFirstKeepsOrder` state what it removes |
| `TypedEvents.RemoveFirstMultiset` | assets/script/common/event/typed-event.ts:24-27 | removing takes away exactly one copy of a present listener, and an absent one leaves the list as it is |
| `TypedEvents.RemoveFirstKeepsOrder` | assets/script/common/event/typed-event.ts:24-27 | removing cuts out the first occurrence, so the other listeners keep their order |
| `TypedEvents.RemoveFirstLast` | assets/script/common/event/typed-event.ts:13-18 | removing a listener just appended, and found nowhere else, restores the list |
| `TypedEvents.TypedEvent.constructor` | assets/script/common/event/typed-event.ts:10-11 | both listener lists start empty |
| `TypedEvents.TypedEvent.On` | assets/script/common/event/typed-event.ts:13-18 | the listener is appended and the returned disposable names it and this event; the one-shot list stays |
| `TypedEvents.TypedEvent.Once` | assets/script/common/event/typed-event.ts:20-22 | the listener is appended to the one-shot list only |
| `TypedEvents.TypedEvent.Off` | assets/script/common/event/typed-event.ts:24-27 | the first occurrence is removed from the persistent list, and the one-shot list stays |
| `TypedEvents.TypedEvent.Emit` | assets/script/common/event/typed-event.ts:29-35 | the persistent listeners are called in order, then the one-shot ones, and the one-shot list is emptied |
| `TypedEvents.TypedEvent.Reset` | assets/script/common/event/typed-event.ts:37-39 | the persistent listeners are dropped and the one-shot ones kept |
| `TypedEvents.TypedEvent.Pipe` | assets/script/common/event/typed-event.ts:41-43 | a forwarding listener to the other event is registered |
| `TypedEvents.Dispose` | assets/script/common/event/typed-event.ts:16 | disposing is `off` on the event the disposable came from |
| `TypedEvents.OnceFiresOnce` | assets/script/common/event/typed-event.ts:20-34 | a one-shot listener is among the calls of the first emit and not of the next |
| `TypedEvents.OnThenDispose` | assets/script/common/event/typed-event.ts:13-27 | registering then disposing a new listener restores both lists |
| `TypedEvents.PipeForwards` | assets/script/common/event/typed-event.ts:41-43 | after a pipe, each of the next two emits calls the forwarding listener, which stays registered |
| `Locker.WithoutToken` | assets/script/manager/locker.ts:67-69 | every saved set loses the token, and only the token |
| `Locker.WithoutTokenGone` | assets/script/manager/locker.ts:65-70 | the token is then in no saved set, and a token in none changes nothing |
| `Locker.Locker.constructor` | assets/script/manager/locker.ts:10-11 | no token is held and nothing is saved |
| `Locker.Locker.StashLocker` | assets/script/manager/locker.ts:13-17 | a copy of the current set is pushed, and the current set is emptied, so touch is unlocked |
| `Locker.Locker.UnstashLocker` | assets/script/manager/locker.ts:19-27 | the current set becomes the popped top set, or stays empty with nothing saved |
| `Locker.Locker.DisableTouch` | assets/script/manager/locker.ts:57-63 | the fresh token is held, touch is locked, and the release for that token is returned |
| `Locker.Locker.CallRelease` | assets/script/manager/locker.ts:60-62 | calling a release removes its token from the current set only |
| `Locker.Locker.Unlock` | assets/script/manager/locker.ts:65-70 | the token leaves the current set and every saved set |
| `Locker.Locker.TouchLocked` | assets/script/manager/locker.ts:72-94 | a wrapped call that returns normally leaves the lock state as it was; one that throws leaves its token held; for a promise the token stays held and is returned; in the last two cases touch is locked |
| `Locker.StashThenUnstash` | assets/script/manager/locker.ts:13-27 | stashing then unstashing restores the current set and the stack |
| `Locker.TouchLockedPromise` | assets/script/manager/locker.ts:78-82 | once the promise fulfils, the lock state is as before the call |
| `Locker.TouchLockedRejected` | assets/script/manager/locker.ts:78-82 | a promise that rejects leaves its token held and touch locked |
| `ObjectPools.ObjectPool.constructor` | assets/script/common/object-pool.ts:7-12 | the pool starts empty |
| `ObjectPools.ObjectPool.Get` | assets/script/common/object-pool.ts:14-31 | a non-empty pool gives its last object and shrinks by one; an empty one gives the factory's object and stays empty; the pool never grows |
| `ObjectPools.ObjectPool.Put` | assets/script/common/object-pool.ts:34-41 | the object goes on top |
| `ObjectPools.PutThenGet` | assets/script/common/object-pool.ts:17-40 | a put then a get gives the same object back and restores the pool |
| `Http.EncodeChar` | assets/script/common/network/http.ts:52 | an unreserved character stays as it is, and every encoding uses only unreserved characters and `%` |
| `Http.EncodeURIComponent` | assets/script/common/network/http.ts:52 | the encoding uses only unreserved characters and `%` |
| `Http.EncodeUnreserved` | assets/script/common/network/http.ts:52 | text of unreserved characters is its own encoding |
| `Http.DecodeEncode` | assets/script/common/network/http.ts:52 | decoding the encoding gives the text back |
| `Http.EncodedHasNoDelimiters` | assets/script/common/network/http.ts:51-53 | an encoding holds no `&`, `=` or `?` |
| `Http.Pairs` | assets/script/common/network/http.ts:51-52 | one `key=value` piece per parameter, in order, each encoded |
| `Http.QueryParams` | assets/script/common/network/http.ts:47-54 | no contract of its own: `Pairs`, `QueryParamsRoundTrip` and `EncodedHasNoDelimiters` state its text |
| `Http.QueryParamsRoundTrip` | assets/script/common/network/http.ts:47-54 | null gives `""`; a built query holds no `?`, is empty exactly when there are no parameters, and reads back as the parameters in order |
| `Http.WithQuery` | assets/script/common/network/http.ts:56-62 | with an empty query the url is unchanged; otherwise the url is followed by `?` when it has none and by `&` when it has one, then by the query |
| `Http.WithQueryRoundTrip` | assets/script/common/network/http.ts:56-62 | for a url without `?`, the text after the `?` reads back as the parameters |
| `Http.ParseResult` | assets/script/common/network/http.ts:64-87 | the result starts ok exactly for a 2xx status; outside 2xx, or when the body cannot be read, it keeps the raw text; otherwise it carries the body's data, and a positive `errcode` makes it fail with that code and with `errmsg` or the original status text |
| `Http.ParsedAccepted` | assets/script/common/network/http.ts:76-80 | an ok result passes the status test of line 193; a failed one passes exactly when its server code is 200 to 399 or from 20000 up |
| `Http.Accepted` | assets/script/common/network/http.ts:193 | no contract of its own: `ParsedAccepted` states which parsed results pass it |

## Left out

- Scene graph and UI are not modelled: tweens, node positions, sibling order, visibility, prefab loading, the animation halves of `play`, `drawCard`, `useCard`, `reorderCard`, `createCards`, `playEnterAnima` and `playCardsAnimation`, and touch-event wiring (`addListeners`, `removeListeners`). They hold no game state.
- `putCardBackToPool` is not modelled separately: it only moves the old card's node back to the pool on screen. Its branch in `onTouchEnd` is modelled through the map updates.
- `card.beforeMoving`, `setMoving`, `afterMoving`, `setSelect` and the hit-test geometry are not modelled. Hit tests are predicates on the positions of cards and holders.
- `submit` returns the collected list instead of passing it to `setReturnValue` and hiding the panel.
- The `log` calls and `console` output are not modelled.
- Asynchrony is not modelled: `play`, `drawCard`, `createCard`, `prepare`, `execute`, `onTouchEnd` and the pool's `get` run in sequence here. Interleavings through `await` are not modelled.
- `cardConfigManager.convertToCommands` and `cardConfigManager.getCard` are not part of this model. They are the parameters `convert` of `Play` and `getCard` of `CreateCards`.
- A hand card is its configuration. The card component's other fields are not modelled.
- The random numbers (`random(0, 1)` in `applyEffects`, `Math.random` in `shuffleArr`) are inputs. `random`, `randomInt` and `mapRange` are floating point and are not modelled.
- JavaScript numbers are not floating point here. The card engine uses `real`; the parser, the version comparison, the time formatter and `toThousands` use integers.
- Time.FormatTimeString: only whole numbers of seconds are modelled. Fractional seconds would give fractional fields in the source.
- Common.ToThousands: only integers of magnitude below 10^21 are modelled; it requires that range. The text of a fractional number or of the exponent notation `toString` uses from 10^21 on, where only the first digit run is grouped, is not modelled.
- Strings.ParseInt: reads only whole decimal tokens with an optional minus sign. JavaScript `parseInt` also accepts leading whitespace, a `+`, and trailing garbage (`12abc` reads 12). Such tokens are `None` here.
- CommandParser.Parse: a missing or unreadable number gives an error result. The source instead builds a command holding `NaN` or `undefined`, or throws a `TypeError` on a missing percentage token.
- Lookups of the parser table under inherited object keys (`toString`, `constructor`) are not modelled.
- The commented-out configuration loading after the early `return` of `loadConfigs` never runs. `loadJSONConfig` is not modelled.
- `TypedEvent` listeners are identities, not functions. `Emit` returns the calls in order instead of making them, so listener side effects are not modelled. That covers the nested `emit` of a piped event (a cycle of pipes does not terminate in the source) and changes to the lists during an emit.
- For `touchLocker`:
  - `onLockerChange` and `disableAllTouch`, which switch the engine's input blocking, are not modelled;
  - the wrapping of the set's `add` and `delete` is not modelled;
  - the extra unlock that `touchLocker` installs on a component's `onDestroy` is not modelled;
  - the random `uuid` is a fresh-token parameter;
  - a fulfilled promise is modelled as a later call of `Unlock` (`TouchLockedPromise`); a rejected one never unlocks (`TouchLockedRejected`). Event-loop timing of the `then` callback is not modelled.
- The object pool's factory is a parameter, the object it would make. Recycling and cleanup of engine nodes in `get` and `put` are not modelled.
- CardDeck.CardDeck.DrawCard: on an empty pool the new hand card is modelled as having no configuration. That is exact for a freshly made node; a node recycled by the object pool keeps the configuration of the card it last showed, because `setCardConf` is skipped when `getNextCardConf` throws, and the model does not track node identity.
- In `http.ts`, `sendRequest`, the retry loop of `makeRequest`, loading indicators, toasts and the request queue are network I/O, timers and UI, and are not modelled. `JSON.parse` is an input: `ParsedBody` is its outcome.
- `queryParams` takes the parameters as key and text pairs in the order `Object.keys` lists them. The stringification of non-string values and the integer-key ordering of JavaScript objects are not modelled.
- `encodeURIComponent` is modelled on Unicode scalar values. A lone surrogate, on which the source throws `URIError`, cannot occur in a Dafny string.
- `deepClone`, `mergeDeep`, `isObject` and the date functions of `time.ts` are not modelled. They reflect over dynamic objects or read the host clock.
- CardEffects.ApplyEffectsStacks: this written-out stacking rule holds only when no effect buffs commands of type `effect`. The general case, where a buffed probability is read later, is stated exactly by the function `CardEffects.ApplyEffects`, which the loop is proved equal to.
