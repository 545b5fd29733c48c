/** The card registry (assets/script/game-logic/card-manager.ts): its id check and its loader. */
module CardManager {
  import opened Wrappers
  import opened CardData

  /** The empty `Skill` and `Item` interfaces of card-data-type.ts. */
  datatype Skill = Skill
  datatype Item = Item

  /** The configuration tables the registry holds. */
  datatype Configs = Configs(cardConfig: seq<Card>, skillConfig: seq<Skill>, itemConfig: seq<Item>)

  datatype CardError = DuplicateCardId

  /** `cardConfig.map(c => c.id)`. */
  function Ids(cards: seq<Card>): (ids: seq<CardId>)
    ensures |ids| == |cards|
    ensures forall i :: 0 <= i < |cards| ==> ids[i] == cards[i].id
  {
    seq(|cards|, i requires 0 <= i < |cards| => cards[i].id)
  }

  /** `new Set(ids)`. */
  function SetOf(ids: seq<CardId>): set<CardId> {
    set x | x in ids
  }

  predicate Distinct(ids: seq<CardId>) {
    forall i, j :: 0 <= i < j < |ids| ==> ids[i] != ids[j]
  }

  lemma {:induction false} SetOfSize(ids: seq<CardId>)
    ensures |SetOf(ids)| <= |ids|
    ensures |SetOf(ids)| == |ids| <==> Distinct(ids)
  {
    if ids != [] {
      var init, last := ids[..|ids| - 1], ids[|ids| - 1];
      assert ids == init + [last];
      assert SetOf(ids) == SetOf(init) + {last};
      SetOfSize(init);
      if last in init {
        assert SetOf(ids) == SetOf(init);
        var k :| 0 <= k < |init| && init[k] == last;
        assert ids[k] == ids[|ids| - 1];
      } else {
        assert |SetOf(ids)| == |SetOf(init)| + 1;
        if Distinct(init) {
          forall i, j | 0 <= i < j < |ids| ensures ids[i] != ids[j] {
            if j == |ids| - 1 {
              assert ids[i] == init[i];
            } else {
              assert ids[i] == init[i] && ids[j] == init[j];
            }
          }
        } else {
          var i, j :| 0 <= i < j < |init| && init[i] == init[j];
          assert ids[i] == ids[j];
        }
      }
    }
  }

  /**
   * `validateCards`: fails with "duplicate card id" when the list of ids is longer than
   * the set of ids. It only reads the card list it is given.
   */
  function ValidateCards(cardConfig: seq<Card>): (r: Outcome<CardError>)
    ensures r == Fail(DuplicateCardId) <==>
      exists i, j :: 0 <= i < j < |cardConfig| && cardConfig[i].id == cardConfig[j].id
    ensures r == Pass <==>
      forall i, j :: 0 <= i < j < |cardConfig| ==> cardConfig[i].id != cardConfig[j].id
  {
    var ids := Ids(cardConfig);
    SetOfSize(ids);
    if |ids| != |SetOf(ids)| then Fail(DuplicateCardId) else Pass
  }

  /** `loadConfigs` returns at once: the loading code after its `return` never runs. */
  function LoadConfigs(configs: Configs): (r: Configs)
    ensures r == configs
  {
    configs
  }
}
