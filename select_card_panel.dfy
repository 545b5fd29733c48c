/**
 * The bookkeeping of the deck-selection panel (assets/script/select-card-panel.ts): the
 * holders and their locks, the cards offered, the two maps that say which card sits in
 * which holder, and what `submit` collects. Holders and cards are named by their position
 * in the panel's lists; hit tests are given as predicates on those positions.
 */
module SelectCardPanel {
  import opened Wrappers
  import opened CardData

  /** A card placeholder: its index and whether it is locked. */
  datatype Holder = Holder(holderIdx: int, isLocked: bool)

  type HolderCards = map<nat, nat>
  type CardHolders = map<nat, nat>

  /** The two maps are mutual inverses. */
  predicate Inverse(hc: HolderCards, ch: CardHolders) {
    (forall h :: h in hc ==> hc[h] in ch && ch[hc[h]] == h) &&
    (forall c :: c in ch ==> ch[c] in hc && hc[ch[c]] == c)
  }

  /**
   * The maps after `onTouchEnd` drops card `c` on holder `h`: the holder's old card and the
   * card's old holder are unlinked; when both exist they are linked to each other, and in
   * every case `c` and `h` are linked.
   */
  function Dropped(hc: HolderCards, ch: CardHolders, h: nat, c: nat): (r: (HolderCards, CardHolders))
  {
    var hc1 := if c in ch then hc - {ch[c]} else hc;
    var ch1 := if h in hc then ch - {hc[h]} else ch;
    if h in hc && c in ch then (hc1[ch[c] := hc[h]][h := c], ch1[hc[h] := ch[c]][c := h])
    else (hc1[h := c], ch1[c := h])
  }

  /** Dropping a card keeps the two maps mutual inverses. */
  lemma DroppedInverse(hc: HolderCards, ch: CardHolders, h: nat, c: nat)
    requires Inverse(hc, ch)
    ensures Inverse(Dropped(hc, ch, h, c).0, Dropped(hc, ch, h, c).1)
  {
    var r := Dropped(hc, ch, h, c);
    var hc', ch' := r.0, r.1;
    forall x | x in hc' ensures hc'[x] in ch' && ch'[hc'[x]] == x {
      if h in hc && c in ch {
        if x != h && x != ch[c] {
          assert hc'[x] == hc[x] && hc[x] != c && hc[x] != hc[h];
        }
      } else if x != h {
        assert hc'[x] == hc[x] && hc[x] != c;
        assert h in hc ==> hc[x] != hc[h];
      }
    }
    forall y | y in ch' ensures ch'[y] in hc' && hc'[ch'[y]] == y {
      if h in hc && c in ch {
        if y != c && y != hc[h] {
          assert ch'[y] == ch[y] && ch[y] != h && ch[y] != ch[c];
        }
      } else if y != c {
        assert ch'[y] == ch[y] && ch[y] != h;
        assert c in ch ==> ch[y] != ch[c];
      }
    }
  }

  /** After the drop, card `c` sits in holder `h`, seen from both maps. */
  lemma DroppedPlaces(hc: HolderCards, ch: CardHolders, h: nat, c: nat)
    ensures h in Dropped(hc, ch, h, c).0 && Dropped(hc, ch, h, c).0[h] == c
    ensures c in Dropped(hc, ch, h, c).1 && Dropped(hc, ch, h, c).1[c] == h
  {
  }

  /** A card moved from holder `a` onto another occupied holder `h` swaps with its card. */
  lemma DroppedSwap(hc: HolderCards, ch: CardHolders, h: nat, c: nat)
    requires Inverse(hc, ch) && h in hc && c in ch && ch[c] != h
    ensures var a := ch[c];
      a in Dropped(hc, ch, h, c).0 && Dropped(hc, ch, h, c).0[a] == hc[h] &&
      hc[h] in Dropped(hc, ch, h, c).1 && Dropped(hc, ch, h, c).1[hc[h]] == a
  {
  }

  /** A pool card dropped on an occupied holder sends the holder's card out of both maps. */
  lemma DroppedFromPool(hc: HolderCards, ch: CardHolders, h: nat, c: nat)
    requires Inverse(hc, ch) && h in hc && c !in ch
    ensures Dropped(hc, ch, h, c).0 == hc[h := c]
    ensures Dropped(hc, ch, h, c).1 == (ch - {hc[h]})[c := h]
    ensures hc[h] !in Dropped(hc, ch, h, c).1
    ensures forall x :: x in Dropped(hc, ch, h, c).0 ==> Dropped(hc, ch, h, c).0[x] != hc[h]
  {
    var old_ := hc[h];
    assert old_ != c;
    var hc' := Dropped(hc, ch, h, c).0;
    forall x | x in hc' ensures hc'[x] != old_ {
      if x != h {
        assert hc'[x] == hc[x];
        assert ch[hc[x]] == x;
      }
    }
  }

  /** Holders that are neither the target nor the card's old holder keep their card. */
  lemma DroppedOthers(hc: HolderCards, ch: CardHolders, h: nat, c: nat, x: nat)
    requires Inverse(hc, ch) && x in hc && x != h && (c in ch ==> x != ch[c])
    ensures x in Dropped(hc, ch, h, c).0 && Dropped(hc, ch, h, c).0[x] == hc[x]
  {
  }

  /** Every card in a holder after the drop is `c` or a card that was in a holder before. */
  lemma DroppedCards(hc: HolderCards, ch: CardHolders, h: nat, c: nat)
    requires Inverse(hc, ch)
    ensures forall x :: x in Dropped(hc, ch, h, c).0 ==>
      Dropped(hc, ch, h, c).0[x] == c || Dropped(hc, ch, h, c).0[x] in hc.Values
  {
  }

  /** `r` is the first position below `n` that passes `hit`, or `None` when there is none. */
  predicate IsFirstHit(n: nat, hit: nat -> bool, r: Option<nat>) {
    match r
    case Some(i) => i < n && hit(i) && forall j :: 0 <= j < i ==> !hit(j)
    case None => forall j :: 0 <= j < n ==> !hit(j)
  }

  /** There is only one first hit. */
  lemma FirstHitUnique(n: nat, hit: nat -> bool, r: Option<nat>, s: Option<nat>)
    requires IsFirstHit(n, hit, r) && IsFirstHit(n, hit, s)
    ensures r == s
  {
  }

  /** An unlocked holder whose hit test passes. */
  function OpenHit(holders: seq<Holder>, hit: nat -> bool): nat -> bool {
    (i: nat) => i < |holders| && !holders[i].isLocked && hit(i)
  }

  /** The position of the first locked holder, or the number of holders when none is. */
  function FirstLocked(holders: seq<Holder>): (k: nat)
    ensures k <= |holders|
    ensures k < |holders| ==> holders[k].isLocked
    ensures forall j :: 0 <= j < k ==> !holders[j].isLocked
  {
    if holders == [] then 0
    else if holders[0].isLocked then 0
    else 1 + FirstLocked(holders[1..])
  }

  /** The filled holders among the first `k`, in holder order. */
  function FilledHolders(hc: HolderCards, k: nat): seq<nat>
  {
    if k == 0 then []
    else FilledHolders(hc, k - 1) + (if k - 1 in hc then [k - 1] else [])
  }

  /** The configurations of the cards in the filled holders among the first `k`. */
  function Collected(hc: HolderCards, cards: seq<Card>, k: nat): seq<Card>
    requires forall h :: h in hc ==> hc[h] < |cards|
  {
    if k == 0 then []
    else Collected(hc, cards, k - 1) + (if k - 1 in hc then [cards[hc[k - 1]]] else [])
  }

  /** `FilledHolders` lists exactly the filled holders below `k`, in increasing order. */
  lemma {:induction false} FilledHoldersExact(hc: HolderCards, k: nat)
    ensures forall x :: x in FilledHolders(hc, k) <==> x < k && x in hc
    ensures forall a, b :: 0 <= a < b < |FilledHolders(hc, k)| ==>
      FilledHolders(hc, k)[a] < FilledHolders(hc, k)[b]
  {
    if k > 0 {
      FilledHoldersExact(hc, k - 1);
      var prev := FilledHolders(hc, k - 1);
      var r := FilledHolders(hc, k);
      if k - 1 in hc {
        assert r == prev + [k - 1];
        forall a, b | 0 <= a < b < |r| ensures r[a] < r[b] {
          if b == |r| - 1 {
            assert r[a] == prev[a] && prev[a] in prev;
          } else {
            assert r[a] == prev[a] && r[b] == prev[b];
          }
        }
      } else {
        assert r == prev;
      }
    }
  }

  /** What is collected is the card of each filled holder, in the order of the holders. */
  lemma {:induction false} CollectedCards(hc: HolderCards, cards: seq<Card>, k: nat)
    requires forall h :: h in hc ==> hc[h] < |cards|
    ensures |Collected(hc, cards, k)| == |FilledHolders(hc, k)|
    ensures forall j :: 0 <= j < |Collected(hc, cards, k)| ==>
      FilledHolders(hc, k)[j] in hc && Collected(hc, cards, k)[j] == cards[hc[FilledHolders(hc, k)[j]]]
  {
    if k > 0 {
      CollectedCards(hc, cards, k - 1);
      FilledHoldersExact(hc, k);
    }
  }

  class Panel {
    /** The placeholders, by position. */
    var holders: seq<Holder>
    /** The configuration of each card offered, by position. */
    var cards: seq<Card>
    var selectedCard: Option<nat>
    var selectHolder: Option<nat>
    var holderCardMap: HolderCards
    var cardHolderMap: CardHolders

    ghost predicate Valid()
      reads this
    {
      Inverse(holderCardMap, cardHolderMap) &&
      (forall h :: h in holderCardMap ==> holderCardMap[h] < |cards|) &&
      (selectedCard.Some? ==> selectedCard.value < |cards|)
    }

    /** A panel with the placeholders it was built with, no cards and empty maps. */
    constructor(placeholders: seq<Holder>)
      ensures Valid()
      ensures holders == placeholders && cards == []
      ensures selectedCard == None && selectHolder == None
      ensures holderCardMap == map[] && cardHolderMap == map[]
    {
      holders := placeholders;
      cards := [];
      selectedCard := None;
      selectHolder := None;
      holderCardMap := map[];
      cardHolderMap := map[];
    }

    /** `initHolders`: holder `i` gets index `i` and is locked iff `i >= lockStartIdx`. */
    method InitHolders(lockStartIdx: int)
      requires Valid()
      modifies this
      ensures Valid()
      ensures |holders| == |old(holders)|
      ensures forall i :: 0 <= i < |holders| ==> holders[i] == Holder(i, i >= lockStartIdx)
      ensures cards == old(cards) && selectedCard == old(selectedCard) && selectHolder == old(selectHolder)
      ensures holderCardMap == old(holderCardMap) && cardHolderMap == old(cardHolderMap)
    {
      var i := 0;
      while i < |holders|
        invariant 0 <= i <= |holders| == |old(holders)|
        invariant forall j :: 0 <= j < i ==> holders[j] == Holder(j, j >= lockStartIdx)
        invariant cards == old(cards) && selectedCard == old(selectedCard) && selectHolder == old(selectHolder)
        invariant holderCardMap == old(holderCardMap) && cardHolderMap == old(cardHolderMap)
      {
        holders := holders[i := Holder(i, i >= lockStartIdx)];
        i := i + 1;
      }
    }

    /**
     * `createCards`: five cards join the panel, card `i` with the configuration of card
     * id `i % 3 + 1` as `getCard` gives it.
     */
    method CreateCards(getCard: CardId -> Card)
      requires Valid()
      modifies this
      ensures Valid()
      ensures |cards| == |old(cards)| + 5 && cards[..|old(cards)|] == old(cards)
      ensures forall i :: 0 <= i < 5 ==> cards[|old(cards)| + i] == getCard(i % 3 + 1)
      ensures holders == old(holders) && selectedCard == old(selectedCard) && selectHolder == old(selectHolder)
      ensures holderCardMap == old(holderCardMap) && cardHolderMap == old(cardHolderMap)
    {
      var cardConfigs := [getCard(1), getCard(2), getCard(3)];
      var i := 0;
      while i < 5
        invariant 0 <= i <= 5 && |cards| == |old(cards)| + i && cards[..|old(cards)|] == old(cards)
        invariant forall j :: 0 <= j < i ==> cards[|old(cards)| + j] == getCard(j % 3 + 1)
        invariant holders == old(holders) && selectedCard == old(selectedCard) && selectHolder == old(selectHolder)
        invariant holderCardMap == old(holderCardMap) && cardHolderMap == old(cardHolderMap)
        invariant Valid()
      {
        cards := cards + [cardConfigs[i % |cardConfigs|]];
        i := i + 1;
      }
    }

    /** `onTouchBegin`: the first card whose hit test passes becomes the selected card. */
    method OnTouchBegin(hit: nat -> bool)
      requires Valid()
      modifies this
      ensures Valid()
      ensures IsFirstHit(|cards|, hit, selectedCard)
      ensures holders == old(holders) && cards == old(cards) && selectHolder == old(selectHolder)
      ensures holderCardMap == old(holderCardMap) && cardHolderMap == old(cardHolderMap)
    {
      selectedCard := None;
      var i := 0;
      while i < |cards|
        invariant 0 <= i <= |cards|
        invariant forall j :: 0 <= j < i ==> !hit(j)
        invariant selectedCard == None
      {
        if hit(i) {
          selectedCard := Some(i);
          break;
        }
        i := i + 1;
      }
    }

    /** `onTouchMove`: while a card is selected, the holder under the touch is remembered. */
    method OnTouchMove(hit: nat -> bool)
      requires Valid()
      modifies this
      ensures Valid()
      ensures old(selectedCard).None? ==> selectHolder == old(selectHolder)
      ensures old(selectedCard).Some? ==> IsFirstHit(|holders|, OpenHit(holders, hit), selectHolder)
      ensures holders == old(holders) && cards == old(cards) && selectedCard == old(selectedCard)
      ensures holderCardMap == old(holderCardMap) && cardHolderMap == old(cardHolderMap)
    {
      if selectedCard.None? {
        return;
      }
      selectHolder := GetTouchedHolder(hit);
    }

    /** `getTouchedHolder`: the first unlocked holder whose hit test passes, if any. */
    method GetTouchedHolder(hit: nat -> bool) returns (r: Option<nat>)
      ensures IsFirstHit(|holders|, OpenHit(holders, hit), r)
    {
      r := None;
      var i := 0;
      while i < |holders|
        invariant 0 <= i <= |holders|
        invariant forall j :: 0 <= j < i ==> !OpenHit(holders, hit)(j)
      {
        if !holders[i].isLocked && hit(i) {
          r := Some(i);
          break;
        }
        i := i + 1;
      }
    }

    /**
     * `onTouchEnd`: with a card selected and a holder under it, the card is dropped on the
     * holder; with no holder it goes back where it was and the maps stay as they are.
     */
    method OnTouchEnd()
      requires Valid()
      modifies this
      ensures Valid()
      ensures old(selectedCard).None? || old(selectHolder).None? ==>
        holderCardMap == old(holderCardMap) && cardHolderMap == old(cardHolderMap)
      ensures old(selectedCard).Some? && old(selectHolder).Some? ==>
        (holderCardMap, cardHolderMap) ==
          Dropped(old(holderCardMap), old(cardHolderMap), old(selectHolder).value, old(selectedCard).value)
      ensures holders == old(holders) && cards == old(cards)
      ensures selectedCard == old(selectedCard) && selectHolder == old(selectHolder)
    {
      if selectedCard.None? {
        return;
      }
      var card := selectedCard.value;
      if selectHolder.Some? {
        var holder := selectHolder.value;
        DroppedInverse(holderCardMap, cardHolderMap, holder, card);
        DroppedCards(holderCardMap, cardHolderMap, holder, card);
        var oldCard := if holder in holderCardMap then Some(holderCardMap[holder]) else None;
        var oldHolder := if card in cardHolderMap then Some(cardHolderMap[card]) else None;
        if oldHolder.Some? {
          holderCardMap := holderCardMap - {oldHolder.value};
        }
        if oldCard.Some? {
          cardHolderMap := cardHolderMap - {oldCard.value};
        }
        if oldCard.Some? && oldHolder.Some? {
          PutCardToHolder(oldCard.value, oldHolder.value);
          PutCardToHolder(card, holder);
        } else if oldCard.Some? {
          PutCardToHolder(card, holder);
        } else {
          PutCardToHolder(card, holder);
        }
      }
    }

    /** `putCardToHolder`: links the card and the holder in both maps. */
    method PutCardToHolder(card: nat, holder: nat)
      modifies this
      ensures holderCardMap == old(holderCardMap)[holder := card]
      ensures cardHolderMap == old(cardHolderMap)[card := holder]
      ensures holders == old(holders) && cards == old(cards)
      ensures selectedCard == old(selectedCard) && selectHolder == old(selectHolder)
    {
      holderCardMap := holderCardMap[holder := card];
      cardHolderMap := cardHolderMap[card := holder];
    }

    /**
     * `submit`: the configurations of the cards in the filled holders, in holder order,
     * up to the first locked holder.
     */
    method Submit() returns (r: seq<Card>)
      requires Valid()
      ensures r == Collected(holderCardMap, cards, FirstLocked(holders))
    {
      r := [];
      var i := 0;
      while i < |holders|
        invariant 0 <= i <= FirstLocked(holders)
        invariant r == Collected(holderCardMap, cards, i)
      {
        if holders[i].isLocked {
          break;
        }
        if i !in holderCardMap {
          i := i + 1;
          continue;
        }
        r := r + [cards[holderCardMap[i]]];
        i := i + 1;
      }
    }
  }

  /** After `initHolders(k)` the first locked holder is at `k`, or none is when `k` is past the end. */
  lemma {:induction false} FirstLockedAfterInit(holders: seq<Holder>, k: int)
    requires forall i :: 0 <= i < |holders| ==> holders[i] == Holder(i, i >= k)
    ensures FirstLocked(holders) == if k <= 0 then 0 else if k < |holders| then k else |holders|
  {
    var f := FirstLocked(holders);
    if f < |holders| {
      assert holders[f].isLocked;
    }
    if k > 0 && k < |holders| {
      assert holders[k].isLocked;
    }
    if k <= 0 && |holders| > 0 {
      assert holders[0].isLocked;
    }
  }
}
