/** The deck screen's filter state as values: the two categories, the
    tag-click transition on the selected tag list, and the derivation of the
    visible character and card lists, with the properties they keep. */
module DeckFilter {
  import opened ArrayOps

  /** The two top-level categories of the deck screen. */
  datatype CardType = Character | Card

  /** An action card of the static dataset: its unique name and its
      sub-type tags, which the tag filter looks at. */
  datatype CardRecord = CardRecord(name: string, subType: seq<string>)

  /** A character of the static dataset; the filter never looks inside it. */
  datatype CharacterRecord = CharacterRecord(name: string)

  /** What the two deck-list panes below the filter bar show. */
  datatype DeckView = DeckView(characters: seq<CharacterRecord>, cards: seq<CardRecord>)

  /** The invariant of the selected tag list: no tag twice, every tag taken
      from the tag universe. */
  predicate SelectionInvariant(sel: seq<string>, universe: seq<string>) {
    NoDup(sel) && forall x :: x in sel ==> x in universe
  }

  // ---------------------------------------------------------------------
  // Tag toggle
  // ---------------------------------------------------------------------

  /** The list handed to `setTag` after a click on tag `t`, given the
      current selection `sel` and the tag universe `universe`.  A selection
      as long as the universe counts as full and collapses to `[t]`; otherwise
      a selected `t` is spliced out at its first occurrence and an unselected
      one is pushed at the end. */
  function Toggle(sel: seq<string>, universe: seq<string>, t: string): (r: seq<string>)
    ensures |sel| == |universe| ==> r == [t]
    ensures |sel| != |universe| && t in sel ==>
      exists i :: 0 <= i < |sel| && sel[i] == t && t !in sel[..i] && r == sel[..i] + sel[i + 1..]
    ensures |sel| != |universe| && t !in sel ==>
      |r| == |sel| + 1 && r[..|sel|] == sel && r[|sel|] == t
    ensures |sel| != |universe| ==> multiset(r) == if t in sel then multiset(sel) - multiset{t} else multiset(sel) + multiset{t}
  {
    if |sel| == |universe| then [t]
    else if t in sel then
      var i := IndexOf(sel, t);
      assert sel[i] == t && t !in sel[..i];
      RemoveAt(sel, i)
    else
      sel + [t]
  }

  /** The tag toggle as a transition on sets of tags: a full selection
      drills into the clicked tag, otherwise the clicked tag flips. */
  function SetToggle(sel: set<string>, universe: set<string>, t: string): set<string> {
    if sel == universe then {t}
    else if t in sel then sel - {t}
    else sel + {t}
  }

  /** The selection after the clicks `clicks`, in order, starting from `sel`. */
  function Replay(sel: seq<string>, universe: seq<string>, clicks: seq<string>): seq<string>
    decreases |clicks|
  {
    if clicks == [] then sel
    else Replay(Toggle(sel, universe, clicks[0]), universe, clicks[1..])
  }

  /** With a duplicate-free universe the initial selection (the universe
      itself) satisfies the invariant. */
  lemma InitialSelectionValid(universe: seq<string>)
    requires NoDup(universe)
    ensures SelectionInvariant(universe, universe)
  {
  }

  /** A click on a tag of the universe keeps the selection duplicate-free and
      inside the universe.  This does not need a duplicate-free universe. */
  lemma ToggleKeepsInvariant(sel: seq<string>, universe: seq<string>, t: string)
    requires SelectionInvariant(sel, universe)
    requires t in universe
    ensures SelectionInvariant(Toggle(sel, universe, t), universe)
  {
    if |sel| != |universe| {
      if t in sel {
        var i := IndexOf(sel, t);
        NoDupRemoveAt(sel, i);
        assert Elems(Toggle(sel, universe, t)) == Elems(sel) - {t};
      } else {
        NoDupPush(sel, t);
        assert Elems(Toggle(sel, universe, t)) == Elems(sel) + {t};
      }
    }
  }

  /** Under the invariant and with a duplicate-free universe, the handler's
      length test for "full" holds exactly when every tag is selected, that
      is, exactly when the selection is a permutation of the universe. */
  lemma FullIffPermutation(sel: seq<string>, universe: seq<string>)
    requires NoDup(universe)
    requires SelectionInvariant(sel, universe)
    ensures |sel| == |universe| <==> Elems(sel) == Elems(universe)
    ensures |sel| == |universe| <==> multiset(sel) == multiset(universe)
  {
    ElemsCardinality(sel);
    ElemsCardinality(universe);
    assert Elems(sel) <= Elems(universe);
    if |sel| == |universe| {
      SubsetOfEqualSize(Elems(sel), Elems(universe));
    }
    if Elems(sel) == Elems(universe) {
      forall x ensures multiset(sel)[x] == multiset(universe)[x] {
        NoDupMultiplicity(sel, x);
        NoDupMultiplicity(universe, x);
        assert x in sel <==> x in Elems(sel);
        assert x in universe <==> x in Elems(universe);
      }
      assert multiset(sel) == multiset(universe);
    }
    if multiset(sel) == multiset(universe) {
      assert |multiset(sel)| == |multiset(universe)|;
    }
  }

  /** With a universe that lists some tag twice, the length test can never
      see a valid selection as full: the selection is strictly shorter. */
  lemma DuplicateUniverseNeverFull(sel: seq<string>, universe: seq<string>)
    requires !NoDup(universe)
    requires SelectionInvariant(sel, universe)
    ensures |sel| < |universe|
  {
    ElemsCardinality(sel);
    ElemsCardinality(universe);
    assert Elems(sel) <= Elems(universe);
    SubsetCardinality(Elems(sel), Elems(universe));
  }

  /** The list transition refines the set transition: under the invariant
      and with a duplicate-free universe, the tags selected after a click are
      exactly those the set-level toggle selects. */
  lemma ToggleRefinesSetToggle(sel: seq<string>, universe: seq<string>, t: string)
    requires NoDup(universe)
    requires SelectionInvariant(sel, universe)
    ensures Elems(Toggle(sel, universe, t)) == SetToggle(Elems(sel), Elems(universe), t)
  {
    FullIffPermutation(sel, universe);
    if |sel| != |universe| {
      if t in sel {
        NoDupRemoveAt(sel, IndexOf(sel, t));
      } else {
        NoDupPush(sel, t);
      }
    } else {
      assert Toggle(sel, universe, t) == [t];
      assert Elems([t]) == {t};
    }
  }

  /** Any sequence of clicks on tags of the universe keeps the invariant. */
  lemma {:induction false} ReplayKeepsInvariant(sel: seq<string>, universe: seq<string>, clicks: seq<string>)
    requires SelectionInvariant(sel, universe)
    requires forall c :: c in clicks ==> c in universe
    ensures SelectionInvariant(Replay(sel, universe, clicks), universe)
    decreases |clicks|
  {
    if clicks != [] {
      ToggleKeepsInvariant(sel, universe, clicks[0]);
      ReplayKeepsInvariant(Toggle(sel, universe, clicks[0]), universe, clicks[1..]);
    }
  }

  /** With a universe that lists some tag twice, once the first click has
      collapsed the initial selection, no later sequence of clicks on tags
      of the universe brings the selection back to full length. */
  lemma DuplicateUniverseNeverFullAgain(universe: seq<string>, t: string, clicks: seq<string>)
    requires !NoDup(universe)
    requires t in universe
    requires forall c :: c in clicks ==> c in universe
    ensures |Replay(Toggle(universe, universe, t), universe, clicks)| < |universe|
  {
    ReplayKeepsInvariant([t], universe, clicks);
    DuplicateUniverseNeverFull(Replay([t], universe, clicks), universe);
  }

  /** Whatever tags the user clicks, starting from the initial selection,
      the selection stays valid, and it is full by length exactly when it is
      a permutation of the universe. */
  lemma ReachableSelections(universe: seq<string>, clicks: seq<string>)
    requires NoDup(universe)
    requires forall c :: c in clicks ==> c in universe
    ensures SelectionInvariant(Replay(universe, universe, clicks), universe)
    ensures var sel := Replay(universe, universe, clicks);
      |sel| == |universe| <==> multiset(sel) == multiset(universe)
  {
    InitialSelectionValid(universe);
    ReplayKeepsInvariant(universe, universe, clicks);
    FullIffPermutation(Replay(universe, universe, clicks), universe);
  }

  /** Clicking the only selected tag empties the selection, unless the
      universe has a single tag, in which case the one-tag selection is full
      and the click collapses it to itself. */
  lemma ToggleSingleton(universe: seq<string>, t: string)
    ensures Toggle([t], universe, t) == if |universe| == 1 then [t] else []
  {
  }

  // ---------------------------------------------------------------------
  // Visible lists
  // ---------------------------------------------------------------------

  /** The card filter's condition: the card shares at least one tag with
      the selection. */
  predicate HasSelectedTag(card: CardRecord, sel: seq<string>) {
    exists x :: x in card.subType && x in sel
  }

  /** The card's tags that are selected, in the card's order, as the inner
      `filter`/`includes` of the card filter computes them. */
  function SelectedTags(subType: seq<string>, sel: seq<string>): (r: seq<string>)
    ensures forall x :: x in r <==> x in subType && x in sel
    ensures IsSubsequence(r, subType)
  {
    if subType == [] then []
    else
      var rest := SelectedTags(subType[1..], sel);
      assert subType == [subType[0]] + subType[1..];
      if subType[0] in sel then [subType[0]] + rest else rest
  }

  /** The cards shown in the `Card` category: those whose selected tags
      are not empty, in dataset order. */
  function VisibleCards(cards: seq<CardRecord>, sel: seq<string>): (r: seq<CardRecord>)
    ensures forall c :: c in r <==> c in cards && HasSelectedTag(c, sel)
    ensures forall c :: multiset(r)[c] == if HasSelectedTag(c, sel) then multiset(cards)[c] else 0
    ensures IsSubsequence(r, cards)
  {
    if cards == [] then []
    else
      var rest := VisibleCards(cards[1..], sel);
      assert cards == [cards[0]] + cards[1..];
      if |SelectedTags(cards[0].subType, sel)| > 0 then
        assert SelectedTags(cards[0].subType, sel)[0] in SelectedTags(cards[0].subType, sel);
        [cards[0]] + rest
      else
        assert SelectedTags(cards[0].subType, sel) == [];
        rest
  }

  /** Filtering distributes over concatenation: each card is kept or dropped
      on its own, in place. */
  lemma {:induction false} VisibleCardsAppend(a: seq<CardRecord>, b: seq<CardRecord>, sel: seq<string>)
    ensures VisibleCards(a + b, sel) == VisibleCards(a, sel) + VisibleCards(b, sel)
  {
    if a == [] {
      assert a + b == b;
    } else {
      assert (a + b)[1..] == a[1..] + b;
      VisibleCardsAppend(a[1..], b, sel);
    }
  }

  /** An empty selection shows no card, whatever the dataset. */
  lemma {:induction false} EmptySelectionShowsNothing(cards: seq<CardRecord>)
    ensures VisibleCards(cards, []) == []
  {
    if cards != [] {
      EmptySelectionShowsNothing(cards[1..]);
      NoTagOfEmptySelection(cards[0].subType);
    }
  }

  /** No tag of a card is among an empty selection. */
  lemma {:induction false} NoTagOfEmptySelection(subType: seq<string>)
    ensures SelectedTags(subType, []) == []
  {
    if subType != [] {
      NoTagOfEmptySelection(subType[1..]);
    }
  }

  /** When every card carries at least one tag of the universe and every tag
      of the universe is selected (as in the initial state), every card is
      shown, in dataset order. */
  lemma {:induction false} FullSelectionShowsAll(cards: seq<CardRecord>, universe: seq<string>, sel: seq<string>)
    requires forall c :: c in cards ==> HasSelectedTag(c, universe)
    requires forall x :: x in universe ==> x in sel
    ensures VisibleCards(cards, sel) == cards
  {
    if cards != [] {
      var tail := cards[1..];
      assert forall c :: c in tail ==> c in cards;
      FullSelectionShowsAll(tail, universe, sel);
      assert cards[0] in cards;
      var x :| x in cards[0].subType && x in universe;
      KeepsMatchingHead(cards, sel, x);
    }
  }

  /** A first card that has a selected tag is shown first; if the rest of
      the dataset is shown whole, so is all of it. */
  lemma KeepsMatchingHead(cards: seq<CardRecord>, sel: seq<string>, x: string)
    requires cards != [] && x in cards[0].subType && x in sel
    requires VisibleCards(cards[1..], sel) == cards[1..]
    ensures VisibleCards(cards, sel) == cards
  {
    var kept := SelectedTags(cards[0].subType, sel);
    assert x in kept;
    assert cards == [cards[0]] + cards[1..];
  }

  /** Both deck-list panes for the given state: the `Character` category
      shows every character and no card; the `Card` category shows no
      character and the filtered cards. */
  function View(active: CardType, sel: seq<string>, characters: seq<CharacterRecord>, cards: seq<CardRecord>): (v: DeckView)
    ensures active == Character ==> v.characters == characters && v.cards == []
    ensures active == Card ==> v.characters == [] && IsSubsequence(v.cards, cards)
    ensures active == Card ==> forall c :: c in v.cards <==> c in cards && HasSelectedTag(c, sel)
    ensures active == Card ==> forall c :: multiset(v.cards)[c] == if HasSelectedTag(c, sel) then multiset(cards)[c] else 0
  {
    match active
    case Character => DeckView(characters, [])
    case Card => DeckView([], VisibleCards(cards, sel))
  }

  /** In the `Character` category the selection has no effect on the view. */
  lemma CharacterViewIgnoresSelection(sel1: seq<string>, sel2: seq<string>, characters: seq<CharacterRecord>, cards: seq<CardRecord>)
    ensures View(Character, sel1, characters, cards) == View(Character, sel2, characters, cards)
  {
  }
}
