/** The deck screen's state holder: the active category and the selected
    tags, updated in place by the category and tag click handlers. */
module DeckScreen {
  import opened ArrayOps
  import opened DeckFilter

  class DeckPage {
    /** The tag universe (`defaultTag`): every equipment, event and support
        sub-type, in the order the merged enum object lists them. */
    const defaultTag: seq<string>
    /** The active category (`active`). */
    var active: CardType
    /** The selected tags (`tag`). */
    var tag: seq<string>

    /** The page's invariant, available when the universe lists each tag once. */
    ghost predicate Valid()
      reads this
    {
      NoDup(defaultTag) && SelectionInvariant(tag, defaultTag)
    }

    /** Mounting the page: the `Character` category is active and every tag
        of the universe is selected, in the universe's order. */
    constructor (tags: seq<string>)
      ensures defaultTag == tags
      ensures active == Character && tag == tags
      ensures NoDup(tags) ==> Valid()
    {
      defaultTag := tags;
      active := Character;
      tag := tags;
      new;
      if NoDup(tags) {
        InitialSelectionValid(tags);
      }
    }

    /** A click on a category button: the category is replaced and the
        selection is left as it was. */
    method SelectCategory(c: CardType)
      modifies this`active
      ensures active == c
      ensures tag == old(tag)
      ensures Valid() <==> old(Valid())
    {
      active := c;
    }

    /** A click on tag `t`.  The handler works on a copy of the selection
        (sequences are values, so the previous selection is never changed),
        splices or pushes on the copy and stores it; the category is left
        alone. */
    method ToggleTag(t: string)
      modifies this`tag
      ensures tag == Toggle(old(tag), defaultTag, t)
      ensures active == old(active)
      ensures old(Valid()) && t in defaultTag ==> Valid()
      ensures old(Valid()) ==> Elems(tag) == SetToggle(old(Elems(tag)), Elems(defaultTag), t)
    {
      ghost var before := tag;
      var newTag := tag;
      if |newTag| == |defaultTag| {
        newTag := [t];
      } else if t in newTag {
        newTag := RemoveAt(newTag, IndexOf(newTag, t));
      } else {
        newTag := newTag + [t];
      }
      tag := newTag;
      if NoDup(defaultTag) && SelectionInvariant(before, defaultTag) {
        ToggleRefinesSetToggle(before, defaultTag, t);
        if t in defaultTag {
          ToggleKeepsInvariant(before, defaultTag, t);
        }
      }
    }

    /** What the two deck-list panes show for the current state: every
        character in the `Character` category; in the `Card` category each
        card that shares a tag with the selection, as often as the dataset
        lists it, in dataset order. */
    function Visible(characters: seq<CharacterRecord>, cards: seq<CardRecord>): (v: DeckView)
      reads this
      ensures active == Character ==> v.characters == characters && v.cards == []
      ensures active == Card ==> v.characters == [] && IsSubsequence(v.cards, cards)
      ensures active == Card ==> forall c :: c in v.cards <==> c in cards && HasSelectedTag(c, tag)
      ensures active == Card ==> forall c :: multiset(v.cards)[c] == if HasSelectedTag(c, tag) then multiset(cards)[c] else 0
    {
      View(active, tag, characters, cards)
    }
  }
}
