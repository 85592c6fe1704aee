# Deck-screen filter state, modelled in Dafny

The deck-building screen of this card-game board (`DeckPage` in
`src/views/Deck/index.tsx`) keeps two pieces of state. One is the active
category, `Character` or `Card`. The other is the list of selected card
sub-type tags, which starts out as the whole tag universe (`defaultTag`).
A click on a category button replaces the category. A click on a tag runs a
small state machine on a copy of the tag list:

- a selection as long as the universe counts as full and collapses to the
  clicked tag alone;
- otherwise a selected tag is spliced out at its `indexOf` position;
- otherwise the tag is pushed at the end.

The screen then shows either every character, or the cards that share at
least one sub-type with the selection, in dataset order.

The project has three modules:

- `ArrayOps` (`array_ops.dfy`): the array operations the handler uses
  (`indexOf`, `splice(i, 1)`), stated over sequences. It also holds the facts
  about duplicate-free sequences that the invariant needs.
- `DeckFilter` (`deck_filter.dfy`): the datatypes and the pure part. This is
  the toggle as a function on lists (`Toggle`), its set-level reference
  (`SetToggle`), the card filter (`VisibleCards`), the two panes (`View`),
  and the lemmas that relate them.
- `DeckScreen` (`deck_page.dfy`): class `DeckPage`. It has the fields
  `active` and `tag` and the constant `defaultTag`. Its methods
  `SelectCategory` and `ToggleTag` update the fields in place.

The tag universe and the character and card datasets are inputs. The
universe is a constructor argument; the two datasets are arguments of `View`.
Read as a set of tags, the toggle drills into `{t}` when every tag is
selected and otherwise flips `t`. `SetToggle` states that reading, and
`ToggleRefinesSetToggle` states when the list handler agrees with it.
The handler's length test for "full" is kept as written. The model proves that
this test means "every tag is selected" only when the universe lists each tag
once. The universe is the value list of the merged object
`{...EquipmentMainType, ...EventType, ...SupportType}`, and two enums could in
principle share a value. Distinctness is therefore a hypothesis of the lemmas
that need it. It is not a precondition of any operation.
`DuplicateUniverseNeverFullAgain` shows what happens without it: once the
first click has collapsed the selection, no later clicks bring it back to a
length that passes the test.

## Model

| member | source | states |
|---|---|---|
| `ArrayOps.IndexOf` | src/views/Deck/index.tsx:155 | `indexOf` gives -1 exactly when the tag is absent; otherwise it gives a position holding the tag with no earlier occurrence |
| `ArrayOps.RemoveAt` | src/views/Deck/index.tsx:155 | `splice(i, 1)` on the copy: one element shorter, the elements before `i` unchanged, the elements after it shifted down by one, and the multiset loses exactly `s[i]` |
| `DeckFilter.Toggle` | src/views/Deck/index.tsx:150-160 | a full-length selection becomes `[t]`; otherwise a selected `t` is removed at its first occurrence and all other tags keep their order; otherwise `t` is appended and the old selection stays a prefix; below full length the multiset gains or loses exactly one `t` |
| `DeckFilter.InitialSelectionValid` | src/views/Deck/index.tsx:115-116 | with a duplicate-free universe, the initial selection (the universe itself, in its order) satisfies the selection invariant |
| `DeckFilter.ToggleKeepsInvariant` | src/views/Deck/index.tsx:150-160 | a click on a tag of the universe keeps the selection duplicate-free and inside the universe; a distinct universe is not needed for this |
| `DeckFilter.FullIffPermutation` | src/views/Deck/index.tsx:152 | under the invariant and with a distinct universe, the length test holds exactly when the selection has the universe's elements, and exactly when it is a permutation of the universe (both directions) |
| `DeckFilter.DuplicateUniverseNeverFull` | src/views/Deck/index.tsx:112-115 | if the universe lists some tag twice, every selection that meets the invariant is strictly shorter than the universe |
| `DeckFilter.ToggleRefinesSetToggle` | src/views/Deck/index.tsx:150-160 | under the invariant and with a distinct universe, the tags selected after a click are exactly those of the set-level toggle: drill into `{t}` when all are selected, otherwise flip `t` |
| `DeckFilter.DuplicateUniverseNeverFullAgain` | src/views/Deck/index.tsx:150-160 | if the universe lists some tag twice, then after the first click collapses the initial selection, every later sequence of clicks on universe tags leaves the selection shorter than the universe |
| `DeckFilter.ReplayKeepsInvariant` | src/views/Deck/index.tsx:142-160 | any sequence of clicks on tags of the universe keeps the invariant |
| `DeckFilter.ReachableSelections` | src/views/Deck/index.tsx:114-160 | every selection reachable from the initial one satisfies the invariant and passes the length test exactly when it is a permutation of the universe |
| `DeckFilter.ToggleSingleton` | src/views/Deck/index.tsx:152-155 | clicking the only selected tag empties the selection, except with a one-tag universe, where `[t]` is full and stays `[t]` |
| `DeckFilter.SelectedTags` | src/views/Deck/index.tsx:178 | the inner `filter`/`includes` keeps exactly the card's tags that are selected, as a subsequence of the card's tags |
| `DeckFilter.NoTagOfEmptySelection` | src/views/Deck/index.tsx:178 | with an empty selection no tag of a card is kept |
| `DeckFilter.VisibleCards` | src/views/Deck/index.tsx:176-179 | the card list shown is a subsequence of the dataset and contains exactly the dataset cards that share a tag with the selection (both directions); each matching card appears as many times as in the dataset, and no other card appears |
| `DeckFilter.VisibleCardsAppend` | src/views/Deck/index.tsx:176-179 | filtering distributes over concatenation, so each card is kept or dropped on its own and in place |
| `DeckFilter.EmptySelectionShowsNothing` | src/views/Deck/index.tsx:176-179 | an empty selection shows no card, whatever the dataset |
| `DeckFilter.FullSelectionShowsAll` | src/views/Deck/index.tsx:176-179 | when every card has a tag of the universe and the whole universe is selected, every card is shown in dataset order |
| `DeckFilter.View` | src/views/Deck/index.tsx:168-180 | `Character` shows every character unfiltered and no card; `Card` shows no character and exactly the matching cards, each as often as the dataset lists it, as a subsequence of the dataset |
| `DeckFilter.CharacterViewIgnoresSelection` | src/views/Deck/index.tsx:169-172 | in the `Character` category the view does not depend on the selection |
| `DeckScreen.DeckPage.Visible` | src/views/Deck/index.tsx:168-180 | for the page's current state: in `Character`, every character and no card; in `Card`, no character and the cards sharing a tag with the current selection, each as often as in the dataset, in dataset order |
| `DeckScreen.DeckPage.constructor` | src/views/Deck/index.tsx:114-116 | on mount the category is `Character` and the selection is the universe in its order; with a distinct universe the page invariant holds |
| `DeckScreen.DeckPage.SelectCategory` | src/views/Deck/index.tsx:134 | the category becomes the clicked one; only `active` may change, and the selection and the invariant are untouched |
| `DeckScreen.DeckPage.ToggleTag` | src/views/Deck/index.tsx:150-160 | the new selection is `Toggle` of the old one; only `tag` may change, so `active` is untouched; the page invariant is kept for tags of the universe; the selected set follows `SetToggle` |

## Left out

- The viewport scaler in `src/App.tsx` (`getScale`, `autoScale`) is not modelled. It is floating-point division on DOM measurements, plus writes to the document and a global resize handler.
- `PlayerDeck` (the asynchronous deck-list fetch and its rendering) and the Add/Remove buttons of `DeckItem` are not modelled. They are calls into a deck store whose code is not part of this model. The count shown beside each item is a fixed `1`.
- The sub-type enums, the JSON datasets and the helpers `isCharacterType`, `isCardType` and `NameIDTrans` are not part of this model. The universe and the datasets are inputs, a character is reduced to its name, and a card is reduced to its `name` and `subType` (`CardRecord`). Card equality in the membership and count clauses therefore compares only those two fields.
- The merge of the three enums into one object (line 112) is not modelled. Its values are taken as given, in the given order.
- The JSX markup is not modelled. This covers the highlighting of the active category and of the selected tags (lines 132, 148), the fact that the tag bar shows only in the `Card` category (line 140), and the `map` of each shown record to a `DeckItem`.
- `ArrayOps.RemoveAt`: models `splice(i, 1)` only for an index inside the list. JavaScript's meaning of a negative start (counting from the end) is not modelled. The handler only splices after `includes` has found the tag, so its index is never -1.
- The copy made by `Object.assign([], tag)` is implicit. Sequences are values, so the stored selection cannot be aliased or changed by the splice or push on the copy. The model does not represent JavaScript array identity.
- React's render timing is not modelled. `setTag` and `setActive` are taken to update the state at once, as the next click sees it.
