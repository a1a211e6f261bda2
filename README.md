# Chip input — a Dafny model

This project models the chip input component of `my-react-app`. It is a
text box with a suggestion list over ten fixed contacts. Typing filters the
contacts by name, ignoring case, and hides those already chosen. Clicking a
suggestion, or pressing Enter on a suggestion's exact name, turns it into a
chip. Backspace on an empty box deletes the last chip. A chip's delete icon
deletes that chip. A click outside the component closes the list.

Two modules:

- `ChipLogic` (`chip_logic.dfy`) holds the pure parts:
  - the `Chip` record and the fixed candidate list `Items`;
  - `toLowerCase`, `includes` and `trim` as `ToLower`, `Includes` and `Trim`;
  - `Array.prototype.filter` as `KeepWhere`, and `find` by name as `FindByName`;
  - the two filters the handlers evaluate: the suggestion filter `Filter` and the deletion filter `RemoveById`;
  - the lemmas about all of these.
- `ChipWidget` (`chip_component.dfy`) holds the component.
  - The class `ChipComponent` has the four state slots `inputValue`, `chips`, `filteredItems` and `isListVisible`.
  - There is one method per event handler. Each method is one atomic update of the slots.
  - `ListShown` is the condition under which the list is rendered (`chipComponent.tsx:108`).
  - Four scenario methods drive a fresh component through the situations the component is meant for.

Two invariants are kept:

- `Valid()`: no suggestion carries the name of a chip. Every handler
  establishes or preserves it, whatever state it starts from.
- `WellFormed()`: `Valid()`, and in addition the chips and the suggestions
  are candidates and no two chips share a name. It holds at mount and is
  preserved by every handler, provided a clicked item is one of the
  current suggestions, as it always is when the click comes from the
  rendered list. Under it, chip ids are distinct. So Backspace, which
  deletes by id, removes exactly the last chip.

## Model

| member | source | states |
|---|---|---|
| ChipLogic.ToLower | my-react-app/src/component/chipComponent.tsx:37 | `toLowerCase` keeps the length, maps every character through the case map, and leaves no upper-case letter A-Z |
| ChipLogic.Includes | my-react-app/src/component/chipComponent.tsx:37 | `includes` is true exactly when the needle occurs at some position of the haystack; the empty needle occurs everywhere |
| ChipLogic.TrimStartSpec | my-react-app/src/component/chipComponent.tsx:44 | what remains after the leading trim is a suffix of the input, everything dropped is white space, and the remainder does not start with white space |
| ChipLogic.TrimEndSpec | my-react-app/src/component/chipComponent.tsx:44 | what remains after the trailing trim is a prefix of the input, everything dropped is white space, and the remainder does not end with white space |
| ChipLogic.TrimBlank | my-react-app/src/component/chipComponent.tsx:44 | `inputValue.trim() !== ''` holds exactly when the input has a non-white-space character; a non-empty trim starts and ends with one |
| ChipLogic.KeepWhereSpec | my-react-app/src/component/chipComponent.tsx:35-39 | `filter` keeps the order, contains exactly the elements that pass the test, each as often as in the input |
| ChipLogic.FindByName | my-react-app/src/component/chipComponent.tsx:45 | `find` by exact name gives nothing exactly when no element has the name, and otherwise an element with that name before which none has it |
| ChipLogic.Filter | my-react-app/src/component/chipComponent.tsx:35-39 | the suggestions are an order-preserving part of the candidates, holding each candidate whose name contains the query ignoring case and is no chip's name, as often as it occurs, and no suggestion carries a chip's name |
| ChipLogic.RemoveById | my-react-app/src/component/chipComponent.tsx:67-69 | deletion keeps the other chips in order and removes every chip with the deleted chip's id, and nothing else |
| ChipLogic.FilterEmptyQuery | my-react-app/src/component/chipComponent.tsx:35-39 | an empty query suggests every candidate whose name is no chip's name, in order |
| ChipLogic.RemoveKeepsNoneChipped | my-react-app/src/component/chipComponent.tsx:67-69 | deleting chips never makes a suggestion's name a chip's name |
| ChipLogic.RemoveKeepsDistinctNames | my-react-app/src/component/chipComponent.tsx:67-69 | deleting chips keeps the chips' names pairwise different |
| ChipLogic.CommitKeepsChipsDistinct | my-react-app/src/component/chipComponent.tsx:59-65 | appending one of the current suggestions to the chips keeps the chips' names distinct and the chips drawn from the candidates |
| ChipLogic.ItemIdsUnique | my-react-app/src/component/chipComponent.tsx:10-21 | the ten candidates have pairwise different ids |
| ChipLogic.CandidateChipsHaveDistinctIds | my-react-app/src/component/chipComponent.tsx:10-21 | chips drawn from the candidates with distinct names also have distinct ids |
| ChipLogic.RemoveByIdDropsOne | my-react-app/src/component/chipComponent.tsx:68 | with distinct ids, deleting the chip at position k by its id removes exactly that position |
| ChipLogic.OnlyAliceMatchesAli | my-react-app/src/component/chipComponent.tsx:37 | of the candidates only "Alice Johnson" contains "ali", ignoring case |
| ChipLogic.FilterAli | my-react-app/src/component/chipComponent.tsx:35-39 | with no chips, the query "ali" suggests exactly Alice Johnson |
| ChipLogic.CandidateNamesCapitalised | my-react-app/src/component/chipComponent.tsx:10-21 | every candidate's name starts with an upper-case letter |
| ChipLogic.LowerCaseQuerySuggestsAlice | my-react-app/src/component/chipComponent.tsx:37 | the query "alice johnson" suggests Alice Johnson, since case is ignored |
| ChipLogic.NoCandidateNamedLowerCase | my-react-app/src/component/chipComponent.tsx:45 | the exact-name lookup for "alice johnson" finds nothing among candidates, since it respects case |
| ChipWidget.ChipComponent.constructor | my-react-app/src/component/chipComponent.tsx:24-27 | at mount nothing is typed, there are no chips or suggestions, the list is closed, and the state is well formed |
| ChipWidget.ChipComponent.SetListVisibility | my-react-app/src/component/chipComponent.tsx:71-73 | sets the list's visibility and nothing else |
| ChipWidget.ChipComponent.HandleInputChange | my-react-app/src/component/chipComponent.tsx:31-41 | stores the text, opens the list, recomputes the suggestions against the current chips, keeps the chips, and leaves a valid state |
| ChipWidget.ChipComponent.HandleKeyPress | my-react-app/src/component/chipComponent.tsx:43-57 | Enter on non-blank text commits the first suggestion named exactly the text and resets the rest, or changes nothing when there is none; Backspace on an empty box with chips deletes the last chip by id, which in a well-formed state leaves exactly the other chips; every other key changes nothing; both invariants are kept |
| ChipWidget.ChipComponent.HandleSelectItem | my-react-app/src/component/chipComponent.tsx:59-65 | the item becomes the last chip, the text and suggestions are cleared, the list closes, the state is valid, and it stays well formed when the item was a suggestion |
| ChipWidget.ChipComponent.Commit | my-react-app/src/component/chipComponent.tsx:47-51 | the update both commits share: append the chip, clear text and suggestions, close the list |
| ChipWidget.ChipComponent.HandleDeleteChip | my-react-app/src/component/chipComponent.tsx:67-69 | removes every chip with the chip's id and changes nothing else; in a well-formed state exactly one position goes; both invariants are kept |
| ChipWidget.ChipComponent.HandleClickOutside | my-react-app/src/component/chipComponent.tsx:76-80 | a click outside closes the list, so it is not shown; a click inside leaves it as it is; text, chips and suggestions never change |
| ChipWidget.PickAliceScenario | my-react-app/src/component/chipComponent.tsx:31-65 | typing "ali" suggests only Alice Johnson; clicking her makes her the only chip, clears the text and hides the list |
| ChipWidget.EnterOnChippedNameScenario | my-react-app/src/component/chipComponent.tsx:43-52 | with Alice Johnson already a chip, typing her exact name and pressing Enter changes nothing |
| ChipWidget.EnterNeedsExactNameScenario | my-react-app/src/component/chipComponent.tsx:44-46 | "alice johnson" suggests Alice Johnson, yet Enter commits nothing, because the lookup respects case |
| ChipWidget.BackspaceScenario | my-react-app/src/component/chipComponent.tsx:53-56 | with chips Alice and Bob and nothing typed, Backspace leaves exactly Alice |

## Left out

- Rendering is not modelled: the JSX markup, the stylesheet, the chip and item elements and the delete icon glyph. Only the list-shown condition `ListShown` (line 108) is kept.
- Chip icons are not modelled. The optional `icon` of a candidate is presentation only, and copied chips never carry it. So one record type `Chip(id, name, email)` serves for both.
- The label field is called `name`, because `label` is a reserved word in Dafny.
- Listener registration is not modelled: adding and removing the document click listener, and focusing the input at mount. The effect only wires `HandleClickOutside` to the browser.
- HandleClickOutside: the DOM containment test becomes the parameter `inside`. The guard for an unattached container reference, which can only fail before mount, is not modelled.
- ToLower: only the ASCII letters A-Z are mapped. Unicode case mapping, including length-changing mappings, is not modelled; every candidate name is ASCII.
- React's deferred, batched state updates are not modelled. Each handler is one atomic update that reads the state as of the last render. This matches the source, since no handler reads a slot it has just set.
- The text box's own editing is not modelled. For example, the browser deletes characters on Backspace; the model sees only the resulting `HandleInputChange` calls.
- HandleKeyPress: Backspace deletes every chip whose id equals the last chip's id, as the code does (line 68). The promise that it removes exactly the last chip is proved only for well-formed states, where ids are distinct.
- HandleSelectItem: well-formedness is preserved only when the item is one of the current suggestions. The handler itself accepts any item.
