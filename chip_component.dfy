/** The chip input component: its four state slots and the event handlers
    that update them. Each handler is one atomic update of the slots. */
module ChipWidget {
  import opened ChipLogic

  class ChipComponent {
    /** The text currently typed. */
    var inputValue: string
    /** The committed chips, in the order they were committed. */
    var chips: seq<Chip>
    /** The suggestions computed at the last input change. */
    var filteredItems: seq<Chip>
    /** Whether the suggestion list is open. */
    var isListVisible: bool

    /** The invariant every handler keeps: no suggestion carries the name of a chip. */
    ghost predicate Valid()
      reads this
    {
      NoneChipped(filteredItems, chips)
    }

    /** The invariant of every state reachable when chips are only committed
        from the suggestions: besides Valid(), chips and suggestions are
        candidates and no two chips share a name. */
    ghost predicate WellFormed()
      reads this
    {
      Valid() && DistinctNames(chips) && FromItems(chips) && FromItems(filteredItems)
    }

    /** The suggestion list is rendered. */
    predicate ListShown()
      reads this
    {
      isListVisible && |filteredItems| > 0
    }

    /** The state at mount: nothing typed, no chips, no suggestions, list closed. */
    constructor ()
      ensures inputValue == [] && chips == [] && filteredItems == [] && !isListVisible
      ensures WellFormed()
    {
      inputValue := [];
      chips := [];
      filteredItems := [];
      isListVisible := false;
    }

    /** Opens or closes the suggestion list. */
    method SetListVisibility(visible: bool)
      modifies this`isListVisible
      ensures isListVisible == visible
    {
      isListVisible := visible;
    }

    /** The text changed: store it, open the list and recompute the suggestions
        against the current chips. */
    method HandleInputChange(value: string)
      modifies this
      ensures inputValue == value && chips == old(chips) && isListVisible
      ensures filteredItems == Filter(Items, value, chips)
      ensures Valid()
      ensures old(WellFormed()) ==> WellFormed()
    {
      inputValue := value;
      SetListVisibility(true);
      filteredItems := Filter(Items, value, chips);
    }

    /** A key went down. Enter with some non-blank text commits the first
        suggestion whose name is exactly the text, if there is one; Backspace
        on an empty input deletes the last chip by its id; anything else
        leaves the state as it is. */
    method HandleKeyPress(key: string)
      modifies this
      ensures if key == "Enter" && Trim(old(inputValue)) != [] then
                match FindByName(old(filteredItems), old(inputValue))
                case Some(c) =>
                  && chips == old(chips) + [Chip(c.id, c.name, c.email)]
                  && inputValue == [] && filteredItems == [] && !isListVisible
                case None =>
                  && chips == old(chips) && inputValue == old(inputValue)
                  && filteredItems == old(filteredItems) && isListVisible == old(isListVisible)
              else if key == "Backspace" && old(inputValue) == [] && |old(chips)| > 0 then
                && chips == RemoveById(old(chips), old(chips)[|old(chips)| - 1].id)
                && inputValue == old(inputValue) && filteredItems == old(filteredItems)
                && isListVisible == old(isListVisible)
              else
                && chips == old(chips) && inputValue == old(inputValue)
                && filteredItems == old(filteredItems) && isListVisible == old(isListVisible)
      ensures old(Valid()) ==> Valid()
      ensures old(WellFormed()) ==> WellFormed()
      ensures old(WellFormed()) && key == "Backspace" && old(inputValue) == [] && |old(chips)| > 0 ==>
                chips == old(chips)[..|old(chips)| - 1]
    {
      if key == "Enter" && Trim(inputValue) != [] {
        var selectedChip := FindByName(filteredItems, inputValue);
        assert selectedChip == FindByName(old(filteredItems), old(inputValue));
        if selectedChip.Some? {
          var c := selectedChip.value;
          Commit(Chip(c.id, c.name, c.email));
        }
      } else if key == "Backspace" && inputValue == [] && |chips| > 0 {
        var lastChip := chips[|chips| - 1];
        HandleDeleteChip(lastChip);
      }
    }

    /** A suggestion was clicked: it becomes the last chip whatever was typed,
        and the input, the suggestions and the list are reset. */
    method HandleSelectItem(item: Chip)
      modifies this
      ensures chips == old(chips) + [Chip(item.id, item.name, item.email)]
      ensures inputValue == [] && filteredItems == [] && !isListVisible
      ensures Valid()
      ensures old(WellFormed()) && item in old(filteredItems) ==> WellFormed()
    {
      Commit(Chip(item.id, item.name, item.email));
    }

    /** The update both commits make: append the chip, clear the input and
        the suggestions, close the list. */
    method Commit(newChip: Chip)
      modifies this
      ensures chips == old(chips) + [newChip]
      ensures inputValue == [] && filteredItems == [] && !isListVisible
      ensures Valid()
      ensures old(WellFormed()) && newChip in old(filteredItems) ==> WellFormed()
    {
      if WellFormed() && newChip in filteredItems {
        CommitKeepsChipsDistinct(filteredItems, chips, newChip);
      }
      chips := chips + [newChip];
      inputValue := [];
      filteredItems := [];
      SetListVisibility(false);
    }

    /** A chip's delete icon was clicked: every chip with its id goes, the
        others keep their order. In a well-formed state ids are distinct, so
        exactly that one chip goes. */
    method HandleDeleteChip(chip: Chip)
      modifies this`chips
      ensures chips == RemoveById(old(chips), chip.id)
      ensures old(Valid()) ==> Valid()
      ensures old(WellFormed()) ==> WellFormed()
      ensures old(WellFormed()) ==> forall k | 0 <= k < |old(chips)| && old(chips)[k].id == chip.id ::
                chips == old(chips)[..k] + old(chips)[k + 1..]
    {
      ghost var was := chips;
      chips := RemoveById(chips, chip.id);
      if NoneChipped(filteredItems, was) {
        RemoveKeepsNoneChipped(filteredItems, was, chip.id);
      }
      if DistinctNames(was) {
        RemoveKeepsDistinctNames(was, chip.id);
      }
      if old(WellFormed()) {
        CandidateChipsHaveDistinctIds(was);
        forall k | 0 <= k < |was| && was[k].id == chip.id ensures chips == was[..k] + was[k + 1..] {
          RemoveByIdDropsOne(was, k);
        }
        forall i | 0 <= i < |chips| ensures chips[i] in Items {
          assert chips[i] in was;
        }
      }
    }

    /** A click anywhere in the document: one outside the component closes
        the list, one inside changes nothing. */
    method HandleClickOutside(inside: bool)
      modifies this`isListVisible
      ensures !inside ==> !isListVisible && !ListShown()
      ensures inside ==> isListVisible == old(isListVisible)
      ensures old(Valid()) ==> Valid()
      ensures old(WellFormed()) ==> WellFormed()
    {
      if !inside {
        SetListVisibility(false);
      }
    }
  }

  /** Typing "ali" suggests only Alice Johnson; clicking her commits her
      chip, clears the input and closes the list. */
  method PickAliceScenario() returns (suggested: seq<Chip>, chips: seq<Chip>, input: string, shown: bool)
    ensures suggested == [Chip("1", "Alice Johnson", "alice@example.com")]
    ensures chips == [Chip("1", "Alice Johnson", "alice@example.com")]
    ensures input == [] && !shown
  {
    var widget := new ChipComponent();
    widget.HandleInputChange("ali");
    FilterAli();
    suggested := widget.filteredItems;
    widget.HandleSelectItem(widget.filteredItems[0]);
    chips, input, shown := widget.chips, widget.inputValue, widget.ListShown();
  }

  /** With Alice Johnson already a chip, typing her exact name and pressing
      Enter changes nothing: she is not among the suggestions. */
  method EnterOnChippedNameScenario() returns (before: seq<Chip>, after: seq<Chip>, input: string)
    ensures before == [Items[0]] && after == before && input == "Alice Johnson"
  {
    var widget := new ChipComponent();
    widget.HandleSelectItem(Items[0]);
    widget.HandleInputChange("Alice Johnson");
    before := widget.chips;
    assert HasName(widget.chips, "Alice Johnson") by {
      assert widget.chips[0].name == "Alice Johnson";
    }
    widget.HandleKeyPress("Enter");
    after, input := widget.chips, widget.inputValue;
  }

  /** Enter compares names case-sensitively: "alice johnson" suggests Alice
      Johnson, yet Enter commits nothing. */
  method EnterNeedsExactNameScenario() returns (suggested: seq<Chip>, chips: seq<Chip>)
    ensures Items[0] in suggested && chips == []
  {
    var widget := new ChipComponent();
    widget.HandleInputChange("alice johnson");
    LowerCaseQuerySuggestsAlice();
    NoCandidateNamedLowerCase(widget.filteredItems);
    suggested := widget.filteredItems;
    widget.HandleKeyPress("Enter");
    chips := widget.chips;
  }

  /** With chips Alice and Bob and nothing typed, Backspace deletes Bob. */
  method BackspaceScenario() returns (chips: seq<Chip>)
    ensures chips == [Items[0]]
  {
    var widget := new ChipComponent();
    widget.HandleSelectItem(Items[0]);
    widget.HandleSelectItem(Items[1]);
    RemoveByIdDropsOne(widget.chips, 1);
    widget.HandleKeyPress("Backspace");
    chips := widget.chips;
  }
}
