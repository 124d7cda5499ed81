/** The contact dropdown (class ContactDropdown in script.js): a two-state machine.
    Clicking the button toggles it; a click elsewhere on the page, or the Escape key,
    closes it when it is open. Every time the state is written, the dropdown's
    'active' class and the button's `aria-expanded` attribute are written with it. */
module Dropdown {

  /** The events the component listens to. A click on the button does not reach the
      page-level listener (its propagation is stopped). */
  datatype Event =
    | ButtonClick
    | PageClick(inDropdown: bool, onButton: bool)
    | KeyDown(key: string)

  /** The string `setAttribute` stores for a boolean. */
  function AriaValue(open: bool): (r: string)
    ensures r == "true" || r == "false"
    ensures (r == "true") == open
  {
    if open then "true" else "false"
  }

  /** Whether the event makes the component call `close`: only when it is open. */
  predicate Closes(open: bool, e: Event)
    ensures Closes(open, e) ==> open && !e.ButtonClick?
  {
    match e
    case ButtonClick => false
    case PageClick(inDropdown, onButton) => open && !inDropdown && !onButton
    case KeyDown(key) => open && key == "Escape"
  }

  /** The open state after one event. */
  function OpenAfter(open: bool, e: Event): (r: bool)
    ensures e.ButtonClick? ==> r == !open
    ensures !e.ButtonClick? ==> (r <==> open && !Closes(open, e))
  {
    if e.ButtonClick? then !open
    else if Closes(open, e) then false
    else open
  }

  /** The open state after a sequence of events, starting closed. */
  function OpenAfterAll(events: seq<Event>): (r: bool)
    ensures r ==> ButtonClicks(events) > 0
  {
    if events == [] then false
    else OpenAfter(OpenAfterAll(events[..|events| - 1]), events[|events| - 1])
  }

  /** How many button clicks a sequence of events holds. */
  function ButtonClicks(events: seq<Event>): nat
  {
    if events == [] then 0
    else ButtonClicks(events[..|events| - 1]) + (if events[|events| - 1].ButtonClick? then 1 else 0)
  }

  /** Page clicks and keys never open a closed dropdown. */
  lemma ClosedStaysClosed(e: Event)
    requires !e.ButtonClick?
    ensures !OpenAfter(false, e)
    ensures !Closes(false, e)
  {
  }

  /** Two button clicks in a row restore the state. */
  lemma ToggleTwice(open: bool)
    ensures OpenAfter(OpenAfter(open, ButtonClick), ButtonClick) == open
  {
  }

  /** Escape always leaves the dropdown closed, and a second Escape does nothing. */
  lemma EscapeCloses(open: bool)
    ensures !OpenAfter(open, KeyDown("Escape"))
    ensures !Closes(OpenAfter(open, KeyDown("Escape")), KeyDown("Escape"))
  {
  }

  /** The ContactDropdown component. `dropdownActive` is the dropdown's 'active'
      class and `ariaExpanded` the button's attribute; both hold whatever the page
      set until the component first writes them. */
  class ContactDropdown {
    var isOpen: bool
    var dropdownActive: bool
    var ariaExpanded: string
    /** Whether the component has written the class and the attribute yet. */
    ghost var stateWritten: bool
    ghost var events: seq<Event>

    ghost predicate Valid()
      reads this
    {
      isOpen == OpenAfterAll(events) &&
      (stateWritten ==> dropdownActive == isOpen && ariaExpanded == AriaValue(isOpen))
    }

    constructor (initialActive: bool, initialAria: string)
      ensures Valid() && events == []
      ensures !isOpen && !stateWritten
      ensures dropdownActive == initialActive && ariaExpanded == initialAria
    {
      isOpen := false;
      dropdownActive := initialActive;
      ariaExpanded := initialAria;
      stateWritten := false;
      events := [];
    }

    /** `toggle`. */
    method Toggle()
      modifies this`isOpen, this`dropdownActive, this`ariaExpanded, this`stateWritten
      ensures isOpen == !old(isOpen)
      ensures dropdownActive == isOpen && ariaExpanded == AriaValue(isOpen) && stateWritten
    {
      isOpen := !isOpen;
      dropdownActive := isOpen;
      ariaExpanded := if isOpen then "true" else "false";
      stateWritten := true;
    }

    /** `close`: idempotent, since it only ever writes the closed state. */
    method Close()
      modifies this`isOpen, this`dropdownActive, this`ariaExpanded, this`stateWritten
      ensures !isOpen && !dropdownActive && ariaExpanded == "false" && stateWritten
    {
      isOpen := false;
      dropdownActive := false;
      ariaExpanded := "false";
      stateWritten := true;
    }

    /** The button's click listener. */
    method OnButtonClick()
      requires Valid()
      modifies this
      ensures Valid() && events == old(events) + [ButtonClick]
      ensures isOpen == !old(isOpen)
      ensures dropdownActive == isOpen && ariaExpanded == AriaValue(isOpen) && stateWritten
    {
      Toggle();
      events := events + [ButtonClick];
      assert events[..|events| - 1] == old(events);
    }

    /** The page's click listener; `inDropdown` and `onButton` say where the click landed. */
    method OnPageClick(inDropdown: bool, onButton: bool)
      requires Valid()
      modifies this
      ensures Valid() && events == old(events) + [PageClick(inDropdown, onButton)]
      ensures old(isOpen) && !inDropdown && !onButton ==>
        !isOpen && !dropdownActive && ariaExpanded == "false" && stateWritten
      ensures !(old(isOpen) && !inDropdown && !onButton) ==>
        isOpen == old(isOpen) && dropdownActive == old(dropdownActive) &&
        ariaExpanded == old(ariaExpanded) && stateWritten == old(stateWritten)
    {
      if isOpen && !inDropdown && !onButton {
        Close();
      }
      events := events + [PageClick(inDropdown, onButton)];
      assert events[..|events| - 1] == old(events);
    }

    /** The page's keydown listener. */
    method OnKeyDown(key: string)
      requires Valid()
      modifies this
      ensures Valid() && events == old(events) + [KeyDown(key)]
      ensures old(isOpen) && key == "Escape" ==>
        !isOpen && !dropdownActive && ariaExpanded == "false" && stateWritten
      ensures !(old(isOpen) && key == "Escape") ==>
        isOpen == old(isOpen) && dropdownActive == old(dropdownActive) &&
        ariaExpanded == old(ariaExpanded) && stateWritten == old(stateWritten)
    {
      if isOpen && key == "Escape" {
        Close();
      }
      events := events + [KeyDown(key)];
      assert events[..|events| - 1] == old(events);
    }
  }
}
