/** The two click-counting easter eggs of script.js. The footer trigger of
    EasterEggModal opens a modal once a click brings its count to three or more; the
    logo of LogoInteraction shows a message when a click brings its count to exactly
    five. Each counter goes back to 0 when it fires, and every click also schedules a
    timer that sets the counter to 0 later; such a timer is modelled as a `Timeout`
    event that can arrive at any point. */
module Counters {

  import opened Remainders

  /** Clicks that open the modal. */
  const ModalClicks: nat := 3

  /** Clicks that show the logo message. */
  const LogoClicks: nat := 5

  /** What a counter sees: a click, or one of its pending reset timers going off. */
  datatype Event = Click | Timeout

  /** The counter after a click, and whether the click fired the easter egg. */
  datatype ClickResult = ClickResult(count: nat, fired: bool)

  /** A click on the modal's trigger: fires once the count reaches three or more. */
  function ModalClick(count: nat): (r: ClickResult)
    ensures r.fired <==> count + 1 >= ModalClicks
    ensures r.fired ==> r.count == 0
    ensures !r.fired ==> r.count == count + 1
  {
    var c := count + 1;
    if c >= ModalClicks then ClickResult(0, true) else ClickResult(c, false)
  }

  /** A click on the logo: fires only when the count is exactly five. */
  function LogoClick(count: nat): (r: ClickResult)
    ensures r.fired <==> count + 1 == LogoClicks
    ensures r.fired ==> r.count == 0
    ensures !r.fired ==> r.count == count + 1
  {
    var c := count + 1;
    if c == LogoClicks then ClickResult(0, true) else ClickResult(c, false)
  }

  /** The modal's counter after `events`, starting from 0. It never reaches three
      between events. */
  function ModalCount(events: seq<Event>): (c: nat)
    ensures c < ModalClicks
    ensures c <= |events| && forall i :: |events| - c <= i < |events| ==> events[i] == Click
  {
    if events == [] then 0
    else match events[|events| - 1]
      case Click => ModalClick(ModalCount(events[..|events| - 1])).count
      case Timeout => 0
  }

  /** The logo's counter after `events`, starting from 0. It never reaches five
      between events, so the `=== 5` test is never skipped over. */
  function LogoCount(events: seq<Event>): (c: nat)
    ensures c < LogoClicks
    ensures c <= |events| && forall i :: |events| - c <= i < |events| ==> events[i] == Click
  {
    if events == [] then 0
    else match events[|events| - 1]
      case Click => LogoClick(LogoCount(events[..|events| - 1])).count
      case Timeout => 0
  }

  /** Whether the last event opens the modal. */
  predicate ModalOpens(events: seq<Event>)
    requires events != []
    ensures ModalOpens(events) ==>
      |events| >= ModalClicks && forall i :: |events| - ModalClicks <= i < |events| ==> events[i] == Click
  {
    events[|events| - 1] == Click && ModalClick(ModalCount(events[..|events| - 1])).fired
  }

  /** Whether the last event shows the logo message. */
  predicate LogoShows(events: seq<Event>)
    requires events != []
    ensures LogoShows(events) ==>
      |events| >= LogoClicks && forall i :: |events| - LogoClicks <= i < |events| ==> events[i] == Click
  {
    events[|events| - 1] == Click && LogoClick(LogoCount(events[..|events| - 1])).fired
  }

  /** The clicks since the last timeout (all clicks if there was none). */
  function ClicksSinceTimeout(events: seq<Event>): (n: nat)
    ensures n <= |events|
    ensures forall i :: |events| - n <= i < |events| ==> events[i] == Click
    ensures n < |events| ==> events[|events| - n - 1] == Timeout
  {
    if events == [] || events[|events| - 1] == Timeout then 0
    else
      var init := events[..|events| - 1];
      assert events[|events| - 1] == Click;
      ClicksSinceTimeout(init) + 1
  }

  /** The modal's counter is the number of clicks since the last timeout, modulo three. */
  lemma {:induction false} ModalCountIsRemainder(events: seq<Event>)
    ensures ModalCount(events) == ClicksSinceTimeout(events) % ModalClicks
  {
    if events != [] && events[|events| - 1] == Click {
      var init := events[..|events| - 1];
      ModalCountIsRemainder(init);
      RemainderStep(ClicksSinceTimeout(init), ModalClicks);
    }
  }

  /** The logo's counter is the number of clicks since the last timeout, modulo five. */
  lemma {:induction false} LogoCountIsRemainder(events: seq<Event>)
    ensures LogoCount(events) == ClicksSinceTimeout(events) % LogoClicks
  {
    if events != [] && events[|events| - 1] == Click {
      var init := events[..|events| - 1];
      LogoCountIsRemainder(init);
      RemainderStep(ClicksSinceTimeout(init), LogoClicks);
    }
  }

  /** The modal opens on an event exactly when it is a click that makes the clicks
      since the last timeout a multiple of three. */
  lemma ModalOpensIff(events: seq<Event>)
    requires events != []
    ensures ModalOpens(events) <==>
      events[|events| - 1] == Click && ClicksSinceTimeout(events) % ModalClicks == 0
  {
    var init := events[..|events| - 1];
    ModalCountIsRemainder(init);
    RemainderStep(ClicksSinceTimeout(init), ModalClicks);
  }

  /** The logo message shows on an event exactly when it is a click that makes the
      clicks since the last timeout a multiple of five. */
  lemma LogoShowsIff(events: seq<Event>)
    requires events != []
    ensures LogoShows(events) <==>
      events[|events| - 1] == Click && ClicksSinceTimeout(events) % LogoClicks == 0
  {
    var init := events[..|events| - 1];
    LogoCountIsRemainder(init);
    RemainderStep(ClicksSinceTimeout(init), LogoClicks);
  }

  /** The EasterEggModal component. `modalVisible` is the modal's 'visible' class and
      `bodyOverflow` the page body's `overflow` style. */
  class EasterEggModal {
    var clickCount: nat
    var modalVisible: bool
    var bodyOverflow: string
    ghost var events: seq<Event>

    ghost predicate Valid()
      reads this
    {
      clickCount == ModalCount(events)
    }

    /** The modal and the body start as the page has them. */
    constructor (initialVisible: bool, initialOverflow: string)
      ensures Valid() && events == []
      ensures clickCount == 0 && modalVisible == initialVisible && bodyOverflow == initialOverflow
    {
      clickCount := 0;
      modalVisible := initialVisible;
      bodyOverflow := initialOverflow;
      events := [];
    }

    /** The trigger's click listener. */
    method OnTriggerClick() returns (modalOpened: bool)
      requires Valid()
      modifies this
      ensures Valid() && events == old(events) + [Click]
      ensures modalOpened == ModalOpens(events)
      ensures modalOpened ==> modalVisible && bodyOverflow == "hidden" && clickCount == 0
      ensures !modalOpened ==> modalVisible == old(modalVisible) && bodyOverflow == old(bodyOverflow)
      ensures !modalOpened ==> clickCount == old(clickCount) + 1
    {
      clickCount := clickCount + 1;
      modalOpened := clickCount >= ModalClicks;
      if modalOpened {
        Open();
        clickCount := 0;
      }
      events := events + [Click];
      assert events[..|events| - 1] == old(events);
      assert ModalCount(events) == ModalClick(old(clickCount)).count;
      assert ModalOpens(events) == ModalClick(old(clickCount)).fired;
    }

    /** One of the reset timers the trigger's clicks schedule. */
    method OnTimeout()
      requires Valid()
      modifies this
      ensures Valid() && events == old(events) + [Timeout]
      ensures clickCount == 0
      ensures modalVisible == old(modalVisible) && bodyOverflow == old(bodyOverflow)
    {
      clickCount := 0;
      events := events + [Timeout];
    }

    /** `open`. */
    method Open()
      modifies this`modalVisible, this`bodyOverflow
      ensures modalVisible && bodyOverflow == "hidden"
    {
      modalVisible := true;
      bodyOverflow := "hidden";
    }

    /** `close`: the close button and a click on the backdrop call it. */
    method Close()
      modifies this`modalVisible, this`bodyOverflow
      ensures !modalVisible && bodyOverflow == ""
    {
      modalVisible := false;
      bodyOverflow := "";
    }

    /** The modal's own click listener; `onBackdrop` says the click hit the modal
        element itself rather than its content. */
    method OnModalClick(onBackdrop: bool)
      requires Valid()
      modifies this`modalVisible, this`bodyOverflow
      ensures Valid()
      ensures onBackdrop ==> !modalVisible && bodyOverflow == ""
      ensures !onBackdrop ==> modalVisible == old(modalVisible) && bodyOverflow == old(bodyOverflow)
    {
      if onBackdrop {
        Close();
      }
    }

    /** The page's keydown listener: Escape closes the modal whether or not it is open. */
    method OnKeyDown(key: string)
      requires Valid()
      modifies this`modalVisible, this`bodyOverflow
      ensures Valid()
      ensures key == "Escape" ==> !modalVisible && bodyOverflow == ""
      ensures key != "Escape" ==> modalVisible == old(modalVisible) && bodyOverflow == old(bodyOverflow)
    {
      if key == "Escape" {
        Close();
      }
    }
  }

  /** The LogoInteraction component. `messagesShown` counts the runs of `showMessage`,
      whose toast is not modelled. */
  class LogoInteraction {
    var clickCount: nat
    var messagesShown: nat
    ghost var events: seq<Event>

    ghost predicate Valid()
      reads this
    {
      clickCount == LogoCount(events)
    }

    constructor ()
      ensures Valid() && events == []
      ensures clickCount == 0 && messagesShown == 0
    {
      clickCount := 0;
      messagesShown := 0;
      events := [];
    }

    /** The logo's click listener. */
    method OnClick() returns (shown: bool)
      requires Valid()
      modifies this
      ensures Valid() && events == old(events) + [Click]
      ensures shown == LogoShows(events)
      ensures messagesShown == old(messagesShown) + (if shown then 1 else 0)
      ensures shown ==> clickCount == 0
      ensures !shown ==> clickCount == old(clickCount) + 1
    {
      clickCount := clickCount + 1;
      shown := clickCount == LogoClicks;
      if shown {
        ShowMessage();
        clickCount := 0;
      }
      events := events + [Click];
      assert events[..|events| - 1] == old(events);
    }

    /** One of the reset timers the logo's clicks schedule. */
    method OnTimeout()
      requires Valid()
      modifies this
      ensures Valid() && events == old(events) + [Timeout]
      ensures clickCount == 0 && messagesShown == old(messagesShown)
    {
      clickCount := 0;
      events := events + [Timeout];
    }

    /** `showMessage`, reduced to counting its runs. */
    method ShowMessage()
      modifies this`messagesShown
      ensures messagesShown == old(messagesShown) + 1
    {
      messagesShown := messagesShown + 1;
    }
  }
}
