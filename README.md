# Alley & Street site interactions, modelled in Dafny

The site's `script.js` wires a handful of small components to browser events. This
project models the ones that hold state, with every DOM effect replaced by a plain
field:

- the briefcase easter egg (`BriefcaseEasterEgg`): a sliding window of the last two
  lowercased keys, which flips the briefcase whenever the window joined into one
  string is `"as"` (`briefcase.dfy`);
- the Konami code (`KonamiCode`): a cursor over a fixed ten-key code that advances on
  the expected key, falls back to 0 on any other key, and fires once and resets when
  the code is complete (`konami.dfy`);
- the tagline rotator (`TaglineRotator.rotate`): an index that advances modulo the
  number of statements, with each statement's `active` and `exit` classes kept as two
  boolean arrays (`tagline.dfy`);
- the contact dropdown (`ContactDropdown`): an open/closed flag with toggle and close,
  the dropdown's `active` class and the button's `aria-expanded` attribute
  (`dropdown.dfy`);
- the two click counters (`EasterEggModal`, three clicks open a modal;
  `LogoInteraction`, five clicks show a message), with their delayed resets as an
  explicit timeout event (`counters.dfy`).

Each component has a pure specification: a step function for one event and a run
function that folds it over the events seen so far. Each component is also a class
whose listener methods change its fields as the JavaScript does. Where a field is
determined by the events the component has seen, the class keeps that history in a
ghost field and its `Valid()` ties the field to the run function. This covers:
- the briefcase's buffer and visibility;
- the Konami cursor and activation count;
- the dropdown's open state, and its class and `aria-expanded` once written;
- the two click counters.

The rotator keeps a ghost count of its ticks instead, and its `Valid()` ties the index
to `AfterRotations` of that count. `Rotate` then gives the index as the tick count
modulo the number of statements. The remaining fields are stated by each method's
contract in terms of the old state: the flag arrays, the modal's visibility, the
body's overflow and the logo's message count. The lemmas then state the promised
behaviour of whole event streams:
- which key completes the Konami code;
- what the briefcase buffer holds;
- when a counter fires;
- where the rotating index ends up after `k` ticks.

`remainders.dfy` holds the arithmetic that the rotator and the counters share: a
product bound, the uniqueness of quotient and remainder, and how `%` moves when its
argument grows by one.

The comparison in the briefcase follows the code: the buffer is joined with `''` and
compared as one string, rather than entry by entry.
So the first key alone would match if it were the two-character string "as"
(`Briefcase.FirstKeyToggles`). Once two non-empty keys have been seen, the join
comparison agrees with the entry-by-entry one (`Briefcase.MatchesPair`,
`Briefcase.TogglesIffLastTwo`).

## Model

| member | source | states |
|---|---|---|
| Briefcase.LowerChar | script.js:95 | an ASCII capital becomes the lowercase letter at the same alphabet position; any other character is unchanged |
| Briefcase.Lower | script.js:95 | lowercasing keeps the length, maps each ASCII capital to its lowercase letter, leaves no ASCII capital and changes nothing else |
| Briefcase.Join | script.js:103 | joining with `''` gives "" for no entries, the entry itself for one, and the two entries concatenated for two |
| Briefcase.JoinSnoc | script.js:103 | joining a buffer with one more entry appends that entry to the joined string |
| Briefcase.Matches | script.js:103 | an empty buffer never matches |
| Briefcase.MatchesSpellsAs | script.js:103 | the buffer matches exactly when its entries joined with `''` spell "as" |
| Briefcase.Toggles | script.js:103 | a keydown can flip the briefcase only if its lowercased key is a suffix of "as" of at most two characters ("", "s" or "as") |
| Briefcase.Push | script.js:95-100 | one keydown appends the lowercased key last; below two entries nothing is dropped, at two the oldest entry is dropped |
| Briefcase.Buffer | script.js:94-100 | after any keys the buffer holds min(2, number of keys) entries |
| Briefcase.BufferIsLastKeys | script.js:95-100 | the buffer is exactly the last (up to two) keys seen, lowercased, in arrival order |
| Briefcase.BufferAfterTwo | script.js:95-100 | after any history followed by keys x, y the buffer is [lower(x), lower(y)] |
| Briefcase.MatchesPair | script.js:103 | a two-entry buffer of non-empty keys matches exactly when it is ["a", "s"] |
| Briefcase.TogglesIffLastTwo | script.js:95-104 | once two non-empty keys are seen, a keydown flips the briefcase iff the last two keys lowercase to `a`, `s` |
| Briefcase.FirstKeyToggles | script.js:95-104 | the first key alone flips it only if it lowercases to the string "as" |
| Briefcase.UpperCaseMatches | script.js:95-104 | `A`, `S` after any history flip the briefcase |
| Briefcase.NoFlipOnA | script.js:103-104 | a key that lowercases to `a` never flips it, whatever the buffer held |
| Briefcase.FlipOnAS | script.js:103-104 | `a` then `s` after any history flips it |
| Briefcase.StepOne | script.js:103-118 | one key adds its flip to the flip count and to the visibility |
| Briefcase.Visible | script.js:83-118 | the briefcase can be visible only after at least one flip |
| Briefcase.VisibleIsParity | script.js:83-118 | the briefcase is visible iff it has been flipped an odd number of times |
| Briefcase.AsTogglesOnce | script.js:95-118 | `a` then `s` after any history flip the briefcase exactly once, so visibility is inverted |
| Briefcase.AsAsTogglesTwice | script.js:95-118 | since the buffer is not cleared, `a s a s` after any history flips exactly twice and restores visibility |
| Briefcase.BriefcaseEasterEgg.constructor | script.js:81-85 | starts hidden with an empty buffer |
| Briefcase.BriefcaseEasterEgg.OnKeyDown | script.js:94-106 | the buffer becomes Push(old buffer, key) with at most two entries; the result says whether it matched; visibility flips exactly then; the buffer is the run over all keys seen |
| Briefcase.BriefcaseEasterEgg.Toggle | script.js:117-120 | flips visibility |
| Konami.OnKey | script.js:319-328 | the expected key advances the cursor by one; any other key gives cursor 0 without activation; the tenth expected key activates and gives 0 |
| Konami.Cursor | script.js:312-329 | between events the cursor is in [0, 10) and never exceeds the number of keys seen |
| Konami.Fires | script.js:319-325 | a key that activates is the code's last key `a` and comes after at least ten keys |
| Konami.Activations | script.js:320-325 | each activation uses up ten keys of its own: 10 * activations + cursor <= keys seen |
| Konami.CursorTracksCode | script.js:319-320 | the last `cursor` keys equal the first `cursor` symbols of the code |
| Konami.CursorBacktrack | script.js:319-328 | a cursor value c was reached by c consecutive advances |
| Konami.FeedCode | script.js:319-320 | from cursor 0, the first k symbols of the code bring the cursor to k |
| Konami.FiresOnlyAfterCode | script.js:319-325 | a key that activates ends ten keys equal to the code, begun at cursor 0 |
| Konami.CodeFires | script.js:319-325 | from cursor 0 the ten keys of the code activate on the tenth |
| Konami.FiresIff | script.js:319-328 | activate runs on a key iff the last ten keys equal the code and the cursor was 0 before them (both directions) |
| Konami.ThreeArrowUpsReset | script.js:305-328 | ArrowUp three times leaves the cursor at 0, although ArrowUp is the code's first key |
| Konami.OverlapDoesNotFire | script.js:319-328 | ArrowUp followed by the whole code never activates |
| Konami.DeviationThenReplay | script.js:319-328 | nine correct keys and a wrong tenth give cursor 0; a replay of the code then activates on its tenth key and on no earlier one |
| Konami.KonamiCode.constructor | script.js:304-312 | the cursor starts at 0 with no activation |
| Konami.KonamiCode.OnKeyDown | script.js:318-329 | the cursor and activation follow OnKey; the cursor stays below 10; activations grow by one exactly when the key fires |
| Konami.KonamiCode.Activate | script.js:332-334 | counts one run of activate |
| Tagline.Next | script.js:32 | the next index is below n: one more, or 0 after the last statement |
| Tagline.RotateActive | script.js:25-37 | after a rotation the new statement is active; with n >= 2 the old one is not; every other flag is unchanged |
| Tagline.RotateExit | script.js:25-37 | after a rotation the new statement is not exiting; with n >= 2 the old one is; every other flag is unchanged |
| Tagline.AfterRotations | script.js:20-32 | after at least one rotation, or from a valid index, the index is a valid statement index |
| Tagline.NextOfRemainder | script.js:32 | one rotation from x mod n lands on (x + 1) mod n |
| Tagline.RotationsAdvance | script.js:20-32 | k rotations from i land on (i + k) mod n |
| Tagline.FullCycle | script.js:20-32 | for 0 < k <= n, k rotations return to the start iff k == n |
| Tagline.SingleStatement | script.js:28-37 | with one statement, a rotation leaves it active and not exiting |
| Tagline.RotateKeepsOneActive | script.js:28-37 | if only the current statement is active, afterwards only the next one is |
| Tagline.TaglineRotator.constructor | script.js:10-18 | index 0 after no ticks; the flags are as the page set them; the timer is started iff there is at least one statement |
| Tagline.TaglineRotator.Rotate | script.js:24-38 | only runs once started; one more tick; index becomes Next(old index), which is the tick count mod the number of statements; the flag arrays become RotateActive / RotateExit of the old ones |
| Tagline.TaglineRotator.ExitFinished | script.js:40-42 | the delayed clean-up clears `exit` on one statement and changes neither the index nor the tick count |
| Dropdown.AriaValue | script.js:447-453 | the attribute is "true" exactly when open, else "false" |
| Dropdown.Closes | script.js:430-441 | close is called only when the dropdown is open and the event is not a button click |
| Dropdown.OpenAfter | script.js:424-441 | the button flips the state; a page click or key leaves it open iff it was open and did not trigger a close |
| Dropdown.OpenAfterAll | script.js:415-441 | the dropdown can be open only after some button click |
| Dropdown.ClosedStaysClosed | script.js:430-441 | page clicks and keys neither open a closed dropdown nor call close on it |
| Dropdown.ToggleTwice | script.js:444-445 | two toggles restore the state |
| Dropdown.EscapeCloses | script.js:437-441 | after Escape the dropdown is closed, and a second Escape calls nothing |
| Dropdown.ContactDropdown.constructor | script.js:412-415 | starts closed; the 'active' class and aria-expanded are whatever the page set until the component first writes them |
| Dropdown.ContactDropdown.Toggle | script.js:444-448 | flips isOpen and writes the class and aria-expanded to match it |
| Dropdown.ContactDropdown.Close | script.js:450-454 | writes closed, no class, aria-expanded "false", whatever the state was (idempotent) |
| Dropdown.ContactDropdown.OnButtonClick | script.js:424-427 | toggles; the class and aria-expanded are written to mirror the new state |
| Dropdown.ContactDropdown.OnPageClick | script.js:430-434 | closes only if open and the click is outside the dropdown and button; otherwise nothing changes, class and aria included |
| Dropdown.ContactDropdown.OnKeyDown | script.js:437-441 | closes only if open and the key is Escape; otherwise nothing changes, class and aria included |
| Counters.ModalClick | script.js:141-150 | a click fires iff the count reaches >= 3, and the count is then 0; otherwise the count grows by one |
| Counters.LogoClick | script.js:472-484 | a click fires iff the count becomes exactly 5, and the count is then 0; otherwise it grows by one |
| Counters.ModalCount | script.js:131-150 | between events the modal counter is below 3, and the last `count` events were all clicks |
| Counters.LogoCount | script.js:463-488 | between events the logo counter is below 5, so the `=== 5` test is never skipped; the last `count` events were all clicks |
| Counters.ModalOpens | script.js:141-150 | the modal opens only on the third of three clicks in a row with no reset between them |
| Counters.LogoShows | script.js:472-484 | the message shows only on the fifth of five clicks in a row with no reset between them |
| Counters.ClicksSinceTimeout | script.js:143-145 | the count is the length of the run of clicks at the end of the history: all of them are clicks, and the event before them, if any, is a timeout |
| Counters.ModalCountIsRemainder | script.js:140-150 | the modal counter is (clicks since the last timeout) mod 3 |
| Counters.LogoCountIsRemainder | script.js:471-488 | the logo counter is (clicks since the last timeout) mod 5 |
| Counters.ModalOpensIff | script.js:141-150 | the modal opens on an event iff it is a click and the clicks since the last timeout are a multiple of 3 |
| Counters.LogoShowsIff | script.js:472-484 | the message shows on an event iff it is a click and the clicks since the last timeout are a multiple of 5 |
| Counters.EasterEggModal.constructor | script.js:127-131 | count 0; the modal's visibility and the body's overflow are as the page had them |
| Counters.EasterEggModal.OnTriggerClick | script.js:140-151 | the result is ModalOpens of the history; if it opens, modal visible, body overflow "hidden", count 0; otherwise the count grows by one and nothing else changes |
| Counters.EasterEggModal.OnTimeout | script.js:143-145 | count 0, modal untouched |
| Counters.EasterEggModal.Open | script.js:171-174 | modal visible, body overflow "hidden" |
| Counters.EasterEggModal.Close | script.js:176-179 | modal hidden, body overflow "" |
| Counters.EasterEggModal.OnModalClick | script.js:157-161 | a click on the backdrop closes; a click on the content changes nothing |
| Counters.EasterEggModal.OnKeyDown | script.js:164-168 | Escape closes the modal whether or not it was open; other keys change nothing |
| Counters.LogoInteraction.constructor | script.js:461-463 | count 0, no message shown |
| Counters.LogoInteraction.OnClick | script.js:471-489 | the result is LogoShows of the history; messages shown grow by one exactly then and the count is 0; otherwise the count grows by one |
| Counters.LogoInteraction.OnTimeout | script.js:486-488 | count 0, messages unchanged |
| Counters.LogoInteraction.ShowMessage | script.js:492-494 | counts one shown message |

## Left out

- DOM lookup and listener wiring. Each class models a component whose elements all exist, so every listener it declares is registered. For `EasterEggModal` that means the trigger, the modal and the close button `#easterClose` all exist.
- A missing element is not modelled. `BriefcaseEasterEgg`, `LogoInteraction` and `ContactDropdown` check every element they use and register nothing when one is missing; `TaglineRotator` starts no timer without statements. `EasterEggModal` checks only the trigger and the modal (script.js:133). Without `#easterClose`, `init` registers the trigger's click listener (script.js:140-151) and then throws at script.js:154, so the backdrop and Escape listeners (script.js:157-168) are never registered. The exception also leaves the `DOMContentLoaded` handler (script.js:582-615), so `KonamiCode`, `LogoInteraction` and `ContactDropdown`, which it constructs after the modal, never exist. The unchecked close button is an observation about the source; the model does not include this failure.
- Several components listen to the same keydown or click. The model keeps each component separate and does not dispatch one event to all of them.
- `classList`, `style` and `setAttribute` effects appear only as plain fields. These are `active`/`exit`, `isVisible`, `dropdownActive`, `ariaExpanded`, `modalVisible` and `bodyOverflow`.
- Timers carry no time. The 4000 ms rotation interval becomes calls to `Rotate`. The 800 ms exit clean-up becomes `ExitFinished`. The 500 ms and 2000 ms counter resets become `Timeout` events that may arrive at any point. So the model allows reset orders that real timing would rule out.
- Briefcase.LowerChar and Briefcase.Lower: handle ASCII letters only. Other characters whose case `toLowerCase` maps, and characters whose lowercase form has a different length, are not modelled. No flip depends on this gap. Under the Unicode case mappings, the only non-ASCII characters that lowercase to ASCII letters are the Kelvin sign (to `k`) and `İ` (to `i` followed by a combining dot). No character lowercases to `a` or `s` unless it is one of `A`, `a`, `S` or `s`.
- The briefcase following the mouse (script.js:109-114) is left out. It only writes pixel positions into styles.
- The pulse animation restart on logo clicks (script.js:475-478) is left out. It is a style write on a 10 ms timer.
- `activate` and `showMessage` are reduced to counters of their runs. They build DOM messages.
- `createConfetti` is left out. It uses `Math.random` and generates CSS.
- `HeroParallax` is left out. It does floating-point scroll arithmetic written into CSS strings.
- The IntersectionObserver reveal classes, `StatCardEffects`, `SmoothScroll` and `ProcessReveal` are left out. They are browser API plumbing.
- Console output and `window.hint` are left out.
