# Portfolio page behaviour, modelled in Dafny

This project models the stateful logic of the portfolio page's `script.js`, with the
browser abstracted away:

- **Smoke effect** (`Particles.SmokeEffect`). A first-in first-out list of live particles,
  capped at 80. A particle is created when the pointer moves more than 5 px. The oldest
  particle is evicted at the cap. Each particle's own timer removes it only if its element
  is still attached. A sweep drops every particle older than 2000 ms. An element is a unique
  id. The particle container's children are the set `attached`. The invariant
  `attached == Ids(particles)` records that the source always keeps the two in step.
- **Active navigation link** (`Nav.Navigation`). `updateActiveLink` clears every link and then
  marks the first link whose `data-section` matches. After any update at most one link is active.
- **Project accordion** (`Accordion.ProjectAccordion`). `toggleAccordion` is a one-of-N toggle
  plus the rule for button backgrounds. The Escape key closes every panel.
- **Contact form rules** (`ContactValidation`). Trimming uses JavaScript's whitespace set.
  Lengths count UTF-16 code units. The email regular expression
  `^[^\s@]+@[^\s@]+\.[^\s@]+$` is given both as a reference predicate and as a direct check,
  and the two are proved equivalent. `handleSubmit` validates every field and is valid iff
  all fields are.
- **Arrow-key stepping** (`Keyboard`). It finds the current section and its neighbour above
  or below.

Inputs the browser would supply become parameters: the time `now`, pointer coordinates,
each particle's animation duration, section bounding boxes, and field values. A spawn's
`setTimeout` request is returned as a `Timeout` value. Firing it is an explicit call to
`OnTimeout(id)`, and the periodic sweep is an explicit call to `Cleanup(now)`.

`Particles.PointerTrace` walks a short pointer trace as a client: a move from (0, 0) to
(10, 0) spawns a particle, and a further move to (10, 3) does not.

## Model

| member | source | states |
|---|---|---|
| Seqs.IndexOf | script.js:217 | the result is the first index holding the value, or the length when the value is absent (both directions) |
| Seqs.Filter | script.js:137-146 | `Array.prototype.filter`: the result is no longer than the input and every element in it passes the test |
| Seqs.FilterMembers | script.js:137-146 | an element is in the filtered list iff it was in the list and passes the test |
| Seqs.FilterConcat | script.js:137-146 | filtering distributes over concatenation, so the surviving entries keep their relative order |
| Particles.DistanceThreshold | script.js:64-70 | for the non-negative square root `d` of dx²+dy², `d > 5` iff dx²+dy² > 25, so the integer test matches the source's `Math.sqrt` test |
| Particles.ShouldSpawn | script.js:64-70 | the spawn test on the squared integer distance: dx²+dy² > 25 |
| Particles.Evict | script.js:125-132 | on a non-empty list, the first entry followed by the result is the old list; an empty list stays empty |
| Particles.Spawn | script.js:80-84 | the new entry is last; below the cap the length grows by one; at the cap it stays the same; it never exceeds 80 |
| Particles.RemoveById | script.js:119 | the timer's filter: no longer than the list, and no remaining entry carries the identity |
| Particles.Sweep | script.js:137-146 | the cleanup filter: no longer than the list, and every remaining entry is at most 2000 ms old |
| Particles.EvictEarliest | script.js:125-132 | when spawn timestamps are non-decreasing along the list, the entry evicted has the earliest timestamp |
| Particles.EvictNotEarliest | script.js:125-132 | with timestamps 10 then 5 (the clock went back), eviction drops the entry stamped 10, not the earliest one |
| Particles.SpawnKeepsTimeOrder | script.js:80-113 | a spawn stamped no earlier than every live entry keeps the timestamps non-decreasing |
| Particles.IncreasingFilter | script.js:119 | filtering keeps creation order and introduces no new identity |
| Particles.SweepMembers | script.js:135-147 | a particle survives `cleanup(now)` iff it was live and `now - timestamp <= 2000` |
| Particles.SweepAllYoung | script.js:139 | after a sweep, no remaining particle is older than 2000 ms |
| Particles.SweepConcat | script.js:137-146 | the sweep keeps the survivors in their original order |
| Particles.SweepIdempotent | script.js:135-147 | a second sweep at the same instant removes nothing |
| Particles.RemoveByIdAbsent | script.js:116-121 | filtering out an identity that is not in the list changes nothing (a particle already evicted or swept) |
| Particles.RemoveByIdPresent | script.js:116-121 | filtering out a live identity removes exactly that one entry, keeps the others in order and shortens the list by one |
| Particles.SpawnAllWindow | script.js:80-84 | after any run of spawns, the list is exactly the newest 80 of all entries pushed, oldest first (FIFO with a cap) |
| Particles.EightyOneSpawns | script.js:82-84 | 81 spawns into an empty list leave 80 particles and drop the first |
| Particles.TrackedEvict | script.js:125-132 | shifting off the first entry of a well-kept list and detaching its element keeps the list in creation order, under the cap and in step with the container's children |
| Particles.TrackedPush | script.js:108-113 | appending a particle with a fresh id below the cap adds exactly its element to the container and keeps the bookkeeping |
| Particles.TrackedRemove | script.js:116-121 | removing a live particle's entry and detaching its element shortens the list by one and keeps the bookkeeping |
| Particles.SweepDetach | script.js:135-147 | the filter with its detaching side effect: the result is the sweep of the list, every survivor is at most 2000 ms old, and exactly the survivors' elements stay attached |
| Particles.SmokeEffect.constructor | script.js:47-54 | no particles, nothing attached, both pointer positions at (0, 0) |
| Particles.SmokeEffect.OnMouseMove | script.js:59-73 | the last position becomes the previous position and the current one becomes the event's, always; a particle is spawned iff dx²+dy² > 25, with the next fresh id, which then advances; nothing else changes otherwise |
| Particles.SmokeEffect.CreateParticle | script.js:80-122 | the list becomes `Spawn` of the old list with a fresh identity stamped `now`, the container holds exactly the listed elements, and the removal timer for that identity is returned |
| Particles.SmokeEffect.RemoveOldestParticle | script.js:125-132 | the first entry is removed and its element detached; an empty list is left alone |
| Particles.SmokeEffect.OnTimeout | script.js:116-121 | if the element is still attached, exactly its entry is removed and it is detached; otherwise nothing changes |
| Particles.SmokeEffect.Cleanup | script.js:135-147 | the list becomes the sweep of the old list, every survivor is at most 2000 ms old and swept elements are detached |
| Nav.AtMostOneActive | script.js:212-222 | after an update, no two links are active |
| Nav.ActiveIsFirstMatch | script.js:217-219 | a link is active iff it is the first link whose `data-section` is the id |
| Nav.SomeActiveIffMatch | script.js:217-221 | some link is active iff some link's `data-section` is the id; otherwise none is |
| Nav.ActiveFlags | script.js:212-222 | one flag per link; the flag of the first link whose `data-section` is the id is set, no other |
| Nav.Navigation.constructor | script.js:152-157 | the link sections are fixed and the flags are the ones the markup starts with: the constructor changes none |
| Nav.Navigation.UpdateActiveLink | script.js:212-222 | the flags become exactly `ActiveFlags(sections, id)`: all cleared, then the first match set |
| Accordion.ToggleOpenCloses | script.js:542-552 | toggling an open panel leaves every panel closed |
| Accordion.ToggleClosedOpensOnly | script.js:542-552 | toggling a closed panel leaves exactly that panel open |
| Accordion.ButtonMatchesPanel | script.js:550-561 | a button gets the secondary gradient iff its panel was just opened; all the others get the tertiary one |
| Accordion.ToggleTwiceCloses | script.js:540-552 | clicking the same closed panel twice leaves every panel closed |
| Accordion.Toggled | script.js:542-552 | the panel flags after a toggle, one per panel: panel `index` open iff it was closed, every other panel closed |
| Accordion.Backgrounds | script.js:554-561 | one background per button: secondary for the button of the panel just opened, tertiary for all others |
| Accordion.ProjectAccordion.constructor | script.js:528-531 | the first panel, if any, is opened; every other panel keeps the flag the markup gives it; no button is styled |
| Accordion.ProjectAccordion.ToggleAccordion | script.js:540-562 | the panels become `Toggled` and the buttons `Backgrounds` of the old state; with no panel at the index, nothing changes |
| Accordion.ProjectAccordion.CloseAll | script.js:816-821 | every panel is closed and the button backgrounds are untouched |
| ContactValidation.Trim | script.js:371 | the result is no longer than the input and neither starts nor ends with whitespace |
| ContactValidation.TrimSplit | script.js:371 | the input is whitespace, then the trimmed value, then whitespace |
| ContactValidation.TrimUnique | script.js:371 | surrounding a trimmed string with whitespace and trimming gives it back |
| ContactValidation.TrimIdempotent | script.js:371 | trimming twice equals trimming once |
| ContactValidation.TrimPadding | script.js:371 | extra whitespace on either side does not change the trimmed value |
| ContactValidation.Utf16Length | script.js:378 | the length counts one or two code units per character |
| ContactValidation.Utf16Concat | script.js:378 | the code-unit count of a concatenation is the sum of the counts |
| ContactValidation.Utf16Bmp | script.js:378 | a string with no character beyond U+FFFF has one code unit per character |
| ContactValidation.Utf16Char | script.js:378 | a single character counts two code units iff it lies beyond U+FFFF |
| ContactValidation.EmojiNamePasses | script.js:377-381 | a name made of one emoji (two code units) passes the two-character rule |
| ContactValidation.IsSpace | script.js:371 | the characters `trim` removes and `\s` matches: JavaScript's WhiteSpace and LineTerminator code points |
| ContactValidation.MatchesEmailPattern | script.js:384-385 | the regular expression `^[^\s@]+@[^\s@]+\.[^\s@]+$` as a predicate: a split into local part, `@`, host, `.`, tail, each a non-empty run of `[^\s@]` |
| ContactValidation.IsEmail | script.js:384-385 | the direct check: split at the first `@`, both sides free of `@` and whitespace, a dot inside the domain; equivalent to the pattern by EmailMatchesPattern |
| ContactValidation.ValidateField | script.js:370-411 | the per-name rules on the trimmed value, with the source's error messages; only a name, email, subject or message field can be invalid |
| ContactValidation.EmailSound | script.js:384-385 | every string the direct check accepts matches the regular expression |
| ContactValidation.EmailComplete | script.js:384-385 | every split matching the regular expression is accepted by the direct check |
| ContactValidation.EmailMatchesPattern | script.js:384-385 | the direct check accepts a string iff the regular expression does |
| ContactValidation.EmailAtLeastFive | script.js:384-385 | an accepted email has at least five characters |
| ContactValidation.EmailFieldRule | script.js:383-389 | an email field is valid iff its trimmed value matches the regular expression |
| ContactValidation.PaddingIrrelevant | script.js:370-402 | surrounding whitespace never changes a field's verdict |
| ContactValidation.OtherNamesValid | script.js:376-402 | a field with any other name is always valid |
| ContactValidation.BlankFieldInvalid | script.js:376-401 | a name, email, subject or message field holding only whitespace is invalid |
| ContactValidation.HandleSubmit | script.js:442-455 | every field is validated, one verdict each; the form is valid iff all fields are |
| Keyboard.CurrentSection | script.js:827-833 | the first section whose box straddles the line at 100 px, or none |
| Keyboard.Straddles | script.js:829-830 | a section is current iff its top is at most 100 px and its bottom below 100 px |
| Keyboard.TargetIndex | script.js:834-841 | a defined target is a valid section index |
| Keyboard.UpStep | script.js:836-837 | ArrowUp moves one section back and is undefined only at the first section |
| Keyboard.DownStep | script.js:838-839 | ArrowDown moves one section on and is undefined only at the last section |
| Keyboard.UpUndoesDown | script.js:836-840 | a step down followed by a step up returns to the start, and the reverse holds too |
| Keyboard.ArrowTarget | script.js:824-848 | a target is the key's neighbour of the first straddling section: ArrowUp targets the section before it, ArrowDown the one after; a target exists whenever that neighbour does, and there is none without a straddling section |

## Left out

- Rendering: every `style.*` and `classList` effect other than the flags modelled, and the
  placement of particle elements. The particle's position and jitter, size, opacity and
  duration come from `Math.random` and floating point. The duration appears only as the
  delay in the returned `Timeout`.
- Real timers and the clock (`setTimeout`, `setInterval(…, 100)`, `Date.now`). Time is the
  `now` parameter. Firing a timer or the interval is an explicit call to `OnTimeout` or
  `Cleanup`.
- Pointer coordinates are integers. `clientX`/`clientY` can be fractional on some browsers.
- The `IntersectionObserver` gate `isIntersecting && intersectionRatio > 0.25`
  (script.js:185-195) and `updateUnderline`'s geometry (script.js:224-234): both are layout
  and floating point. Calling `UpdateActiveLink` stands for a gated observer callback.
- Nav.Navigation.UpdateActiveLink: the source's `querySelector('[data-section=…]')` searches
  the whole document. The model searches only the navigation links. The model also compares
  the id as a literal string. The source splices it into a CSS selector. An id containing `"`
  makes that selector throw a SyntaxError after every link was cleared. A `\` starts a CSS
  escape. Neither case is modelled.
- The navbar background on scroll (script.js:198-206), parallax, reveal animations, the
  splash screen, the CV download, the simulated send and its toast, lazy loading, preload
  links, memory monitoring and smooth scrolling. These are browser calls with no logic to
  verify.
- ContactValidation.HandleSubmit: the error and toast elements are not modelled. Showing or
  clearing a field's error is represented by the verdict returned for that field.
- Keyboard: `scrollIntoView` is left out. The model only returns the target index.
- Particles.Evict: eviction removes the first entry pushed, as `shift` does, not the one with
  the earliest timestamp. The two agree only while the clock never goes back between spawns
  (EvictEarliest, SpawnKeepsTimeOrder); EvictNotEarliest shows a list where they differ.
  The class invariant promises creation order (increasing ids), not timestamp order.
- The animation duration is `Math.random() * 800 + 1000`, a fractional number of ms. The
  model takes it as a whole-number parameter between 1000 and 1799.
- The initial `active` classes of the links and panels come from the page's markup. The
  constructors take them as parameters.
