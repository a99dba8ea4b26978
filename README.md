# Portfolio page interaction rules, in Dafny

The repository is the client-side script of a portfolio page, in two near-identical copies:
`js/script.js`, the copy with the particle field and the repeatable reveal, and `script.js`,
the copy without the particle field and with the one-shot reveal. This project models the
discrete decision rules inside its event handlers. Each DOM event becomes an input value:
a key name, a scroll offset, a section's box, a batch of intersection entries, a pointer
event. Each piece of state the handlers change in place becomes a class field:

- **Konami easter egg** (`Konami`): the keydown handler pushes the key onto `konamiCode`,
  keeps the last ten with `slice(-10)`, and fires when `konamiCode.join('')` equals the
  joined ten-key sequence. The buffer is not cleared after a match.
- **Active nav link** (`NavHighlight`): `updateActiveNavLink` probes at `scrollY + 150`.
  Every `section[id]` whose interval `[offsetTop, offsetTop + offsetHeight)` holds the probe
  clears `active` on every nav link and sets it on the links whose href is `#id`.
- **Navbar style** (`Navbar`): each scroll event adds `scrolled` when `scrollY > 100` and
  removes it otherwise.
- **Stats latch** (`StatsLatch`): `animateStats` does nothing once `hasAnimated` is set.
  It also returns without latching when there is no `.stats` section. Otherwise it latches
  and starts the counters when the section's box satisfies `top < innerHeight && bottom >= 0`.
- **Pointer presence** (`Pointer`, `js/script.js` only): `mousemove` stores both
  coordinates and `mouseout` sets both to null. The particle interaction pass is guarded by
  `mouse.x && mouse.y`, so a 0 coordinate counts as absent.
- **Scroll reveal** (`Reveal`): the two copies differ here. In `js/script.js` the callback
  keeps `animate-in` equal to each element's latest `isIntersecting`. In `script.js` it adds
  `fade-in` on an intersecting entry and unobserves that element.

The two copies share one model of each rule they have in common. The Konami, nav-link and
stats code is the same text in both copies. The navbar rule is identical at
js/script.js:247-253 and script.js:14-19. The model table cites one copy per row.

Modules: `Wrappers` (an `Option` type), `Konami`, `NavHighlight`, `Navbar`, `StatsLatch`,
`Pointer`, `Reveal`.

The host supplies these inputs:
- key names;
- `scrollY`;
- the sections' `offsetTop`, `offsetHeight` and `id`;
- the links' hrefs;
- the `.stats` section's bounding box (or its absence) and `innerHeight`;
- pointer coordinates;
- the entries of each intersection batch.

Each class stands for the objects a handler mutates; each method stands for one run of a
handler. Each method is proved against a pure function of the inputs and the old state.
The lemmas state the rule's properties about that function.

## Model

| member | source | states |
|---|---|---|
| `Konami.Last` | js/script.js:664 | for n > 0, `slice(-n)` keeps exactly the last min(length, n) elements, as a suffix of the input (the handler only uses n = 10) |
| `Konami.JoinAppend` | js/script.js:666 | `join('')` of a concatenation is the concatenation of the joins |
| `Konami.BufferIsLastKeys` | js/script.js:663-664 | after any keys, the buffer equals the last min(10, n) keys pressed, oldest first, and never holds more than 10 |
| `Konami.FiresIff` | script.js:430 | (same code as js/script.js:666) the easter egg fires exactly when the last min(10, n) keys, joined, equal the joined sequence |
| `Konami.FiresAfterSequence` | js/script.js:660-669 | typing the ten keys after any history fills the buffer with exactly the sequence, so the easter egg fires |
| `Konami.NotClearedAfterMatch` | script.js:426-434 | (same code as js/script.js:662-670) a match does not clear the buffer: the next key is appended to the last nine keys of the sequence |
| `Konami.JoinGrouped` | js/script.js:666 | grouping ten keys into four runs of adjacent keys, each one key named by the run's concatenation, leaves the joined text unchanged |
| `Konami.MatchWithoutSequence` | js/script.js:666 | a four-key buffer that is not the sequence still fires, so buffer equality is sufficient but not necessary |
| `Konami.SequenceKeysPrefixFree` | js/script.js:660 | none of the six key names in the sequence is a proper prefix of another |
| `Konami.JoinInjective` | js/script.js:666 | over the sequence's own six key names, buffers with equal joins are equal |
| `Konami.MatchIsSequenceForSequenceKeys` | script.js:424-430 | when every buffered key is one of the sequence's six names, a match holds iff the buffer equals the sequence |
| `Konami.KeyBuffer.constructor` | js/script.js:659 | the buffer starts empty with no keys recorded |
| `Konami.KeyBuffer.KeyDown` | js/script.js:662-670 | one keydown pushes the key and keeps the last 10; the buffer equals the last min(10, n) keys pressed; the result is true iff the joined buffer equals the joined sequence |
| `NavHighlight.LastMatch` | js/script.js:305-312 | none iff no section holds the probe in [top, top + height); otherwise the id of a section that holds it |
| `NavHighlight.Highlight` | js/script.js:313-318 | one active flag per link; which flags are set is stated by `LastMatchWins` |
| `NavHighlight.LastMatchIsLast` | js/script.js:307-320 | the last matching section in document order decides the result, whatever matched before it |
| `NavHighlight.LastMatchWins` | js/script.js:303-321 | when some section holds `scrollY + 150`, afterwards exactly the links with href `#` + id of the last such section are active and all others are inactive |
| `NavHighlight.NoMatchKeepsFlags` | script.js:79-86 | when no section holds `scrollY + 150`, every link keeps its active flag |
| `NavHighlight.TiledOrdered` | script.js:75-79 | in a layout of back-to-back sections of positive height, each later section starts at or after the end of an earlier one |
| `NavHighlight.TiledAtMostOneMatch` | script.js:79 | in such a layout at most one section holds the probe, so "last match wins" selects the only match |
| `NavHighlight.NavMenu.constructor` | script.js:12 | the links' hrefs and initial active flags are as given |
| `NavHighlight.NavMenu.UpdateActiveNavLink` | script.js:70-88 | (same code as js/script.js:303-321) the nested loops leave the flags equal to the specification: unchanged when no section matches, otherwise the highlight of the last matching section |
| `Navbar.ScrolledReflectsLastEvent` | script.js:14-19 | after any non-empty run of scroll events the navbar has `scrolled` iff the latest `scrollY` exceeds 100; its other classes never change |
| `Navbar.NavbarElement.constructor` | script.js:11 | the navbar starts with the class list it was given |
| `Navbar.NavbarElement.OnScroll` | script.js:14-19 | (same code as js/script.js:247-253) after the event the navbar has `scrolled` iff `scrollY > 100`, and its other classes are unchanged |
| `StatsLatch.RunsAtMostOnce` | js/script.js:412-424 | over any run of calls the counting body runs at most once, never once latched, and exactly once iff the latch starts open and some call finds the section visible (`top < innerHeight` and `bottom >= 0`); the latch ends set exactly then or if it started set |
| `StatsLatch.MissingSectionDoesNotLatch` | script.js:181-182 | a call that finds no `.stats` section changes neither the latch nor the run count |
| `StatsLatch.StatsCounter.constructor` | script.js:176 | `hasAnimated` starts false, with no runs |
| `StatsLatch.StatsCounter.AnimateStats` | script.js:178-188 | (same code as js/script.js:414-424) a call starts the counters iff the latch was open, the section exists and it is visible; the latch is set exactly then; the body has run at most once in total |
| `Pointer.InteractionFollowsLastEvent` | js/script.js:64-97 | both coordinates are present together or absent together; the interaction pass runs iff the latest pointer event is a move with both coordinates non-zero |
| `Pointer.OutIsLikeInitial` | js/script.js:69-72 | after `mouseout` the record equals its initial all-null state, and no interaction pass runs |
| `Pointer.ZeroCoordinateSkips` | js/script.js:97 | a move to a 0 coordinate on either axis skips the interaction pass (truthiness) |
| `Pointer.Mouse.constructor` | js/script.js:58-62 | both coordinates start null, with radius 150 |
| `Pointer.Mouse.OnMouseMove` | js/script.js:64-67 | both coordinates are set to the event's |
| `Pointer.Mouse.OnMouseOut` | js/script.js:69-72 | both coordinates are set to null |
| `Pointer.Mouse.InteractionGuard` | js/script.js:97 | the guard holds iff the latest pointer event was a move with both coordinates non-zero |
| `Reveal.RepeatableFollowsLatest` | js/script.js:351-358 | after a batch an element has `animate-in` iff its most recent entry was intersecting; an element with no entry keeps its state |
| `Reveal.RepeatableObserver.constructor` | js/script.js:366-368 | observing adds no class: the elements with `animate-in` are those whose markup already has it |
| `Reveal.RepeatableObserver.OnEntries` | js/script.js:350-359 | the callback leaves `animate-in` as the specification of the batch says |
| `Reveal.OneShotEffect` | script.js:116-122 | the callback adds `fade-in` to exactly the elements with an intersecting entry, never removes it, unobserves exactly those elements, and keeps revealed and observed elements disjoint |
| `Reveal.OneShotPreserves` | script.js:116-122 | the callback never removes `fade-in` from any element, and revealed and observed elements stay disjoint if they started so |
| `Reveal.Deliver` | script.js:120 | an entry is delivered to the callback iff it is in the batch and its target is still observed; a batch whose targets are all observed is delivered whole, in order |
| `Reveal.UnobservedIsFrozen` | script.js:120 | over any later batches, an unobserved element is never observed again and its `fade-in` never changes |
| `Reveal.OneShotObserver.constructor` | script.js:130-132 | every element of the list is observed; observing adds no class, so the elements with `fade-in` are those whose markup already has it |
| `Reveal.OneShotObserver.OnEntries` | script.js:116-123 | the callback leaves the state as the specification of the batch says; `fade-in` only grows; revealed and observed elements stay disjoint if they started so |

## Left out

- Particle field (js/script.js:11-145): floating-point positions, `Math.random`, square roots, `atan2`, `cos`/`sin`, canvas drawing and the `requestAnimationFrame` loop. Only the pointer-presence guard of `connectToMouse` is modelled. The pass it guards (links, repulsion, glow) is not.
- Cursor easing (js/script.js:160-198): a floating-point interpolation written to style strings on every animation frame.
- Counter ticking in `animateStats` (js/script.js:430-443, script.js:194-207): `setInterval`, floating-point increments, `parseFloat` and `toFixed`. Only the latch and the decision to start are modelled.
- `debounce` (js/script.js:636-654, script.js:400-418): timer and closure plumbing. What the debounced scroll listener runs, `updateActiveNavLink` and `animateStats`, is modelled; the parallax scroll listener is not (see below).
- Clipboard copy and `showNotification`: browser APIs, styling and timeouts. A Konami match is modelled as the `true` result of `KeyDown`. The notification and the `rainbow` body animation it triggers are not modelled.
- Smooth scrolling, the hamburger menu, the parallax transform, hover, click and skill-tag effects, and the keyframe style injection: DOM wrappers with no decision logic.
- The typing effect and the back-to-top button: both are switched off by constant `false` flags.
- The service-worker stub (commented out), `preloadImages` and the external-link `rel` handler: DOM or foreign calls.
- How the browser computes `isIntersecting` (the observers' `threshold` and `rootMargin`): each entry's flag is an input. The browser's rule that an unobserved element gets no entries is modelled by `Reveal.Deliver`.
- The event loop: key, scroll, pointer and intersection events arrive as input sequences, one handler run at a time.
- NavHighlight.NavMenu.UpdateActiveNavLink: `scrollY` is fractional in browsers. The model uses integers for it and for the section offsets, which the DOM rounds to integers.
- Navbar.NavbarElement.OnScroll: `scrollY` is fractional in browsers; the model uses an integer, so a position such as 100.5, which already adds `scrolled`, cannot be expressed. The `#navbar` element is assumed to exist: `getElementById` can return null, and on a page without it every scroll event throws at `navbar.classList` before the listener reaches its `updateActiveNavLink()` call (script.js:14-22, js/script.js:247-255).
- In js/script.js every modelled listener is attached only after `canvas.getContext('2d')` (js/script.js:11-12) has run. On a page without `#background-canvas` that call throws, so none of the listeners exist. The model assumes the canvas exists.
- StatsLatch.StatsCounter.AnimateStats: the bounding box and `innerHeight` are modelled as integers, while the browser reports the box with fractional coordinates.
- Pointer.Mouse.OnMouseMove: coordinates are integers, so the falsy `NaN` case of the truthiness guard does not arise.
- The classes a handler does not touch (other classes on the links, the sections and the observed elements) are not represented, except on the navbar.
