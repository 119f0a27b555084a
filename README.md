# Praana Ayurveda site script, modelled in Dafny

The site's only script, `js/main.js`, wires browser events to presentation
flags. With the document abstracted away, four pieces of state remain, and
each is modelled here.

- **Scroll reveal** (`reveal.dfy`, module `Reveal`). A fixed collection of
  `.reveal` elements each carries a one-way `active` flag. At start-up the
  script picks one of two strategies. Under the intersection observer,
  every element is observed. An intersecting entry reveals its element and
  unobserves it. Under the polling fallback, the scroll listener reveals
  every element whose top edge lies above `innerHeight - 100`, and one such
  pass also runs at start-up. The page-load handler runs the polling pass
  under both strategies. The class `Revealer` holds the flags in an array
  and the observed set in a field. Its methods are proved against `Step`,
  and `RunEffect` states exactly when an element is active after any
  sequence of scroll, load and observer events.
- **Active nav link** (`navigation.dfy`, class `NavBar`). On scroll, the
  nested loop over sections and links moves `active` to the link whose href
  is `#` plus the id of the section containing `pageYOffset + 150`.
  When several sections contain that point, the last one wins. When none
  does, the flags stay as they were.
- **Smooth-scroll target** (`navigation.dfy`, `ScrollTarget`). This is
  where a click on a nav link scrolls the page.
- **Menu, sticky header and keyboard focus** (`chrome.dfy`, class
  `PageChrome`). These are the three menu flags, the header's `scrolled`
  flag with `lastScroll`, and the body's `keyboard-navigation` flag.

Page geometry (`pageYOffset`, `innerHeight`, bounding tops, `offsetTop`,
`offsetHeight`) is given as integers, passed in as measured when the event
fires. Reveal elements are identified by their position in document order.
The reveal strategy is a constructor parameter.

The observer strategy does not on its own decide which elements are
revealed. An element that never intersects can still be revealed, because
the load handler (`js/main.js:162-164`) runs the polling pass whatever the strategy.
So an element inside the viewport at load time is revealed without any
intersecting entry. `LoadRevealsUnderObserver` exhibits this, and
`RunEffect` counts load events among the ways an element is revealed under
both strategies.

The smooth-scroll offset and the highlighter's selection offset are
independent. A nav-link click scrolls to the section's top less the header
height, while the highlighter selects the section containing the scroll
offset plus 150. With a header taller than 150 pixels, the page comes to
rest above the clicked section, and an earlier section's link is
highlighted. `TallHeaderHighlightsEarlierSection` shows one such case, and
`ClickThenHighlight` states when the clicked link is the one highlighted.

## Model

| member | source | states |
|---|---|---|
| `Reveal.Indices` | js/main.js:150-152 | the set registered with the observer holds exactly the positions of the elements |
| `Reveal.InRevealZone` | js/main.js:128 | the polling test: an element's top edge lies above `windowHeight - 100` |
| `Reveal.Polled` | js/main.js:121-132 | one polling pass over all elements keeps one flag per element and never clears a flag; `PollingIsAddOnly` gives its exact effect |
| `Reveal.Init` | js/main.js:135-157 | under the observer every flag is off and every element is observed; under the fallback a flag is on iff its element is in the reveal zone, and nothing is observed |
| `Reveal.Deliver` | js/main.js:143-146 | handling one entry keeps one flag per element |
| `Reveal.Callback` | js/main.js:141-148 | the callback over a batch of entries keeps one flag per element |
| `Reveal.Step` | js/main.js:141-164 | every scroll, load or observer event keeps one flag per element |
| `Reveal.Run` | js/main.js:121-164 | a sequence of events keeps one flag per element |
| `Reveal.PollingIsAddOnly` | js/main.js:121-132 | a polling pass sets every element whose top is above `windowHeight - 100`, leaves every other flag as it was, and never clears a flag |
| `Reveal.PollingIdempotent` | js/main.js:125-131 | a second polling pass with the same geometry changes nothing |
| `Reveal.CallbackEffect` | js/main.js:141-148 | after a callback, an element is active iff it was active or some entry reports it intersecting; exactly the intersecting elements leave the observed set |
| `Reveal.CallbackMonotone` | js/main.js:141-148 | the callback never clears a flag and never grows the observed set |
| `Reveal.CallbackNonIntersectingNoChange` | js/main.js:143 | a batch without intersecting entries changes neither flags nor the observed set |
| `Reveal.CallbackIdempotent` | js/main.js:141-148 | delivering the same batch twice changes nothing the second time |
| `Reveal.RepeatedEntryNoChange` | js/main.js:143-146 | under the coordinator's invariant, a repeated intersecting entry for an element the observer no longer watches changes nothing |
| `Reveal.StepEffect` | js/main.js:121-164 | after one event an element is active iff it was, or the event reveals it (a polling scroll or a load with its top in the zone, or an intersecting entry) |
| `Reveal.StepObserved` | js/main.js:141-164 | only observer events change the observed set, and only by removing their intersecting elements |
| `Reveal.StepKeepsCovered` | js/main.js:135-164 | every event keeps the invariant: under the observer each element is revealed or still observed; under polling nothing is observed |
| `Reveal.RunEffect` | js/main.js:121-164 | after any sequence of events, an element is active iff it was active or some event reveals it: no path clears a flag, and an element no event reveals stays hidden |
| `Reveal.RunKeepsCovered` | js/main.js:135-164 | over any sequence of events the observed set only shrinks and the invariant holds |
| `Reveal.InitCovered` | js/main.js:135-157 | start-up establishes the invariant under both strategies |
| `Reveal.EmptyCollectionIdle` | js/main.js:121-164 | with no reveal elements, start-up registers nothing and no event changes the state |
| `Reveal.LoadRevealsUnderObserver` | js/main.js:162-164 | under the observer, a load event alone reveals an element inside the initial viewport and leaves it observed |
| `Reveal.Revealer.constructor` | js/main.js:135-157 | the new coordinator's state is `Init` of its strategy and geometry, and the invariant holds |
| `Reveal.Revealer.RevealCheck` | js/main.js:121-132 | the array of flags after the loop is the polling pass applied to the flags before it |
| `Reveal.Revealer.OnScroll` | js/main.js:153-156 | the scroll event polls under the fallback, does nothing under the observer, and keeps the invariant |
| `Reveal.Revealer.OnLoad` | js/main.js:162-164 | the load event polls under either strategy and keeps the invariant |
| `Reveal.Revealer.OnIntersect` | js/main.js:141-148 | the callback loop leaves flags and observed set as `Callback` of the old state and keeps the invariant |
| `Navigation.Contains` | js/main.js:105 | the half-open range test: the selection point lies in `[top, top + height)` |
| `Navigation.MarkFor` | js/main.js:106-111 | the inner link loop's result keeps one flag per link: a link is active iff its href is `#` plus the section id |
| `Navigation.Highlight` | js/main.js:97-114 | the sections loop keeps one flag per link |
| `Navigation.HighlightLastMatchWins` | js/main.js:98-113 | if some section contains `scrollY + 150`, a link ends up active iff its href is `#` plus the id of the last such section |
| `Navigation.HighlightNoMatch` | js/main.js:100-113 | if no section contains `scrollY + 150`, every link keeps its flag |
| `Navigation.NavBar.constructor` | js/main.js:9 | the nav links keep their hrefs and start with the flags the markup gives them |
| `Navigation.NavBar.HighlightOnScroll` | js/main.js:97-116 | the nested loops leave the link flags equal to `Highlight` of the old flags |
| `Navigation.ScrollTarget` | js/main.js:53-69 | `#home` scrolls to 0; otherwise a target exists iff the section was found, and it lies the header height above the section's top |
| `Navigation.ClickThenHighlight` | js/main.js:53-113 | once the page rests where a nav-link click scrolled it, the highlighter marks that link, given a header no taller than 150, a section reaching past the selection point, and no later section containing it |
| `Navigation.TallHeaderHighlightsEarlierSection` | js/main.js:53-113 | with a 200-pixel header, a click on `#about` (top 300) scrolls to 100, and the highlighter then marks `#home`, not `#about` |
| `Chrome.MenuStep` | js/main.js:16-44 | one click keeps the three menu flags equal, and a nav-link click or an outside click closes the menu |
| `Chrome.RunMenu` | js/main.js:16-44 | a sequence of clicks keeps the three menu flags equal |
| `Chrome.LastClose` | js/main.js:29-44 | the index just past the last closing click (a nav-link click or an outside click): the click before it closes the menu and no later click does |
| `Chrome.HamburgerTwiceRestores` | js/main.js:16-25 | two hamburger clicks restore a consistent menu |
| `Chrome.ClickInsideNoChange` | js/main.js:38-44 | a document click whose target is inside the menu or the hamburger changes nothing |
| `Chrome.MenuStepKeepsSynced` | js/main.js:16-44 | every click keeps hamburger-active, menu-active and overflow-hidden equal |
| `Chrome.MenuAfterClicks` | js/main.js:16-44 | from a closed menu, after any clicks the three flags agree, and the menu is open iff an odd number of hamburger clicks followed the last closing click |
| `Chrome.PageChrome.constructor` | js/main.js:77 | the page starts with the menu closed (so the menu invariant holds), no `scrolled` header, `lastScroll` 0 and no keyboard styling |
| `Chrome.PageChrome.OnHamburgerClick` | js/main.js:16-26 | toggles hamburger and menu, and hides body overflow iff the menu is now open; keeps the three flags equal; header and keyboard flags unchanged |
| `Chrome.PageChrome.OnNavLinkClick` | js/main.js:29-35 | closes the menu and frees body overflow; keeps the three flags equal; header and keyboard flags unchanged |
| `Chrome.PageChrome.OnDocumentClick` | js/main.js:38-44 | closes the menu unless the target is inside the menu or the hamburger; keeps the three flags equal |
| `Chrome.PageChrome.OnScroll` | js/main.js:79-90 | the header is `scrolled` iff the offset exceeds 100, and `lastScroll` is the offset; the menu is unchanged |
| `Chrome.PageChrome.OnKeyDown` | js/main.js:209-213 | Tab switches keyboard styling on; any other key leaves it as it was |
| `Chrome.PageChrome.OnMouseDown` | js/main.js:215-217 | a mouse press switches keyboard styling off |

## Left out

- Intersection geometry (threshold 0.1, bottom root margin of -100px, `js/main.js:136-139`) is computed by the browser. Each entry's `isIntersecting` is an input.
- Geometry is floating-point in the browser and integer here.
- Capability detection for `IntersectionObserver` and for native lazy loading is not modelled. The reveal strategy is a constructor parameter.
- `window.scrollTo` and its smooth animation are not modelled. `ScrollTarget` returns the target offset, and `ClickThenHighlight` assumes the page comes to rest exactly there, with no clamping at the end of the document.
- `document.querySelector` is an input to `ScrollTarget`: the offset of the element found, or none. The exception it throws for an href that is not a valid selector is not modelled.
- `preventDefault`, event bubbling, dispatch order and listener registration are left out. Each handler is a separate method, and a document click carries whether its target lies inside the menu or the hamburger.
- Lazy-image `src` assignment and the CDN script injection (`js/main.js:222-232`) load foreign resources and are left out.
- `preventHorizontalScroll` (`js/main.js:193-203`) only writes a console warning, so it is left out.
- WhatsApp and phone click tracking (`js/main.js:169-188`) and the console banner (`js/main.js:237-245`) only log, so they are left out.
- Initial flags come from the page markup. Reveal elements start hidden, and nav-link flags are a constructor argument.
- Reveal elements never enter or leave the collection after start-up. Intersection entries name one of them.
