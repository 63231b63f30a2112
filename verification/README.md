# Portfolio site behaviour, modelled in Dafny

This project models the client-side behaviour of a static portfolio site, as
written in three scripts: `assets/js/portfolio-filter.js`, `assets/js/main.js`
and `assets/js/enhanced-interactions.js`. Only the handlers with a behaviour
that can be stated are modelled. These handlers update elements in place:

- **Portfolio category filter** (`portfolio_filter.dfy`, module `PortfolioFilter`).
  - Each filter button is a `Button` record in an `array`, and each portfolio
    item is an `Item` record in an `array`. Both arrays are held by the class
    `FilterGrid`.
  - A click on button `i` clears `filter-active` on every button and sets it on
    button `i`.
  - It then shows every item whose class list contains the button's
    `data-filter` value with its first `.` removed. The value `*` shows every
    item. A shown item gets `display: block; opacity: 1`. Every other item gets
    `display: none; opacity: 0`.
  - The rule is attached three times: two initializations in
    portfolio-filter.js and one fallback in main.js. The model counts how many
    handlers each button holds and follows the `data-filter-initialized` guard.
    It proves that running the handlers one after another has the same effect
    as running one.
- **main.js** (`main_script.dfy`, module `MainScript`).
  - The fallback filter handler and the button part of the two Isotope handlers,
    both on the shared `FilterGrid`.
  - The nav highlighter: a link is active iff `scrollY + 200` lies in the closed
    interval of its target section.
  - The fixed header and the back-to-top button, both decided by scroll
    thresholds.
  - The `bi-list`/`bi-x` mobile-nav toggle, together with main.js's own
    handlers for the body's `mobile-nav-open` class.
  - The rotating hero text, whose index cycles modulo 4.
- **enhanced-interactions.js** (`enhanced_interactions.dfy`, module `EnhancedInteractions`).
  - The scroll-spy: the section test is half-open, and the last matching section
    decides which links are active.
  - The mobile menu. The toggle flips nav `active`, overlay `active` and body
    `mobile-nav-open` together, and the icon follows the nav. An overlay click
    or a menu-link click closes all three.
  - The per-element hue counter, modulo 360.
  - The `keyboard-navigation` flag: a Tab keydown sets it and a mousedown
    clears it.
- `cyclic.dfy` (module `Cyclic`) is the modular counter shared by the text index
  and the hue. `wrappers.dfy` holds `Option`. An attribute that `getAttribute`
  returns as `null` is `None`.

Browser positions (`scrollY`, `offsetTop`, `offsetHeight`) are modelled as
integers. DOM queries are parameters:

- What `querySelector(link.hash)` gives is an entry in a `map<string, Lookup>`:
  the element found, or a SyntaxError for a hash that is not a valid selector.
  A hash the map lacks finds nothing.
- The sections `querySelectorAll('section')` finds are a `seq<Section>`.

Timers only decide *when* a handler body runs, so the model keeps the bodies.
`changeText` is split into its immediate fade-out (`ChangeText`) and its
deferred body (`ShowNext`).

Three consequences of the code are worth spelling out:

- Selection is by button index. `this.classList.add` marks the clicked button,
  so of two buttons with the same `data-filter` only the clicked one becomes
  active (`Selected`).
- No initialization touches the item styles before the first click, so the
  constructor of `FilterGrid` leaves them as given.
- The filter value names a class once its first `.` is removed. So `.web` and
  `web` select the same items (`LeadingDotOptional`), and the value `.` hides
  every item (`DotAloneHidesAll`).

## Model

| member | source | states |
|---|---|---|
| `PortfolioFilter.StripFirstDot` | assets/js/portfolio-filter.js:48 | A value without a dot comes back unchanged; a value with dots loses exactly one character. |
| `PortfolioFilter.StripFirstDotRemovesFirst` | assets/js/main.js:597 | The character removed is the first `.`: the result is the text before it followed by the text after it, so later dots survive. |
| `PortfolioFilter.Visible` | assets/js/portfolio-filter.js:41-50 | The value `*` shows every item; a value without a dot shows exactly the items holding that class; a value starting with `.` shows exactly the items holding the class named by the rest. |
| `PortfolioFilter.Filtered` | assets/js/portfolio-filter.js:40-62 | After a filter pass an item has display `block` iff the filter is `*` or its class list holds the filter with its first `.` removed; each item is either (`block`, `1`) or (`none`, `0`); class lists are untouched. |
| `PortfolioFilter.Selected` | assets/js/portfolio-filter.js:30-36 | After selecting button i, button j has `filter-active` iff j = i; every other attribute of every button is unchanged. |
| `PortfolioFilter.AllWithListener` | assets/js/portfolio-filter.js:92-95 | An initialization pass gives every button exactly one more handler and sets `data-filter-initialized` only when asked to; filter values and active flags are untouched. |
| `PortfolioFilter.FilteredIdempotent` | assets/js/portfolio-filter.js:108-122 | Filtering twice with the same value gives the same items as filtering once. |
| `PortfolioFilter.SelectedIdempotent` | assets/js/portfolio-filter.js:101-105 | Selecting the same button twice gives the same buttons as selecting it once. |
| `PortfolioFilter.WildcardShowsAll` | assets/js/portfolio-filter.js:41-45 | The value `*` leaves every item with display `block` and opacity `1`, whatever it showed before. |
| `PortfolioFilter.FilteredForgetsPriorStyle` | assets/js/portfolio-filter.js:50-59 | The result of a filter pass depends only on the filter and the class lists, not on the previous styles. |
| `PortfolioFilter.LeadingDotOptional` | assets/js/portfolio-filter.js:113 | For a name without dots, `.name` and `name` both strip to `name`. |
| `PortfolioFilter.DotAloneHidesAll` | assets/js/portfolio-filter.js:113-119 | The value `.` strips to the empty class name, which no well-formed class list (no empty token, no token with whitespace) holds, so every item is hidden. |
| `PortfolioFilter.FilterGrid.constructor` | assets/js/portfolio-filter.js:9-10 | The grid holds the button list and the item list exactly as found. |
| `PortfolioFilter.FilterGrid.Attach` | assets/js/portfolio-filter.js:20-22 | Handlers are attached iff both lists are non-empty; if so every button gains one handler and no button is marked initialized. |
| `PortfolioFilter.FilterGrid.AlreadyInitialized` | assets/js/portfolio-filter.js:83-88 | Returns true iff some button carries `data-filter-initialized`. |
| `PortfolioFilter.FilterGrid.AttachBackup` | assets/js/portfolio-filter.js:81-95 | Attaches iff both lists are non-empty and no button is marked; then every button gains one handler and afterwards every button is marked. |
| `PortfolioFilter.FilterGrid.AddListeners` | assets/js/portfolio-filter.js:92-95 | The buttons become `AllWithListener(old buttons, mark)`: one more handler on every button, and `data-filter-initialized` set on all of them when `mark` is true. |
| `PortfolioFilter.FilterGrid.MarkActive` | assets/js/portfolio-filter.js:101-105 | The buttons become `Selected(old buttons, i)`: button i is the only one with `filter-active`. |
| `PortfolioFilter.FilterGrid.ApplyFilter` | assets/js/portfolio-filter.js:108-122 | The items become `Filtered(filter, old items)`. |
| `PortfolioFilter.FilterGrid.Click` | assets/js/portfolio-filter.js:21-63 | With button i's `data-filter` present: button i becomes the only active button and the items are filtered by its value. |
| `PortfolioFilter.FilterGrid.DispatchClick` | assets/js/portfolio-filter.js:84-123 | Running all of button i's handlers in turn equals running one, and changes nothing when the button has none. |
| `MainScript.FallbackAttach` | assets/js/main.js:575-577 | The fallback attaches iff both lists are non-empty, one more handler per button, without marking. |
| `MainScript.FallbackClick` | assets/js/main.js:577-609 | The fallback click applies the same rule as the portfolio-filter.js handlers: exclusive `filter-active` and the same visibility rule. |
| `MainScript.IsotopeClick` | assets/js/main.js:543-552 | Button i becomes the only button with `filter-active`. Item styles are not modelled (Isotope's `arrange` is left out). The Isotope handler at main.js:199-204 does the same. |
| `MainScript.LoadThenClick` | assets/js/main.js:576-609 | From unmarked buttons without handlers, the two portfolio-filter.js initializations and the main.js fallback leave every button with three handlers and marked; a click on button i then makes it the only active button and filters the items once by its value. |
| `MainScript.Reached` | assets/js/main.js:48-51 | The pass gets through exactly the links before the first one whose hash is an invalid selector (all links when there is none): none of those throws, and the link at that index does. |
| `MainScript.NavUpdated` | assets/js/main.js:48-56 | A link the pass reaches keeps its hash; without a hash or target element it is unchanged; otherwise it is active iff `scrollY + 200` lies in its target's closed interval. |
| `MainScript.NavbarLinksActive` | assets/js/main.js:46-58 | Each link before the first throwing lookup becomes `NavUpdated` of itself: untouched without a hash or target element, otherwise active iff `scrollY + 200` lies in [offsetTop, offsetTop + offsetHeight] of its target. That link and every later one keep their classes, and the pass completes iff no lookup throws. |
| `MainScript.BoundaryActivatesBoth` | assets/js/main.js:52-53 | When one target ends exactly where the next begins and `scrollY + 200` is that boundary, the highlighter marks both links active. |
| `MainScript.Header.constructor` | assets/js/main.js:95-98 | The header offset is captured once, together with whether a next sibling exists. |
| `MainScript.Header.HeaderFixed` | assets/js/main.js:99-107 | `header-top` is set iff headerOffset − scrollY ≤ 0. When a next sibling exists, its `scrolled-offset` equals `header-top`, so both are set or cleared together. |
| `MainScript.Header.ScrollLinkClick` | assets/js/main.js:65-79 | A click on a link whose target exists removes `header-top` and schedules its restore iff it was present; `scrolled-offset` is left alone, so a synced header with a next sibling is out of sync afterwards. The `.scrollto` handler at main.js:158-172 does the same. |
| `MainScript.Header.RestoreHeaderTop` | assets/js/main.js:71-73 | The scheduled callback adds `header-top` back and leaves `scrolled-offset` alone. |
| `MainScript.BackToTop.ToggleBacktotop` | assets/js/main.js:117-123 | The button is `active` iff scrollY is more than 100. |
| `MainScript.Flipped` | assets/js/main.js:140-142 | A toggle click flips `mobile-nav-active`, `bi-list` and `bi-x`. Exactly one icon class is present after the click iff exactly one was present before. |
| `MainScript.FlippedTwice` | assets/js/main.js:139-143 | Two toggle clicks restore the original classes. |
| `MainScript.MobileNavToggle.Click` | assets/js/main.js:139-143 | With a `#header`, the classes become `Flipped` of the old ones, which keeps the one-icon invariant; without one the first handler throws and they are unchanged. The second handler (main.js:455-457) flips the body's `mobile-nav-open` either way, so with a header a body in step with it stays in step. |
| `MainScript.MobileNavToggle.NavLinkClick` | assets/js/main.js:461-466 | A `.nav-menu` link click clears the body's `mobile-nav-open` and leaves `mobile-nav-active` and the icon classes set, so an open menu leaves the body out of step with the header. |
| `MainScript.AnimatedText.constructor` | assets/js/main.js:370-371 | The text index starts at 0. |
| `MainScript.AnimatedText.ChangeText` | assets/js/main.js:373-374 | The fade-out sets opacity `0` and leaves text and index alone. |
| `MainScript.AnimatedText.ShowNext` | assets/js/main.js:375-379 | Shows `texts[textIndex]` with opacity `1`, then advances the index by one modulo 4. The index stays in [0, 4). |
| `MainScript.TextsCycleInOrder` | assets/js/main.js:370-382 | Run n of `ShowNext` (counting from 0) shows `texts[n % 4]`. |
| `Cyclic.Next` | assets/js/main.js:378 | A step of a period-m counter stays below m, adds one below the top and wraps to 0 at the top. |
| `Cyclic.IterateClosedForm` | assets/js/enhanced-interactions.js:128 | After n steps from i < m the counter holds (i + n) mod m. |
| `Cyclic.IteratePeriodic` | assets/js/enhanced-interactions.js:127-130 | m further steps return the counter to the same value. |
| `EnhancedInteractions.HrefFor` | assets/js/enhanced-interactions.js:185-190 | The marking href is `#` followed by the section id, or by `null` when the id attribute is missing. |
| `EnhancedInteractions.LastMatch` | assets/js/enhanced-interactions.js:182-187 | Returns the last section whose half-open interval [top, top + height) holds the position, and None iff no section does. |
| `EnhancedInteractions.Highlighted` | assets/js/enhanced-interactions.js:188-193 | After one matching section's pass a link is active iff its href equals the target. Hrefs are unchanged. |
| `EnhancedInteractions.Spied` | assets/js/enhanced-interactions.js:182-195 | A whole pass keeps every href; with no section holding the position the links are unchanged; otherwise a link is active iff its href is `#` + id of the last section holding it. |
| `EnhancedInteractions.HighlightedOverrides` | assets/js/enhanced-interactions.js:182-195 | A later matching section's pass fully overrides an earlier one. |
| `EnhancedInteractions.SpiedMarksLastMatch` | assets/js/enhanced-interactions.js:180-195 | If section m matches and no later section does, exactly the links whose href is `#` + id of section m end up active. |
| `EnhancedInteractions.HighlightLinks` | assets/js/enhanced-interactions.js:188-193 | The links become `Highlighted(old links, target)`. |
| `EnhancedInteractions.UpdateActiveNav` | assets/js/enhanced-interactions.js:178-196 | The links become those of the last matching section's pass, and are unchanged when no section matches. |
| `EnhancedInteractions.Toggled` | assets/js/enhanced-interactions.js:334-346 | Flips nav, overlay and body classes. When the toggle has an `<i>` child its class becomes `bx bx-x` iff the nav is active; without one the icon stays absent (the handler throws after the flip). If the three classes agreed before, they agree after and match the icon. |
| `EnhancedInteractions.ToggledTwice` | assets/js/enhanced-interactions.js:335-345 | From a synced state, two toggle clicks restore it exactly. |
| `EnhancedInteractions.Closed` | assets/js/enhanced-interactions.js:349-354 | Closing clears all three classes and sets an existing icon to `bx bx-menu`; without an `<i>` child the icon stays absent (the handler throws after clearing). The result is synced. |
| `EnhancedInteractions.ClosedIdempotent` | assets/js/enhanced-interactions.js:356-365 | Closing again changes nothing. |
| `EnhancedInteractions.MobileMenu.constructor` | assets/js/enhanced-interactions.js:328-333 | The overlay is created without `active`. |
| `EnhancedInteractions.MobileMenu.ToggleClick` | assets/js/enhanced-interactions.js:334-337 | The state becomes `Toggled(old state)`, and the handler completes iff the toggle has an `<i>` child. If nav, overlay and body agreed before, the state is synced after. |
| `EnhancedInteractions.MobileMenu.Close` | assets/js/enhanced-interactions.js:349-365 | The state becomes `Closed(old state)`, and the handler completes iff the toggle has an `<i>` child. The overlay handler and the link handler both do this. |
| `EnhancedInteractions.HueRotation.constructor` | assets/js/enhanced-interactions.js:126 | Each element's hue starts at 0. |
| `EnhancedInteractions.HueRotation.Tick` | assets/js/enhanced-interactions.js:127-130 | The hue advances by one modulo 360 and stays in [0, 360). |
| `EnhancedInteractions.HueAfterTicks` | assets/js/enhanced-interactions.js:125-131 | After n ticks the hue is n mod 360. |
| `EnhancedInteractions.Step` | assets/js/enhanced-interactions.js:301-309 | A Tab keydown sets the flag, a mousedown clears it, and any other key leaves it as it was. |
| `EnhancedInteractions.FlagAfter` | assets/js/enhanced-interactions.js:301-309 | If a sequence of events changes the flag, some Tab keydown or mousedown in it produced the new value. |
| `EnhancedInteractions.LastDecisiveEventWins` | assets/js/enhanced-interactions.js:301-309 | The flag after a sequence of events depends only on the last Tab keydown or mousedown. It is set iff that event is a keydown. |
| `EnhancedInteractions.NoDecisiveEventKeepsFlag` | assets/js/enhanced-interactions.js:302 | Without a Tab keydown or mousedown, the flag keeps its value. |
| `EnhancedInteractions.KeyboardNavigation.OnKeyDown` | assets/js/enhanced-interactions.js:301-305 | A Tab keydown sets `keyboard-navigation`. Any other key leaves it unchanged. |
| `EnhancedInteractions.KeyboardNavigation.OnMouseDown` | assets/js/enhanced-interactions.js:307-309 | A mousedown clears `keyboard-navigation`. |

## Left out

- Isotope `arrange`/`layout`, GLightbox, Swiper and Waypoint: their code is not part of this model. Only the button-class update of the Isotope handlers is modelled.
- Timers and load order: `setTimeout`, `setInterval`, `requestAnimationFrame` and `debounce` only decide when a handler body runs. Which of DOMContentLoaded and load fires first is not modelled; each handler body is modelled on its own.
- IntersectionObserver reveals, lazy image loading and animation triggers are browser-driven callbacks with no stated behaviour.
- Floating-point cosmetics are not modelled: parallax transforms, scroll-progress and favicon percentages, the gradient angle, random particles, animation delays and smooth-scroll targets. Scroll offsets are integers here.
- Pure styling writes, CSS injection, the cursor trail, hover effects, form focus effects and console logging are not modelled.
- Both main.js:455-457 and enhanced-interactions.js:337 toggle the body's `mobile-nav-open` on the same button. Which scripts a page loads is not part of this model, so `MainScript.MobileNavToggle` and `EnhancedInteractions.MobileMenu` each hold their own copy of the body's class and are not combined.
- A filter button without a `data-filter` attribute is not modelled: there `.replace` throws. `FilterGrid.Click` and `FilterGrid.DispatchClick` require the attribute to be present.
- Selector semantics of `querySelector(link.hash)`: which element a hash finds, and which hashes are invalid selectors, is given as a map rather than derived from the CSS selector grammar.
- The preloader removal and dropdown toggling in main.js have no state worth a contract. Of the smooth-scroll click handlers (main.js:65-79 and 158-172) only the `header-top` removal and its restore are modelled (`Header.ScrollLinkClick`, `Header.RestoreHeaderTop`); the scroll itself is left out. They leave `scrolled-offset` alone, so `HeaderFixed`'s pairing of `header-top` and `scrolled-offset` (`InSync`) is broken from the click until the next scroll event.
- EnhancedInteractions.Toggled and EnhancedInteractions.Closed: when the toggle has no `<i>` child, `querySelector('i')` returns null and the assignment to its `className` throws a TypeError; the model shows the state left behind (classes changed, icon absent) but not the uncaught exception itself.
- The mobile menu handlers exist only when both the toggle and the `.mobile-nav` element exist. The model starts from a wired menu.
