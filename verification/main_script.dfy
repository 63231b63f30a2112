/**
 * The state-changing handlers of main.js: the fallback and Isotope filter
 * handlers (both on the shared filter grid), the scroll-position classifiers
 * (navigation highlighter, fixed header, back-to-top button), the mobile
 * navigation toggle and the rotating hero text.
 */
module MainScript {
  import opened Wrappers
  import opened PortfolioFilter
  import opened Cyclic

  // ---------------------------------------------------------------------------
  // Portfolio filter handlers

  /** The fallback initialization: one more filter handler per button, only when both lists are non-empty. */
  method FallbackAttach(grid: FilterGrid) returns (attached: bool)
    modifies grid.buttons
    ensures attached <==> ShouldAttach(grid.buttons.Length, grid.items.Length)
    ensures grid.buttons[..] == if attached then AllWithListener(old(grid.buttons[..]), false) else old(grid.buttons[..])
  {
    attached := grid.Attach();
  }

  /** The fallback click handler: the same rule as the portfolio-filter.js handlers. */
  method FallbackClick(grid: FilterGrid, i: nat)
    requires i < grid.buttons.Length
    requires grid.buttons[i].filter.Some?
    modifies grid.buttons, grid.items
    ensures grid.buttons[..] == Selected(old(grid.buttons[..]), i)
    ensures grid.items[..] == Filtered(old(grid.buttons[i].filter.value), old(grid.items[..]))
  {
    grid.Click(i);
  }

  /**
   * The button part of the Isotope click handler: button `i` becomes the only
   * active button. The layout library's `arrange`, which shows and hides the
   * items, is not part of this model.
   */
  method IsotopeClick(grid: FilterGrid, i: nat)
    requires i < grid.buttons.Length
    modifies grid.buttons
    ensures grid.buttons[..] == Selected(old(grid.buttons[..]), i)
  {
    grid.MarkActive(i);
  }

  /**
   * The page as it loads: the primary initialization, the fallback one and the
   * backup one all run on unmarked buttons with no handlers, then button `i` is
   * clicked. Every button ends with three handlers, and the click runs all three:
   * button `i` is the only active one and the items are filtered once by its value.
   */
  method LoadThenClick(grid: FilterGrid, i: nat)
    requires grid.buttons.Length > 0 && grid.items.Length > 0
    requires i < grid.buttons.Length && grid.buttons[i].filter.Some?
    requires forall j :: 0 <= j < grid.buttons.Length ==> !grid.buttons[j].initialized && grid.buttons[j].listeners == 0
    modifies grid.buttons, grid.items
    ensures forall j :: 0 <= j < grid.buttons.Length ==> grid.buttons[j].listeners == 3 && grid.buttons[j].initialized
    ensures forall j :: 0 <= j < grid.buttons.Length ==> (grid.buttons[j].active <==> j == i)
    ensures grid.items[..] == Filtered(old(grid.buttons[i].filter.value), old(grid.items[..]))
  {
    var primary := grid.Attach();
    var fallback := FallbackAttach(grid);
    var backup := grid.AttachBackup();
    grid.DispatchClick(i);
  }

  // ---------------------------------------------------------------------------
  // Navigation highlighter

  /** Vertical extent of an element: `offsetTop` and `offsetHeight`. */
  datatype Box = Box(offsetTop: int, offsetHeight: int)

  /** A navigation link: its `hash` (empty when it has none) and its `active` class. */
  datatype NavLink = NavLink(hash: string, active: bool)

  /** How far below the top of the viewport a section must reach to count as current. */
  const NavLookahead: int := 200

  /** A position lies within an element, both ends included. */
  predicate Covers(b: Box, position: int)
  {
    b.offsetTop <= position <= b.offsetTop + b.offsetHeight
  }

  /**
   * What `select(hash)` gives for a hash: the element found, or a SyntaxError
   * when the hash is not a valid CSS selector (`#1abc`, say). A hash the map
   * lacks finds no element.
   */
  datatype Lookup = Found(box: Box) | InvalidSelector

  /** A link the highlighter decides: it has a hash and its target element exists. */
  predicate HasTarget(link: NavLink, targets: map<string, Lookup>)
  {
    link.hash != "" && link.hash in targets && targets[link.hash].Found?
  }

  /** A link whose lookup throws, which ends the whole pass. */
  predicate Throws(link: NavLink, targets: map<string, Lookup>)
  {
    link.hash != "" && link.hash in targets && targets[link.hash].InvalidSelector?
  }

  /** How many links one pass handles before a lookup throws (all of them when none does). */
  function Reached(links: seq<NavLink>, targets: map<string, Lookup>): (r: nat)
    ensures r <= |links|
    ensures forall j :: 0 <= j < r ==> !Throws(links[j], targets)
    ensures r < |links| ==> Throws(links[r], targets)
  {
    if links == [] || Throws(links[0], targets) then 0
    else 1 + Reached(links[1..], targets)
  }

  /** What one pass of the highlighter does to one link it reaches. */
  function NavUpdated(link: NavLink, targets: map<string, Lookup>, scrollY: int): (r: NavLink)
    ensures r.hash == link.hash
    ensures !HasTarget(link, targets) ==> r == link
    ensures HasTarget(link, targets) ==> (r.active <==> Covers(targets[link.hash].box, scrollY + NavLookahead))
  {
    if HasTarget(link, targets) then link.(active := Covers(targets[link.hash].box, scrollY + NavLookahead))
    else link
  }

  /**
   * One pass of the highlighter. The links before the first one whose lookup
   * throws are updated; that link and every later one keep their classes, and
   * `completed` says whether the pass got through all links.
   */
  method NavbarLinksActive(links: array<NavLink>, targets: map<string, Lookup>, scrollY: int) returns (completed: bool)
    modifies links
    ensures completed <==> Reached(old(links[..]), targets) == links.Length
    ensures forall j :: 0 <= j < links.Length ==>
      links[j] == if j < Reached(old(links[..]), targets) then NavUpdated(old(links[j]), targets, scrollY) else old(links[j])
  {
    var position := scrollY + NavLookahead;
    var k := 0;
    while k < links.Length
      invariant 0 <= k <= links.Length
      invariant forall j :: 0 <= j < k ==> !Throws(old(links[j]), targets)
      invariant forall j :: 0 <= j < k ==> links[j] == NavUpdated(old(links[j]), targets, scrollY)
      invariant forall j :: k <= j < links.Length ==> links[j] == old(links[j])
    {
      var link := links[k];
      if link.hash != "" && link.hash in targets {
        match targets[link.hash]
        case InvalidSelector =>
          return false;
        case Found(section) =>
          if position >= section.offsetTop && position <= section.offsetTop + section.offsetHeight {
            links[k] := link.(active := true);
          } else {
            links[k] := link.(active := false);
          }
      }
      k := k + 1;
    }
    completed := true;
  }

  /**
   * The interval is closed at both ends, so when one section ends exactly where
   * the next begins and the page is scrolled so that the boundary is the
   * position tested, the highlighter marks both links active.
   */
  lemma BoundaryActivatesBoth(first: NavLink, second: NavLink, targets: map<string, Lookup>, scrollY: int)
    requires HasTarget(first, targets) && HasTarget(second, targets)
    requires targets[second.hash].box.offsetTop == targets[first.hash].box.offsetTop + targets[first.hash].box.offsetHeight
    requires targets[first.hash].box.offsetHeight >= 0 && targets[second.hash].box.offsetHeight >= 0
    requires scrollY + NavLookahead == targets[second.hash].box.offsetTop
    ensures NavUpdated(first, targets, scrollY).active && NavUpdated(second, targets, scrollY).active
  {
  }

  // ---------------------------------------------------------------------------
  // Fixed header

  /**
   * The header and the element after it. `headerOffset` is the header's
   * `offsetTop`, read once when the handler is installed.
   */
  class Header {
    const headerOffset: int
    const hasNext: bool
    var headerTop: bool
    var scrolledOffset: bool

    constructor (offset: int, nextExists: bool, top: bool, scrolled: bool)
      ensures headerOffset == offset && hasNext == nextExists
      ensures headerTop == top && scrolledOffset == scrolled
    {
      headerOffset := offset;
      hasNext := nextExists;
      headerTop := top;
      scrolledOffset := scrolled;
    }

    /** Header and next element are both pinned once the page has scrolled to the header. */
    predicate InSync()
      reads this
    {
      hasNext ==> scrolledOffset == headerTop
    }

    /**
     * `header-top` is set iff the page has scrolled at least to the header's
     * offset; `scrolled-offset` on the next element follows it.
     */
    method HeaderFixed(scrollY: int)
      modifies this
      ensures headerTop <==> scrollY >= headerOffset
      ensures hasNext ==> scrolledOffset == headerTop
      ensures !hasNext ==> scrolledOffset == old(scrolledOffset)
      ensures InSync()
    {
      if headerOffset - scrollY <= 0 {
        headerTop := true;
        if hasNext {
          scrolledOffset := true;
        }
      } else {
        headerTop := false;
        if hasNext {
          scrolledOffset := false;
        }
      }
    }

    /**
     * The header part of a click on a navigation or `.scrollto` link whose
     * target exists: `header-top` is removed and, when it was present, a
     * restore is scheduled; `scrolled-offset` is left as it is, so a pinned
     * header and its pinned next element fall out of step.
     */
    method ScrollLinkClick(targetExists: bool) returns (restoreScheduled: bool)
      modifies this
      ensures restoreScheduled <==> targetExists && old(headerTop)
      ensures headerTop == (old(headerTop) && !targetExists)
      ensures scrolledOffset == old(scrolledOffset)
      ensures targetExists && hasNext && old(headerTop) && old(InSync()) ==> !InSync()
    {
      restoreScheduled := false;
      if targetExists && headerTop {
        headerTop := false;
        restoreScheduled := true;
      }
    }

    /** The scheduled restore, 1350 ms after the click: `header-top` is added back. */
    method RestoreHeaderTop()
      modifies this
      ensures headerTop
      ensures scrolledOffset == old(scrolledOffset)
    {
      headerTop := true;
    }
  }

  // ---------------------------------------------------------------------------
  // Back-to-top button

  /** Scroll offset beyond which the back-to-top button is shown. */
  const BackToTopThreshold: int := 100

  class BackToTop {
    var active: bool

    constructor (isActive: bool)
      ensures active == isActive
    {
      active := isActive;
    }

    /** The button is `active` iff the page is scrolled strictly more than 100 pixels. */
    method ToggleBacktotop(scrollY: int)
      modifies this
      ensures active <==> scrollY > BackToTopThreshold
    {
      if scrollY > BackToTopThreshold {
        active := true;
      } else {
        active := false;
      }
    }
  }

  // ---------------------------------------------------------------------------
  // Mobile navigation toggle

  /** The header's `mobile-nav-active` class and the toggle's `bi-list` and `bi-x` icon classes. */
  datatype ToggleState = ToggleState(mobileNavActive: bool, biList: bool, biX: bool)

  /** One click on the toggle: all three classes flip. */
  function Flipped(s: ToggleState): (r: ToggleState)
    ensures r.mobileNavActive != s.mobileNavActive
    ensures r.biList != s.biList && r.biX != s.biX
    ensures (r.biList != r.biX) <==> (s.biList != s.biX)
    ensures r.biList == s.biX ==> r.biX == s.biList
  {
    ToggleState(!s.mobileNavActive, !s.biList, !s.biX)
  }

  /** Two clicks restore the original classes. */
  lemma FlippedTwice(s: ToggleState)
    ensures Flipped(Flipped(s)) == s
  {
  }

  /**
   * The toggle together with the header and the body. A click runs two
   * handlers on the toggle: the first flips the header's and the toggle's
   * classes, and throws before touching the toggle when there is no `#header`;
   * the second flips the body's `mobile-nav-open`. A click on a `.nav-menu`
   * link clears only the body's class.
   */
  class MobileNavToggle {
    const hasHeader: bool
    var mobileNavActive: bool
    var biList: bool
    var biX: bool
    var bodyOpen: bool

    constructor (headerExists: bool, active: bool, list: bool, x: bool, body: bool)
      ensures hasHeader == headerExists
      ensures State() == ToggleState(active, list, x) && bodyOpen == body
    {
      hasHeader := headerExists;
      mobileNavActive, biList, biX, bodyOpen := active, list, x, body;
    }

    function State(): ToggleState
      reads this
    {
      ToggleState(mobileNavActive, biList, biX)
    }

    /** The body's class agrees with the header's. */
    predicate BodyInStep()
      reads this
    {
      bodyOpen == mobileNavActive
    }

    /**
     * Both toggle handlers. Exactly one icon shown before the click means
     * exactly one after it, and a body in step with the header stays so.
     */
    method Click()
      modifies this
      ensures State() == if hasHeader then Flipped(old(State())) else old(State())
      ensures bodyOpen == !old(bodyOpen)
      ensures (old(biList) != old(biX)) ==> (biList != biX)
      ensures hasHeader && old(BodyInStep()) ==> BodyInStep()
    {
      if hasHeader {
        mobileNavActive := !mobileNavActive;
        biList := !biList;
        biX := !biX;
      }
      bodyOpen := !bodyOpen;
    }

    /**
     * A click on a `.nav-menu` link: the body's class is cleared, while the
     * header's `mobile-nav-active` and the toggle's icon stay, so an open menu
     * leaves the body out of step with the header.
     */
    method NavLinkClick()
      modifies this
      ensures !bodyOpen
      ensures State() == old(State())
      ensures old(mobileNavActive) ==> !BodyInStep()
    {
      bodyOpen := false;
    }
  }

  // ---------------------------------------------------------------------------
  // Rotating hero text

  /** The texts the hero line cycles through, in order. */
  const Texts: seq<string> := ["a passionate Developer", "an AI Enthusiast", "a Problem Solver", "a Creative Thinker"]

  /**
   * The `.animated-text` element and the index of the next text to show.
   * `ChangeText` fades the element out; `ShowNext` is the deferred callback that
   * swaps the text, fades it in and advances the index.
   */
  class AnimatedText {
    var textIndex: nat
    var content: string
    var opacity: string

    ghost predicate Valid()
      reads this
    {
      textIndex < |Texts|
    }

    constructor (initialContent: string, initialOpacity: string)
      ensures Valid() && textIndex == 0
      ensures content == initialContent && opacity == initialOpacity
    {
      textIndex := 0;
      content := initialContent;
      opacity := initialOpacity;
    }

    /** The fade-out half of `changeText`. */
    method ChangeText()
      modifies this
      ensures opacity == "0"
      ensures textIndex == old(textIndex) && content == old(content)
    {
      opacity := "0";
    }

    /** The deferred half of `changeText`: show the current text, then advance cyclically. */
    method ShowNext()
      requires Valid()
      modifies this
      ensures Valid()
      ensures content == Texts[old(textIndex)] && opacity == "1"
      ensures textIndex == Next(old(textIndex), |Texts|)
    {
      content := Texts[textIndex];
      opacity := "1";
      textIndex := (textIndex + 1) % |Texts|;
    }
  }

  /** The index `ShowNext` uses on its `n`-th run (counting from 0). */
  function TextIndexAt(n: nat): nat
  {
    Iterate(0, n, |Texts|)
  }

  /** The `n`-th text shown is `Texts[n % 4]`: the texts cycle in order, starting with the first. */
  lemma TextsCycleInOrder(n: nat)
    ensures TextIndexAt(n) == n % |Texts|
    ensures TextIndexAt(n) < |Texts|
  {
    IterateClosedForm(0, n, |Texts|);
  }
}
