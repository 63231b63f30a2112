/**
 * The state-changing handlers of enhanced-interactions.js: the scroll-spy that
 * marks the navigation link of the current section, the mobile menu (toggle,
 * overlay and link clicks), the per-element hue counter and the
 * `keyboard-navigation` flag on the body.
 */
module EnhancedInteractions {
  import opened Wrappers
  import opened Cyclic

  // ---------------------------------------------------------------------------
  // Scroll-spy navigation highlighting

  /** A `section` element: its `id` attribute (None when absent), `offsetTop` and `offsetHeight`. */
  datatype Section = Section(id: Option<string>, offsetTop: int, offsetHeight: int)

  /** A navigation link: its `href` attribute (None when absent) and its `active` class. */
  datatype SpyLink = SpyLink(href: Option<string>, active: bool)

  /** How far below the top of the viewport the spy looks. */
  const SpyLookahead: int := 100

  /** A position lies within a section: top included, bottom excluded. */
  predicate InSection(s: Section, position: int)
  {
    s.offsetTop <= position < s.offsetTop + s.offsetHeight
  }

  /**
   * The `href` that marks a section's link: `#` followed by the id; a missing
   * id is interpolated as the text `null`.
   */
  function HrefFor(id: Option<string>): (r: string)
    ensures |r| > 0 && r[0] == '#'
    ensures id.Some? ==> r[1..] == id.value
    ensures id.None? ==> r[1..] == "null"
  {
    "#" + match id
          case Some(s) => s
          case None => "null"
  }

  /** The index of the last section (in document order) containing `position`, if any. */
  function LastMatch(sections: seq<Section>, position: int): (r: Option<nat>)
    ensures r.Some? ==> r.value < |sections| && InSection(sections[r.value], position)
    ensures r.Some? ==> forall j :: r.value < j < |sections| ==> !InSection(sections[j], position)
    ensures r.None? <==> forall j :: 0 <= j < |sections| ==> !InSection(sections[j], position)
    decreases |sections|
  {
    if sections == [] then None
    else if InSection(sections[|sections| - 1], position) then Some(|sections| - 1)
    else LastMatch(sections[..|sections| - 1], position)
  }

  /** The links after one matching section's pass: exactly those pointing at `target` are active. */
  function Highlighted(links: seq<SpyLink>, target: string): (r: seq<SpyLink>)
    ensures |r| == |links|
    ensures forall j :: 0 <= j < |r| ==> r[j].href == links[j].href
    ensures forall j :: 0 <= j < |r| ==> (r[j].active <==> links[j].href == Some(target))
  {
    seq(|links|, j requires 0 <= j < |links| => links[j].(active := links[j].href == Some(target)))
  }

  /**
   * The links after a whole scroll-spy pass over `sections`: with no section
   * containing the position nothing changes; otherwise exactly the links
   * pointing at the last such section are active.
   */
  function Spied(links: seq<SpyLink>, sections: seq<Section>, position: int): (r: seq<SpyLink>)
    ensures |r| == |links|
    ensures forall j :: 0 <= j < |r| ==> r[j].href == links[j].href
    ensures LastMatch(sections, position).None? ==> r == links
    ensures LastMatch(sections, position).Some? ==> forall j :: 0 <= j < |r| ==>
      (r[j].active <==> links[j].href == Some(HrefFor(sections[LastMatch(sections, position).value].id)))
  {
    match LastMatch(sections, position)
    case None => links
    case Some(m) => Highlighted(links, HrefFor(sections[m].id))
  }

  /** A later highlighting pass overrides an earlier one completely. */
  lemma HighlightedOverrides(links: seq<SpyLink>, first: string, second: string)
    ensures Highlighted(Highlighted(links, first), second) == Highlighted(links, second)
  {
  }

  /**
   * When some section contains the position, afterwards exactly the links whose
   * `href` is `#` plus the id of the LAST such section are active.
   */
  lemma SpiedMarksLastMatch(links: seq<SpyLink>, sections: seq<Section>, position: int, m: nat)
    requires m < |sections| && InSection(sections[m], position)
    requires forall j :: m < j < |sections| ==> !InSection(sections[j], position)
    ensures |Spied(links, sections, position)| == |links|
    ensures forall j :: 0 <= j < |links| ==>
      (Spied(links, sections, position)[j].active <==> links[j].href == Some(HrefFor(sections[m].id)))
  {
  }

  /** Mark the links pointing at `target` active and every other link inactive. */
  method HighlightLinks(links: array<SpyLink>, target: string)
    modifies links
    ensures links[..] == Highlighted(old(links[..]), target)
  {
    var k := 0;
    while k < links.Length
      invariant 0 <= k <= links.Length
      invariant forall j :: 0 <= j < k ==> links[j] == old(links[j]).(active := old(links[j]).href == Some(target))
      invariant forall j :: k <= j < links.Length ==> links[j] == old(links[j])
    {
      var link := links[k].(active := false);
      if link.href == Some(target) {
        link := link.(active := true);
      }
      links[k] := link;
      k := k + 1;
    }
  }

  /**
   * The scroll handler: every section containing `scrollY + 100` rewrites the
   * links in turn, so the last such section decides; with none, no link changes.
   */
  method UpdateActiveNav(links: array<SpyLink>, sections: seq<Section>, scrollY: int)
    modifies links
    ensures links[..] == Spied(old(links[..]), sections, scrollY + SpyLookahead)
    ensures LastMatch(sections, scrollY + SpyLookahead).None? ==> links[..] == old(links[..])
  {
    var scrollPos := scrollY + SpyLookahead;
    var k := 0;
    while k < |sections|
      invariant 0 <= k <= |sections|
      invariant links[..] == Spied(old(links[..]), sections[..k], scrollPos)
    {
      var section := sections[k];
      assert sections[..k + 1][..k] == sections[..k];
      assert sections[..k + 1][k] == section;
      if scrollPos >= section.offsetTop && scrollPos < section.offsetTop + section.offsetHeight {
        HighlightLinks(links, HrefFor(section.id));
        match LastMatch(sections[..k], scrollPos)
        case None =>
        case Some(m) =>
          HighlightedOverrides(old(links[..]), HrefFor(sections[..k][m].id), HrefFor(section.id));
      }
      k := k + 1;
    }
    assert sections[..k] == sections;
  }

  // ---------------------------------------------------------------------------
  // Mobile menu

  /** The toggle icon's class name while the menu is open. */
  const CloseIcon: string := "bx bx-x"

  /** The toggle icon's class name while the menu is closed. */
  const MenuIcon: string := "bx bx-menu"

  /**
   * The nav's `active` class, the overlay's `active` class, the body's
   * `mobile-nav-open` class and the class name of the toggle's `<i>` child
   * (None when the toggle has no `<i>` child).
   */
  datatype MenuState = MenuState(navActive: bool, overlayActive: bool, bodyOpen: bool, icon: Option<string>)

  /** Nav, overlay and body agree on whether the menu is open. */
  predicate Agree(s: MenuState)
  {
    s.navActive == s.overlayActive && s.overlayActive == s.bodyOpen
  }

  /** The three classes agree and the icon, when there is one, matches them. */
  predicate Synced(s: MenuState)
  {
    Agree(s) && (s.icon.Some? ==> s.icon.value == (if s.navActive then CloseIcon else MenuIcon))
  }

  /**
   * A click on the toggle: the three classes flip and the icon follows the nav.
   * Without an `<i>` child the handler throws when it sets the icon, after the
   * classes have flipped.
   */
  function Toggled(s: MenuState): (r: MenuState)
    ensures r.navActive != s.navActive && r.overlayActive != s.overlayActive && r.bodyOpen != s.bodyOpen
    ensures r.icon.Some? <==> s.icon.Some?
    ensures r.icon.Some? ==> r.icon.value == (if r.navActive then CloseIcon else MenuIcon)
    ensures Agree(s) <==> Agree(r)
    ensures Agree(s) ==> Synced(r)
  {
    var flipped := s.(navActive := !s.navActive, overlayActive := !s.overlayActive, bodyOpen := !s.bodyOpen);
    if s.icon.None? then flipped
    else flipped.(icon := Some(if flipped.navActive then CloseIcon else MenuIcon))
  }

  /**
   * A click on the overlay or on a menu link: everything closed, menu icon
   * shown. Without an `<i>` child the handler throws after clearing the classes.
   */
  function Closed(s: MenuState): (r: MenuState)
    ensures !r.navActive && !r.overlayActive && !r.bodyOpen
    ensures r.icon.Some? <==> s.icon.Some?
    ensures r.icon.Some? ==> r.icon.value == MenuIcon
    ensures Synced(r)
  {
    MenuState(false, false, false, if s.icon.Some? then Some(MenuIcon) else None)
  }

  /** Closing an already closed menu changes nothing. */
  lemma ClosedIdempotent(s: MenuState)
    ensures Closed(Closed(s)) == Closed(s)
  {
  }

  /** From a synced state, two toggle clicks restore it exactly. */
  lemma ToggledTwice(s: MenuState)
    requires Synced(s)
    ensures Toggled(Toggled(s)) == s
  {
  }

  /** The mobile menu of the page, wired only when both the toggle and the nav exist. */
  class MobileMenu {
    var navActive: bool
    var overlayActive: bool
    var bodyOpen: bool
    var icon: Option<string>

    /** The overlay is created without `active`. */
    constructor (nav: bool, body: bool, initialIcon: Option<string>)
      ensures State() == MenuState(nav, false, body, initialIcon)
    {
      navActive := nav;
      overlayActive := false;
      bodyOpen := body;
      icon := initialIcon;
    }

    function State(): MenuState
      reads this
    {
      MenuState(navActive, overlayActive, bodyOpen, icon)
    }

    /** The toggle's click handler; `completed` is false when it throws for want of an icon. */
    method ToggleClick() returns (completed: bool)
      modifies this
      ensures State() == Toggled(old(State()))
      ensures completed <==> old(icon).Some?
      ensures Agree(old(State())) ==> Synced(State())
    {
      navActive := !navActive;
      overlayActive := !overlayActive;
      bodyOpen := !bodyOpen;
      if icon.None? {
        return false;
      }
      if navActive {
        icon := Some(CloseIcon);
      } else {
        icon := Some(MenuIcon);
      }
      completed := true;
    }

    /** The click handler shared by the overlay and every menu link; `completed` as for `ToggleClick`. */
    method Close() returns (completed: bool)
      modifies this
      ensures State() == Closed(old(State()))
      ensures completed <==> old(icon).Some?
    {
      navActive := false;
      overlayActive := false;
      bodyOpen := false;
      if icon.None? {
        return false;
      }
      icon := Some(MenuIcon);
      completed := true;
    }
  }

  // ---------------------------------------------------------------------------
  // Hue rotation

  /** Degrees in a full turn of the hue. */
  const HuePeriod: nat := 360

  /** The hue counter that each animated heading keeps for itself. */
  class HueRotation {
    var hue: nat

    constructor ()
      ensures hue == 0
    {
      hue := 0;
    }

    /** One interval tick: the hue advances by one degree, wrapping at 360. */
    method Tick()
      modifies this
      ensures hue < HuePeriod
      ensures hue == Next(old(hue), HuePeriod)
    {
      hue := (hue + 1) % HuePeriod;
    }
  }

  /** After `n` ticks from the start the hue is `n % 360`. */
  lemma HueAfterTicks(n: nat)
    ensures Iterate(0, n, HuePeriod) == n % 360
  {
    IterateClosedForm(0, n, HuePeriod);
  }

  // ---------------------------------------------------------------------------
  // Keyboard-navigation flag

  /** The document events that touch the body's `keyboard-navigation` class. */
  datatype InputEvent = KeyDown(key: string) | MouseDown

  /** An event that sets or clears the flag: a Tab keydown or a mousedown. */
  predicate Decisive(e: InputEvent)
  {
    e.MouseDown? || e.key == "Tab"
  }

  /** The flag after one event: Tab sets it, mousedown clears it, other keys leave it. */
  function Step(flag: bool, e: InputEvent): (r: bool)
    ensures Decisive(e) ==> (r <==> e.KeyDown?)
    ensures !Decisive(e) ==> r == flag
  {
    match e
    case KeyDown(key) => if key == "Tab" then true else flag
    case MouseDown => false
  }

  /** The flag after a sequence of events, oldest first. */
  function FlagAfter(flag: bool, events: seq<InputEvent>): (r: bool)
    ensures r != flag ==> exists j :: 0 <= j < |events| && Decisive(events[j]) && (r <==> events[j].KeyDown?)
    decreases |events|
  {
    if events == [] then flag
    else Step(FlagAfter(flag, events[..|events| - 1]), events[|events| - 1])
  }

  /** The flag is decided by the last Tab keydown or mousedown alone. */
  lemma {:induction false} LastDecisiveEventWins(flag: bool, events: seq<InputEvent>, k: nat)
    requires k < |events| && Decisive(events[k])
    requires forall j :: k < j < |events| ==> !Decisive(events[j])
    ensures FlagAfter(flag, events) <==> events[k].KeyDown?
    decreases |events|
  {
    var last := |events| - 1;
    if k < last {
      var prefix := events[..last];
      assert forall j :: k < j < |prefix| ==> prefix[j] == events[j];
      LastDecisiveEventWins(flag, prefix, k);
    }
  }

  /** Without any Tab keydown or mousedown the flag keeps its value. */
  lemma {:induction false} NoDecisiveEventKeepsFlag(flag: bool, events: seq<InputEvent>)
    requires forall j :: 0 <= j < |events| ==> !Decisive(events[j])
    ensures FlagAfter(flag, events) == flag
    decreases |events|
  {
    if events != [] {
      var prefix := events[..|events| - 1];
      assert forall j :: 0 <= j < |prefix| ==> prefix[j] == events[j];
      NoDecisiveEventKeepsFlag(flag, prefix);
    }
  }

  /** The body's `keyboard-navigation` class. */
  class KeyboardNavigation {
    var keyboardNavigation: bool

    constructor (initial: bool)
      ensures keyboardNavigation == initial
    {
      keyboardNavigation := initial;
    }

    /** The keydown handler. */
    method OnKeyDown(key: string)
      modifies this
      ensures keyboardNavigation == Step(old(keyboardNavigation), KeyDown(key))
      ensures key == "Tab" ==> keyboardNavigation
      ensures key != "Tab" ==> keyboardNavigation == old(keyboardNavigation)
    {
      if key == "Tab" {
        keyboardNavigation := true;
      }
    }

    /** The mousedown handler. */
    method OnMouseDown()
      modifies this
      ensures keyboardNavigation == Step(old(keyboardNavigation), MouseDown)
      ensures !keyboardNavigation
    {
      keyboardNavigation := false;
    }
  }
}
