/**
 * The portfolio category filter: a list of filter buttons (`#portfolio-flters li`)
 * and a list of portfolio items (`.portfolio-item`). A click on a button makes it
 * the only button with class `filter-active` and shows exactly the items whose
 * class list contains the button's `data-filter` value with its first `.`
 * removed (every item for the value `*`).
 *
 * The same rule is wired up three times (two handlers in portfolio-filter.js,
 * one fallback in main.js); all of them are modelled by `FilterGrid.Click`.
 */
module PortfolioFilter {
  import opened Wrappers

  /** The `data-filter` value that shows every item. */
  const Wildcard: string := "*"

  /**
   * A filter button: its `data-filter` attribute (None when absent), whether it
   * carries the class `filter-active`, whether it carries the attribute
   * `data-filter-initialized`, and how many click handlers it holds that apply
   * the display/opacity rule (the Isotope handlers are not counted).
   */
  datatype Button = Button(filter: Option<string>, active: bool, initialized: bool, listeners: nat)

  /** A portfolio item: its class list and its inline `display` and `opacity` styles. */
  datatype Item = Item(classes: set<string>, display: string, opacity: string)

  /** The characters that separate class tokens in a `class` attribute. */
  const Whitespace: set<char> := {' ', '\t', '\n', '\r', 12 as char}

  /** A class list as the DOM holds it: no empty token and no token with whitespace. */
  predicate WellFormedClasses(classes: set<string>)
  {
    forall c :: c in classes ==> c != "" && forall k :: 0 <= k < |c| ==> c[k] !in Whitespace
  }

  /**
   * `s.replace('.', '')`: a string pattern makes JavaScript replace only the
   * first occurrence, so exactly the first `.` (if any) is removed.
   */
  function StripFirstDot(s: string): (r: string)
    ensures '.' !in s ==> r == s
    ensures '.' in s ==> |r| == |s| - 1
  {
    if s == [] then []
    else if s[0] == '.' then s[1..]
    else [s[0]] + StripFirstDot(s[1..])
  }

  /** What is removed is the first `.`: the text before it and the text after it are kept. */
  lemma {:induction false} StripFirstDotRemovesFirst(s: string, k: nat)
    requires k < |s| && s[k] == '.' && '.' !in s[..k]
    ensures StripFirstDot(s) == s[..k] + s[k + 1..]
  {
    if k > 0 {
      assert s[0] in s[..k];
      var t := s[1..];
      assert t[k - 1] == '.';
      assert t[..k - 1] == s[1..k];
      StripFirstDotRemovesFirst(t, k - 1);
      assert t[k..] == s[k + 1..];
      assert s[..k] == [s[0]] + s[1..k];
    }
  }

  /**
   * The visibility rule: an item is shown iff the filter is `*` or names one of
   * its classes, with or without a leading `.`.
   */
  predicate Visible(filter: string, classes: set<string>)
    ensures filter == Wildcard ==> Visible(filter, classes)
    ensures filter != Wildcard && '.' !in filter ==> (Visible(filter, classes) <==> filter in classes)
    ensures |filter| > 0 && filter[0] == '.' ==> (Visible(filter, classes) <==> filter[1..] in classes)
  {
    filter == Wildcard || StripFirstDot(filter) in classes
  }

  /** One item after the filter pass: shown (`block`, `1`) or hidden (`none`, `0`). */
  function Restyled(filter: string, item: Item): Item
  {
    if Visible(filter, item.classes) then item.(display := "block", opacity := "1")
    else item.(display := "none", opacity := "0")
  }

  /** Every item after a click on a button whose `data-filter` is `filter`. */
  function Filtered(filter: string, items: seq<Item>): (r: seq<Item>)
    ensures |r| == |items|
    ensures forall j :: 0 <= j < |r| ==> r[j].classes == items[j].classes
    ensures forall j :: 0 <= j < |r| ==>
      (r[j].display == "block" <==> filter == Wildcard || StripFirstDot(filter) in items[j].classes)
    ensures forall j :: 0 <= j < |r| ==>
      (r[j].display == "block" && r[j].opacity == "1") || (r[j].display == "none" && r[j].opacity == "0")
  {
    seq(|items|, j requires 0 <= j < |items| => Restyled(filter, items[j]))
  }

  /** The buttons after button `i` is made the active one. */
  function Selected(buttons: seq<Button>, i: nat): (r: seq<Button>)
    requires i < |buttons|
    ensures |r| == |buttons|
    ensures forall j :: 0 <= j < |r| ==> (r[j].active <==> j == i)
    ensures forall j :: 0 <= j < |r| ==> r[j] == buttons[j].(active := r[j].active)
  {
    seq(|buttons|, j requires 0 <= j < |buttons| => buttons[j].(active := j == i))
  }

  /** One more click handler on a button; `mark` also sets `data-filter-initialized`. */
  function WithListener(b: Button, mark: bool): Button
  {
    b.(listeners := b.listeners + 1, initialized := mark || b.initialized)
  }

  /** Every button after an initialization pass that attaches one handler to each. */
  function AllWithListener(buttons: seq<Button>, mark: bool): (r: seq<Button>)
    ensures |r| == |buttons|
    ensures forall j :: 0 <= j < |r| ==> r[j].listeners == buttons[j].listeners + 1
    ensures forall j :: 0 <= j < |r| ==> (r[j].initialized <==> mark || buttons[j].initialized)
    ensures forall j :: 0 <= j < |r| ==>
      r[j].filter == buttons[j].filter && r[j].active == buttons[j].active
  {
    seq(|buttons|, j requires 0 <= j < |buttons| => WithListener(buttons[j], mark))
  }

  /** Some button already carries `data-filter-initialized`. */
  predicate AnyInitialized(buttons: seq<Button>)
  {
    exists j :: 0 <= j < |buttons| && buttons[j].initialized
  }

  /** Handlers are attached only when there is at least one button and one item. */
  predicate ShouldAttach(buttonCount: nat, itemCount: nat)
  {
    buttonCount > 0 && itemCount > 0
  }

  /** Applying the same filter twice gives the same items as applying it once. */
  lemma FilteredIdempotent(filter: string, items: seq<Item>)
    ensures Filtered(filter, Filtered(filter, items)) == Filtered(filter, items)
  {
  }

  /** Selecting the same button twice gives the same buttons as selecting it once. */
  lemma SelectedIdempotent(buttons: seq<Button>, i: nat)
    requires i < |buttons|
    ensures Selected(Selected(buttons, i), i) == Selected(buttons, i)
  {
  }

  /** The filter value `*` shows every item, whatever it showed before. */
  lemma WildcardShowsAll(items: seq<Item>)
    ensures forall j :: 0 <= j < |items| ==>
      Filtered(Wildcard, items)[j].display == "block" && Filtered(Wildcard, items)[j].opacity == "1"
  {
  }

  /**
   * The outcome of a filter pass depends only on the items' class lists, never
   * on what they showed before: visibility is not cached state.
   */
  lemma FilteredForgetsPriorStyle(filter: string, a: seq<Item>, b: seq<Item>)
    requires |a| == |b|
    requires forall j :: 0 <= j < |a| ==> a[j].classes == b[j].classes
    ensures Filtered(filter, a) == Filtered(filter, b)
  {
  }

  /**
   * A filter spelled with or without its leading `.` selects the same items:
   * `.web` and `web` both look for the class `web`.
   */
  lemma LeadingDotOptional(name: string)
    requires '.' !in name
    ensures StripFirstDot("." + name) == StripFirstDot(name) == name
  {
  }

  /**
   * The filter value `.` strips to the empty class name, which no well-formed
   * class list holds, so it hides every item.
   */
  lemma DotAloneHidesAll(items: seq<Item>)
    requires forall j :: 0 <= j < |items| ==> WellFormedClasses(items[j].classes)
    ensures forall j :: 0 <= j < |items| ==> Filtered(".", items)[j].display == "none"
  {
  }

  /**
   * The filter grid of the page: the two node lists the handlers close over.
   * Both lists are fixed when the handlers are attached; only the elements'
   * classes, attributes and styles change.
   */
  class FilterGrid {
    const buttons: array<Button>
    const items: array<Item>

    constructor (initialButtons: seq<Button>, initialItems: seq<Item>)
      ensures buttons[..] == initialButtons && items[..] == initialItems
      ensures fresh(buttons) && fresh(items)
    {
      buttons := new Button[|initialButtons|](j requires 0 <= j < |initialButtons| => initialButtons[j]);
      items := new Item[|initialItems|](j requires 0 <= j < |initialItems| => initialItems[j]);
    }

    /**
     * The first initialization (after DOMContentLoaded): one click handler per
     * button when both lists are non-empty. It never sets `data-filter-initialized`.
     */
    method Attach() returns (attached: bool)
      modifies buttons
      ensures attached <==> ShouldAttach(buttons.Length, items.Length)
      ensures buttons[..] == if attached then AllWithListener(old(buttons[..]), false) else old(buttons[..])
    {
      attached := buttons.Length > 0 && items.Length > 0;
      if attached {
        AddListeners(false);
      }
    }

    /** Whether some button already carries `data-filter-initialized`. */
    method AlreadyInitialized() returns (found: bool)
      ensures found <==> AnyInitialized(buttons[..])
    {
      found := false;
      var k := 0;
      while k < buttons.Length
        invariant 0 <= k <= buttons.Length
        invariant found <==> exists j :: 0 <= j < k && buttons[j].initialized
      {
        if buttons[k].initialized {
          found := true;
        }
        k := k + 1;
      }
    }

    /**
     * The backup initialization (after window load): when both lists are
     * non-empty and no button is marked yet, mark every button and attach one
     * more click handler to each.
     */
    method AttachBackup() returns (attached: bool)
      modifies buttons
      ensures attached <==> ShouldAttach(buttons.Length, items.Length) && !AnyInitialized(old(buttons[..]))
      ensures buttons[..] == if attached then AllWithListener(old(buttons[..]), true) else old(buttons[..])
      ensures attached ==> forall j :: 0 <= j < buttons.Length ==> buttons[j].initialized
    {
      attached := false;
      if buttons.Length > 0 && items.Length > 0 {
        var alreadyInitialized := AlreadyInitialized();
        if !alreadyInitialized {
          AddListeners(true);
          attached := true;
        }
      }
    }

    /** Attach one handler to every button, marking it when `mark` holds. */
    method AddListeners(mark: bool)
      modifies buttons
      ensures buttons[..] == AllWithListener(old(buttons[..]), mark)
    {
      var k := 0;
      while k < buttons.Length
        invariant 0 <= k <= buttons.Length
        invariant forall j :: 0 <= j < k ==> buttons[j] == WithListener(old(buttons[j]), mark)
        invariant forall j :: k <= j < buttons.Length ==> buttons[j] == old(buttons[j])
      {
        buttons[k] := WithListener(buttons[k], mark);
        k := k + 1;
      }
    }

    /** Clear `filter-active` on every button, then set it on button `i`. */
    method MarkActive(i: nat)
      requires i < buttons.Length
      modifies buttons
      ensures buttons[..] == Selected(old(buttons[..]), i)
    {
      var k := 0;
      while k < buttons.Length
        invariant 0 <= k <= buttons.Length
        invariant forall j :: 0 <= j < k ==> buttons[j] == old(buttons[j]).(active := false)
        invariant forall j :: k <= j < buttons.Length ==> buttons[j] == old(buttons[j])
      {
        buttons[k] := buttons[k].(active := false);
        k := k + 1;
      }
      buttons[i] := buttons[i].(active := true);
    }

    /** Show or hide every item according to `filter`. */
    method ApplyFilter(filter: string)
      modifies items
      ensures items[..] == Filtered(filter, old(items[..]))
    {
      var k := 0;
      while k < items.Length
        invariant 0 <= k <= items.Length
        invariant forall j :: 0 <= j < k ==> items[j] == Restyled(filter, old(items[j]))
        invariant forall j :: k <= j < items.Length ==> items[j] == old(items[j])
      {
        var item := items[k];
        if filter == Wildcard {
          items[k] := item.(display := "block", opacity := "1");
        } else {
          var filterClass := StripFirstDot(filter);
          if filterClass in item.classes {
            items[k] := item.(display := "block", opacity := "1");
          } else {
            items[k] := item.(display := "none", opacity := "0");
          }
        }
        k := k + 1;
      }
    }

    /**
     * One filter click handler run for a click on button `i`: button `i`
     * becomes the only active one and the items are filtered by its value.
     */
    method Click(i: nat)
      requires i < buttons.Length
      requires buttons[i].filter.Some?
      modifies buttons, items
      ensures buttons[..] == Selected(old(buttons[..]), i)
      ensures items[..] == Filtered(old(buttons[i].filter.value), old(items[..]))
    {
      var filterValue := buttons[i].filter.value;
      MarkActive(i);
      ApplyFilter(filterValue);
    }

    /**
     * A click on button `i` runs every filter handler the button holds, one
     * after the other. Since one handler run is idempotent, any positive number
     * of handlers has the effect of one; with none, nothing changes.
     */
    method DispatchClick(i: nat)
      requires i < buttons.Length
      requires buttons[i].filter.Some?
      modifies buttons, items
      ensures old(buttons[i].listeners) == 0 ==> buttons[..] == old(buttons[..]) && items[..] == old(items[..])
      ensures old(buttons[i].listeners) > 0 ==>
        buttons[..] == Selected(old(buttons[..]), i) &&
        items[..] == Filtered(old(buttons[i].filter.value), old(items[..]))
    {
      var handlers := buttons[i].listeners;
      ghost var filter := buttons[i].filter.value;
      var k := 0;
      while k < handlers
        invariant 0 <= k <= handlers
        invariant buttons[i].filter == Some(filter)
        invariant k == 0 ==> buttons[..] == old(buttons[..]) && items[..] == old(items[..])
        invariant k > 0 ==> buttons[..] == Selected(old(buttons[..]), i)
        invariant k > 0 ==> items[..] == Filtered(filter, old(items[..]))
      {
        Click(i);
        if k > 0 {
          SelectedIdempotent(old(buttons[..]), i);
          FilteredIdempotent(filter, old(items[..]));
        }
        k := k + 1;
      }
    }
  }
}
