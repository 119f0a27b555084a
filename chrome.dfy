/**
 * The page chrome of the site script: the mobile menu (hamburger `active`,
 * menu `active`, body overflow hidden), the sticky header's `scrolled` flag
 * with the last scroll offset, and the body's `keyboard-navigation` flag.
 */
module Chrome {

  /** The page offset beyond which the header carries `scrolled`. */
  const ScrolledThreshold: int := 100

  /** The three flags of the mobile menu. */
  datatype MenuView = MenuView(hamburgerActive: bool, menuActive: bool, overflowHidden: bool)

  /** The clicks the menu reacts to; a document click says whether its target lies in the menu or the hamburger. */
  datatype MenuEvent =
    | HamburgerClick
    | NavLinkClick
    | DocumentClick(insideMenu: bool, insideHamburger: bool)

  const Closed := MenuView(false, false, false)

  /** The menu as the page shows it: open everywhere or closed everywhere. */
  predicate Synced(m: MenuView) {
    m.hamburgerActive == m.menuActive && m.menuActive == m.overflowHidden
  }

  /** The menu after one click. */
  function MenuStep(m: MenuView, e: MenuEvent): (r: MenuView)
    ensures Synced(m) ==> Synced(r)
    ensures Closes(e) ==> r == Closed
  {
    match e
    case HamburgerClick =>
      var open := !m.menuActive;
      MenuView(!m.hamburgerActive, open, open)
    case NavLinkClick => Closed
    case DocumentClick(insideMenu, insideHamburger) =>
      if !insideMenu && !insideHamburger then Closed else m
  }

  /** The menu after a sequence of clicks, handled in order. */
  function RunMenu(m: MenuView, events: seq<MenuEvent>): (r: MenuView)
    ensures Synced(m) ==> Synced(r)
    decreases |events|
  {
    if events == [] then m
    else MenuStep(RunMenu(m, events[..|events| - 1]), events[|events| - 1])
  }

  /** A click that closes the menu: a nav link, or a click outside the menu and the hamburger. */
  predicate Closes(e: MenuEvent) {
    e.NavLinkClick? || (e.DocumentClick? && !e.insideMenu && !e.insideHamburger)
  }

  /** Index just past the last closing click, or 0 when there is none. */
  function LastClose(events: seq<MenuEvent>): (r: nat)
    ensures r <= |events|
    ensures r > 0 ==> Closes(events[r - 1])
    ensures forall k :: r <= k < |events| ==> !Closes(events[k])
    decreases |events|
  {
    if events == [] then 0
    else if Closes(events[|events| - 1]) then |events|
    else LastClose(events[..|events| - 1])
  }

  /** The number of hamburger clicks in a sequence. */
  function HamburgerClicks(events: seq<MenuEvent>): nat
    decreases |events|
  {
    if events == [] then 0
    else HamburgerClicks(events[..|events| - 1]) + (if events[|events| - 1].HamburgerClick? then 1 else 0)
  }

  /** Clicking the hamburger twice restores a consistent menu. */
  lemma HamburgerTwiceRestores(m: MenuView)
    requires Synced(m)
    ensures MenuStep(MenuStep(m, HamburgerClick), HamburgerClick) == m
  {
  }

  /** A document click whose target lies in the menu or the hamburger changes nothing. */
  lemma ClickInsideNoChange(m: MenuView, insideMenu: bool, insideHamburger: bool)
    requires insideMenu || insideHamburger
    ensures MenuStep(m, DocumentClick(insideMenu, insideHamburger)) == m
  {
  }

  /** Every click keeps the three flags equal. */
  lemma MenuStepKeepsSynced(m: MenuView, e: MenuEvent)
    requires Synced(m)
    ensures Synced(MenuStep(m, e))
  {
  }

  /**
   * From a closed menu, after any sequence of clicks the three flags agree,
   * and the menu is open iff an odd number of hamburger clicks followed the
   * last closing click.
   */
  lemma {:induction false} MenuAfterClicks(events: seq<MenuEvent>)
    ensures var open := HamburgerClicks(events[LastClose(events)..]) % 2 == 1;
      RunMenu(Closed, events) == MenuView(open, open, open)
    decreases |events|
  {
    if events != [] {
      var front := events[..|events| - 1];
      var last := events[|events| - 1];
      MenuAfterClicks(front);
      if !Closes(last) {
        var c := LastClose(front);
        assert LastClose(events) == c;
        assert events[c..][..|events[c..]| - 1] == front[c..];
        assert events[c..][|events[c..]| - 1] == last;
      } else {
        assert events[|events|..] == [];
      }
    }
  }

  /** The flags the script keeps on the page: menu, sticky header and keyboard focus styling. */
  class PageChrome {
    var hamburgerActive: bool
    var menuActive: bool
    var overflowHidden: bool
    var headerScrolled: bool
    var lastScroll: int
    var keyboardNavigation: bool

    function Menu(): MenuView
      reads this
    {
      MenuView(hamburgerActive, menuActive, overflowHidden)
    }

    /** The page's menu invariant: the hamburger, the menu and the body lock agree. */
    predicate Valid()
      reads this
    {
      Synced(Menu())
    }

    constructor ()
      ensures Valid()
      ensures Menu() == Closed && !headerScrolled && lastScroll == 0 && !keyboardNavigation
    {
      hamburgerActive, menuActive, overflowHidden := false, false, false;
      headerScrolled := false;
      lastScroll := 0;
      keyboardNavigation := false;
    }

    /** The hamburger's click handler: toggle both classes, lock the body while the menu is open. */
    method OnHamburgerClick()
      requires Valid()
      modifies this
      ensures Valid()
      ensures Menu() == MenuStep(old(Menu()), HamburgerClick)
      ensures headerScrolled == old(headerScrolled) && lastScroll == old(lastScroll)
      ensures keyboardNavigation == old(keyboardNavigation)
    {
      hamburgerActive := !hamburgerActive;
      menuActive := !menuActive;
      if menuActive {
        overflowHidden := true;
      } else {
        overflowHidden := false;
      }
    }

    /** A nav link's click handler: close the menu. */
    method OnNavLinkClick()
      requires Valid()
      modifies this
      ensures Valid()
      ensures Menu() == MenuStep(old(Menu()), NavLinkClick)
      ensures headerScrolled == old(headerScrolled) && lastScroll == old(lastScroll)
      ensures keyboardNavigation == old(keyboardNavigation)
    {
      hamburgerActive := false;
      menuActive := false;
      overflowHidden := false;
    }

    /** The document's click handler: close the menu unless the target is inside it or the hamburger. */
    method OnDocumentClick(insideMenu: bool, insideHamburger: bool)
      requires Valid()
      modifies this
      ensures Valid()
      ensures Menu() == MenuStep(old(Menu()), DocumentClick(insideMenu, insideHamburger))
      ensures headerScrolled == old(headerScrolled) && lastScroll == old(lastScroll)
      ensures keyboardNavigation == old(keyboardNavigation)
    {
      if !insideMenu && !insideHamburger {
        hamburgerActive := false;
        menuActive := false;
        overflowHidden := false;
      }
    }

    /** The sticky-header scroll handler. */
    method OnScroll(scrollY: int)
      modifies this
      ensures headerScrolled <==> scrollY > ScrolledThreshold
      ensures lastScroll == scrollY
      ensures Menu() == old(Menu()) && keyboardNavigation == old(keyboardNavigation)
    {
      var currentScroll := scrollY;
      if currentScroll > ScrolledThreshold {
        headerScrolled := true;
      } else {
        headerScrolled := false;
      }
      lastScroll := currentScroll;
    }

    /** The document's keydown handler: Tab switches keyboard focus styling on. */
    method OnKeyDown(key: string)
      modifies this
      ensures keyboardNavigation == (old(keyboardNavigation) || key == "Tab")
      ensures Menu() == old(Menu())
      ensures headerScrolled == old(headerScrolled) && lastScroll == old(lastScroll)
    {
      if key == "Tab" {
        keyboardNavigation := true;
      }
    }

    /** The document's mousedown handler: switch keyboard focus styling off. */
    method OnMouseDown()
      modifies this
      ensures !keyboardNavigation
      ensures Menu() == old(Menu())
      ensures headerScrolled == old(headerScrolled) && lastScroll == old(lastScroll)
    {
      keyboardNavigation := false;
    }
  }
}
