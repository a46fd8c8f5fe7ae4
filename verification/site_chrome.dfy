/** The site-wide header: the mobile menu opened by the hamburger button, and the
    header styles that follow the page's scroll position. */
module SiteChrome {

  // ---------------------------------------------------------------- mobile menu

  /** The three `active`/`menu-open` classes the menu code switches: on the
      hamburger button, on the navigation menu and on the page body. */
  datatype Menu = Menu(hamburgerActive: bool, navActive: bool, bodyMenuOpen: bool)

  const Closed := Menu(false, false, false)

  /** The three classes agree: the menu is wholly open or wholly closed. */
  predicate InSync(m: Menu) {
    m.hamburgerActive == m.navActive == m.bodyMenuOpen
  }

  predicate IsOpen(m: Menu) {
    m.hamburgerActive && m.navActive && m.bodyMenuOpen
  }

  /** What reaches the menu code: a click on the hamburger button, a click on a
      link inside the menu, a click anywhere in the document (with whether it
      landed inside the button or inside the menu), and a key press. */
  datatype MenuEvent =
    | HamburgerClick
    | LinkClick
    | DocumentClick(inHamburger: bool, inMenu: bool)
    | KeyDown(key: string)

  /** The hamburger button toggles each of the three classes on its own. */
  function Toggle(m: Menu): (r: Menu)
    ensures r.hamburgerActive != m.hamburgerActive
    ensures r.navActive != m.navActive
    ensures r.bodyMenuOpen != m.bodyMenuOpen
  {
    Menu(!m.hamburgerActive, !m.navActive, !m.bodyMenuOpen)
  }

  /** Removing the three classes. */
  function Close(m: Menu): (r: Menu)
    ensures !r.hamburgerActive && !r.navActive && !r.bodyMenuOpen
  {
    Closed
  }

  /** Whether an event closes the menu: a menu link, a click outside both the
      button and the menu, or the Escape key. */
  predicate Closes(e: MenuEvent) {
    match e
    case HamburgerClick => false
    case LinkClick => true
    case DocumentClick(inHamburger, inMenu) => !inHamburger && !inMenu
    case KeyDown(key) => key == "Escape"
  }

  /** One event handled by the menu. A link inside the menu is also a document
      click inside the menu, which leaves the menu alone; a click on the button
      reaches the document handler as a click inside the button. */
  function MenuStep(m: Menu, e: MenuEvent): (r: Menu)
    ensures e == HamburgerClick ==> r == Toggle(m)
    ensures e != HamburgerClick && Closes(e) ==> r == Closed
    ensures e != HamburgerClick && !Closes(e) ==> r == m
  {
    match e
    case HamburgerClick => Toggle(m)
    case LinkClick => Close(m)
    case DocumentClick(inHamburger, inMenu) =>
      if !inHamburger && !inMenu then Close(m) else m
    case KeyDown(key) => if key == "Escape" then Close(m) else m
  }

  /** The menu handles a run of events in order. */
  function MenuRun(m: Menu, es: seq<MenuEvent>): (r: Menu)
    decreases |es|
  {
    if |es| == 0 then m else MenuRun(MenuStep(m, es[0]), es[1..])
  }

  /** Every event keeps the three classes in agreement. */
  lemma MenuStepKeepsSync(m: Menu, e: MenuEvent)
    requires InSync(m)
    ensures InSync(MenuStep(m, e))
    ensures IsOpen(MenuStep(m, e)) <==> (if e == HamburgerClick then !IsOpen(m) else IsOpen(m) && !Closes(e))
  {
  }

  /** Starting in agreement, the three classes agree after any run of events. */
  lemma {:induction false} MenuRunKeepsSync(m: Menu, es: seq<MenuEvent>)
    requires InSync(m)
    ensures InSync(MenuRun(m, es))
    decreases |es|
  {
    if |es| > 0 {
      MenuStepKeepsSync(m, es[0]);
      MenuRunKeepsSync(MenuStep(m, es[0]), es[1..]);
    }
  }

  /** Pressing the hamburger twice puts every class back as it was. */
  lemma ToggleTwice(m: Menu)
    ensures MenuRun(m, [HamburgerClick, HamburgerClick]) == m
  {
    assert [HamburgerClick, HamburgerClick][1..] == [HamburgerClick];
  }

  /** Closing is idempotent: a second closing event changes nothing. */
  lemma CloseTwice(m: Menu, e1: MenuEvent, e2: MenuEvent)
    requires e1 != HamburgerClick && Closes(e1)
    requires e2 != HamburgerClick
    ensures MenuStep(MenuStep(m, e1), e2) == Closed
  {
  }

  /** A run of events that ends with a closing event leaves the menu closed,
      whatever came before. */
  lemma {:induction false} EndsClosed(m: Menu, es: seq<MenuEvent>, e: MenuEvent)
    requires e != HamburgerClick && Closes(e)
    ensures MenuRun(m, es + [e]) == Closed
    decreases |es|
  {
    if |es| == 0 {
      assert (es + [e])[1..] == [];
    } else {
      assert (es + [e])[0] == es[0];
      assert (es + [e])[1..] == es[1..] + [e];
      EndsClosed(MenuStep(m, es[0]), es[1..], e);
    }
  }

  // ---------------------------------------------------------------- header on scroll

  /** Past this many pixels the header takes its scrolled style. */
  const ScrollThreshold := 100

  /** Past this many pixels the header hides while the page moves down. */
  const HideThreshold := 300

  /** The header's classes and the last scroll position seen. */
  datatype Header = Header(scrolled: bool, hidden: bool, lastScroll: int)

  /** The header before any scroll event: plain style, shown, last position 0. */
  const InitialHeader := Header(false, false, 0)

  /** The header after a scroll event at position `y`: scrolled past the first
      threshold, hidden when the page moved down and is past the second threshold,
      and `y` remembered for the next event. */
  function HandleScroll(h: Header, y: int): (r: Header)
    ensures r.scrolled <==> y > ScrollThreshold
    ensures r.hidden <==> y > h.lastScroll && y > HideThreshold
    ensures r.lastScroll == y
  {
    Header(y > ScrollThreshold, y > h.lastScroll && y > HideThreshold, y)
  }

  /** The header after the scroll events at the positions `ys`, in order. */
  function ScrollRun(h: Header, ys: seq<int>): (r: Header)
    decreases |ys|
  {
    if |ys| == 0 then h else ScrollRun(HandleScroll(h, ys[0]), ys[1..])
  }

  /** A hidden header is always also in its scrolled style, and a header is never
      hidden by an event that scrolls up or stays put. */
  lemma HiddenIsScrolled(h: Header, y: int)
    ensures HandleScroll(h, y).hidden ==> HandleScroll(h, y).scrolled
    ensures y <= h.lastScroll ==> !HandleScroll(h, y).hidden
  {
  }

  /** After a non-empty run of scroll events the header reflects only the last two
      positions: the style follows the last one, and the header is hidden exactly
      when the last move went down past the hiding threshold. */
  lemma {:induction false} ScrollRunLast(h: Header, ys: seq<int>)
    requires |ys| > 0
    ensures ScrollRun(h, ys).lastScroll == ys[|ys| - 1]
    ensures ScrollRun(h, ys).scrolled <==> ys[|ys| - 1] > ScrollThreshold
    ensures ScrollRun(h, ys).hidden <==>
      var before := if |ys| == 1 then h.lastScroll else ys[|ys| - 2];
      ys[|ys| - 1] > before && ys[|ys| - 1] > HideThreshold
    decreases |ys|
  {
    if |ys| > 1 {
      ScrollRunLast(HandleScroll(h, ys[0]), ys[1..]);
    }
  }

  /** The check made once at start-up, from the initial header: a page opened below
      the first threshold gets the scrolled style, and one opened below the second
      threshold is hidden at once, since the remembered position starts at 0. The
      later scroll events then run from there. */
  lemma {:induction false} StartupScroll(y0: int, ys: seq<int>)
    ensures HandleScroll(InitialHeader, y0).scrolled <==> y0 > ScrollThreshold
    ensures HandleScroll(InitialHeader, y0).hidden <==> y0 > HideThreshold
    ensures ScrollRun(InitialHeader, [y0] + ys) == ScrollRun(HandleScroll(InitialHeader, y0), ys)
    ensures ScrollRun(InitialHeader, [y0] + ys).hidden ==> ScrollRun(InitialHeader, [y0] + ys).scrolled
  {
    assert ([y0] + ys)[1..] == ys;
    ScrollRunHiddenIsScrolled(InitialHeader, [y0] + ys);
  }

  /** A run of scroll events always leaves a hidden header in its scrolled style. */
  lemma {:induction false} ScrollRunHiddenIsScrolled(h: Header, ys: seq<int>)
    requires h.hidden ==> h.scrolled
    ensures ScrollRun(h, ys).hidden ==> ScrollRun(h, ys).scrolled
    decreases |ys|
  {
    if |ys| > 0 {
      HiddenIsScrolled(h, ys[0]);
      ScrollRunHiddenIsScrolled(HandleScroll(h, ys[0]), ys[1..]);
    }
  }
}
