/**
 * The mobile navigation menu: the 'active' class on the hamburger control and
 * on the menu container, and the listeners that toggle and clear it.
 *
 * The listener functions say what one listener does; `ClickOn` and `Step`
 * say what one user action does, that is every listener it reaches, in
 * order: the target's own listener first, then the document's, to which the
 * event bubbles.
 */
module Navigation {

  /** Whether the hamburger control and the menu container carry 'active'. */
  datatype Menu = Menu(hamburgerActive: bool, menuActive: bool)

  /** Both classes removed. */
  const Closed := Menu(false, false)

  /** A resize to a viewport wider than this closes the open menu. */
  const DesktopWidth := 768

  predicate InSync(m: Menu) {
    m.hamburgerActive == m.menuActive
  }

  // ----- one listener each -----

  /** The hamburger's click listener toggles both classes. */
  function AfterHamburgerClick(m: Menu): Menu {
    Menu(!m.hamburgerActive, !m.menuActive)
  }

  /** A nav link's click listener removes both classes. */
  function AfterNavLinkClick(m: Menu): Menu {
    Closed
  }

  /** The document's click listener closes the menu on a click that is
      neither inside the menu nor on the hamburger, if the menu is open. */
  function AfterDocumentClick(m: Menu, insideNav: bool, onHamburger: bool): Menu {
    if !insideNav && !onHamburger && m.menuActive then Closed else m
  }

  /** The document's keydown listener closes the open menu on Escape. */
  function AfterDocumentKeyDown(m: Menu, key: string): Menu {
    if key == "Escape" && m.menuActive then Closed else m
  }

  /** The (debounced) resize listener closes the open menu above the
      desktop width. */
  function AfterResize(m: Menu, width: int): Menu {
    if width > DesktopWidth && m.menuActive then Closed else m
  }

  /** The keys on which the hamburger's keydown listener clicks it. */
  predicate ActivationKey(key: string) {
    key == "Enter" || key == " "
  }

  // ----- one user action each -----

  /** Where a click lands: the hamburger, a nav link (inside the menu),
      elsewhere inside the menu, or outside both. */
  datatype ClickTarget = Hamburger | NavLink | InsideMenu | Outside

  datatype Action =
    | Click(target: ClickTarget)
    | KeyDown(onHamburger: bool, key: string)
    | Resize(width: int)

  /** A click on `t`: its own listener, then the document's. */
  function ClickOn(m: Menu, t: ClickTarget): Menu {
    match t
    case Hamburger => AfterDocumentClick(AfterHamburgerClick(m), false, true)
    case NavLink => AfterDocumentClick(AfterNavLinkClick(m), true, false)
    case InsideMenu => AfterDocumentClick(m, true, false)
    case Outside => AfterDocumentClick(m, false, false)
  }

  /** One user action. A key pressed on the hamburger reaches its keydown
      listener (which, for Enter or Space, clicks it) and then bubbles to the
      document's keydown listener. */
  function Step(m: Menu, a: Action): Menu {
    match a
    case Click(t) => ClickOn(m, t)
    case KeyDown(onHamburger, key) =>
      var clicked := if onHamburger && ActivationKey(key) then ClickOn(m, Hamburger) else m;
      AfterDocumentKeyDown(clicked, key)
    case Resize(width) => AfterResize(m, width)
  }

  /** The state after a sequence of user actions. */
  function Run(m: Menu, actions: seq<Action>): Menu {
    if |actions| == 0 then m
    else Step(Run(m, actions[..|actions| - 1]), actions[|actions| - 1])
  }

  // ----- properties -----

  /** A hamburger click flips both classes (the document listener it bubbles
      to leaves them alone); two clicks restore the state. */
  lemma HamburgerClickToggles(m: Menu)
    ensures Step(m, Click(Hamburger)) == Menu(!m.hamburgerActive, !m.menuActive)
    ensures InSync(m) ==> InSync(Step(m, Click(Hamburger)))
    ensures Step(Step(m, Click(Hamburger)), Click(Hamburger)) == m
  {
  }

  /** Enter or Space on the hamburger does what a click on it does. */
  lemma KeyActivationIsClick(m: Menu, key: string)
    requires ActivationKey(key)
    ensures Step(m, KeyDown(true, key)) == Step(m, Click(Hamburger))
  {
  }

  /** A click on a nav link closes the menu whatever its state; doing it
      twice is doing it once. */
  lemma NavLinkClickCloses(m: Menu)
    ensures Step(m, Click(NavLink)) == Closed
    ensures Step(Step(m, Click(NavLink)), Click(NavLink)) == Step(m, Click(NavLink))
  {
  }

  /** A click outside both the menu and the hamburger closes an open menu
      fully and changes nothing when the menu is already closed. */
  lemma OutsideClickCloses(m: Menu)
    ensures !Step(m, Click(Outside)).menuActive
    ensures Step(m, Click(Outside)) == if m.menuActive then Closed else m
  {
  }

  /** Escape, wherever it is pressed, closes an open menu fully and changes
      nothing when the menu is already closed. */
  lemma EscapeCloses(m: Menu, onHamburger: bool)
    ensures !Step(m, KeyDown(onHamburger, "Escape")).menuActive
    ensures Step(m, KeyDown(onHamburger, "Escape")) == if m.menuActive then Closed else m
  {
  }

  /** A resize above the desktop width closes an open menu fully and changes
      nothing when the menu is already closed; a resize to the desktop width
      or less never changes anything. */
  lemma ResizeCloses(m: Menu, width: int)
    ensures width > DesktopWidth ==> !Step(m, Resize(width)).menuActive
    ensures Step(m, Resize(width)) == if width > DesktopWidth && m.menuActive then Closed else m
    ensures width <= DesktopWidth ==> Step(m, Resize(width)) == m
  {
  }

  /** A click inside the menu that is not on a link changes nothing. */
  lemma InsideMenuClickIsNeutral(m: Menu)
    ensures Step(m, Click(InsideMenu)) == m
  {
  }

  /** Every action keeps the two classes equal. */
  lemma StepKeepsSync(m: Menu, a: Action)
    requires InSync(m)
    ensures InSync(Step(m, a))
  {
  }

  /** Starting with equal classes, they are equal after any sequence of
      actions, hence at every point along it. */
  lemma {:induction false} RunKeepsSync(m: Menu, actions: seq<Action>)
    requires InSync(m)
    ensures InSync(Run(m, actions))
  {
    if |actions| > 0 {
      RunKeepsSync(m, actions[..|actions| - 1]);
      StepKeepsSync(Run(m, actions[..|actions| - 1]), actions[|actions| - 1]);
    }
  }

  // ----- the listeners as methods on the page's two flags -----

  class NavMenu {
    var hamburgerActive: bool
    var menuActive: bool

    function State(): Menu
      reads this
    {
      Menu(hamburgerActive, menuActive)
    }

    constructor (hamburgerActive: bool, menuActive: bool)
      ensures State() == Menu(hamburgerActive, menuActive)
    {
      this.hamburgerActive := hamburgerActive;
      this.menuActive := menuActive;
    }

    method OnHamburgerClick()
      modifies this
      ensures State() == AfterHamburgerClick(old(State()))
    {
      hamburgerActive := !hamburgerActive;
      menuActive := !menuActive;
    }

    method OnNavLinkClick()
      modifies this
      ensures State() == AfterNavLinkClick(old(State()))
    {
      hamburgerActive := false;
      menuActive := false;
    }

    method OnDocumentClick(insideNav: bool, onHamburger: bool)
      modifies this
      ensures State() == AfterDocumentClick(old(State()), insideNav, onHamburger)
    {
      if !insideNav && !onHamburger && menuActive {
        hamburgerActive := false;
        menuActive := false;
      }
    }

    method OnDocumentKeyDown(key: string)
      modifies this
      ensures State() == AfterDocumentKeyDown(old(State()), key)
    {
      if key == "Escape" && menuActive {
        hamburgerActive := false;
        menuActive := false;
      }
    }

    method OnResize(width: int)
      modifies this
      ensures State() == AfterResize(old(State()), width)
    {
      if width > DesktopWidth && menuActive {
        hamburgerActive := false;
        menuActive := false;
      }
    }

    /** A click dispatched on `t`, by the user or by `OnHamburgerKeyDown`. */
    method Click(t: ClickTarget)
      modifies this
      ensures State() == ClickOn(old(State()), t)
    {
      match t
      case Hamburger =>
        OnHamburgerClick();
        OnDocumentClick(false, true);
      case NavLink =>
        OnNavLinkClick();
        OnDocumentClick(true, false);
      case InsideMenu =>
        OnDocumentClick(true, false);
      case Outside =>
        OnDocumentClick(false, false);
    }

    /** The hamburger's keydown listener: Enter or Space clicks it. */
    method OnHamburgerKeyDown(key: string)
      modifies this
      ensures State() == if ActivationKey(key) then ClickOn(old(State()), Hamburger) else old(State())
    {
      if key == "Enter" || key == " " {
        Click(Hamburger);
      }
    }

    /** One user action, through every listener it reaches. */
    method Dispatch(a: Action)
      modifies this
      ensures State() == Step(old(State()), a)
      ensures old(InSync(State())) ==> InSync(State())
    {
      match a
      case Click(t) =>
        Click(t);
      case KeyDown(onHamburger, key) =>
        if onHamburger {
          OnHamburgerKeyDown(key);
        }
        OnDocumentKeyDown(key);
      case Resize(width) =>
        OnResize(width);
    }
  }
}
