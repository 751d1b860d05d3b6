/**
 * The mobile menu: clicking the hamburger toggles `active` on it and on the navigation
 * menu; clicking a navigation link removes `active` from both.
 */
module Menu {

  datatype Click = Hamburger | NavLink

  /** The two `active` flags: the hamburger's and the menu's. */
  datatype Flags = Flags(hamburger: bool, menu: bool)

  /** The effect of one click handler. */
  function Step(f: Flags, c: Click): Flags {
    match c
    case Hamburger => Flags(!f.hamburger, !f.menu)
    case NavLink => Flags(false, false)
  }

  /** The flags after a sequence of clicks, the last one handled last. */
  function After(f: Flags, clicks: seq<Click>): Flags {
    if clicks == [] then f else Step(After(f, clicks[..|clicks| - 1]), clicks[|clicks| - 1])
  }

  /** Flags that start equal stay equal, whatever is clicked. */
  lemma {:induction false} EqualStaysEqual(f: Flags, clicks: seq<Click>)
    requires f.hamburger == f.menu
    ensures After(f, clicks).hamburger == After(f, clicks).menu
  {
    if clicks != [] {
      EqualStaysEqual(f, clicks[..|clicks| - 1]);
    }
  }

  /** Flags that start apart stay apart until a link is clicked, and equal from then on. */
  lemma {:induction false} ApartUntilLink(f: Flags, clicks: seq<Click>)
    requires f.hamburger != f.menu
    ensures After(f, clicks).hamburger == After(f, clicks).menu <==> NavLink in clicks
  {
    if clicks != [] {
      var init := clicks[..|clicks| - 1];
      ApartUntilLink(f, init);
      assert clicks == init + [clicks[|clicks| - 1]];
      if NavLink in init {
        var j :| 0 <= j < |init| && init[j] == NavLink;
        LinkThenEqual(f, clicks, j);
      }
    }
  }

  /** After a link click, the flags are equal for good. */
  lemma {:induction false} LinkThenEqual(f: Flags, clicks: seq<Click>, j: nat)
    requires j < |clicks| && clicks[j] == NavLink
    ensures After(f, clicks).hamburger == After(f, clicks).menu
  {
    if j < |clicks| - 1 {
      LinkThenEqual(f, clicks[..|clicks| - 1], j);
    }
  }

  class MobileMenu {
    var hamburgerActive: bool
    var menuActive: bool

    function State(): Flags
      reads this
    {
      Flags(hamburgerActive, menuActive)
    }

    constructor (hamburgerActive: bool, menuActive: bool)
      ensures State() == Flags(hamburgerActive, menuActive)
    {
      this.hamburgerActive := hamburgerActive;
      this.menuActive := menuActive;
    }

    /** The hamburger's click handler. */
    method ClickHamburger()
      modifies this
      ensures State() == Step(old(State()), Hamburger)
      ensures old(hamburgerActive == menuActive) ==> hamburgerActive == menuActive
    {
      hamburgerActive := !hamburgerActive;
      menuActive := !menuActive;
    }

    /** A navigation link's click handler. */
    method ClickLink()
      modifies this
      ensures State() == Step(old(State()), NavLink)
      ensures !hamburgerActive && !menuActive
    {
      hamburgerActive := false;
      menuActive := false;
    }
  }
}
