/**
 * `initNavigation` (script.js:19-61): the "scrolled" look of the navigation bar
 * and the open/closed state of the mobile menu.
 *
 * The three flags are the class lists the handlers change: "scrolled" on
 * `.main-nav`, "active" on `.nav-links` (the menu) and "active" on
 * `.nav-toggle` (its button). Both the menu links and the toggle button lie
 * inside `.main-nav` on the page.
 */
module Navigation {

  /** The scroll offset, in CSS pixels, beyond which the bar counts as scrolled. */
  const ScrolledAbove: real := 100.0

  /** Where a click on the page lands, as far as these handlers can tell. */
  datatype ClickTarget =
    | ToggleButton   // `.nav-toggle`
    | MenuLink       // an `a` inside `.nav-links`
    | ElsewhereInNav // anything else inside `.main-nav`
    | OutsideNav     // anything not inside `.main-nav`

  class Nav {
    var scrolled: bool      // `.main-nav` has the class "scrolled"
    var linksActive: bool   // `.nav-links` has the class "active"
    var toggleActive: bool  // `.nav-toggle` has the class "active"

    /** The menu and its button show the same state: the invariant every handler keeps. */
    predicate Synced()
      reads this
    {
      linksActive == toggleActive
    }

    /** The page as loaded: at the top, menu closed. */
    constructor ()
      ensures !scrolled && !linksActive && !toggleActive && Synced()
    {
      scrolled, linksActive, toggleActive := false, false, false;
    }

    /** The window's scroll listener (script.js:27-38). */
    method OnScroll(pageYOffset: real)
      modifies this
      ensures scrolled <==> pageYOffset > ScrolledAbove
      ensures linksActive == old(linksActive) && toggleActive == old(toggleActive)
    {
      if pageYOffset > ScrolledAbove {
        scrolled := true;
      } else {
        scrolled := false;
      }
    }

    /** The toggle button's click listener (script.js:41-44): both classes flip. */
    method OnToggleClick()
      modifies this
      ensures linksActive == !old(linksActive) && toggleActive == !old(toggleActive)
      ensures scrolled == old(scrolled)
      ensures old(Synced()) ==> Synced()
    {
      linksActive := !linksActive;
      toggleActive := !toggleActive;
    }

    /** A menu link's click listener (script.js:47-52): the menu closes. */
    method OnLinkClick()
      modifies this
      ensures !linksActive && !toggleActive && Synced()
      ensures scrolled == old(scrolled)
    {
      linksActive := false;
      toggleActive := false;
    }

    /** The document's click listener (script.js:55-60): a click outside the bar
        closes an open menu and does nothing otherwise. */
    method OnDocumentClick(targetInNav: bool)
      modifies this
      ensures (linksActive, toggleActive) != old((linksActive, toggleActive))
              <==> !targetInNav && old(linksActive)
      ensures !targetInNav && old(linksActive) ==> !linksActive && !toggleActive
      ensures targetInNav || !old(linksActive) ==>
                linksActive == old(linksActive) && toggleActive == old(toggleActive)
      ensures scrolled == old(scrolled)
      ensures old(Synced()) ==> Synced()
    {
      if !targetInNav && linksActive {
        linksActive := false;
        toggleActive := false;
      }
    }

    /** One click as the browser delivers it: first the listener on the element
        clicked, then, as the event bubbles up, the document's listener. */
    method Click(target: ClickTarget)
      requires Synced()
      modifies this
      ensures Synced() && scrolled == old(scrolled)
      ensures target == ToggleButton ==> linksActive == !old(linksActive)
      ensures target == MenuLink || target == OutsideNav ==> !linksActive
      ensures target == ElsewhereInNav ==> linksActive == old(linksActive)
    {
      match target
      case ToggleButton =>
        OnToggleClick();
        OnDocumentClick(true);
      case MenuLink =>
        OnLinkClick();
        OnDocumentClick(true);
      case ElsewhereInNav =>
        OnDocumentClick(true);
      case OutsideNav =>
        OnDocumentClick(false);
    }
  }
}
