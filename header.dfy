/**
 * The site header: its scrolled look past a small offset, the mobile menu's
 * open flag and the lock on page scrolling that follows it, the desktop
 * navigation highlight and call-to-action buttons, and the scroll progress bar.
 */
module Header {
  import opened Js
  import opened Navigation
  import MobileNav

  /** The scroll offset, in pixels, past which the header takes its scrolled look. */
  const ScrollThreshold: real := 10.0

  /** The header's `isScrolled` and `isMobileMenuOpen` state, and the page
      body's `overflow` style as the header's effect leaves it. */
  class HeaderState {
    var isScrolled: bool
    var isMobileMenuOpen: bool
    var bodyOverflow: string

    /** The page scrolls exactly while the menu is closed. */
    predicate Valid()
      reads this
    {
      bodyOverflow == if isMobileMenuOpen then "hidden" else ""
    }

    /** The first render, once its effect has run: not scrolled, menu closed,
        page scrolling. */
    constructor ()
      ensures Valid()
      ensures !isScrolled && !isMobileMenuOpen && bodyOverflow == ""
    {
      isScrolled := false;
      isMobileMenuOpen := false;
      bodyOverflow := "";
    }

    /** `handleScroll`: the scrolled look holds exactly past the threshold. */
    method HandleScroll(scrollY: real)
      modifies this
      ensures isScrolled == (scrollY > ScrollThreshold)
      ensures isMobileMenuOpen == old(isMobileMenuOpen) && bodyOverflow == old(bodyOverflow)
    {
      isScrolled := scrollY > ScrollThreshold;
    }

    /** The effect that runs whenever `isMobileMenuOpen` changes. */
    method SyncBodyOverflow()
      modifies this
      ensures Valid()
      ensures isScrolled == old(isScrolled) && isMobileMenuOpen == old(isMobileMenuOpen)
    {
      if isMobileMenuOpen {
        bodyOverflow := "hidden";
      } else {
        bodyOverflow := "";
      }
    }

    /** The menu button: the menu opens and the page stops scrolling. */
    method OpenMenu()
      modifies this
      ensures Valid()
      ensures isMobileMenuOpen && bodyOverflow == "hidden" && isScrolled == old(isScrolled)
    {
      isMobileMenuOpen := true;
      SyncBodyOverflow();
    }

    /** `onClose`, as the mobile menu calls it: the menu closes and the page
        scrolls again. */
    method CloseMenu()
      modifies this
      ensures Valid()
      ensures !isMobileMenuOpen && bodyOverflow == "" && isScrolled == old(isScrolled)
    {
      isMobileMenuOpen := false;
      SyncBodyOverflow();
    }

    /** A key press reaching the mobile menu's Escape handler: Escape closes an
        open menu; any other key, or Escape on a closed menu, changes nothing. */
    method HandleEscape(key: string)
      requires Valid()
      modifies this
      ensures Valid()
      ensures isScrolled == old(isScrolled)
      ensures isMobileMenuOpen == (old(isMobileMenuOpen) && key != "Escape")
      ensures !MobileNav.EscapeCallsClose(key, old(isMobileMenuOpen)) ==> bodyOverflow == old(bodyOverflow)
    {
      if MobileNav.EscapeCallsClose(key, isMobileMenuOpen) {
        CloseMenu();
      }
    }

    /** The effect's cleanup when the header goes away: the page scrolls again
        whatever the menu's state. */
    method Unmount()
      modifies this
      ensures bodyOverflow == ""
      ensures isScrolled == old(isScrolled) && isMobileMenuOpen == old(isMobileMenuOpen)
    {
      bodyOverflow := "";
    }
  }

  /** Which of the shipped navigation items the desktop bar highlights on `pathname`. */
  function DesktopHighlights(pathname: string): seq<bool> {
    seq(|NavItems|, i requires 0 <= i < |NavItems| => IsActiveRoute(NavItems[i].href, pathname))
  }

  /** The desktop bar highlights at most one item, highlights "Home" on the
      root path alone, and highlights exactly the links the open mobile menu
      highlights, since the menu is given the same path. */
  lemma DesktopHighlightsMeans(pathname: string)
    ensures |DesktopHighlights(pathname)| == |NavItems|
    ensures forall i, j :: 0 <= i < j < |NavItems| ==> !(DesktopHighlights(pathname)[i] && DesktopHighlights(pathname)[j])
    ensures DesktopHighlights(pathname)[0] <==> pathname == "/"
    ensures var panel := MobileNav.Render(true, NavItems, CtaButtons, pathname);
      panel.Some? && forall i :: 0 <= i < |NavItems| ==> panel.value.links[i].active == DesktopHighlights(pathname)[i]
  {
    AtMostOneActiveNavItem(pathname);
    MobileNav.RenderMeans(true, NavItems, CtaButtons, pathname);
  }

  /** The desktop call-to-action anchors: every button but "Resume" is a ghost button. */
  function DesktopCtas(): seq<Anchor> {
    seq(|CtaButtons|, j requires 0 <= j < |CtaButtons| => CtaAnchor(CtaButtons[j], Ghost))
  }

  /** On the desktop bar the résumé downloads in place and GitHub opens in a
      new tab as a ghost button; the mobile panel's buttons differ only in the
      variant of the non-résumé button. */
  lemma DesktopCtasMeans()
    ensures |DesktopCtas()| == 2
    ensures DesktopCtas()[0].download == Some(true) && DesktopCtas()[0].target == None
    ensures DesktopCtas()[1].download == None && DesktopCtas()[1].target == Some("_blank")
    ensures DesktopCtas()[1].variant == Ghost
    ensures forall j :: 0 <= j < |CtaButtons| ==>
      DesktopCtas()[j].(variant := Default) == CtaAnchor(CtaButtons[j], Outline).(variant := Default)
  {
    ShippedCtaAnchors(Ghost);
  }

  /** `updateProgress`: the scrolled share of the scrollable height, in percent,
      and 0 when the page is no taller than the window. */
  function ScrollProgress(scrollTop: real, scrollHeight: real, innerHeight: real): real {
    var docHeight := scrollHeight - innerHeight;
    if docHeight > 0.0 then scrollTop / docHeight * 100.0 else 0.0
  }

  /** A page that cannot scroll shows no progress; otherwise the bar runs from
      0 at the top to 100 at the bottom and grows as the page scrolls. */
  lemma ScrollProgressBounds(scrollTop: real, scrollHeight: real, innerHeight: real)
    ensures scrollHeight - innerHeight <= 0.0 ==> ScrollProgress(scrollTop, scrollHeight, innerHeight) == 0.0
    ensures 0.0 <= scrollTop <= scrollHeight - innerHeight ==>
      0.0 <= ScrollProgress(scrollTop, scrollHeight, innerHeight) <= 100.0
    ensures scrollHeight - innerHeight > 0.0 && scrollTop == scrollHeight - innerHeight ==>
      ScrollProgress(scrollTop, scrollHeight, innerHeight) == 100.0
  {
    var d := scrollHeight - innerHeight;
    if d > 0.0 && 0.0 <= scrollTop <= d {
      assert scrollTop / d <= 1.0;
    }
  }

  /** Scrolling further down never shrinks the bar. */
  lemma ScrollProgressMonotone(top1: real, top2: real, scrollHeight: real, innerHeight: real)
    requires top1 <= top2
    ensures ScrollProgress(top1, scrollHeight, innerHeight) <= ScrollProgress(top2, scrollHeight, innerHeight)
  {
    var d := scrollHeight - innerHeight;
    if d > 0.0 {
      assert top1 / d <= top2 / d;
    }
  }
}
