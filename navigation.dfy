/**
 * What the header and the mobile menu share: the site's navigation items and
 * call-to-action buttons, the rule that marks a navigation item active for the
 * current path, and the anchor attributes a call-to-action button renders.
 */
module Navigation {
  import opened Js
  import opened Strings

  /** A navigation link; `text` is the source's `label`. */
  datatype NavItem = NavItem(text: string, href: string)

  datatype CtaButton = CtaButton(text: string, href: string, icon: string, isExternal: Option<bool>, ariaLabel: string)

  /** `navItems` of the site configuration. */
  const NavItems: seq<NavItem> := [
    NavItem("Home", "/"), NavItem("Projects", "/projects"), NavItem("Case Studies", "/case-studies"),
    NavItem("Experience", "/experience"), NavItem("Contact", "/contact")]

  /** `ctaButtons` of the site configuration. */
  const CtaButtons: seq<CtaButton> := [
    CtaButton("Resume", "/resume.pdf", "download", None, "Download my resume as PDF"),
    CtaButton("GitHub", "https://github.com/rajeevkavala", "github", Some(true), "View my GitHub profile")]

  /** `isActiveRoute`: the home link matches only the root path; every other
      link matches any path that starts with its href. */
  predicate IsActiveRoute(href: string, currentPath: string) {
    if href == "/" then currentPath == "/" else StartsWith(currentPath, href)
  }

  /** The home link is active on the root path alone; any other link is active
      exactly when the path is its href followed by anything at all. */
  lemma IsActiveRouteMeans(href: string, currentPath: string)
    ensures href == "/" ==> (IsActiveRoute(href, currentPath) <==> currentPath == "/")
    ensures href != "/" ==> (IsActiveRoute(href, currentPath) <==> exists rest :: currentPath == href + rest)
  {
    if href != "/" && StartsWith(currentPath, href) {
      assert currentPath == href + currentPath[|href|..];
    }
    if href != "/" && exists rest :: currentPath == href + rest {
      var rest :| currentPath == href + rest;
      assert currentPath[..|href|] == href;
    }
  }

  /** The prefix test is raw: "/projects" is active on a sub-page and also on
      "/projectsx"; the home link is not active on "/projects". */
  lemma RawPrefixExamples()
    ensures IsActiveRoute("/projects", "/projects/resumebuddy")
    ensures IsActiveRoute("/projects", "/projectsx")
    ensures !IsActiveRoute("/", "/projects")
  {
    assert "/projects/resumebuddy" == "/projects" + "/resumebuddy";
    assert "/projectsx" == "/projects" + "x";
    IsActiveRouteMeans("/projects", "/projects/resumebuddy");
    IsActiveRouteMeans("/projects", "/projectsx");
  }

  /** Two hrefs that differ at a position both reach cannot both start one path. */
  lemma PrefixesDiffer(s: string, a: string, b: string, k: nat)
    requires k < |a| && k < |b| && a[k] != b[k]
    ensures !(StartsWith(s, a) && StartsWith(s, b))
  {
    if StartsWith(s, a) {
      assert s[k] == s[..|a|][k] == a[k];
      assert |b| <= |s| ==> s[..|b|][k] != b[k];
    }
  }

  /** With the shipped navigation items, no path highlights two items. */
  lemma AtMostOneActiveNavItem(currentPath: string)
    ensures forall i, j :: 0 <= i < j < |NavItems| ==>
      !(IsActiveRoute(NavItems[i].href, currentPath) && IsActiveRoute(NavItems[j].href, currentPath))
  {
    var p, c, e, t := "/projects", "/case-studies", "/experience", "/contact";
    assert p[1] == 'p' && c[1] == 'c' && e[1] == 'e' && t[1] == 'c' && c[2] == 'a' && t[2] == 'o';
    PrefixesDiffer(currentPath, p, c, 1);
    PrefixesDiffer(currentPath, p, e, 1);
    PrefixesDiffer(currentPath, p, t, 1);
    PrefixesDiffer(currentPath, c, e, 1);
    PrefixesDiffer(currentPath, c, t, 2);
    PrefixesDiffer(currentPath, e, t, 1);
    if currentPath == "/" {
      assert !StartsWith(currentPath, p) && !StartsWith(currentPath, c);
      assert !StartsWith(currentPath, e) && !StartsWith(currentPath, t);
    }
  }

  datatype Variant = Default | Outline | Ghost

  /** The attributes of a call-to-action anchor. `download` is `None` when the
      attribute is absent. */
  datatype Anchor = Anchor(
    href: string, variant: Variant, target: Option<string>, rel: Option<string>,
    download: Option<bool>, ariaLabel: string)

  /** The anchor a call-to-action button renders; every button other than
      "Resume" takes the variant `otherVariant` of the surrounding bar. */
  function CtaAnchor(cta: CtaButton, otherVariant: Variant): Anchor {
    var resume := cta.text == "Resume";
    var external := cta.isExternal == Some(true);
    Anchor(
      cta.href,
      if resume then Default else otherVariant,
      if external then Some("_blank") else None,
      if external then Some("noopener noreferrer") else None,
      if resume then Some(true) else None,
      cta.ariaLabel)
  }

  /** Only "Resume" is drawn in the default variant and downloads; only an
      external button opens a new tab, and then always with `noopener noreferrer`. */
  lemma CtaAnchorMeans(cta: CtaButton, otherVariant: Variant)
    requires otherVariant != Default
    ensures var a := CtaAnchor(cta, otherVariant);
      && a.href == cta.href && a.ariaLabel == cta.ariaLabel
      && (a.variant == Default <==> cta.text == "Resume")
      && (a.download.Some? <==> cta.text == "Resume")
      && (a.download.Some? ==> a.download.value)
      && (a.target.Some? <==> cta.isExternal == Some(true))
      && (a.rel.Some? <==> a.target.Some?)
      && (a.target.Some? ==> a.target.value == "_blank" && a.rel.value == "noopener noreferrer")
  {
  }

  /** The shipped buttons: the résumé downloads in place, GitHub opens in a new tab. */
  lemma ShippedCtaAnchors(otherVariant: Variant)
    requires otherVariant != Default
    ensures CtaAnchor(CtaButtons[0], otherVariant).download == Some(true)
    ensures CtaAnchor(CtaButtons[0], otherVariant).target == None
    ensures CtaAnchor(CtaButtons[1], otherVariant).download == None
    ensures CtaAnchor(CtaButtons[1], otherVariant).target == Some("_blank")
    ensures CtaAnchor(CtaButtons[1], otherVariant).variant == otherVariant
  {
    assert CtaButtons[1].text[0] == 'G';
  }
}
