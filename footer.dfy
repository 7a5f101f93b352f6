/**
 * The footer's social buttons: one per social link, in order, with the icon
 * looked up by key (and no icon when the key is unknown), and a new tab for
 * every link except an e-mail address.
 */
module Footer {
  import opened Js
  import opened Strings

  datatype SocialLink = SocialLink(name: string, href: string, icon: string, ariaLabel: string)

  /** `socialLinks`. */
  const SocialLinks: seq<SocialLink> := [
    SocialLink("GitHub", "https://github.com/rajeevkavala", "github", "View my GitHub profile"),
    SocialLink("LinkedIn", "https://linkedin.com/in/rajeevkavala", "linkedin", "Connect with me on LinkedIn"),
    SocialLink("Twitter", "https://twitter.com/rajeevkavala", "twitter", "Follow me on Twitter"),
    SocialLink("Email", "mailto:contact@rajeevkavala.dev", "mail", "Send me an email")]

  datatype SocialIcon = Github | Linkedin | Twitter | Mail

  /** The footer's `iconMap`. */
  const IconMap: map<string, SocialIcon> := map["github" := Github, "linkedin" := Linkedin, "twitter" := Twitter, "mail" := Mail]

  /** `iconMap[social.icon]`: `undefined` for a key the map lacks. */
  function IconOf(key: string): (r: Option<SocialIcon>)
    ensures r.Some? <==> key in IconMap
    ensures r.Some? ==> r.value == IconMap[key]
  {
    if key in IconMap then Some(IconMap[key]) else None
  }

  /** One rendered social button; `icon` is `None` when `{Icon && ...}` renders nothing. */
  datatype Button = Button(href: string, target: Option<string>, rel: Option<string>, ariaLabel: string, icon: Option<SocialIcon>)

  function SocialButton(s: SocialLink): Button {
    var mail := StartsWith(s.href, "mailto:");
    Button(
      s.href,
      if mail then None else Some("_blank"),
      if mail then None else Some("noopener noreferrer"),
      s.ariaLabel,
      IconOf(s.icon))
  }

  /** `socialLinks.map(...)`. */
  function SocialButtons(links: seq<SocialLink>): seq<Button> {
    seq(|links|, i requires 0 <= i < |links| => SocialButton(links[i]))
  }

  /** One button per link, in order, each keeping its link's address and
      label; a button opens a new tab, safely, exactly when its address is not
      a `mailto:` one; it has an icon exactly when the map knows the key. */
  lemma SocialButtonsMean(links: seq<SocialLink>)
    ensures |SocialButtons(links)| == |links|
    ensures forall i :: 0 <= i < |links| ==>
      var b := SocialButtons(links)[i];
      && b.href == links[i].href && b.ariaLabel == links[i].ariaLabel
      && (b.target.Some? <==> !StartsWith(links[i].href, "mailto:"))
      && (b.rel.Some? <==> b.target.Some?)
      && (b.target.Some? ==> b.target.value == "_blank" && b.rel.value == "noopener noreferrer")
      && (b.icon.None? <==> links[i].icon !in IconMap)
  {
  }

  /** Unlike the skill icons, the footer has no fallback: an unknown key, or a
      known one written in another case, shows no icon at all. */
  lemma UnknownKeyNoIcon()
    ensures IconOf("GitHub").None? && IconOf("email").None?
    ensures IconOf("github") == Some(Github)
  {
    assert "GitHub" != "github" by { assert "GitHub"[0] != "github"[0]; }
    assert "email"[0] == 'e';
  }

  /** An address that does not begin with `m` is not a `mailto:` one. */
  lemma NotMailto(href: string)
    requires href != [] && href[0] != 'm'
    ensures !StartsWith(href, "mailto:")
  {
    assert |href| >= 7 ==> href[..7][0] != "mailto:"[0];
  }

  /** Every shipped link's icon key is in the map, so every button has its icon. */
  lemma ShippedIconsPresent()
    ensures forall s :: s in SocialLinks ==> s.icon in IconMap
    ensures forall i :: 0 <= i < |SocialLinks| ==> SocialButtons(SocialLinks)[i].icon.Some?
  {
  }

  /** Only the e-mail link, the last one, stays in the same tab. */
  lemma ShippedTargets()
    ensures forall i :: 0 <= i < |SocialLinks| ==> (SocialButtons(SocialLinks)[i].target.None? <==> i == 3)
  {
    assert StartsWith(SocialLinks[3].href, "mailto:");
    NotMailto(SocialLinks[0].href);
    NotMailto(SocialLinks[1].href);
    NotMailto(SocialLinks[2].href);
  }
}
