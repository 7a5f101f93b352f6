/**
 * The project card: the first five tags with a "+k" badge for the rest, the
 * "Featured" badge and ring, the title link, and the three action buttons, each
 * shown by its own optional property.
 */
module ProjectCard {
  import opened Js

  /** The card's properties; `featured` defaults to false. */
  datatype Props = Props(
    slug: string, title: string, description: string, image: string, tags: seq<string>,
    liveUrl: Option<string>, githubUrl: Option<string>, caseStudySlug: Option<string>,
    featured: Option<bool>)

  /** How many tags the card shows before collapsing the rest into a badge. */
  const MaxTags: nat := 5

  datatype ActionKind = CaseStudy | LiveDemo | Code

  /** An action button; `external` buttons open in a new tab with
      `rel="noopener noreferrer"`. */
  datatype Action = Action(kind: ActionKind, href: string, external: bool, ariaLabel: Option<string>)

  /** What the card renders. `overflow` is the number on the "+k" badge, if
      there is one; `featured` covers both the badge and the ring. */
  datatype Card = Card(
    titleHref: string, thumbnailAlt: string, tags: seq<string>, overflow: Option<nat>,
    featured: bool, actions: seq<Action>)

  /** The `featured = false` default. */
  predicate IsFeatured(p: Props) {
    p.featured == Some(true)
  }

  /** `{caseStudySlug && ...}`: the in-site link to the case study. */
  function CaseStudyButton(p: Props): seq<Action> {
    if Truthy(p.caseStudySlug) then [Action(CaseStudy, "/case-studies/" + p.caseStudySlug.value, false, None)]
    else []
  }

  /** `{liveUrl && ...}`. */
  function LiveDemoButton(p: Props): seq<Action> {
    if Truthy(p.liveUrl) then [Action(LiveDemo, p.liveUrl.value, true, Some("View " + p.title + " live demo"))]
    else []
  }

  /** `{githubUrl && ...}`. */
  function CodeButton(p: Props): seq<Action> {
    if Truthy(p.githubUrl) then [Action(Code, p.githubUrl.value, true, Some("View " + p.title + " source code on GitHub"))]
    else []
  }

  function Actions(p: Props): seq<Action> {
    CaseStudyButton(p) + LiveDemoButton(p) + CodeButton(p)
  }

  /** `ProjectCard`. */
  function Render(p: Props): Card {
    Card(
      "/projects/" + p.slug,
      p.title + " project thumbnail",
      Take(p.tags, MaxTags),
      if |p.tags| > MaxTags then Some(|p.tags| - MaxTags) else None,
      IsFeatured(p),
      Actions(p))
  }

  /** Whether the card shows a button of that kind. */
  predicate Shows(c: Card, k: ActionKind) {
    exists i :: 0 <= i < |c.actions| && c.actions[i].kind == k
  }

  /** The card shows the first five tags in their order; a badge appears
      exactly when there are more, and its number is how many are hidden, so
      the shown tags and the badge's count add up to all of them. */
  lemma TagsMean(p: Props)
    ensures var c := Render(p);
      && |c.tags| == (if |p.tags| < 5 then |p.tags| else 5)
      && (forall i :: 0 <= i < |c.tags| ==> c.tags[i] == p.tags[i])
      && (c.overflow.Some? <==> |p.tags| > 5)
      && (c.overflow.Some? ==> c.overflow.value > 0 && |c.tags| + c.overflow.value == |p.tags|)
      && (c.overflow.None? ==> c.tags == p.tags)
  {
  }

  /** Each button appears exactly when its own property is truthy, and the
      buttons come in the order "Case Study", "Live Demo", "Code". */
  lemma ActionsShown(p: Props)
    ensures Shows(Render(p), CaseStudy) <==> Truthy(p.caseStudySlug)
    ensures Shows(Render(p), LiveDemo) <==> Truthy(p.liveUrl)
    ensures Shows(Render(p), Code) <==> Truthy(p.githubUrl)
    ensures forall i, j :: 0 <= i < j < |Render(p).actions| ==>
      Rank(Render(p).actions[i].kind) < Rank(Render(p).actions[j].kind)
  {
    var cs, ld, gh := CaseStudyButton(p), LiveDemoButton(p), CodeButton(p);
    var acts := Render(p).actions;
    assert acts == cs + ld + gh;
    if Truthy(p.caseStudySlug) {
      assert acts[0].kind == CaseStudy;
    }
    if Truthy(p.liveUrl) {
      assert acts[|cs|].kind == LiveDemo;
    }
    if Truthy(p.githubUrl) {
      assert acts[|cs| + |ld|].kind == Code;
    }
    forall i | 0 <= i < |acts|
      ensures acts[i].kind == CaseStudy ==> Truthy(p.caseStudySlug)
      ensures acts[i].kind == LiveDemo ==> Truthy(p.liveUrl)
      ensures acts[i].kind == Code ==> Truthy(p.githubUrl)
      ensures Rank(acts[i].kind) == if i < |cs| then 0 else if i < |cs| + |ld| then 1 else 2
    {
      if i < |cs| {
        assert acts[i] == cs[i];
      } else if i < |cs| + |ld| {
        assert acts[i] == ld[i - |cs|];
      } else {
        assert acts[i] == gh[i - |cs| - |ld|];
      }
    }
  }

  /** "Case Study" links inside the site to `/case-studies/<caseStudySlug>`;
      "Live Demo" and "Code" open their URLs in a new tab. */
  lemma ActionTargets(p: Props)
    ensures forall a :: a in Render(p).actions && a.kind == CaseStudy ==>
      a.href == "/case-studies/" + p.caseStudySlug.value && !a.external
    ensures forall a :: a in Render(p).actions && a.kind == LiveDemo ==> a.href == p.liveUrl.value && a.external
    ensures forall a :: a in Render(p).actions && a.kind == Code ==> a.href == p.githubUrl.value && a.external
  {
    assert Render(p).actions == CaseStudyButton(p) + LiveDemoButton(p) + CodeButton(p);
  }

  /** The buttons in the order they are laid out. */
  function Rank(k: ActionKind): nat {
    match k
    case CaseStudy => 0
    case LiveDemo => 1
    case Code => 2
  }

  /** Each button depends on its own property alone: changing any other
      property neither adds nor removes it. */
  lemma ActionsIndependent(p: Props, q: Props, k: ActionKind)
    requires k == CaseStudy ==> p.caseStudySlug == q.caseStudySlug
    requires k == LiveDemo ==> p.liveUrl == q.liveUrl
    requires k == Code ==> p.githubUrl == q.githubUrl
    ensures Shows(Render(p), k) <==> Shows(Render(q), k)
  {
    ActionsShown(p);
    ActionsShown(q);
  }

  /** The badge and the ring appear exactly when `featured` is true; an
      absent `featured` counts as false. The title links to the project page. */
  lemma FeaturedAndTitle(p: Props)
    ensures Render(p).featured <==> p.featured == Some(true)
    ensures p.featured.None? ==> !Render(p).featured
    ensures Render(p).titleHref == "/projects/" + p.slug
  {
  }
}
