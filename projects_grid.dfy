/**
 * The projects grid: which projects it lays out as cards, the empty state, and
 * how a project's fields become a card's properties.
 */
module ProjectsGrid {
  import opened Js
  import opened ProjectsData
  import ProjectCard

  /** What the grid renders: the empty state "No projects to display." or one
      card per project, in order. */
  datatype Grid = NoProjects | Cards(cards: seq<ProjectCard.Props>)

  function NotFeatured(p: Project): bool {
    !p.featured
  }

  /** `gridProjects`. `showFeatured` defaults to true, and true means the
      featured projects are shown elsewhere, so the grid leaves them out. */
  function GridProjects(projects: seq<Project>, showFeatured: Option<bool>): seq<Project> {
    var hideFeatured := if showFeatured.Some? then showFeatured.value else true;
    if hideFeatured then Filter(projects, NotFeatured) else projects
  }

  /** The properties a project's card receives. */
  function CardProps(p: Project): ProjectCard.Props {
    ProjectCard.Props(
      p.slug, p.title, p.shortDescription, p.thumbnail, p.techStack,
      p.liveUrl, p.githubUrl, p.caseStudySlug, Some(p.featured))
  }

  /** `ProjectsGrid`. */
  function Render(projects: seq<Project>, showFeatured: Option<bool>): Grid {
    var shown := GridProjects(projects, showFeatured);
    if |shown| == 0 then NoProjects
    else Cards(seq(|shown|, i requires 0 <= i < |shown| => CardProps(shown[i])))
  }

  /** By default, and when `showFeatured` is true, the grid keeps exactly the
      projects that are not featured, each as often as given, in order; when it
      is false the grid keeps the list as it is. */
  lemma GridProjectsMean(projects: seq<Project>, showFeatured: Option<bool>)
    ensures showFeatured != Some(false) ==>
      && IsSubsequence(GridProjects(projects, showFeatured), projects)
      && forall p :: multiset(GridProjects(projects, showFeatured))[p] == if p.featured then 0 else multiset(projects)[p]
    ensures showFeatured == Some(false) ==> GridProjects(projects, showFeatured) == projects
  {
    FilterExactly(projects, NotFeatured);
  }

  /** The empty state shows exactly when no project is left to lay out;
      otherwise there is one card per project, in order, and each card shows
      the featured badge exactly when its project is featured. */
  lemma RenderMeans(projects: seq<Project>, showFeatured: Option<bool>)
    ensures Render(projects, showFeatured).NoProjects? <==> GridProjects(projects, showFeatured) == []
    ensures Render(projects, showFeatured).Cards? ==>
      var shown := GridProjects(projects, showFeatured);
      var cards := Render(projects, showFeatured).cards;
      && |cards| == |shown|
      && forall i :: 0 <= i < |cards| ==>
           cards[i] == CardProps(shown[i]) && (ProjectCard.Render(cards[i]).featured <==> shown[i].featured)
  {
  }

  /** A card describes its project: the short description, the thumbnail and
      the full tech stack are what the card shows as description, image and
      tags, and the card's title leads to the project's page. */
  lemma CardPropsMean(p: Project)
    ensures CardProps(p).description == p.shortDescription && CardProps(p).image == p.thumbnail
    ensures CardProps(p).tags == p.techStack && CardProps(p).featured == Some(p.featured)
    ensures ProjectCard.Render(CardProps(p)).titleHref == "/projects/" + p.slug
    ensures ProjectCard.Render(CardProps(p)).featured == p.featured
  {
  }

  /** On the projects page the featured project has its own banner, so the
      grid of the shipped projects holds the other two; with `showFeatured`
      false it holds all three. */
  lemma ShippedGrid()
    ensures GridProjects(Projects, None) == [NoteAura, CodeMasters]
    ensures Render(Projects, Some(false)).Cards? && |Render(Projects, Some(false)).cards| == 3
  {
    assert Projects[1..] == [NoteAura, CodeMasters] && Projects[2..] == [CodeMasters] && Projects[3..] == [];
    assert Filter(Projects[2..], NotFeatured) == [CodeMasters];
    assert Filter(Projects[1..], NotFeatured) == [NoteAura, CodeMasters];
  }
}
