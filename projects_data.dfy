/**
 * The project records and the three helpers the data file exports: the
 * featured projects, the projects of one status, and the project of one slug.
 */
module ProjectsData {
  import opened Js
  import opened Dates

  datatype ProjectStatus = Completed | InProgress | Archived

  /** One project. Dates are `YYYY-MM`; an absent `endDate` means unfinished. */
  datatype Project = Project(
    slug: string,
    title: string,
    shortDescription: string,
    thumbnail: string,
    techStack: seq<string>,
    liveUrl: Option<string>,
    githubUrl: Option<string>,
    caseStudySlug: Option<string>,
    featured: bool,
    status: ProjectStatus,
    startDate: string,
    endDate: Option<string>,
    highlights: Option<seq<string>>,
    order: int)

  const ResumeBuddy := Project(
    "resumebuddy", "ResumeBuddy",
    "AI-powered resume optimization platform that analyzes and improves resumes for ATS compatibility.",
    "/images/projects/resumebuddy-thumbnail.png",
    ["Next.js", "TypeScript", "OpenAI", "Prisma", "PostgreSQL", "Tailwind CSS"],
    Some("https://resumebuddy.app"), Some("https://github.com/rajeevkavala/resumebuddy"), Some("resumebuddy"),
    true, Completed, "2025-06", Some("2025-09"),
    Some(["150+ active users", "AI-powered analysis using GPT-4", "Real-time ATS compatibility scoring"]),
    1)

  const NoteAura := Project(
    "noteaura", "NoteAura",
    "A modern note-taking application with AI-powered organization and search capabilities.",
    "/images/projects/noteaura-thumbnail.png",
    ["React", "Node.js", "MongoDB", "OpenAI", "Express"],
    Some("https://noteaura.app"), Some("https://github.com/rajeevkavala/noteaura"), None,
    false, Completed, "2025-03", Some("2025-05"), None, 2)

  const CodeMasters := Project(
    "code-masters-lms", "Code Masters LMS",
    "A learning management system for coding bootcamps with interactive exercises and progress tracking.",
    "/images/projects/codemasters-thumbnail.png",
    ["Next.js", "TypeScript", "PostgreSQL", "Prisma", "Tailwind CSS"],
    None, Some("https://github.com/rajeevkavala/code-masters-lms"), None,
    false, Completed, "2025-01", Some("2025-03"), None, 3)

  const Projects: seq<Project> := [ResumeBuddy, NoteAura, CodeMasters]

  function IsFeatured(p: Project): bool {
    p.featured
  }

  /** `featuredProjects`: exactly the featured projects, each once, in source order. */
  function FeaturedProjects(): (r: seq<Project>)
    ensures IsSubsequence(r, Projects)
    ensures forall p :: p in r <==> p in Projects && p.featured
  {
    FilterExactly(Projects, IsFeatured);
    var r := Filter(Projects, IsFeatured);
    assert forall p :: p in r <==> multiset(r)[p] > 0;
    r
  }

  function HasStatus(s: ProjectStatus): Project -> bool {
    (p: Project) => p.status == s
  }

  /** `getProjectsByStatus`: exactly the projects of that status, each once, in source order. */
  function GetProjectsByStatus(s: ProjectStatus): (r: seq<Project>)
    ensures IsSubsequence(r, Projects)
    ensures forall p :: p in r <==> p in Projects && p.status == s
  {
    FilterExactly(Projects, HasStatus(s));
    var r := Filter(Projects, HasStatus(s));
    assert forall p :: p in r <==> multiset(r)[p] > 0;
    r
  }

  function HasSlug(slug: string): Project -> bool {
    (p: Project) => p.slug == slug
  }

  /** `getProjectBySlug`: the first project with that slug, or `undefined`
      when there is none. */
  function GetProjectBySlug(slug: string): (r: Option<Project>)
    ensures r.None? <==> forall p :: p in Projects ==> p.slug != slug
    ensures r.Some? ==> r.value in Projects && r.value.slug == slug
  {
    var r := Find(Projects, HasSlug(slug));
    assert r.None? <==> forall i :: 0 <= i < |Projects| ==> Projects[i].slug != slug;
    r
  }

  /** The shipped projects have distinct slugs and `order` 1, 2, 3. */
  lemma ProjectSlugsAndOrder()
    ensures forall i, j :: 0 <= i < j < |Projects| ==> Projects[i].slug != Projects[j].slug
    ensures forall i :: 0 <= i < |Projects| ==> Projects[i].order == i + 1
  {
    assert ResumeBuddy.slug[0] == 'r' && NoteAura.slug[0] == 'n' && CodeMasters.slug[0] == 'c';
  }

  /** With distinct slugs, looking a slug up finds exactly the project that
      carries it. */
  lemma GetProjectBySlugExact(p: Project)
    ensures GetProjectBySlug(p.slug) == Some(p) <==> p in Projects
  {
    ProjectSlugsAndOrder();
  }

  /** Exactly one project, the first, is featured. */
  lemma OneFeaturedProject()
    ensures FeaturedProjects() == [ResumeBuddy]
    ensures forall i :: 0 <= i < |Projects| ==> (Projects[i].featured <==> i == 0)
  {
    assert Projects[1..] == [NoteAura, CodeMasters] && Projects[2..] == [CodeMasters] && Projects[3..] == [];
    assert Filter(Projects[2..], IsFeatured) == [];
    assert Filter(Projects[1..], IsFeatured) == [];
  }

  /** Every shipped project is completed, so the other statuses select nothing. */
  lemma ProjectsByStatusValues()
    ensures GetProjectsByStatus(Completed) == Projects
    ensures GetProjectsByStatus(InProgress) == [] && GetProjectsByStatus(Archived) == []
  {
    FilterAll(Projects, HasStatus(Completed));
    var r := GetProjectsByStatus(InProgress);
    assert forall p :: p !in r;
    var r' := GetProjectsByStatus(Archived);
    assert forall p :: p !in r';
  }

  /** Every shipped date is a year-month, and every project has ended. */
  lemma ProjectsWellDated()
    ensures forall p :: p in Projects ==> IsYearMonth(p.startDate) && p.endDate.Some? && IsYearMonth(p.endDate.value)
  {
  }

  /** Every shipped project ends no earlier than it starts. */
  lemma ProjectsEndAfterStart()
    ensures forall p :: p in Projects && p.endDate.Some? ==> NotAfter(p.startDate, p.endDate.value)
  {
    forall p | p in Projects && p.endDate.Some? ensures NotAfter(p.startDate, p.endDate.value) {
      NotAfterByLast(p.startDate, p.endDate.value);
    }
  }
}
