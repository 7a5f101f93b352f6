/**
 * The case-study records and the two lookups the data file exports: by the
 * case study's own slug and by the slug of the project it describes.
 */
module CaseStudiesData {
  import opened Js
  import opened Dates
  import ProjectsData

  /** A case study, reduced to the fields that identify and date it. */
  datatype CaseStudy = CaseStudy(
    slug: string,
    projectSlug: string,
    title: string,
    subtitle: string,
    techStack: seq<string>,
    publishedAt: string,
    updatedAt: Option<string>)

  const ResumeBuddyStudy := CaseStudy(
    "resumebuddy", "resumebuddy", "ResumeBuddy", "AI-powered resume optimization platform",
    ["Next.js 14", "TypeScript", "OpenAI GPT-4", "Prisma ORM", "PostgreSQL", "Tailwind CSS", "Vercel"],
    "2026-01-15", None)

  const CaseStudies: seq<CaseStudy> := [ResumeBuddyStudy]

  function HasSlug(slug: string): CaseStudy -> bool {
    (cs: CaseStudy) => cs.slug == slug
  }

  function HasProjectSlug(projectSlug: string): CaseStudy -> bool {
    (cs: CaseStudy) => cs.projectSlug == projectSlug
  }

  /** `getCaseStudyBySlug`: the first case study with that slug, or `undefined`. */
  function GetCaseStudyBySlug(slug: string): (r: Option<CaseStudy>)
    ensures r.None? <==> forall cs :: cs in CaseStudies ==> cs.slug != slug
    ensures r.Some? ==> r.value in CaseStudies && r.value.slug == slug
  {
    var r := Find(CaseStudies, HasSlug(slug));
    assert r.None? <==> forall i :: 0 <= i < |CaseStudies| ==> CaseStudies[i].slug != slug;
    r
  }

  /** `getCaseStudyByProjectSlug`: the first case study of that project, or `undefined`. */
  function GetCaseStudyByProjectSlug(projectSlug: string): (r: Option<CaseStudy>)
    ensures r.None? <==> forall cs :: cs in CaseStudies ==> cs.projectSlug != projectSlug
    ensures r.Some? ==> r.value in CaseStudies && r.value.projectSlug == projectSlug
  {
    var r := Find(CaseStudies, HasProjectSlug(projectSlug));
    assert r.None? <==> forall i :: 0 <= i < |CaseStudies| ==> CaseStudies[i].projectSlug != projectSlug;
    r
  }

  /** Every case study describes a shipped project that links back to it, and
      every project that links to a case study finds it by its slug. */
  lemma CaseStudiesLinked()
    ensures forall cs :: cs in CaseStudies ==>
      var p := ProjectsData.GetProjectBySlug(cs.projectSlug);
      p.Some? && p.value.caseStudySlug == Some(cs.slug)
    ensures forall p :: p in ProjectsData.Projects && p.caseStudySlug.Some? ==>
      GetCaseStudyBySlug(p.caseStudySlug.value).Some? &&
      GetCaseStudyBySlug(p.caseStudySlug.value).value.projectSlug == p.slug
    ensures GetCaseStudyByProjectSlug(ProjectsData.ResumeBuddy.slug) == Some(ResumeBuddyStudy)
  {
    ProjectsData.GetProjectBySlugExact(ProjectsData.ResumeBuddy);
    assert GetCaseStudyBySlug("resumebuddy") == Some(ResumeBuddyStudy);
  }

  /** Every case study was published on a `YYYY-MM-DD` day, and has not been
      updated since. */
  lemma CaseStudiesDated()
    ensures forall cs :: cs in CaseStudies ==> IsYearMonthDay(cs.publishedAt) && cs.updatedAt.None?
  {
  }
}
