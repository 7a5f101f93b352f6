/**
 * The featured-project banner: up to three highlights, up to six tags, and a
 * row of calls to action chosen from the optional links so that there is
 * always at least one.
 */
module FeaturedProject {
  import opened Js

  datatype Props = Props(
    slug: string, title: string, description: string, image: string, tags: seq<string>,
    highlights: Option<seq<string>>, liveUrl: Option<string>, githubUrl: Option<string>,
    caseStudySlug: Option<string>)

  const MaxHighlights: nat := 3
  const MaxTags: nat := 6

  datatype CtaKind = ReadCaseStudy | LiveDemo | SourceCode | ViewDetails

  /** A call to action; `external` ones open in a new tab. */
  datatype Cta = Cta(kind: CtaKind, href: string, external: bool)

  /** What the banner renders; `highlights` is `None` when the list is not rendered. */
  datatype Banner = Banner(titleHref: string, highlights: Option<seq<string>>, tags: seq<string>, ctas: seq<Cta>)

  /** `{caseStudySlug && ...}`. */
  function CaseStudyCta(p: Props): seq<Cta> {
    if Truthy(p.caseStudySlug) then [Cta(ReadCaseStudy, "/case-studies/" + p.caseStudySlug.value, false)] else []
  }

  /** `{liveUrl && ...}`. */
  function LiveDemoCta(p: Props): seq<Cta> {
    if Truthy(p.liveUrl) then [Cta(LiveDemo, p.liveUrl.value, true)] else []
  }

  /** `{githubUrl && !caseStudySlug && ...}`: the code is offered only when
      there is no case study to read. */
  function SourceCodeCta(p: Props): seq<Cta> {
    if Truthy(p.githubUrl) && !Truthy(p.caseStudySlug) then [Cta(SourceCode, p.githubUrl.value, true)] else []
  }

  /** `{!caseStudySlug && !liveUrl && ...}`: the project page, when there is
      neither a case study nor a demo. */
  function ViewDetailsCta(p: Props): seq<Cta> {
    if !Truthy(p.caseStudySlug) && !Truthy(p.liveUrl) then [Cta(ViewDetails, "/projects/" + p.slug, false)] else []
  }

  /** `FeaturedProject`. The highlights list needs a non-empty array. */
  function Render(p: Props): Banner {
    Banner(
      "/projects/" + p.slug,
      if p.highlights.Some? && |p.highlights.value| > 0 then Some(Take(p.highlights.value, MaxHighlights)) else None,
      Take(p.tags, MaxTags),
      CaseStudyCta(p) + LiveDemoCta(p) + SourceCodeCta(p) + ViewDetailsCta(p))
  }

  predicate Shows(b: Banner, k: CtaKind) {
    exists i :: 0 <= i < |b.ctas| && b.ctas[i].kind == k
  }

  /** The highlights appear only when given and non-empty, at most three of
      them, in order; at most six tags appear, in order, with nothing to say
      that more were left out. */
  lemma ListsMean(p: Props)
    ensures Render(p).highlights.Some? <==> p.highlights.Some? && p.highlights.value != []
    ensures Render(p).highlights.Some? ==>
      var h := Render(p).highlights.value;
      0 < |h| <= 3 && h == p.highlights.value[..|h|] && (|h| < 3 ==> h == p.highlights.value)
    ensures |Render(p).tags| <= 6 && Render(p).tags == p.tags[..|Render(p).tags|]
    ensures |p.tags| <= 6 ==> Render(p).tags == p.tags
  {
  }

  /** Each call to action appears exactly under its condition: the case study
      when there is one; the demo when there is one; the source code when there
      is a repository and no case study; the project page when there is neither
      a case study nor a demo. */
  lemma CtasShown(p: Props)
    ensures Shows(Render(p), ReadCaseStudy) <==> Truthy(p.caseStudySlug)
    ensures Shows(Render(p), LiveDemo) <==> Truthy(p.liveUrl)
    ensures Shows(Render(p), SourceCode) <==> Truthy(p.githubUrl) && !Truthy(p.caseStudySlug)
    ensures Shows(Render(p), ViewDetails) <==> !Truthy(p.caseStudySlug) && !Truthy(p.liveUrl)
  {
    var cs, ld, sc, vd := CaseStudyCta(p), LiveDemoCta(p), SourceCodeCta(p), ViewDetailsCta(p);
    var ctas := Render(p).ctas;
    assert ctas == cs + ld + sc + vd;
    if cs != [] {
      assert ctas[0] == cs[0];
    }
    if ld != [] {
      assert ctas[|cs|] == ld[0];
    }
    if sc != [] {
      assert ctas[|cs| + |ld|] == sc[0];
    }
    if vd != [] {
      assert ctas[|cs| + |ld| + |sc|] == vd[0];
    }
    forall i | 0 <= i < |ctas|
      ensures ctas[i] in cs || ctas[i] in ld || ctas[i] in sc || ctas[i] in vd
    {
      if i < |cs| {
        assert ctas[i] == cs[i];
      } else if i < |cs| + |ld| {
        assert ctas[i] == ld[i - |cs|];
      } else if i < |cs| + |ld| + |sc| {
        assert ctas[i] == sc[i - |cs| - |ld|];
      } else {
        assert ctas[i] == vd[i - |cs| - |ld| - |sc|];
      }
    }
  }

  /** Whatever links a project has, the banner offers one or two ways on, and
      never both the case study and the source code. */
  lemma CtasAlwaysOffered(p: Props)
    ensures |Render(p).ctas| >= 1
    ensures !(Shows(Render(p), ReadCaseStudy) && Shows(Render(p), SourceCode))
    ensures |Render(p).ctas| <= 2
  {
    CtasShown(p);
  }

  /** The title and "View Details" both lead to the project page; the demo and
      the code open in a new tab, the site's own pages do not. */
  lemma CtaTargets(p: Props)
    ensures Render(p).titleHref == "/projects/" + p.slug
    ensures forall c :: c in Render(p).ctas ==>
      && (c.kind == ViewDetails ==> c.href == Render(p).titleHref)
      && (c.kind == ReadCaseStudy ==> c.href == "/case-studies/" + p.caseStudySlug.value)
      && (c.external <==> c.kind == LiveDemo || c.kind == SourceCode)
  {
    assert Render(p).ctas == CaseStudyCta(p) + LiveDemoCta(p) + SourceCodeCta(p) + ViewDetailsCta(p);
  }
}
