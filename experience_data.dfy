/**
 * The experience records (work, achievements, education) and the two helpers
 * the data file exports: selection by type and the copy sorted by `order`.
 */
module ExperienceData {
  import opened Js
  import opened Strings
  import opened Dates
  import StableSort

  datatype ExperienceType = Work | Achievement | Education

  /** One timeline record. Dates are `YYYY-MM`; an absent `endDate` means ongoing. */
  datatype Experience = Experience(
    id: string,
    kind: ExperienceType,
    title: string,
    organization: string,
    location: Option<string>,
    startDate: string,
    endDate: Option<string>,
    isCurrent: Option<bool>,
    description: seq<string>,
    skills: Option<seq<string>>,
    link: Option<string>,
    certificateUrl: Option<string>,
    order: int)
  {
    /** The start is a year-month, and so is the end when one is given. */
    predicate WellDated() {
      IsYearMonth(startDate) && (Truthy(endDate) ==> IsYearMonth(endDate.value))
    }

    predicate Ongoing() {
      isCurrent == Some(true)
    }
  }

  const Internship := Experience(
    "ey-aicte-internship", Work, "AI/ML Intern", "EY + AICTE", Some("Remote"),
    "2025-06", Some("2025-08"), Some(false),
    ["Developed machine learning models for data analysis and prediction",
     "Collaborated with senior engineers on production-grade AI systems",
     "Implemented data pipelines for processing large datasets"],
    Some(["Python", "TensorFlow", "Pandas", "Machine Learning"]), None, None, 1)

  const Hackathon := Experience(
    "hackathon-winner", Achievement, "Hackathon Winner", "Tech University Hackathon", None,
    "2025-03", None, None,
    ["Won first place in the AI/ML track for building an innovative solution",
     "Developed a working prototype in 48 hours",
     "Presented solution to a panel of industry judges"],
    Some(["Python", "OpenAI", "React", "Node.js"]), None, None, 2)

  const Degree := Experience(
    "btech-cse", Education, "B.Tech in Computer Science & Engineering", "University Name",
    Some("City, Country"), "2023-08", None, Some(true),
    ["Specializing in Artificial Intelligence and Machine Learning",
     "Maintaining strong academic performance",
     "Active member of coding clubs and tech communities"],
    None, None, None, 3)

  const Experiences: seq<Experience> := [Internship, Hackathon, Degree]

  function HasType(t: ExperienceType): Experience -> bool {
    (e: Experience) => e.kind == t
  }

  /** `getExperiencesByType`: exactly the records of that type, each once, in source order. */
  function GetExperiencesByType(t: ExperienceType): (r: seq<Experience>)
    ensures IsSubsequence(r, Experiences)
    ensures forall e :: e in r <==> e in Experiences && e.kind == t
  {
    FilterExactly(Experiences, HasType(t));
    var r := Filter(Experiences, HasType(t));
    assert forall e :: e in r <==> multiset(r)[e] > 0;
    r
  }

  /** The comparator `(a, b) => a.order - b.order` is negative exactly when `a` goes first. */
  function OrderLess(x: int, y: int): bool {
    x - y < 0
  }

  function OrderKey(e: Experience): int {
    e.order
  }

  /** `sortedExperiences`: a sorted copy; the source list is a value and stays as it is. */
  function SortedExperiences(): seq<Experience> {
    StableSort.Sort(Experiences, OrderKey, OrderLess)
  }

  /** The sorted copy holds the same records, ascending by `order`; the shipped
      list is already in that order, so the copy equals it. */
  lemma SortedExperiencesFacts()
    ensures multiset(SortedExperiences()) == multiset(Experiences)
    ensures forall i, j :: 0 <= i < j < |SortedExperiences()| ==>
      SortedExperiences()[i].order <= SortedExperiences()[j].order
    ensures SortedExperiences() == Experiences
  {
    StableSort.SortPermutes(Experiences, OrderKey, OrderLess);
    assert StableSort.SortedBy(Experiences, OrderKey, OrderLess);
    StableSort.SortOfSorted(Experiences, OrderKey, OrderLess);
  }

  /** The records of each type. */
  lemma ExperiencesByTypeValues()
    ensures GetExperiencesByType(Work) == [Internship]
    ensures GetExperiencesByType(Achievement) == [Hackathon]
    ensures GetExperiencesByType(Education) == [Degree]
  {
    var tail1, tail2 := Experiences[1..], Experiences[2..];
    assert tail1 == [Hackathon, Degree] && tail1[1..] == tail2 == [Degree] && tail2[1..] == [];
    forall t | t in {Work, Achievement, Education}
      ensures GetExperiencesByType(t) ==
        (if t == Work then [Internship] else []) + (if t == Achievement then [Hackathon] else []) +
        (if t == Education then [Degree] else [])
    {
      var p := HasType(t);
      assert Filter(tail2, p) == (if t == Education then [Degree] else []);
      assert Filter(tail1, p) == (if t == Achievement then [Hackathon] else []) + Filter(tail2, p);
    }
  }

  /** The shipped records have distinct ids and `order` 1, 2, 3. */
  lemma ExperienceIdsAndOrder()
    ensures forall i, j :: 0 <= i < j < |Experiences| ==> Experiences[i].id != Experiences[j].id
    ensures forall i :: 0 <= i < |Experiences| ==> Experiences[i].order == i + 1
  {
    assert Internship.id[0] == 'e' && Hackathon.id[0] == 'h' && Degree.id[0] == 'b';
  }

  /** Every shipped date is a year-month, and the ongoing record has no end. */
  lemma ExperiencesWellDated()
    ensures forall e :: e in Experiences ==> e.WellDated()
    ensures forall e :: e in Experiences && e.Ongoing() ==> e.endDate == None
  {
  }

  /** The one ended record ends no earlier than it starts. */
  lemma ExperienceEndsAfterStart()
    ensures forall e :: e in Experiences && e.endDate.Some? ==> NotAfter(e.startDate, e.endDate.value)
  {
    forall e | e in Experiences && e.endDate.Some? ensures NotAfter(e.startDate, e.endDate.value) {
      NotAfterByLast(e.startDate, e.endDate.value);
    }
  }
}
