/**
 * The experience timeline on the shipped records: their effective dates, the
 * years `getYear` reads from them, the order the sort leaves them in and the
 * buckets they fall into.
 */
module TimelineExamples {
  import opened Js
  import opened Strings
  import opened Dates
  import opened ExperienceData
  import opened ExperienceTimeline
  import StableSort

  /** Dates compared as the comparator compares them: `a` is not later than `b`. */
  lemma NotLaterAt(a: string, b: string, k: nat)
    requires k < |a| && k < |b| && a[..k] == b[..k] && a[k] < b[k]
    ensures !Later(a, b)
  {
    CodeUnitLessAt(a, b, k);
    CodeUnitLessAsymmetric(a, b);
  }

  /** The internship's end, the hackathon's start (it has no end) and the
      degree's start (it is ongoing, with no end). */
  lemma ShippedEffectiveDates()
    ensures EffectiveDate(Internship) == "2025-08"
    ensures EffectiveDate(Hackathon) == "2025-03"
    ensures EffectiveDate(Degree) == "2023-08"
  {
  }

  lemma ShippedDatesDescend()
    ensures !Later("2025-03", "2025-08") && !Later("2023-08", "2025-03") && !Later("2023-08", "2025-08")
  {
    NotLaterAt("2025-03", "2025-08", 6);
    NotLaterAt("2023-08", "2025-03", 3);
    NotLaterAt("2023-08", "2025-08", 3);
  }

  lemma ParseYear2025()
    ensures ParseInt("2025") == Some(2025)
  {
    ParseIntDigits("2025");
    Value4("2025");
  }

  lemma ParseYear2023()
    ensures ParseInt("2023") == Some(2023)
  {
    ParseIntDigits("2023");
    Value4("2023");
  }

  lemma ShippedDateYears()
    ensures GetYear("2025-08") == Some(2025) && GetYear("2025-03") == Some(2025)
    ensures GetYear("2023-08") == Some(2023)
  {
    var aug25, mar25, aug23 := "2025-08", "2025-03", "2023-08";
    assert aug25[..4] == "2025" && aug25[5..] == "08";
    assert mar25[..4] == "2025" && mar25[5..] == "03";
    assert aug23[..4] == "2023" && aug23[5..] == "08";
    SplitAtOnly(aug25, 4, '-');
    SplitAtOnly(mar25, 4, '-');
    SplitAtOnly(aug23, 4, '-');
    ParseYear2025();
    ParseYear2023();
  }

  /** Sorting newest first keeps the shipped records in file order: they end
      in Aug 2025 and Mar 2025, and the ongoing degree started in Aug 2023. */
  lemma ShippedSortOrder()
    ensures SortByDate(Experiences) == Experiences
  {
    ShippedEffectiveDates();
    ShippedDatesDescend();
    SortThree(Internship, Hackathon, Degree);
  }

  lemma ShippedBucketYears()
    ensures BucketYear(Internship) == Some(2025) && BucketYear(Hackathon) == Some(2025)
    ensures BucketYear(Degree) == Some(2023)
  {
    ShippedEffectiveDates();
    ShippedDateYears();
    BucketYearOfEffectiveDate(Internship);
    BucketYearOfEffectiveDate(Hackathon);
    BucketYearOfEffectiveDate(Degree);
  }

  lemma ShippedGroups()
    ensures GroupsOf(Experiences) ==
      YearGroups([Some(2025), Some(2023)], map[Some(2025) := [Internship, Hackathon], Some(2023) := [Degree]])
  {
    ShippedBucketYears();
    GroupsOfThree(Internship, Hackathon, Degree);
  }

  /** 2025 holds the internship and the hackathon, in that order, 2023 holds
      the degree, and 2025 is shown first. */
  lemma ShippedTimeline()
    ensures GroupsOf(SortByDate(Experiences)) ==
      YearGroups([Some(2025), Some(2023)], map[Some(2025) := [Internship, Hackathon], Some(2023) := [Degree]])
    ensures RenderedYears(GroupsOf(SortByDate(Experiences))) == [Some(2025), Some(2023)]
  {
    ShippedSortOrder();
    ShippedGroups();
    StableSort.SortOfSorted([Some(2025), Some(2023)], YearKey, YearLess);
  }
}
