/**
 * The experience timeline: records are sorted newest first by their effective
 * date (`endDate || startDate`), grouped into year buckets in that order, and
 * the years are shown in descending order, each with its records.
 */
module ExperienceTimeline {
  import opened Js
  import opened Strings
  import opened Dates
  import opened ExperienceData
  import StableSort

  /** `a.endDate || a.startDate`: an empty or absent end falls back to the start. */
  function EffectiveDate(e: Experience): string {
    if Truthy(e.endDate) then e.endDate.value else e.startDate
  }

  /** `getYear`: `parseInt` of the text before the first '-'; `None` is `NaN`. */
  function GetYear(dateStr: string): Option<int> {
    ParseInt(Split(dateStr, '-')[0])
  }

  /** On a year-month `getYear` gives the number its four year digits denote. */
  lemma GetYearOfYearMonth(s: string)
    requires IsYearMonth(s)
    ensures GetYear(s) == Some(YearOf(s))
  {
    SplitYearMonth(s);
    ParseIntDigits(s[..4]);
  }

  /** The bucket key of a record, as the loop computes it: the year of the end
      when there is one, else the year of the start. */
  function BucketYear(e: Experience): Option<int> {
    if Truthy(e.endDate) then GetYear(e.endDate.value) else GetYear(e.startDate)
  }

  /** The comparator `dateB.localeCompare(dateA)` is negative exactly when
      `a`'s date is the later one, which then goes first. */
  function Later(a: string, b: string): bool {
    CodeUnitLess(b, a)
  }

  /** `[...experiences].sort(...)`: a sorted copy, newest first. */
  function SortByDate(xs: seq<Experience>): seq<Experience> {
    StableSort.Sort(xs, EffectiveDate, Later)
  }

  lemma LaterIsStrictTotalOrder()
    ensures StableSort.StrictTotalOrder(Later)
  {
    forall a ensures !Later(a, a) {
      CodeUnitLessIrreflexive(a);
    }
    forall a, b, c | Later(a, b) && Later(b, c) ensures Later(a, c) {
      CodeUnitLessTransitive(c, b, a);
    }
    forall a, b | a != b ensures Later(a, b) || Later(b, a) {
      CodeUnitLessTotal(a, b);
    }
  }

  /** The sorted copy holds the same records, no record is followed by a
      later-dated one, and records sharing a date keep their input order. */
  lemma SortByDateFacts(xs: seq<Experience>)
    ensures multiset(SortByDate(xs)) == multiset(xs)
    ensures forall i, j :: 0 <= i < j < |SortByDate(xs)| ==>
      !CodeUnitLess(EffectiveDate(SortByDate(xs)[i]), EffectiveDate(SortByDate(xs)[j]))
    ensures forall d :: StableSort.WithKey(SortByDate(xs), EffectiveDate, d) == StableSort.WithKey(xs, EffectiveDate, d)
  {
    LaterIsStrictTotalOrder();
    StableSort.SortPermutes(xs, EffectiveDate, Later);
    StableSort.SortSorted(xs, EffectiveDate, Later);
    forall d ensures StableSort.WithKey(SortByDate(xs), EffectiveDate, d) == StableSort.WithKey(xs, EffectiveDate, d) {
      StableSort.SortStable(xs, EffectiveDate, Later, d);
    }
  }

  /** A JavaScript `Map` from year to records: its keys in insertion order and its entries. */
  datatype YearGroups = YearGroups(keys: seq<Option<int>>, buckets: map<Option<int>, seq<Experience>>)

  const NoGroups := YearGroups([], map[])

  /** One loop step: create the record's bucket on first sight, then push the record. */
  function AddToGroups(g: YearGroups, e: Experience): YearGroups {
    var y := BucketYear(e);
    if y in g.buckets then g.(buckets := g.buckets[y := g.buckets[y] + [e]])
    else YearGroups(g.keys + [y], g.buckets[y := [e]])
  }

  /** The map the loop has built after visiting `s` in order. */
  function GroupsOf(s: seq<Experience>): YearGroups {
    if s == [] then NoGroups else AddToGroups(GroupsOf(s[..|s| - 1]), s[|s| - 1])
  }

  /** Visiting one more record of `s` is one more loop step. */
  lemma GroupsOfPrefix(s: seq<Experience>, i: nat)
    requires i < |s|
    ensures GroupsOf(s[..i + 1]) == AddToGroups(GroupsOf(s[..i]), s[i])
  {
    assert s[..i + 1][..i] == s[..i];
  }

  /** `groupByYear`. */
  method GroupByYear(experiences: seq<Experience>) returns (groups: YearGroups)
    ensures groups == GroupsOf(SortByDate(experiences))
  {
    var sorted := SortByDate(experiences);
    groups := YearGroups([], map[]);
    var i := 0;
    while i < |sorted|
      invariant 0 <= i <= |sorted|
      invariant groups == GroupsOf(sorted[..i])
    {
      var exp := sorted[i];
      ghost var before := groups;
      var year := BucketYear(exp);
      if year !in groups.buckets {
        groups := groups.(keys := groups.keys + [year], buckets := groups.buckets[year := []]);
        assert groups.buckets[year] + [exp] == [exp];
      }
      groups := groups.(buckets := groups.buckets[year := groups.buckets[year] + [exp]]);
      if year in before.buckets {
        assert groups.buckets == before.buckets[year := before.buckets[year] + [exp]];
      } else {
        assert groups.buckets == before.buckets[year := [exp]];
      }
      assert groups == AddToGroups(before, exp);
      GroupsOfPrefix(sorted, i);
      i := i + 1;
    }
    assert sorted[..i] == sorted;
  }

  function InYear(y: Option<int>): Experience -> bool {
    (e: Experience) => BucketYear(e) == y
  }

  /** Each year is listed once, and the listed years are exactly the map's keys. */
  lemma {:induction false} GroupsOfKeys(s: seq<Experience>)
    ensures forall i, j :: 0 <= i < j < |GroupsOf(s).keys| ==> GroupsOf(s).keys[i] != GroupsOf(s).keys[j]
    ensures forall y :: y in GroupsOf(s).keys <==> y in GroupsOf(s).buckets
  {
    if s != [] {
      GroupsOfKeys(s[..|s| - 1]);
    }
  }

  /** The grouping is a partition: a year has a bucket exactly when some record
      has that year, and the bucket holds, in visiting order, exactly the
      records of its year. */
  lemma {:induction false} GroupsOfBuckets(s: seq<Experience>)
    ensures forall y :: y in GroupsOf(s).buckets <==> Filter(s, InYear(y)) != []
    ensures forall y :: y in GroupsOf(s).buckets ==> GroupsOf(s).buckets[y] == Filter(s, InYear(y))
  {
    if s != [] {
      var p, e := s[..|s| - 1], s[|s| - 1];
      assert s == p + [e];
      GroupsOfBuckets(p);
      forall y ensures Filter(s, InYear(y)) == Filter(p, InYear(y)) + (if BucketYear(e) == y then [e] else []) {
        FilterSnoc(p, e, InYear(y));
      }
    }
  }

  /** The records of `buckets`, bucket after bucket in the order of `years`. */
  function Flatten(years: seq<Option<int>>, buckets: map<Option<int>, seq<Experience>>): seq<Experience> {
    if years == [] then []
    else
      var y := years[|years| - 1];
      Flatten(years[..|years| - 1], buckets) + (if y in buckets then buckets[y] else [])
  }

  lemma {:induction false} FlattenUnaffected(years: seq<Option<int>>, buckets: map<Option<int>, seq<Experience>>, y: Option<int>, v: seq<Experience>)
    requires y !in years
    ensures Flatten(years, buckets[y := v]) == Flatten(years, buckets)
  {
    if years != [] {
      FlattenUnaffected(years[..|years| - 1], buckets, y, v);
    }
  }

  /** Every record has a year, and no record has a later year than one before it. */
  ghost predicate YearsDescend(s: seq<Experience>) {
    forall i, j :: 0 <= i < j < |s| ==>
      BucketYear(s[i]).Some? && BucketYear(s[j]).Some? && BucketYear(s[j]).value <= BucketYear(s[i]).value
  }

  ghost predicate StrictlyDescending(years: seq<Option<int>>) {
    forall i, j :: 0 <= i < j < |years| ==> years[i].Some? && years[j].Some? && years[j].value < years[i].value
  }

  /** A record of the last listed year goes to the end of the last bucket. */
  lemma GroupsStepSameYear(g: YearGroups, e: Experience)
    requires forall i, j :: 0 <= i < j < |g.keys| ==> g.keys[i] != g.keys[j]
    requires forall y :: y in g.keys <==> y in g.buckets
    requires g.keys != [] && g.keys[|g.keys| - 1] == BucketYear(e)
    ensures AddToGroups(g, e).keys == g.keys
    ensures Flatten(g.keys, AddToGroups(g, e).buckets) == Flatten(g.keys, g.buckets) + [e]
  {
    var y := BucketYear(e);
    var before := g.keys[..|g.keys| - 1];
    assert y !in before by {
      forall i | 0 <= i < |before| ensures before[i] != y {
        assert before[i] == g.keys[i];
      }
    }
    assert g.keys == before + [y];
    FlattenUnaffected(before, g.buckets, y, g.buckets[y] + [e]);
  }

  /** A year below the last of strictly descending years is new, and the
      years stay strictly descending with it at the end. */
  lemma DescendingSnoc(keys: seq<Option<int>>, y: Option<int>)
    requires StrictlyDescending(keys) && y.Some?
    requires keys != [] ==> keys[|keys| - 1].Some? && y.value < keys[|keys| - 1].value
    ensures y !in keys
    ensures StrictlyDescending(keys + [y])
  {
    var k := keys + [y];
    forall i | 0 <= i < |keys| ensures keys[i].Some? && y.value < keys[i].value {
      if i < |keys| - 1 {
        assert keys[|keys| - 1].value < keys[i].value;
      }
    }
    forall i, j | 0 <= i < j < |k| ensures k[i].Some? && k[j].Some? && k[j].value < k[i].value {
      assert k[i] == keys[i];
      if j < |keys| {
        assert k[j] == keys[j];
      }
    }
  }

  /** A record of a year below every listed year opens a new bucket at the end. */
  lemma GroupsStepNewYear(g: YearGroups, e: Experience)
    requires forall y :: y in g.keys <==> y in g.buckets
    requires StrictlyDescending(g.keys)
    requires BucketYear(e).Some?
    requires g.keys != [] ==> g.keys[|g.keys| - 1].Some? && BucketYear(e).value < g.keys[|g.keys| - 1].value
    ensures AddToGroups(g, e).keys == g.keys + [BucketYear(e)]
    ensures StrictlyDescending(g.keys + [BucketYear(e)])
    ensures Flatten(g.keys + [BucketYear(e)], AddToGroups(g, e).buckets) == Flatten(g.keys, g.buckets) + [e]
  {
    var y := BucketYear(e);
    DescendingSnoc(g.keys, y);
    var keys' := g.keys + [y];
    assert keys'[..|keys'| - 1] == g.keys;
    FlattenUnaffected(g.keys, g.buckets, y, [e]);
  }

  /** One visit of a record whose year is not above the last listed one: the
      years stay strictly descending, the last one is the record's, and the
      record lands after everything read so far. */
  lemma GroupsStep(g: YearGroups, e: Experience)
    requires forall i, j :: 0 <= i < j < |g.keys| ==> g.keys[i] != g.keys[j]
    requires forall y :: y in g.keys <==> y in g.buckets
    requires StrictlyDescending(g.keys)
    requires BucketYear(e).Some?
    requires g.keys != [] ==> g.keys[|g.keys| - 1].Some? && BucketYear(e).value <= g.keys[|g.keys| - 1].value
    ensures StrictlyDescending(AddToGroups(g, e).keys)
    ensures Flatten(AddToGroups(g, e).keys, AddToGroups(g, e).buckets) == Flatten(g.keys, g.buckets) + [e]
    ensures AddToGroups(g, e).keys != [] && AddToGroups(g, e).keys[|AddToGroups(g, e).keys| - 1] == BucketYear(e)
  {
    if g.keys != [] && g.keys[|g.keys| - 1] == BucketYear(e) {
      GroupsStepSameYear(g, e);
    } else {
      GroupsStepNewYear(g, e);
    }
  }

  /** Dropping the last record keeps the years descending; the last record
      has a year, no later than the one before it. */
  lemma YearsDescendInit(s: seq<Experience>)
    requires s != [] && BucketYear(s[0]).Some? && YearsDescend(s)
    ensures YearsDescend(s[..|s| - 1]) && BucketYear(s[|s| - 1]).Some?
    ensures |s| >= 2 ==> BucketYear(s[|s| - 1]).value <= BucketYear(s[..|s| - 1][|s| - 2]).value
    ensures |s| >= 2 ==> BucketYear(s[..|s| - 1][0]).Some?
  {
  }

  /** Visiting records whose years never rise lists the years in strictly
      descending order, the last record's year last. */
  lemma {:induction false} GroupsKeysDescend(s: seq<Experience>)
    requires |s| >= 1 ==> BucketYear(s[0]).Some?
    requires YearsDescend(s)
    ensures StrictlyDescending(GroupsOf(s).keys)
    ensures s != [] ==> GroupsOf(s).keys != [] && GroupsOf(s).keys[|GroupsOf(s).keys| - 1] == BucketYear(s[|s| - 1])
  {
    if s != [] {
      var p, e := s[..|s| - 1], s[|s| - 1];
      YearsDescendInit(s);
      GroupsKeysDescend(p);
      GroupsOfKeys(p);
      var g := GroupsOf(p);
      if p == [] {
        assert g.keys == [];
      } else {
        assert g.keys[|g.keys| - 1] == BucketYear(p[|p| - 1]);
      }
      GroupsStep(g, e);
      assert GroupsOf(s) == AddToGroups(g, e);
    }
  }

  /** Under the same condition, the buckets read in the listed order give back
      the records as visited. */
  lemma {:induction false} GroupsFlatten(s: seq<Experience>)
    requires |s| >= 1 ==> BucketYear(s[0]).Some?
    requires YearsDescend(s)
    ensures Flatten(GroupsOf(s).keys, GroupsOf(s).buckets) == s
  {
    if s != [] {
      var p, e := s[..|s| - 1], s[|s| - 1];
      assert s == p + [e];
      YearsDescendInit(s);
      GroupsFlatten(p);
      GroupsKeysDescend(p);
      GroupsOfKeys(p);
      var g := GroupsOf(p);
      if p == [] {
        assert g.keys == [];
      } else {
        assert g.keys[|g.keys| - 1] == BucketYear(p[|p| - 1]);
      }
      GroupsStep(g, e);
      assert GroupsOf(s) == AddToGroups(g, e);
    }
  }

  /** Visiting records whose years never rise lists each year once, in strictly
      descending order, and the buckets read in that order give back the
      records as visited. */
  lemma GroupsInOrder(s: seq<Experience>)
    requires |s| >= 1 ==> BucketYear(s[0]).Some?
    requires YearsDescend(s)
    ensures StrictlyDescending(GroupsOf(s).keys)
    ensures Flatten(GroupsOf(s).keys, GroupsOf(s).buckets) == s
    ensures s != [] ==> GroupsOf(s).keys != [] && GroupsOf(s).keys[|GroupsOf(s).keys| - 1] == BucketYear(s[|s| - 1])
  {
    GroupsKeysDescend(s);
    GroupsFlatten(s);
  }

  /** The year comparator `(a, b) => b - a` is negative exactly when `a` is the
      larger year; a `NaN` year compares as equal to everything. */
  function YearLess(a: Option<int>, b: Option<int>): bool {
    a.Some? && b.Some? && b.value - a.value < 0
  }

  function YearKey(y: Option<int>): Option<int> {
    y
  }

  /** `Array.from(groupedExperiences.keys()).sort((a, b) => b - a)`. */
  function RenderedYears(g: YearGroups): seq<Option<int>> {
    StableSort.Sort(g.keys, YearKey, YearLess)
  }

  /** A well-dated record's effective date is a year-month and its bucket is that date's year. */
  lemma BucketYearOfWellDated(e: Experience)
    requires e.WellDated()
    ensures IsYearMonth(EffectiveDate(e))
    ensures BucketYear(e) == Some(YearOf(EffectiveDate(e)))
  {
    GetYearOfYearMonth(EffectiveDate(e));
  }

  /** Sorting well-dated records newest first never lets a year rise. */
  lemma SortedYearsDescend(xs: seq<Experience>)
    requires forall e :: e in xs ==> e.WellDated()
    ensures YearsDescend(SortByDate(xs))
  {
    var s := SortByDate(xs);
    SortByDateFacts(xs);
    forall e | e in s ensures e.WellDated() && BucketYear(e) == Some(YearOf(EffectiveDate(e))) {
      assert e in multiset(s);
      BucketYearOfWellDated(e);
    }
    forall i, j | 0 <= i < j < |s|
      ensures BucketYear(s[i]).Some? && BucketYear(s[j]).Some? && BucketYear(s[j]).value <= BucketYear(s[i]).value
    {
      var a, b := EffectiveDate(s[i]), EffectiveDate(s[j]);
      assert !CodeUnitLess(a, b);
      if a != b {
        CodeUnitLessTotal(a, b);
        YearOrder(b, a);
      }
    }
  }

  /** What the timeline shows: the years, each once and strictly descending,
      and under them the records in exactly the sorted order, so every record
      appears once and the bucket sizes add up to the number of records. */
  lemma {:induction false} TimelineShowsSortedRecords(xs: seq<Experience>)
    requires forall e :: e in xs ==> e.WellDated()
    ensures var g := GroupsOf(SortByDate(xs));
      && RenderedYears(g) == g.keys
      && StrictlyDescending(RenderedYears(g))
      && Flatten(RenderedYears(g), g.buckets) == SortByDate(xs)
      && multiset(Flatten(RenderedYears(g), g.buckets)) == multiset(xs)
  {
    var s := SortByDate(xs);
    SortedYearsDescend(xs);
    SortByDateFacts(xs);
    if s != [] {
      assert s[0] in multiset(s);
      BucketYearOfWellDated(s[0]);
    }
    GroupsInOrder(s);
    var g := GroupsOf(s);
    StableSort.SortOfSorted(g.keys, YearKey, YearLess);
  }

  /** The `en-US` short month names `toLocaleDateString` prints (a fixed table
      standing in for the locale library). */
  const MonthNames: seq<string> :=
    ["Jan", "Feb", "Mar", "Apr", "May", "Jun", "Jul", "Aug", "Sep", "Oct", "Nov", "Dec"]

  /** `new Date(year, monthIndex)`: years 0 to 99 mean 1900 to 1999, and a
      month index outside 0..11 carries into the year. Gives the year and the
      month index the date ends up with. */
  function DateOf(year: int, monthIndex: int): (r: (int, int))
    ensures 0 <= r.1 < 12
    ensures r.0 * 12 + r.1 == (if 0 <= year <= 99 then 1900 + year else year) * 12 + monthIndex
  {
    var y := if 0 <= year <= 99 then 1900 + year else year;
    var total := y * 12 + monthIndex;
    (total / 12, total % 12)
  }

  /** `formatDate`: the year and month read with `split("-")` and `parseInt`,
      turned into a date and printed as short month and numeric year. */
  function FormatDate(dateStr: string): (r: string)
    requires IsYearMonth(dateStr)
    ensures |r| >= 5 && '-' !in r && IsDigit(r[|r| - 1])
  {
    var (y, m) := DateOf(YearOf(dateStr), DigitsValue(dateStr[5..]) - 1);
    var year := NatToString(y);
    var r := MonthNames[m] + " " + year;
    assert r[|r| - 1] == year[|year| - 1];
    assert forall k :: 0 <= k < |r| ==> r[k] != '-' by {
      forall k | 0 <= k < |r| ensures r[k] != '-' {
        if k > 3 { assert r[k] == year[k - 4]; }
      }
    }
    r
  }

  /** The values `formatDate` works on are what `split("-")` and `parseInt` read. */
  lemma FormatDateReads(s: string)
    requires IsYearMonth(s)
    ensures Split(s, '-') == [s[..4], s[5..]]
    ensures ParseInt(s[..4]) == Some(YearOf(s))
    ensures ParseInt(s[5..]) == Some(DigitsValue(s[5..]))
  {
    SplitYearMonth(s);
    ParseIntDigits(s[..4]);
    ParseIntDigits(s[5..]);
  }

  /** A month index inside 0..11 and a year of 100 or later stay as they are. */
  lemma {:induction false} DateOfOrdinary(year: int, monthIndex: int)
    requires year >= 100 && 0 <= monthIndex < 12
    ensures DateOf(year, monthIndex) == (year, monthIndex)
  {
    var r := DateOf(year, monthIndex);
    assert (r.0 - year) * 12 == monthIndex - r.1;
  }

  /** An ordinary date prints its own month and year. */
  lemma FormatDateOrdinary(s: string)
    requires IsYearMonth(s) && 1 <= DigitsValue(s[5..]) <= 12 && YearOf(s) >= 100
    ensures FormatDate(s) == MonthNames[DigitsValue(s[5..]) - 1] + " " + NatToString(YearOf(s))
  {
    DateOfOrdinary(YearOf(s), DigitsValue(s[5..]) - 1);
  }

  /** Month 13 carries into January of the next year. */
  lemma FormatDateMonth13(s: string)
    requires IsYearMonth(s) && DigitsValue(s[5..]) == 13 && YearOf(s) >= 100
    ensures FormatDate(s) == "Jan " + NatToString(YearOf(s) + 1)
  {
    DateOfOrdinary(YearOf(s) + 1, 0);
  }

  /** Month 00 is December of the year before. */
  lemma FormatDateMonth00(s: string)
    requires IsYearMonth(s) && DigitsValue(s[5..]) == 0 && YearOf(s) >= 101
    ensures FormatDate(s) == "Dec " + NatToString(YearOf(s) - 1)
  {
    DateOfOrdinary(YearOf(s) - 1, 11);
  }

  /** A year below 100 is read as 19xx. */
  lemma FormatDateTwoDigitYear(s: string)
    requires IsYearMonth(s) && 1 <= DigitsValue(s[5..]) <= 12 && YearOf(s) <= 99
    ensures FormatDate(s) == MonthNames[DigitsValue(s[5..]) - 1] + " " + NatToString(1900 + YearOf(s))
  {
    DateOfOrdinary(1900 + YearOf(s), DigitsValue(s[5..]) - 1);
  }

  /** `formatDuration`. */
  function FormatDuration(e: Experience): string
    requires e.WellDated()
  {
    var start := FormatDate(e.startDate);
    if e.Ongoing() then start + " - Present"
    else if Truthy(e.endDate) then start + " - " + FormatDate(e.endDate.value)
    else start
  }

  /** The duration always starts with the start date; it ends with "Present"
      exactly for an ongoing record, end date or not; and it is a range
      exactly when the record is ongoing or has an end date. */
  lemma FormatDurationMeans(e: Experience)
    requires e.WellDated()
    ensures StartsWith(FormatDuration(e), FormatDate(e.startDate))
    ensures EndsWith(FormatDuration(e), " - Present") <==> e.Ongoing()
    ensures '-' in FormatDuration(e) <==> e.Ongoing() || Truthy(e.endDate)
  {
    var start := FormatDate(e.startDate);
    var r := FormatDuration(e);
    assert r[..|start|] == start;
    if e.Ongoing() {
      assert r[|start| + 1] == '-';
    } else if Truthy(e.endDate) {
      var end := FormatDate(e.endDate.value);
      assert r[|start| + 1] == '-';
      assert r[|r| - 1] == end[|end| - 1];
    } else {
      assert r[|r| - 1] == start[|start| - 1];
    }
  }

  /** What one `ExperienceCard` receives. */
  datatype Card = Card(
    title: string,
    organization: string,
    location: Option<string>,
    duration: string,
    description: seq<string>,
    kind: ExperienceType,
    skills: Option<seq<string>>,
    link: Option<string>)

  /** The card of a record; the link is `certificateUrl || link`. */
  function ToCard(e: Experience): Card
    requires e.WellDated()
  {
    Card(e.title, e.organization, e.location, FormatDuration(e), e.description, e.kind, e.skills,
         if Truthy(e.certificateUrl) then e.certificateUrl else e.link)
  }

  function Cards(s: seq<Experience>): (r: seq<Card>)
    requires forall e :: e in s ==> e.WellDated()
    ensures |r| == |s| && forall i :: 0 <= i < |s| ==> r[i] == ToCard(s[i])
  {
    if s == [] then [] else [ToCard(s[0])] + Cards(s[1..])
  }

  datatype YearSection = YearSection(year: Option<int>, cards: seq<Card>)

  datatype TimelineView = NoExperiences | Timeline(sections: seq<YearSection>)

  /** The records of year `y`; a year without a bucket has none. */
  function Bucket(buckets: map<Option<int>, seq<Experience>>, y: Option<int>): seq<Experience> {
    if y in buckets then buckets[y] else []
  }

  ghost predicate WellDatedBuckets(buckets: map<Option<int>, seq<Experience>>) {
    forall y, e :: y in buckets && e in buckets[y] ==> e.WellDated()
  }

  /** One section per year, in the given order, holding that year's cards. */
  function Sections(years: seq<Option<int>>, buckets: map<Option<int>, seq<Experience>>): (r: seq<YearSection>)
    requires WellDatedBuckets(buckets)
    ensures |r| == |years|
  {
    if years == [] then []
    else
      var y := years[|years| - 1];
      Sections(years[..|years| - 1], buckets) + [YearSection(y, Cards(Bucket(buckets, y)))]
  }

  /** Every record in a bucket is one of the input records. */
  lemma BucketsFromInput(xs: seq<Experience>)
    ensures var g := GroupsOf(SortByDate(xs));
      forall y, e :: y in g.buckets && e in g.buckets[y] ==> e in xs
  {
    var s := SortByDate(xs);
    SortByDateFacts(xs);
    GroupsOfBuckets(s);
    forall y, e | y in GroupsOf(s).buckets && e in GroupsOf(s).buckets[y] ensures e in xs {
      FilterExactly(s, InYear(y));
      var b := GroupsOf(s).buckets[y];
      assert multiset(b)[e] > 0;
      assert multiset(s)[e] > 0;
    }
  }

  lemma BucketsWellDated(xs: seq<Experience>)
    requires forall e :: e in xs ==> e.WellDated()
    ensures WellDatedBuckets(GroupsOf(SortByDate(xs)).buckets)
  {
    BucketsFromInput(xs);
  }

  /** The rendered timeline: the empty-state message for no records, otherwise
      one section per year, in the sorted year order, with that year's cards. */
  function Render(xs: seq<Experience>): TimelineView
    requires forall e :: e in xs ==> e.WellDated()
  {
    var g := GroupsOf(SortByDate(xs));
    if |xs| == 0 then NoExperiences
    else
      BucketsWellDated(xs);
      Timeline(Sections(RenderedYears(g), g.buckets))
  }

  /** All cards of the sections, section after section. */
  function AllCards(sections: seq<YearSection>): seq<Card> {
    if sections == [] then [] else AllCards(sections[..|sections| - 1]) + sections[|sections| - 1].cards
  }

  lemma {:induction false} CardsAppend(a: seq<Experience>, b: seq<Experience>)
    requires forall e :: e in a + b ==> e.WellDated()
    ensures Cards(a + b) == Cards(a) + Cards(b)
  {
  }

  /** Reading the sections' cards in order gives the cards of the flattened buckets. */
  lemma {:induction false} SectionsFlatten(years: seq<Option<int>>, buckets: map<Option<int>, seq<Experience>>)
    requires WellDatedBuckets(buckets)
    ensures forall e :: e in Flatten(years, buckets) ==> e.WellDated()
    ensures AllCards(Sections(years, buckets)) == Cards(Flatten(years, buckets))
  {
    if years != [] {
      var before := years[..|years| - 1];
      var y := years[|years| - 1];
      SectionsFlatten(before, buckets);
      var r := Sections(years, buckets);
      assert r[..|r| - 1] == Sections(before, buckets);
      CardsAppend(Flatten(before, buckets), Bucket(buckets, y));
    }
  }

  /** Nothing but the empty-state message is shown for no records; otherwise
      the cards, read top to bottom, are exactly the records sorted newest
      first, each shown once. */
  lemma {:induction false} RenderShowsEveryRecordOnce(xs: seq<Experience>)
    requires forall e :: e in xs ==> e.WellDated()
    ensures Render(xs) == NoExperiences <==> xs == []
    ensures xs != [] ==> forall e :: e in SortByDate(xs) ==> e.WellDated()
    ensures xs != [] ==> AllCards(Render(xs).sections) == Cards(SortByDate(xs))
  {
    if xs != [] {
      var g := GroupsOf(SortByDate(xs));
      TimelineShowsSortedRecords(xs);
      BucketsWellDated(xs);
      SectionsFlatten(RenderedYears(g), g.buckets);
    }
  }



  /** A record's bucket is the number the four year digits of its effective date denote. */
  lemma BucketYearIs(e: Experience, y: string)
    requires e.WellDated() && |y| == 4 && EffectiveDate(e)[..4] == y
    ensures BucketYear(e) == Some(DigitsValue(y))
  {
    BucketYearOfWellDated(e);
  }

  /** The bucket key is the year of the effective date. */
  lemma BucketYearOfEffectiveDate(e: Experience)
    ensures BucketYear(e) == GetYear(EffectiveDate(e))
  {
  }

  /** Three records already ordered newest first are left in place. */
  lemma SortThree(a: Experience, b: Experience, c: Experience)
    requires !Later(EffectiveDate(b), EffectiveDate(a)) && !Later(EffectiveDate(c), EffectiveDate(b))
    requires !Later(EffectiveDate(c), EffectiveDate(a))
    ensures SortByDate([a, b, c]) == [a, b, c]
  {
    StableSort.SortOfSorted([a, b, c], EffectiveDate, Later);
  }

  /** Three records where the first two share a year and the third does not
      make two buckets, in that order. */
  lemma GroupsOfThree(a: Experience, b: Experience, c: Experience)
    requires BucketYear(a) == BucketYear(b) != BucketYear(c)
    ensures GroupsOf([a, b, c]) ==
      YearGroups([BucketYear(a), BucketYear(c)], map[BucketYear(a) := [a, b], BucketYear(c) := [c]])
  {
    var s := [a, b, c];
    assert s[..2][..1] == s[..1] && s[..1][..0] == [] && s[..2] == [a, b];
    var g1 := YearGroups([BucketYear(a)], map[BucketYear(a) := [a]]);
    assert GroupsOf(s[..1]) == AddToGroups(NoGroups, a) == g1;
    var g2 := YearGroups([BucketYear(a)], map[BucketYear(a) := [a, b]]);
    assert [a] + [b] == [a, b];
    assert GroupsOf(s[..2]) == AddToGroups(g1, b) == g2;
    assert GroupsOf(s) == AddToGroups(g2, c);
  }

  /** `year.toString()`: the decimal numeral, with a minus sign when negative,
      and "NaN" for a year that is not a number. */
  function YearText(y: Option<int>): string {
    match y
    case None => "NaN"
    case Some(n) => if n < 0 then "-" + NatToString(-n) else NatToString(n)
  }

  /** The year marker's badge, `year.toString().slice(-2)`: the last two
      characters of the year's text, or all of it when it is shorter. */
  function YearBadge(y: Option<int>): string {
    var t := YearText(y);
    if |t| <= 2 then t else t[|t| - 2..]
  }

  /** The last two digits of a number's numeral denote the number modulo 100. */
  lemma LastTwoDigits(n: nat)
    requires n >= 10
    ensures var t := NatToString(n);
      |t| >= 2 && t[|t| - 2..] == [DigitChar(n / 10 % 10), DigitChar(n % 10)]
  {
    var p := NatToString(n / 10);
    assert NatToString(n) == p + [DigitChar(n % 10)];
    if n / 10 >= 10 {
      assert p == NatToString(n / 10 / 10) + [DigitChar(n / 10 % 10)];
    }
  }

  lemma TwoDigitValue(a: nat, b: nat, n: nat)
    requires a == n / 10 % 10 && b == n % 10
    ensures a < 10 && b < 10
    ensures DigitsValue([DigitChar(a), DigitChar(b)]) == n % 100
  {
    var t := [DigitChar(a), DigitChar(b)];
    assert t[..1][..0] == [];
    assert DigitsValue(t[..1]) == a;
    assert DigitsValue(t) == a * 10 + b;
  }

  /** A year of two or more digits shows its last two digits, the year modulo
      100 (so 2025 shows "25" and 2005 shows "05"); a one-digit year shows
      that digit; a year that is not a number shows "aN". */
  lemma YearBadgeMeans(y: Option<int>)
    ensures y.Some? && y.value >= 10 ==>
      var b := YearBadge(y);
      |b| == 2 && AllDigits(b) && DigitsValue(b) == y.value % 100
    ensures y.Some? && 0 <= y.value < 10 ==> YearBadge(y) == [DigitChar(y.value)]
    ensures y.None? ==> YearBadge(y) == "aN"
  {
    if y.Some? && y.value >= 10 {
      var n: nat := y.value;
      LastTwoDigits(n);
      var b := YearBadge(y);
      TwoDigitValue(n / 10 % 10, n % 10, n);
    }
  }
}
