# Portfolio site rules, modelled in Dafny

The portfolio site (a Next.js application) is mostly presentation. Under the
markup lie a set of small, stateable rules, and this project models them and
proves what they guarantee:

- **Contact form** (`ContactForm`): the per-field validation chain over trimmed UTF-16
  lengths and the email pattern `^[^\s@]+@[^\s@]+\.[^\s@]+$`. The form state
  (field values, error map, status) is a class whose methods are the change,
  blur and submit handlers. The submit state machine includes the honeypot
  short-circuit.
- **Experience timeline** (`ExperienceTimeline`, `StableSort`, `Dates`): the
  stable newest-first sort on the effective date `endDate || startDate`, and
  the `groupByYear` loop that fills a year map in place. The module also
  covers the descending year list, the empty state, and `formatDuration`
  with `formatDate`.
- **Navigation** (`Navigation`, `Header`, `MobileNav`, `MediaQuery`):
  - the active-route rule (root exact, otherwise a raw prefix);
  - the header's scrolled look, menu flag and page-scroll lock;
  - the mobile menu's Escape rule and focus trap;
  - the order in which the menu items animate;
  - the anchor attributes of the call-to-action buttons;
  - the breakpoint hooks.
- **Scroll reveal** (`ScrollAnimation`): the once/repeat visibility latch of
  `useScrollAnimation` and `useInView`. The hook is fed batches of
  intersection entries.
- **Lookups and truncation** (`TechIcon`, `Footer`, `ProjectCard`,
  `FeaturedProject`, `ProjectsGrid`):
  - TechIcon's key normalisation, with fallback to its `default` entry;
  - the Footer's icon lookup, which has no fallback, and its `mailto:` rule;
  - the card's five tags plus a `+k` badge;
  - the banner's choice of calls to action;
  - the grid's featured filter.
- **Data modules** (`ProjectsData`, `ExperienceData`, `CaseStudiesData`): the
  exported `filter`/`find`/`sort` helpers, and the facts that hold of the
  shipped records.

`Js` and `Strings` model the JavaScript built-ins the rules rely on:

- truthiness of optional strings;
- `slice`, `filter` and `find`;
- `trim`, `startsWith`, `split` and `join`;
- `toLowerCase`, `replace(/\s+/g, "")` and `parseInt`;
- the code-unit order that `localeCompare` gives on fixed-width dates.

`StableSort` models `Array.prototype.sort` as a stable insertion sort. Its
specification is a permutation of the input, ordered, and stable.

Where the design notes and the code disagree, the model follows the code:

- Nothing in `ContactForm.tsx` ever sets the status `"error"`. The model has
  the status, but `ContactForm.ContactFormState.Valid` rules it out.
- A successful submit clears all four fields, the honeypot included.
- Editing a field only clears that field's error. It does not re-validate the
  field.
- The email pattern is matched against the untrimmed value. So `" a@b.co"` is
  rejected.
- The email pattern does not single out the final `.`. Any `.` after the `@`
  that has text on both sides satisfies it.
- The submit button is disabled while a transition is pending as well as
  while submitting.

## Model

| member | source | states |
|---|---|---|
| ContactForm.EmailRegexMatchesPattern | src/components/sections/ContactForm.tsx:27 | the scanning test accepts exactly the strings the pattern matches: three runs free of whitespace and `@`, joined as `a@b.c` |
| ContactForm.ScanFindsPattern | src/components/sections/ContactForm.tsx:27 | a string the scan accepts splits into the three runs around one `@` and a later `.` |
| ContactForm.PatternPassesScan | src/components/sections/ContactForm.tsx:27 | any string built as `a@b.c` from three such runs passes the scan |
| ContactForm.EmailShapeNotBlank | src/components/sections/ContactForm.tsx:51-52 | a matching address is never blank once trimmed, so the two email checks together accept exactly the pattern |
| ContactForm.ValidateFieldMeans | src/components/sections/ContactForm.tsx:42-66 | name: accepted iff the trimmed `.length`, in UTF-16 code units, is 2..100. Email: accepted iff the value matches the pattern. Message: accepted iff the trimmed `.length` is 10..1000. The honeypot is always accepted |
| ContactForm.ValidateFieldMessages | src/components/sections/ContactForm.tsx:44-61 | the rules are tried in order: a blank value gives "required" for all three fields, then too short, then too long, by the trimmed UTF-16 `.length`; a non-blank non-matching email gives "invalid" |
| ContactForm.ValidationError.Text | src/components/sections/ContactForm.tsx:44-61 | every rule's message is a non-empty text, so a recorded error always shows |
| ContactForm.NameExamples | src/components/sections/ContactForm.tsx:44-48 | `""` gives "Name is required", `"A"` gives "at least 2", `"Alice"` gives no error |
| ContactForm.EmailExampleBad | src/components/sections/ContactForm.tsx:50-53 | `"bad"` gives "Please enter a valid email address" |
| ContactForm.EmailExampleGood | src/components/sections/ContactForm.tsx:50-53 | `"a@b.co"` gives no error |
| ContactForm.MessageExamples | src/components/sections/ContactForm.tsx:55-61 | messages of 5, 1001 and 50 code units give "too short", "too long" and no error |
| ContactForm.EmojiNameExample | src/components/sections/ContactForm.tsx:46 | an emoji is two code units, so a name of one emoji passes the two-character minimum |
| ContactForm.FormData.With | src/components/sections/ContactForm.tsx:83 | `{ ...prev, [name]: value }` sets that one field and leaves the other three as they were |
| ContactForm.Record | src/components/sections/ContactForm.tsx:69-73 | recording a result changes only that field's error, and only when there is an error |
| ContactForm.ErrorMap | src/components/sections/ContactForm.tsx:69-73 | the rebuilt map holds the three given results and no honeypot entry |
| ContactForm.ErrorsFor | src/components/sections/ContactForm.tsx:68-75 | the map `validateForm` builds shows, for every field, exactly that field's `validateField` result |
| ContactForm.FormValidIffNoErrors | src/components/sections/ContactForm.tsx:76 | `validateForm` reports valid exactly when the error map it built is empty |
| ContactForm.FormValidMeans | src/components/sections/ContactForm.tsx:68-77 | the form is valid iff the trimmed name is 2..100 code units, the email matches and the trimmed message is 10..1000 code units; the honeypot plays no part |
| ContactForm.CounterCanExceedAcceptedMessage | src/components/sections/ContactForm.tsx:132-133 | the counter counts the raw message and the rule counts the trimmed one, so a message the rule accepts can show the counter over 1000 |
| ContactForm.CharacterCount | src/components/sections/ContactForm.tsx:132 | the counter is the raw message's `.length`: never below its character count, nor below the trimmed length the rule checks |
| ContactForm.CounterAgreesWithRule | src/components/sections/ContactForm.tsx:132-133 | a message rejected as too long always shows the counter over the limit; without whitespace at either end, the counter is over the limit iff the rule rejects the message as too long |
| ContactForm.Compose | src/components/sections/ContactForm.tsx:117-122 | the message goes to the fixed recipient; the name ends the subject; the body holds the name after `Name: `, the email after `\nEmail: ` and ends with the message, each verbatim |
| ContactForm.ContactFormState.constructor | src/components/sections/ContactForm.tsx:32-40 | all fields empty, no errors, status idle, nothing pending |
| ContactForm.ContactFormState.ValidateForm | src/components/sections/ContactForm.tsx:68-77 | replaces the whole error map with fresh results and returns true iff the form is valid |
| ContactForm.ContactFormState.HandleChange | src/components/sections/ContactForm.tsx:79-89 | only the edited field's value changes; that field's error is cleared, never set; every other error stays |
| ContactForm.ContactFormState.HandleBlur | src/components/sections/ContactForm.tsx:91-97 | only that field's error changes, to what `validateField` says of the value |
| ContactForm.ContactFormState.HandleSubmit | src/components/sections/ContactForm.tsx:99-111 | a filled honeypot gives success with no validation and no hand-off; otherwise the errors are rebuilt, an invalid form keeps its status, and a valid one goes to submitting with the message composed |
| ContactForm.ContactFormState.FinishSubmission | src/components/sections/ContactForm.tsx:116-128 | hands off the message composed at submit time, sets success and clears all four fields |
| ContactForm.SubmitValidForm | src/components/sections/ContactForm.tsx:99-128 | a valid form passes through submitting (inputs disabled) to success with every field cleared, and hands off the typed values |
| ContactForm.SubmitAsBot | src/components/sections/ContactForm.tsx:102-106 | with the honeypot filled, submit reports success at once, starts nothing and keeps the typed values |
| Strings.TrimIsSlice | src/components/sections/ContactForm.tsx:45 | `trim` returns a slice of its input with only whitespace around it |
| Strings.Trim | src/components/sections/ContactForm.tsx:45 | the trimmed text neither starts nor ends with whitespace and is no longer than the input |
| Strings.TrimEmptyIffAllSpace | src/components/sections/ContactForm.tsx:45 | `!value.trim()` holds exactly when the value is all whitespace |
| Strings.SplitJoin | src/components/sections/ExperienceTimeline.tsx:35 | `split` loses nothing: joining the pieces with the separator gives the input back |
| Strings.ParseIntIgnoresTail | src/components/sections/ExperienceTimeline.tsx:35 | `parseInt` reads the leading digits and ignores what follows them |
| Strings.Split | src/components/sections/ExperienceTimeline.tsx:14 | `split` gives at least one piece, and no piece holds the separator |
| Strings.SplitAtOnly | src/components/sections/ExperienceTimeline.tsx:14 | a string holding the separator once splits into exactly the text before and the text after it |
| Strings.ParseIntDigits | src/components/sections/ExperienceTimeline.tsx:15 | `parseInt` of a run of digits is the number they denote |
| Strings.Utf16Length | src/components/sections/ContactForm.tsx:46 | `.length` counts UTF-16 code units: at least one per character and at most two, and 0 only for the empty string |
| Strings.Utf16LengthBmp | src/components/sections/ContactForm.tsx:46 | `.length` equals the character count iff no character lies outside the Basic Multilingual Plane |
| Strings.Utf16LengthTrim | src/components/sections/ContactForm.tsx:46 | trimming never increases `.length` |
| Strings.ToLower | src/components/shared/TechIcon.tsx:80 | `toLowerCase` keeps the length and lower-cases each character on its own |
| Strings.RemoveSpaces | src/components/shared/TechIcon.tsx:80 | `replace(/\s+/g, "")` leaves no whitespace, never lengthens, and leaves a string without whitespace unchanged |
| Js.Take | src/components/shared/ProjectCard.tsx:37 | `slice(0, n)` is the prefix of length min(n, length) |
| Js.FilterExactly | src/data/projects.ts:62 | `filter` keeps the passing elements in input order, each as often as the input holds it, and nothing else |
| Js.FindIndex | src/data/projects.ts:69-70 | the search stops at the first passing element, or finds none iff no element passes |
| Js.Find | src/data/projects.ts:69-70 | `find` gives `undefined` iff no element passes, else the first element that passes |
| StableSort.SortPermutes | src/components/sections/ExperienceTimeline.tsx:43-47 | the sorted copy is a permutation of the input |
| StableSort.SortSorted | src/components/sections/ExperienceTimeline.tsx:43-47 | no element of the sorted copy is strictly ahead of one placed before it |
| StableSort.SortStable | src/components/sections/ExperienceTimeline.tsx:43-47 | the elements that share a key keep their input order |
| StableSort.SortOfSorted | src/data/experience.ts:58 | an input that is already ordered comes back as it is |
| Dates.YearOrder | src/components/sections/ExperienceTimeline.tsx:46-50 | character order on year-months never puts a later year first |
| ExperienceData.GetExperiencesByType | src/data/experience.ts:54-55 | exactly the records of that type, in source order |
| ExperienceData.SortedExperiencesFacts | src/data/experience.ts:58 | the sorted copy is a permutation ascending by `order`, and equals the shipped list |
| ExperienceData.ExperiencesByTypeValues | src/data/experience.ts:4-55 | work gives the internship, achievement the hackathon, education the degree |
| ExperienceData.ExperienceIdsAndOrder | src/data/experience.ts:4-51 | the ids are distinct and the `order` values are 1, 2, 3 |
| ExperienceData.ExperiencesWellDated | src/data/experience.ts:4-51 | every date is `YYYY-MM`, and the ongoing record has no end |
| ExperienceData.ExperienceEndsAfterStart | src/data/experience.ts:11-12 | the record that has an end ends no earlier than it starts |
| ExperienceTimeline.GetYearOfYearMonth | src/components/sections/ExperienceTimeline.tsx:34-36 | on a `YYYY-MM` date, `getYear` gives the number the four year digits denote |
| ExperienceTimeline.BucketYearOfEffectiveDate | src/components/sections/ExperienceTimeline.tsx:44-50 | the bucket key is the year of the same effective date the sort uses, so an ongoing record is bucketed by its start year |
| ExperienceTimeline.BucketYearIs | src/components/sections/ExperienceTimeline.tsx:50 | a record's bucket is the number its effective date's four year digits denote |
| ExperienceTimeline.LaterIsStrictTotalOrder | src/components/sections/ExperienceTimeline.tsx:46 | the comparator `dateB.localeCompare(dateA)` orders dates strictly and totally |
| ExperienceTimeline.SortByDateFacts | src/components/sections/ExperienceTimeline.tsx:43-47 | the sorted copy is a permutation of the input with no record followed by a later-dated one, and records sharing a date keep their input order |
| ExperienceTimeline.GroupsOfPrefix | src/components/sections/ExperienceTimeline.tsx:49-55 | visiting one more record is one more loop step |
| ExperienceTimeline.GroupByYear | src/components/sections/ExperienceTimeline.tsx:39-58 | the loop builds the map that `GroupsOf` describes, for the sorted copy |
| ExperienceTimeline.GroupsOfKeys | src/components/sections/ExperienceTimeline.tsx:49-55 | every year is listed once, and the listed years are exactly the map's keys |
| ExperienceTimeline.GroupsOfBuckets | src/components/sections/ExperienceTimeline.tsx:49-55 | partition: a year has a bucket iff some record falls in it, and the bucket is exactly those records, in visiting order |
| ExperienceTimeline.GroupsInOrder | src/components/sections/ExperienceTimeline.tsx:49-55 | when the years never rise, the keys are strictly descending and reading the buckets in key order gives the input back |
| ExperienceTimeline.SortedYearsDescend | src/components/sections/ExperienceTimeline.tsx:43-50 | after the newest-first sort, no record has a later year than one before it |
| ExperienceTimeline.TimelineShowsSortedRecords | src/components/sections/ExperienceTimeline.tsx:39-62 | the rendered years are the map's keys, strictly descending; the buckets read in that order are the sorted records, a permutation of the input |
| ExperienceTimeline.DateOf | src/components/sections/ExperienceTimeline.tsx:15 | `new Date(year, monthIndex)` normalises the month into 0..11 and keeps the same month count; years 0..99 mean 19xx |
| ExperienceTimeline.FormatDate | src/components/sections/ExperienceTimeline.tsx:13-17 | the formatted date is a month name and a year, with no dash |
| ExperienceTimeline.FormatDateReads | src/components/sections/ExperienceTimeline.tsx:14-15 | `split("-")` and `parseInt` read the year and the month of a `YYYY-MM` date |
| ExperienceTimeline.FormatDateOrdinary | src/components/sections/ExperienceTimeline.tsx:13-17 | months 01..12 print their own short month name and year |
| ExperienceTimeline.FormatDateMonth13 | src/components/sections/ExperienceTimeline.tsx:15 | month 13 rolls over into January of the next year |
| ExperienceTimeline.FormatDateMonth00 | src/components/sections/ExperienceTimeline.tsx:15 | month 00 is December of the year before |
| ExperienceTimeline.FormatDateTwoDigitYear | src/components/sections/ExperienceTimeline.tsx:15 | a year below 100 is printed as 19xx |
| ExperienceTimeline.FormatDurationMeans | src/components/sections/ExperienceTimeline.tsx:12-31 | starts with the start date; ends in " - Present" iff the record is current, even with an end; has a dash iff it is current or has an end |
| ExperienceTimeline.Cards | src/components/sections/ExperienceTimeline.tsx:92-107 | one card per record, in order |
| ExperienceTimeline.RenderShowsEveryRecordOnce | src/components/sections/ExperienceTimeline.tsx:61-92 | the empty-state message iff there are no records; otherwise the cards, section after section, are the sorted records' cards, each once |
| ExperienceTimeline.YearBadgeMeans | src/components/sections/ExperienceTimeline.tsx:84 | the badge `year.toString().slice(-2)` shows a year of two or more digits modulo 100, a one-digit year as that digit, and a non-number as "aN" |
| ExperienceTimeline.SortThree | src/components/sections/ExperienceTimeline.tsx:43-47 | three records already newest first keep their places |
| ExperienceTimeline.GroupsOfThree | src/components/sections/ExperienceTimeline.tsx:49-55 | two records of one year and a third of another give two buckets, in visiting order |
| TimelineExamples.ShippedEffectiveDates | src/data/experience.ts:11-43 | the effective dates are 2025-08 (the end), 2025-03 and 2023-08 (the starts) |
| TimelineExamples.ShippedDatesDescend | src/components/sections/ExperienceTimeline.tsx:46 | the comparator puts none of the three shipped dates ahead of an earlier-listed one |
| TimelineExamples.ShippedDateYears | src/components/sections/ExperienceTimeline.tsx:34-36 | `getYear` reads 2025, 2025 and 2023 |
| TimelineExamples.ShippedSortOrder | src/components/sections/ExperienceTimeline.tsx:43-47 | the sort leaves the shipped records in file order |
| TimelineExamples.ShippedBucketYears | src/components/sections/ExperienceTimeline.tsx:50 | the buckets are 2025, 2025 and 2023 |
| TimelineExamples.ShippedGroups | src/components/sections/ExperienceTimeline.tsx:49-55 | 2025 holds the internship then the hackathon; 2023 holds the degree |
| TimelineExamples.ShippedTimeline | src/components/sections/ExperienceTimeline.tsx:39-62 | the same buckets after the sort, with the years rendered as 2025, 2023 |
| TechIcon.SizeClassesDistinct | src/components/shared/TechIcon.tsx:24-28 | the three sizes map to three different classes |
| TechIcon.NormalizeKey | src/components/shared/TechIcon.tsx:80 | the key has no whitespace and no upper-case letter, and is no longer than the name |
| TechIcon.NormalizeKeyOfKey | src/components/shared/TechIcon.tsx:80 | a string with no whitespace and no capitals is its own key |
| TechIcon.NormalizeKeyIdempotent | src/components/shared/TechIcon.tsx:80 | normalising twice is normalising once |
| TechIcon.NormalizeKeyIgnoresCase | src/components/shared/TechIcon.tsx:80 | an upper-cased or lower-cased name has the same key |
| TechIcon.NormalizeKeyIgnoresSpace | src/components/shared/TechIcon.tsx:80 | inserting whitespace anywhere does not change the key |
| TechIcon.UpperKeyExample | src/components/shared/TechIcon.tsx:80 | "NEXTJS" gives the key "nextjs" |
| TechIcon.SpacedKeyExample | src/components/shared/TechIcon.tsx:80 | "Next JS" gives the same key as "NEXTJS" |
| TechIcon.IconForMeans | src/components/shared/TechIcon.tsx:80-81 | a known key gives its entry and an unknown key gives the default `Code2`; case does not matter |
| TechIcon.SkillIconKeysPresent | src/components/shared/TechIcon.tsx:31-72 | every skill icon key other than the five missing ones has an entry of its own |
| TechIcon.SkillIconKeysAbsent | src/components/shared/TechIcon.tsx:31-72 | "api", "tensorflow", "pytorch", "huggingface" and "github" are skill keys the table lacks |
| TechIcon.SkillIconKeysMissing | src/components/shared/TechIcon.tsx:31-72 | a skill key lacks an entry exactly when it is one of those five |
| TechIcon.FallbackKey | src/components/shared/TechIcon.tsx:71-81 | a lower-case key the table lacks shows the default icon |
| TechIcon.SkillIconFallbacks | src/components/shared/TechIcon.tsx:71-81 | the five missing skill keys show `Code2` |
| TechIcon.RenderDefaults | src/components/shared/TechIcon.tsx:74-86 | size defaults to md (`w-5 h-5`); the name is shown iff `showLabel` is true, which defaults to false |
| Navigation.IsActiveRouteMeans | src/components/layout/MobileNav.tsx:97-100 | "/" is active only on "/"; any other href is active iff the path starts with it |
| Navigation.RawPrefixExamples | src/components/layout/MobileNav.tsx:99 | "/projects" is active on "/projects/resumebuddy" and also on "/projectsx"; "/" is not active on "/projects" |
| Navigation.AtMostOneActiveNavItem | src/data/siteConfig.ts:39-45 | with the shipped items, no path makes two items active |
| Navigation.CtaAnchorMeans | src/components/layout/MobileNav.tsx:236-249 | only "Resume" gets the default variant and `download`; target `_blank` with rel `noopener noreferrer` iff the button is external |
| Navigation.ShippedCtaAnchors | src/data/siteConfig.ts:47-61 | the résumé downloads in place; GitHub opens in a new tab |
| MobileNav.MenuFocus.constructor | src/components/layout/MobileNav.tsx:58-83 | the panel state the handler reads: whether the menu is open, how many focusable elements it has, and which one has focus |
| MobileNav.MenuFocus.HandleKeyDown | src/components/layout/MobileNav.tsx:58-83 | while open, Tab on the last element goes to the first and Shift+Tab on the first goes to the last, with the default prevented; every other case is left alone |
| MobileNav.TabStepCycles | src/components/layout/MobileNav.tsx:58-83 | with the trap, Tab moves to the next element modulo the count and Shift+Tab to the previous; focus never leaves the panel |
| MobileNav.ShiftTabUndoesTab | src/components/layout/MobileNav.tsx:58-83 | Shift+Tab undoes Tab and Tab undoes Shift+Tab, wrap-arounds included |
| MobileNav.Tabs | src/components/layout/MobileNav.tsx:68-79 | after any number of Tab presses, focus is still inside the panel |
| MobileNav.TabsForward | src/components/layout/MobileNav.tsx:75-78 | short of the last element, each Tab moves one element on |
| MobileNav.TabsAppend | src/components/layout/MobileNav.tsx:68-79 | a Tabs then b Tabs is a + b Tabs |
| MobileNav.TabsGoRound | src/components/layout/MobileNav.tsx:58-83 | count Tab presses visit every element once and bring focus back |
| MobileNav.RenderMeans | src/components/layout/MobileNav.tsx:143-250 | nothing renders while closed; open, one link per item, highlighted by the route rule, and one outlined anchor per button; the animation indices are 0, 1, 2, … across links then buttons |
| Header.HeaderState.constructor | src/components/layout/Header.tsx:17-18 | not scrolled, menu closed, page scrolling |
| Header.HeaderState.HandleScroll | src/components/layout/Header.tsx:22-24 | scrolled exactly when `scrollY > 10`; nothing else changes |
| Header.HeaderState.SyncBodyOverflow | src/components/layout/Header.tsx:31-36 | the body overflow is "hidden" exactly while the menu is open |
| Header.HeaderState.OpenMenu | src/components/layout/Header.tsx:142 | the menu opens and page scrolling stops |
| Header.HeaderState.CloseMenu | src/components/layout/Header.tsx:157 | the menu closes and page scrolling resumes |
| Header.HeaderState.HandleEscape | src/components/layout/MobileNav.tsx:47-51 | Escape closes an open menu; any other key, or a closed menu, changes nothing |
| Header.HeaderState.Unmount | src/components/layout/Header.tsx:37-39 | cleanup resets the body overflow to "" |
| Header.DesktopHighlightsMeans | src/components/layout/Header.tsx:82-103 | at most one item is highlighted, "Home" exactly on "/", and the highlights agree with the open mobile menu's |
| Header.DesktopCtasMeans | src/components/layout/Header.tsx:110-133 | the résumé downloads in place, GitHub is a ghost button opening a new tab; the desktop and mobile anchors differ only in variant |
| Header.ScrollProgressBounds | src/components/layout/Header.tsx:174-178 | 0 when the page cannot scroll (no division by zero); otherwise between 0 and 100, and 100 at the bottom |
| Header.ScrollProgressMonotone | src/components/layout/Header.tsx:174-178 | scrolling further down never shrinks the bar |
| MediaQuery.MinWidthsAscend | src/lib/constants.ts:44-50 | 640 < 768 < 1024 < 1280 < 1536, so the widths tell the breakpoints apart |
| MediaQuery.CurrentBreakpointMeans | src/hooks/useMediaQuery.ts:43-56 | null iff the width is under 640 or unknown; otherwise the widest breakpoint the viewport reaches |
| MediaQuery.CurrentBreakpointMonotone | src/hooks/useMediaQuery.ts:43-56 | a wider viewport never has a narrower current breakpoint |
| MediaQuery.MobileDesktopMeans | src/hooks/useMediaQuery.ts:61-70 | mobile iff the width is under 768, desktop iff it is at least 1024; never both, and both agree with the current breakpoint |
| MediaQuery.ServerSnapshot | src/hooks/useMediaQuery.ts:23-28 | on the server every query is false: no breakpoint, mobile, not desktop |
| ScrollAnimation.ResolveMeans | src/hooks/useScrollAnimation.ts:19 | a given option is kept; missing ones default to threshold 0.1, `triggerOnce` true and rootMargin "0px" |
| ScrollAnimation.OnceLatches | src/hooks/useScrollAnimation.ts:40-56 | with `triggerOnce`, the flag is set iff it was set before or some entry intersected; it never returns to false |
| ScrollAnimation.RepeatFollowsLast | src/hooks/useScrollAnimation.ts:40-56 | without `triggerOnce`, the flag is the last entry's `isIntersecting` |
| ScrollAnimation.AfterEntriesAppend | src/hooks/useScrollAnimation.ts:38-66 | entries delivered in one batch or in two give the same flag |
| ScrollAnimation.IgnoringLaterEntries | src/hooks/useScrollAnimation.ts:40-54 | once an entry has intersected, triggering once ignores everything after it |
| ScrollAnimation.RunEntries | src/hooks/useScrollAnimation.ts:38-66 | one pass over a batch: the flag is what the entries make of it; watching stops iff triggering once and some entry intersected; tweens are issued only when animated, so reduced motion leaves the flag as it is |
| ScrollAnimation.VisibilityObserver.constructor | src/hooks/useScrollAnimation.ts:19-35 | the flag starts false; the element is observed only if it is attached, and the animating hook hides it first |
| ScrollAnimation.VisibilityObserver.Deliver | src/hooks/useScrollAnimation.ts:37-67 | a batch updates the flag, the watching state and the tweens as `RunEntries` says; once watching has stopped, nothing changes |
| ProjectCard.TagsMean | src/components/shared/ProjectCard.tsx:89-102 | the first min(n, 5) tags in order; a "+k" badge iff n > 5, with shown + k = n |
| ProjectCard.ActionsShown | src/components/shared/ProjectCard.tsx:105-140 | each button appears iff its own property is truthy, in the order Case Study, Live Demo, Code |
| ProjectCard.ActionTargets | src/components/shared/ProjectCard.tsx:107-140 | Case Study links in-site to `/case-studies/<slug>`; Live Demo and Code open their URLs in a new tab |
| ProjectCard.ActionsIndependent | src/components/shared/ProjectCard.tsx:107-140 | each button depends on its own property alone |
| ProjectCard.FeaturedAndTitle | src/components/shared/ProjectCard.tsx:34-76 | badge and ring iff `featured` is true, which defaults to false; the title links to `/projects/<slug>` |
| FeaturedProject.ListsMean | src/components/shared/FeaturedProject.tsx:70-92 | highlights render iff present and non-empty, at most the first 3; at most the first 6 tags, with no overflow badge |
| FeaturedProject.CtasShown | src/components/shared/FeaturedProject.tsx:99-138 | case study iff a slug; demo iff a URL; source code iff a repository and no case study; view details iff neither a case study nor a demo |
| FeaturedProject.CtasAlwaysOffered | src/components/shared/FeaturedProject.tsx:99-138 | there are one or two calls to action, never both the case study and the source code |
| FeaturedProject.CtaTargets | src/components/shared/FeaturedProject.tsx:58-138 | the title and "View Details" lead to `/projects/<slug>`; only the demo and the code open a new tab |
| ProjectsGrid.GridProjectsMean | src/components/sections/ProjectsGrid.tsx:12-16 | by default, or when `showFeatured` is true, exactly the non-featured projects, in order; when it is false, the list unchanged |
| ProjectsGrid.RenderMeans | src/components/sections/ProjectsGrid.tsx:18-47 | "No projects to display." iff nothing is left; otherwise one card per project, in order, with the project's own featured flag |
| ProjectsGrid.CardPropsMean | src/components/sections/ProjectsGrid.tsx:34-43 | the card's description, image and tags are the short description, thumbnail and tech stack; its title links to the project page |
| ProjectsGrid.ShippedGrid | src/components/sections/ProjectsGrid.tsx:12-16 | the default grid of the shipped projects is NoteAura and Code Masters; with `showFeatured` false it holds all three |
| ProjectsData.FeaturedProjects | src/data/projects.ts:62 | exactly the featured projects, in source order |
| ProjectsData.GetProjectsByStatus | src/data/projects.ts:65-66 | exactly the projects of that status, in source order |
| ProjectsData.GetProjectBySlug | src/data/projects.ts:69-70 | undefined iff no project has that slug, else a project carrying it |
| ProjectsData.GetProjectBySlugExact | src/data/projects.ts:69-70 | with distinct slugs, the lookup finds exactly the project that carries the slug |
| ProjectsData.ProjectSlugsAndOrder | src/data/projects.ts:4-59 | the slugs are distinct and the `order` values are 1, 2, 3 |
| ProjectsData.OneFeaturedProject | src/data/projects.ts:4-62 | exactly one project, ResumeBuddy, is featured |
| ProjectsData.ProjectsByStatusValues | src/data/projects.ts:65-66 | every shipped project is completed; the other statuses select nothing |
| ProjectsData.ProjectsWellDated | src/data/projects.ts:4-59 | every date is `YYYY-MM` and every project has an end |
| ProjectsData.ProjectsEndAfterStart | src/data/projects.ts:21-56 | every project ends no earlier than it starts |
| CaseStudiesData.GetCaseStudyBySlug | src/data/caseStudies.ts:124-125 | undefined iff no case study has that slug, else one carrying it |
| CaseStudiesData.GetCaseStudyByProjectSlug | src/data/caseStudies.ts:128-129 | undefined iff no case study describes that project, else one that does |
| CaseStudiesData.CaseStudiesLinked | src/data/caseStudies.ts:6-7 | every case study's project exists and links back to it, and every linked case study is found by its slug |
| CaseStudiesData.CaseStudiesDated | src/data/caseStudies.ts:119 | `publishedAt` is `YYYY-MM-DD`, with no update date |
| Footer.IconOf | src/components/layout/Footer.tsx:29 | an icon iff the key is in the map: there is no fallback |
| Footer.SocialButtonsMean | src/components/layout/Footer.tsx:28-52 | one button per link, in order, with its href and label; a new tab with `noopener noreferrer` iff the href does not start with "mailto:"; an icon iff the key is known |
| Footer.UnknownKeyNoIcon | src/components/layout/Footer.tsx:11-16 | "GitHub" and "email" show no icon, while "github" does |
| Footer.ShippedIconsPresent | src/data/social.ts:4-29 | every shipped icon key is in the map, so every button has its icon |
| Footer.ShippedTargets | src/data/social.ts:4-29 | only the e-mail link, the last one, stays in the same tab |

## Left out

- The mail hand-off (`window.location.href`, ContactForm.tsx:117-125) is browser I/O. `encodeURIComponent` is a library call. `ContactForm.Compose` builds the plain subject and body before encoding.
- The one-second `setTimeout` and the `useTransition` scheduling are left out. A submission is two steps: `HandleSubmit` starts it, and `FinishSubmission` is what runs after the delay. The `pending` field stands for `isPending`.
- `ContactForm.ContactFormState.HandleSubmit`: the precondition `!SubmitDisabled()` stands for the browser not dispatching a submit while the button is disabled.
- The `"error"` status is never assigned in the source, so no transition reaches it. The submitting → error path of the design notes is absent.
- `\s` and `trim` use the fixed set of ECMAScript whitespace code points. `toLowerCase` is modelled on ASCII letters only; other letters are left as they are.
- The object literals `iconMap` (TechIcon, Footer) are finite maps. Inherited prototype keys such as "constructor" are not modelled.
- `toLocaleDateString("en-US", ...)` is a locale library call. `ExperienceTimeline.FormatDate` assumes the 12 English short month names, and models `new Date(y, m)`, including month rollover and the 19xx reading of years 0..99.
- `Strings.ParseInt` reads base-10 digits after optional whitespace and a sign. It does not model the `0x` hexadecimal prefix, which never occurs in a `YYYY-MM` date.
- `localeCompare` is modelled as code-unit order. This is exact for the fixed-width, zero-padded `YYYY-MM` dates the site passes it.
- MobileNav's focus on the close button when the menu opens (MobileNav.tsx:91-95) is left out. So are the clicks on the backdrop and on the links that call `onClose`. Those clicks are the same transition as `Header.HeaderState.CloseMenu`.
- The focusable elements the panel finds with `querySelectorAll` are abstracted to their count. A Tab that is not prevented is modelled as moving to the next element (or the previous, with Shift), which is the browser's default. Focus coming from outside the panel is not modelled.
- The Escape and focus-trap listeners, and their registration on `document`, are reduced to the key handlers themselves.
- `matchMedia` and the `useSyncExternalStore` subscription are left out. The viewport is an integer width in CSS pixels, or unknown on the server.
- `Header.ScrollProgress` uses real arithmetic, not IEEE doubles. The spring and the percentage styling are left out.
- `IntersectionObserver` is abstracted to the batches of `isIntersecting` flags it delivers. `threshold` and `rootMargin` only configure the observer, so they are carried but do not act. GSAP tweens are abstracted to their kind (hide, fade in, fade out).
- When the options change, the effect re-runs with a new observer. This re-run is not modelled.
- The Footer's current year (Footer.tsx:19) reads the clock. It is left out, and so is the Footer's navigation markup.
- Project `fullDescription` and `images` are left out, as are the case studies' narrative fields (problem, solution, results and so on). No rule reads them.
- React keys (`key={tag}` with duplicate tags), class names, icons, animation delays and all other markup are left out.
- Pages, layouts, the loading and error views, and the sections that only compose other components are not part of this model. So are the animation helpers, `AnimatedSection` and `PageTransition`.
