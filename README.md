# Student management: the client-side data pipeline

A student-management web app lists student records (name, email, subject,
marks), lets the user add a record through a validated form, and charts how
many students got each mark. This project models the part of the client that
computes things:

- **The students page** (`Listing`, `ListingPage`). The list is sorted by the
  configured column and direction, starting with marks, highest first. It is
  then filtered by a case-insensitive search over name, email and subject, and
  cut into pages of five. The model covers the "Showing X-Y of Z" line, the
  Prev/Next buttons, the window of at most five page buttons and the colour of
  the marks badge. `StudentsPage` is a class that holds the view state. Its
  methods are the handlers: load, sort, search, previous, next, and jump to a
  page.
- **The "Add New Student" form** (`StudentForm`). `validateForm` runs four
  checks that are independent of each other. They use trim, the email
  pattern `\S+@\S+\.\S+` and a range check on the marks text. `RecordForm` is
  a class holding the form data and the error map. Its methods are
  `handleChange` and `handleSubmit`.
- **The bar chart** (`BarChart`). A reduce groups the students by exact marks,
  with a count and the names of each group. The chart also shows the number
  of students and their mean marks.
- **String built-ins** (`Text`). This module models the JavaScript white
  space set, `trim`, `toLowerCase`, `includes` and `localeCompare`.

The sort is a stable sort, written as insertion sort. It is proved to be a
permutation of its input and ordered by the comparator. It is also proved
stable: records with equal sort values keep their input order. So sorting a
column the other way does not reverse the list when values tie, because both
directions keep tied records in input order. `Listing.TiesKeepInputOrder`
proves this on two records with equal marks.

## Model

| member | source | states |
|---|---|---|
| Text.Trim | src/app/components/StudentFormModal.js:20 | `trim` never lengthens the text and leaves no white space at either end |
| Text.TrimIsInfix | src/app/components/StudentFormModal.js:20 | `trim` returns the text with its leading and its trailing white space removed, and nothing else |
| Text.BlankIffAllWhitespace | src/app/components/StudentFormModal.js:20-21 | `!value.trim()` holds exactly when every character is JS white space |
| Text.Lower | src/app/page.js:94-96 | `toLowerCase` keeps the length, leaves no capital letter, maps each capital to its small letter and keeps every other character |
| Text.LowerIdempotent | src/app/page.js:94-96 | lowering an already lowered text changes nothing |
| Text.Includes | src/app/page.js:94-96 | `includes` is true exactly when the needle occurs at some index of the haystack |
| Text.LocaleCompare | src/app/page.js:90 | the string comparison returns -1, 0 or 1, and 0 exactly for equal strings |
| Text.LocaleCompareAntisymmetric | src/app/page.js:90 | exchanging the operands negates the comparison |
| Text.LocaleCompareTransitive | src/app/page.js:90 | the comparison is transitive, so it is a valid sort comparator |
| Listing.NextSortConfig | src/app/page.js:71-77 | a header click sorts by that column; it is descending exactly when that column was already ascending |
| Listing.SortToggleTwice | src/app/page.js:71-77 | two clicks on the current sort column restore its configuration; two clicks on a new column leave it descending |
| Listing.Compare | src/app/page.js:79-91 | the comparator is 0 exactly on equal sort values; on marks it is negative exactly when a's marks come first in the chosen direction |
| Listing.DescendingIsSwappedAscending | src/app/page.js:85-90 | the descending comparator is the ascending one with the operands exchanged |
| Listing.CompareAntisymmetric | src/app/page.js:79-91 | the comparator changes sign when the operands are exchanged |
| Listing.CompareTransitive | src/app/page.js:79-91 | the comparator is transitive |
| Listing.SortStudents | src/app/page.js:79-91 | the sorted copy has as many records as the input; the three lemmas below pin its contents, order and stability |
| Listing.SortIsPermutation | src/app/page.js:79 | the sorted copy has the same records with the same multiplicities |
| Listing.SortIsSorted | src/app/page.js:79-91 | the sorted copy is ordered by the comparator |
| Listing.SortIsStable | src/app/page.js:79-91 | for every sort value, the records that carry it appear in the sorted copy in their input order |
| Listing.TiesKeepInputOrder | src/app/page.js:79-91 | two records with equal marks come out in input order both ascending and descending |
| Listing.Filter | src/app/page.js:93-97 | the filter keeps exactly the elements that pass the test, and never lengthens the list |
| Listing.FilterKeepsOrder | src/app/page.js:93-97 | the filtered list is the input read at strictly increasing positions, and it includes every accepted position |
| Listing.FilterCount | src/app/page.js:93-97 | an accepted record occurs as often as in the input; a rejected one does not occur |
| Listing.FilterPermutation | src/app/page.js:93-97 | reordering the input does not change the multiset the filter keeps |
| Listing.FilterIdempotent | src/app/page.js:93-97 | filtering again with the same test changes nothing |
| Listing.FilterAll | src/app/page.js:93-97 | a test that accepts every record keeps the list unchanged |
| Listing.Matches | src/app/page.js:93-97 | a record matches exactly when the lowered term occurs at some position of its lowered name, email or subject; the empty term matches every record |
| Listing.MatchesIgnoresCase | src/app/page.js:94-96 | lowering the term first matches the same records, so the search ignores the term's case |
| Listing.FilterStudents | src/app/page.js:93-97 | the search keeps exactly the matching records and never lengthens the list |
| Listing.FilteredStudents | src/app/page.js:79-97 | the listed records are exactly the loaded records that match the search, and there are no more of them than loaded records |
| Listing.FilterEmptyTerm | src/app/page.js:93-97 | an empty search term keeps every record, in order |
| Listing.FilteredIsSorted | src/app/page.js:79-97 | the filtered list is still ordered by the comparator |
| Listing.InitialListingExample | src/app/page.js:17-97 | with the initial configuration and no search, a 90-mark record is listed before a 50-mark record that came first |
| Listing.TotalPages | src/app/page.js:104 | `Math.ceil(n / 5)` is the fewest pages of five that hold n records |
| Listing.Slice | src/app/page.js:105 | `slice` with non-negative bounds takes the records from start up to end, clipped to the list, and nothing when start is past the end or end is not after start |
| Listing.DisplayedStudents | src/app/page.js:105 | page p shows min(5, n - 5(p-1)) records (none past the end), namely those from position 5(p-1) on |
| Listing.PagesUpToIsPrefix | src/app/page.js:104-105 | pages 1 to k, concatenated, are the first 5k records |
| Listing.PagesCoverList | src/app/page.js:104-105 | pages 1 to totalPages, concatenated, are exactly the filtered list |
| Listing.PagesInRangeAreNonEmpty | src/app/page.js:104-105 | a page p >= 1 shows records exactly when p <= totalPages |
| Listing.ShowingFrom | src/app/page.js:205 | on a page p >= 1, X is at least 1 and is one more than a multiple of five |
| Listing.ShowingTo | src/app/page.js:205 | Y is the smaller of the list length and five times the page |
| Listing.ShowingDescribesPage | src/app/page.js:205 | on a page in range, X-Y are the 1-based positions of its first and last record, and Y - X + 1 is its size |
| Listing.PreviousPage | src/app/page.js:210 | "previous" never goes below 1; from page p > 1 it goes to p - 1, and from page 1 or below it goes to 1 |
| Listing.NextPage | src/app/page.js:243 | "next" never passes totalPages; below it it goes to p + 1, and from totalPages or beyond it goes to totalPages |
| Listing.NavigationStaysInRange | src/app/page.js:210-243 | from a page in [1, totalPages], both buttons stay in that range |
| Listing.PageWindow | src/app/page.js:218-228 | the window has min(5, totalPages) consecutive buttons in [1, totalPages], and one of them is the current page when that page is in range; with more than five pages it starts at 1 for pages up to 3, ends at totalPages for the last three pages, and has the current page in the middle otherwise |
| Listing.BadgeOf | src/app/page.js:184-187 | green exactly from 80, blue exactly in [60, 80), yellow exactly in [40, 60), red exactly below 40 |
| Listing.BadgeMonotone | src/app/page.js:184-187 | higher marks never get a lower badge |
| ListingPage.StudentsPage.constructor | src/app/page.js:9-18 | no records, empty search, marks descending, page 1 |
| ListingPage.StudentsPage.Load | src/app/page.js:39 | the fetched records replace the list; search, sort and page stay |
| ListingPage.StudentsPage.HandleSort | src/app/page.js:71-77 | the configuration toggles and the view returns to page 1; the listed records stay the same multiset |
| ListingPage.StudentsPage.SetSearchTerm | src/app/page.js:29-32 | the term is stored; the view returns to page 1 exactly when the term changed |
| ListingPage.StudentsPage.GoToPrevious | src/app/page.js:202-214 | when the controls are shown (at least one page) the page becomes `max(1, page - 1)`; otherwise it stays; either way it stays on an existing page |
| ListingPage.StudentsPage.GoToNext | src/app/page.js:202-248 | the page becomes `min(totalPages, page + 1)` when the controls are shown, and stays on an existing page |
| ListingPage.StudentsPage.GoToPage | src/app/page.js:218-239 | a window button moves to its page, which is an existing page |
| StudentForm.MatchesEmailPattern | src/app/components/StudentFormModal.js:28 | the decider is true exactly when the text contains a non-space, '@', one or more non-spaces, '.', and a non-space |
| StudentForm.ParseDecimal | src/app/components/StudentFormModal.js:41-63 | the numeral of n, with or without a minus sign, parses back to n or -n |
| StudentForm.ParseLeadingInt | src/app/components/StudentFormModal.js:41 | `parseInt` on decimal text (no "0x" prefix) yields a number exactly when digits follow the leading white space and sign |
| StudentForm.ParseLeadingIntReadsLeadingDigits | src/app/components/StudentFormModal.js:41 | in decimal reading, after white space and an optional sign, the numeral of n followed by anything that is not a digit parses to n, or to -n after a minus sign |
| StudentForm.MarksErrorAsWritten | src/app/components/StudentFormModal.js:38-44 | the marks check as written passes a non-blank number literal whose `parseInt` is in [0, 100] or NaN |
| StudentForm.MarksCheckAgreesOnIntegers | src/app/components/StudentFormModal.js:38-44 | on whole-number texts, the check as written and the whole-number check give the same result and the same parsed value |
| StudentForm.ExponentSlipsThrough | src/app/components/StudentFormModal.js:41 | "5e1" (the number 50) passes the check as written and submits 5; the whole-number check rejects it |
| StudentForm.NaNSlipsThrough | src/app/components/StudentFormModal.js:41 | ".0" (the number 0) passes the check as written although `parseInt` finds no digit, so NaN is submitted; the whole-number check rejects it |
| StudentForm.DecimalPointDiffers | src/app/components/StudentFormModal.js:41 | "50.0" passes the check as written and submits 50; the whole-number check rejects it |
| StudentForm.NameError | src/app/components/StudentFormModal.js:20-23 | the name gets "Name is required" exactly when it is all white space, and no message otherwise |
| StudentForm.EmailError | src/app/components/StudentFormModal.js:25-31 | "Email is required" exactly when all white space; "Email is invalid" exactly when not blank and not of the pattern's shape; no message exactly when not blank and of that shape |
| StudentForm.SubjectError | src/app/components/StudentFormModal.js:33-36 | the subject gets "Subject is required" exactly when it is all white space, and no message otherwise |
| StudentForm.MarksError | src/app/components/StudentFormModal.js:38-44 | "Marks are required" exactly when all white space; no message exactly when the text is a whole number in [0, 100]; otherwise the range message |
| StudentForm.Errors | src/app/components/StudentFormModal.js:16-48 | each field's entry, if any, is one of that field's own messages |
| StudentForm.ValidateForm | src/app/components/StudentFormModal.js:16-48 | the method builds exactly the error map of the four checks, and reports valid exactly when that map is empty |
| StudentForm.ErrorsAreIndependent | src/app/components/StudentFormModal.js:16-48 | a field's entry in the error map depends on that field's text alone |
| StudentForm.ErrorsEntry | src/app/components/StudentFormModal.js:16-48 | a field has an entry exactly when its check fails, and the entry is that check's message |
| StudentForm.ValidIffEveryFieldPasses | src/app/components/StudentFormModal.js:16-48 | the form is valid exactly when all four checks pass |
| StudentForm.Submission | src/app/components/StudentFormModal.js:61-64 | the submitted record keeps the typed name, email and subject, and its marks are the number the marks text denotes, in [0, 100] when the marks check passes |
| StudentForm.ValidFormGivesWellFormedRecord | src/app/components/StudentFormModal.js:58-64 | a valid form has a whole-number marks text and submits exactly that number, in [0, 100], with a non-blank name and subject and an email matching the pattern |
| StudentForm.WhitespaceNameIsRequired | src/app/components/StudentFormModal.js:20-23 | a name of only white space gets "Name is required" |
| StudentForm.MarksExamples | src/app/components/StudentFormModal.js:38-44 | "150" is out of range; "50" passes |
| StudentForm.ValidFieldExamples | src/app/components/StudentFormModal.js:25-36 | "a@b.com" passes the email check and "Math" passes the subject check |
| StudentForm.InvalidEmailExample | src/app/components/StudentFormModal.js:20-31 | "A" passes the name check and "bad", which has no '@', gets "Email is invalid" |
| StudentForm.MissingNameExample | src/app/components/StudentFormModal.js:16-48 | an empty name with the other fields valid gives exactly one error, on the name |
| StudentForm.BadEmailAndMarksExample | src/app/components/StudentFormModal.js:16-48 | an email without '@' and marks of 150 are both reported with their messages, and nothing else is |
| StudentForm.WithField | src/app/components/StudentFormModal.js:50-56 | the named field takes the new value; every other field is unchanged |
| StudentForm.RecordForm.constructor | src/app/components/StudentFormModal.js:7-14 | the form starts with four empty fields and no errors |
| StudentForm.RecordForm.HandleChange | src/app/components/StudentFormModal.js:50-56 | only the named field changes; the shown errors stay |
| StudentForm.RecordForm.HandleSubmit | src/app/components/StudentFormModal.js:58-74 | errors become the validation result; a valid form submits its record with parsed marks and is emptied; an invalid one submits nothing and is kept |
| BarChart.FindGroup | src/app/components/Barchart.js:6 | `find` returns the first group with these marks, or reports that none has them |
| BarChart.Find | src/app/components/Barchart.js:6 | the search loop stops exactly where `find` does |
| BarChart.AddStudent | src/app/components/Barchart.js:6-12 | one step adds at most one group, leaves the list non-empty and counts exactly one more student |
| BarChart.Aggregated | src/app/components/Barchart.js:5-14 | there are never more groups than students, and at least one when there is a student |
| BarChart.Aggregate | src/app/components/Barchart.js:5-14 | the loop with its inner search builds exactly the groups of the reduce |
| BarChart.GroupsCoverMarks | src/app/components/Barchart.js:5-14 | the groups' marks are exactly the marks that occur among the students |
| BarChart.GroupsAreDistinct | src/app/components/Barchart.js:5-14 | no two groups have the same marks |
| BarChart.GroupsListTheirStudents | src/app/components/Barchart.js:5-14 | every group lists the names of all students with its marks, in input order, and its count is their number |
| BarChart.GroupsInFirstOccurrenceOrder | src/app/components/Barchart.js:5-14 | the groups appear in the order in which their marks first occur among the students |
| BarChart.CountsSumToTotal | src/app/components/Barchart.js:5-17 | the group counts add up to the number of students |
| BarChart.TotalStudents | src/app/components/Barchart.js:17 | the number of students on the card equals the sum of the bar heights |
| BarChart.SumMarksAppend | src/app/components/Barchart.js:19 | the sum is the left-to-right reduce: adding one more student adds that student's marks |
| BarChart.AverageMarks | src/app/components/Barchart.js:18-20 | 0 with no students; otherwise the mean times the number of students is the sum of the marks |
| BarChart.AverageWithinBounds | src/app/components/Barchart.js:18-20 | when all marks lie in [lo, hi], the mean does too |
| BarChart.AverageExample | src/app/components/Barchart.js:18-20 | marks 80 and 60 average 70 |

## Left out

- src/app/api/students/route.js and src/app/models/Student.js (the database API and its schema) are not part of this model. The store is reduced to the list that `Load` receives.
- The fetch calls in `fetchStudents` and `handleAddStudent`, the loading flag, the modal open/close state, the view toggle and all rendering are left out. They are I/O and presentation.
- The record id (`_id`) is left out. It is only a React key.
- React's effect that returns to page 1 runs after the render in which the search or the sort changed. The model folds it into `HandleSort` and `SetSearchTerm`, so the one transient render on the old page is not modelled.
- Text.LocaleCompare: modelled as code-point lexicographic order, not the host's locale collation.
- Text.Lower: lowers ASCII letters only, not full Unicode case mapping.
- Listing.Compare: the `!sortConfig.key` branch is dead, because the key is always set, so it is not modelled. Marks are modelled as integers, on which `parseInt` is the identity. A stored marks value that is not an integer, or is null, is not modelled. The form produces one for ".0", which it submits as NaN and which JSON turns into null (see Findings). On such a value `parseInt` gives NaN, and so does the comparator.
- Listing.SortStudents: models one stable sort, insertion sort. Any stable sort gives the same result, which is what `SortIsSorted` and `SortIsStable` pin down.
- ListingPage.StudentsPage.GoToPage: requires the number to be one of the window's buttons, because those are the only page numbers the page offers.
- StudentForm.ValidateForm: uses the whole-number marks check (`MarksError`), not the check as written at StudentFormModal.js:41. So texts the source accepts, such as "50.0" (submitted as 50) and "5e1" (submitted as 5), are reported here. `StudentForm.DecimalPointDiffers` and `StudentForm.ExponentSlipsThrough` state both behaviours, and `StudentForm.MarksCheckAgreesOnIntegers` shows that the two checks agree on every whole-number text.
- StudentForm.RecordForm.HandleSubmit: runs `ValidateForm`, so it keeps "50.0" and "5e1" in the form with a marks message where the source submits them. See the line above.
- StudentForm.ParseLeadingInt: reads decimal digits only. Without a radix, `parseInt` also accepts a "0x" or "0X" prefix and reads base 16 after it ("0x" is NaN, "0x1A" is 26), while the model reads the leading "0". A number input never holds such text.
- StudentForm.ParseLeadingIntReadsLeadingDigits: states the decimal reading. For n = 0 followed by 'x' or 'X', `parseInt` would read base 16 instead; see the line above.
- StudentForm.MarksErrorAsWritten: covers decimal number literals only. Hexadecimal, binary, octal and "Infinity" texts are treated as not-a-number. A number input never holds them.
- BarChart.AverageMarks: the mean is exact. The one-decimal rounding of `toFixed` is presentation and is left out.
- The chart itself (recharts), its tooltip and the small summary cards are rendering and are left out.

## Findings

| source | as written | input that shows it | evidently intended | confidence | as-written member | corrected member |
|---|---|---|---|---|---|---|
| src/app/components/StudentFormModal.js:41 | any number literal passes `isNaN`, and only `parseInt`, which reads the leading digits, is compared with 0 and 100 | marks "5e1" is the number 50, so it also meets the input's own constraints (type number, min 0, max 100, lines 143-153, with the default step of 1) and the browser lets it through; it passes the check and is submitted as 5. Marks ".0" (the number 0) also meet those constraints, pass, and are submitted as NaN (`StudentForm.NaNSlipsThrough`) | only whole numbers from 0 to 100 pass, and that number is submitted | not executed | StudentForm.ExponentSlipsThrough | StudentForm.ValidFormGivesWellFormedRecord |

The corrected check is `StudentForm.MarksError`. It accepts a trimmed text of
an optional sign and digits whose value lies in [0, 100].
`StudentForm.ValidateForm` and `StudentForm.RecordForm.HandleSubmit` use it.
`StudentForm.MarksCheckAgreesOnIntegers` shows that it agrees with the check
as written on every whole-number text. `StudentForm.ValidFormGivesWellFormedRecord`
proves that a valid form submits exactly the whole number its marks text
denotes (`StudentForm.WholeNumberValue`, the corrected reading, not a model of
`parseInt`; `StudentForm.ParseLeadingInt` models `parseInt`), which "5e1" (submitted as 5) and ".0" (submitted as NaN) violate as
written.
