# Workday RateMyProfessors helper — verified model of the content script

This project models, in Dafny, the logic of the extension's content script (`content.js`), which
runs inside Workday's course-registration pages:

- **Recognising professor labels** (`isValidProfessor`): a hovered option's label counts as a
  professor's name when it is non-empty, holds no digit and holds a comma.
- **Names** (`normalizeName`, `convertToFirstLast`): names are normalised for comparison, and
  "Last, First" labels are turned into the "First Last" query sent to RateMyProfessors.
- **Resolving a professor** (`fetchRMPInfo`):
  - the relay-store JSON is cut out of the fetched search page between two fixed markers;
  - its values are filtered down to the teacher records of the school;
  - one record is chosen by three tiers: an exact full-name match, then a last-name match, then a
    fuzzy match within one mismatched character per name (`simpleCharDiff`);
  - the chosen record is shaped into the popup's fields, with "N/A" sentinels and a rounded-up
    would-take-again percentage;
  - every failure inside its `try` block falls back to the query name and a search link.
- **Selecting the academic year** (`scrollAndSelectYear`): a virtualised list is scrolled 200 pixels
  at a time until the option naming the academic year is rendered, or the offset stops moving. This
  is modelled as a class whose `scrollTop` the browser clamps.
- **Waiting for an element** (`waitForElement`): a promise polls the page every 50 ms and settles
  with the first element found, or rejects once the elapsed time reaches the timeout. This holds
  for a selector the page can evaluate; an invalid one leaves the promise pending (see "## Left out").

## Model of JavaScript

The JavaScript built-ins the script relies on are modelled in module `Js`:

- `trim` removes the ECMAScript white-space and line-terminator characters.
- `toLowerCase` is ASCII lower-casing (see Left out).
- `split` on a single character.
- `indexOf` and `includes`.
- `substring`, including its clamping and argument swap.
- `Array.prototype.find` and `filter`.
- `Math.ceil` on reals.
- Decimal rendering of integers.

Values read off a JavaScript object are modelled as follows:

- A value that may be `undefined`, `null` or `NaN` is a `Metric`.
- A string property that may be missing is the empty string, which is falsy in JavaScript just as a
  missing one is.
- A missing `legacyId` is `0`, which is also falsy.

`JSON.parse` and the background page's reply are parameters of `FetchRmpInfo`. The page is a
function from a scroll offset to the rendered option texts, and from a tick number to what
`document.querySelector` returns.

Three behaviours of the code worth knowing:

- `isValidProfessor` accepts a label with any number of commas, not exactly one. For such a label,
  `convertToFirstLast` returns the trimmed label unchanged, and that is what is searched for.
- `scrollAndSelectYear` ends normally when the list is exhausted. It only logs a warning and raises
  no error.
- When no tier matches, the script reads a field of `undefined`. The resulting `TypeError` is caught
  by the same handler as the other failures, so the result is the fallback. The model states that
  fallback directly.

## Model

| member | source | states |
|---|---|---|
| Js.ToLowerCase | content.js:29 | each character is lower-cased and the length is kept; no upper-case letter remains |
| Js.LeadingSpace | content.js:29 | the count of leading characters that are all white space, stopping at the first one that is not |
| Js.ContentEnd | content.js:29 | the end of the text before the trailing white space: everything after it is white space and the character before it is not |
| Js.Trim | content.js:29 | the result has no leading or trailing white space, uses only characters of the input, and leaves an already-trimmed string unchanged |
| Js.TrimLeadingWhitespace | content.js:76 | white space put in front of a string is removed by `trim` |
| Js.TrimTrailingWhitespace | content.js:76 | white space put after a string is removed by `trim` |
| Js.TrimEndWhitespace | content.js:77 | white space after a string is exactly what the end-trim removes |
| Js.TrimBothEdges | content.js:29 | `trim` removes exactly the white space on both sides of a text that has none at its own edges: the result is that text |
| Js.RemoveAll | content.js:29 | `replace(/\./g, '')`: no occurrence of the character remains, nothing else is added, and a string without it is unchanged |
| Js.RemoveAllLength | content.js:29 | the result is shorter than the input by exactly the number of occurrences of the removed character |
| Js.RemoveAllConcat | content.js:29 | removing from a concatenation removes from each side and keeps their order |
| Js.RemoveAllSingle | content.js:29 | a single character is dropped exactly when it is the removed one, and kept otherwise |
| Js.Split | content.js:94 | `split` on one character gives one more part than there are separators, and no part contains the separator |
| Js.SplitJoin | content.js:94 | joining the parts with the separator gives back the string, so the parts are the pieces between consecutive separators, in order |
| Js.JoinSplit | content.js:94 | separator-free words joined by the separator split back into exactly those words |
| Js.SplitWithoutSeparator | content.js:241 | a string without the separator splits into itself alone |
| Js.SplitAtOnlySeparator | content.js:241 | a string with exactly one separator splits into the text before it and the text after it |
| Js.IndexFromMeaning | content.js:72-73 | `indexOf` from a start position reports an occurrence with none between the start and it, or -1 when none occurs from the start on |
| Js.IndexOfMeaning | content.js:72-73 | `indexOf`: the first occurrence of the pattern, or -1 exactly when it never occurs |
| Js.IndexOfFirst | content.js:72-73 | an occurrence with none before it is the one `indexOf` reports |
| Js.IndexOfPlaced | content.js:72-73 | a pattern placed after text that does not contain it is found right after that text |
| Js.IndexFrom | content.js:72-73 | the reported position is -1 or lies at or after the start position (its meaning is Js.IndexFromMeaning) |
| Js.IndexOf | content.js:72-73 | the result is -1 or a position (its meaning is Js.IndexOfMeaning) |
| Js.IncludesMeaning | content.js:24 | `includes` is true exactly when the pattern occurs somewhere |
| Js.Includes | content.js:24 | `includes` as `indexOf(...) >= 0`; its meaning is Js.IncludesMeaning |
| Js.Substring | content.js:76 | `substring` with indexes in order and in range is the slice between them |
| Js.FindIndex | content.js:97-99 | `find` stops at the first element passing the test; when it finds nothing, no element passes |
| Js.FindIndexOfFirst | content.js:97-99 | the first element passing the test is the one `find` returns |
| Js.Find | content.js:97-99 | `find` returns the first element passing the test, and `undefined` exactly when no element passes |
| Js.Filter | content.js:82-88 | `filter` keeps only elements of the input that pass the test and is no longer than the input |
| Js.FindAfterFilter | content.js:82-99 | finding in a filtered array is finding the first element that passes both tests |
| Js.Ceil | content.js:145 | `Math.ceil`: the least integer not below the value |
| Js.Digits | content.js:319 | the decimal rendering of a natural number is a non-empty string of digits that starts with "0" only for zero |
| Js.DigitsRoundTrip | content.js:319 | reading the decimal rendering back gives the number |
| Js.DigitsValuePositive | content.js:319 | a digit string that does not start with "0" denotes a positive number |
| Js.DigitsUnique | content.js:319 | a digit string without a leading zero is the rendering of its own value, so the rendering is the only such string for a number |
| Js.NumberToString | content.js:319 | an integer in a template literal: a minus sign for a negative number, then its decimal digits (see Js.NumberToStringValue) |
| Js.NumberToStringValue | content.js:319 | the rendering reads back as the integer: digits without a leading zero for a non-negative one, a minus sign and such digits of its magnitude for a negative one |
| Names.LabelText | content.js:12 | the label is one of aria-label, inner text and text content; it is truthy exactly when one of them is, and aria-label wins when it is truthy |
| Names.HasDigit | content.js:21 | `/\d/`: some character of the label is a decimal digit |
| Names.StartsWithCourseCode | content.js:18 | `/^[A-Z]{2,5} \d{3,4}/`: two to five capitals, a space and three digits at the start (a fourth digit is optional, so it does not change the match) |
| Names.IsValidProfessor | content.js:11-25 | a label (aria-label, else inner text, else text content) is accepted exactly when it is non-empty, contains no digit and contains a comma |
| Names.CourseCodeHasDigit | content.js:18-21 | a label starting with a course code such as "CSE 131" contains a digit, so the digit test rejects it too |
| Names.NormalizeName | content.js:28-30 | the normalised name contains no period and no upper-case letter, and has no leading or trailing white space |
| Names.NormalizeNameValue | content.js:28-30 | a name that, lower-cased and without periods, is a text padded by white space normalises to exactly that text |
| Names.NormalizeInitials | content.js:28-30 | "  J.R. Smith " normalises to "jr smith" |
| Names.NormalizeIdempotent | content.js:28-30 | normalising twice is the same as normalising once |
| Names.ConvertToFirstLast | content.js:238-250 | a non-string gives ""; exactly one comma gives the trimmed text after it, a space, and the trimmed text before it; otherwise the trimmed input |
| Names.ConvertLastCommaFirst | content.js:237-250 | "Last, First" becomes "First Last" for any halves without commas or edge white space |
| Names.ConvertWithoutComma | content.js:243-244 | a name without a comma, such as "John Smith", is only trimmed |
| Names.ConvertTwoCommas | content.js:243-244 | a name with two commas, such as "A, B, C", is only trimmed, not reordered |
| Matching.IsTeacherEntry | content.js:83-87 | the structural filter: typename "Teacher", a non-empty first and last name, a non-zero legacy id, and the school's relay reference |
| Matching.DiffCount | content.js:117-120 | the mismatch count over the first n positions is at most n |
| Matching.Mismatches | content.js:117-120 | the mismatch count over the common length is bounded by both lengths |
| Matching.SimpleCharDiff | content.js:113-122 | the result is the number of differing positions of the two normalised names over their common length |
| Matching.CharDiff | content.js:113-122 | the mismatch count of the two normalised names; its properties are Matching.CharDiffProperties and Matching.CharDiffOfNormalized |
| Matching.CountMismatches | content.js:116-121 | the counting loop's result is the number of positions below the shorter length at which the two strings differ |
| Matching.DiffCountIsDifferingPositions | content.js:117-120 | the count is the number of positions below n where the strings differ |
| Matching.DiffCountSymmetric | content.js:117-120 | the count does not depend on the order of the strings |
| Matching.DiffCountZero | content.js:117-120 | the count is zero exactly when the two prefixes of length n are equal |
| Matching.MismatchesSymmetric | content.js:117-120 | the mismatch count does not depend on the order of the strings |
| Matching.MismatchesZeroIffPrefix | content.js:117-121 | no mismatches exactly when one string is a prefix of the other |
| Matching.CharDiffProperties | content.js:113-122 | `simpleCharDiff` is symmetric and bounded by both normalised lengths |
| Matching.CharDiffOfNormalized | content.js:124-132 | normalising the names again inside `simpleCharDiff` changes nothing |
| Matching.MismatchesExamples | content.js:127-134 | "jon"/"john" and "smyth"/"smith" differ at one position each; "jon" against "jonathan" costs nothing |
| Matching.QueryParts | content.js:93-94 | the lower-cased query split at single spaces, at least one part (see Matching.QueryPartsOfWords) |
| Matching.QueryPartsOfWords | content.js:93-94 | a query of three space-free words splits into those three words, lower-cased |
| Matching.IsExactMatch | content.js:98 | tier 1: the record's "first last", lower-cased, equals the lower-cased query |
| Matching.IsLastNameMatch | content.js:104-106 | tier 2: the record's lower-cased last name equals the last part of the query |
| Matching.IsFuzzyMatch | content.js:124-133 | tier 3: at most one mismatch between the normalised first names and at most one between the normalised last names (see Matching.FuzzyMatchMeaning) |
| Matching.MiddleNameIgnored | content.js:104-125 | with a middle name in the query, the last-name tier compares with the last word, and the fuzzy tier with the first and the last word |
| Matching.SelectMatch | content.js:93-135 | the exact tier wins when any record matches exactly; the last-name tier only when none does; the fuzzy tier only when neither does; in each tier the first matching record is chosen; no match exactly when no tier matches |
| Matching.FuzzyMatchMeaning | content.js:124-134 | a fuzzy match means at most one mismatch between the normalised first names and at most one between the normalised last names |
| Resolver.StripTrailingSemicolon | content.js:77 | `replace(/;\s*$/, "")`; its meaning is Resolver.StripTrailingSemicolonMeaning |
| Resolver.StripTrailingSemicolonMeaning | content.js:77 | a semicolon followed only by white space up to the end is cut off with everything after it; text without one is unchanged |
| Resolver.StripSemicolonAndSpace | content.js:77 | a final semicolon followed by white space is removed together with that white space |
| Resolver.ExtractRelayJson | content.js:69-77 | the relay-store JSON between the two markers, or nothing when a marker is missing (see Resolver.ExtractRelayJsonMissingMarker and Resolver.ExtractRelayJsonRoundTrip) |
| Resolver.ExtractBetween | content.js:72-77 | the cleaned text between the first opening marker and the first closing marker (see Resolver.ExtractBetweenRoundTrip) |
| Resolver.CleanJson | content.js:76-77 | trim, then drop a final semicolon and what follows it (see Resolver.TrimmedJson) |
| Resolver.ExtractRelayJsonMissingMarker | content.js:72-74 | extraction fails exactly when one of the two markers does not occur in the page |
| Resolver.ExtractBetweenRoundTrip | content.js:72-77 | text placed between the two markers, followed by a semicolon and white space, is extracted exactly |
| Resolver.TrimmedJson | content.js:76-77 | trimming and dropping the final semicolon recover the JSON text |
| Resolver.ExtractRelayJsonRoundTrip | content.js:69-77 | a page laid out as the relay-store marker, the JSON, a semicolon and the process marker yields that JSON |
| Resolver.OrNotAvailable | content.js:144 | `x \|\| "N/A"`: the number when it is non-zero, otherwise "N/A", and never undefined |
| Resolver.PercentShown | content.js:145 | a non-negative percentage is rounded up to a whole number; null counts as 0; a negative, undefined or NaN value gives "N/A" |
| Resolver.Summary | content.js:142-148 | the popup shows "First Last"; the rating is `avgRating \|\| "N/A"`, would-take-again is the rounded-up `wouldTakeAgainPercent`, the difficulty is `avgDifficulty \|\| "N/A"`; it links to the professor's page by `legacyId`, and no figure is undefined |
| Resolver.Teachers | content.js:82-88 | only values of the relay store that are teacher records of the school are kept |
| Resolver.Fallback | content.js:152-158 | the query name, no figures, and a search link for the query (see Resolver.FetchFallbackExactly) |
| Resolver.FetchRmpInfo | content.js:55-160 | the result is either the fallback for the query name or a professor page with a non-zero id and all figures defined; which record is shown is stated by Resolver.FetchFallbackExactly |
| Resolver.ResolveAmong | content.js:92-148 | the result is the summary of the record the tiers select (`SelectMatch`), or the fallback exactly when no tier matches; a professor page always has a non-zero id and every figure defined |
| Resolver.FetchFallbackExactly | content.js:60-159 | the search link is returned exactly when the request fails, a marker is missing, the JSON does not parse, or no tier matches; otherwise the result is the summary of the teacher record that `SelectMatch` picks |
| Resolver.FetchPicksFirstExactTeacher | content.js:82-99 | when some teacher record matches the query exactly, the first such record is the one shown |
| ScrollScan.ScrollContainer.SetScrollTop | content.js:346 | assigning `scrollTop` stores the value clamped to the scrollable range |
| ScrollScan.StartYear | content.js:318 | the start of the academic year: the year before for spring, the year itself otherwise (see ScrollScan.SpringTargetsPreviousAutumn) |
| ScrollScan.TargetText | content.js:318-319 | for a non-negative start year, the label is the start year, a dash, and the following year |
| ScrollScan.TargetTextNamesAcademicYear | content.js:318-319 | reading the label back around its dash gives the start year (the previous year for spring) and the year after |
| ScrollScan.TargetTextUnique | content.js:318-319 | two digit strings without leading zeros around a dash that denote the academic year are exactly the label looked for |
| ScrollScan.LabelYearsOf | content.js:319 | a label made of two digit strings around a dash reads back as the two numbers they denote |
| ScrollScan.SpringTargetsPreviousAutumn | content.js:318 | a spring term looks for the same label as the autumn term of the year before |
| ScrollScan.Scan | content.js:331-348 | the scroll loop on values: click the first matching option at the current offset, stop at the end of the list, otherwise scroll on (see ScrollScan.ScanSound) |
| ScrollScan.HasText | content.js:333 | the option test `textContent.includes(targetText)` |
| ScrollScan.ScrollContainer.Options | content.js:332 | the option texts rendered at the container's current scroll offset |
| ScrollScan.ScanSound | content.js:331-348 | the scan clicks the first matching option at the first visited offset that has one; it ends at the maximal offset only when no visited offset renders a match |
| ScrollScan.VisitsAfterStart | content.js:339-346 | each offset after the first is visited from the next offset, which lies further down |
| ScrollScan.VisitsExactly | content.js:339-346 | the visited offsets are the start, every offset a whole number of 200-pixel steps further down, and the end of the list |
| ScrollScan.VisitsAreFurther | content.js:339-346 | every visited offset lies between the start and the end of the list |
| ScrollScan.ScrollAndSelectYear | content.js:313-349 | the loop's outcome is the scan from the initial offset, and the container is left at the offset where it stopped |
| Polling.Settle | content.js:363-368 | only the first settlement of a promise takes effect |
| Polling.Checks | content.js:357-369 | the page is queried the least number of times n >= 1 for which 50·n reaches the timeout |
| Polling.DefaultTimeoutChecks | content.js:355 | the default 5000 ms timeout allows 100 queries |
| Polling.FirstFound | content.js:360-364 | the first query among the first n that finds an element, with every earlier query finding nothing |
| Polling.FirstFoundStable | content.js:361-363 | once an element has been found, later queries do not change which query found it |
| Polling.TimeoutMessage | content.js:368 | the rejection text "Element <selector> not found within <timeout>ms" |
| Polling.WaitOutcome | content.js:355-372 | the settled promise: the first element found before the timeout, else the timeout message (see Polling.WaitOutcomeMeaning) |
| Polling.WaitOutcomeMeaning | content.js:355-372 | the promise resolves exactly when a query before the timeout finds an element, and then with the first one found; otherwise it rejects with the timeout message |
| Polling.WaitForElement | content.js:355-372 | the timer loop settles as described above, runs between 1 and `Checks(timeout)` ticks, and stops right after the first successful query, for a page query that does not throw (see "## Left out") |

## Left out

- The hover handlers and the popup: `mouseenter`/`mouseleave` listeners, `showPopup`, `removePopup`,
  the theme and the hide timer. They are DOM rendering and timing, with no logic beyond calling the
  modelled functions.
- The message exchange with the background page (`chrome.runtime.sendMessage`) and the network
  fetch. The reply is a parameter.
- `JSON.parse` is a parameter. The relay store's object is modelled as the sequence of its values.
  Non-object values and `null` entries are not modelled: reading a field of `null` would throw, and
  the result would be the fallback.
- The automation listener (`RUN_AUTOMATION`) and the clicks it issues before and after
  `scrollAndSelectYear`. They are sequences of `waitForElement` and `click` calls on the page.
- Timers and `sleep`: time is counted in ticks of 50 ms. The scroll loop's 50 ms pause is not
  represented, because the page is a function of the offset only.
- Js.ToLowerCase: lower-cases ASCII letters only. JavaScript's `toLowerCase` also maps non-ASCII
  letters, and that Unicode table is not part of this model.
- `encodeURIComponent` and the literal URLs: links are the datatype `Link` (a professor page by id, or
  a search by query). The URL text is not built.
- The `URIError` that `encodeURIComponent(firstLast)` throws for a name holding a lone surrogate
  (content.js:57). That call sits before the `try` block, so `fetchRMPInfo` rejects instead of
  falling back. A Dafny `char` is a Unicode scalar value, so such a name cannot be written here.
- Matching.CharDiff: strings are sequences of Unicode scalar values, while JavaScript indexes UTF-16
  code units. Lengths, positions and `simpleCharDiff` therefore differ for characters outside the
  Basic Multilingual Plane. For example, `simpleCharDiff("😀a", "xa")` is 2 in JavaScript (the emoji
  is two code units, so "a" is compared with a low surrogate), while CharDiff gives 1.
- Resolver.PercentShown: percentages are exact reals rather than IEEE doubles, so rounding and
  infinities are not modelled.
- `year` in `scrollAndSelectYear` is an integer. The coercion of a string argument by `Number` is
  not modelled.
- A missing scroll container makes `waitForElement` reject, so `scrollAndSelectYear` throws before
  its loop. The model starts from a found container.
- `console` logging is not modelled.
- Polling.WaitForElement: the page query is assumed not to throw. In the code,
  `document.querySelector` throws a `SyntaxError` for an invalid selector (content.js:360). The throw
  happens before `elapsed` grows, and an exception in a `setInterval` callback does not stop the
  timer. So the page is polled every 50 ms forever and the promise never settles. The automation
  listener builds selectors from its message (content.js:290, 303), so a `level` containing `"` is
  enough. The model's bound of 1 to `Checks(timeout)` ticks, and its settlement, hold only for
  selectors the page can evaluate.
