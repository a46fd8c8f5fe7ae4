# ONEBLOCK site scripts: blog listing and site widgets

This project models the decision logic of the two scripts behind the ONEBLOCK
marketing site:

- `assets/js/blog.js` drives the blog listing page. It loads the site's own
  posts, combines them with Naver blog posts and sorts them newest first. It
  filters by category and by a case-insensitive search and cuts the result into
  pages of nine. It then draws the pagination row (previous, page numbers with
  ellipses, next) and one card per post.
- `assets/js/common.js` drives the widgets shared by all pages:
  - the mobile menu opened by the hamburger button;
  - the header styles that follow the scroll position;
  - the contact-form field validator;
  - the testimonial carousel (its index, dots and swipe gestures).

The DOM and the network are replaced by values. A loaded `posts.json` is an
`Option<seq<LocalRecord>>`. A window width, a scroll offset or a touch position
is an `int`. A form control is a `Field` record. Each UI event is a pure
transition on an immutable state record.

The modules, one per file:

- `Options` and `Seqs` (base.dfy): an option type and an order-preserving
  filter `Keep`, which plays the part of `Array.prototype.filter`.
- `JsText` (js_text.dfy): the string primitives the scripts use.
  - `trim`, over the ECMAScript white-space and line-terminator set.
  - `toLowerCase`, on ASCII letters.
  - `includes`.
- `Posts` (posts.dfy): posts, loading `posts.json`, and the newest-first stable
  sort.
- `BlogFilter` (blog_filter.dfy): the category and search filter, and the promise
  it keeps.
- `Pagination` (pagination.dfy): page slices and the pagination row.
- `PostCard` (post_card.dfy): the category label, badge, link target and
  thumbnail of a card.
- `BlogView` (blog_view.dfy): the listing page as a state machine. This covers
  start-up, category clicks, searches, pagination clicks, and the screen each
  state shows.
- `Carousel` (carousel.dfy): the testimonial carousel.
- `FormValidation` (form_validation.dfy): field classification, field marks and
  whole-form validation.
- `SiteChrome` (site_chrome.dfy): the mobile menu flags and the header scroll
  flags.

Each operation is stated against an independent description of what it
promises:

- The filter is `Keep` over the combined newest-first list, with the predicate
  "right category, and the query is a piece of the title or excerpt ignoring
  case".
- Sorting commutes with filtering, and the sort is stable.
- The pages laid end to end give back the filtered list.
- The e-mail and phone checks equal the languages of their regular expressions.
- The pagination row has a button exactly for the first page, the last page and
  the neighbours of the current page.
- Every user action keeps the page number within the filtered list's pages.

## Model

| member | source | states |
|---|---|---|
| JsText.Trim | assets/js/blog.js:233 | trimming gives the empty string exactly for an all-white-space input; otherwise the result neither starts nor ends with white space |
| JsText.TrimIsInfix | assets/js/blog.js:233 | the trimmed string is the input with a white-space-only prefix and suffix removed |
| JsText.TrimIdempotent | assets/js/blog.js:233 | trimming a trimmed string changes nothing |
| JsText.Lower | assets/js/blog.js:218 | lower-casing keeps the length and maps each upper-case ASCII letter to its lower-case letter, leaving other characters alone |
| JsText.Includes | assets/js/blog.js:220-221 | `includes` holds exactly when the pattern occurs at some position of the text |
| JsText.IncludesEmpty | assets/js/blog.js:220 | every text includes the empty string |
| Posts.FromLocal | assets/js/blog.js:79-83 | a `posts.json` record keeps its fields, becomes an original post and links to `posts/` followed by its file name |
| Posts.LoadLocal | assets/js/blog.js:73-88 | a failed load gives no posts; a successful one gives one post per record, in order |
| Posts.LoadedPostsAreOriginal | assets/js/blog.js:79-83 | every loaded post is marked as an original post |
| Posts.Insert | assets/js/blog.js:155 | inserting into a newest-first list adds exactly that post and keeps the list newest first |
| Posts.SortNewestFirst | assets/js/blog.js:155 | the sorted list is a permutation of the input and is newest first |
| Posts.SortIsStable | assets/js/blog.js:155 | posts with the same date keep their relative order (the sort is stable) |
| Posts.KeepSortCommute | assets/js/blog.js:209-226 | filtering then sorting equals sorting then filtering |
| Posts.KeepNewestFirst | assets/js/blog.js:213-226 | filtering a newest-first list leaves it newest first |
| Posts.CombinePosts | assets/js/blog.js:150-158 | the combined list is a permutation of local plus Naver posts and is newest first |
| BlogFilter.PassesIffSelected | assets/js/blog.js:211-223 | the filter's test holds exactly when the post has the category (or the category is "all") and the query is empty or, ignoring case, a piece of the title or of a present excerpt |
| BlogFilter.Narrow | assets/js/blog.js:209-223 | the category stage followed by the search stage keeps, in order, exactly the posts passing both tests |
| BlogFilter.FilterPosts | assets/js/blog.js:208-229 | the result is newest first; it holds every selected post of the combined lists as often as they do and nothing else; with a category other than "all" every post has that category; with "all" and an empty query it is a permutation of both lists |
| BlogFilter.FilterIsKeepOfCombined | assets/js/blog.js:208-229 | the filtered list is the newest-first combined list with the unselected posts removed |
| BlogFilter.FilterIgnoresQueryCase | assets/js/blog.js:217-222 | queries that agree after lower-casing give the same list |
| Pagination.PageCount | assets/js/blog.js:303 | the page count is the fewest pages of nine that hold all posts |
| Pagination.PageSlice | assets/js/blog.js:248-250 | page `p` shows at most nine posts, namely positions `(p-1)*9` up to `p*9` cut off at the list's end; page 0 shows none |
| Pagination.PageSliceNonEmpty | assets/js/blog.js:248-252 | a page from 1 on shows something exactly when it is at most the page count |
| Pagination.PagesCoverList | assets/js/blog.js:248-250 | the pages laid end to end give back the whole list |
| Pagination.PageItems | assets/js/blog.js:322-333 | the numbered part of the row holds only buttons and ellipses, in strictly increasing page order, within the page range |
| Pagination.Controls | assets/js/blog.js:303-308 | there is no pagination row exactly when there is at most one page |
| Pagination.ControlsContents | assets/js/blog.js:303-342 | prev comes first and is disabled exactly on page 1; next comes last and is disabled exactly on the last page; page `j` has a button exactly when it is the first, the last or next to the current page; an ellipsis stands exactly two pages away where there is no button; only the current page's button is active |
| Pagination.TargetsInRange | assets/js/blog.js:347-350 | from a valid page every enabled control leads to a valid page |
| Pagination.ControlsAtMostNine | assets/js/blog.js:310-342 | the row never holds more than nine controls |
| Pagination.TwoPageRows | assets/js/blog.js:303-342 | the rows drawn for ten posts on page 1 and on page 2 |
| PostCard.CategoryLabel | assets/js/blog.js:271 | the label is the display name for a known key and the key itself otherwise |
| PostCard.CreateCard | assets/js/blog.js:270-297 | a card opens a new tab exactly for a Naver post, which is also exactly when it carries the Naver badge; the badge and its label follow the post's source; it links to the post's url; it shows a thumbnail exactly when the post has a non-empty one; an absent excerpt shows as empty text |
| BlogView.InitBlog | assets/js/blog.js:44-67 | start-up loads the local posts, shows them all newest first on page 1 with no filter, and is consistent |
| BlogView.Refilter | assets/js/blog.js:208-229 | a filter change keeps the loaded lists, recomputes the filtered list from them for the new category and query, goes to page 1 and is consistent |
| BlogView.SelectCategory | assets/js/blog.js:168-177 | a category click sets the category, keeps the query, goes to page 1 and refilters from the full lists |
| BlogView.Search | assets/js/blog.js:231-238 | a search sets the query to the trimmed box content (empty without a box), keeps the category, goes to page 1 and refilters |
| BlogView.PressControl | assets/js/blog.js:347-350 | an enabled control sets the page to its target; a disabled button or an ellipsis changes nothing |
| BlogView.FilterIgnoresPreviousList | assets/js/blog.js:208-229 | the new state after a filter change does not depend on the previous filtered list or page |
| BlogView.RepeatedFilterIsIdempotent | assets/js/blog.js:168-238 | repeating a category click or a search with the same input changes nothing |
| BlogView.Render | assets/js/blog.js:244-268 | the empty state shows exactly when the page slice is empty; otherwise one card per post of the slice, one to nine of them, with the pagination row |
| BlogView.Step | assets/js/blog.js:164-350 | no action touches the loaded lists; a category click or a search goes to page 1 with a list refiltered from the full lists, changing only its own half of the filter; a search sets the query to the trimmed box content (empty without a box); a pressed control sets the page to its target when enabled, leaves it otherwise, and keeps the filtered list and the filter |
| BlogView.PressGoesToTarget | assets/js/blog.js:347-350 | pressing an enabled control changes the page number to its target and nothing else |
| BlogView.StepKeepsConsistent | assets/js/blog.js:164-350 | every action the screen offers keeps the filtered list derived from the full lists and the page within its pages |
| BlogView.ConsistentRender | assets/js/blog.js:252-266 | in a consistent state the empty state shows exactly when no post passes the filter, and the pagination row is empty exactly when nine posts or fewer pass |
| BlogView.FailedLoadShowsEmptyState | assets/js/blog.js:84-87 | a failed load of `posts.json` ends in the empty state |
| BlogView.TenPostsFirstPage | assets/js/blog.js:244-342 | ten posts: page 1 shows nine cards with the row prev (disabled), 1 (active), 2, next |
| BlogView.TenPostsSecondPage | assets/js/blog.js:244-350 | ten posts: pressing next shows one card with the row prev, 1, 2 (active), next (disabled) |
| Carousel.SlidesToShow | assets/js/common.js:499-503 | one slide below 768 pixels, three from 1024 on, two in between |
| Carousel.SlidesToShowMonotone | assets/js/common.js:499-503 | a wider window never shows fewer slides |
| Carousel.ClampIndex | assets/js/common.js:525-526 | the index is clamped to `[0, slides - k]`, and is 0 when fewer than `k` slides exist |
| Carousel.Init | assets/js/common.js:492-495 | a carousel with slides holds the slide count and the slides shown for the window width, and starts well formed at index 0 |
| Carousel.GoToSlide | assets/js/common.js:524-526 | going to a slide sets the clamped index and keeps the carousel well formed |
| Carousel.PrevSlide | assets/js/common.js:550-552 | previous keeps the slides and the slides shown, moves back one screenful, lands on 0 from any index below `k`, and never moves forward |
| Carousel.NextSlide | assets/js/common.js:554-560 | next keeps the slides and the slides shown, wraps to 0 from the last full screen and otherwise moves strictly forward, by one screenful or to the last full screen |
| Carousel.DotCount | assets/js/common.js:510 | the dot count is the fewest screenfuls that hold all slides |
| Carousel.ActiveDot | assets/js/common.js:542 | the script's active dot is the screenful (index divided by `k`, rounded down) that holds the index |
| Carousel.ActiveDotExists | assets/js/common.js:538-546 | the script's active dot is always an existing dot |
| Carousel.ClickedDotNotActive | assets/js/common.js:516-517 | four slides shown three at a time: clicking the second dot marks the first one active |
| Carousel.ActiveDotCorrected | assets/js/common.js:542 | the corrected active dot is always an existing dot |
| Carousel.DotClickActivatesDot | assets/js/common.js:516-517 | with the corrected rule, clicking any dot makes it the active one |
| Carousel.CorrectionAgreesOnWholeScreens | assets/js/common.js:542 | when the slides fill whole screens the corrected and the original rule agree |
| Carousel.DotRow | assets/js/common.js:538-547 | one flag per dot, lit exactly for the dot numbered by the index divided by `k`, rounded down; exactly one dot is lit |
| Carousel.DotRowCorrected | assets/js/common.js:538-547 | the dot row under the corrected rule: one flag per dot, lit exactly for the corrected active dot |
| Carousel.DotRowsDiffer | assets/js/common.js:516-517 | four slides three at a time, second dot clicked: the script's row lights the first dot, the corrected row the clicked one |
| Carousel.DotRowsAgreeOnWholeScreens | assets/js/common.js:538-547 | when the slides fill whole screens the two rows are the same |
| Carousel.HandleSwipe | assets/js/common.js:593-602 | a leftward move of more than 50 pixels goes next, a rightward one goes previous, anything else does nothing |
| Carousel.SwipeMirror | assets/js/common.js:593-602 | reversing a gesture swaps next and previous |
| Carousel.Resize | assets/js/common.js:606-616 | a resize that changes the slides shown resets the index to 0; any other resize changes nothing |
| Carousel.Step | assets/js/common.js:506-616 | one event keeps the slides; only a resize changes the slides shown, and it acts as the resize handler; the arrow buttons go to the previous and next screen; a dot click goes to the clamped first slide of that dot; the autoplay tick is "next"; a swipe of 50 pixels or less does nothing, a longer one goes next or previous by direction |
| Carousel.StepKeepsWf | assets/js/common.js:524-616 | every carousel event keeps the index inside the slides |
| FormValidation.IsEmail | assets/js/common.js:311-312 | the e-mail check accepts exactly the language of its pattern: non-empty local part, '@', non-empty domain, '.', non-empty ending, none of them holding white space or '@' |
| FormValidation.StripDashes | assets/js/common.js:320 | removing dashes leaves no dash and keeps every other character, as often as before |
| FormValidation.StripDashesKeepsOrder | assets/js/common.js:320 | removing dashes works piecewise over any split of the value, keeps a single non-dash character and drops a single dash, so the order of the remaining characters is kept |
| FormValidation.PhonePatternWithoutDashes | assets/js/common.js:319-320 | on a dash-free value the phone pattern accepts exactly nine to eleven ASCII digits |
| FormValidation.IsPhone | assets/js/common.js:318-320 | a phone value is valid exactly when it is nine to eleven digits once its dashes are removed |
| FormValidation.IsPlaceUrl | assets/js/common.js:327-328 | an accepted place URL holds no space |
| FormValidation.SchemeIsOptional | assets/js/common.js:327 | an address without ':' is judged the same with or without an `http://` or `https://` prefix |
| FormValidation.ValidateField | assets/js/common.js:297-332 | the trimmed value is checked in priority order (required, then e-mail, then phone, then place URL), only the first rule that applies counts, and a blank optional field is always valid |
| FormValidation.MarkField | assets/js/common.js:338-351 | a failure marks the field as an error and not valid; a pass clears the error mark and adds the valid mark only for a non-blank value |
| FormValidation.MarkFieldIdempotent | assets/js/common.js:338-351 | validating a field twice leaves the same marks as validating it once |
| FormValidation.OnInput | assets/js/common.js:274-278 | typing re-validates a field only while it is marked as an error; then the error mark follows the verdict, and the valid mark is set exactly on a pass with a value or an earlier valid mark |
| FormValidation.OnBlur | assets/js/common.js:270-272 | leaving a field marks it as an error exactly when it fails, and as valid exactly when it passes with a value or was valid before |
| FormValidation.ClearedOptionalFieldStaysValid | assets/js/common.js:345-347 | an optional field that was marked valid keeps that mark after being emptied |
| FormValidation.CheckRequired | assets/js/common.js:284-295 | every required field is checked, in order, with no stop at a failure, and the result is true exactly when all required fields pass |
| FormValidation.ValidateForm | assets/js/common.js:284-295 | the form is valid exactly when every required field validates; the verdicts are those of all required fields |
| SiteChrome.Toggle | assets/js/common.js:48-52 | the hamburger click flips each of the three flags |
| SiteChrome.MenuStep | assets/js/common.js:48-79 | a hamburger click toggles; a menu link, a click outside button and menu, or Escape closes; any other event changes nothing |
| SiteChrome.MenuStepKeepsSync | assets/js/common.js:48-79 | from agreeing flags every event leaves them agreeing, and the menu is open afterwards exactly when the event toggled a closed menu or left an open one alone |
| SiteChrome.MenuRunKeepsSync | assets/js/common.js:48-79 | flags that agree keep agreeing over any run of events |
| SiteChrome.ToggleTwice | assets/js/common.js:48-52 | two hamburger clicks restore every flag |
| SiteChrome.CloseTwice | assets/js/common.js:55-79 | after a closing event any further non-hamburger event leaves the menu closed |
| SiteChrome.EndsClosed | assets/js/common.js:55-79 | any run of events that ends with a closing event leaves the menu closed |
| SiteChrome.HandleScroll | assets/js/common.js:93-111 | the header is styled as scrolled exactly past 100 pixels and hidden exactly when the page moved down and is past 300 pixels; the position is remembered |
| SiteChrome.HiddenIsScrolled | assets/js/common.js:97-108 | a hidden header is always in the scrolled style, and scrolling up or staying put never hides it |
| SiteChrome.ScrollRunLast | assets/js/common.js:93-111 | after a run of scroll events the flags depend only on the last two positions |
| SiteChrome.StartupScroll | assets/js/common.js:86-126 | the start-up check from the initial header (position 0) styles the header exactly past 100 pixels and hides it exactly past 300; later events run on from there and never hide it without the scrolled style |
| SiteChrome.ScrollRunHiddenIsScrolled | assets/js/common.js:93-111 | over any run of scroll events a hidden header stays in the scrolled style |

## Left out

- Network and foreign APIs are not modelled: `fetch` of `posts.json`, the Naver
  RSS relay and `DOMParser` (`loadNaverPosts`, which the start-up code does not
  call), and form submission (Formspree POST and the simulated submit). A loaded
  list is an input; the Naver list is an input that start-up leaves empty.
- Dates: `new Date`, `toISOString` and `formatDate` depend on the host time zone
  and calendar. A post's date is an integer key (larger is newer). Posts with
  unparseable dates, which the sort comparator turns into `NaN`, are not
  modelled.
- JsText.Lower: lower-cases ASCII letters only, not all of Unicode's
  `toLowerCase` mappings.
- Timers: the 300 ms search debounce, the 250 ms resize debounce, the 5 s
  autoplay interval (an autoplay tick is modelled as "next"), the
  `requestAnimationFrame` throttle and the general debounce/throttle helpers.
  Each timed handler is modelled as the step it finally runs.
- IntersectionObserver, smooth scrolling, the carousel's pixel offset
  (`translateX`), `animateCounter` (floating point), the FAQ accordion, the
  Kakao floating button, the current-year footer and the loading spinner.
- Card HTML: card templating, escaping and the date text are not modelled; a
  `Card` records only the decisions the template encodes.
- The active class on category buttons is not modelled.
- Missing `data-category`: a category button without it would set the category
  to `undefined`; categories are modelled as strings only.
- JavaScript object key lookup: `CONFIG.categories[key]` also finds inherited
  keys such as `constructor`; the model uses a finite map of the five keys.
- Scroll positions and touch coordinates are integers; fractional
  `pageYOffset` and `screenX` values are not modelled.
- FormValidation.IsPlaceUrl: transcribes the place-URL pattern as a structural
  check (optional scheme, dotted host of `[\w-]` labels up to the first '/',
  path of URL characters). Its contract states only that accepted values hold
  no space; equivalence with the regular expression is not proved.
- Text encoding: JavaScript strings are sequences of UTF-16 code units, while a
  Dafny `string` holds Unicode scalar values, so text containing a lone
  surrogate cannot be represented. Trimming, `includes` and the field patterns
  behave alike on well-formed text.
- `showError` (assets/js/blog.js:63-66, 395-406): the error message that start-up
  shows when its body throws is not modelled. A failed load already ends in an
  empty list, and nothing else in the modelled start-up can fail.
- FormValidation.CheckRequired: the DOM query for `[required]` is modelled as
  the fields whose `required` flag is set.

## Findings

| source | as written | input that shows it | evidently intended | confidence | as-written member | corrected member |
|---|---|---|---|---|---|---|
| assets/js/common.js:542 | the active dot is `Math.floor(currentIndex / slidesToShow)`, but a dot click asks for `i * slidesToShow`, which `goToSlide` clamps to `slides - slidesToShow` | 4 slides, 3 shown: clicking the second dot moves to index 1, and dot `floor(1/3) = 0` is marked; the second dot can never become active | the clicked dot becomes the active one, i.e. the last dot is active when the carousel sits at its last full screen | medium, not executed | Carousel.ClickedDotNotActive | Carousel.DotClickActivatesDot |

The script's own rule stays in `Carousel.ActiveDot` and `Carousel.DotRow`;
`Carousel.DotRowCorrected` lights the dot under the corrected rule, and
`Carousel.DotRowsDiffer` shows the two rows apart on the input above.
