# adacheckey accessibility checker — Dafny model

This project models the analysis core of the adacheckey service (`index.js`).
The service takes submitted HTML and collects the absolute links in it. It loads
each linked page in a headless browser and runs four accessibility rules over
the rendered page:

- images with empty alternative text;
- elements with a `role` but no `aria-label`;
- heading-level jumps;
- form controls with neither a label nor `aria-label`.

It returns one result per URL.

The model covers:

- the element descriptors the checker extracts (`Page`);
- the violation records and the JSON objects reported for them (`Violations`, with `Decimal` for the levels written into heading details);
- the four rule checks as front-to-back walks that push onto a shared list, as the `forEach` loops do (`Rules`);
- `runChecks`, which concatenates the four checks in a fixed order, and the result shaping of `checkURL` (`Checker`);
- the `/check` handler: the "http" filter on candidate hrefs, `slice(0, maxConcurrentChecks)`, and one result per retained URL in order (`Request`).

`Seqs` holds the generic order-preserving scan (`Emit`) and the positions it keeps (`Positions`). Each rule check is proved equal to an instance of `Emit`. The lemmas about `Emit` are then specialised to each rule.

The browser is a parameter. A page is given as a `Snapshot` of descriptor lists. Loading a URL is a function `load: string -> Navigation` that yields either a snapshot or the message of the error thrown.

The heading check flags a heading when `level - previousLevel > 1`, and `previousLevel` starts at 0. The model follows this code exactly. So a first heading at level **2** is already reported as a jump from h0. `Rules.FirstHeadingFromZero` and `Rules.HeadingExamples` state this.

## Model

| member | source | states |
|---|---|---|
| `Rules.CheckImages` | index.js:83-93 | pushing one record per image with empty `alt` onto a list leaves the list followed by the image violations, so earlier entries are untouched |
| `Rules.ImageViolationsExact` | index.js:83-93 | the k-th image violation is `Missing alt text` carrying the `src` of the k-th image whose `alt` is empty; those images' positions increase and are exactly the empty-alt images; the count equals the number of empty-alt images; a violation occurs iff some empty-alt image produces it |
| `Rules.ImagesPassIff` | index.js:83-93 | there is no image violation iff every image has non-empty alternative text |
| `Rules.CheckAria` | index.js:95-104 | the ARIA walk only appends, and what it appends is the ARIA violations |
| `Rules.AriaViolationsExact` | index.js:95-104 | one `Missing ARIA label` carrying the role per element without `aria-label`, in input order; labelled elements give none; the count equals the number of unlabelled elements |
| `Rules.AriaPassIff` | index.js:95-104 | there is no ARIA violation iff every element with a role has `aria-label` |
| `Rules.CheckHeadingsFrom` | index.js:108-116 | from any remembered level, the heading walk appends exactly the jumps among the adjacent pairs of `[remembered] + levels`, because the remembered level becomes every heading's level whether or not it was flagged |
| `Rules.CheckHeadings` | index.js:106-117 | starting from level 0, the walk appends the jumps among adjacent pairs of `[0] + levels` |
| `Rules.HeadingViolationsExact` | index.js:106-117 | heading i is flagged iff its level exceeds the previous heading's level (0 for the first) by more than one; the violation records exactly those two levels, in document order; the count equals the number of such adjacent pairs |
| `Rules.HeadingViolationsAreJumps` | index.js:109-113 | every heading violation goes up by at least two levels, so an equal or lower level is never flagged |
| `Rules.HeadingsStepwiseIff` | index.js:106-117 | there are no heading violations iff every heading is at most one level deeper than the one before it, starting from 0 |
| `Rules.FirstHeadingFromZero` | index.js:107-115 | a first heading at level 2 or deeper is reported first, as a jump from h0; a first heading at level 0 or 1 adds nothing; the walk then continues from that heading's level |
| `Rules.HeadingExamples` | index.js:106-117 | `[1,2,3]` and `[1,2,1,2]` pass; `[1,3]` gives one jump h1→h3; a lone h3 gives h0→h3, and a lone h2 gives h0→h2 |
| `Rules.CheckForms` | index.js:119-128 | the form walk only appends, and what it appends is the form violations |
| `Rules.FormViolationsExact` | index.js:119-128 | a control is flagged iff it has neither an associated label nor `aria-label`; each violation carries its type, in input order; the count equals the number of such controls |
| `Rules.FormsPassIff` | index.js:119-128 | there is no form violation iff every control has an associated label or `aria-label` |
| `Checker.RunChecks` | index.js:38-81 | the page's violations are the image, ARIA, heading and form violations concatenated in that order, and their count is the sum of the four counts |
| `Checker.RunChecksEmptyIff` | index.js:74-80 | a page gives no violation iff every image has alt text, every role element has `aria-label`, headings never jump by more than one, and every form control is labelled |
| `Checker.CheckURL` | index.js:21-36 | the result keeps its URL; a thrown navigation or query error gives the error message, no violations list and `passed` false; a rendered page gives its violations list and no error; `passed` holds iff there is no error and the list is empty, and a result never has both |
| `Checker.CheckURLPassedIff` | index.js:29-32 | a URL passes iff its page loaded and meets all four rules |
| `Request.Slice` | index.js:150 | `slice(0, k)` keeps `min(n, k)` elements, each equal to the element at the same index |
| `Request.HrefsExact` | index.js:143-147 | the kept hrefs are the candidates starting with "http", taken in increasing candidate positions (an order-preserving subsequence), and a candidate is kept iff it starts with "http" |
| `Request.HrefsCount` | index.js:143-147 | the number of kept hrefs is the number of candidates starting with "http" |
| `Request.CheckRequest` | index.js:136-154 | the response has `min(#http hrefs, maxConcurrentChecks)` results; result k is the check of the k-th kept href; every result's URL starts with "http" and every result is consistent |
| `Violations.DecodeRender` | index.js:86-125 | every pushed JSON object (type, element, src, details) reads back as the violation it was made from, so the records lose nothing |
| `Violations.RenderInjective` | index.js:86-125 | distinct violations are written as distinct JSON objects |
| `Decimal.ParseShow` | index.js:112 | the decimal text a template literal writes for a level reads back as that level |

## Left out

- Puppeteer is a foreign library and is not modelled: `launch`, `newPage`, `goto` with `networkidle0` and the timeout, the `$$eval` queries and `page.close` (index.js:17-19, 22-27, 34, 42-72). A page is a given `Snapshot`. Any failure inside the `try` block is a `Threw(message)` outcome. The `finally` that closes the page has no counterpart, because the model holds no page resource.
- The link regex at index.js:139 is not modelled. The handler receives the captured href values as a sequence, in match order.
- `Promise.all` concurrency (index.js:149) is modelled as a sequential map. Only the order of results is observable.
- Express routes, CORS, static files, `/`, `/health`, `app.listen` and the SIGTERM shutdown (index.js:1-14, 160-182) are left out as I/O and process lifecycle.
- A failure of `newPage` (index.js:22) or `page.close` (index.js:34) rejects the whole request with a 500 and no results (index.js:155-157); this is not modelled. `newPage` fails on every request with a URL when `initialize()` (index.js:133) failed and left no browser. Request.CheckRequest describes only requests where neither call fails.
- The configuration files (development.js, production.js) are left out. `maxConcurrentChecks` is a `nat` parameter. A negative or non-numeric value, which `slice` would also accept, is not modelled. `timeoutMs` only affects the browser.
- DOM extraction of descriptor fields is not modelled: `parseInt(el.tagName[1])`, `el.type || el.tagName.toLowerCase()`, `!!el.labels?.length` and `img.alt` (index.js:42-72). Levels are given naturals, and alt text is a string that is empty when absent.
- Request.CheckRequest: `load` maps each URL to a single outcome, so two occurrences of the same URL are assumed to load alike. The service loads each one separately.
