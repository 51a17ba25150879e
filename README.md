# Fragment loader of the Classic Brand site script, in Dafny

The site's script (`assets/js/main.js`, the coherent version at lines 1-175)
fills two placeholders, `site-header` and `site-footer`, with shared HTML
fragments. For each it builds five candidate URLs from the fragment's file name
and a deployment root guessed from the page's pathname, fetches them one after
the other, and injects the first non-empty body it gets. When every candidate
fails it injects inline fallback markup for those two ids only. A click
handler flips the `hidden` class of the mobile menu.

The model has five modules:

- `Paths` (paths.dfy): `split('/')`, `filter(Boolean)` and `getBasePath`, with
  the pathname as a parameter instead of a read of `location`.
- `Candidates` (candidates.dfy): `candidatesFor`, with the deployment root as a
  parameter.
- `Urls` (urls.dfy): how `fetch` turns a candidate string into the path it
  requests: a candidate that does not start with `/` is resolved against the
  directory of the page, and `.` segments are dropped.
- `Fetch` (fetch.dfy): `tryFetch` against a network oracle (a total function
  from request path to a rejected fetch or a response with status and body),
  the JavaScript truthiness test `if(html)`, and `FirstBody`, the first truthy
  body in candidate order.
- `Script` (script.dfy): the page as a map from element id to element
  (markup and class set; an absent id is a `null` from `getElementById`), the
  fallbacks, and class `Page`, whose `LoadFragment` keeps the source's loop
  with its early return (in `LoadFrom`, which takes the candidate list) and
  whose `MenuClick` is the mobile-menu handler.

Facts about the code that the model makes explicit:

- The candidate list is not duplicate-free. As strings, the third candidate
  equals the fifth exactly when the deployment root is `/`
  (`Candidates.CandidateDuplicates`). As requests, the first and second
  candidates always ask for the same path, and so do the third and fourth,
  because `fetch` drops the `./` segment (`Urls.CandidateRequests`). The
  loader therefore asks for at most three distinct paths, and, for a server
  that answers a path the same way every time, the second and fourth
  candidates can never be the first hit (`Script.DotCandidatesNeverFirst`).
  With `cache: 'no-store'` a second identical fetch may still succeed after
  the first failed, which this model does not capture.
- The menu handler is a single delegated `click` listener on `window`
  (`assets/js/main.js:151`), so markup injected later needs no
  re-registration.
- The comment at `assets/js/main.js:46` says a root-level `/index.html` still
  gives `/`. The code gives `/index.html/` (`Paths.RootPageTakenAsRoot`). The
  model keeps the code's heuristic. The root-relative fifth candidate still
  covers that deployment.

## Model

| member | source | states |
|---|---|---|
| `Paths.Split` | assets/js/main.js:44 | `split('/')` yields one more piece than the string has separators, and no piece contains a separator |
| `Paths.JoinSplit` | assets/js/main.js:44 | joining the pieces of a split with the separator gives back the pathname (nothing is lost by splitting) |
| `Paths.NonEmpty` | assets/js/main.js:44 | `filter(Boolean)` keeps every non-empty piece and only non-empty pieces of the input, and never grows the list |
| `Paths.NonEmptySingleton` | assets/js/main.js:44 | `filter(Boolean)` on one piece keeps it exactly when it is non-empty |
| `Paths.NonEmptyAppend` | assets/js/main.js:44 | `filter(Boolean)` distributes over concatenation, so it keeps the order and the repeats of the non-empty pieces |
| `Paths.Segments` | assets/js/main.js:44 | every segment of a pathname is non-empty and free of `/` |
| `Paths.GetBasePath` | assets/js/main.js:41-49 | the deployment root is non-empty and starts and ends with `/` |
| `Paths.SegmentsEmptyIff` | assets/js/main.js:44-45 | a pathname has no segment exactly when it consists only of slashes |
| `Paths.BasePathRootIff` | assets/js/main.js:43-45 | the root is `/` exactly for all-slash pathnames (`""`, `/`, `//`), both directions |
| `Paths.BasePathFirstSegment` | assets/js/main.js:44-48 | after the leading slashes, the first maximal run of non-slash characters is the first segment, and the root is `/` + that run + `/` |
| `Paths.BasePathShape` | assets/js/main.js:45-48 | the root holds exactly one `/` when it is `/` and exactly two otherwise; a non-`/` root is at least three characters |
| `Paths.RootPageTakenAsRoot` | assets/js/main.js:46-48 | a root-level page `/p` (such as `/index.html`) gives the root `/p/`, not the `/` that the comment announces |
| `Candidates.CandidatesFor` | assets/js/main.js:72-80 | exactly five candidates; each ends with `components/` + name; the first two are document-relative; the last three start at the site root when the deployment root does |
| `Candidates.CandidateDuplicates` | assets/js/main.js:74-80 | for a root starting with `/`, two candidates are equal exactly when they are the third and fifth and the root is `/` |
| `Candidates.CandidateDuplicatesForPath` | assets/js/main.js:50-80 | with the root derived from a pathname, the only duplicate is third = fifth, exactly for all-slash pathnames |
| `Urls.UpToLastSlash` | assets/js/main.js:57 | the directory part of a pathname is a prefix of it that ends with `/` (or is empty), and no `/` follows it in the pathname |
| `Urls.DocDir` | assets/js/main.js:57 | the directory against which `fetch` resolves a relative candidate is non-empty and ends with `/` |
| `Urls.DropDotSegments` | assets/js/main.js:57 | dropping `.` segments keeps exactly the pieces that are not `.`, and no `.` piece remains |
| `Urls.DropDotSegmentsAppend` | assets/js/main.js:57 | dropping `.` segments distributes over concatenation, so the other pieces keep their order |
| `Urls.SplitAppend` | assets/js/main.js:57 | splitting `a + "/" + b` gives the pieces of `a` followed by the pieces of `b` |
| `Urls.SplitOneChar` | assets/js/main.js:57 | a one-character string other than `/` is a single piece |
| `Urls.ResolveRootedPlain` | assets/js/main.js:57 | `fetch` requests a candidate that starts with `/` and has no `.` segment exactly as written |
| `Urls.ResolveRelativePlain` | assets/js/main.js:57 | `fetch` requests a candidate that does not start with `/` under the page's directory, exactly as directory + candidate when that has no `.` segment |
| `Urls.DropDotSegmentsNone` | assets/js/main.js:57 | a list of pieces without a `.` piece is left unchanged |
| `Urls.DotSegmentDropped` | assets/js/main.js:74-78 | a `./` right after a directory does not change the requested path |
| `Urls.CandidateRequests` | assets/js/main.js:57-80 | the first and second candidates are one request, the third and fourth are one request, and for the root `/` the third and fifth are one request |
| `Fetch.OkStatus` | assets/js/main.js:58 | `r.ok` holds exactly for a status whose hundreds digit is 2 (200-299) |
| `Fetch.TryFetch` | assets/js/main.js:54-69 | the probe gives a body exactly for a response with a 2xx status, and that body is the response's; a rejected fetch or another status gives null |
| `Fetch.Truthy` | assets/js/main.js:87 | `if(html)` passes exactly for a string other than null and `""` |
| `Fetch.ProbeFails` | assets/js/main.js:58-68 | a candidate fails exactly on a rejected fetch, a non-ok status, or an ok response with an empty body |
| `Fetch.FirstBody` | assets/js/main.js:85-96 | a selected body is non-empty and is the probe result of one of the candidates |
| `Fetch.FirstBodyAt` | assets/js/main.js:85-96 | when candidate k is truthy and all earlier ones are not, the selected body is candidate k's |
| `Fetch.FirstBodyHasHit` | assets/js/main.js:85-96 | a selected body always comes from a first hit: a truthy candidate with no truthy candidate before it |
| `Fetch.FirstBodyNoneIff` | assets/js/main.js:85-99 | nothing is selected exactly when every candidate fails |
| `Fetch.LaterCandidatesIrrelevant` | assets/js/main.js:85-96 | first success wins: changing the network's answers for candidates after the first hit does not change the selection |
| `Script.FallbackFor` | assets/js/main.js:100-140 | a fallback exists exactly for `site-header` and `site-footer`, and it is that container's own fallback |
| `Script.Inject` | assets/js/main.js:88-90 | `innerHTML` assignment replaces the markup of the existing container only and changes no other element |
| `Script.AfterLoad` | assets/js/main.js:87-141 | after a load: same element ids, other elements untouched, class lists kept; the container holds the selected body, else its fallback; for other ids or a missing container nothing changes |
| `Script.LoadsCommute` | assets/js/main.js:145-148 | the header and footer loads touch disjoint containers, so either order of completion gives the same page |
| `Script.DotCandidatesNeverFirst` | assets/js/main.js:72-96 | the second and fourth candidates are never the first hit, since each repeats the request just before it |
| `Script.HeaderScenario` | assets/js/main.js:83-96 | 404 for the requests of the first four candidates, 200 with `<h1>Hi</h1>` for the fifth: the fifth is selected and the header holds `<h1>Hi</h1>` |
| `Script.FooterScenario` | assets/js/main.js:98-141 | every request path 404: nothing is selected and the footer holds exactly the footer fallback |
| `Script.Toggled` | assets/js/main.js:155 | `classList.toggle` flips membership of the token and keeps every other class |
| `Script.ToggleInvolution` | assets/js/main.js:155 | toggling twice restores the class set |
| `Script.ToggleParity` | assets/js/main.js:151-157 | after n toggles the class set is the original for even n and toggled once for odd n; `hidden` is present exactly when its initial presence differs from n being odd |
| `Script.Page.constructor` | assets/js/main.js:41-50 | the page keeps its pathname, and the deployment root is computed once from it at start-up |
| `Script.Page.LoadFragment` | assets/js/main.js:83-142 | over the five candidates for the name, each fetched at the path it resolves to from the page: returns true exactly when some candidate is truthy; the page becomes `AfterLoad` of the first truthy body; the URLs fetched are a prefix of the candidates in order, ending at the first hit, or all of them on failure |
| `Script.Page.LoadFrom` | assets/js/main.js:85-141 | the same for any candidate list: the loop fetches in list order, stops at the first truthy body and injects it, else injects the fallback |
| `Script.Page.MenuClick` | assets/js/main.js:151-157 | a click inside the toggle flips `hidden` on the menu if it exists; otherwise the page is unchanged |

## Left out

- The on-page debug panel and `log`/`console` output (lines 5-38 and the `log` calls): the script adds a `frag-debug-panel` element to `document.body` and appends a line to it on every `log` call, including right after an injection; the element map leaves that panel out, so "other elements are unchanged" covers only the modelled elements.
- Real `fetch`, `async`/`await` and the `cache: 'no-store'` option: the network is an oracle from URL to reply, and a failure of `r.text()` counts as a rejected fetch.
- Fetch.TryFetch: the oracle answers a request path the same way every time; a server whose answer changes between two probes of the same path (first and second candidate, third and fourth) is not modelled.
- Urls.Resolve: only the document's directory and `.` segments are resolved; `..` segments, a query, a fragment, percent-encoding, a trailing `/.` (kept as a directory by browsers) and the origin are not modelled, and the pathname is taken as given. The candidates contain none of these apart from what the fragment name brings.
- The page does not change while a load awaits its fetches: `getElementById` is read after the probes in the source, and the model reads the element map at the same point.
- Year stamping with `new Date().getFullYear()` (lines 137-138 and 171-174): depends on the wall clock and writes only text.
- Script.Inject: the page is a flat map from id to element, with no nesting; assigning `innerHTML` neither removes the ids nested in the old markup nor adds the ids of the new markup (such as `mobile-menu` and `mobile-menu-toggle` in the header fragment).
- Script.AfterLoad: for the same reason the footer fallback's nested `year-alt` element (lines 134 and 137) and the menu elements that the header fragment brings are not added to the page; `MenuClick` finds the menu only when the given map holds it.
- The inline fallback markup itself (lines 103-117 and 122-136): kept as two opaque constants.
- Smooth scrolling (lines 159-169): `querySelector`, `scrollIntoView` and `preventDefault` are browser calls; when the `href` is a valid selector that matches nothing, the source does nothing but `preventDefault` (a bare `#` makes `querySelector` throw after `preventDefault`).
- Event-listener registration (`DOMContentLoaded`, `click`, `load`) and the concurrent start of the two loads (lines 145-148), apart from `Script.LoadsCommute`.
- `e.target.closest('#mobile-menu-toggle')` is a boolean parameter of `MenuClick` (whether the click is inside the toggle control).
- `classList` is a set of class names; the order of classes in the token list is not modelled.
- Lines 176-268 of the file: leftovers of other revisions after the script's closing line 175, not part of the coherent script.
