# Build tracker step gate, in Dafny

This project models the step-gate engine of the "AI Resume Builder — Build
Track" page (`script.js`). The page walks a user through eight tutorial steps.
Each step can hold one artifact (a screenshot upload or a "worked"/"error"
feedback click). A step is unlocked only when the step before it has an
artifact. The page shows a project status (Not Started / In Progress /
Shipped). It also refuses, and redirects away from, any step that is still
locked.

Modules:

- `Options` (urls.dfy): `Option`, which stands in for JavaScript's `null`/`undefined`.
- `Urls` (urls.dfy): `String.prototype.trim`, written out over ECMAScript's whitespace
  set, and `isValidUrl`. The browser's `URL` parser is a parameter (`UrlParser`): a
  total function that gives the parsed protocol, or `None` where the constructor throws.
- `Gate` (gate.dfy): artifacts, proof links, the unlock rule (`IsStepUnlocked`:
  step 1, or any step whose predecessor has an artifact), the highest unlocked
  step, the completed count and the project status, with their lemmas. It also
  has the `IsPrefix` invariant: the recorded steps are 1..c, which holds for
  every store that is changed only by saves on unlocked steps.
- `Routes` (routes.dfy): the step table, the hash router, the decisions of
  `render` (`Dispatch`), the gate on navigation-bar clicks, the
  Previous/Next/Go to Proof buttons, and the completed/pending split of the
  final submission.
- `Tracker` (tracker.dfy): class `BuildTracker`. Its two fields stand for the
  local-storage entries. Its methods are the loops `getCompletedCount` and
  `getHighestUnlockedStep`, `getProjectStatus`, `render`, and the handlers that
  write artifacts and proof links. Each method is proved against the
  specification functions in `Gate` and `Routes`.

Local storage is a map from step number to artifact. A missing, empty or
unparsable entry makes `getArtifact` return `null`, and the model shows all
three as an absent key. The code tests for `null` in `isStepUnlocked`
(`!== null`) and uses truthiness in `getCompletedCount`. The two agree on every
artifact the page writes, and the model uses presence for both. The clock
(`Date.now()`) and the chosen file are method parameters.

## Model
| member | source | states |
|---|---|---|
| Urls.TrimStart | script.js:68-69 | the result is a suffix of the input; the part removed is all whitespace; the result does not start with whitespace |
| Urls.TrimEnd | script.js:68-69 | the result is a prefix of the input; the part removed is all whitespace; the result does not end with whitespace |
| Urls.Trim | script.js:68-69 | `trim()` is a contiguous piece of the input whose removed ends are all whitespace, and it has no whitespace at either end |
| Urls.TrimEmptyIffBlank | script.js:68 | `s.trim()` is empty exactly when `s` is empty or only whitespace |
| Urls.TrimIdempotent | script.js:69 | trimming twice gives the same as trimming once |
| Urls.IsValidUrl | script.js:67-71 | a valid URL is present, not blank, and its trimmed text parses to protocol `http:` or `https:`; a parser failure gives false (never an exception) |
| Urls.BlankUrlIsInvalid | script.js:68 | absent, empty and whitespace-only inputs are invalid for every parser |
| Urls.WebUrlIsValid | script.js:69 | a non-blank string whose trimmed text parses to http/https is valid (the converse of IsValidUrl's contract) |
| Urls.ValidityIgnoresSurroundingSpace | script.js:399-407 | the trimmed value saved as a proof link and the raw value in the input field get the same verdict |
| Gate.HighestUnlockedAtMost | script.js:79-84 | the downward scan from i returns an unlocked step in 1..i with no unlocked step above it up to i |
| Gate.HighestUnlocked | script.js:79-84 | `getHighestUnlockedStep` is in 1..8, is unlocked, and no step above it is unlocked |
| Gate.IsStepUnlocked | script.js:74-77 | step 1 is always unlocked; any other step n is unlocked exactly when step n-1 has an artifact (the rule itself; its consequences are in SaveIsMonotone, PrefixHighestUnlocked and LockedStepRedirects) |
| Gate.CountUpTo | script.js:86-92 | the number of recorded steps among 1..n is at most n |
| Gate.CompletedCount | script.js:86-92 | `getCompletedCount` is between 0 and 8 |
| Gate.CountUpToIsCardinality | script.js:86-92 | the running count equals the size of the set of recorded steps in 1..n |
| Gate.CompletedCountIsCardinality | script.js:86-92 | `getCompletedCount` is the number of steps 1..8 that have an artifact |
| Gate.CountUpToZero | script.js:86-92 | the count is 0 exactly when no step in 1..n is recorded |
| Gate.CountUpToFull | script.js:86-92 | the count is n exactly when every step in 1..n is recorded |
| Gate.CountUpToAfterSave | script.js:51-53 | writing slot k adds one to the count exactly when k is in range and was empty |
| Gate.StatusLabel | script.js:96-99 | the badge text of each status: "Not Started", "In Progress", "Shipped" |
| Gate.LinksValid | script.js:98 | all three proof links (lovable, github, deploy) pass `isValidUrl` |
| Gate.ProjectStatus | script.js:94-100 | Not Started exactly when the count is 0; Shipped exactly when the count is 8 and all three links are valid; In Progress otherwise |
| Gate.StatusClassification | script.js:94-100 | Not Started iff no step is recorded; Shipped iff all eight are recorded and all three links are valid; In Progress otherwise |
| Gate.SevenStepsAreNotShipped | script.js:94-100 | steps 1-7 recorded and step 8 missing give In Progress, whatever the links |
| Gate.SaveIsMonotone | script.js:51-53 | a save keeps every unlocked step unlocked, unlocks step k+1, never lowers the count or the highest unlocked step |
| Gate.GatedSaveKeepsPrefix | script.js:354-358 | the empty store is a prefix, and a save on an unlocked step keeps the recorded steps a prefix 1..c |
| Gate.PrefixCountUpTo | script.js:86-92 | in a prefix store the recorded steps among 1..n are exactly 1..count |
| Gate.PrefixIsCount | script.js:74-92 | in a prefix store step n is recorded iff n is at most the completed count |
| Gate.PrefixHighestUnlocked | script.js:79-84 | in a prefix store the highest unlocked step is count+1 (8 when all are done) and every step up to it is unlocked |
| Routes.StepTable | script.js:5-29 | the table lists steps numbered 1..8 in order, under distinct keys and distinct titles |
| Routes.FindStep | script.js:113-115 | `find` returns the first listed step whose route is the given one, or none when no step's route matches |
| Routes.StepFromRoute | script.js:113-115 | `getStepFromRoute` returns a step of the table whose route is the given one, or nothing when no step's route matches |
| Routes.StepRouteRoundTrip | script.js:113-115 | the route of step i leads back to step i |
| Routes.CurrentRoute | script.js:103-107 | the route is a suffix of the hash: the hash minus its first character and, when the next one is `/`, that slash too (one or two characters removed, the second only when it is `/`) |
| Routes.NavigationHash | script.js:103-111 | the route `navigateTo` writes into the hash is read back unchanged by `getCurrentRoute` |
| Routes.Dispatch | script.js:343-382 | `render` sends the empty route, `rb` and unknown routes to step 1 with no notice; shows a step page only for an unlocked step whose route was asked for; shows the proof page only for its route; a gate redirect targets the highest unlocked step |
| Routes.LockedNotice | script.js:356 | the toast for locked step n reads "Complete Step n-1 first" (the same text as at script.js:161) |
| Routes.LockedStepRedirects | script.js:354-358 | a locked step is never step 1; it redirects to `STEPS[highest-1]` with "Complete Step n-1 first", the same notice the navigation bar shows; in a prefix store the target lies below the locked step |
| Routes.RedirectSettles | script.js:348-358 | following any redirect of `render` (default, gate or unknown route) reaches a step page with no second redirect |
| Routes.UnlockedStepIsShown | script.js:354-374 | the route of an unlocked step passes the gate and shows that step's page |
| Routes.ProofPageIsNeverGated | script.js:366-371 | the proof route names no step and always shows the proof page |
| Routes.NavClick | script.js:155-166 | a navigation link is refused only for a locked step; a followed step link reaches its page |
| Routes.HasButton | script.js:247-272 | a step page draws Previous after step 1, Next before step 8 and Go to Proof on step 8 |
| Routes.IsEnabled | script.js:248-271 | Next and Go to Proof are drawn `disabled` until step n has an artifact; Previous is always enabled |
| Routes.OnlyDisabledButtonsNotify | script.js:248-528 | a click yields the "Upload an artifact first" notice iff the button is disabled, so every click on an enabled button navigates |
| Routes.Click | script.js:504-528 | Previous goes to step n-1 (index n-2 in bounds); Next goes to step n+1, now unlocked; Go to Proof goes to the proof page; Next and Go to Proof act only once step n has an artifact |
| Routes.ButtonsStayUngated | script.js:504-518 | from an unlocked step of a prefix store, Previous and Next reach a step page with no gate redirect |
| Routes.StepTitles | script.js:415-416 | the completed (or pending) list is no longer than the step list, and each title in it belongs to a step with (or without) an artifact |
| Routes.StepTitlesComplete | script.js:415-416 | every step with (or without) an artifact has its title in the completed (or pending) list |
| Routes.SubmissionListsSplit | script.js:415-416 | for any step table numbered 1..n, the completed list has one entry per recorded step, and the completed and pending lists together have n entries |
| Routes.SubmissionCounts | script.js:415-416 | the final submission lists CompletedCount steps as completed and the other 8 - count as pending; each step's title is in the completed list exactly when it has an artifact, and in the pending list exactly when it has none |
| Tracker.BuildTracker.constructor | script.js:43-61 | the loaded state is the stored artifacts and the stored links, or three empty strings when none are stored |
| Tracker.BuildTracker.GetCompletedCount | script.js:86-92 | the counting loop returns CompletedCount of the current store |
| Tracker.BuildTracker.GetHighestUnlockedStep | script.js:79-84 | the downward loop returns an unlocked step in 1..8 with none above it; its `return 1` is unreachable |
| Tracker.BuildTracker.GetProjectStatus | script.js:94-100 | returns ProjectStatus of the current store and links |
| Tracker.BuildTracker.Render | script.js:343-382 | the page or redirect `render` produces for the current hash is Dispatch of the current route |
| Tracker.BuildTracker.SaveArtifact | script.js:51-53 | only slot k changes, links unchanged; unlocked steps stay unlocked, k+1 unlocks, the count never decreases, a gated save keeps the store a prefix |
| Tracker.BuildTracker.GiveFeedback | script.js:450-467 | the artifact of step k gets status worked/error and the new timestamp, keeps an existing filename (null when new); nothing else changes |
| Tracker.BuildTracker.Upload | script.js:474-496 | a chosen file replaces step k's artifact with an uploaded one named after the file; no file changes nothing |
| Tracker.BuildTracker.EditProofLinks | script.js:396-404 | the stored links are the three field values, trimmed; artifacts unchanged |

## Left out

- HTML building and DOM updates (`renderNav`'s markup, `renderFooter`, `renderStatusBadge`, `renderProgressIndicator`, `renderBuildPanel`, `renderStepPage`'s markup, `renderProofPage`): presentation only. The guards that decide which buttons `renderStepPage` draws (script.js:249, 269) are kept as `HasButton`, its `disabled` attribute on Next and Go to Proof (script.js:248, 270-271) as `IsEnabled`, and the badge text as `StatusLabel`.
- Click: models the handlers of script.js:504-528 as written, toast branch included. A disabled button fires no click, and `OnlyDisabledButtonsNotify` shows that the toast branch is taken exactly when the button is disabled. So the page never shows that toast, except for a stored value that is non-null but falsy, which the model does not have.
- `showToast` and its timers: a toast is modelled as a notice string (`Redirect.notice`, `Notify`) with no timing.
- Clipboard writes (copy prompt, copy final submission), the file-input click plumbing, and the `hashchange`/`DOMContentLoaded` listeners: browser I/O and events. Of the final submission, only the completed/pending split is modelled. Its text layout is not.
- `JSON.parse`/`JSON.stringify` and `localStorage`: storage is a map and a record. A stored value that parses to something other than an artifact object is not modelled. Stored proof links are taken to have all three fields, so `LinksValid` always passes `Some(..)` to `IsValidUrl`. A missing stored field is not modelled. The `None` case of `IsValidUrl` models the `!s` test of script.js:68 on a null or undefined argument.
- The internals of `new URL(...)`: it is the `UrlParser` parameter.
- `Date.now()` and `toLocaleString`: the timestamp is a parameter. The feedback handler reads the clock twice for a new artifact, and the model uses one value, since the second read overwrites the first.
- JavaScript strings are UTF-16 code-unit sequences; the model uses Dafny's `string` of Unicode scalar values.
- The browser's percent-encoding of characters written into `location.hash`: `NavigationHash` assumes the route is kept as written, which holds for every route the page uses.
- Subtitles and prompts of the step table: display text only.
