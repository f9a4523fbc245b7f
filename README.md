# TEDx registration flow — verified Dafny model

This project models the sequential logic of a small event-registration web
application:

- the `POST /register` handler of the Express back end, with its in-memory,
  append-only `registrations` list;
- the page-level view controller, a three-screen state machine (landing page,
  registration form, digital pass) with an optional registration record;
- the registration form's submit handler: two ordered local checks, one
  request, and the `isSubmitting` busy flag;
- the digital pass's PDF export: the file name derived from the attendee
  name, the hand-drawn PDF layout, and the `isDownloading` busy flag.

Modules, one per source component:

| file | module | source |
|---|---|---|
| `Records.dfy` | `Records` | the registration record and the optional value the client components pass around |
| `JsText.dfy` | `JsText` | the JavaScript whitespace class and `trim()` |
| `Backend.dfy` | `RegistrationService` | `backend/index.js` |
| `ViewController.dfy` | `ViewController` | `TedX_main/src/pages/Index.tsx` |
| `RegistrationForm.dfy` | `RegistrationForm` | `TedX_main/src/components/RegistrationForm.tsx` |
| `DigitalPass.dfy` | `DigitalPass` | `TedX_main/src/components/DigitalPass.tsx` |

Modelling choices:

- State that the source updates in place is a class with fields:
  `RegistrationStore.registrations`, `IndexPage.currentState`/`userData`,
  `FormView.isSubmitting`, `PassView.isDownloading`. Each handler is a method
  that says what the new state is.
- The two client handlers also record, in order, everything they do as a list
  of effects: setting the busy flag, issuing the request, calling the
  completion callback, showing a notice, saving the PDF, logging an error.
  Each handler method is proved equal to a function (`SubmitEffects`,
  `DownloadEffects`). The promised properties are lemmas about those
  functions.
- The nondeterministic or external parts are inputs:
  - the pass identifier that `uuidv4()` would produce;
  - how the `fetch` call ended: an ok response with its parsed body (a record,
    or `null`), a non-ok status, or a throw;
  - whether the pass element is mounted;
  - whether rasterisation succeeded, and the QR image data it produced.
- The request body's fields are JSON values. This models the server's
  truthiness test `!name || !email`: `undefined`, `null`, `false`, `0` and `""`
  are rejected. Arrays and objects are accepted.
- The whitespace class is the ECMAScript WhiteSpace plus LineTerminator set.
  Both `String.prototype.trim` and the regular-expression class `\s` use that
  set. It is a set of 25 code points, and `WhitespaceCodePoints` restates it
  as the ranges the standard lists.
- The file-name replacement `replace(/\s+/g, '-')` is a left-to-right scan
  (`CollapseFrom`) that remembers whether it is inside a whitespace run. The
  first character of each maximal run emits "-", and the rest of the run
  emits nothing.
- The payload the form hands to the page is `Option<PassRecord>`. `None`
  stands for a `null` response body, which the page would store as it is.
- The PDF layout is a list of draw commands in millimetres. `DrawPass` computes
  them the way the source does, with a running `yPos`. It is proved equal to
  the absolute-coordinate layout `PassLayout`. The layout lemmas state the
  geometry.

Points where the code behaves differently than one might expect:

- One might expect the record to be held exactly while the pass screen is
  shown. The page keeps `userData` when the user goes "back" from the pass
  screen (`TedX_main/src/pages/Index.tsx`, lines 30-32). So the model proves
  only "pass screen ⇒ record present". `BackKeepsRecord` shows that the
  converse fails.
- The page declares its `userData` type with only `name` and `email`. The
  value it stores is the server's JSON record, and the pass screen reads its
  `passId`. The model uses one record type with all three fields.
- The PDF tagline is "Ideas Worth Spreading". The on-screen pass shows a
  different tagline. The model records the PDF text as written.

## Model

| member | source | states |
|---|---|---|
| `RegistrationService.RegistrationStore.constructor` | backend/index.js:14 | the registration list starts empty |
| `RegistrationService.RegistrationStore.Register` | backend/index.js:17-33 | 400 with "Name and email are required." exactly when `name` or `email` is falsy, and then the list is unchanged; otherwise 200 with `{name, email, passId}`, and that same record is appended as the new last element with every earlier record kept |
| `RegistrationService.NoServerSideFormatCheck` | backend/index.js:19 | for string fields the check passes exactly when both strings are non-empty, so a whitespace-only name and an email without "@" are accepted |
| `RegistrationService.Truthy` | backend/index.js:19 | JavaScript truthiness of one field: false for a missing field, `null`, `false`, zero and `""`, true for everything else |
| `RegistrationService.HasRequiredFields` | backend/index.js:19 | the request passes the presence test exactly when both fields are truthy, the negation of the handler's rejection test |
| `RegistrationService.FalsyFieldsRejected` | backend/index.js:19 | the falsy fields are exactly a missing field, `null`, `false`, zero and `""`, and a falsy field is rejected in either position whatever the other field holds |
| `RegistrationService.RegisterTwice` | backend/index.js:17-33 | two identical valid requests both succeed and store two records; there is no duplicate detection |
| `ViewController.Step` | TedX_main/src/pages/Index.tsx:17-37 | the page state after one handler: "register" and "back" change only the screen, "submit" stores the payload and shows the pass, "new registration" clears the record and shows the form |
| `ViewController.IndexPage.constructor` | TedX_main/src/pages/Index.tsx:14-15 | the page starts on the landing screen with no record |
| `ViewController.IndexPage.HandleRegisterClick` | TedX_main/src/pages/Index.tsx:17-19 | shows the form and leaves the record untouched; the invariant holds afterwards |
| `ViewController.IndexPage.HandleRegistrationSubmit` | TedX_main/src/pages/Index.tsx:21-24 | stores the payload as it is and shows the pass; the invariant holds afterwards exactly when the payload is a record |
| `ViewController.IndexPage.HandleBackToHero` | TedX_main/src/pages/Index.tsx:26-28 | shows the landing page and leaves the record untouched; the invariant holds afterwards |
| `ViewController.IndexPage.HandleBackToRegistration` | TedX_main/src/pages/Index.tsx:30-32 | shows the form and leaves the record untouched; the invariant holds afterwards |
| `ViewController.IndexPage.HandleNewRegistration` | TedX_main/src/pages/Index.tsx:34-37 | clears the record and shows the form; the invariant holds afterwards |
| `ViewController.StepPreservesInv` | TedX_main/src/pages/Index.tsx:17-37 | every handler keeps "pass screen ⇒ record present" when a submitted payload is a record |
| `ViewController.NullPayloadShowsNothing` | TedX_main/src/pages/Index.tsx:21-24 | a `null` payload breaks the invariant from any state: the pass screen is shown and renders nothing |
| `ViewController.RunPreservesInv` | TedX_main/src/pages/Index.tsx:14-37 | every sequence of handler calls whose payloads are records keeps the invariant |
| `ViewController.Render` | TedX_main/src/pages/Index.tsx:39-59 | the form screen renders the form; the landing screen renders the landing page; the pass screen renders the pass of the stored record, or nothing exactly when no record is stored; the view is empty exactly when the invariant fails |
| `ViewController.ReachablePassRendersRecord` | TedX_main/src/pages/Index.tsx:48-55 | in every state reached through record payloads the `null` branch is dead: the pass screen always renders the pass of the stored record |
| `ViewController.BackKeepsRecord` | TedX_main/src/pages/Index.tsx:30-32 | register, submit, back: the form screen is shown and the record is still held, so "record present ⇒ pass screen" does not hold |
| `ViewController.EnabledTransitions` | TedX_main/src/pages/Index.tsx:39-58 | through the handlers each screen wires up, the only screen changes are landing→form, form→landing, form→pass and pass→form |
| `JsText.WhitespaceCodePoints` | TedX_main/src/components/RegistrationForm.tsx:28 | defines the whitespace class used by `trim()` and `\s` in the standard's terms: U+0009–U+000D, U+0020, U+00A0, U+1680, U+2000–U+200A, U+2028, U+2029, U+202F, U+205F, U+3000 and U+FEFF |
| `JsText.Trim` | TedX_main/src/components/RegistrationForm.tsx:28 | `s.trim()`: the leading and then the trailing whitespace run removed |
| `JsText.IsBlank` | TedX_main/src/components/RegistrationForm.tsx:28 | `!s.trim()`: the trimmed string is empty |
| `JsText.TrimStartSpec` | TedX_main/src/components/RegistrationForm.tsx:28 | trimming the start keeps a suffix, drops only whitespace, and keeps nothing that starts with whitespace |
| `JsText.TrimEndSpec` | TedX_main/src/components/RegistrationForm.tsx:28 | trimming the end keeps a prefix, drops only whitespace, and keeps nothing that ends with whitespace |
| `JsText.TrimSpec` | TedX_main/src/components/RegistrationForm.tsx:28 | `trim()` keeps a contiguous slice with only whitespace outside it and none at its ends |
| `JsText.BlankIffAllWhitespace` | TedX_main/src/components/RegistrationForm.tsx:28 | `!s.trim()` holds exactly when every character of `s` is whitespace, the empty string included |
| `RegistrationForm.FormView.constructor` | TedX_main/src/components/RegistrationForm.tsx:15-19 | empty fields, not submitting, nothing done yet |
| `RegistrationForm.FormView.SetName` | TedX_main/src/components/RegistrationForm.tsx:116 | the name field takes the typed value |
| `RegistrationForm.FormView.SetEmail` | TedX_main/src/components/RegistrationForm.tsx:134 | the email field takes the typed value |
| `RegistrationForm.Validate` | TedX_main/src/components/RegistrationForm.tsx:28-44 | "Missing Information" when a trimmed field is empty; otherwise "Invalid Email" when the email has no "@"; otherwise no notice |
| `RegistrationForm.SubmitEffects` | TedX_main/src/components/RegistrationForm.tsx:28-77 | one call of the handler as a list of effects: the notice of a failed check alone; otherwise the busy flag set, the request, then the settled part |
| `RegistrationForm.AfterRequest` | TedX_main/src/components/RegistrationForm.tsx:58-77 | the effects once the request settles: on an ok response the callback with the parsed body, the flag cleared and the success notice; on a non-ok status or a throw the flag cleared and the failure notice |
| `RegistrationForm.ValidateByCharacters` | TedX_main/src/components/RegistrationForm.tsx:28-44 | the same checks in terms of characters; the order makes a blank email "missing", never "invalid"; both checks pass exactly when the name is not all whitespace and the email contains "@" |
| `RegistrationForm.AfterRequestSettles` | TedX_main/src/components/RegistrationForm.tsx:58-77 | once the request has settled, no other request is made and the flag ends false, on success and on failure |
| `RegistrationForm.RequestIffValid` | TedX_main/src/components/RegistrationForm.tsx:46-56 | exactly one request when both checks pass and none otherwise; the request carries the untrimmed field values |
| `RegistrationForm.FlagCleared` | TedX_main/src/components/RegistrationForm.tsx:46-77 | a failed check leaves `isSubmitting` as it was; otherwise it ends false whatever the outcome |
| `RegistrationForm.SubmittingDuringRequest` | TedX_main/src/components/RegistrationForm.tsx:46-56 | `isSubmitting` is true when the request is issued |
| `RegistrationForm.CallbackOnlyOnSuccess` | TedX_main/src/components/RegistrationForm.tsx:58-76 | `onSubmit` receives exactly the parsed body of an ok response and is not called after a failed check, a non-ok response or a throw; the last effect is the notice for the case taken |
| `RegistrationForm.SubmitDrivesPage` | TedX_main/src/components/RegistrationForm.tsx:58-64 | fed through the page's handlers, one submission shows the pass holding the response body exactly when both checks pass and the response is ok; otherwise the page state is unchanged |
| `RegistrationForm.RecordResponseShowsPass` | TedX_main/src/components/RegistrationForm.tsx:62-63 | a submission answered with a record leaves the page on the pass screen rendering that record, with the invariant intact |
| `RegistrationForm.FormView.HandleSubmit` | TedX_main/src/components/RegistrationForm.tsx:25-78 | the handler's effects are `SubmitEffects`; `isSubmitting` ends false after a request and is unchanged after a failed check |
| `DigitalPass.CollapseWhitespace` | TedX_main/src/components/DigitalPass.tsx:118 | replacing whitespace runs never lengthens the name |
| `DigitalPass.CollapseFromAppend` | TedX_main/src/components/DigitalPass.tsx:118 | the scan splits across any cut: the second part is scanned in the state the first part leaves |
| `DigitalPass.CollapseNoWhitespace` | TedX_main/src/components/DigitalPass.tsx:118 | the collapsed name contains no whitespace |
| `DigitalPass.CollapseIdentity` | TedX_main/src/components/DigitalPass.tsx:118 | a name without whitespace is unchanged |
| `DigitalPass.CollapseIdempotent` | TedX_main/src/components/DigitalPass.tsx:118 | collapsing twice equals collapsing once |
| `DigitalPass.CollapseRun` | TedX_main/src/components/DigitalPass.tsx:118 | a whole whitespace run becomes exactly one "-" |
| `DigitalPass.CollapseRunThen` | TedX_main/src/components/DigitalPass.tsx:118 | a whitespace run before text that starts with a non-whitespace character becomes one "-" before that text |
| `DigitalPass.CollapseAppend` | TedX_main/src/components/DigitalPass.tsx:118 | the replacement works piecewise across any cut that does not split a whitespace run |
| `DigitalPass.CollapseTwoWords` | TedX_main/src/components/DigitalPass.tsx:118 | two whitespace-free words around a whitespace run are joined by one "-" |
| `DigitalPass.FileName` | TedX_main/src/components/DigitalPass.tsx:118 | the template literal: "TEDx-Pass-", the name with each whitespace run replaced by "-", then ".pdf" |
| `DigitalPass.FileNameShape` | TedX_main/src/components/DigitalPass.tsx:118 | the file name starts with "TEDx-Pass-", ends with ".pdf" and has no whitespace; a whitespace-free name appears unchanged |
| `DigitalPass.FileNameTwoWords` | TedX_main/src/components/DigitalPass.tsx:118 | two whitespace-free words around a whitespace run are saved as prefix, first word, "-", second word, ".pdf" |
| `DigitalPass.FileNameExample` | TedX_main/src/components/DigitalPass.tsx:118 | "Jane Doe" is saved as "TEDx-Pass-Jane-Doe.pdf" |
| `DigitalPass.StepsDownIsTopToBottom` | TedX_main/src/components/DigitalPass.tsx:53-113 | if each command is placed below the previous one, every command is below all earlier ones |
| `DigitalPass.PassLayout` | TedX_main/src/components/DigitalPass.tsx:56-116 | the page as drawn, in absolute millimetres: background, logo, pass label and identifier, title, tagline, attendee name and email, separator, the three event lines and the QR image |
| `DigitalPass.LayoutGeometry` | TedX_main/src/components/DigitalPass.tsx:50-116 | the background rectangle (margin 20, width 170, height 180) comes first and contains every command; vertical positions strictly increase (20, 28, 32, 38, 60, 66, 84, 90, 98, 104, 118, 126, 134, 142, 160); the 40×40 QR image has equal left and right gaps of 65 and its bottom edge at 200, the background's bottom |
| `DigitalPass.LayoutOrder` | TedX_main/src/components/DigitalPass.tsx:56-116 | pass identifier, attendee name and email are drawn in that order, then the separator line; the QR image is the last command and the only image besides the logo |
| `DigitalPass.DrawPass` | TedX_main/src/components/DigitalPass.tsx:50-116 | the running-`yPos` computation draws exactly the absolute layout `PassLayout` |
| `DigitalPass.DownloadEffects` | TedX_main/src/components/DigitalPass.tsx:34-124 | one call of the download handler as a list of effects: nothing when the element is not mounted; otherwise the flag set, then the saved PDF or the logged error, then the flag cleared |
| `DigitalPass.DownloadFlagBracket` | TedX_main/src/components/DigitalPass.tsx:32-126 | with no mounted element nothing happens; otherwise `isDownloading` is set first and cleared last, on success and on failure, and is not touched in between |
| `DigitalPass.SavedIffRasterized` | TedX_main/src/components/DigitalPass.tsx:36-121 | a PDF is saved exactly when the element is mounted and rasterisation succeeded; it is named from the attendee name and holds the pass layout |
| `DigitalPass.PassView.constructor` | TedX_main/src/components/DigitalPass.tsx:26-29 | the pass starts not downloading |
| `DigitalPass.PassView.HandleDownload` | TedX_main/src/components/DigitalPass.tsx:32-126 | the handler's effects are `DownloadEffects`; `isDownloading` ends false whenever the element is mounted and is unchanged otherwise |

## Left out

- ViewController.ReachablePassRendersRecord: proved only for payloads that are records. A 2xx response whose body is `null` would be stored and leave the pass screen blank (`NullPayloadShowsNothing`). The server's 200 body is always the record object (`backend/index.js`, line 32), but the model does not connect the server's response to the client's payload.
- Truthy payloads that are not records (a number, an array, an object without the three fields) are not modelled. The page would pass them to the pass screen as they are.
- UUID generation: the pass identifier is an input, so the model proves nothing about its uniqueness.
- The Express set-up: the JSON body parser, the module export and HTTP transport are not modelled.
- A request body that is not an object is not modelled. The handler sees two already-destructured fields.
- JSON numbers are modelled as exact reals rather than IEEE doubles. The handler only tests whether a number is zero.
- Network I/O: `fetch`, `response.json()` and the `VITE_API_URL` base address are not modelled. The request is a `PostRegister` effect, and its outcome is an input.
- A `response.json()` that throws is folded into the `Throws` outcome. It takes the same catch path.
- Notices are modelled by their title only. Their description text and styling are not modelled.
- Disabling the buttons while busy is not modelled. It is JSX markup.
- The browser's own form validation is not modelled. The inputs carry `required` and `type="email"` (`TedX_main/src/components/RegistrationForm.tsx`, lines 118, 131 and 136), so a browser blocks most empty fields and emails without "@" before the submit handler runs. The model covers only the handler's own checks.
- Concurrent interleavings are not modelled, for example navigating back while a request is pending. Each handler runs to completion atomically.
- `html2canvas` rasterisation is a single success-or-failure input.
- The jsPDF document's internals are not modelled. A throw inside a jsPDF call discards the local document, just as a rasterisation failure does, so both share one failure input.
- The error text written to the console is not modelled. It is a `LogError` effect.
- Colour, alpha and font settings of the PDF carry no geometry and are not recorded. The widths of text are unknown, so text is placed by its anchor point.
- The random QR grid, the on-screen JSX layout and its logo URL are presentation only.
- The landing page component (`Hero.tsx`) is not part of this model. It only invokes the register callback.
