# Quote wizard and responsive carousels of the "desde tu 7%" landing page

This project models, in Dafny, the two pieces of real state logic in the
landing page of an insurance-brokerage site.

- **The quote wizard (`Cotizador`).** It is a linear three-step form over ten
  text fields. Each form submission advances one step. On the third step the
  submission marks the quote as sent instead. "Volver" goes back one step and
  exists only on steps 2 and 3. "Nueva Cotización" resets the form after it is
  sent. The step indicator above the form highlights steps `1..currentStep`,
  rings the current step and draws a progress bar.
- **The responsive carousel.** `News` and `Isapres` contain the same code. It
  is modelled once, generically, in `Carousel`. The page size comes from a
  breakpoint table (widths of 1024 px and 768 px). There are `ceil(len / size)`
  pages. Previous/next wrap around, dots jump to a page, and a drag gesture
  pages when `|offset| * velocity` passes 10000. After a resize, a page past
  the end is clamped to the last page. The visible window is a JS `slice`.
  `News` uses 3/2/1 items per page over 3 articles. `Isapres` uses 6/4/2 over 7
  insurers.

Every state change is a pure function over an immutable record:

- `WizardState`, with a `FormData` record of the ten fields;
- `CarouselState`, holding the page size, the page and the direction.

User actions are event datatypes. A `Dispatch` function applies one event and
`Run` applies a sequence of them. An event whose control is not on screen
changes nothing. The invariants are `Cotizador.Valid` and `Carousel.Valid`.
They are proved for every sequence of events.

Files:

- `cotizador.dfy`: the wizard and its step indicator.
- `carousel.dfy`: the generic carousel.
- `news.dfy` and `isapres.dfy`: the two instances, with their concrete
  page-count, clamp and swipe facts.

Behaviour of the program that the model reproduces exactly:

- A form submission before the last step advances the step
  (app/components/Cotizador.tsx:294).
- A drag released at offset -5 with velocity 3000 has power +15000 and pages
  back, through `paginate(-1)` (app/components/News.tsx:166-167).
  `Carousel.SwipeExamples` states this.
- A dot click on the current page keeps the page and sets direction -1
  (app/components/News.tsx:249).
- A reset leaves the recorded `direction` as it was
  (app/components/Cotizador.tsx:242-246).

Two further properties hold of the model:

- `edadCargas` has no input on any step, so it is `""` in every reachable state
  (`Cotizador.ReachableStatesValid`).
- In the model, a form submission goes through only when no `required` input
  of the current step is empty, and only the current step's controls exist.
  Under those assumptions, a quote marked as sent has every required field of
  steps 1 and 2 filled. The assumptions are listed under "Left out".

## Model

| member | source | states |
|---|---|---|
| `Cotizador.ParseField` | app/components/Cotizador.tsx:220-225 | the `name` of a change event selects the field whose name it is; a name no field has selects none |
| `Cotizador.ParseFieldName` | app/components/Cotizador.tsx:192-203 | each of the ten field names maps back to its own field, so no two fields share a name |
| `Cotizador.InitialFormData` | app/components/Cotizador.tsx:205-216 | the initial form has every field equal to `""` |
| `Cotizador.Initial` | app/components/Cotizador.tsx:189-255 | the wizard starts on step 1, not sent, direction 0, with all ten fields empty |
| `Cotizador.HandleChange` | app/components/Cotizador.tsx:220-225 | a change sets exactly the field named by the event; the other nine fields, the step, the sent flag and the direction are unchanged |
| `Cotizador.NextStep` | app/components/Cotizador.tsx:227-230 | the step goes up by one and nothing else changes |
| `Cotizador.PrevStep` | app/components/Cotizador.tsx:232-234 | the step goes down by one and nothing else changes |
| `Cotizador.HandleNext` | app/components/Cotizador.tsx:256-259 | advancing records direction +1 and moves one step on without touching the fields or the sent flag |
| `Cotizador.HandlePrev` | app/components/Cotizador.tsx:260-263 | going back records direction -1 and moves one step back without touching the fields or the sent flag |
| `Cotizador.HandleSubmit` | app/components/Cotizador.tsx:236-240 | submitting sets the sent flag and leaves step, direction and fields untouched |
| `Cotizador.ResetForm` | app/components/Cotizador.tsx:242-246 | a reset gives step 1, not sent, all fields empty, from any state; the direction is kept |
| `Cotizador.FormSubmit` | app/components/Cotizador.tsx:294 | on step 3 a form submission sends the quote and stays on step 3; on any other step it advances by exactly one with direction +1; the fields never change; a step in 1..3 stays in 1..3 |
| `Cotizador.RequiredOnStep` | app/components/Cotizador.tsx:309-425 | the required inputs of a step are exactly the inputs rendered on it except the optional UF amount; step 3 has none |
| `Cotizador.InitialValid` | app/components/Cotizador.tsx:189-218 | the initial state satisfies the wizard invariant |
| `Cotizador.DispatchPreservesValid` | app/components/Cotizador.tsx:284-294 | any user action keeps the step in 1..3, the direction in {-1,0,1}, a sent quote on step 3, every passed step's required fields filled, and `edadCargas` empty |
| `Cotizador.RunPreservesValid` | app/components/Cotizador.tsx:220-263 | the invariant holds after any sequence of user actions |
| `Cotizador.ReachableStatesValid` | app/components/Cotizador.tsx:227-246 | from a fresh form the step never leaves 1..3, a sent quote has all required fields of both input steps filled (given the controls assumption under `Cotizador.Enabled` in Left out), and the input-less field stays empty |
| `Cotizador.NextThenBackRestores` | app/components/Cotizador.tsx:227-234 | a submission on step 1 or 2 followed by "Volver" returns to the same step with identical fields; only the direction becomes -1 |
| `Cotizador.BackOnlyAfterFirstStep` | app/components/Cotizador.tsx:428-483 | "Volver" is available exactly on steps 2 and 3 of an unsent form; it moves one step back with direction -1, so the step never drops below 1 |
| `Cotizador.SubmissionsWalkThroughSteps` | app/components/Cotizador.tsx:294 | from step 1 with both input steps filled, two submissions reach step 3 unsent and a third sends the quote while staying on step 3 |
| `Cotizador.SubmitOnLastStep` | app/components/Cotizador.tsx:236-240 | a submission on step 3 only sets the sent flag |
| `Cotizador.ResetRestoresInitial` | app/components/Cotizador.tsx:242-246 | a reset equals the initial state except for the recorded direction, and resetting twice is resetting once |
| `Cotizador.ChangeCommutesWithNavigation` | app/components/Cotizador.tsx:220-234 | editing a field and moving a step commute: navigation never alters field data |
| `Cotizador.StepMarks` | app/components/Cotizador.tsx:135-139 | the indicator draws one circle per step id 1, 2, 3, in order |
| `Cotizador.StepMarksShowProgress` | app/components/Cotizador.tsx:156-158 | for a step in 1..3 exactly one circle is current, the one whose id is the step, and the highlighted ids are exactly 1..currentStep |
| `Cotizador.ProgressWidthBounds` | app/components/Cotizador.tsx:147-153 | the progress bar is 0% on step 1, 50% on step 2 and 100% on step 3, and grows strictly with the step |
| `Carousel.ItemsPerPage` | app/components/News.tsx:73-79 | from 1024 px the desktop size, from 768 px the tablet size, below that the mobile size; always at least 1 |
| `Carousel.ItemsPerPageMonotone` | app/components/News.tsx:73-79 | with a table that grows with the viewport, a wider viewport never gets a smaller page size |
| `Carousel.TotalPages` | app/components/News.tsx:86 | the page count is the ceiling of items over page size: enough pages to hold every item, and one fewer would not |
| `Carousel.TotalPagesZero` | app/components/News.tsx:86 | there are no pages exactly when there are no items |
| `Carousel.Paginate` | app/components/News.tsx:95-101 | with at most one page nothing changes; otherwise the new page is in `[0, totalPages)` and the direction is the step taken |
| `Carousel.PaginateIsModular` | app/components/News.tsx:97-100 | from a valid page, a step of ±1 gives `(page + delta) mod totalPages`: +1 from the last page gives 0, -1 from 0 gives the last page |
| `Carousel.PaginateInverse` | app/components/News.tsx:95-101 | "previous" undoes "next" and vice versa |
| `Carousel.AdvanceIsModular` | app/components/News.tsx:95-101 | k presses of "next" move the page k places round the cycle |
| `Carousel.FullCycleReturns` | app/components/News.tsx:95-101 | `totalPages` presses of "next" return to the starting page |
| `Carousel.Clamp` | app/components/News.tsx:89-93 | a page past the end becomes `totalPages-1` with direction 0; a page in range is left alone; the result is always in range |
| `Carousel.ClampIdempotent` | app/components/News.tsx:89-93 | clamping twice is clamping once |
| `Carousel.Resize` | app/components/News.tsx:71-93 | a resize sets the page size for the new width and leaves a page in range, never later than before, and moved only with direction 0 |
| `Carousel.SelectDot` | app/components/News.tsx:248-251 | a dot click sets the page to exactly the dot's index; the direction is +1 iff the index is after the current page, else -1 |
| `Carousel.Dots` | app/components/News.tsx:245-256 | there is one dot per page and dot i is highlighted iff i is the current page |
| `Carousel.ExactlyOneDot` | app/components/News.tsx:252-256 | with a valid page exactly one dot is highlighted |
| `Carousel.SinglePageIsStatic` | app/components/News.tsx:232-271 | with at most one page no button, dot or drag event changes the carousel; the controls are not drawn |
| `Carousel.SwipeBySign` | app/components/News.tsx:60-63 | a drag pages forward iff the release velocity is negative and `|offset|*|velocity|` exceeds 10000, backward iff it is positive and exceeds 10000, and not at all otherwise |
| `Carousel.SwipeExamples` | app/components/News.tsx:161-169 | offset -5 at velocity 3000 has power 15000 and pages back; offset 5 at velocity 500 does nothing |
| `Carousel.DragEnd` | app/components/News.tsx:161-169 | a drag release does nothing with at most one page or a weak swipe, and otherwise is exactly "next" or "previous" |
| `Carousel.SliceIndex` | app/components/News.tsx:103-106 | a slice bound lands inside the list and equals itself when it already is inside |
| `Carousel.JsSlice` | app/components/News.tsx:103-106 | `slice` agrees with the list's own slice for in-range bounds, runs to the end when the end is past it, and is empty from a start past the end |
| `Carousel.PageItemsInRange` | app/components/News.tsx:103-106 | a valid page shows `items[page*P .. min((page+1)*P, len)]`, between 1 and P items |
| `Carousel.PageItemsPastEnd` | app/components/News.tsx:88-93 | a page past the end shows nothing, the blank page the clamp effect exists to avoid |
| `Carousel.LastPageLength` | app/components/News.tsx:86-106 | the last page holds `len - P*(totalPages-1)` items |
| `Carousel.PagesUpToPrefix` | app/components/News.tsx:103-106 | the first n pages laid end to end are the first `min(n*P, len)` items |
| `Carousel.PagesConcatenate` | app/components/News.tsx:103-106 | the pages `0..totalPages-1` concatenated in order give back the whole list |
| `Carousel.Mount` | app/components/News.tsx:66-84 | the first render has page 0, the page size for the actual viewport, and a valid state |
| `Carousel.DispatchPreservesValid` | app/components/News.tsx:86-101 | every resize, button, dot or drag event keeps the page in range and the direction in {-1,0,1} |
| `Carousel.RunPreservesValid` | app/components/News.tsx:86-101 | the invariant holds after any sequence of events |
| `Carousel.ReachableWindowNonEmpty` | app/components/News.tsx:88-106 | after mounting and any events, a non-empty list always shows at least one item |
| `News.NewsBreakpointPolicy` | app/components/News.tsx:73-79 | 3 per page from 1024 px, 2 from 768 px, 1 below |
| `News.NewsPageCounts` | app/components/News.tsx:86 | 3 articles make 1, 2 and 3 pages at sizes 3, 2 and 1; the last page holds all 3, then 1, then 1 article |
| `News.DesktopIsStatic` | app/components/News.tsx:158-169 | on desktop the single page hides the controls and no click or drag changes the state; all three articles are shown |
| `News.PhoneWrapsForward` | app/components/News.tsx:95-101 | on a phone "next" from the third article goes to the first and "previous" from the first to the third |
| `News.NewsAlwaysShowsArticles` | app/components/News.tsx:103-106 | every reachable news carousel shows an article, and its pages list all articles in order |
| `Isapres.IsapreBreakpointPolicy` | app/components/Isapres.tsx:116-121 | 6 per page from 1024 px, 4 from 768 px, 2 below |
| `Isapres.IsaprePageCounts` | app/components/Isapres.tsx:128-148 | 7 insurers make 2, 2 and 4 pages at sizes 6, 4 and 2; the last pages hold 1, 3 and 1 cards; the pages concatenate back to the list |
| `Isapres.ResizeClampsPage` | app/components/Isapres.tsx:131-135 | at page 3 of size 2, widening to size 6 moves the page to 1 with direction 0; unclamped the window would be empty |
| `Isapres.IsapreSwipes` | app/components/Isapres.tsx:197-205 | a strong leftward fling from the last phone page wraps to page 0; a weak drag changes nothing |
| `Isapres.IsapreDotClick` | app/components/Isapres.tsx:229-240 | a dot click goes to exactly that page, and only its dot is highlighted |

## Left out

- Viewport and React plumbing are not modelled: the `window.innerWidth` reads, the resize listener, the `mounted` hydration guard and effect timing. The width is an input of `Carousel.Resize`. The clamp effect is applied at once after each resize. So the one render with an empty window before the effect runs (`Carousel.PageItemsPastEnd`) is not a state of the model.
- Animation and markup are not modelled: framer-motion variants, springs, drag elasticity, JSX, Tailwind classes, images, and the progress bar's CSS `maxWidth`. `direction` is kept only as recorded state.
- Drag `offset` and `velocity` are Dafny `real`s, not IEEE doubles. NaN and infinities are not modelled.
- `Cotizador.Enabled`: the model assumes a step's controls disappear as soon as `currentStep` changes. In the program, `<AnimatePresence mode="wait">` (app/components/Cotizador.tsx:296) keeps the leaving step's panel mounted during its 0.3 s tween (app/components/Cotizador.tsx:306), with its "Volver" and submit buttons still live, and `prevStep` is a functional update (app/components/Cotizador.tsx:233). This has not been executed. Two consequences, not modelled:
  - A double click on "Volver" from step 2 could go 2 → 1 → 0, leaving a form with no panel.
  - A double "Siguiente" from step 1 validates only step 1's inputs, which are still mounted. By then the form's `onSubmit` is `handleNext`, so it could reach step 3 with step 2 empty, and "Cotizar" then sends it.

  The model's guarantee that a sent quote has every required field filled rests on this assumption.
- `Cotizador.Enabled`: browser constraint validation is modelled only as "no required input is empty". The e-mail format and number-input checks are not modelled, so the model lets some submissions through that a browser would block.
- `Cotizador.HandleChange`: a change event whose `name` is none of the ten fields leaves the ten fields unchanged. In JS it would add a stray key that nothing reads. No rendered input has such a name.
- The `console.log` of the form on submit is not modelled. E-mail dispatch (`app/lib/email.js`) is not called by the wizard and is not part of this model.
- The article and insurer records (titles, texts, images, links) are represented by their ids. The carousel only depends on their order and number.
- `Carousel.PageSize` is at least 1, because every breakpoint table in the source has positive sizes. `Math.ceil(len / 0)` is never computed.
- `Menu.tsx`, `CotizacionOnline.tsx`, `reusable/IsapreCard.tsx`, `layout.tsx`, `page.tsx` and `tailwind.config.js` are presentation, third-party widgets or configuration. They are not part of this model.
