# Sehat Saathi decision logic, modelled in Dafny

This project models the three pieces of decision logic in the Sehat Saathi
health web application:

- **The symptom triage evaluator** (`evaluateSymptoms`, module `Triage`,
  `triage.dfy`). It takes a record holding a list of symptom labels. It
  returns `{severity, message, recommendedAction}`, where severity is
  `low < medium < high`. The model is a declarative table of six rules. A rule
  fires when all of its required labels are present, compared as exact
  strings in any order. One explicit reduction, `Select`, picks the firing
  rule with the highest tier. Among rules of that tier, the first declared
  one wins. When no rule fires, the result is the default low result.
- **The footer's newsletter form** (module `Footer`, `footer.dfy`).
  `ValidateEmail` decides the regular expression `^[^\s@]+@[^\s@]+\.[^\s@]+$`
  with a few direct checks, and a lemma proves it accepts exactly that
  regular language. The class `NewsletterForm` holds the `email` field, the
  `isSubmitting` flag and the stored subscriber list. Its
  `HandleNewsletterSubmit` method returns early on a blank or invalid
  address, leaves the list alone when the address is already there, and
  otherwise appends the address and clears the field.
- **The loading screen's progress stepper** (module `Loading`,
  `loading.dfy`). Progress starts at 0. Each interval tick sets it to
  `min(progress + step, 100)`. The first tick that finds it at 100 clears the
  timer and schedules `onComplete`. The class `LoadingScreen` carries the
  state, `Tick` is one firing of the interval, and `RunToCompletion` lets it
  fire until it stops. `ProgressAfter(n, step)` is the specification of the
  state after `n` ticks.

The evaluator's own source (the module imported as `@/lib/triage/evaluator`)
is not part of this model. Its rule table is reconstructed from the evaluator's test suite.
Every assertion of that suite is proved as a lemma. Apart from the phrases
those tests look for, the wording of messages and actions is this model's own.
Each action text is written as the pieces around its tier's phrase:
"emergency" for high, "healthcare professional" for medium, "Monitor" for low.
A lemma then proves that every result carries the phrase of its tier.

Choices where the tests leave the evaluator open:
- The flu-like rule needs all three of fever, cough and sore throat.
- Ties within a tier go to the first declared rule. So `persistent fever`
  with `fatigue` selects the combination rule, not the `fatigue` rule.
- The default action is "Monitor your symptoms and consult a doctor if they worsen.".

JavaScript's `\s` class is a fixed, finite set of characters, and
`String.prototype.trim` strips the same set. `Footer.IsWhitespace` lists
that set exactly.

## Model

| member | source | states |
|---|---|---|
| Triage.Select | src/tests/lib/triage.test.ts:77-84 | Returns None exactly when no rule fires. Otherwise it returns a firing rule whose tier is at least that of every firing rule, and no earlier firing rule has that tier (first declared wins a tie). |
| Triage.EvaluateSymptoms | src/tests/lib/triage.test.ts:59-84 | With no firing rule the result is the default low result. Otherwise it is the outcome of a firing rule whose tier is the highest among firing rules, and no earlier firing rule has that tier. |
| Triage.OutcomesFitTier | src/tests/lib/triage.test.ts:6-75 | The default result and every rule outcome carry the action phrase of their tier: "emergency" (high), "healthcare professional" (medium), "Monitor" (low). |
| Triage.EvaluateFitsTier | src/tests/lib/triage.test.ts:6-75 | For every input, the recommended action contains the phrase of the result's tier. |
| Triage.SelectDependsOnlyOnMatches | src/tests/lib/triage.test.ts:77-84 | Two symptom lists that fire the same rules get the same selection. |
| Triage.EvaluateSelects | src/tests/lib/triage.test.ts:77-84 | Take a firing rule whose tier is the highest among firing rules, with no earlier firing rule of that tier. The result is exactly that rule's outcome, so the contract of EvaluateSymptoms fixes the answer. |
| Triage.EvaluateIgnoresOrderAndDuplicates | src/tests/lib/triage.test.ts:77-84 | Two inputs reporting the same set of labels, in any order and with any repeats, get identical results. |
| Triage.MoreSymptomsNeverLowerSeverity | src/tests/lib/triage.test.ts:77-84 | Adding labels to the input never lowers the severity tier, so low-tier matches never mask a high-tier one. |
| Triage.ChestPainWithShortnessOfBreathIsEmergency | src/tests/lib/triage.test.ts:6-13 | chest pain with shortness of breath gives high, and the action contains "emergency". |
| Triage.ChestPainAloneIsHigh | src/tests/lib/triage.test.ts:15-22 | chest pain alone gives high, and the message contains "serious medical condition". |
| Triage.ShortnessOfBreathAloneIsHigh | src/tests/lib/triage.test.ts:24-31 | shortness of breath alone gives high, and the message contains "Breathing difficulty". |
| Triage.FatigueIsMedium | src/tests/lib/triage.test.ts:33-40 | fatigue gives medium, and the action contains "healthcare professional". |
| Triage.PersistentFeverWithFatigueIsMedium | src/tests/lib/triage.test.ts:42-48 | persistent fever with fatigue gives medium. |
| Triage.MildFluSymptomsAreLow | src/tests/lib/triage.test.ts:50-57 | fever, cough and sore throat give low, and the message contains "flu-like". |
| Triage.UnknownSymptomsGiveDefault | src/tests/lib/triage.test.ts:59-66 | The test's input, headache with runny nose, gives low, with the message exactly "No serious symptoms detected.". |
| Triage.NoKnownLabelGivesDefault | src/tests/lib/triage.test.ts:59-66 | Every input none of whose labels is required by any rule gives exactly the default low result. |
| Triage.UnknownLabelsChangeNothing | src/tests/lib/triage.test.ts:59-66 | Appending labels no rule knows to any input leaves the result unchanged. |
| Triage.NoSymptomsGiveDefault | src/tests/lib/triage.test.ts:68-75 | The empty list gives low, and the action contains "Monitor". |
| Triage.HighRuleDominatesLowRules | src/tests/lib/triage.test.ts:77-84 | chest pain together with the flu-like symptoms gives high. |
| Footer.ValidateEmailIsPattern | src/components/Footer.tsx:14-17 | The validator holds exactly when the string splits as a non-empty run, '@', a non-empty run, '.', a non-empty run, where no run holds whitespace or '@'. |
| Footer.ValidateEmailSound | src/components/Footer.tsx:14-17 | Every string the validator accepts matches the regular expression. |
| Footer.ValidateEmailComplete | src/components/Footer.tsx:14-17 | Every string that splits as the regular expression demands is accepted by the validator. |
| Footer.ValidEmailHasOneAt | src/components/Footer.tsx:15 | Every accepted address has no whitespace and exactly one '@'. So a string with whitespace, or with zero or several '@', is rejected. |
| Footer.BlankIsInvalid | src/components/Footer.tsx:22-38 | An empty or whitespace-only input is never a valid address, so the blank check only ever rejects what validation also rejects. |
| Footer.NewsletterForm.constructor | src/components/Footer.tsx:11-12 | The form starts with an empty field, not submitting, and the stored list. |
| Footer.NewsletterForm.SetEmail | src/components/Footer.tsx:95 | The change handler sets the field to the typed value. |
| Footer.NewsletterForm.HandleNewsletterSubmit | src/components/Footer.tsx:19-75 | An invalid (or blank) address changes nothing, not even `isSubmitting`. A present address leaves the list and field unchanged. Otherwise the list becomes the old list plus the address at the end and the field is cleared. Past validation, `isSubmitting` ends false. An all-valid list stays all-valid, and a duplicate-free list stays duplicate-free. |
| Loading.NextProgress | src/components/LoadingScreen.tsx:50-57 | The update never exceeds 100 and keeps 100 fixed. It reaches 100 exactly when prev + step does. For a non-negative step it never decreases, and for a positive step it strictly increases below 100. |
| Loading.ProgressAfter | src/components/LoadingScreen.tsx:49-57 | Progress after n ticks from 0 is at most 100, and at least 0 for a non-negative step. |
| Loading.ProgressAfterClosedForm | src/components/LoadingScreen.tsx:56 | For every step, progress after n ticks is min(n * step, 100). |
| Loading.ProgressMonotone | src/components/LoadingScreen.tsx:56 | For a non-negative step, progress never decreases over the ticks. |
| Loading.TicksToFull | src/components/LoadingScreen.tsx:51-56 | The number of ticks to fill the bar is the ceiling of 100 / step: one tick fewer is below 100, that many reach it. |
| Loading.ReachesFullExactly | src/components/LoadingScreen.tsx:51-56 | For a positive step, progress is 100 exactly from tick TicksToFull(step) on. |
| Loading.DefaultStepFillsInFiftyTicks | src/components/LoadingScreen.tsx:15 | With the default step 2, the bar is at 98 after 49 ticks and full after 50. |
| Loading.NonPositiveStepNeverFills | src/components/LoadingScreen.tsx:56 | With a zero or negative step, progress stays at or below 0, so the timer is never cleared. |
| Loading.LoadingScreen.constructor | src/components/LoadingScreen.tsx:21-23 | The step defaults to 2. On mount, progress is 0, the interval is set and completion is not scheduled. |
| Loading.LoadingScreen.Tick | src/components/LoadingScreen.tsx:49-57 | A tick sets progress to NextProgress of the old value. It clears the timer and schedules completion exactly when the old progress was already 100 or more. It keeps the invariant that progress equals ProgressAfter(ticks, step). |
| Loading.LoadingScreen.RunToCompletion | src/components/LoadingScreen.tsx:45-61 | For a positive step, ticks run until the timer is cleared. Progress then is 100 and completion is scheduled. A running screen stops after exactly TicksToFull(step) + 1 ticks in all: the bar fills, and one more tick stops it. |

## Left out

- The module imported as `@/lib/triage/evaluator` is not part of this model. The rule table is reconstructed from its tests. Exact wording beyond the phrases the tests check is illustrative.
- Case and synonym normalisation of symptom labels is left to the caller, as in the evaluator's interface.
- Footer rendering, links, toasts (modelled only as the returned `SubmitOutcome`), translation strings and the copyright year are left out.
- The one-second simulated request in the submit handler is left out, because it is asynchronous. The handler is modelled as one atomic step, so `isSubmitting` being true during the wait is not observable.
- The `catch` path of the submit handler (a throwing `JSON.parse` or storage call) is left out.
- `localStorage` is left out: the stored list is the field `subscribers`, and reading and writing it as JSON is not modelled.
- Loading screen timers (`setInterval`, `setTimeout`, cleanup on unmount), the floating-point interval length with its 30 ms fallback, reduced-motion detection, the language-context fallback and rendering are left out.
- Strings are sequences of Unicode scalar values, while JavaScript strings are UTF-16 code units. Validation and the `includes` test agree on well-formed strings; a string holding a lone surrogate has no counterpart in the model.
- Loading: progress and step are integers. A fractional `step` prop, which JavaScript numbers allow, is not modelled.
- Loading.LoadingScreen.Tick: requires the timer to be running, because the interval callback only fires while the interval is set.
- Loading.LoadingScreen.RunToCompletion: requires a positive step. With a zero or negative step the source never clears the timer (see `NonPositiveStepNeverFills`), so there is no completion to run to.
- The reminder and medical-history storage helpers and the `cn` class-name utility are left out. They are thin wrappers over browser storage, JSON and foreign styling libraries.
