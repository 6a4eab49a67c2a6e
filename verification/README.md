# Session form and auth routing of the SportyJourney mobile client, in Dafny

This project models the client-side logic of the SportyJourney mobile app (React Native / Expo over PocketBase). It covers two pieces.

- **The session form** (`mobile/lib/session-form.ts`): the five string fields `name`, `duration`, `energy`, `note` and `date`; the numeric bounds; the default values; `validateSessionForm`, which maps each failing field to a message; and `sessionFormValuesToPayload`.
- **The auth routing guard of the root layout** (`mobile/app/_layout.tsx`): a `navReady` latch, and an effect that redirects a signed-out user to `/auth` and a signed-in user out of it.

The validator depends on three pieces of JavaScript semantics, each modelled exactly on the inputs the form produces (the restrictions, on very large numbers and on lone UTF-16 surrogates, are listed under "## Left out"):

- `String.prototype.trim` (module `JsString`). It strips the ECMAScript WhiteSpace and LineTerminator characters.
- `parseInt(s, 10)` (module `JsParseInt`). It skips leading whitespace, takes one optional sign and reads the longest run of ASCII digits. NaN is `None`.
- The regular expression `^\d{4}-\d{2}-\d{2}$` (module `IsoDate`), together with the `Date.prototype.toISOString` layout that `getTodayISO` slices.

Modules: `Wrappers` (`Option`), `JsString`, `JsParseInt`, `IsoDate`, `SessionForm`, `RootLayout`.

Main results:

- Each field's error is characterised independently of how the validator computes it. The name is blank. The date is blank or not of the shape. A number field holds no leading integer in range.
- Validation is field-local, ignores surrounding whitespace, and never reports the note.
- The defaults fail only on the name.
- The payload carries the very integers the validator accepted.
- `parseInt` inverts `String` and ignores trailing text, which is why "60min" is a valid duration.
- The shape predicate and the `YYYY-MM-DD` rendering describe the same strings.
- `getTodayISO` yields a well-shaped date exactly for years 0 through 9999.
- The routing guard is silent until the latch opens and stops once the screen suits the user. The latch opens exactly after a navigation key has been seen, and it never closes.

## Model

| member | source | states |
|---|---|---|
| `JsString.Trim` | mobile/lib/session-form.ts:45 | the trimmed text is a contiguous slice of the input, only whitespace is cut on either side, and the result neither begins nor ends with whitespace |
| `JsString.TrimUnique` | mobile/lib/session-form.ts:45 | whitespace + a tight middle + whitespace trims to exactly that middle, so the answer is unique |
| `JsString.TrimIdempotent` | mobile/lib/session-form.ts:45 | trimming twice equals trimming once |
| `JsString.TrimEmptyIff` | mobile/lib/session-form.ts:46 | a trimmed value is empty (falsy) exactly when the input is all whitespace |
| `JsParseInt.ParseInt` | mobile/lib/session-form.ts:60 | `parseInt(s, 10)` as used at :60, :74 and :93-94; `ParseIntOfDecomposition` and `ParseIntNaN` together fix its value on every input |
| `JsParseInt.IntToString` | mobile/lib/session-form.ts:29-30 | `String(n)`: starts with '-' exactly for negative `n`, followed by the digits of the magnitude with no leading zero; `NatToDecimal` gives the canonical digits and `ParseIntOfIntToString` its inverse |
| `JsParseInt.ParseIntOfDecomposition` | mobile/lib/session-form.ts:60 | whitespace, an optional sign, a non-empty digit run, then anything not starting with a digit parses to the signed value of the digits |
| `JsParseInt.ParseIntNaN` | mobile/lib/session-form.ts:62 | when no digit follows the whitespace and at most one sign, the result is NaN |
| `JsParseInt.ParseIntOfIntToString` | mobile/lib/session-form.ts:29-30 | `parseInt(String(n))` is `n` for every integer that `String` prints in plain decimal, so the stringified defaults read back as themselves |
| `JsParseInt.ParseIntOfIntToStringWithSuffix` | mobile/lib/session-form.ts:74 | text after the digits is ignored: `parseInt(String(n) + rest)` is `n` when `rest` does not start with a digit |
| `JsParseInt.ParseIntOfTrim` | mobile/lib/session-form.ts:56-60 | `parseInt` of the trimmed text equals `parseInt` of the raw text |
| `JsParseInt.NatToDecimal` | mobile/lib/session-form.ts:29-30 | `String(n)` is a non-empty digit string without a leading zero whose decimal value is `n` |
| `IsoDate.IsIsoDateShape` | mobile/lib/session-form.ts:24 | the test `/^\d{4}-\d{2}-\d{2}$/` applied at :52; `DateTextShape` and `ShapeIsDateText` show it accepts exactly the renderings of 4/2/2-digit field triples |
| `IsoDate.ToIsoString` | mobile/lib/session-form.ts:37 | `toISOString`: 24 characters for years 0..9999 and 27 in the expanded-year form, ending in 'Z' with the 'T' separator 14 characters from the end; `GetTodayIso` states what its first ten characters spell |
| `IsoDate.DateTextShape` | mobile/lib/session-form.ts:24 | every 4-digit year, 2-digit month and 2-digit day renders to a string of the date shape that spells them back |
| `IsoDate.ShapeIsDateText` | mobile/lib/session-form.ts:24 | every string of the date shape is the `YYYY-MM-DD` rendering of the numbers it spells |
| `IsoDate.PadZeroIsPaddedDecimal` | mobile/lib/session-form.ts:37 | the fixed-width fields of the ISO string are the decimal rendering left-padded with zeros |
| `IsoDate.GetTodayIso` | mobile/lib/session-form.ts:36-38 | the result has ten characters; it has the date shape exactly when the clock's year is 0..9999, and then it spells the clock's year, month and day |
| `SessionForm.RangeMessages` | mobile/lib/session-form.ts:66 | the two range messages are the bounds interpolated into their text |
| `SessionForm.Validate` | mobile/lib/session-form.ts:42-85 | error keys are only name, date, duration and energy (never note), and each key's entry is exactly its own field's check |
| `SessionForm.ValidateFieldwise` | mobile/lib/session-form.ts:42-85 | for every field, including note, the entry is that field's check applied to that field's value |
| `SessionForm.NameRule` | mobile/lib/session-form.ts:45-48 | the name error is present iff the name is all whitespace, and then it reads "Name is required" |
| `SessionForm.DateRule` | mobile/lib/session-form.ts:50-54 | blank gives "Date is required"; non-blank but not of the shape gives "Use YYYY-MM-DD format"; there is no error iff the trimmed text has the shape |
| `SessionForm.BoundedIntRule` | mobile/lib/session-form.ts:56-82 | a number field passes iff `parseInt` of its text is an integer in [lo, hi]; blank says "required"; anything else failing says "out of range" |
| `SessionForm.DurationRule` | mobile/lib/session-form.ts:56-68 | no duration error iff `parseInt` reads an integer in [15, 180], with the message chosen by blankness |
| `SessionForm.EnergyRule` | mobile/lib/session-form.ts:70-82 | no energy error iff `parseInt` reads an integer in [1, 10], with the message chosen by blankness |
| `SessionForm.DurationAcceptsTrailingTextAndOffStep` | mobile/lib/session-form.ts:19 | "60min" and "61" are both valid durations: trailing text is ignored and the step of 5 is not enforced |
| `SessionForm.ValidateFieldLocal` | mobile/lib/session-form.ts:42-85 | two forms that agree on a field get the same outcome for that field |
| `SessionForm.FieldErrorOfTrim` | mobile/lib/session-form.ts:45-82 | no field check changes when its input is trimmed first |
| `SessionForm.ValidateTrimmed` | mobile/lib/session-form.ts:42-85 | validating the field-wise trimmed copy yields the same errors |
| `SessionForm.DefaultValues` | mobile/lib/session-form.ts:26-34 | defaults are name "", duration "60", energy "5", note "" and today's date; the default duration and energy pass their checks |
| `SessionForm.DefaultNumbersPass` | mobile/lib/session-form.ts:21-22 | the stringified default duration and energy pass the duration and energy checks |
| `SessionForm.ShapedDatePasses` | mobile/lib/session-form.ts:50-54 | a date string of the shape gets no date error |
| `SessionForm.DateCheckIsShapeOnly` | mobile/lib/session-form.ts:24 | month and day ranges are not checked: "2024-13-45" gets no date error |
| `SessionForm.DefaultsValidation` | mobile/lib/session-form.ts:26-85 | for a clock year in 0..9999, validating the defaults yields exactly `{name: "Name is required"}` |
| `SessionForm.ToPayload` | mobile/lib/session-form.ts:87-98 | the payload exists iff the date conversion does not throw; name and note are trimmed; duration and energy are what `parseInt` reads from the raw text |
| `SessionForm.PayloadWithinBounds` | mobile/lib/session-form.ts:60-98 | no duration error means `payload.duration` is in [15, 180]; no energy error means `payload.energy` is in [1, 10]; no name error means a non-empty trimmed name |
| `SessionForm.PayloadTrimmed` | mobile/lib/session-form.ts:87-98 | converting the field-wise trimmed copy gives the same payload |
| `RootLayout.Redirect` | mobile/app/_layout.tsx:42-51 | no redirect while nav is not ready; once ready, no redirect iff the screen already suits the user; a redirect always lands on a screen that does |
| `RootLayout.RedirectTable` | mobile/app/_layout.tsx:44-50 | signed-out outside `auth` goes to `/auth`, signed-in inside `auth` goes to `/(tabs)`, and every other case stays put |
| `RootLayout.RedirectSettles` | mobile/app/_layout.tsx:46-50 | after a redirect, the guard sees its target's segments and issues nothing further |
| `RootLayout.NextNavReady` | mobile/app/_layout.tsx:28-33 | the latch is never cleared, opens whenever a key is present, and opens only then |
| `RootLayout.Step` | mobile/app/_layout.tsx:42-55 | a commit renders the tree iff nav is ready; with nav ready it redirects iff the screen does not suit the user, and the redirect lands on one that does; it never redirects before nav is ready; it advances the latch |
| `RootLayout.NavReadyAfterIff` | mobile/app/_layout.tsx:26-33 | starting from false, the latch is open after a run iff some commit in it saw a navigation key |
| `RootLayout.NavReadyMonotone` | mobile/app/_layout.tsx:26-33 | extending a run never closes the latch |
| `RootLayout.RedirectsIff` | mobile/app/_layout.tsx:28-51 | commit `i` of a run redirects iff an earlier commit saw a navigation key and the screen does not suit the user, and the redirect lands on a screen that does |
| `RootLayout.NoRedirectBeforeKey` | mobile/app/_layout.tsx:42-43 | a commit redirects only if an earlier commit saw a navigation key; the first commit never redirects |

## Left out

- The epoch-to-calendar conversion of JavaScript `Date`. The clock reading passed to `getTodayISO` and `getDefaultSessionFormValues` is a UTC calendar instant. Its year range is the range a `Date` can hold, and the exact cut-off days inside the two boundary years are not modelled.
- `ToPayload`: the date conversion `new Date(t).toISOString().slice(0, 10)` is a function parameter returning `None` where it throws. The model does not state that it returns `t` for real calendar dates. A shape-valid but impossible date such as `2024-13-45` makes it throw, so the payload is not total.
- Numbers are unbounded integers, with NaN as `None`. `parseInt` rounds very long digit runs to a double. The rounding is monotone and the bounds 1, 10, 15 and 180 are exact doubles, so every comparison the validator makes comes out the same. `-0` compares like `0`.
- `RootLayout.Step`: the redirect guard is evaluated on every commit. React runs the effect only after a commit in which `user`, `router`, `segments` or `navReady` changed. Unchanged inputs give the guard the same decision it made before, so the model may repeat a `router.replace` that React would not issue again, but every redirect React issues is one the model issues. `NoRedirectBeforeKey` and `RedirectsIff` are stated for this over-approximation.
- `JsParseInt.IntToString` and `JsParseInt.ParseIntOfIntToString`: `String(n)` is modelled as plain decimal for every integer. JavaScript prints magnitudes of 10^21 and above in exponent form (`String(1e21)` is `"1e+21"`, and `parseInt` reads that as 1), and integers above 2^53 are not all representable. The form only renders the constants 60, 5, 15, 180, 1 and 10.
- `RootLayout.NextNavReady` is modelled as running on every commit. The source runs it only when the key changes. Setting an already-true flag changes nothing, so the latch state is the same.
- Strings are sequences of Unicode scalar values, while JavaScript strings are sequences of UTF-16 code units, so a lone surrogate cannot be represented. No validator outcome depends on this: every whitespace character `trim` strips lies in the Basic Multilingual Plane, and digits, signs and '-' are ASCII.
- The React rendering and providers, the `authStore.onChange` subscription (the user is an input to each commit), and the router object. Each redirect is `router.replace` to the route's path.
- Locale-dependent date display and the platform-specific picker in `mobile/components/ui/date-picker.tsx`.
- The PocketBase calls in `mobile/api/*.ts`, the submit flow and mode toggle of `mobile/app/auth.tsx`, theme and layout constants, and the environment-based URL configuration. They are thin wrappers over a library that is not part of this model, or UI state.
- The collection schema in `server/migrations/1769902879_add_sessions_collection.go` is declarative configuration. Its server-side energy bounds are 0..10, looser than the client's 1..10.
