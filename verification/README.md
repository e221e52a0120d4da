# Financial products: list projection and product form rules

A Dafny model of the client-side core of the financial-products admin tool, an
Angular application. The model covers four parts:

- the product list (`ProductsComponent`). It keeps the authoritative
  `allProducts` and derives the displayed `listProducts` from it, either with
  a case-insensitive search or with a quantity cap. It also handles load,
  delete, the row dropdown and the route test that shows the form outlet.
- the routed product form (`components/create-product`), used for create and
  for edit. Its parts:
  - the field rules;
  - the `date_release` subscription, which derives `date_revision`;
  - the asynchronous id check;
  - the choice of create or update mode;
  - `loadProduct`, submit, reset and the error messages.
- the older product form (`products/create-product`). It is create-only and
  checks both dates with the group validator `validateDates`.
- `idNotExistsValidator`: its length guard and how it maps the service's answer
  to an error. A failed call does not block the form.

Every component state is an immutable datatype. Every handler is a pure
function from the old state (plus the event's data) to the new one. The remote
service's answers are parameters:

- `Fetch`, `DeleteOutcome` and `Response` are the replies to the list, delete
  and create/update calls.
- `IdCheck.Oracle` is the reply to the id-existence query.
- The product that `getFinancialProductById` delivers is a parameter.

"Today" is a parameter as well.

Modules:

- `Wrappers`: `Option`.
- `Text`: ASCII case mapping, ECMAScript `trim`, and substring search.
- `Seqs`: subsequences, `filter` and `slice`.
- `Calendar`: dates and `setFullYear(year + 1)`.
- `IsoDate`: `YYYY-MM-DD` formatting and parsing.
- `LocalTime`: the date code under a UTC offset (see Findings).
- `Catalog`: the product record.
- `IdCheck`: the id validator.
- `Forms`: Angular form controls and groups restricted to this form's six
  fields. It covers validators, `setValue`, `reset`, `disable`, validity,
  `getRawValue`/`value` and `markAllAsTouched`.
- `ProductList`, `ProductEditor` and `LegacyProductForm`: the three components.

## Behaviour worth knowing

- The id check starts on `timer(0)`. A new value replaces the running check,
  so `ResolveIdCheck` applies an answer only while a check is pending.
- In edit mode `ngOnInit` patches the enabled `id` control with the route id.
  The id check starts when the route id conforms and passes the validator's
  guard. `id` is disabled only when `loadProduct`'s reply arrives, and that
  drops the check's outcome.
- `setFullYear(year + 1)` turns the 29th of February into the 1st of March of
  the next year.
- `deleteProduct` calls the service directly, with no confirmation step in
  this component. After a delete the display is the capped prefix of what
  remains, so any search in force is discarded.
- After a successful update the form gets a plain `reset()`. The `id` control
  stays disabled and its value becomes `null`. It does not get the product id
  back as `onReset` does.
- In the older form `date_revision` is an editable field that the group
  validator checks. Nothing derives it. After a reset, a `null` release is read
  as the epoch (1970-01-01), so the release carries `invalidRelease` and not
  `required`.

## Model

| member | source | states |
|---|---|---|
| `ProductList.Initial` | src/app/presentation/products/products.component.ts:19-24 | The list starts empty, with no search term, a cap of 5, the form hidden and no dropdown open. |
| `ProductList.SearchProducts` | src/app/presentation/products/products.component.ts:46-58 | A blank term (after lower-casing and trimming) shows every product. Otherwise the display is exactly the products whose lower-cased name or description contains the term: in their original order, each as often as in `allProducts`. Nothing else changes. |
| `ProductList.UpdateDisplayedProducts` | src/app/presentation/products/products.component.ts:60-62 | The display is the first `min(cap, count)` products of `allProducts`, in order. |
| `ProductList.Load` | src/app/presentation/products/products.component.ts:36-44 | A delivered listing becomes `allProducts`, and the display is its capped prefix. A failed fetch changes nothing. |
| `ProductList.OnQuantityChange` | src/app/presentation/products/products.component.ts:64-67 | The new cap is stored and the display is the capped prefix of `allProducts`. |
| `ProductList.DeleteProduct` | src/app/presentation/products/products.component.ts:69-75 | After a successful delete, no product with that id remains. Every other product keeps its order and multiplicity, and the display is the capped prefix of what remains, a subsequence of the new `allProducts`. A failed delete changes nothing. |
| `ProductList.InvariantKept` | src/app/presentation/products/products.component.ts:19-79 | The displayed products are always a subsequence of `allProducts`. The initial state has this property. Search, the cap, a delivered listing and a successful delete establish it from any state. Every other handler keeps it. |
| `ProductList.ToggleDropdown` | src/app/presentation/products/products.component.ts:77-79 | The dropdown closes exactly when it was open on the same row. Otherwise it opens on that row. |
| `ProductList.ToggleTwice` | src/app/presentation/products/products.component.ts:77-79 | Toggling one row twice restores a closed or same-row state. If another row was open, the dropdown ends closed. |
| `ProductList.OnNavigation` | src/app/presentation/products/products.component.ts:30-33 | The form outlet shows exactly when the URL contains `new-product` or `edit-product` at some position. |
| `ProductList.ShowFormOnRoutes` | src/app/presentation/products/products.component.ts:32 | The list route `/` hides the form. `/new-product` and `/edit-product/<id>` show it. |
| `ProductList.SearchCaseInsensitive` | src/app/presentation/products/products.component.ts:47-56 | Upper-casing the search term does not change the search result. |
| `ProductList.SearchIgnoresCap` | src/app/presentation/products/products.component.ts:46-66 | The search result does not depend on the cap selected before it. |
| `ProductList.CapIgnoresSearch` | src/app/presentation/products/products.component.ts:46-62 | The capped display does not depend on any search made before it. |
| `ProductList.ProjectionsIdempotent` | src/app/presentation/products/products.component.ts:46-62 | Running the search or the cap again changes nothing. |
| `Text.ToLower` | src/app/presentation/products/products.component.ts:47 | Lower-casing keeps the length and maps each character by itself. |
| `Text.ToLowerIdempotent` | src/app/presentation/products/products.component.ts:47 | Lower-casing twice is lower-casing once. |
| `Text.ToLowerForgetsUpper` | src/app/presentation/products/products.component.ts:47 | Lower-casing an upper-cased string equals lower-casing the original. |
| `Text.Trim` | src/app/presentation/products/products.component.ts:47 | The result is a contiguous slice of the input. Only whitespace is removed before and after it, and it neither starts nor ends with whitespace. |
| `Text.TrimKeepsUnpadded` | src/app/shared/utils/idNotExistsValidator-utils.ts:9 | A string without whitespace at its ends is its own trim. |
| `Text.TrimEmptyIffBlank` | src/app/presentation/products/products.component.ts:47-49 | The trim is empty exactly when the string is all whitespace. |
| `Text.TrimCommutesWithLower` | src/app/presentation/products/products.component.ts:47-49 | A term is blank after lower-casing exactly when it was blank before. |
| `Text.ContainsIffOccurs` | src/app/presentation/products/products.component.ts:55-56 | `includes` holds exactly when the needle occurs at some index of the haystack. |
| `Seqs.Filter` | src/app/presentation/products/products.component.ts:54-57 | The result is a subsequence of the input that keeps exactly the elements satisfying the predicate, each with its full multiplicity. |
| `Seqs.Take` | src/app/presentation/products/products.component.ts:61 | `slice(0, n)` has `min(n, length)` elements and agrees with the input on each index. |
| `Calendar.AddOneYear` | src/app/presentation/components/create-product/create-product.component.ts:81-82 | One year later keeps the month and day, except the 29th of February, which becomes the 1st of March. The result is a valid, later date. |
| `Calendar.AddOneYearIsSetFullYear` | src/app/presentation/components/create-product/create-product.component.ts:82 | `AddOneYear` equals the roll-over of an impossible day that `setFullYear(year + 1)` performs. |
| `Calendar.AddOneYearCollision` | src/app/presentation/products/create-product/create-product.component.ts:86-88 | Two different releases share a revision only when they are the 29th of February and the 1st of March of the same year. |
| `IsoDate.Parse` | src/app/presentation/components/create-product/create-product.component.ts:75 | Only a 10-character `YYYY-MM-DD` string naming a real day parses. Anything else is an Invalid Date, including day-overflow strings such as `2023-02-30`, which V8 rolls over to 2023-03-02. |
| `IsoDate.ParseFormat` | src/app/presentation/components/create-product/create-product.component.ts:83 | Parsing the `YYYY-MM-DD` text of a four-digit-year date gives the date back. |
| `IsoDate.FormatParse` | src/app/presentation/products/create-product/create-product.component.ts:75-76 | A string that parses is exactly the text of the date it parses to. |
| `IdCheck.Resolve` | src/app/shared/utils/idNotExistsValidator-utils.ts:14-18 | The validator reports `idExists` exactly when the service answers that the id exists. A failure reports nothing. |
| `IdCheck.Validate` | src/app/shared/utils/idNotExistsValidator-utils.ts:6-20 | An empty value, or one whose trim is shorter than 3, resolves to no error and queries nothing. Any other value queries the service exactly once, with that value. The result is `idExists` exactly when that query answers "exists". |
| `IdCheck.FailOpen` | src/app/shared/utils/idNotExistsValidator-utils.ts:15-18 | A failing service yields the same run as one that does not know the id. |
| `Forms.Validate` | src/app/presentation/components/create-product/create-product.component.ts:55-64 | A field's value has no error exactly when it conforms to the field's rule: required, with lengths 3–10 (id), 5–100 (name) and 10–200 (description). `required` is set exactly for the empty value. |
| `Forms.Reset` | src/app/presentation/products/create-product/create-product.component.ts:116-118 | Every control becomes `null`, untouched and pristine. Disabled controls stay disabled, and every enabled control becomes invalid. |
| `Forms.RawValue` | src/app/presentation/components/create-product/create-product.component.ts:123 | `getRawValue()` holds every field, disabled ones included, with its current value. |
| `Forms.FormValue` | src/app/presentation/products/create-product/create-product.component.ts:99 | `value` holds the enabled fields, or every field when all are disabled. |
| `Forms.ValueIsRawWhenAllEnabled` | src/app/presentation/products/create-product/create-product.component.ts:99 | With every control enabled, `value` equals `getRawValue()`. |
| `Forms.MarkAllAsTouched` | src/app/presentation/components/create-product/create-product.component.ts:150 | Every control becomes touched and nothing else changes. |
| `Forms.FirstPresent` | src/app/presentation/components/create-product/create-product.component.ts:99-116 | The result is the first key of the order that the errors carry, or none when they carry none. |
| `ProductEditor.Open` | src/app/presentation/components/create-product/create-product.component.ts:45-71 | Edit mode holds exactly when the route has a non-empty id. In edit mode `id` holds that id. The other fields start blank, only `date_revision` is disabled, and every enabled control is invalid exactly when its value does not conform. |
| `ProductEditor.SetId` | src/app/presentation/components/create-product/create-product.component.ts:55-59 | Setting `id` makes it invalid exactly when the value does not conform. The asynchronous check is pending exactly when the value conforms and passes the validator's guard. |
| `ProductEditor.ReadRelease` | src/app/presentation/components/create-product/create-product.component.ts:74-77 | A release is blank, not a date, before today, or accepted. Each case holds exactly under its condition. |
| `ProductEditor.ReleaseRule` | src/app/presentation/components/create-product/create-product.component.ts:73-90 | A blank release blanks the revision. A past release gets `invalidRelease` and a blank revision. An accepted release loses its errors and gets the revision one year later. A non-date leaves the form unchanged. Other controls never change, and `invalidRelease` appears only for a past release. |
| `ProductEditor.ReleaseOfTodayAccepted` | src/app/presentation/components/create-product/create-product.component.ts:77 | A release dated today is accepted. |
| `ProductEditor.AcceptedRevisionParses` | src/app/presentation/components/create-product/create-product.component.ts:81-84 | The revision written for an accepted release parses back to exactly one year after the release. |
| `ProductEditor.ReleaseRuleIdempotent` | src/app/presentation/components/create-product/create-product.component.ts:73-90 | Running the release rule on its own output changes nothing. |
| `ProductEditor.OnInput` | src/app/presentation/components/create-product/create-product.component.ts:54-90 | Typing into an enabled control stores the value and marks it dirty. Except for the release, the control is then invalid exactly when the value does not conform. Only `id` can be left pending, and it is exactly when the value conforms and passes the id guard. An accepted release writes the revision. Other controls do not change, and a disabled control ignores input. |
| `ProductEditor.OnBlur` | src/app/presentation/components/create-product/create-product.component.ts:98 | Leaving a control marks it touched and changes nothing else. |
| `ProductEditor.ResolveIdCheck` | src/app/shared/utils/idNotExistsValidator-utils.ts:12-18 | The service's answer settles a pending check, and `id` is invalid exactly when the answer is "exists". With no check pending the answer is ignored. |
| `ProductEditor.LoadProductArrived` | src/app/presentation/components/create-product/create-product.component.ts:165-180 | In edit mode `id` gets the route's product id and ends disabled and valid, and every other field gets the product's value; name, description and logo are revalidated. The release is invalid exactly when it is before today. An accepted release ends without errors. Without a product id nothing changes. |
| `ProductEditor.Patch` | src/app/presentation/components/create-product/create-product.component.ts:169-176 | Patching one field sets and revalidates that field only. |
| `ProductEditor.Submit` | src/app/presentation/components/create-product/create-product.component.ts:121-152 | An invalid or pending form is marked touched and sends nothing. A valid form sends its raw value, every field included: to update keyed by the route id in edit mode, to create otherwise. |
| `ProductEditor.OnResponse` | src/app/presentation/components/create-product/create-product.component.ts:125-147 | Only the exact success message of the current mode resets the form. Any other body, a missing message, or an error leaves it as it was. |
| `ProductEditor.OnReset` | src/app/presentation/components/create-product/create-product.component.ts:154-163 | Every control becomes untouched and pristine and every field except `id` is blanked. In edit mode `id` gets the product id back and stays disabled and valid. In create mode `id` is blanked too. |
| `ProductEditor.GetFieldError` | src/app/presentation/components/create-product/create-product.component.ts:95-119 | The message is that of the first key, in the order required, minlength, maxlength, idExists, invalidRelease, invalidRevision, that an invalid, touched or dirty control carries. Otherwise it is empty. |
| `ProductEditor.PriorityFirst` | src/app/presentation/components/create-product/create-product.component.ts:99-116 | The priority search over the six keys is the chain of `if`s in the component. |
| `ProductEditor.CreateScenario` | src/app/presentation/components/create-product/create-product.component.ts:121-146 | In create mode, take conforming fields, an id without surrounding whitespace and a release of today. The form stays pending until the service answers that the id is unknown. It is then valid, the revision is one year after today, and submit creates with every field, `id` and revision included. |
| `ProductEditor.EditScenario` | src/app/presentation/components/create-product/create-product.component.ts:165-180 | In edit mode, take a loaded product with conforming fields and a release from today on. The form is valid with `id` disabled. Submit updates keyed by the route id, and the payload carries that id. |
| `LegacyProductForm.JsDate` | src/app/presentation/products/create-product/create-product.component.ts:75-76 | `new Date(null)` is the epoch, a `YYYY-MM-DD` value is that day, and anything else is an Invalid Date. |
| `LegacyProductForm.ValidateDates` | src/app/presentation/products/create-product/create-product.component.ts:67-95 | A past release gets exactly `invalidRelease`; otherwise only an `invalidRelease` it carried is cleared. A revision that is not one year after the release (either date invalid counts) gets exactly `invalidRevision`; otherwise only an `invalidRevision` it carried is cleared. Other controls do not change and the group has no error. |
| `LegacyProductForm.ValidateDatesIdempotent` | src/app/presentation/products/create-product/create-product.component.ts:67-95 | Running the group validator on its own output changes nothing. |
| `LegacyProductForm.ValidFormHasConsistentDates` | src/app/presentation/products/create-product/create-product.component.ts:80-92 | A form the validator leaves valid has a release from today on and a revision exactly one year after it. |
| `LegacyProductForm.ReleaseOfTodayKept` | src/app/presentation/products/create-product/create-product.component.ts:80 | A release dated today is never flagged as in the past. |
| `LegacyProductForm.OneYearLaterKept` | src/app/presentation/products/create-product/create-product.component.ts:86-92 | A revision exactly one year after the release is never flagged. |
| `LegacyProductForm.Build` | src/app/presentation/products/create-product/create-product.component.ts:32-43 | Six enabled, blank, pristine controls. The revision carries `invalidRevision` and the form is invalid. |
| `LegacyProductForm.OnInput` | src/app/presentation/products/create-product/create-product.component.ts:33-42 | Typing stores the value and marks the control dirty. A non-date control is revalidated by its own rule, and no other value changes. |
| `LegacyProductForm.OnBlur` | src/app/presentation/products/create-product/create-product.component.ts:47 | Leaving a control marks it touched and changes nothing else. |
| `LegacyProductForm.Submit` | src/app/presentation/products/create-product/create-product.component.ts:97-114 | An invalid form is marked touched and sends nothing. A valid one sends `value`, which with every control enabled is every field. |
| `LegacyProductForm.OnReset` | src/app/presentation/products/create-product/create-product.component.ts:116-118 | Every control becomes `null`, untouched and pristine. After that the release reads as the epoch, so it gets `invalidRelease` whenever today is later, and the revision gets `invalidRevision`. |
| `LegacyProductForm.OnResponse` | src/app/presentation/products/create-product/create-product.component.ts:100-110 | Only the exact "Product added successfully" body resets the form. Anything else leaves it as it was. |
| `LegacyProductForm.GetFieldError` | src/app/presentation/products/create-product/create-product.component.ts:45-65 | The message is that of the first key, in the order required, minlength, maxlength, invalidRelease, invalidRevision, that an invalid, touched or dirty control carries. Otherwise it is empty. An `idExists` key is never chosen. |
| `LegacyProductForm.PriorityFirst` | src/app/presentation/products/create-product/create-product.component.ts:48-62 | The priority search over the five keys is the chain of `if`s in the component. |
| `LocalTime.RejectionAsWritten` | src/app/presentation/components/create-product/create-product.component.ts:75-77 | Compared as written (UTC midnight of the release against local midnight of today), the test refuses exactly the earlier days east of UTC, and today as well west of UTC. |
| `LocalTime.TodayRejectedWestOfUtc` | src/app/presentation/components/create-product/create-product.component.ts:75-77 | At UTC−05:00 a release dated today is refused as written. |
| `LocalTime.RevisionAsWrittenAgrees` | src/app/presentation/components/create-product/create-product.component.ts:81-83 | As written, the revision is one year after the release except west of UTC for a 1st of March next to a 29th of February. |
| `LocalTime.LeapDayShiftsRevision` | src/app/presentation/components/create-product/create-product.component.ts:81-83 | At UTC−05:00 the release 2024-03-01 gets 2025-03-02, and 2023-03-01 gets 2024-02-29. |

## Left out

- The HTTP gateway (`FinancialProductApiService`, `CommonHttpService`) is not part of this model. Its replies are parameters.
- Asynchronous scheduling is not modelled. Each reply is applied as one step. The model does not cover requests still in flight when a new event arrives, `timer(0)`, or RxJS cancellation; a superseded id check is taken to be dropped, as Angular does.
- `alert` and `console.error` are not modelled. They change no state.
- The delete-confirmation modal (open, cancel, confirm) is not part of this component. `deleteProduct` is modelled as it is written.
- Time zones in the main model: the release test and the revision use calendar days, which is the intended behaviour. `LocalTime` states what the code computes under a fixed UTC offset. Daylight-saving changes are not modelled.
- Date parsing accepts only the `YYYY-MM-DD` form that `<input type="date">` produces, for days that exist. Three things are not modelled: V8's lenient parsing of other strings, day-overflow `YYYY-MM-DD` strings (V8 rolls `2023-02-30` over to 2023-03-02), and the extended `±YYYYYY` years. All of these read as Invalid Date.
- IsoDate.ParseFormat: stated only for years 0–9999. Later years format with six digits and a sign, which the parser does not read.
- `parseInt` of the quantity select: the cap is a natural number. The select offers fixed positive options, so `NaN` and negative caps are not modelled.
- Text.ToLower: maps ASCII letters only. JavaScript's full Unicode lower-casing is not modelled.
- String lengths count characters. The browser counts UTF-16 code units, which differs for characters outside the Basic Multilingual Plane.
- LegacyProductForm.ValidateDates: does not model the guard for a missing `date_release` or `date_revision` control. The form is a typed record that always has both.
- The `minDate` attribute computed in the routed form's constructor only constrains the date picker. It is not modelled.
- Forms.DecimalString: renders the `requiredLength` in a message only up to its non-emptiness. The digits themselves are not stated.

## Findings

| source | as written | input that shows it | evidently intended | confidence | as-written member | corrected member |
|---|---|---|---|---|---|---|
| src/app/presentation/components/create-product/create-product.component.ts:75-77 | `new Date(value)` is midnight UTC of the release, and it is compared with local midnight of today | browser at UTC−05:00, release = today's date | a release dated today is accepted | high; not executed | `LocalTime.TodayRejectedWestOfUtc` | `ProductEditor.ReleaseOfTodayAccepted` |
| src/app/presentation/components/create-product/create-product.component.ts:81-83 | `setFullYear` adds the year to the local day of midnight UTC, which west of UTC is the day before | browser at UTC−05:00, release 2024-03-01 gives revision 2025-03-02 | revision 2025-03-01, one year after the release | high; not executed | `LocalTime.LeapDayShiftsRevision` | `ProductEditor.AcceptedRevisionParses` |
| src/app/presentation/products/create-product/create-product.component.ts:75-80 | the same UTC-against-local comparison in `validateDates` | browser at UTC−05:00, release = today's date | a release dated today is accepted | high; not executed | `LocalTime.RejectionAsWritten` | `LegacyProductForm.ReleaseOfTodayKept` |
| src/app/presentation/products/create-product/create-product.component.ts:86-89 | the expected revision is built with a local `setFullYear` and compared with a UTC-parsed revision | browser at UTC−05:00, release 2024-03-01 and revision 2025-03-01 are flagged `invalidRevision` | the revision one year after the release is accepted | high; not executed | `LocalTime.RevisionAsWrittenAgrees` | `LegacyProductForm.OneYearLaterKept` |
