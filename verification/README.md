# MacroStruct client state, modelled in Dafny

A model of the client-side logic of the MacroStruct web app, a diet and food
catalogue front end. It covers four parts:

- **The diet composition editor.** These are the "new diet" and "edit diet" pages. Each `setDiet(prev => …)`
  handler is modelled as a pure function from the old diet record to the new one:
  add or remove a meal, add or remove a food row, change a meal field, and the
  food-row handler that looks a food up in the catalogue and recomputes the macros.
  The editor also includes the ordered submit gate and the payload builders of both pages.
- **The food list page.** This covers the selected ids, select-all, the sort state machine, the
  rows-per-page change, the header checkbox predicates and the delete button.
- **The mock authentication service.** This covers the credential check, the cookie strings `login`
  and `logout` write, and `getAuthToken`/`isAuthenticated` reading a
  token out of a cookie string.
- **Request and form normalisation.** This covers the `requestData` mapping of `createDiet` and
  the food registration page: its tab, inputs, spreadsheet MIME gate and the two
  submits.

Modules, in dependency order:

| file | module | what it holds |
|---|---|---|
| wrappers.dfy | `Wrappers` | `Option`, `Result` |
| js_values.dfy | `JsValues` | JavaScript numbers (`Fin(real)`, `NaN`, `Inf`), string-or-number fields, truthiness, `Number(x)`, `*`, `/`, `\|\| 0`, `toFixed(2)`, `Math.round` |
| js_strings.dfy | `JsStrings` | `trim`, `startsWith`, `includes`, `split` with its inverse `Join` |
| sequences.dfy | `Sequences` | index-keyed `map` and `filter`, `findIndex`, `filter(y => y !== x)` |
| catalog.dfy | `Catalog` | the catalogue food record and the lookup by exact description |
| diet_state.dfy | `DietState` | the diet record and the handlers, gate and payload shape both editor pages share |
| diet_create.dfy | `DietCreate` | the "new diet" page: direct scaling and its payload |
| diet_edit.dfy | `DietEdit` | the "edit diet" page: ratio scaling, rejection, rounding, and its payload |
| diet_service.dfy | `DietService` | `requestData` of `createDiet` |
| food_list.dfy | `FoodList` | the food list page state |
| auth.dfy | `Auth` | the mock authentication service |
| food_create.dfy | `FoodCreate` | the food registration page |

Modelling choices:

- **Values of unknown type.** The diet fields hold what the inputs typed (strings) or what the handlers
  computed (numbers), so a field is a `Value`, either `Str(s)` or `N(n)`.
- **Numbers.** A JavaScript number is `Fin(v)` with `v` an exact real, `NaN`, or a signed
  infinity. IEEE rounding is not modelled.
- **String-to-number conversions.** `Number(s)`, `parseInt` and `parseFloat` on strings are parameters of the
  model: `parse: string -> Option<real>` for `Number` and `parseFloat`, and
  `string -> Option<int>` for `parseInt`. `None` stands for `NaN`.
- **`toFixed(2)`.** The edit page stores the string `toFixed(2)` returns, and its payload reads it back
  with `Number`. The model stores the number that string denotes. That number is the
  exact product rounded to hundredths, with ties away from zero.
- **Shared handlers.** The meal and food-row handlers at `src/pages/Diet/Edit.js:81-153` are the same text as
  `src/pages/Diet/Create.js:52-124`. They are modelled once, in `DietState`. The two
  `handleFoodChange` versions differ and are modelled separately, as are the two payloads.
- **Service outcomes.** The outcome of each service call is a parameter. `None` means it resolved, and
  `Some(message)` means it threw with that message.

Notes on the code:

- The diet detail page computes no calorie totals. It only shows the totals the server sends, so no
  aggregation is modelled.
- The diet's daily energy field is spelled `tdeee` by every page and service that writes it
  (`src/pages/Diet/Create.js:220`, `src/pages/Diet/Edit.js:246`, `src/services/diet.js:63`), and keeps
  that name here. The detail page reads `diet.tdee` instead (`src/pages/Diet/Detail.js:115`), so it
  shows no value for it; that page is not part of this model.
- The edit page rounds macros to hundredths and its payload rounds portions to
  whole numbers. The "new diet" page does neither.

## Model

| member | source | states |
|---|---|---|
| JsValues.ToNumber | src/pages/Diet/Create.js:154 | `Number` keeps a number as it is; on text it is `Fin(v)` when the text parses to `v` and NaN exactly when it does not, never infinite |
| JsValues.Mul | src/pages/Diet/Create.js:159-162 | two finite numbers multiply exactly; multiplying by 1 changes nothing; NaN on either side, and 0 times an infinity, give NaN; an infinite product is negative exactly when one factor is |
| JsValues.MulCommutes | src/pages/Diet/Create.js:159-162 | multiplication of JavaScript numbers commutes |
| JsValues.Div | src/pages/Diet/Edit.js:183 | a finite quotient times a non-zero divisor gives the dividend back; a positive number over 0 is +Infinity; 0/0 is NaN; an infinite quotient is negative exactly when one operand is, the zero divisor counting as +0 |
| JsValues.OrZero | src/pages/Diet/Create.js:228-231 | `x \|\| 0` is never NaN, keeps a truthy number and gives 0 for a falsy one |
| JsValues.Truthy | src/pages/Diet/Create.js:203-206 | the falsy field values are exactly the empty text, 0 and NaN; every other text or number, the infinities included, is truthy |
| JsValues.Round2 | src/pages/Diet/Edit.js:187-190 | `toFixed(2)` gives a whole number of hundredths within half a hundredth of the input; a tie goes away from zero, so a non-negative input is rounded in (-1/2, 1/2] hundredth and a negative one in [-1/2, 1/2) |
| JsValues.Round2IsNearest | src/pages/Diet/Edit.js:187-190 | no whole number of hundredths is closer to the input than the rounded value |
| JsValues.Round2OfCents | src/pages/Diet/Edit.js:187-190 | a value already in whole hundredths is left as it is |
| JsValues.ToFixed2 | src/pages/Diet/Edit.js:187-190 | `toFixed(2)` on a finite number rounds it to hundredths with ties away from zero; NaN and the infinities are left alone |
| JsValues.MathRound | src/pages/Diet/Edit.js:253 | `Math.round` gives a whole number within (-1/2, 1/2] of a finite input and leaves non-finite inputs alone |
| JsStrings.TrimStart | src/pages/Diet/Create.js:183 | the result is a suffix of the input, everything dropped is white space, and it does not start with white space |
| JsStrings.TrimEnd | src/pages/Diet/Create.js:183 | the result is a prefix of the input, everything dropped is white space, and it does not end with white space |
| JsStrings.Trim | src/pages/Diet/Create.js:183 | `trim()` is a contiguous stretch of the input with only white space before and after it, neither starting nor ending with white space, and empty exactly when the input is all white space |
| JsStrings.TrimIdempotent | src/pages/Diet/Create.js:217 | trimming a trimmed description changes nothing |
| JsStrings.TrimmedPrefixOccurs | src/services/auth.js:29 | a prefix of the trimmed segment occurs in the untrimmed segment right where its leading white space ends |
| JsStrings.Split | src/services/auth.js:28 | `split(sep)` gives at least one piece, none holding the separator, and joining them with the separator gives the input back |
| JsStrings.SplitPieceChars | src/services/auth.js:28 | every character of a piece is a character of the split string |
| JsStrings.SplitAtSeparator | src/services/auth.js:30 | a string holding the separator splits into at least two pieces |
| JsStrings.SplitAfterPiece | src/services/auth.js:28 | a separator-free piece followed by the separator splits off as the first piece |
| JsStrings.SplitWithoutSeparator | src/services/auth.js:28 | a string without the separator is a single piece |
| JsStrings.SplitJoin | src/services/auth.js:28 | splitting undoes joining pieces that hold no separator |
| JsStrings.IncludesIsOccurrence | src/App.js:20 | `includes(p)` holds exactly when `p` occurs at some position of the string |
| JsStrings.JoinPiece | src/services/auth.js:28 | every piece appears whole in the joined text, at the offset after the earlier pieces and separators |
| JsStrings.OccursInJoin | src/services/auth.js:28 | text occurring inside one `;`-separated segment occurs in the whole cookie string |
| Sequences.MapAt | src/pages/Diet/Create.js:77-95 | the index-keyed map changes only the element at the given index, and nothing for an index outside the sequence |
| Sequences.MapAtIsMapIndexed | src/pages/Diet/Create.js:77-95 | the direct definition equals `map((x, i) => i === idx ? f(x) : x)` applied element by element |
| Sequences.RemoveAt | src/pages/Diet/Create.js:70 | the index-keyed filter drops exactly the element at the index, keeps the others in order, and changes nothing for an index outside the sequence |
| Sequences.RemoveAtIsFilterIndexed | src/pages/Diet/Create.js:70 | the direct definition equals `filter((_, i) => i !== idx)` applied element by element |
| Sequences.FindIndex | src/services/auth.js:29 | `find` returns the first element satisfying the predicate, and nothing exactly when none does |
| Sequences.RemoveAll | src/pages/Food/index.js:111 | `filter(item => item !== id)` leaves no `id`, keeps every other element's count, keeps a duplicate-free sequence duplicate-free, changes nothing when `id` is absent, and on one element keeps it exactly when it is not `id` |
| Sequences.RemoveAllConcat | src/pages/Food/index.js:111 | filtering two sequences laid end to end is filtering each, in the same order; with the one-element case this fixes the order of what remains |
| Sequences.RemoveAllAppended | src/pages/Food/index.js:110-112 | dropping `x` from `s + [x]` gives the same as dropping it from `s` |
| Catalog.FindByDescription | src/pages/Diet/Create.js:137 | the lookup returns the first catalogue food whose description is exactly the text, and nothing exactly when none matches |
| DietState.AddMeal | src/pages/Diet/Create.js:52-65 | one meal is appended with empty description, time and food list and ordination = previous count + 1; earlier meals and the diet fields are unchanged |
| DietState.RemoveMeal | src/pages/Diet/Create.js:67-72 | only the meal at the index is dropped, the others keep their order and ordinations, and an out-of-range index changes nothing |
| DietState.AddMealKeepsNumbering | src/pages/Diet/Create.js:60 | adding to a diet numbered 1..n keeps it numbered, so ordinations stay distinct |
| DietState.RemoveThenAddDuplicatesOrdination | src/pages/Diet/Create.js:52-72 | removing the first of two or more meals and adding one produces two meals with the same ordination |
| DietState.RemoveUndoesAddMeal | src/pages/Diet/Create.js:52-72 | removing the meal just added gives the diet back |
| DietState.AddFood | src/pages/Diet/Create.js:74-97 | only the target meal changes: it gains one row with empty description, portion 1 and zero macros at the end |
| DietState.RemoveFood | src/pages/Diet/Create.js:99-112 | only the target meal's food list changes, by dropping the row at the index; the meal's other fields and all other meals are unchanged |
| DietState.RemoveUndoesAddFood | src/pages/Diet/Create.js:74-112 | removing the row just added to a meal gives the diet back |
| DietState.SetMealField | src/pages/Diet/Create.js:119 | the named meal field takes the value and the other fields are unchanged |
| DietState.ChangeMeal | src/pages/Diet/Create.js:114-124 | only the named field of the target meal changes; every other meal and the diet fields are unchanged |
| DietState.SetFoodField | src/pages/Diet/Create.js:166 | the named row field takes the typed text and the other fields are unchanged |
| DietState.UpdateFood | src/pages/Diet/Create.js:126-175 | only row `foodIndex` of meal `mealIndex` is rewritten; every other row, every meal's own fields and the diet fields are unchanged |
| DietState.SomeFoodInvalid | src/pages/Diet/Create.js:206 | `foodList.some(...)` is true exactly when some row lacks a trimmed description or a truthy portion |
| DietState.MealInvalid | src/pages/Diet/Create.js:203-206 | the callback is true exactly when the meal is not complete |
| DietState.SomeMealInvalid | src/pages/Diet/Create.js:202-207 | `meals.some(...)` is true exactly when some meal is not complete |
| DietState.CheckDiet | src/pages/Diet/Create.js:183-213 | the checks run in order (description, required fields, at least one meal, complete meals) and the first failure picks the error; nothing fails exactly when the diet is submittable |
| DietState.Submittable | src/pages/Diet/Create.js:183-213 | a diet the gate lets through: a non-blank description, weight, height and tdeee filled, at least one meal and every meal complete |
| DietState.BuildPayload | src/pages/Diet/Create.js:216-234 | meals and rows keep their number and order; time and ordination pass unchanged; weight, height and tdeee go through `Number` |
| DietCreate.ChangeFood | src/pages/Diet/Create.js:134-166 | a catalogue selection sets portion 1 and copies the macros; a portion for a catalogue food multiplies each macro by `Number(value)`; anything else stores the text in that one field |
| DietCreate.HandleFoodChange | src/pages/Diet/Create.js:126-175 | only the addressed row changes, as `ChangeFood` says |
| DietCreate.PortionScalesDirectly | src/pages/Diet/Create.js:150-164 | a portion parsing to `p` sets each macro to exactly catalogue value × `p`, negative `p` included |
| DietCreate.UnparsablePortionGivesNaN | src/pages/Diet/Create.js:154-162 | a portion that does not parse is not rejected: every macro becomes NaN |
| DietCreate.SelectionIsUnitPortion | src/pages/Diet/Create.js:138-164 | typing portion 1 after a selection gives the row the selection produced |
| DietCreate.FoodPayloadOf | src/pages/Diet/Create.js:225-232 | a row as the page submits it: trimmed description, `Number` on the portion, `Number(x) \|\| 0` on each macro |
| DietCreate.FoodPayloadOfSent | src/pages/Diet/Create.js:225-232 | a submitted row has a trimmed description, `Number` on the portion and `Number(x) \|\| 0` on each macro, so no macro is NaN |
| DietCreate.Payload | src/pages/Diet/Create.js:216-234 | weight, height and tdeee go through `Number`; the payload keeps meal and row counts and order, trims every description, sends `Number(portion)` and `Number(x) \|\| 0` macros, and has no NaN macro |
| DietCreate.Submit | src/pages/Diet/Create.js:183-234 | a payload is sent exactly when the diet is submittable; otherwise the first failing check is the error |
| DietEdit.ChangeFood | src/pages/Diet/Edit.js:164-194 | a selection sets the portion to the food's serving size and copies the macros; a NaN or negative portion leaves the row unchanged; an accepted portion scales each macro by portion / servingSize rounded to hundredths; anything else stores the text |
| DietEdit.HandleFoodChange | src/pages/Diet/Edit.js:155-203 | only the addressed row changes, as `ChangeFood` says |
| DietEdit.Rejected | src/pages/Diet/Edit.js:181 | the handler accepts exactly the non-negative portions and +Infinity; NaN and every negative number, -Infinity included, are turned away |
| DietEdit.ScaleMacro | src/pages/Diet/Edit.js:183-190 | a catalogue macro for a portion is `(macro * (portion / servingSize)).toFixed(2)` |
| DietEdit.InvalidPortionLeavesRow | src/pages/Diet/Edit.js:180-181 | a portion that does not parse or is negative leaves a catalogue row exactly as it was |
| DietEdit.ScaleMacroIsRoundedRatio | src/pages/Diet/Edit.js:183-190 | a scaled macro is `macro * (p / servingSize)` rounded to hundredths, within half a hundredth of the exact value |
| DietEdit.PortionScalesByRatio | src/pages/Diet/Edit.js:178-191 | a portion `p >= 0` is accepted, stored, and every macro is scaled by the ratio |
| DietEdit.ScaleMacroAtZero | src/pages/Diet/Edit.js:183-190 | portion 0 scales a macro to 0 when the serving size is not 0 |
| DietEdit.ScaleMacroAtServingSize | src/pages/Diet/Edit.js:183-190 | portion = serving size scales a macro to the macro rounded to hundredths |
| DietEdit.ScaleMacroAtUnitServing | src/pages/Diet/Edit.js:183-190 | with serving size 1 the ratio rule is the direct product rounded to hundredths |
| DietEdit.ScaleMacroAtZeroServing | src/pages/Diet/Edit.js:183 | with serving size 0 no scaled macro is finite |
| DietEdit.ZeroPortionZeroesMacros | src/pages/Diet/Edit.js:180-191 | a zero portion is accepted and zeroes every macro |
| DietEdit.ServingSizePortionRestoresCatalog | src/pages/Diet/Edit.js:165-191 | typing back the serving size gives the catalogue macros rounded to hundredths, exactly them when they are whole hundredths |
| DietEdit.ZeroServingSizeIsNotFinite | src/pages/Diet/Edit.js:183-190 | a catalogue food with serving size 0 yields non-finite macros for any accepted portion |
| DietEdit.ScalingRulesAgreeAtUnitServing | src/pages/Diet/Edit.js:183-190 | the two pages' scaling rules give the same row when the serving size is 1 and the products are whole hundredths |
| DietEdit.FoodPayloadOf | src/pages/Diet/Edit.js:251-258 | a row as this page submits it: trimmed description, `Math.round(Number(portion))`, `Number` on each macro |
| DietEdit.Payload | src/pages/Diet/Edit.js:241-260 | weight, height and tdeee go through `Number`; descriptions are trimmed; each portion is `Math.round(Number(portion))`, a whole number within 1/2 of it, with NaN and the infinities passed through; the macros are `Number(x)` with NaN passed through |
| DietEdit.PayloadsDifferOnUnparsableMacro | src/pages/Diet/Edit.js:254-257 | for a macro text that does not parse this page sends NaN where the "new diet" page sends 0 |
| DietEdit.Submit | src/pages/Diet/Edit.js:210-260 | the same ordered gate as the "new diet" page, then this page's payload |
| DietService.RequestData | src/services/diet.js:58-77 | descriptions, times and ordinations pass unchanged; weight, height, tdeee and portions get `Number` with no default; each macro is `Number(x) \|\| 0`; meal and row counts and order are kept |
| DietService.FoodRequestOf | src/services/diet.js:68-75 | a request row: the description as given, `Number` on the portion, `Number(x) \|\| 0` on each macro |
| DietService.RequestDataKeepsNumbers | src/services/diet.js:68-75 | a payload whose macros are all numbers comes back unchanged |
| DietService.RequestDataKeepsCreatePayload | src/services/diet.js:59-77 | the mapping leaves the payload of the "new diet" page unchanged |
| FoodList.ToggleSelected | src/pages/Food/index.js:107-114 | an absent id is appended; a present id is removed everywhere and the other ids keep their counts; a duplicate-free selection stays duplicate-free |
| FoodList.ToggleTwice | src/pages/Food/index.js:107-114 | toggling an id twice gives back the same set of ids, and the same sequence when it was absent |
| FoodList.ToggleDropsInPlace | src/pages/Food/index.js:107-114 | unticking a selected id drops it where it stood: the ids before and after it keep their places and order |
| FoodList.SelectAll | src/pages/Food/index.js:98-105 | checked selects exactly the page's ids in page order; unchecked selects nothing |
| FoodList.ClickSort | src/pages/Food/index.js:88-92 | the clicked column becomes the sort column; the direction is descending exactly when that column was already ascending |
| FoodList.ClickSortAlternates | src/pages/Food/index.js:88-92 | repeated clicks on one column alternate the direction |
| FoodList.ChangeRowsPerPage | src/pages/Food/index.js:83-86 | the page goes back to 0 and the size is `parseInt(value, 10)`, NaN when it does not parse |
| FoodList.ChangeRowsPerPageForgetsPaging | src/pages/Food/index.js:83-86 | the new paging does not depend on the old one; choosing the same size again changes nothing; choosing 10 gives the opening paging |
| FoodList.HeaderCheckboxStates | src/pages/Food/index.js:183-184 | the header checkbox is never ticked and dashed at once; select-all on a non-empty page ticks it; clearing leaves it neither |
| FoodList.HeaderIndeterminate | src/pages/Food/index.js:183 | the header checkbox shows a dash when the number of selected ids is above 0 and below the number of rows on the page |
| FoodList.HeaderChecked | src/pages/Food/index.js:184 | the header checkbox is ticked when the page has rows and the number of selected ids equals the number of rows on the page |
| FoodList.ClickDelete | src/pages/Food/index.js:116-120 | the dialog opens only for a non-empty selection and is otherwise left as it was |
| FoodList.SelectionOpensDelete | src/pages/Food/index.js:98-120 | ticking an unselected row, or select-all on a non-empty page, lets the delete button open the dialog; unticking the only row or clearing leaves it as it was |
| Auth.Login | src/services/auth.js:13-19 | only the mock e-mail and password pair succeeds and writes the mock cookie; every other pair fails with the fixed message |
| Auth.JwtSegmentHasEquals | src/services/auth.js:29-30 | a token segment holds an `=` |
| Auth.FirstJwtSegment | src/services/auth.js:29 | the position of the first segment that, trimmed, starts with `jwt=`, and none exactly when no segment does |
| Auth.TokenOf | src/services/auth.js:30 | the token is the second `=`-piece of the segment and holds no `=`, nor a `;` when the segment had none |
| Auth.TokenIn | src/services/auth.js:29-30 | no token exactly when no segment is a token segment; a token holds no `=` |
| Auth.FirstTokenSegmentWins | src/services/auth.js:29-30 | the first token segment decides the token, whatever later segments hold |
| Auth.GetAuthToken | src/services/auth.js:27-31 | there is no token exactly when no `;`-separated segment starts with `jwt=` once trimmed; a token read holds neither `;` nor `=` |
| Auth.IsAuthenticated | src/services/auth.js:33-35 | signed in exactly when a token was found and it is not the empty text, and a signed-in cookie always passes the route guard |
| Auth.RouteGuardSeesToken | src/App.js:20 | the route guard passes exactly when `jwt=` occurs at some position of the cookie string |
| Auth.TokenPassesRouteGuard | src/App.js:20 | every cookie string `getAuthToken` finds a token in holds `jwt=`, so the guard is never stricter than the token reader |
| Auth.SegmentHoldsJwt | src/services/auth.js:29 | a segment that starts with `jwt=` once trimmed holds `jwt=` |
| Auth.JwtPrefixIsSegment | src/services/auth.js:29 | any string starting with `jwt=` is a token segment |
| Auth.TokenOfPrefixed | src/services/auth.js:30 | the segment `jwt=<token>` gives back a token without `=` |
| Auth.WrittenTokenReadsBack | src/services/auth.js:27-31 | a cookie `jwt=<token>; <attributes>` reads back as the token when it holds no `;` or `=` |
| Auth.LoginCookieReadsBack | src/services/auth.js:13-31 | parsing the string `login` assigns gives the mock token, which signs the user in |
| Auth.EmptyTokenIsNotAuthenticated | src/services/auth.js:33-35 | a bare `jwt=` gives the empty token, which does not sign the user in |
| Auth.LogoutCookieSignsOut | src/services/auth.js:22-35 | parsing the string `logout` assigns gives the empty token: not signed in |
| Auth.FirstTokenWins | src/services/auth.js:29 | of two token segments the first one's token is returned |
| Auth.SplitCutToken | src/services/auth.js:30 | splitting `jwt=<token>=<rest>` at `=` gives `jwt`, the token, then the pieces of the rest |
| Auth.TokenIsCutAtEquals | src/services/auth.js:30 | a value holding `=` is cut at it: only the text up to the second `=` is returned |
| Auth.NotJwtSegment | src/services/auth.js:29 | a segment starting with a character that is neither white space nor `j` is not a token segment |
| Auth.RouteGuardIsLooser | src/App.js:20 | a single-segment cookie whose `jwt=` does not start the segment passes the route guard's `includes('jwt=')` test but carries no token and does not sign in |
| FoodCreate.SetField | src/pages/Food/Create.js:71-74 | the named input takes the value and the other five are unchanged |
| FoodCreate.FormExtensionality | src/pages/Food/Create.js:36-43 | two forms holding the same text in all six inputs are the same form |
| FoodCreate.TabChange | src/pages/Food/Create.js:63-67 | the tab switches and both messages are cleared; form, file and loading are unchanged |
| FoodCreate.TabChangeKeepsInput | src/pages/Food/Create.js:63-75 | switching tabs commutes with typing, and it clears the error a refused file left without bringing the file back |
| FoodCreate.InputChange | src/pages/Food/Create.js:69-75 | only the named input changes; nothing else on the page does |
| FoodCreate.InputChangeUndone | src/pages/Food/Create.js:69-75 | typing back an input's previous text restores the page |
| FoodCreate.FileChange | src/pages/Food/Create.js:77-87 | a file is kept exactly when its MIME type is one of the two spreadsheet types, clearing the error; otherwise no file is kept and the error is set |
| FoodCreate.FileSubmit | src/pages/Food/Create.js:122-144 | with no file only the error is set, nothing is sent and loading is not entered; otherwise the file is sent, and success drops it and shows the message while failure shows the thrown message |
| FoodCreate.AcceptedFileIsSent | src/pages/Food/Create.js:77-131 | an import is sent exactly when the chosen file passed the MIME gate |
| FoodCreate.IntOrNaN | src/pages/Food/Create.js:98 | a failed `parseInt` is NaN, and a successful one is exactly the parsed integer as a finite number |
| FoodCreate.RealOrNaN | src/pages/Food/Create.js:99-102 | a failed `parseFloat` is NaN, and a successful one is exactly the parsed number as a finite number |
| FoodCreate.ManualRequest | src/pages/Food/Create.js:96-103 | the description is sent as typed; the serving size is NaN exactly when `parseInt` fails and otherwise the parsed whole number; each macro is NaN or exactly what `parseFloat` gives |
| FoodCreate.ServingSizeIsWhole | src/pages/Food/Create.js:96-103 | under the model's `parseInt`, which yields an integer or fails, the serving size a manual submit sends is NaN or a whole number |
| FoodCreate.ManualSubmit | src/pages/Food/Create.js:89-120 | the converted form is sent; success empties all six inputs and shows the message; failure keeps the form and shows the thrown message; loading ends either way |
| FoodCreate.ManualSubmitResetsForm | src/pages/Food/Create.js:107-114 | after a successful submit the form is the one the page opens with |

## Left out

- Network I/O. All `fetch` calls, HTTP statuses and the services' error mapping are left out. Their outcome is a parameter, and the requests are modelled only up to the body they carry.
- React rendering, JSX, MUI components, styles, layouts and routing are display only. The route guard's single test is modelled as `Auth.RouteGuardSeesToken`.
- `AuthContext`, the simulated delay in `login`, navigation after submit, and the browser's cookie store are left out. The cookie strings `login` and `logout` write are modelled. How `document.cookie` merges and expires cookies is not.
- The `setTimeout` timers that clear success messages involve timing and concurrency.
- Loading the catalogue (`fetchFoods`), the edit page's `fetchDiet` mapping, and the food list's server-side sorting and paging are left out because they are network responses. The catalogue is a parameter.
- The food list's selection survives page changes: neither `handleChangePage` nor `handleChangeRowsPerPage` clears `selected`. The header checkbox tests (`FoodList.HeaderIndeterminate`, `FoodList.HeaderChecked`) therefore compare counts only, and the ids they count may belong to other pages.
- `handleChangePage` and `handleDeleteConfirm` of the food list are left out. The first only stores the page number, and the second is a network call with a dialog.
- `e.target.reset()` after an import is a DOM form reset. The browser's `required` and `accept` attributes on the inputs are also left out.
- Number parsing is abstract. The grammars of `Number`, `parseInt` and `parseFloat` are parameters, and none of them yields an infinity from text in this model. A JavaScript `parseInt` or `Number` of a numeral too long for a double gives Infinity; that case is not modelled.
- IEEE doubles are not modelled: rounding of products, signed zero and 53-bit limits are left out. Numbers are exact reals.
- `toFixed(2)` is modelled as the number its string denotes, not as the string.
- `null` or `undefined` fields are left out: `description?.trim()` on a missing description, and `meal.foodList || []`. Every field of the record exists in the model.
- The JavaScript white-space set is the one `trim` documents. Characters outside the Basic Multilingual Plane are not treated specially.
- FoodCreate.InputChange: the input name is one of the six form fields. The spread `[name]: value` with another name, which would add a seventh property, is not modelled.
- DietEdit.InvalidPortionLeavesRow: this lemma states only that a catalogue row is left unchanged. For a row whose description is not in the catalogue, `DietEdit.ChangeFood` states the plain text store.
